/** Giving space back: pages superseded by a replica leave the stage and the bitmap, the sidecar
    is committed, and their bytes are punched out of `.data`. */
module Releases {
  import opened Bytes
  import opened Pages
  import opened StageOps
  import opened Deltas
  import opened CommitOps
  import opened Sidecars
  import opened FileEntries

  type Range = r: (nat, nat) | r.0 < 0x1_0000_0000_0000_0000 && r.1 < 0x1_0000_0000_0000_0000 witness (0, 0)

  ghost predicate Released(g: Geometry, ranges: seq<Range>, p: nat) {
    exists k :: 0 <= k < |ranges| && Covers(g, ranges[k].0, ranges[k].1, p)
  }

  /** Pages [first, stop) to punch, and the bytes of them that were cached. */
  datatype Span = Span(first: nat, stop: nat, resident: nat)

  predicate InSpan(s: Span, p: nat) { s.first <= p < s.stop }
  ghost predicate InSpans(spans: seq<Span>, p: nat) { exists k :: 0 <= k < |spans| && InSpan(spans[k], p) }

  lemma OneMoreRange(g: Geometry, ranges: seq<Range>, k: nat, p: nat)
    requires k < |ranges|
    ensures Released(g, ranges[..k + 1], p) <==> Released(g, ranges[..k], p) || Covers(g, ranges[k].0, ranges[k].1, p)
  {
    hide Covers;
    var a, b := ranges[..k], ranges[..k + 1];
    if Released(g, a, p) {
      var j :| 0 <= j < |a| && Covers(g, a[j].0, a[j].1, p);
      assert b[j] == a[j];
    }
    if Covers(g, ranges[k].0, ranges[k].1, p) { assert b[k] == ranges[k]; }
    if Released(g, b, p) {
      var j :| 0 <= j < |b| && Covers(g, b[j].0, b[j].1, p);
      if j < k { assert a[j] == b[j]; }
    }
  }

  lemma OneMoreSpan(spans: seq<Span>, s: Span, p: nat)
    ensures InSpans(spans + [s], p) <==> InSpans(spans, p) || InSpan(s, p)
  {
    var more := spans + [s];
    if InSpans(spans, p) {
      var j :| 0 <= j < |spans| && InSpan(spans[j], p);
      assert InSpan(more[j], p);
    }
    if InSpan(s, p) { assert InSpan(more[|spans|], p); }
    if InSpans(more, p) {
      var j :| 0 <= j < |more| && InSpan(more[j], p);
      if j < |spans| { assert InSpan(spans[j], p); }
    }
  }

  /** A span of whole pages lies inside the file. */
  lemma SpanInFile(g: Geometry, r: Range, first: nat, stop: nat)
    requires g.Valid() && first < stop && forall p: nat :: first <= p < stop ==> Covers(g, r.0, r.1, p)
    ensures g.Start(stop) <= g.fileSize
  {
    assert Covers(g, r.0, r.1, stop - 1);
    g.StartNext(stop - 1);
  }

  /** The pages of `mem` in span `k` and in no span before it. */
  ghost function NewIn(mem: set<nat>, spans: seq<Span>, k: nat): set<nat>
    requires k < |spans|
  {
    set p | p in mem && InSpan(spans[k], p) && !InSpans(spans[..k], p)
  }

  /** Each span counts the bytes of the pages that were cached and that no span before it gave
      up. */
  ghost predicate Counted(g: Geometry, mem: set<nat>, spans: seq<Span>)
    requires g.Valid() && Within(g, mem)
  {
    forall k :: 0 <= k < |spans| ==> spans[k].resident == SumBytes(g, NewIn(mem, spans, k))
  }

  lemma CountsOneMore(g: Geometry, mem: set<nat>, spans: seq<Span>, s: Span, went: set<nat>)
    requires g.Valid() && Within(g, mem) && Counted(g, mem, spans)
    requires forall p :: p in went <==> p in mem && !InSpans(spans, p) && InSpan(s, p)
    requires Within(g, went) && s.resident == SumBytes(g, went)
    ensures Counted(g, mem, spans + [s])
  {
    hide InSpans, InSpan, SumBytes;
    var more := spans + [s];
    forall k | 0 <= k < |more| ensures more[k].resident == SumBytes(g, NewIn(mem, more, k)) {
      if k < |spans| {
        assert more[..k] == spans[..k];
        assert NewIn(mem, more, k) == NewIn(mem, spans, k);
      } else {
        assert more[..k] == spans;
        assert NewIn(mem, more, k) == went;
      }
    }
  }

  lemma FewerWithin(g: Geometry, a: set<nat>, b: set<nat>)
    requires g.Valid() && a <= b && Within(g, b)
    ensures Within(g, a)
  {}

  lemma PagesWithin(e: FileEntry)
    requires e.Valid()
    ensures Within(e.g, e.view.mem.Keys)
  {
    forall p <- e.view.mem ensures p < e.g.Npages() { BitAt(e.bits, e.crcs, p); }
  }

  /** The ranges one after another: exactly the pages wholly inside them leave the stage and
      become absent, and those that were present are in the delta the next commit carries and
      are counted once, by the first span they are in. */
  method ReleaseAll(e: FileEntry, ranges: seq<Range>) returns (spans: seq<Span>)
    requires e.Valid()
    modifies e, e.pools
    ensures e.Valid() && e.Others() == old(e.Others()) && (old(e.Honest()) ==> e.Honest())
    ensures e.status == old(e.status).(complete := old(e.status).complete && spans == [])
    ensures forall k :: 0 <= k < |spans| ==> spans[k].first < spans[k].stop && e.g.Start(spans[k].stop) <= e.g.fileSize
    ensures forall p: nat :: InSpans(spans, p) <==> Released(e.g, ranges, p)
    ensures forall p: nat :: Lookup(e.view.mem, p) == if Released(e.g, ranges, p) then None else Lookup(old(e.view).mem, p)
    ensures forall p: nat :: BufAt(e.stage, p) == if Released(e.g, ranges, p) then None else BufAt(old(e.stage), p)
    ensures forall p: nat :: p in old(e.view).mem && Released(e.g, ranges, p) ==> p in e.since.clears
    ensures Within(e.g, old(e.view).mem.Keys) && Counted(e.g, old(e.view).mem.Keys, spans)
  {
    hide FileEntry.Valid, FileEntry.Others, FileEntry.Honest, Geometry.Npages, Geometry.Start, Covers, SumBytes, InSpans, Released, Within, Counted;
    spans := [];
    SinceIs(e);
    PagesWithin(e);
    NoneCounted(e.g, e.view.mem.Keys);
    NothingYet(e.g);
    for k := 0 to |ranges|
      invariant e.Valid() && e.Others() == old(e.Others()) && (old(e.Honest()) ==> e.Honest())
      invariant e.status == old(e.status).(complete := old(e.status).complete && spans == [])
      invariant forall j :: 0 <= j < |spans| ==> spans[j].first < spans[j].stop && e.g.Start(spans[j].stop) <= e.g.fileSize
      invariant forall p: nat :: InSpans(spans, p) <==> Released(e.g, ranges[..k], p)
      invariant forall p: nat :: Lookup(e.view.mem, p) == if Released(e.g, ranges[..k], p) then None else Lookup(old(e.view).mem, p)
      invariant forall p: nat :: BufAt(e.stage, p) == if Released(e.g, ranges[..k], p) then None else BufAt(old(e.stage), p)
      invariant forall p: nat :: p in old(e.view).mem && Released(e.g, ranges[..k], p) ==> p in e.since.clears
      invariant Counted(e.g, old(e.view).mem.Keys, spans)
    {
      ghost var mem1, spans0 := e.view.mem, spans;
      assert forall p: nat :: InSpans(spans0, p) <==> Released(e.g, ranges[..k], p);
      var resident, first, stop := e.ReleaseRange(ranges[k].0, ranges[k].1);
      ghost var went := set p | p in mem1 && first <= p < stop;
      forall p: nat ensures Released(e.g, ranges[..k + 1], p) <==> Released(e.g, ranges[..k], p) || first <= p < stop {
        OneMoreRange(e.g, ranges, k, p);
      }
      forall p: nat | p in old(e.view).mem && first <= p < stop ensures p in e.since.clears {
        assert Lookup(mem1, p) == if Released(e.g, ranges[..k], p) then None else Lookup(old(e.view).mem, p);
      }
      if first < stop {
        SpanInFile(e.g, ranges[k], first, stop);
        var s := Span(first, stop, resident);
        forall p ensures p in went <==> p in old(e.view).mem.Keys && !InSpans(spans, p) && InSpan(s, p) {
          assert Lookup(mem1, p) == if Released(e.g, ranges[..k], p) then None else Lookup(old(e.view).mem, p);
        }
        FewerWithin(e.g, went, old(e.view).mem.Keys);
        CountsOneMore(e.g, old(e.view).mem.Keys, spans, s, went);
        forall p: nat ensures InSpans(spans + [s], p) <==> InSpans(spans, p) || first <= p < stop { OneMoreSpan(spans, s, p); }
        spans := spans + [s];
      }
      forall p: nat ensures InSpans(spans, p) <==> Released(e.g, ranges[..k + 1], p) {
        assert InSpans(spans0, p) <==> Released(e.g, ranges[..k], p);
        assert InSpans(spans, p) <==> InSpans(spans0, p) || first <= p < stop;
      }
    }
    assert ranges[..|ranges|] == ranges;
  }

  lemma NoneCounted(g: Geometry, mem: set<nat>)
    requires g.Valid() && Within(g, mem)
    ensures Counted(g, mem, [])
  {}

  lemma NothingYet(g: Geometry)
    ensures forall p: nat :: !InSpans([], p) && !Released(g, [], p)
  {}

  // ---- punching ----------------------------------------------------------------------------------

  /** Byte `x` lies in one of the first `n` spans whose punch works. */
  ghost predicate InHole(g: Geometry, spans: seq<Span>, punches: nat -> bool, n: nat, x: nat)
    requires n <= |spans|
  {
    exists k :: 0 <= k < n && punches(k) && g.Start(spans[k].first) <= x < g.Start(spans[k].stop)
  }

  ghost predicate Punched(g: Geometry, data0: seq<Byte>, data: seq<Byte>, spans: seq<Span>, punches: nat -> bool, n: nat)
    requires n <= |spans|
  {
    && |data| == |data0|
    && forall x: nat {:trigger data[x]} :: x < |data| ==> data[x] == if InHole(g, spans, punches, n, x) then 0 else data0[x]
  }

  function Given(spans: seq<Span>, punches: nat -> bool, n: nat): nat
    requires n <= |spans|
  {
    if n == 0 then 0 else Given(spans, punches, n - 1) + if punches(n - 1) then spans[n - 1].resident else 0
  }

  /** Page `p` goes with one of the first `n` spans, the first it is in, and that punch works. */
  ghost predicate GoesWith(spans: seq<Span>, punches: nat -> bool, n: nat, p: nat)
    requires n <= |spans|
  {
    exists k :: 0 <= k < n && punches(k) && InSpan(spans[k], p) && !InSpans(spans[..k], p)
  }

  ghost function GoneWith(mem: set<nat>, spans: seq<Span>, punches: nat -> bool, n: nat): set<nat>
    requires n <= |spans|
  {
    set p | p in mem && GoesWith(spans, punches, n, p)
  }

  lemma OneMoreGoes(spans: seq<Span>, punches: nat -> bool, n: nat, p: nat)
    requires n < |spans|
    ensures GoesWith(spans, punches, n + 1, p)
            <==> GoesWith(spans, punches, n, p) || (punches(n) && InSpan(spans[n], p) && !InSpans(spans[..n], p))
    ensures GoesWith(spans, punches, n, p) ==> InSpans(spans[..n], p)
  {
    hide InSpan;
    if GoesWith(spans, punches, n, p) {
      var k :| 0 <= k < n && punches(k) && InSpan(spans[k], p) && !InSpans(spans[..k], p);
      assert spans[..n][k] == spans[k];
    }
  }

  /** What is reported is the bytes of the pages that were cached and have gone, each once. */
  lemma {:induction false} GivenIsSum(g: Geometry, mem: set<nat>, spans: seq<Span>, punches: nat -> bool, n: nat)
    requires g.Valid() && Within(g, mem) && Counted(g, mem, spans) && n <= |spans|
    ensures Given(spans, punches, n) == SumBytes(g, GoneWith(mem, spans, punches, n))
  {
    hide SumBytes, GoesWith, InSpans, InSpan;
    if n == 0 {
      assert GoneWith(mem, spans, punches, n) == {} by { forall p ensures !GoesWith(spans, punches, 0, p) { NoneGoes(spans, punches, p); } }
      SumNone(g);
    } else {
      var k := n - 1;
      GivenIsSum(g, mem, spans, punches, k);
      forall p ensures GoesWith(spans, punches, n, p) <==> GoesWith(spans, punches, k, p) || (punches(k) && InSpan(spans[k], p) && !InSpans(spans[..k], p))
               ensures GoesWith(spans, punches, k, p) ==> InSpans(spans[..k], p)
      {
        OneMoreGoes(spans, punches, k, p);
      }
      var a, b := GoneWith(mem, spans, punches, k), if punches(k) then NewIn(mem, spans, k) else {};
      assert GoneWith(mem, spans, punches, n) == a + b;
      SumUnion(g, a, b);
      SumNone(g);
    }
  }

  lemma NoneGoes(spans: seq<Span>, punches: nat -> bool, p: nat)
    ensures !GoesWith(spans, punches, 0, p)
  {}

  lemma OneMoreHole(g: Geometry, data0: seq<Byte>, data: seq<Byte>, spans: seq<Span>, punches: nat -> bool, k: nat)
    requires k < |spans| && Punched(g, data0, data, spans, punches, k)
    requires g.Start(spans[k].first) <= g.Start(spans[k].stop) <= |data|
    ensures var lo, hi := g.Start(spans[k].first), g.Start(spans[k].stop);
            Punched(g, data0, if punches(k) then Put(data, lo, Zeros(hi - lo)) else data, spans, punches, k + 1)
  {
    hide Geometry.Start, Has;
    var lo, hi := g.Start(spans[k].first), g.Start(spans[k].stop);
    var data' := if punches(k) then Put(data, lo, Zeros(hi - lo)) else data;
    forall x: nat | x < |data'| ensures data'[x] == if InHole(g, spans, punches, k + 1, x) then 0 else data0[x] {
      assert InHole(g, spans, punches, k + 1, x) <==> InHole(g, spans, punches, k, x) || (punches(k) && lo <= x < hi);
      if punches(k) && lo <= x < hi { HoleByte(data, lo, hi, x); }
      else { assert data'[x] == data[x]; }
    }
  }

  lemma HoleByte(data: seq<Byte>, lo: nat, hi: nat, x: nat)
    requires lo <= x < hi <= |data|
    ensures Put(data, lo, Zeros(hi - lo))[x] == 0
  {
    assert Put(data, lo, Zeros(hi - lo))[lo..hi][x - lo] == 0;
  }

  method Punch(g: Geometry, data0: seq<Byte>, spans: seq<Span>, punches: nat -> bool) returns (data: seq<Byte>, punched: nat)
    requires g.Valid() && g.fileSize <= |data0|
    requires forall k :: 0 <= k < |spans| ==> spans[k].first < spans[k].stop && g.Start(spans[k].stop) <= g.fileSize
    ensures Punched(g, data0, data, spans, punches, |spans|) && punched == Given(spans, punches, |spans|)
  {
    hide Geometry.Start, Put;
    data, punched := data0, 0;
    for k := 0 to |spans|
      invariant |data| == |data0| && Punched(g, data0, data, spans, punches, k) && punched == Given(spans, punches, k)
    {
      g.StartMono(spans[k].first, spans[k].stop);
      OneMoreHole(g, data0, data, spans, punches, k);
      var lo, hi := g.Start(spans[k].first), g.Start(spans[k].stop);
      if punches(k) {
        data := Put(data, lo, Zeros(hi - lo));
        punched := punched + spans[k].resident;
      }
    }
  }

  // ---- the whole call -------------------------------------------------------------------------------

  /** releaseRanges. The pages wholly inside the ranges leave the stage; if there are any, the
      sidecar is committed and only then their bytes are punched, whatever became of the
      commit. If it was stored, no page that this handle had present is still on the disk's
      bitmap when its bytes go. Nothing else of `.data` changes, and the bytes reported are those
      of the pages it had whose bytes are gone, each counted once, with the first span it is
      in. */
  method ReleaseRanges(e: FileEntry, ranges: seq<Range>, storeOk: bool, unlinked: bool, punches: nat -> bool)
    returns (punched: nat, spans: seq<Span>)
    requires e.Valid() && |e.data.bytes| >= e.g.fileSize && (e.sidecar.meta.Some? ==> e.sidecar.meta.value.Loaded())
    modifies e, e.pools, e.data, e.sidecar
    ensures e.Valid() && e.Others() == old(e.Others()) && (old(e.Honest()) ==> e.Honest())
    ensures forall p: nat :: BufAt(e.stage, p) == if Released(e.g, ranges, p) then None else BufAt(old(e.stage), p)
    ensures forall p: nat :: InSpans(spans, p) <==> Released(e.g, ranges, p)
    ensures Punched(e.g, old(e.data.bytes), e.data.bytes, spans, punches, |spans|) && punched == Given(spans, punches, |spans|)
    ensures storeOk && !unlinked ==> forall p: nat :: p in old(e.view).mem && Released(e.g, ranges, p) ==>
              e.sidecar.meta.Some? && e.sidecar.meta.value.Loaded() && p !in e.sidecar.meta.value.Image()
    ensures spans == [] ==> e.sidecar.meta == old(e.sidecar.meta)
    ensures Within(e.g, old(e.view).mem.Keys) && punched == SumBytes(e.g, GoneWith(old(e.view).mem.Keys, spans, punches, |spans|))
  {
    hide FileEntry.Valid, Released, InSpans, Punched, Given, Within, Counted, GoneWith, SumBytes, Geometry.Npages, Geometry.Start, CommitOf, ViewInv,
         ImageOf, FileEntry.Honest;
    SinceIs(e);
    spans := ReleaseAll(e, ranges);
    if spans == [] {
      forall p: nat ensures !Released(e.g, ranges, p) { NoSpans(p); }
    } else {
      SinceIs(e);
      ghost var a, m0 := e.Here(), e.sidecar.meta;
      e.FlushMeta(storeOk, unlinked);
      if storeOk && !unlinked {
        forall p: nat | p in old(e.view).mem && Released(e.g, ranges, p)
          ensures e.sidecar.meta.Some? && e.sidecar.meta.value.Loaded() && p !in e.sidecar.meta.value.Image()
        {
          assert Lookup(a.view.mem, p) == None && p in a.view.since.clears;
          CommitLands(e.g, e.mode, e.version, a, m0, e.Here(), e.sidecar.meta, p);
        }
      }
    }
    e.data.bytes, punched := Punch(e.g, e.data.bytes, spans, punches);
    GivenIsSum(e.g, old(e.view).mem.Keys, spans, punches, |spans|);
  }

  lemma SinceIs(e: FileEntry)
    requires e.Valid()
    ensures e.since == e.view.since && e.view.phase.Idle? && (e.since != NO_DELTA ==> e.dirty) && e.g.Valid()
    ensures e.view.since.sets <= e.view.mem.Keys && ViewInv(e.view)
  {
    SnapshotSets(e.view);
  }

  lemma NoSpans(p: nat)
    ensures !InSpans([], p)
  {}
}
