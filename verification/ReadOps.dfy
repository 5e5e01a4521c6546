/** The cached read as it is performed: planned under one lock, then one read per run of
    contiguous pages, each page verified out of the run's buffer. */
module ReadOps {
  import opened Bytes
  import opened Pages
  import opened Stages
  import opened StageOps
  import opened Deltas
  import opened Reads

  /** Contiguous pages read with one pread, and the CRCs they must carry. */
  datatype Run = Run(first: nat, last: nat, want: seq<U32>)

  /** What a pread of [at, at + n) returns when `.data` holds `d`: short at its end. */
  function Pread(d: seq<Byte>, at: nat, n: nat): (r: seq<Byte>)
    ensures |r| <= n
  {
    if at >= |d| then [] else d[at..Min(at + n, |d|)]
  }

  // ---- planning ------------------------------------------------------------------------------

  predicate InRun(r: Run, p: nat) { r.first <= p <= r.last }

  ghost predicate InRuns(runs: seq<Run>, p: nat) {
    exists k :: 0 <= k < |runs| && InRun(runs[k], p)
  }

  /** A run is inside the file, no longer than one read may be, and carries the recorded
      CRCs of its pages, none of which is staged. */
  ghost predicate RunOk(g: Geometry, mem: Image, s: Stage, r: Run)
    requires g.Valid()
  {
    && r.first <= r.last < g.Npages()
    && (r.first == r.last || g.RunBytes(r.first, r.last) <= 0x10_0000)
    && |r.want| == r.last - r.first + 1
    && forall p :: r.first <= p <= r.last ==> !s.Holds(p) && p in mem && r.want[p - r.first] == mem[p]
  }

  ghost predicate PlanOf(g: Geometry, mem: Image, s: Stage, runs: seq<Run>, first: nat, stop: nat)
    requires g.Valid()
  {
    && (forall k :: 0 <= k < |runs| ==> RunOk(g, mem, s, runs[k]) && first <= runs[k].first && runs[k].last < stop)
    && (forall j, k :: 0 <= j < k < |runs| ==> runs[j].last < runs[k].first)
    && (forall p: nat {:trigger s.Holds(p)} :: first <= p < stop ==> s.Holds(p) || InRuns(runs, p))
  }

  /** Where in the file page `p` and the request [off, end) meet. */
  function Lo(g: Geometry, off: nat, p: nat): nat { Max(off, g.Start(p)) }
  function Hi(g: Geometry, end: nat, p: nat): nat
    requires g.Valid() && p < g.Npages()
  {
    Min(end, g.End(p))
  }

  /** The bytes of page `p` are where the caller wants them. */
  ghost predicate Placed(g: Geometry, out: seq<Byte>, off: nat, end: nat, p: nat, page: seq<Byte>)
    requires g.Valid() && p < g.Npages()
  {
    && Lo(g, off, p) <= Hi(g, end, p)
    && |Piece(g, page, p, off, end)| == Hi(g, end, p) - Lo(g, off, p)
    && Has(out, Lo(g, off, p) - off, Piece(g, page, p, off, end))
  }

  function HeldData(s: Stage, p: nat): seq<Byte>
    requires s.Holds(p)
  {
    if p in s.buf then s.buf[p].data else s.flushing[p].data
  }

  /** The stage once an accounted read has served the pages [lo, hi) of it. */
  function Served(g: Geometry, s: Stage, lo: nat, hi: nat): Stage
    requires g.Valid() && lo <= hi <= g.Npages()
    decreases hi
  {
    if lo == hi then s else var t := Served(g, s, lo, hi - 1); ServePage(t, hi - 1, g.PageBytes(hi - 1))
  }

  lemma {:induction false} ServedKeeps(g: Geometry, s: Stage, lo: nat, hi: nat)
    requires g.Valid() && lo <= hi <= g.Npages() && StageInv(g, s)
    ensures StageInv(g, Served(g, s, lo, hi)) && SamePaid(s, Served(g, s, lo, hi))
    ensures Served(g, s, lo, hi).flushing == s.flushing
    ensures forall p: nat {:trigger BufAt(Served(g, s, lo, hi), p)} ::
              BufAt(Served(g, s, lo, hi), p)
              == if lo <= p < hi && p in s.buf then Some(s.buf[p].(spec := false)) else BufAt(s, p)
    decreases hi
  {
    hide StageInv, Geometry.Npages, Geometry.PageBytes;
    if lo < hi {
      ServedKeeps(g, s, lo, hi - 1);
      var t := Served(g, s, lo, hi - 1);
      ServeKeeps(g, t, hi - 1);
      ServeLocal(t, hi - 1, g.PageBytes(hi - 1));
      assert BufAt(t, hi - 1) == BufAt(s, hi - 1);
    }
  }

  lemma ServeLocal(s: Stage, p: nat, nb: nat)
    ensures ServePage(s, p, nb).flushing == s.flushing
    ensures BufAt(ServePage(s, p, nb), p) == if p in s.buf then Some(s.buf[p].(spec := false)) else None
    ensures forall q: nat {:trigger BufAt(ServePage(s, p, nb), q)} :: q != p ==> BufAt(ServePage(s, p, nb), q) == BufAt(s, q)
  {}

  lemma PieceIs(g: Geometry, off: nat, end: nat, p: nat, page: seq<Byte>)
    requires g.Valid() && p < g.Npages() && |page| == g.PageBytes(p)
    requires off < g.End(p) && g.Start(p) < end && off < end
    ensures off <= Lo(g, off, p) < Hi(g, end, p) <= end
    ensures |Piece(g, page, p, off, end)| == Hi(g, end, p) - Lo(g, off, p)
    ensures Hi(g, end, p) - g.Start(p) <= |page|
    ensures Piece(g, page, p, off, end) == page[Lo(g, off, p) - g.Start(p)..Hi(g, end, p) - g.Start(p)]
  {
    g.EndIsNextStart(p);
  }

  /** Copy page `p`'s piece into the caller's buffer. */
  function Place(g: Geometry, off: nat, end: nat, p: nat, page: seq<Byte>, out: seq<Byte>): (r: seq<Byte>)
    requires g.Valid() && p < g.Npages() && |page| == g.PageBytes(p) && |out| == end - off
    requires off < g.End(p) && g.Start(p) < end && off < end
    ensures |r| == |out|
  {
    PieceIs(g, off, end, p, page);
    Put(out, Lo(g, off, p) - off, page[Lo(g, off, p) - g.Start(p)..Hi(g, end, p) - g.Start(p)])
  }

  lemma PiecesDisjoint(g: Geometry, off: nat, end: nat, p: nat, q: nat)
    requires g.Valid() && p < g.Npages() && q < g.Npages() && p != q
    ensures Hi(g, end, p) <= Lo(g, off, q) || Hi(g, end, q) <= Lo(g, off, p)
  {
    if q < p { g.PageOrder(q, p); } else { g.PageOrder(p, q); }
  }

  lemma PutBeside(buf: seq<Byte>, at: nat, x: seq<Byte>, o: nat, y: seq<Byte>)
    requires at + |x| <= |buf| && Has(buf, o, y) && (o + |y| <= at || at + |x| <= o)
    ensures Has(Put(buf, at, x), o, y)
  {}

  /** The piece is then in place. */
  lemma PlaceDone(g: Geometry, off: nat, end: nat, p: nat, page: seq<Byte>, out: seq<Byte>)
    requires g.Valid() && p < g.Npages() && |page| == g.PageBytes(p) && |out| == end - off
    requires off < g.End(p) && g.Start(p) < end && off < end
    ensures Placed(g, Place(g, off, end, p, page, out), off, end, p, page)
  {
    hide Piece, Has, Lo, Hi, Geometry.Start, Geometry.PageBytes, Geometry.Npages, Geometry.End;
    PieceIs(g, off, end, p, page);
  }

  /** Every other piece that was in place still is. */
  lemma PlaceKeeps(g: Geometry, off: nat, end: nat, p: nat, page: seq<Byte>, out: seq<Byte>, q: nat, other: seq<Byte>)
    requires g.Valid() && p < g.Npages() && |page| == g.PageBytes(p) && |out| == end - off
    requires off < g.End(p) && g.Start(p) < end && off < end
    requires q < g.Npages() && q != p && Placed(g, out, off, end, q, other) && off <= Lo(g, off, q)
    ensures Placed(g, Place(g, off, end, p, page, out), off, end, q, other)
  {
    hide Piece, Has, Put, Hi, Geometry.Start, Geometry.PageBytes, Geometry.Npages, Geometry.End;
    PieceIs(g, off, end, p, page);
    PiecesDisjoint(g, off, end, p, q);
    PutBeside(out, Lo(g, off, p) - off, page[Lo(g, off, p) - g.Start(p)..Hi(g, end, p) - g.Start(p)],
              Lo(g, off, q) - off, Piece(g, other, q, off, end));
  }

  /** Add page `i` to the plan: to the last run if it continues it and the run stays
      within one read, else as a run of its own. */
  function Planned(g: Geometry, runs: seq<Run>, i: nat, c: U32): seq<Run>
    requires g.Valid() && i < g.Npages()
  {
    if runs != [] && runs[|runs| - 1].first < runs[|runs| - 1].last + 1 == i && g.RunBytes(runs[|runs| - 1].first, i) <= MAX_READ
    then
      var r := runs[|runs| - 1];
      runs[..|runs| - 1] + [Run(r.first, i, r.want + [c])]
    else runs + [Run(i, i, [c])]
  }

  /** The runs planned for the pages [first, stop): present pages that are not staged. */
  function PlannedRuns(g: Geometry, mem: Image, s: Stage, first: nat, stop: nat): seq<Run>
    requires g.Valid() && first <= stop <= g.Npages()
    decreases stop
  {
    if stop == first then []
    else
      var before := PlannedRuns(g, mem, s, first, stop - 1);
      if s.Holds(stop - 1) || stop - 1 !in mem then before else Planned(g, before, stop - 1, mem[stop - 1])
  }

  lemma PlannedNext(g: Geometry, mem: Image, s: Stage, first: nat, i: nat)
    requires g.Valid() && first <= i < g.Npages()
    ensures PlannedRuns(g, mem, s, first, first) == []
    ensures PlannedRuns(g, mem, s, first, i + 1)
            == if s.Holds(i) || i !in mem then PlannedRuns(g, mem, s, first, i)
               else Planned(g, PlannedRuns(g, mem, s, first, i), i, mem[i])
  {
    hide Planned;
  }

  lemma LastRunOk(g: Geometry, mem: Image, s: Stage, runs: seq<Run>, first: nat, i: nat)
    requires g.Valid() && i < g.Npages() && first <= i && PlanOf(g, mem, s, runs, first, i)
    requires !s.Holds(i) && i in mem
    ensures var r := Planned(g, runs, i, mem[i])[|Planned(g, runs, i, mem[i])| - 1]; RunOk(g, mem, s, r) && r.first <= i
  {
    hide Geometry.RunBytes, Geometry.Npages;
    if runs != [] { assert RunOk(g, mem, s, runs[|runs| - 1]); }
  }

  lemma PlannedKeeps(g: Geometry, mem: Image, s: Stage, runs: seq<Run>, first: nat, i: nat)
    requires g.Valid() && i < g.Npages() && first <= i && PlanOf(g, mem, s, runs, first, i)
    requires !s.Holds(i) && i in mem
    ensures PlanOf(g, mem, s, Planned(g, runs, i, mem[i]), first, i + 1)
  {
    hide Geometry.RunBytes, Geometry.Npages, RunOk;
    LastRunOk(g, mem, s, runs, first, i);
    var runs' := Planned(g, runs, i, mem[i]);
    var n := |runs'| - 1;
    assert first <= runs'[n].first && runs'[n].last == i;
    forall p: nat | first <= p <= i && !s.Holds(p) ensures InRuns(runs', p) {
      if p == i {
        assert InRun(runs'[n], i);
      } else {
        assert InRuns(runs, p);
        var k :| 0 <= k < |runs| && InRun(runs[k], p);
        assert runs'[k] == runs[k] || (k == n && runs'[n].first == runs[k].first);
        assert InRun(runs'[k], p);
      }
    }
  }

  /** No two runs could have been one: where one ends right before the other starts, one page more
      would have made it longer than a read may be. */
  ghost predicate Coalesced(g: Geometry, runs: seq<Run>)
    requires g.Valid()
  {
    forall j, k :: 0 <= j < k < |runs| && runs[j].last + 1 == runs[k].first ==>
      runs[j].first <= runs[k].first < g.Npages() && g.RunBytes(runs[j].first, runs[k].first) > 0x10_0000
  }

  lemma NothingToJoin(g: Geometry)
    requires g.Valid()
    ensures Coalesced(g, [])
  {}

  lemma PlannedCoalesces(g: Geometry, mem: Image, s: Stage, runs: seq<Run>, first: nat, i: nat)
    requires g.Valid() && i < g.Npages() && first <= i && PlanOf(g, mem, s, runs, first, i) && Coalesced(g, runs)
    requires !s.Holds(i) && i in mem
    ensures Coalesced(g, Planned(g, runs, i, mem[i]))
  {
    hide Geometry.RunBytes, Geometry.Npages;
    var runs' := Planned(g, runs, i, mem[i]);
    var n := |runs'| - 1;
    forall j, k | 0 <= j < k < |runs'| && runs'[j].last + 1 == runs'[k].first
      ensures runs'[j].first <= runs'[k].first < g.Npages() && g.RunBytes(runs'[j].first, runs'[k].first) > 0x10_0000
    {
      assert runs'[j] == runs[j] && RunOk(g, mem, s, runs[j]);
    }
  }

  /** The pages [lo, hi) of the stage are in place in the caller's buffer. */
  ghost predicate HeldPlaced(g: Geometry, s: Stage, out: seq<Byte>, off: nat, end: nat, lo: nat, hi: nat)
    requires g.Valid() && hi <= g.Npages()
  {
    forall p: nat {:trigger s.Holds(p)} :: lo <= p < hi && s.Holds(p) ==> Placed(g, out, off, end, p, HeldData(s, p))
  }

  /** Staged pages hold as many bytes as their page. */
  ghost predicate HeldSized(g: Geometry, s: Stage)
    requires g.Valid()
  {
    forall p: nat {:trigger s.Holds(p)} :: p < g.Npages() && s.Holds(p) ==> |HeldData(s, p)| == g.PageBytes(p)
  }

  /** Every page of a request meets it. */
  lemma InRequest(g: Geometry, off: nat, len: nat, p: nat)
    requires g.Valid() && len > 0 && off + len <= g.fileSize
    requires g.PageOf(off) <= p <= g.PageOf(off + len - 1)
    ensures p < g.Npages() && off < g.End(p) && g.Start(p) < off + len && off <= Lo(g, off, p)
  {
    g.PageOfFacts(off);
    g.PageOfFacts(off + len - 1);
    g.StartMono(p, g.PageOf(off + len - 1));
    g.StartMono(g.PageOf(off) + 1, p + 1);
    g.EndIsNextStart(p);
  }

  /** Plan a read under the lock: staged pages are copied out, the rest gathered into
      runs; an absent page ends it. With accounting, served predictions become real. */
  method Plan(g: Geometry, mem: Image, s0: Stage, off: nat, len: nat, account: bool)
    returns (ok: bool, s: Stage, out: seq<Byte>, runs: seq<Run>, ghost stop: nat)
    requires g.Valid() && len > 0 && off + len <= g.fileSize && StageInv(g, s0) && HeldSized(g, s0)
    ensures g.PageOf(off) <= stop <= g.PageOf(off + len - 1) + 1 <= g.Npages()
    ensures ok ==> stop == g.PageOf(off + len - 1) + 1
    ensures !ok ==> stop <= g.PageOf(off + len - 1) && !s0.Holds(stop) && stop !in mem
    ensures StageInv(g, s) && SamePaid(s0, s)
    ensures s == if account then Served(g, s0, g.PageOf(off), Min(stop, g.Npages())) else s0
    ensures |out| == len
    ensures PlanOf(g, mem, s0, runs, g.PageOf(off), stop)
    ensures runs == PlannedRuns(g, mem, s0, g.PageOf(off), stop) && Coalesced(g, runs)
    ensures HeldPlaced(g, s0, out, off, off + len, g.PageOf(off), stop)
  {
    hide StageInv, PlanOf, Placed, Place, Served, Planned, PlannedRuns, Coalesced, Geometry.Npages, Geometry.PageBytes, Geometry.Start,
         Geometry.PageOf, Geometry.End, Geometry.RunBytes;
    g.PageOfFacts(off);
    g.PageOfFacts(off + len - 1);
    FirstBeforeLast(g, off, off + len - 1);
    var first, last := g.PageOf(off), g.PageOf(off + len - 1);
    ok, s, out, runs := true, s0, Zeros(len), [];
    stop := first;
    PlanEmpty(g, mem, s0, first);
    NothingToJoin(g);
    PlannedNext(g, mem, s0, first, first);
    var i := first;
    while i <= last
      invariant first <= i <= last + 1 && stop == i && ok
      invariant runs == PlannedRuns(g, mem, s0, first, i) && Coalesced(g, runs)
      invariant StageInv(g, s) && SamePaid(s0, s) && s == if account then Served(g, s0, first, i) else s0
      invariant |out| == len && PlanOf(g, mem, s0, runs, first, i)
      invariant HeldPlaced(g, s0, out, off, off + len, first, i)
    {
      InRequest(g, off, len, i);
      PlannedNext(g, mem, s0, first, i);
      if s0.Holds(i) {
        var page := HeldData(s0, i);
        PlaceHeld(g, s0, off, len, first, i, out);
        out := Place(g, off, off + len, i, page, out);
        PlanHeld(g, mem, s0, runs, first, i);
      } else if i !in mem {
        ServedKeeps(g, s0, first, i);
        ok := false;
        return;
      } else {
        PlannedKeeps(g, mem, s0, runs, first, i);
        PlannedCoalesces(g, mem, s0, runs, first, i);
        runs := Planned(g, runs, i, mem[i]);
      }
      if account {
        ServedNext(g, s0, first, i);
        s := ServePage(s, i, g.PageBytes(i));
        ServedKeeps(g, s0, first, i + 1);
      }
      i := i + 1;
      stop := i;
    }
  }

  lemma PlanEmpty(g: Geometry, mem: Image, s: Stage, first: nat)
    requires g.Valid() && first <= g.Npages()
    ensures PlanOf(g, mem, s, [], first, first) && Served(g, s, first, first) == s
  {}

  lemma ServedNext(g: Geometry, s: Stage, lo: nat, i: nat)
    requires g.Valid() && lo <= i < g.Npages()
    ensures Served(g, s, lo, i + 1) == ServePage(Served(g, s, lo, i), i, g.PageBytes(i))
  {}

  lemma PlanHeld(g: Geometry, mem: Image, s: Stage, runs: seq<Run>, first: nat, i: nat)
    requires g.Valid() && PlanOf(g, mem, s, runs, first, i) && s.Holds(i)
    ensures PlanOf(g, mem, s, runs, first, i + 1)
  {}

  lemma PlaceHeld(g: Geometry, s: Stage, off: nat, len: nat, first: nat, i: nat, out: seq<Byte>)
    requires g.Valid() && len > 0 && off + len <= g.fileSize && HeldSized(g, s) && |out| == len
    requires first == g.PageOf(off) <= i <= g.PageOf(off + len - 1) && i < g.Npages() && s.Holds(i)
    requires HeldPlaced(g, s, out, off, off + len, first, i)
    ensures off < g.End(i) && g.Start(i) < off + len
    ensures HeldPlaced(g, s, Place(g, off, off + len, i, HeldData(s, i), out), off, off + len, first, i + 1)
  {
    hide Placed, Place, Geometry.Npages, Geometry.PageBytes, Geometry.Start, Geometry.PageOf, Geometry.End;
    InRequest(g, off, len, i);
    var page := HeldData(s, i);
    var out' := Place(g, off, off + len, i, page, out);
    forall p: nat | first <= p < i + 1 && s.Holds(p)
      ensures Placed(g, out', off, off + len, p, HeldData(s, p))
    {
      InRequest(g, off, len, p);
      if p == i { PlaceDone(g, off, off + len, i, page, out); }
      else { PlaceKeeps(g, off, off + len, i, page, out, p, HeldData(s, p)); }
    }
  }
}
