/** Draining the fill buffer: staged pages merged into runs, one write per run. */
module RunWrites {
  import opened Bytes
  import opened Pages
  import opened Stages

  /** Staged pages lie in the file and hold as many bytes as their page. */
  ghost predicate Sized(g: Geometry, m: map<nat, Staged>)
    requires g.Valid()
  {
    forall p <- m :: p < g.Npages() && |m[p].data| == g.PageBytes(p)
  }

  /** Page `p` of the data file is `x`. */
  predicate PageIs(g: Geometry, data: seq<Byte>, p: nat, x: seq<Byte>) { Has(data, g.Start(p), x) }

  ghost predicate SamePage(g: Geometry, data: seq<Byte>, was: seq<Byte>, p: nat)
    requires g.Valid() && p < g.Npages() && |data| == |was| >= g.fileSize
  {
    g.EndIsNextStart(p);
    data[g.Start(p)..g.End(p)] == was[g.Start(p)..g.End(p)]
  }

  lemma HasAppend(run: seq<Byte>, more: seq<Byte>, o: nat, x: seq<Byte>)
    requires Has(run, o, x)
    ensures Has(run + more, o, x)
  {
    assert (run + more)[o..o + |x|] == run[o..o + |x|];
  }

  /** Bytes of `k` whole pages, short of the write limit, leave room for one more page. */
  lemma RoomForPage(p: nat, k: nat)
    requires ValidPageSize(p) && k * p < MAX_WRITE
    ensures k * p + p <= MAX_WRITE
  {}

  /** The pages [first, i) of the snapshot, one after another. */
  ghost predicate RunIs(g: Geometry, m: map<nat, Staged>, run: seq<Byte>, first: nat, i: nat)
    requires g.Valid()
  {
    && first <= i <= g.Npages()
    && (forall p: nat {:trigger p in m} :: first <= p < i ==>
          p in m && g.Start(first) <= g.Start(p) && Has(run, g.Start(p) - g.Start(first), m[p].data))
    && |run| == (if first == i then 0 else g.RunBytes(first, i - 1))
  }

  /** Collect the run that starts at page `first`. */
  method CollectRun(g: Geometry, m: map<nat, Staged>, first: nat) returns (run: seq<Byte>, i: nat)
    requires g.Valid() && ValidPageSize(g.pageSize) && Sized(g, m) && first in m
    ensures first < i && RunIs(g, m, run, first, i) && |run| <= MAX_WRITE
    ensures i in m ==> |run| == MAX_WRITE
  {
    hide Geometry.Npages, Geometry.PageBytes, Geometry.Start, Geometry.RunBytes, Geometry.End, Has;
    run, i := [], first;
    while i in m && |run| < MAX_WRITE
      invariant first <= i && RunIs(g, m, run, first, i) && |run| <= MAX_WRITE
      invariant i in m ==> |run| == g.Start(i) - g.Start(first)
      decreases g.Npages() - i
    {
      RunGrows(g, m, run, first, i);
      run := run + m[i].data;
      i := i + 1;
    }
    StillRoom(g, m, run, first, i);
  }

  lemma StillRoom(g: Geometry, m: map<nat, Staged>, run: seq<Byte>, first: nat, i: nat)
    requires g.Valid() && ValidPageSize(g.pageSize) && first in m && RunIs(g, m, run, first, i) && |run| <= MAX_WRITE
    requires !(i in m && |run| < MAX_WRITE)
    ensures first < i && (i in m ==> |run| == MAX_WRITE)
  {}

  lemma RunGrows(g: Geometry, m: map<nat, Staged>, run: seq<Byte>, first: nat, i: nat)
    requires g.Valid() && ValidPageSize(g.pageSize) && Sized(g, m) && first <= i && i in m && RunIs(g, m, run, first, i)
    requires |run| == g.Start(i) - g.Start(first) && |run| < MAX_WRITE
    ensures RunIs(g, m, run + m[i].data, first, i + 1) && |run + m[i].data| <= MAX_WRITE
    ensures i + 1 in m ==> |run + m[i].data| == g.Start(i + 1) - g.Start(first)
  {
    hide Geometry.Npages, Geometry.PageBytes, Geometry.Start, Geometry.RunBytes, Geometry.End, Has;
    g.EndIsNextStart(i);
    g.StartMono(first, i);
    RunSizes(g, first, i);
    var run' := run + m[i].data;
    HasTail(run, m[i].data);
    forall p: nat | first <= p < i
      ensures g.Start(first) <= g.Start(p) && Has(run', g.Start(p) - g.Start(first), m[p].data)
    {
      assert p in m;
      HasAppend(run, m[i].data, g.Start(p) - g.Start(first), m[p].data);
    }
  }

  lemma HasTail(run: seq<Byte>, x: seq<Byte>)
    ensures Has(run + x, |run|, x)
  {}

  /** One more page makes the run longer by that page, and still not too long. */
  lemma RunSizes(g: Geometry, first: nat, i: nat)
    requires g.Valid() && ValidPageSize(g.pageSize) && first <= i < g.Npages() && g.Start(i) - g.Start(first) < MAX_WRITE
    ensures g.RunBytes(first, i) == g.Start(i) - g.Start(first) + g.PageBytes(i) <= MAX_WRITE
    ensures i + 1 < g.Npages() ==> g.Start(i) + g.PageBytes(i) == g.Start(i + 1)
  {
    g.EndIsNextStart(i);
    RunStart(g, first, i);
    RoomForPage(g.pageSize, i - first);
  }

  lemma RunStart(g: Geometry, first: nat, i: nat)
    requires first <= i
    ensures g.Start(i) - g.Start(first) == (i - first) * g.pageSize
  {}

  // ---- the drain ------------------------------------------------------------------------------

  /** Byte `x` of the file, as the snapshot has it. */
  function StagedByte(g: Geometry, m: map<nat, Staged>, x: nat): Byte
    requires g.Valid() && x < g.fileSize && g.PageOf(x) in m && |m[g.PageOf(x)].data| == PageLen(g, x)
  {
    g.PageOfFacts(x);
    m[g.PageOf(x)].data[x - g.Start(g.PageOf(x))]
  }

  /** Bytes of the page that holds byte `x`. */
  function PageLen(g: Geometry, x: nat): (n: nat)
    requires g.Valid() && x < g.fileSize
    ensures x - g.Start(g.PageOf(x)) < n
  {
    g.PageOfFacts(x);
    g.EndIsNextStart(g.PageOf(x));
    g.PageBytes(g.PageOf(x))
  }

  /** Page-by-page writing up to byte `limit`: what lies before it and is in the snapshot is the
      snapshot's, everything else is as it was. */
  ghost predicate Written(g: Geometry, m: map<nat, Staged>, data0: seq<Byte>, data: seq<Byte>, limit: nat)
    requires g.Valid() && Sized(g, m)
  {
    && |data| == |data0|
    && forall x: nat {:trigger data[x]} :: x < |data| ==>
         data[x] == if x < limit && x < g.fileSize && g.PageOf(x) in m then StagedByte(g, m, x) else data0[x]
  }

  lemma NothingWritten(g: Geometry, m: map<nat, Staged>, data0: seq<Byte>)
    requires g.Valid() && Sized(g, m)
    ensures Written(g, m, data0, data0, g.Start(0))
  {}

  /** No byte of the snapshot lies in a page it does not hold, nor past the file's end. */
  lemma NoneBetween(g: Geometry, m: map<nat, Staged>, data0: seq<Byte>, data: seq<Byte>, lo: nat, hi: nat)
    requires g.Valid() && Sized(g, m) && Written(g, m, data0, data, lo) && lo <= hi
    requires forall x: nat :: lo <= x < hi && x < g.fileSize ==> g.PageOf(x) !in m
    ensures Written(g, m, data0, data, hi)
  {
    hide StagedByte, Geometry.PageOf;
  }

  lemma SkipPage(g: Geometry, m: map<nat, Staged>, data0: seq<Byte>, data: seq<Byte>, i: nat)
    requires g.Valid() && Sized(g, m) && Written(g, m, data0, data, g.Start(i)) && i !in m
    ensures Written(g, m, data0, data, g.Start(i + 1))
  {
    hide Written, Sized, Geometry.Start, Geometry.PageOf;
    forall x: nat | g.Start(i) <= x < g.Start(i + 1) ensures g.PageOf(x) == i { PageBetween(g, i, x); }
    g.StartMono(i, i + 1);
    NoneBetween(g, m, data0, data, g.Start(i), g.Start(i + 1));
  }

  lemma PageBetween(g: Geometry, i: nat, x: nat)
    requires g.Valid() && g.Start(i) <= x < g.Start(i + 1)
    ensures g.PageOf(x) == i
  {
    g.PageOfFacts(x);
    if g.PageOf(x) < i { g.StartMono(g.PageOf(x) + 1, i); }
    if g.PageOf(x) > i { g.StartMono(i + 1, g.PageOf(x)); }
  }

  /** The byte of a run that is byte `x` of the file. */
  lemma RunByte(g: Geometry, m: map<nat, Staged>, run: seq<Byte>, first: nat, i: nat, x: nat)
    requires g.Valid() && Sized(g, m) && first < i && RunIs(g, m, run, first, i)
    requires g.Start(first) <= x < g.Start(first) + |run|
    ensures x < g.fileSize && g.PageOf(x) in m && run[x - g.Start(first)] == StagedByte(g, m, x)
  {
    hide Geometry.Npages, Geometry.PageBytes, Geometry.Start, Geometry.RunBytes, Geometry.End, Geometry.PageOf;
    RunFits(g, first, i - 1);
    g.PageOfFacts(x);
    var p := g.PageOf(x);
    InsideRun(g, first, i - 1, x);
    assert p in m && Has(run, g.Start(p) - g.Start(first), m[p].data);
    var o := g.Start(p) - g.Start(first);
    assert run[o..o + |m[p].data|][x - g.Start(p)] == run[x - g.Start(first)];
  }

  lemma InsideRun(g: Geometry, first: nat, last: nat, x: nat)
    requires g.Valid() && first <= last < g.Npages() && g.Start(first) <= x < g.End(last)
    ensures x < g.fileSize && first <= g.PageOf(x) <= last && x - g.Start(g.PageOf(x)) < g.PageBytes(g.PageOf(x))
  {
    hide Geometry.PageOf;
    g.PageOfFacts(x);
    g.EndIsNextStart(last);
    if g.PageOf(x) < first { g.StartMono(g.PageOf(x) + 1, first); }
    if g.PageOf(x) > last { g.StartMono(last + 1, g.PageOf(x)); }
    g.EndIsNextStart(g.PageOf(x));
  }

  lemma RunFits(g: Geometry, first: nat, last: nat)
    requires g.Valid() && first <= last < g.Npages()
    ensures g.Start(first) + g.RunBytes(first, last) == g.End(last) <= g.fileSize
  {
    g.EndIsNextStart(last);
  }

  /** One write, of which `landed` bytes land, moves the limit to where it got. */
  lemma RunLands(g: Geometry, m: map<nat, Staged>, data0: seq<Byte>, data: seq<Byte>, run: seq<Byte>, first: nat, i: nat, landed: nat)
    requires g.Valid() && Sized(g, m) && |data| >= g.fileSize && first < i && landed <= |run|
    requires Written(g, m, data0, data, g.Start(first)) && RunIs(g, m, run, first, i)
    ensures g.Start(first) + |run| <= |data|
    ensures Written(g, m, data0, Put(data, g.Start(first), run[..landed]), g.Start(first) + landed)
  {
    hide Geometry.Npages, Geometry.PageBytes, Geometry.Start, Geometry.RunBytes, Geometry.End, Geometry.PageOf, StagedByte, RunIs;
    assert g.Start(first) + |run| <= g.fileSize by { RunInFile(g, m, run, first, i); }
    var a := g.Start(first);
    var data' := Put(data, a, run[..landed]);
    forall x: nat | x < |data'|
      ensures data'[x] == if x < a + landed && x < g.fileSize && g.PageOf(x) in m then StagedByte(g, m, x) else data0[x]
    {
      if a <= x < a + landed {
        RunByte(g, m, run, first, i, x);
        assert data'[x] == data'[a..a + landed][x - a];
      } else {
        assert data'[x] == data[x];
      }
    }
  }

  lemma RunInFile(g: Geometry, m: map<nat, Staged>, run: seq<Byte>, first: nat, i: nat)
    requires g.Valid() && first < i && RunIs(g, m, run, first, i)
    ensures g.Start(first) + |run| == g.End(i - 1) <= g.fileSize
  {
    RunFits(g, first, i - 1);
  }

  /** After a whole run the limit is the start of the page behind it. */
  lemma RunWhole(g: Geometry, m: map<nat, Staged>, data0: seq<Byte>, data: seq<Byte>, first: nat, i: nat)
    requires g.Valid() && Sized(g, m) && first < i <= g.Npages() && Written(g, m, data0, data, g.End(i - 1))
    ensures Written(g, m, data0, data, g.Start(i))
  {
    hide Written, Sized, Geometry.PageOf, Geometry.RunBytes;
    g.EndIsNextStart(i - 1);
    g.InRange(i);
    NoneBetween(g, m, data0, data, g.End(i - 1), g.Start(i));
  }

  // ---- the runs --------------------------------------------------------------------------------

  /** A write: the pages [first, stop). */
  type Span = (nat, nat)

  function SpanBytes(g: Geometry, r: Span): nat
    requires g.Valid() && r.0 < r.1 <= g.Npages()
  {
    g.RunBytes(r.0, r.1 - 1)
  }

  predicate InWrite(r: Span, p: nat) { r.0 <= p < r.1 }
  ghost predicate InWrites(runs: seq<Span>, p: nat) { exists k :: 0 <= k < |runs| && InWrite(runs[k], p) }

  /** A write of consecutive snapshot pages that stops only at a gap or at 8 MiB. */
  ghost predicate Maximal(g: Geometry, m: map<nat, Staged>, r: Span)
    requires g.Valid()
  {
    && r.0 < r.1 <= g.Npages() && (forall p :: r.0 <= p < r.1 ==> p in m)
    && SpanBytes(g, r) <= 0x80_0000 && (r.1 in m ==> SpanBytes(g, r) == 0x80_0000)
  }

  /** The writes that cover the snapshot's pages before `i`, in order, each page once. */
  ghost predicate RunsOf(g: Geometry, m: map<nat, Staged>, runs: seq<Span>, i: nat)
    requires g.Valid()
  {
    && (forall k :: 0 <= k < |runs| ==> Maximal(g, m, runs[k]) && runs[k].1 <= i)
    && (forall j, k :: 0 <= j < k < |runs| ==> runs[j].1 <= runs[k].0)
    && (forall p: nat {:trigger p in m} :: p in m && p < i ==> InWrites(runs, p))
  }

  lemma RunsAdd(g: Geometry, m: map<nat, Staged>, runs: seq<Span>, first: nat, i: nat)
    requires g.Valid() && RunsOf(g, m, runs, first) && Maximal(g, m, (first, i))
    ensures RunsOf(g, m, runs + [(first, i)], i)
  {
    hide Maximal;
    var more := runs + [(first, i)];
    assert first < i by { Ordered(g, m, (first, i)); }
    forall p: nat | p in m && p < i ensures InWrites(more, p) {
      if p < first {
        var k :| 0 <= k < |runs| && InWrite(runs[k], p);
        assert InWrite(more[k], p);
      } else {
        assert InWrite(more[|runs|], p);
      }
    }
  }

  lemma Ordered(g: Geometry, m: map<nat, Staged>, r: Span)
    requires g.Valid() && Maximal(g, m, r)
    ensures r.0 < r.1 <= g.Npages()
  {}

  function PagesFrom(first: nat, i: nat): seq<nat>
    requires first <= i
  {
    seq(i - first, k requires 0 <= k < i - first => first + k)
  }

  /** `done` lists the snapshot's pages before `i`, ascending. */
  ghost predicate Lists(m: map<nat, Staged>, done: seq<nat>, i: nat) {
    && (forall j, k :: 0 <= j < k < |done| ==> done[j] < done[k])
    && (forall p: nat {:trigger p in done} :: p in done <==> p in m && p < i)
  }

  lemma ListsAdd(m: map<nat, Staged>, done: seq<nat>, first: nat, i: nat)
    requires Lists(m, done, first) && first <= i && forall p :: first <= p < i ==> p in m
    ensures Lists(m, done + PagesFrom(first, i), i)
  {
    var more := done + PagesFrom(first, i);
    forall p: nat ensures p in more <==> p in done || first <= p < i {
      if first <= p < i { assert PagesFrom(first, i)[p - first] == p; }
    }
    forall j | 0 <= j < |done| ensures done[j] < first { assert done[j] in done; }
  }

  /** Where a drain ended: at the write that came up short, or at the end. */
  ghost function DrainLimit(g: Geometry, runs: seq<Span>, lands: nat -> nat, failed: bool): nat
    requires failed ==> runs != []
  {
    if failed then g.Start(runs[|runs| - 1].0) + lands(|runs| - 1) else g.fileSize
  }

  ghost function DrainedPages(g: Geometry, runs: seq<Span>, failed: bool): nat
    requires g.Valid() && (failed ==> runs != [])
  {
    if failed then runs[|runs| - 1].0 else g.Npages()
  }

  /** All there is to say of a drain: the writes made, which of them landed whole, what the file
      holds then, and which pages are listed. */
  ghost predicate DrainIs(g: Geometry, m: map<nat, Staged>, data0: seq<Byte>, data: seq<Byte>, lands: nat -> nat,
                          runs: seq<Span>, done: seq<nat>, failed: bool)
    requires g.Valid() && Sized(g, m)
  {
    && (failed ==> runs != [])
    && RunsOf(g, m, runs, if failed then runs[|runs| - 1].1 else g.Npages())
    && (forall k :: 0 <= k < |runs| ==> runs[k].0 < runs[k].1 <= g.Npages()
                                        && (lands(k) < SpanBytes(g, runs[k]) <==> failed && k == |runs| - 1))
    && Written(g, m, data0, data, DrainLimit(g, runs, lands, failed))
    && Lists(m, done, DrainedPages(g, runs, failed))
  }

  /** Write the snapshot out in page order, consecutive pages merged into one write of at
      most 8 MiB. `lands(k)` is how much of the k-th write lands. The file is left byte for
      byte as writing page by page up to the same point would leave it, and exactly the pages
      of the writes that landed whole are listed; the first short write ends the drain, and
      only a short write fails it. */
  method WriteRuns(g: Geometry, m: map<nat, Staged>, data0: seq<Byte>, lands: nat -> nat)
    returns (data: seq<Byte>, done: seq<nat>, failed: bool, runs: seq<Span>)
    requires g.Valid() && ValidPageSize(g.pageSize) && Sized(g, m) && |data0| >= g.fileSize
    ensures DrainIs(g, m, data0, data, lands, runs, done, failed)
  {
    hide Geometry.Npages, Geometry.PageBytes, Geometry.Start, Geometry.RunBytes, Geometry.End, Has, Put, RunIs, Written, Maximal, SpanBytes,
         RunsOf, Lists, Sized, ValidPageSize;
    data, done, failed, runs := data0, [], false, [];
    var i := 0;
    NothingWritten(g, m, data0);
    NothingListed(g, m);
    while i < g.Npages()
      invariant 0 <= i && (i <= g.Npages() || i == 0) && |data| == |data0| && !failed
      invariant Written(g, m, data0, data, g.Start(i)) && Lists(m, done, i) && RunsOf(g, m, runs, i)
      invariant forall k :: 0 <= k < |runs| ==> runs[k].0 < runs[k].1 <= g.Npages() && lands(k) >= SpanBytes(g, runs[k])
      decreases g.Npages() - i
    {
      if i !in m {
        SkipPage(g, m, data0, data, i);
        SkipListed(g, m, runs, done, i);
        i := i + 1;
      } else {
        var first := i;
        var run: seq<Byte>;
        run, i := CollectRun(g, m, first);
        RunMaximal(g, m, run, first, i);
        RunsAdd(g, m, runs, first, i);
        var landed := lands(|runs|);
        runs := runs + [(first, i)];
        if landed < |run| {
          RunLands(g, m, data0, data, run, first, i, landed);
          data := Put(data, g.Start(first), run[..landed]);
          failed := true;
          return;
        }
        RunLands(g, m, data0, data, run, first, i, |run|);
        RunInFile(g, m, run, first, i);
        assert run[..|run|] == run;
        data := Put(data, g.Start(first), run);
        RunWhole(g, m, data0, data, first, i);
        ListsAdd(m, done, first, i);
        done := done + PagesFrom(first, i);
      }
    }
    WholeFile(g, m, data0, data, i);
  }

  lemma NothingListed(g: Geometry, m: map<nat, Staged>)
    requires g.Valid()
    ensures RunsOf(g, m, [], 0) && Lists(m, [], 0)
  {}

  lemma SkipListed(g: Geometry, m: map<nat, Staged>, runs: seq<Span>, done: seq<nat>, i: nat)
    requires g.Valid() && RunsOf(g, m, runs, i) && Lists(m, done, i) && i !in m
    ensures RunsOf(g, m, runs, i + 1) && Lists(m, done, i + 1)
  {
    hide Maximal, InWrites;
  }

  lemma RunMaximal(g: Geometry, m: map<nat, Staged>, run: seq<Byte>, first: nat, i: nat)
    requires g.Valid() && Sized(g, m) && first < i && RunIs(g, m, run, first, i) && |run| <= MAX_WRITE && (i in m ==> |run| == MAX_WRITE)
    ensures Maximal(g, m, (first, i)) && SpanBytes(g, (first, i)) == |run| && first < i <= g.Npages()
    ensures forall p :: first <= p < i ==> p in m
  {
    hide Geometry.Npages, Geometry.RunBytes;
  }

  /** Past the last page there is nothing left to write. */
  lemma WholeFile(g: Geometry, m: map<nat, Staged>, data0: seq<Byte>, data: seq<Byte>, i: nat)
    requires g.Valid() && Sized(g, m) && Written(g, m, data0, data, g.Start(i)) && i >= g.Npages()
    ensures Written(g, m, data0, data, g.fileSize)
  {
    g.InRange(i);
  }

  // ---- page by page ----------------------------------------------------------------------------

  /** A page of the snapshot behind the limit is on disk with its staged bytes. */
  lemma PageWritten(g: Geometry, m: map<nat, Staged>, data0: seq<Byte>, data: seq<Byte>, limit: nat, p: nat)
    requires g.Valid() && Sized(g, m) && |data0| >= g.fileSize && Written(g, m, data0, data, limit) && p in m && g.End(p) <= limit
    ensures PageIs(g, data, p, m[p].data)
  {
    g.EndIsNextStart(p);
    var a := g.Start(p);
    forall j | 0 <= j < |m[p].data| ensures data[a + j] == m[p].data[j] { PageHolds(g, p, a + j); }
    assert data[a..a + |m[p].data|] == m[p].data;
  }

  lemma PageHolds(g: Geometry, p: nat, x: nat)
    requires g.Valid() && p < g.Npages() && g.Start(p) <= x < g.End(p)
    ensures g.PageOf(x) == p && x < g.fileSize
  {
    InsideRun(g, p, p, x);
  }

  /** A page the snapshot does not hold, or that the drain did not reach, is as it was. */
  lemma PageUntouched(g: Geometry, m: map<nat, Staged>, data0: seq<Byte>, data: seq<Byte>, limit: nat, p: nat)
    requires g.Valid() && Sized(g, m) && |data0| >= g.fileSize && Written(g, m, data0, data, limit) && p < g.Npages()
    requires p !in m || limit <= g.Start(p)
    ensures SamePage(g, data, data0, p)
  {
    g.EndIsNextStart(p);
    forall x: nat | g.Start(p) <= x < g.End(p) ensures data[x] == data0[x] { PageHolds(g, p, x); }
  }

  /** What a drain means page by page: listed pages hold their staged bytes, pages the snapshot
      does not hold and pages past the write that failed are untouched, and without failure
      every page is listed. */
  lemma DrainMeans(g: Geometry, m: map<nat, Staged>, data0: seq<Byte>, data: seq<Byte>, lands: nat -> nat,
                   runs: seq<Span>, done: seq<nat>, failed: bool, p: nat)
    requires g.Valid() && Sized(g, m) && |data0| >= g.fileSize && DrainIs(g, m, data0, data, lands, runs, done, failed)
    requires p < g.Npages()
    ensures p in done ==> p in m && PageIs(g, data, p, m[p].data)
    ensures p !in m || (failed && p >= runs[|runs| - 1].1) ==> SamePage(g, data, data0, p)
    ensures !failed && p in m ==> p in done
  {
    hide Geometry.Npages, Geometry.PageBytes, Geometry.RunBytes, SamePage, PageIs, Written, Maximal, Sized, Geometry.Start, Geometry.End;
    var limit := DrainLimit(g, runs, lands, failed);
    if p in done {
      BehindLimit(g, runs, lands, failed, p);
      PageWritten(g, m, data0, data, limit, p);
    }
    if failed && p >= runs[|runs| - 1].1 { PastLimit(g, runs, lands, p); }
    if p !in m || (failed && p >= runs[|runs| - 1].1) { PageUntouched(g, m, data0, data, limit, p); }
  }

  lemma BehindLimit(g: Geometry, runs: seq<Span>, lands: nat -> nat, failed: bool, p: nat)
    requires g.Valid() && p < g.Npages() && (failed ==> runs != [] && runs[|runs| - 1].0 < g.Npages()) && p < DrainedPages(g, runs, failed)
    ensures g.End(p) <= DrainLimit(g, runs, lands, failed)
  {
    g.EndIsNextStart(p);
    if failed { g.PageOrder(p, runs[|runs| - 1].0); }
  }

  lemma PastLimit(g: Geometry, runs: seq<Span>, lands: nat -> nat, p: nat)
    requires g.Valid() && p < g.Npages() && runs != [] && runs[|runs| - 1].0 < runs[|runs| - 1].1 <= p
    requires lands(|runs| - 1) < SpanBytes(g, runs[|runs| - 1])
    ensures DrainLimit(g, runs, lands, true) <= g.Start(p)
  {
    var r := runs[|runs| - 1];
    RunFits(g, r.0, r.1 - 1);
    g.PageOrder(r.1 - 1, p);
  }
}
