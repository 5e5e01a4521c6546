/** Reading and verifying overlay bytes: every page is present, so a request is split into
    runs by the coalescing limit alone. */
module OverlayReads {
  import opened Bytes
  import opened Pages
  import opened Stages
  import opened Deltas
  import opened Reads
  import opened ReadOps
  import opened RunReads
  import opened ReplicaFiles

  /** The overlay as pages of 64 KiB. */
  function Overlay(m: ReplicaMeta): Geometry { Geometry(OVERLAY_PAGE, m.tdataBytes) }

  /** The pages a sidecar has CRCs for are the overlay's. */
  lemma OverlayIs(m: ReplicaMeta)
    requires m.tdataBytes + 0x1_0000 <= 0x1_0000_0000_0000_0000
    ensures Overlay(m).Npages() == OverlayPages(m.tdataBytes)
  {}

  /** Every overlay page, with the CRC the sidecar records for it. */
  function Recorded(crcs: seq<U32>): Image { map p: nat | 0 <= p < |crcs| :: crcs[p] }

  /** Runs of [first, last], each as long as one read may be. */
  method PlanAll(g: Geometry, crcs: seq<U32>, first: nat, last: nat) returns (runs: seq<Run>)
    requires g.Valid() && first <= last < g.Npages() == |crcs|
    ensures PlanOf(g, Recorded(crcs), EmptyStage(), runs, first, last + 1)
    ensures runs == PlannedRuns(g, Recorded(crcs), EmptyStage(), first, last + 1) && Coalesced(g, runs)
  {
    hide PlanOf, Planned, PlannedRuns, Coalesced, Geometry.Npages, Geometry.RunBytes;
    runs := [];
    NothingToJoin(g);
    PlanEmpty(g, Recorded(crcs), EmptyStage(), first);
    PlannedNext(g, Recorded(crcs), EmptyStage(), first, first);
    var i := first;
    while i <= last
      invariant first <= i <= last + 1 && PlanOf(g, Recorded(crcs), EmptyStage(), runs, first, i)
      invariant runs == PlannedRuns(g, Recorded(crcs), EmptyStage(), first, i) && Coalesced(g, runs)
    {
      PlannedNext(g, Recorded(crcs), EmptyStage(), first, i);
      PlannedKeeps(g, Recorded(crcs), EmptyStage(), runs, first, i);
      PlannedCoalesces(g, Recorded(crcs), EmptyStage(), runs, first, i);
      runs := Planned(g, runs, i, crcs[i]);
      i := i + 1;
    }
  }

  /** No read of a plan is longer than the scratch buffer sized for it. */
  lemma ScratchFits(g: Geometry, mem: Image, s: Stage, r: Run)
    requires g.Valid() && g.pageSize == OVERLAY_PAGE && RunOk(g, mem, s, r)
    ensures g.RunBytes(r.first, r.last) <= Min(MAX_READ, g.fileSize)
  {
    RunBytesIs(g, r.first, r.last);
    g.EndIsNextStart(r.last);
    EndIs(g, r.last);
  }

  class ReplicaView {
    const m: ReplicaMeta
    const crc: Crc
    var invalid: bool

    ghost predicate Valid()
    {
      Consistent(m) && |m.pageCrcs| == Overlay(m).Npages()
    }

    constructor (m: ReplicaMeta, crc: Crc)
      requires Consistent(m) && |m.pageCrcs| == Overlay(m).Npages()
      ensures Valid() && this.m == m && this.crc == crc && !invalid
    {
      this.m, this.crc, invalid := m, crc, false;
    }

    /** Read overlay bytes, verified page by page. `disk(k)` is what `.tdata` holds at the
        k-th read. The outcome is the page-at-a-time read's of what those reads show; any
        failure, and nothing else, makes the view invalid for good. */
    method Read(off: U64, len: U64, disk: nat -> seq<Byte>) returns (ok: bool, out: seq<Byte>)
      requires Valid()
      modifies this
      ensures var want := ReadOutcome(Geometry(0x1_0000, m.tdataBytes), crc, Recorded(m.pageCrcs), EmptyStage(), disk, off, len);
              (ok <==> want.Some?) && (ok ==> out == want.value)
      ensures invalid == (old(invalid) || !ok)
    {
      hide ReadSpec, PlanOf, HeldPlaced, RunOk, RunPageGood, RunGood, Observed, PlannedRuns, SeenRuns, Consistent,
           Geometry.Npages, Geometry.PageOf, Geometry.RunBytes;
      var g := Overlay(m);
      ok, out := true, [];
      ghost var mem := Recorded(m.pageCrcs);
      if len == 0 { return; }
      BadRange(g, off, len);
      if Add64(off, len) < off || Add64(off, len) > m.tdataBytes {
        invalid := true;
        return false, out;
      }
      g.PageOfFacts(off + len - 1);
      FirstBeforeLast(g, off, off + len - 1);
      var runs := PlanAll(g, m.pageCrcs, g.PageOf(off), g.PageOf(off + len - 1));
      out := Zeros(len);
      assert HeldPlaced(g, EmptyStage(), out, off, off + len, g.PageOf(off), g.PageOf(off + len - 1) + 1) by {
        NothingHeld(g, out, off, off + len, g.PageOf(off), g.PageOf(off + len - 1) + 1);
      }
      ObservedIs(g, mem, EmptyStage(), disk, off, len, runs);
      var bad, short, at;
      out, bad, short, at := ReadRuns(g, crc, mem, EmptyStage(), runs, disk, off, len, out);
      if bad.Some? {
        invalid := true;
        ok := false;
      }
    }
  }

  lemma NothingHeld(g: Geometry, out: seq<Byte>, off: nat, end: nat, lo: nat, hi: nat)
    requires g.Valid() && hi <= g.Npages()
    ensures HeldPlaced(g, EmptyStage(), out, off, end, lo, hi)
  {}

  // ---- publishing and opening ----------------------------------------------------------------------

  /** The CRCs a replica is published with: those of its own overlay, page by page. */
  method PublishCrcs(o: Origin) returns (crcs: seq<U32>)
    requires o.Valid()
    ensures |crcs| == o.g.Npages() && ImageTrue(o, Recorded(crcs))
  {
    crcs := [];
    for i := 0 to o.g.Npages()
      invariant |crcs| == i && forall p :: 0 <= p < i ==> crcs[p] == o.PageCrc(p)
    {
      crcs := crcs + [o.crc(o.Page(i))];
    }
  }

  /** A read of a published overlay that succeeds returns the published bytes, whatever
      has happened to `.tdata` since. */
  lemma PublishedReads(o: Origin, crcs: seq<U32>, seen: Seen, off: nat, len: nat)
    requires o.Valid() && SeenTells(o, seen) && ImageTrue(o, Recorded(crcs))
    requires ReadSpec(Reader(o.g, o.crc, Recorded(crcs), EmptyStage(), seen), off, len).Some?
    ensures len > 0 ==> off + len <= |o.bytes|
    ensures ReadSpec(Reader(o.g, o.crc, Recorded(crcs), EmptyStage(), seen), off, len).value
            == if len == 0 then [] else o.bytes[off..off + len]
  {
    ReadIsOrigin(o, Reader(o.g, o.crc, Recorded(crcs), EmptyStage(), seen), off, len);
  }

  /** The open-time scan: it passes exactly if every page of the overlay, read alone, carries
      its CRC. */
  method VerifyAll(g: Geometry, crc: Crc, crcs: seq<U32>, d: seq<Byte>) returns (ok: bool)
    requires g.Valid() && |crcs| == g.Npages()
    ensures ok <==> forall p: nat :: p < g.Npages() ==> PageGood(g, crc, d, p, crcs[p])
  {
    hide PlanOf, RunOk, PageGood, Geometry.Npages, Geometry.RunBytes;
    if g.Npages() == 0 { return true; }
    var runs := PlanAll(g, crcs, 0, g.Npages() - 1);
    var k := 0;
    while k < |runs|
      invariant 0 <= k <= |runs|
      invariant forall p: nat :: p < g.Npages() && InRuns(runs[..k], p) ==> PageGood(g, crc, d, p, crcs[p])
    {
      RunOfPlan(g, crcs, runs, k, g.Npages());
      var dst, bad, short := VerifyRun(g, crc, runs[k], d);
      if bad.Some? {
        assert !RunPageGood(g, crc, d, runs[k], bad.value);
        return false;
      }
      assert runs[..k + 1] == runs[..k] + [runs[k]];
      forall p: nat | p < g.Npages() && InRuns(runs[..k + 1], p) ensures PageGood(g, crc, d, p, crcs[p]) {
        if InRun(runs[k], p) { assert RunPageGood(g, crc, d, runs[k], p); } else { OldRuns(runs[..k], runs[k], p); }
      }
      k := k + 1;
    }
    assert runs[..k] == runs;
    PlanCovers(g, crcs, runs, g.Npages());
    return true;
  }

  lemma RunOfPlan(g: Geometry, crcs: seq<U32>, runs: seq<Run>, k: nat, stop: nat)
    requires g.Valid() && PlanOf(g, Recorded(crcs), EmptyStage(), runs, 0, stop) && k < |runs|
    ensures runs[k].first <= runs[k].last < g.Npages() && |runs[k].want| == runs[k].last - runs[k].first + 1
    ensures forall p: nat :: InRun(runs[k], p) ==> p < |crcs| && runs[k].want[p - runs[k].first] == crcs[p]
  {
    hide Geometry.Npages, Geometry.RunBytes;
    assert RunOk(g, Recorded(crcs), EmptyStage(), runs[k]);
    forall p: nat | InRun(runs[k], p) ensures p < |crcs| && runs[k].want[p - runs[k].first] == crcs[p] {
      assert p in Recorded(crcs);
    }
  }

  lemma PlanCovers(g: Geometry, crcs: seq<U32>, runs: seq<Run>, stop: nat)
    requires g.Valid() && PlanOf(g, Recorded(crcs), EmptyStage(), runs, 0, stop)
    ensures forall p: nat :: p < stop ==> InRuns(runs, p)
  {
    hide Geometry.Npages, RunOk;
    forall p: nat | p < stop ensures InRuns(runs, p) { assert !EmptyStage().Holds(p); }
  }
}
