/** Where the next block goes, exactly: which extents each handle keeps clear of, when all
    handles agree, and how much of a torn block's extent is left alone. */
module SlotClaims {
  import opened Bytes
  import opened SlotFormat
  import opened SlotLog
  import opened SlotRuns

  /** Handle `id` committed right past a block whose header had not landed but shows: the file
      ended inside that header, so the handle never saw it and has stepped over it. */
  predicate Missed(log: seq<Block>, id: nat, i: nat)
    requires i < |log|
  {
    !log[i].Visible() && log[i].Shown() && i + 1 < |log| && log[i + 1].Complete() && log[i + 1].owner == id
  }

  /** Handle `id` keeps clear of block `i`'s whole extent: its header landed, or shows since
      the file has grown past it, and the handle did not miss it. */
  predicate Claimed(log: seq<Block>, id: nat, i: nat)
    requires i < |log|
  {
    log[i].Visible() || (log[i].Shown() && i + 1 < |log| && !Missed(log, id, i))
  }

  /** The furthest end of the first `n` blocks that handle `id` keeps clear of. */
  function MaxFor(log: seq<Block>, id: nat, n: nat): nat
    requires n <= |log|
  {
    if n == 0 then 0 else Max(MaxFor(log, id, n - 1), if Claimed(log, id, n - 1) then log[n - 1].End() else 0)
  }

  function Furthest(log: seq<Block>, id: nat): nat { MaxFor(log, id, |log|) }

  lemma {:induction false} MaxForBounds(log: seq<Block>, id: nat, n: nat, bound: nat)
    requires n <= |log|
    ensures (forall i :: 0 <= i < n && Claimed(log, id, i) ==> log[i].End() <= bound) <==> MaxFor(log, id, n) <= bound
  {
    hide Claimed;
    if n > 0 { MaxForBounds(log, id, n - 1, bound); }
  }

  lemma FurthestBounds(log: seq<Block>, id: nat, bound: nat)
    ensures (forall i :: 0 <= i < |log| && Claimed(log, id, i) ==> log[i].End() <= bound) <==> Furthest(log, id) <= bound
  {
    MaxForBounds(log, id, |log|, bound);
  }

  /** A scan claims nothing but the extents of blocks it comes by. */
  lemma {:induction false} ScanClaims(st: Store, file: seq<Byte>, log: seq<Block>, pos: nat, claimed: nat, bound: nat)
    requires Stored(st, file, log) && pos % ALIGN == 0 && st.start <= pos && claimed <= bound
    requires forall i :: 0 <= i < |log| && log[i].Shown() && log[i].base >= pos && log[i].base + BLOCK_HEADER <= |file|
                         ==> log[i].End() <= bound
    ensures Scan(st, file, pos, claimed).claimed <= bound
    decreases |file| - pos
  {
    hide ParseHeader, Clean, FileIs, DecodeEntries, TablesTell, Block.Shown, AlignUp;
    if pos + BLOCK_HEADER <= |file| {
      var h := HeaderAt(st, file, pos);
      SkipNothing(st, file, log, pos);
      if h.Some? {
        var i := HeaderIsBlock(st, file, log, pos);
        BlockHasHeader(st, file, log, i);
        GenuineLength(st, log, i);
      }
      ScanClaims(st, file, log, Onward(st.crc, file, pos, h), Claim(claimed, pos, h), bound);
    }
  }

  // ---- what every state of a run satisfies ---------------------------------------------------

  /** The file ends where the last write into it did. */
  ghost predicate EndsAtLast(s: State) {
    s.log != [] ==> |s.file| == s.log[|s.log| - 1].base + s.log[|s.log| - 1].written
  }

  ghost predicate HandleClaims(file: seq<Byte>, log: seq<Block>, id: nat, h: Handle) {
    && (forall i :: 0 <= i < |log| && Claimed(log, id, i) && log[i].base < h.readOff ==> log[i].End() <= h.claimedEnd)
    && h.claimedEnd <= Furthest(log, id)
    && Looked(log, |file|, 0, h.readOff)
  }

  ghost predicate ClaimInv(s: State) {
    EndsAtLast(s) && forall id <- s.handles :: HandleClaims(s.file, s.log, id, s.handles[id])
  }

  /** Every block a handle keeps clear of lies behind it once it has scanned. */
  lemma ClaimedIsBehind(st: Store, s: State, id: nat, i: nat, pos: nat)
    requires Inv(st, s) && i < |s.log| && Claimed(s.log, id, i) && pos + BLOCK_HEADER > |s.file|
    ensures s.log[i].base < pos
  {
    hide Scan, AllGenuine, TablesTell, HandleInv, Made;
    assert s.log[i].base + s.log[i].written <= |s.file|;
    if !s.log[i].Visible() {
      LaterBase(st.start, s.log, i);
      assert s.log[i + 1].base + s.log[i + 1].written <= |s.file|;
    }
  }

  /** A header that can be read from where the handle stands is one it keeps clear of. */
  lemma ReadableIsClaimed(st: Store, s: State, id: nat, i: nat)
    requires Inv(st, s) && EndsAtLast(s) && id in s.handles && i < |s.log| && s.log[i].Shown()
    requires s.log[i].base >= s.handles[id].readOff && s.log[i].base + BLOCK_HEADER <= |s.file|
    ensures Claimed(s.log, id, i)
  {
    hide Scan, AllGenuine, TablesTell, FileIs, Made;
    assert HandleInv(st, s.file, s.log, id, s.handles[id]);
    if i + 1 < |s.log| { LaterBase(st.start, s.log, i); }
  }

  lemma RescanClaims(st: Store, s: State, id: nat)
    requires Inv(st, s) && ClaimInv(s) && id in s.handles
    ensures var r := Rescan(st, s.file, s.handles[id]);
            && r.pos + BLOCK_HEADER > |s.file|
            && r.claimed == Furthest(s.log, id)
            && HandleClaims(s.file, s.log, id, Refreshed(s.handles[id], r))
  {
    hide Scan, Made, FileIs, AllGenuine, TablesTell, Claimed, Block.Shown, MaxFor, AlignUp;
    var h := s.handles[id];
    var r := Rescan(st, s.file, h);
    assert HandleInv(st, s.file, s.log, id, h) && HandleClaims(s.file, s.log, id, h);
    ScanIsSound(st, s.file, s.log, h.readOff, h.claimedEnd);
    FurthestBounds(s.log, id, Furthest(s.log, id));
    forall i | 0 <= i < |s.log| && s.log[i].Shown() && s.log[i].base >= h.readOff && s.log[i].base + BLOCK_HEADER <= |s.file|
      ensures s.log[i].End() <= Furthest(s.log, id)
    {
      ReadableIsClaimed(st, s, id, i);
    }
    ScanClaims(st, s.file, s.log, h.readOff, h.claimedEnd, Furthest(s.log, id));
    forall i | 0 <= i < |s.log| && Claimed(s.log, id, i) ensures s.log[i].End() <= r.claimed {
      ClaimedIsBehind(st, s, id, i, r.pos);
      ClaimedShows(s.log, id, i);
    }
    FurthestBounds(s.log, id, r.claimed);
  }

  lemma ClaimedShows(log: seq<Block>, id: nat, i: nat)
    requires i < |log| && Claimed(log, id, i)
    ensures log[i].Visible() || log[i].Shown()
    ensures |log[i].image| >= BLOCK_HEADER ==> log[i].Shown()
  {}

  // ---- and every step keeps -------------------------------------------------------------------

  /** Appending a block takes no claim away; it adds the one before it, unless the committer
      stepped over that. */
  lemma ClaimedGrows(log: seq<Block>, b: Block, id: nat, i: nat)
    requires i < |log|
    ensures Claimed(log, id, i) ==> Claimed(log + [b], id, i)
    ensures i + 1 < |log| && Claimed(log + [b], id, i) ==> Claimed(log, id, i)
    ensures i + 1 == |log| && !log[i].Visible() && b.Complete() && b.owner == id ==> !Claimed(log + [b], id, i)
    ensures log[i].Visible() ==> Claimed(log, id, i)
  {}

  lemma FurthestGrows(log: seq<Block>, b: Block, id: nat)
    ensures Furthest(log, id) <= Furthest(log + [b], id)
    ensures b.Visible() ==> b.End() <= Furthest(log + [b], id)
  {
    hide Claimed, MaxFor;
    var log' := log + [b];
    FurthestBounds(log', id, Furthest(log', id));
    forall i | 0 <= i < |log| && Claimed(log, id, i) ensures log[i].End() <= Furthest(log', id) {
      ClaimedGrows(log, b, id, i);
      assert log'[i] == log[i];
    }
    FurthestBounds(log, id, Furthest(log', id));
    assert log'[|log|] == b;
    if b.Visible() { assert Claimed(log', id, |log|) by { VisibleClaims(log', id, |log|); } }
  }

  lemma VisibleClaims(log: seq<Block>, id: nat, i: nat)
    requires i < |log| && log[i].Visible()
    ensures Claimed(log, id, i)
  {}

  /** A handle that stays where it is keeps its claims when a block is appended beyond it. */
  lemma GrowClaims(s: State, file': seq<Byte>, b: Block, id: nat, h: Handle)
    requires EndsAtLast(s) && HandleClaims(s.file, s.log, id, h) && |s.file| <= |file'| && h.readOff <= b.base
    ensures HandleClaims(file', s.log + [b], id, h)
  {
    hide Claimed, MaxFor;
    var log' := s.log + [b];
    FurthestGrows(s.log, b, id);
    forall i | 0 <= i < |log'| && Claimed(log', id, i) && log'[i].base < h.readOff ensures log'[i].End() <= h.claimedEnd {
      assert log'[i] == s.log[i];
      ClaimedGrows(s.log, b, id, i);
      if i + 1 == |s.log| { assert s.log[i].base + BLOCK_HEADER <= |s.file|; }
    }
  }

  /** The committer of a whole block steps over it, and over a cut header right before it. */
  lemma StepOverClaims(st: Store, s: State, file': seq<Byte>, b: Block, id: nat, r: Scanned)
    requires Inv(st, s) && ClaimInv(s) && id in s.handles && r == Rescan(st, s.file, s.handles[id])
    requires b.Complete() && b.Visible() && b.owner == id && |s.file| <= b.base && b.base % ALIGN == 0 && |file'| == b.End()
    ensures HandleClaims(file', s.log + [b], id, SteppedOver(Refreshed(s.handles[id], r), b))
  {
    hide Scan, Claimed, MaxFor, AllGenuine, TablesTell, Made, HandleInv;
    RescanClaims(st, s, id);
    FurthestBounds(s.log, id, Furthest(s.log, id));
    FurthestGrows(s.log, b, id);
    var log' := s.log + [b];
    var h' := SteppedOver(Refreshed(s.handles[id], r), b);
    forall i | 0 <= i < |log'| && Claimed(log', id, i) ensures log'[i].End() <= h'.claimedEnd {
      if i < |s.log| {
        assert log'[i] == s.log[i];
        ClaimedGrows(s.log, b, id, i);
      }
    }
    forall i | 0 <= i < |log'| ensures log'[i].base + BLOCK_HEADER <= |file'| {
      if i < |s.log| {
        assert s.log[i].base + s.log[i].written <= |s.file|;
        BoundaryGap(s.log[i].base, b.base);
      }
    }
  }

  lemma StepClaims(st: Store, s: State, step: Step)
    requires Inv(st, s) && ClaimInv(s) && Enabled(st, s, step)
    ensures ClaimInv(Apply(st, s, step))
  {
    hide Inv, Scan, HandleClaims, BlockBytes, HeaderOf, BlockEntries, Clean, TablesTell, AlignUp;
    match step
    case Open => OpenClaims(st, s);
    case Close(id) =>
    case Refresh(id) => RescanClaims(st, s, id);
    case Commit(id, recs, written) =>
      CommitClaims(st, s, id, recs, written);
  }

  lemma OpenClaims(st: Store, s: State)
    requires Inv(st, s) && ClaimInv(s)
    ensures HandleClaims(s.file, s.log, s.nextId, Handle(st.start, 0, []))
  {
    hide AllGenuine, TablesTell, Made, HandleInv, MaxFor, Claimed;
  }

  lemma CommitClaims(st: Store, s: State, id: nat, recs: seq<SlotRecord>, written: nat)
    requires Inv(st, s) && ClaimInv(s) && Enabled(st, s, Commit(id, recs, written))
    ensures ClaimInv(Apply(st, s, Commit(id, recs, written)))
  {
    hide Scan, MaxFor, Claimed, BlockBytes, HeaderOf, BlockEntries, Clean, TablesTell, AllGenuine, Made;
    RescanClaims(st, s, id);
    NoOverlap(st, s, id);
    var r := Rescan(st, s.file, s.handles[id]);
    var b := NewBlock(st, CommitBase(|s.file|, r), recs, id, written);
    if written > 0 {
      var s' := Landed(s, id, r, b);
      forall k <- s'.handles ensures HandleClaims(s'.file, s'.log, k, s'.handles[k]) {
        LandedClaims(st, s, id, b, k);
      }
    }
  }

  lemma LandedClaims(st: Store, s: State, id: nat, b: Block, k: nat)
    requires Inv(st, s) && ClaimInv(s) && id in s.handles && k in s.handles && b.owner == id
    requires 0 < b.written <= |b.image| && |b.image| >= BLOCK_HEADER && b.base % ALIGN == 0
    requires b.base == CommitBase(|s.file|, Rescan(st, s.file, s.handles[id]))
    ensures var s' := Landed(s, id, Rescan(st, s.file, s.handles[id]), b);
            HandleClaims(s'.file, s'.log, k, s'.handles[k])
  {
    hide Scan, MaxFor, Claimed, AllGenuine, TablesTell, Made, HandleClaims, AlignUp;
    var r := Rescan(st, s.file, s.handles[id]);
    var file' := Append(s.file, b.base, b.image[..b.written]);
    RescanClaims(st, s, id);
    RescanKeeps(st, s, id);
    if k != id {
      assert HandleInv(st, s.file, s.log, k, s.handles[k]) && HandleClaims(s.file, s.log, k, s.handles[k]);
      BelowBase(|s.file|, r, s.handles[k].readOff);
      GrowClaims(s, file', b, k, s.handles[k]);
    } else if b.Complete() {
      StepOverClaims(st, s, file', b, id, r);
    } else {
      GrowClaims(s, file', b, id, Refreshed(s.handles[id], r));
    }
  }

  lemma BelowBase(size: nat, r: Scanned, x: nat)
    requires x <= AlignUp(size)
    ensures x <= CommitBase(size, r)
  {}

  lemma InitClaims(st: Store, s: State)
    requires Init(st, s)
    ensures ClaimInv(s)
  {}

  lemma {:induction false} RunClaims(st: Store, states: seq<State>, steps: seq<Step>)
    requires Run(st, states, steps)
    ensures forall i :: 0 <= i < |states| ==> ClaimInv(states[i])
  {
    hide Apply, Enabled, Inv, ClaimInv;
    RunKeepsInv(st, states, steps);
    assert ClaimInv(states[0]) by { InitClaims(st, states[0]); }
    var k := 0;
    while k < |steps|
      invariant 0 <= k <= |steps|
      invariant forall i :: 0 <= i <= k ==> ClaimInv(states[i])
    {
      assert Follows(st, states[k], steps[k], states[k + 1]);
      StepClaims(st, states[k], steps[k]);
      assert ClaimInv(states[k + 1]);
      k := k + 1;
    }
  }

  // ---- the theorems ----------------------------------------------------------------------------

  /** Where handle `id` would put its next block. */
  ghost function NextBase(st: Store, s: State, id: nat): nat
    requires id in s.handles
  {
    CommitBase(|s.file|, Rescan(st, s.file, s.handles[id]))
  }

  lemma BaseIs(st: Store, s: State, id: nat)
    requires Inv(st, s) && ClaimInv(s) && id in s.handles
    ensures NextBase(st, s, id) == AlignUp(Max(|s.file|, Furthest(s.log, id)))
  {
    hide Scan, MaxFor, Made, Stored, AlignUp, HandleClaims;
    RescanClaims(st, s, id);
    RescanKeeps(st, s, id);
    var r := Rescan(st, s.file, s.handles[id]);
    assert Refreshed(s.handles[id], r).readOff == r.pos;
    SameAlign(|s.file|, r.pos, r.claimed);
  }

  /** An offset short of the next boundary does not change where that boundary is. */
  lemma SameAlign(size: nat, pos: nat, claimed: nat)
    requires pos <= AlignUp(size)
    ensures AlignUp(Max(size, Max(pos, claimed))) == AlignUp(Max(size, claimed))
  {}

  /** In every state of every run the place of a handle's next block follows from the file's
      length and the log alone: the boundary past the file and past every extent the handle
      keeps clear of. How far it has read plays no part. */
  lemma BaseIsExact(st: Store, states: seq<State>, steps: seq<Step>, i: nat, id: nat)
    requires Run(st, states, steps) && i < |states| && id in states[i].handles
    ensures NextBase(st, states[i], id) == AlignUp(Max(|states[i].file|, Furthest(states[i].log, id)))
  {
    RunKeepsInv(st, states, steps);
    RunClaims(st, states, steps);
    BaseIs(st, states[i], id);
  }

  /** Exactly when a handle agrees with one opened now: when it has missed no block that ends
      past the place it would choose itself. */
  lemma SameBase(st: Store, states: seq<State>, steps: seq<Step>, i: nat, id: nat, newest: nat)
    requires Run(st, states, steps) && i < |states| && id in states[i].handles && newest in states[i].handles
    requires forall b <- states[i].log :: b.owner != newest
    ensures var s := states[i];
            && NextBase(st, s, id) <= NextBase(st, s, newest)
            && (NextBase(st, s, id) == NextBase(st, s, newest)
                <==> forall j :: 0 <= j < |s.log| && Missed(s.log, id, j) ==> s.log[j].End() <= NextBase(st, s, id))
  {
    BaseIsExact(st, states, steps, i, id);
    BaseIsExact(st, states, steps, i, newest);
    hide Run, NextBase, MaxFor, AlignUp;
    var s := states[i];
    var mine, all := Furthest(s.log, id), Furthest(s.log, newest);
    var b := AlignUp(Max(|s.file|, mine));
    FurthestBounds(s.log, newest, all);
    FurthestBounds(s.log, id, mine);
    forall j | 0 <= j < |s.log| ensures Claimed(s.log, newest, j) <==> Claimed(s.log, id, j) || Missed(s.log, id, j) {
      NewestMissesNone(s.log, id, newest, j);
    }
    FurthestBounds(s.log, id, all);
    AlignMono(Max(|s.file|, mine), Max(|s.file|, all));
    if forall j :: 0 <= j < |s.log| && Missed(s.log, id, j) ==> s.log[j].End() <= b {
      FurthestBounds(s.log, newest, b);
      AlignedPast(Max(|s.file|, all), b);
    }
  }

  lemma NewestMissesNone(log: seq<Block>, id: nat, newest: nat, j: nat)
    requires j < |log| && forall b <- log :: b.owner != newest
    ensures Claimed(log, newest, j) <==> Claimed(log, id, j) || Missed(log, id, j)
  {
    if j + 1 < |log| { assert log[j + 1] in log; }
  }

  lemma AlignMono(x: nat, y: nat)
    requires x <= y
    ensures AlignUp(x) <= AlignUp(y)
  {
    AlignedPast(x, AlignUp(y));
  }

  /** Exactly when a torn block's whole extent is safe from the next one: if its header
      landed, or it was no longer than one boundary step, or it lies inside what the next
      committer keeps clear of anyway. A commit cut before its 64th byte claims nothing, and
      the next block can then be written over the rest of it. */
  lemma TornExtentSafeExactly(st: Store, states: seq<State>, steps: seq<Step>, i: nat, other: nat)
    requires Run(st, states, steps) && i < |steps| && steps[i].Commit? && 0 < steps[i].written
    requires Follows(st, states[i], steps[i], states[i + 1]) && other in states[i + 1].handles
    ensures var s' := states[i + 1];
            && s'.log != []
            && var b := s'.log[|s'.log| - 1];
            && b.recs == steps[i].recs && b.written == steps[i].written
            && (NextBase(st, s', other) >= b.End()
                <==> b.written >= BLOCK_HEADER || |b.image| <= ALIGN
                     || AlignUp(MaxFor(s'.log, other, |s'.log| - 1)) >= b.End())
  {
    RunKeepsInv(st, states, steps);
    RunClaims(st, states, steps);
    hide Run, Inv, Apply, Enabled, MaxFor, AlignUp, NextBase, ClaimInv;
    var s, s' := states[i], states[i + 1];
    var b := Logged(st, s, steps[i], s');
    BaseIs(st, s', other);
    LastEnd(s'.log, other);
    NextAfter(b.base, |s'.file|, MaxFor(s'.log, other, |s.log|), |b.image|, b.written);
  }

  /** The block a commit logs, and the file it leaves. */
  lemma Logged(st: Store, s: State, step: Step, s': State) returns (b: Block)
    requires Inv(st, s) && Follows(st, s, step, s') && step.Commit? && 0 < step.written
    ensures s'.log == s.log + [b] && b.recs == step.recs && b.written == step.written
    ensures b.base % ALIGN == 0 && 0 < b.written <= |b.image| && |s'.file| == b.base + b.written
    ensures forall i :: 0 <= i < |s.log| ==> s.log[i].base + s.log[i].Owned() <= b.base
  {
    hide Scan, BlockEntries, HeaderOf, Clean, TablesTell;
    NoOverlap(st, s, step.id);
    hide Inv, AlignUp;
    var r := Rescan(st, s.file, s.handles[step.id]);
    b := NewBlock(st, CommitBase(|s.file|, r), step.recs, step.id, step.written);
  }

  lemma LastEnd(log: seq<Block>, id: nat)
    requires log != []
    ensures var b := log[|log| - 1];
            Furthest(log, id) == Max(MaxFor(log, id, |log| - 1), if b.Visible() then b.End() else 0)
  {}

  lemma NextAfter(base: nat, size: nat, before: nat, len: nat, written: nat)
    requires base % ALIGN == 0 && size == base + written && 0 < written <= len
    ensures AlignUp(Max(size, Max(before, if written >= BLOCK_HEADER then base + len else 0))) >= base + len
            <==> written >= BLOCK_HEADER || len <= ALIGN || AlignUp(before) >= base + len
  {
    hide AlignUp;
    if written < BLOCK_HEADER {
      AlignWithin(base, written);
      if before > size { AlignMono(size, before); } else { AlignMono(before, size); }
    }
  }

  lemma AlignWithin(base: nat, w: nat)
    requires base % ALIGN == 0 && 0 < w <= ALIGN
    ensures AlignUp(base + w) == base + ALIGN
  {}
}
