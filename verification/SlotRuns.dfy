/** Runs of the slot store: any number of handles that open, refresh, commit, die,
    and commits that land any prefix of their block. */
module SlotRuns {
  import opened Bytes
  import opened SlotFormat
  import opened SlotLog

  /** One process's handle; `got` is every block it has been handed so far. */
  datatype Handle = Handle(readOff: nat, claimedEnd: nat, got: seq<Hit>)

  /** The shared file, the history of what was appended to it, the open handles, and
      the next unused handle number. */
  datatype State = State(file: seq<Byte>, log: seq<Block>, handles: map<nat, Handle>, nextId: nat)

  datatype Step =
    | Open
    | Close(id: nat)
    | Refresh(id: nat)
    | Commit(id: nat, recs: seq<SlotRecord>, written: nat)

  // ---- the steps ----------------------------------------------------------------

  /** Where a committer that has just scanned the file puts its block. */
  function CommitBase(size: nat, r: Scanned): nat {
    AlignUp(Max(size, Max(r.pos, r.claimed)))
  }

  function NewBlock(st: Store, base: nat, recs: seq<SlotRecord>, owner: nat, written: nat): Block
    requires Committable(base, recs)
  {
    Block(base, BlockBytes(st.crc, st.id, base, recs), HeaderOf(st.crc, st.id, base, recs),
          BlockEntries(st.crc, st.id, base, recs), recs, owner, written)
  }

  /** pwrite past the end: the gap reads as zeros; nothing written leaves the file. */
  function Append(file: seq<Byte>, base: nat, bytes: seq<Byte>): seq<Byte>
    requires |file| <= base
  {
    if bytes == [] then file else file + Zeros(base - |file|) + bytes
  }

  function Rescan(st: Store, file: seq<Byte>, h: Handle): Scanned {
    Scan(st, file, h.readOff, h.claimedEnd)
  }

  function Refreshed(h: Handle, r: Scanned): Handle {
    Handle(r.pos, r.claimed, h.got + r.hits)
  }

  ghost predicate Enabled(st: Store, s: State, step: Step) {
    match step
    case Open => true
    case Close(id) => id in s.handles
    case Refresh(id) => id in s.handles
    case Commit(id, recs, written) =>
      && id in s.handles
      && var base := CommitBase(|s.file|, Rescan(st, s.file, s.handles[id]));
      && Committable(base, recs)
      && written <= BlockLen(recs)
      && (written > 0 ==>
            var b := NewBlock(st, base, recs, id, written);
            && Clean(st, b)
            && TablesTell(st, Append(s.file, b.base, b.image[..written]), s.log + [b]))
  }

  ghost function Apply(st: Store, s: State, step: Step): State
    requires Enabled(st, s, step)
  {
    match step
    case Open =>
      s.(handles := s.handles[s.nextId := Handle(st.start, 0, [])], nextId := s.nextId + 1)
    case Close(id) => s.(handles := s.handles - {id})
    case Refresh(id) =>
      var h := s.handles[id];
      s.(handles := s.handles[id := Refreshed(h, Rescan(st, s.file, h))])
    case Commit(id, recs, written) =>
      var r := Rescan(st, s.file, s.handles[id]);
      Landed(s, id, r, NewBlock(st, CommitBase(|s.file|, r), recs, id, written))
  }

  /** The state once `b.written` bytes of block `b` have landed; the committer steps
      over its block only when all of it did. */
  ghost function Landed(s: State, id: nat, r: Scanned, b: Block): State
    requires id in s.handles && b.written <= |b.image| && |s.file| <= b.base
  {
    var h := Refreshed(s.handles[id], r);
    s.(file := Append(s.file, b.base, b.image[..b.written]),
       log := if b.written == 0 then s.log else s.log + [b],
       handles := s.handles[id := if b.Complete() then SteppedOver(h, b) else h])
  }

  function SteppedOver(h: Handle, b: Block): Handle {
    h.(readOff := AlignUp(b.End()), claimedEnd := Max(h.claimedEnd, b.End()))
  }

  ghost predicate Init(st: Store, s: State) {
    s.log == [] && s.handles == map[] && AlignUp(|s.file|) == st.start
  }

  /** A run: states that follow one another by enabled steps. */
  ghost predicate Run(st: Store, states: seq<State>, steps: seq<Step>) {
    && |states| == |steps| + 1
    && Init(st, states[0])
    && forall i {:trigger Follows(st, states[i], steps[i], states[i + 1])} ::
         0 <= i < |steps| ==> Follows(st, states[i], steps[i], states[i + 1])
  }

  ghost predicate Follows(st: Store, s: State, step: Step, s': State) {
    Enabled(st, s, step) && s' == Apply(st, s, step)
  }

  // ---- what every state of a run satisfies ---------------------------------------

  /** Handle `id` has been handed: every complete block of others behind its read
      offset, none of its own complete ones, and otherwise only torn blocks. */
  ghost predicate HandleInv(st: Store, file: seq<Byte>, log: seq<Block>, id: nat, h: Handle) {
    && h.readOff % ALIGN == 0 && st.start <= h.readOff <= AlignUp(|file|)
    && Found(log, h.got, 0, h.readOff)
    && (forall i :: 0 <= i < |log| && log[i].Complete() && log[i].base < h.readOff && log[i].owner != id
          ==> HitOf(log[i]) in h.got)
    && (forall i :: 0 <= i < |log| && log[i].Complete() && log[i].owner == id
          ==> log[i].base < h.readOff && HitOf(log[i]) !in h.got)
    && (forall i :: 0 <= i < |log| && log[i].Visible() && log[i].base < h.readOff
          ==> h.claimedEnd >= log[i].End())
  }

  /** A block of the log is the image of the records it was made of. */
  ghost predicate Made(st: Store, b: Block) {
    && Committable(b.base, b.recs)
    && b == NewBlock(st, b.base, b.recs, b.owner, b.written)
  }

  ghost predicate Inv(st: Store, s: State) {
    && Stored(st, s.file, s.log)
    && AlignUp(|s.file|) >= st.start
    && (forall i :: 0 <= i < |s.log| ==> Made(st, s.log[i]) && s.log[i].owner < s.nextId)
    && (forall id <- s.handles :: id < s.nextId && HandleInv(st, s.file, s.log, id, s.handles[id]))
  }

  // ---- one scan of one handle ----------------------------------------------------

  lemma AppendFound(log: seq<Block>, a: seq<Hit>, b: seq<Hit>, mid: nat, hi: nat)
    requires Found(log, a, 0, mid) && Found(log, b, mid, hi) && mid <= hi
    ensures Found(log, a + b, 0, hi)
  {}

  /** Refreshing keeps the handle's invariant and brings it up to the file's end. */
  lemma RescanKeeps(st: Store, s: State, id: nat)
    requires Inv(st, s) && id in s.handles
    ensures var h' := Refreshed(s.handles[id], Rescan(st, s.file, s.handles[id]));
            && HandleInv(st, s.file, s.log, id, h')
            && h'.readOff + BLOCK_HEADER > |s.file|
  {
    var h := s.handles[id];
    var r := Rescan(st, s.file, h);
    ScanIsSound(st, s.file, s.log, h.readOff, h.claimedEnd);
    AppendFound(s.log, h.got, r.hits, h.readOff, r.pos);
    forall i | 0 <= i < |s.log| && s.log[i].Complete() && s.log[i].owner == id
      ensures HitOf(s.log[i]) !in r.hits
    {
      assert s.log[i].base < h.readOff;
    }
  }

  // ---- appending a block -----------------------------------------------------------

  lemma {:induction false} PastEveryBlock(log: seq<Block>, x: nat)
    requires forall i :: 0 <= i < |log| ==> log[i].base + log[i].written <= x
    ensures ByteAt(log, x) == 0
  {
    if log != [] {
      PastEveryBlock(log[..|log| - 1], x);
    }
  }

  /** The file after the append is the one the longer log describes. */
  lemma AppendIsLogged(start: nat, file: seq<Byte>, log: seq<Block>, b: Block)
    requires Laid(start, log) && FileIs(start, file, log) && b.Shaped(start)
    requires |file| <= b.base
    ensures FileIs(start, Append(file, b.base, b.image[..b.written]), log + [b])
  {
    var file' := Append(file, b.base, b.image[..b.written]);
    var log' := log + [b];
    assert log'[..|log|] == log;
    forall x: nat | start <= x < |file'|
      ensures file'[x] == ByteAt(log', x)
    {
      if x < b.base {
        assert ByteAt(log', x) == ByteAt(log, x);
        if |file| <= x { PastEveryBlock(log, x); }
      }
    }
  }

  /** A block made by `commit` is genuine. */
  lemma MadeIsGenuine(st: Store, b: Block)
    requires Made(st, b) && b.Shaped(st.start)
    ensures Genuine(st, b)
  {
    hide EncodeHeader, EncodeEntries, BlockEntries, DecodeEntries, ParseHeader, BlockBytes, HeaderOf, ValidKind;
    FirstKind(st.crc, st.id, b.base, b.recs);
    assert b.image[BLOCK_HEADER + 4] != 0 by { ZeroIsNoKind(); }
    BlockParses(st.crc, st.id, b.base, b.recs);
    BlockDecodes(st.crc, st.id, b.base, b.recs);
    BlockSections(st.crc, st.id, b.base, b.recs);
  }

  lemma ZeroIsNoKind()
    ensures !ValidKind(0)
  {}

  lemma NoOverlap(st: Store, s: State, id: nat)
    requires Inv(st, s) && id in s.handles
    ensures var base := CommitBase(|s.file|, Rescan(st, s.file, s.handles[id]));
            && base % ALIGN == 0 && base >= st.start && base >= |s.file|
            && forall i :: 0 <= i < |s.log| ==> s.log[i].base + s.log[i].Owned() <= base
  {
    RescanKeeps(st, s, id);
    var r := Rescan(st, s.file, s.handles[id]);
    forall i | 0 <= i < |s.log|
      ensures s.log[i].base + s.log[i].Owned() <= CommitBase(|s.file|, r)
    {
      if s.log[i].Visible() { assert s.log[i].base < r.pos; }
    }
  }

  /** The longer log is laid out and genuine, whatever part of the block landed. */
  lemma LandedIsStored(st: Store, s: State, id: nat, r: Scanned, b: Block)
    requires Inv(st, s) && id in s.handles
    requires b.Shaped(st.start) && Genuine(st, b) && Clean(st, b)
    requires |s.file| <= b.base && TablesTell(st, Append(s.file, b.base, b.image[..b.written]), s.log + [b])
    requires forall i :: 0 <= i < |s.log| ==> s.log[i].base + s.log[i].Owned() <= b.base
    ensures Stored(st, Landed(s, id, r, b).file, Landed(s, id, r, b).log)
    ensures |s.file| <= |Landed(s, id, r, b).file|
  {
    hide Genuine, Clean, Append, FileIs, HandleInv, Made, TablesTell;
    AppendIsLogged(st.start, s.file, s.log, b);
    assert |s.file| <= |Append(s.file, b.base, b.image[..b.written])| by { AppendGrows(s.file, b.base, b.image[..b.written]); }
  }

  lemma AppendGrows(file: seq<Byte>, base: nat, bytes: seq<Byte>)
    requires |file| <= base
    ensures |file| <= |Append(file, base, bytes)|
  {}

  lemma AppendEnds(file: seq<Byte>, base: nat, bytes: seq<Byte>)
    requires |file| <= base && bytes != []
    ensures |Append(file, base, bytes)| == base + |bytes|
  {}

  lemma FoundGrows(log: seq<Block>, b: Block, hits: seq<Hit>, lo: nat, hi: nat)
    requires Found(log, hits, lo, hi)
    ensures Found(log + [b], hits, lo, hi)
  {
    forall j | 0 <= j < |hits|
      ensures IsBlock(log + [b], hits[j])
    {
      assert IsBlock(log, hits[j]);
      var i :| 0 <= i < |log| && log[i].Visible() && hits[j] == HitOf(log[i]);
      assert (log + [b])[i] == log[i];
    }
  }

  /** A block appended beyond a handle's read offset leaves its invariant alone. */
  lemma GrowKeepsHandle(st: Store, file: seq<Byte>, log: seq<Block>, file': seq<Byte>, b: Block, id: nat, h: Handle)
    requires HandleInv(st, file, log, id, h) && |file| <= |file'|
    requires b.base >= h.readOff && !(b.owner == id && b.Complete())
    ensures HandleInv(st, file', log + [b], id, h)
  {
    FoundGrows(log, b, h.got, 0, h.readOff);
  }

  /** The committer of a complete block steps over it. */
  lemma OwnBlockKeepsHandle(st: Store, file: seq<Byte>, log: seq<Block>, file': seq<Byte>, b: Block, id: nat, h: Handle)
    requires HandleInv(st, file, log, id, h)
    requires b.base >= h.readOff && b.owner == id && b.Complete() && |file'| == b.End() && b.image != []
    requires forall i :: 0 <= i < |log| && log[i].Visible() ==> log[i].base < h.readOff
    requires forall i :: 0 <= i < |log| && log[i].Complete() ==> log[i].Visible()
    ensures HandleInv(st, file', log + [b], id, SteppedOver(h, b))
  {
    FoundGrows(log, b, h.got, 0, h.readOff);
    var log', h' := log + [b], SteppedOver(h, b);
    assert h'.readOff >= b.End() > b.base;
    assert HitOf(b) !in h.got;
  }

  lemma LandedKeepsOther(st: Store, s: State, id: nat, b: Block, k: nat)
    requires Inv(st, s) && id in s.handles && k in s.handles && k != id
    requires b.Shaped(st.start) && b.owner == id
    requires b.base == CommitBase(|s.file|, Rescan(st, s.file, s.handles[id]))
    ensures var s' := Landed(s, id, Rescan(st, s.file, s.handles[id]), b);
            HandleInv(st, s'.file, s'.log, k, s'.handles[k])
  {
    hide Scan, Inv, HandleInv, Append, AlignUp, CommitBase;
    var h := s.handles[k];
    BehindBase(st, s, id, k);
    var file' := Append(s.file, b.base, b.image[..b.written]);
    AppendGrows(s.file, b.base, b.image[..b.written]);
    GrowKeepsHandle(st, s.file, s.log, file', b, k, h);
  }

  /** A handle has read no further than where the next block goes. */
  lemma BehindBase(st: Store, s: State, id: nat, k: nat)
    requires Inv(st, s) && id in s.handles && k in s.handles
    ensures HandleInv(st, s.file, s.log, k, s.handles[k])
    ensures var base := CommitBase(|s.file|, Rescan(st, s.file, s.handles[id])); s.handles[k].readOff <= base && |s.file| <= base
  {
    hide Scan, Stored, Made;
    assert HandleInv(st, s.file, s.log, k, s.handles[k]);
  }

  /** Every block of the log a scan can see starts before where the scan ended. */
  lemma AllSeen(st: Store, s: State, id: nat, h: Handle)
    requires Inv(st, s) && h.readOff + BLOCK_HEADER > |s.file|
    ensures forall i :: 0 <= i < |s.log| && s.log[i].Visible() ==> s.log[i].base < h.readOff
    ensures forall i :: 0 <= i < |s.log| && s.log[i].Complete() ==> s.log[i].Visible()
  {
    hide HandleInv, TablesTell, Made;
  }

  lemma LandedKeepsOwn(st: Store, s: State, id: nat, b: Block)
    requires Inv(st, s) && id in s.handles
    requires b.Shaped(st.start) && b.owner == id
    requires b.base == CommitBase(|s.file|, Rescan(st, s.file, s.handles[id]))
    ensures var s' := Landed(s, id, Rescan(st, s.file, s.handles[id]), b);
            HandleInv(st, s'.file, s'.log, id, s'.handles[id])
  {
    var h := Refreshed(s.handles[id], Rescan(st, s.file, s.handles[id]));
    hide Scan, Inv, HandleInv, Append;
    RescanKeeps(st, s, id);
    var file' := Append(s.file, b.base, b.image[..b.written]);
    AppendGrows(s.file, b.base, b.image[..b.written]);
    if b.Complete() {
      AllSeen(st, s, id, h);
      assert b.image[..b.written] == b.image;
      AppendEnds(s.file, b.base, b.image);
      OwnBlockKeepsHandle(st, s.file, s.log, file', b, id, h);
    } else {
      GrowKeepsHandle(st, s.file, s.log, file', b, id, h);
    }
  }

  lemma LandedKeepsHandle(st: Store, s: State, id: nat, b: Block, k: nat)
    requires Inv(st, s) && id in s.handles && k in s.handles
    requires b.Shaped(st.start) && b.owner == id
    requires b.base == CommitBase(|s.file|, Rescan(st, s.file, s.handles[id]))
    ensures var s' := Landed(s, id, Rescan(st, s.file, s.handles[id]), b);
            HandleInv(st, s'.file, s'.log, k, s'.handles[k])
  {
    hide Scan, Inv, HandleInv, Append, AlignUp, Landed;
    if k != id {
      LandedKeepsOther(st, s, id, b, k);
    } else {
      LandedKeepsOwn(st, s, id, b);
    }
  }

  lemma CommitKeepsInv(st: Store, s: State, id: nat, recs: seq<SlotRecord>, written: nat)
    requires Inv(st, s) && Enabled(st, s, Commit(id, recs, written)) && written > 0
    ensures Inv(st, Apply(st, s, Commit(id, recs, written)))
  {
    hide HandleInv, BlockBytes, BlockEntries, Clean, Genuine, Append, Stored, Scan;
    var r := Rescan(st, s.file, s.handles[id]);
    var b := NewBlock(st, CommitBase(|s.file|, r), recs, id, written);
    NoOverlap(st, s, id);
    MadeIsGenuine(st, b);
    LandedIsStored(st, s, id, r, b);
    var s' := Landed(s, id, r, b);
    assert forall i :: 0 <= i < |s.log| ==> s'.log[i] == s.log[i];
    forall k <- s'.handles
      ensures k < s'.nextId && HandleInv(st, s'.file, s'.log, k, s'.handles[k])
    {
      LandedKeepsHandle(st, s, id, b, k);
    }
  }

  // ---- runs -----------------------------------------------------------------------

  lemma StepKeepsInv(st: Store, s: State, step: Step)
    requires Inv(st, s) && Enabled(st, s, step)
    ensures Inv(st, Apply(st, s, step))
  {
    hide AllGenuine, FileIs, Made, Scan, Clean, TablesTell, BlockBytes, BlockEntries, HeaderOf;
    match step
    case Open =>
    case Close(id) =>
    case Refresh(id) => RescanKeeps(st, s, id);
    case Commit(id, recs, written) =>
      if written > 0 {
        CommitKeepsInv(st, s, id, recs, written);
      } else {
        RescanKeeps(st, s, id);
      }
  }

  lemma InitInv(st: Store, s: State)
    requires Init(st, s)
    ensures Inv(st, s)
  {}

  lemma {:induction false} RunKeepsInv(st: Store, states: seq<State>, steps: seq<Step>)
    requires Run(st, states, steps)
    ensures forall i :: 0 <= i < |states| ==> Inv(st, states[i])
  {
    hide Apply, Enabled, Inv;
    assert Inv(st, states[0]) by { InitInv(st, states[0]); }
    var k := 0;
    while k < |steps|
      invariant 0 <= k <= |steps|
      invariant forall i :: 0 <= i <= k ==> Inv(st, states[i])
    {
      assert Follows(st, states[k], steps[k], states[k + 1]);
      StepKeepsInv(st, states[k], steps[k]);
      k := k + 1;
    }
  }

  // ---- the theorems -----------------------------------------------------------------

  /** A block some handle other than `id` committed before `below`. */
  predicate Other(b: Block, id: nat, below: nat) { b.Complete() && b.owner != id && b.base < below }

  /** The complete blocks of handles other than `id` that start before `below`, in
      commit order. */
  ghost function OthersCommitted(log: seq<Block>, id: nat, below: nat): seq<Hit> {
    if log == [] then []
    else
      var b := log[|log| - 1];
      OthersCommitted(log[..|log| - 1], id, below) + if Other(b, id, below) then [HitOf(b)] else []
  }

  ghost predicate IsComplete(log: seq<Block>, hit: Hit) {
    exists i :: 0 <= i < |log| && log[i].Complete() && hit == HitOf(log[i])
  }

  /** What is left of a delivery once the entries of torn blocks are struck out. */
  ghost function CompleteOnly(log: seq<Block>, got: seq<Hit>): seq<Hit> {
    if got == [] then []
    else
      CompleteOnly(log, got[..|got| - 1])
      + if IsComplete(log, got[|got| - 1]) then [got[|got| - 1]] else []
  }

  ghost predicate IsOther(log: seq<Block>, id: nat, below: nat, h: Hit) {
    exists i :: 0 <= i < |log| && Other(log[i], id, below) && h == HitOf(log[i])
  }

  lemma OneMoreOther(log: seq<Block>, id: nat, below: nat, h: Hit)
    requires log != []
    ensures var b := log[|log| - 1];
            IsOther(log, id, below, h) <==> IsOther(log[..|log| - 1], id, below, h) || (Other(b, id, below) && h == HitOf(b))
  {
    hide Other;
    var front := log[..|log| - 1];
    if IsOther(front, id, below, h) {
      var i :| 0 <= i < |front| && Other(front[i], id, below) && h == HitOf(front[i]);
      assert log[i] == front[i];
    }
    if IsOther(log, id, below, h) {
      var i :| 0 <= i < |log| && Other(log[i], id, below) && h == HitOf(log[i]);
      if i < |front| { assert front[i] == log[i]; }
    }
  }

  lemma {:induction false} OthersAre(log: seq<Block>, id: nat, below: nat, h: Hit)
    ensures h in OthersCommitted(log, id, below) <==> IsOther(log, id, below, h)
    decreases |log|
  {
    hide Other, IsOther;
    if log == [] {
      assert !IsOther(log, id, below, h) by { NoOther(log, id, below, h); }
    } else {
      OthersAre(log[..|log| - 1], id, below, h);
      OneMoreOther(log, id, below, h);
    }
  }

  lemma NoOther(log: seq<Block>, id: nat, below: nat, h: Hit)
    requires log == []
    ensures !IsOther(log, id, below, h)
  {}

  lemma {:induction false} OthersAscend(start: nat, log: seq<Block>, id: nat, below: nat)
    requires Laid(start, log)
    ensures var c := OthersCommitted(log, id, below);
            Ascending(c) && forall j :: 0 <= j < |c| ==> log != [] && c[j].base <= log[|log| - 1].base
    decreases |log|
  {
    if log != [] {
      var front, b := log[..|log| - 1], log[|log| - 1];
      OthersAscend(start, front, id, below);
      if front != [] { assert log[|log| - 2].base + log[|log| - 2].Owned() <= b.base; }
    }
  }

  lemma {:induction false} CompleteOnlyIs(log: seq<Block>, got: seq<Hit>)
    requires Ascending(got)
    ensures var c := CompleteOnly(log, got);
            && Ascending(c)
            && (forall h :: h in c <==> h in got && IsComplete(log, h))
    decreases |got|
  {
    if got != [] {
      var front, last := got[..|got| - 1], got[|got| - 1];
      CompleteOnlyIs(log, front);
      assert got == front + [last];
      assert forall h <- CompleteOnly(log, front) :: h.base < last.base;
    }
  }

  /** Ascending sequences are equal when they have the same members. */
  lemma {:induction false} SameMembers(a: seq<Hit>, b: seq<Hit>)
    requires Ascending(a) && Ascending(b) && forall h :: h in a <==> h in b
    ensures a == b
    decreases |a|
  {
    if b != [] { assert b[0] in a; }
    if a != [] {
      assert a[0] in b;
      var k :| 0 <= k < |b| && b[k] == a[0];
      var j :| 0 <= j < |a| && a[j] == b[0];
      assert b[0] == a[0];
      forall h
        ensures h in a[1..] <==> h in b[1..]
      {
        assert h in a <==> h == a[0] || h in a[1..];
        assert h in b <==> h == b[0] || h in b[1..];
        assert forall i :: 0 <= i < |a[1..]| ==> a[1..][i] == a[i + 1];
        assert forall i :: 0 <= i < |b[1..]| ==> b[1..][i] == b[i + 1];
      }
      SameMembers(a[1..], b[1..]);
    }
  }

  /** A complete block was handed to the handle exactly if it is another's, read past. */
  lemma HandedHit(st: Store, file: seq<Byte>, log: seq<Block>, id: nat, h: Handle, hit: Hit)
    requires Laid(st.start, log) && HandleInv(st, file, log, id, h)
    ensures hit in h.got && IsComplete(log, hit) <==> IsOther(log, id, h.readOff, hit)
  {
    if hit in h.got && IsComplete(log, hit) {
      var i :| 0 <= i < |log| && log[i].Complete() && hit == HitOf(log[i]);
      assert Other(log[i], id, h.readOff);
    }
    if IsOther(log, id, h.readOff, hit) {
      var i :| 0 <= i < |log| && Other(log[i], id, h.readOff) && hit == HitOf(log[i]);
    }
  }

  lemma HandedExactly(st: Store, file: seq<Byte>, log: seq<Block>, id: nat, h: Handle)
    requires Laid(st.start, log) && HandleInv(st, file, log, id, h)
    ensures CompleteOnly(log, h.got) == OthersCommitted(log, id, h.readOff)
    ensures forall hit <- h.got :: IsBlock(log, hit)
  {
    CompleteOnlyIs(log, h.got);
    OthersAscend(st.start, log, id, h.readOff);
    forall hit ensures hit in CompleteOnly(log, h.got) <==> hit in OthersCommitted(log, id, h.readOff) {
      OthersAre(log, id, h.readOff, hit);
      HandedHit(st, file, log, id, h, hit);
    }
    SameMembers(CompleteOnly(log, h.got), OthersCommitted(log, id, h.readOff));
  }

  /** Exactly once, in commit order: strike the entries of torn blocks out of what a
      handle was handed, and what is left is precisely the sequence of blocks the
      other handles committed, up to where this one has read. */
  lemma DeliveredExactlyOnce(st: Store, states: seq<State>, steps: seq<Step>, i: nat, id: nat)
    requires Run(st, states, steps) && i < |states| && id in states[i].handles
    ensures var s := states[i];
            var h := s.handles[id];
            && CompleteOnly(s.log, h.got) == OthersCommitted(s.log, id, h.readOff)
            && (forall hit <- h.got :: IsBlock(s.log, hit))
  {
    RunKeepsInv(st, states, steps);
    var s := states[i];
    assert HandleInv(st, s.file, s.log, id, s.handles[id]);
    HandedExactly(st, s.file, s.log, id, s.handles[id]);
  }

  /** A handle that has just refreshed or committed has been handed everything the
      others had committed by then. */
  lemma RefreshIsCurrent(st: Store, states: seq<State>, steps: seq<Step>, i: nat, id: nat, below: nat)
    requires Run(st, states, steps) && i < |steps|
    requires id in states[i].handles && Follows(st, states[i], steps[i], states[i + 1])
    requires steps[i] == Refresh(id) || (steps[i].Commit? && steps[i].id == id)
    requires forall b <- states[i].log :: b.base < below
    ensures var s, s' := states[i], states[i + 1];
            OthersCommitted(s.log, id, s'.handles[id].readOff) == OthersCommitted(s.log, id, below)
  {
    RunKeepsInv(st, states, steps);
    hide Inv, Scan, BlockBytes, HeaderOf, BlockEntries, Clean, TablesTell, AlignUp;
    var s, s' := states[i], states[i + 1];
    CaughtUp(st, s, id);
    ReadOn(st, s, steps[i], s', id);
    AllBelow(s.log, id, s'.handles[id].readOff, below);
  }

  lemma ReadOn(st: Store, s: State, step: Step, s': State, id: nat)
    requires Follows(st, s, step, s') && id in s.handles
    requires step == Refresh(id) || (step.Commit? && step.id == id)
    ensures id in s'.handles && s'.handles[id].readOff >= Rescan(st, s.file, s.handles[id]).pos
  {
    hide Scan, BlockBytes, HeaderOf, BlockEntries, Clean, TablesTell;
  }

  lemma CaughtUp(st: Store, s: State, id: nat)
    requires Inv(st, s) && id in s.handles
    ensures var r := Rescan(st, s.file, s.handles[id]);
            forall i :: 0 <= i < |s.log| ==> s.log[i].Complete() ==> s.log[i].base < r.pos
  {
    RescanKeeps(st, s, id);
  }

  lemma {:induction false} AllBelow(log: seq<Block>, id: nat, lo: nat, hi: nat)
    requires forall i :: 0 <= i < |log| ==> log[i].Complete() ==> log[i].base < lo
    requires forall i :: 0 <= i < |log| ==> log[i].base < hi
    ensures OthersCommitted(log, id, lo) == OthersCommitted(log, id, hi)
  {
    if log != [] { AllBelow(log[..|log| - 1], id, lo, hi); }
  }

  /** No block's extent overlaps another's, in any state of any run. */
  lemma ExtentsDisjoint(st: Store, states: seq<State>, steps: seq<Step>, i: nat)
    requires Run(st, states, steps) && i < |states|
    ensures Disjoint(states[i].log)
  {
    RunKeepsInv(st, states, steps);
  }

  // ---- records ------------------------------------------------------------------------

  /** readRecord: the bytes an entry points at, if they carry its seeded checksum. */
  function ReadRecord(st: Store, file: seq<Byte>, e: SlotEntry): Option<seq<Byte>> {
    if e.kind == K_KEPT || e.off + e.len > |file| then None
    else
      var bytes := file[e.off..e.off + e.len];
      if RecordCrc(st.crc, st.id, e.slot, bytes) == e.crc then Some(bytes) else None
  }

  /** A record is handed out exactly if there is one, all of it is in the file, and its bytes after
      the seed of this store, slot and length carry the entry's checksum. */
  lemma ReadRecordExactly(st: Store, file: seq<Byte>, e: SlotEntry, x: seq<Byte>, s: seq<Byte>)
    requires |s| >= 16 && U64At(s, 0) == st.id && U32At(s, 8) == e.slot && U32At(s, 12) == e.len && s[16..] == x
    ensures ReadRecord(st, file, e) == Some(x) <==> e.kind != 3 && |x| == e.len && Has(file, e.off, x) && st.crc(s) == e.crc
  {
    hide RecordCrc, U32At, U64At;
    if |x| == e.len { SeededExactly(st.crc, st.id, e.slot, x, s); }
  }

  /** What is left of record `k` of block `b`: its bytes up to where the block was cut, then
      zeros. */
  function CutRecord(b: Block, k: nat): seq<Byte>
    requires Committable(b.base, b.recs) && k < |b.recs|
  {
    Cut(b.image, b.written, RecordOff(b.base, b.recs, k) - b.base, |b.recs[k].bytes|)
  }

  /** Where the entry points, the file shows what is left of the record: all of it if it
      landed. */
  lemma RecordShown(st: Store, file: seq<Byte>, log: seq<Block>, j: nat, k: nat)
    requires Laid(st.start, log) && FileIs(st.start, file, log)
    requires j < |log| && log[j].Visible() && Made(st, log[j])
    requires k < |log[j].recs| && log[j].recs[k].kind != K_KEPT
    ensures k < |log[j].entries| && log[j].entries[k].len == |log[j].recs[k].bytes|
    ensures log[j].entries[k].off == RecordOff(log[j].base, log[j].recs, k)
    ensures var b, e := log[j], log[j].entries[k];
            && (e.off + e.len <= |file| ==> file[e.off..e.off + e.len] == CutRecord(b, k))
            && (e.off + e.len <= b.base + b.written ==> CutRecord(b, k) == b.recs[k].bytes)
  {
    hide BlockBytes, HeaderOf, RecordCrc, RecordOff;
    var b := log[j];
    var off, len := RecordOff(b.base, b.recs, k), |b.recs[k].bytes|;
    BlockHoldsRecord(st.crc, st.id, b.base, b.recs, k);
    if off + len <= |file| {
      if j + 1 < |log| { assert b.base + b.Owned() <= log[j + 1].base; }
      SliceOfBlock(st.start, file, log, j, off, len);
    }
    if off + len <= b.base + b.written { CutInside(b.image, b.written, off - b.base, len); }
  }

  lemma CutInside(image: seq<Byte>, k: nat, from: nat, n: nat)
    requires from + n <= k <= |image|
    ensures Cut(image, k, from, n) == image[from..from + n]
  {}

  /** Reading through an entry of a block whose header landed yields what is left of the
      record, exactly if that carries the record's checksum. */
  lemma ReadsWhatIsLeft(st: Store, file: seq<Byte>, log: seq<Block>, j: nat, k: nat)
    requires Laid(st.start, log) && FileIs(st.start, file, log)
    requires j < |log| && log[j].Visible() && Made(st, log[j])
    requires k < |log[j].recs| && log[j].recs[k].kind != K_KEPT
    ensures k < |log[j].entries|
    ensures var b, e := log[j], log[j].entries[k];
            ReadRecord(st, file, e)
            == if e.off + e.len <= |file| && RecordCrc(st.crc, st.id, b.recs[k].slot, CutRecord(b, k))
                                             == RecordCrc(st.crc, st.id, b.recs[k].slot, b.recs[k].bytes)
               then Some(CutRecord(b, k)) else None
  {
    hide BlockBytes, HeaderOf, RecordCrc, RecordOff, FileIs, Laid, CutRecord;
    RecordShown(st, file, log, j, k);
  }

  /** A record that landed, its block whole or not, reads back byte for byte in every later
      state. */
  lemma CommittedRecordReads(st: Store, states: seq<State>, steps: seq<Step>, i: nat, j: nat, k: nat)
    requires Run(st, states, steps) && i < |states|
    requires j < |states[i].log| && states[i].log[j].Visible()
    requires k < |states[i].log[j].recs| && states[i].log[j].recs[k].kind != K_KEPT
    ensures k < |states[i].log[j].entries|
    ensures var b, e := states[i].log[j], states[i].log[j].entries[k];
            b.Complete() || e.off + e.len <= b.base + b.written ==> ReadRecord(st, states[i].file, e) == Some(b.recs[k].bytes)
  {
    RunKeepsInv(st, states, steps);
    var s := states[i];
    assert Made(st, s.log[j]) && s.log[j].base + s.log[j].written <= |s.file|;
    hide Run, HandleInv, BlockBytes, BlockEntries, HeaderOf, CutRecord, AllGenuine, TablesTell;
    ReadsWhatIsLeft(st, s.file, s.log, j, k);
    RecordShown(st, s.file, s.log, j, k);
    if s.log[j].Complete() { BlockHoldsRecord(st.crc, st.id, s.log[j].base, s.log[j].recs, k); }
  }

  /** A record cut short yields its bytes or nothing, if what is left of it does not carry its
      seeded checksum without being it. */
  lemma TornRecordNeverLies(st: Store, states: seq<State>, steps: seq<Step>, i: nat, j: nat, k: nat)
    requires Run(st, states, steps) && i < |states| && j < |states[i].log| && states[i].log[j].Visible()
    requires k < |states[i].log[j].recs| && states[i].log[j].recs[k].kind != K_KEPT
    requires ChecksumTells(st, states[i].log[j], k)
    ensures var b := states[i].log[j];
            k < |b.entries| &&
            var got := ReadRecord(st, states[i].file, b.entries[k]);
            got.None? || got == Some(b.recs[k].bytes)
  {
    RunKeepsInv(st, states, steps);
    var s := states[i];
    assert Made(st, s.log[j]);
    hide Run, HandleInv, BlockBytes, BlockEntries, HeaderOf, CutRecord, AllGenuine, TablesTell;
    ReadsWhatIsLeft(st, s.file, s.log, j, k);
  }

  /** What is left of record `k` does not carry the record's checksum unless it is the record. */
  ghost predicate ChecksumTells(st: Store, b: Block, k: nat) {
    && Committable(b.base, b.recs) && k < |b.recs|
    && RecordCrc(st.crc, st.id, b.recs[k].slot, CutRecord(b, k)) == RecordCrc(st.crc, st.id, b.recs[k].slot, b.recs[k].bytes)
    ==> CutRecord(b, k) == b.recs[k].bytes
  }
}
