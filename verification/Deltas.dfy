/** The sidecar as shared state: an image of present pages, and the deltas by which
    a handle commits only what it changed itself. */
module Deltas {
  import opened Bytes

  /** Bitmap and CRC table in one: the present pages, each with its CRC. */
  type Image = map<nat, U32>

  /** Pages set and pages cleared since the last store. */
  datatype Delta = Delta(sets: set<nat>, clears: set<nat>) {
    function Pages(): set<nat> { sets + clears }
  }

  const NO_DELTA := Delta({}, {})

  datatype Transition = SetPage(page: nat, crc: U32) | ClearPage(page: nat)

  function Transit(img: Image, t: Transition): Image {
    match t
    case SetPage(p, c) => img[p := c]
    case ClearPage(p) => img - {p}
  }

  function Replay(img: Image, ts: seq<Transition>): Image {
    if ts == [] then img else Transit(Replay(img, ts[..|ts| - 1]), ts[|ts| - 1])
  }

  /** The last transition of page `p`, if there is one. */
  function LastOn(ts: seq<Transition>, p: nat): Option<Transition> {
    if ts == [] then None
    else if ts[|ts| - 1].page == p then Some(ts[|ts| - 1])
    else LastOn(ts[..|ts| - 1], p)
  }

  /** What an image says of one page. */
  function Lookup(img: Image, p: nat): Option<U32> {
    if p in img then Some(img[p]) else None
  }

  function Outcome(img: Image, t: Option<Transition>, p: nat): Option<U32> {
    match t
    case None => Lookup(img, p)
    case Some(SetPage(_, c)) => Some(c)
    case Some(ClearPage(_)) => None
  }

  /** Replaying a history leaves each page as its last transition left it. */
  lemma {:induction false} ReplayIsLast(img: Image, ts: seq<Transition>, p: nat)
    ensures Lookup(Replay(img, ts), p) == Outcome(img, LastOn(ts, p), p)
    decreases |ts|
  {
    if ts != [] {
      ReplayIsLast(img, ts[..|ts| - 1], p);
    }
  }

  lemma {:induction false} LastOnConcat(a: seq<Transition>, b: seq<Transition>, p: nat)
    ensures LastOn(a + b, p) == if LastOn(b, p).Some? then LastOn(b, p) else LastOn(a, p)
    decreases |b|
  {
    if b == [] {
      assert a + b == a;
    } else {
      assert (a + b)[..|a + b| - 1] == a + b[..|b| - 1];
      LastOnConcat(a, b[..|b| - 1], p);
    }
  }

  lemma {:induction false} ReplayConcat(img: Image, a: seq<Transition>, b: seq<Transition>)
    ensures Replay(img, a + b) == Replay(Replay(img, a), b)
    decreases |b|
  {
    if b == [] {
      assert a + b == a;
    } else {
      assert (a + b)[..|a + b| - 1] == a + b[..|b| - 1];
      ReplayConcat(img, a, b[..|b| - 1]);
    }
  }

  lemma SameImage(a: Image, b: Image)
    requires forall p: nat :: Lookup(a, p) == Lookup(b, p)
    ensures a == b
  {
    forall p: nat ensures p in a <==> p in b {
      assert Lookup(a, p) == Lookup(b, p);
    }
    forall p: nat | p in a ensures a[p] == b[p] {
      assert Lookup(a, p) == Lookup(b, p);
    }
  }

  // ---- deltas and what they stand for -----------------------------------------------

  /** `d`, with the CRCs in `img`, says of every page what `ts` says last of it. */
  ghost predicate NetOf(ts: seq<Transition>, d: Delta, img: Image) {
    forall p: nat {:trigger LastOn(ts, p)} ::
      match LastOn(ts, p)
      case None => p !in d.sets && p !in d.clears
      case Some(SetPage(_, c)) => p in d.sets && p !in d.clears && Lookup(img, p) == Some(c)
      case Some(ClearPage(_)) => p !in d.sets && p in d.clears && p !in img
  }

  /** Commit a delta onto an image: cleared pages go, set pages take the snapshot's CRC. */
  function Merge(disk: Image, snap: Image, d: Delta): Image
    requires d.sets <= snap.Keys
  {
    map p | p in disk.Keys + d.sets && p !in d.clears :: if p in d.sets then snap[p] else disk[p]
  }

  /** Committing a delta is replaying the transitions it stands for. */
  lemma MergeIsReplay(disk: Image, snap: Image, d: Delta, ts: seq<Transition>)
    requires NetOf(ts, d, snap)
    ensures d.sets <= snap.Keys
    ensures Merge(disk, snap, d) == Replay(disk, ts)
  {
    forall p <- d.sets ensures p in snap {
      assert LastOn(ts, p) == LastOn(ts, p);
    }
    forall p: nat ensures Lookup(Merge(disk, snap, d), p) == Lookup(Replay(disk, ts), p) {
      ReplayIsLast(disk, ts, p);
    }
    SameImage(Merge(disk, snap, d), Replay(disk, ts));
  }

  /** A commit changes no page its handle has not set or cleared. */
  lemma MergeTouchesOnlyDelta(disk: Image, snap: Image, d: Delta, p: nat)
    requires d.sets <= snap.Keys && p !in d.Pages()
    ensures Lookup(Merge(disk, snap, d), p) == Lookup(disk, p)
  {}

  /** Take over a committed image on the pages not touched since. */
  function Adopt(mem: Image, out: Image, since: Delta): Image {
    map p | p in mem.Keys + out.Keys && (if p in since.Pages() then p in mem else p in out)
        :: if p in since.Pages() then mem[p] else out[p]
  }

  /** Put the deltas of a failed store back, newer opposite transitions winning. */
  function Rearm(since: Delta, failed: Delta): Delta {
    var sets := since.sets + (failed.sets - since.clears);
    Delta(sets, since.clears + (failed.clears - sets))
  }

  /** Re-arming is as if the store had never been tried: the delta stands for the old
      transitions followed by the new ones. */
  lemma RearmIsConcat(first: seq<Transition>, second: seq<Transition>, failed: Delta, since: Delta, snap: Image, mem: Image)
    requires NetOf(first, failed, snap) && NetOf(second, since, mem)
    requires forall p: nat :: p !in since.Pages() ==> Lookup(mem, p) == Lookup(snap, p)
    ensures NetOf(first + second, Rearm(since, failed), mem)
  {
    forall p: nat
      ensures match LastOn(first + second, p)
              case None => p !in Rearm(since, failed).sets && p !in Rearm(since, failed).clears
              case Some(SetPage(_, c)) => p in Rearm(since, failed).sets && p !in Rearm(since, failed).clears && Lookup(mem, p) == Some(c)
              case Some(ClearPage(_)) => p !in Rearm(since, failed).sets && p in Rearm(since, failed).clears && p !in mem
    {
      LastOnConcat(first, second, p);
      assert LastOn(first, p) == LastOn(first, p) && LastOn(second, p) == LastOn(second, p);
      if p !in since.Pages() { assert Lookup(mem, p) == Lookup(snap, p); }
    }
  }

  // ---- one handle's view ----------------------------------------------------------------

  /** Where a handle stands with its sidecar commit. */
  datatype Phase =
    | Idle
    | Snapped(snap: Image, delta: Delta)   // deltas taken, store not yet done
    | Landed(snap: Image, out: Image)      // stored and merged, not yet adopted

  /** A handle's memory of the sidecar. `base` is the image last adopted; `sent` and
      `unsent` are the transitions in the snapshot and since it. */
  datatype View = View(mem: Image, since: Delta, phase: Phase, base: Image,
                       sent: seq<Transition>, unsent: seq<Transition>)

  function Opened(img: Image): View { View(img, NO_DELTA, Idle, img, [], []) }

  function PublishPage(v: View, p: nat, c: U32): View {
    v.(mem := v.mem[p := c], since := Delta(v.since.sets + {p}, v.since.clears - {p}),
       unsent := v.unsent + [SetPage(p, c)])
  }

  function RetractPage(v: View, p: nat): View {
    v.(mem := v.mem - {p}, since := Delta(v.since.sets - {p}, v.since.clears + {p}),
       unsent := v.unsent + [ClearPage(p)])
  }

  function TakeSnapshot(v: View): View
    requires v.phase.Idle?
  {
    v.(phase := Snapped(v.mem, v.since), since := NO_DELTA, sent := v.unsent, unsent := [])
  }

  /** The image the commit stores: merged onto the disk's, or the snapshot whole. */
  function Stored(v: View, disk: Option<Image>): Image
    requires v.phase.Snapped? && v.phase.delta.sets <= v.phase.snap.Keys
  {
    if disk.Some? then Merge(disk.value, v.phase.snap, v.phase.delta) else v.phase.snap
  }

  /** The store succeeded. Only a merged image is adopted later. */
  function StoreDone(v: View, disk: Option<Image>): View
    requires v.phase.Snapped? && v.phase.delta.sets <= v.phase.snap.Keys
  {
    if disk.Some? then v.(phase := Landed(v.phase.snap, Stored(v, disk)), sent := [])
    else v.(phase := Idle, base := v.phase.snap, sent := [])
  }

  function StoreFailed(v: View): View
    requires v.phase.Snapped?
  {
    v.(phase := Idle, since := Rearm(v.since, v.phase.delta), sent := [], unsent := v.sent + v.unsent)
  }

  function AdoptCommitted(v: View): View
    requires v.phase.Landed?
  {
    v.(mem := Adopt(v.mem, v.phase.out, v.since), phase := Idle, base := v.phase.out)
  }

  /** Two images agree outside a set of pages. */
  ghost predicate AgreeOff(a: Image, b: Image, pages: set<nat>) {
    forall p: nat {:trigger Lookup(a, p)} {:trigger Lookup(b, p)} :: p !in pages ==> Lookup(a, p) == Lookup(b, p)
  }

  /** The image the current deltas are relative to. */
  function Ground(v: View): Image {
    match v.phase
    case Idle => v.base
    case Snapped(snap, _) => snap
    case Landed(snap, _) => snap
  }

  /** The per-handle invariant: deltas are disjoint, set pages present, cleared pages
      absent, they stand for the transitions made, and memory is the ground image
      overlaid with them; likewise the snapshot over the adopted image. */
  ghost predicate ViewInv(v: View) {
    && v.since.sets !! v.since.clears
    && v.since.sets <= v.mem.Keys && v.since.clears !! v.mem.Keys
    && NetOf(v.unsent, v.since, v.mem)
    && AgreeOff(v.mem, Ground(v), v.since.Pages())
    && (v.phase.Snapped? ==>
          && v.phase.delta.sets !! v.phase.delta.clears
          && v.phase.delta.sets <= v.phase.snap.Keys && v.phase.delta.clears !! v.phase.snap.Keys
          && NetOf(v.sent, v.phase.delta, v.phase.snap)
          && AgreeOff(v.phase.snap, v.base, v.phase.delta.Pages()))
    && (!v.phase.Snapped? ==> v.sent == [])
  }

  lemma NetDelta(ts: seq<Transition>, d: Delta, img: Image)
    requires NetOf(ts, d, img)
    ensures d.sets !! d.clears && d.sets <= img.Keys && d.clears !! img.Keys
  {
    forall p: nat
      ensures !(p in d.sets && p in d.clears)
      ensures p in d.sets ==> p in img
      ensures p in d.clears ==> p !in img
    {
      assert LastOn(ts, p) == LastOn(ts, p);
    }
  }

  lemma OpenedInv(img: Image)
    ensures ViewInv(Opened(img))
  {}

  lemma NetSnoc(ts: seq<Transition>, t: Transition, d: Delta, d': Delta, img: Image, img': Image)
    requires NetOf(ts, d, img)
    requires forall p: nat :: p != t.page ==> (p in d'.sets <==> p in d.sets) && (p in d'.clears <==> p in d.clears)
                                               && Lookup(img', p) == Lookup(img, p)
    requires t.SetPage? ==> t.page in d'.sets && t.page !in d'.clears && Lookup(img', t.page) == Some(t.crc)
    requires t.ClearPage? ==> t.page !in d'.sets && t.page in d'.clears && t.page !in img'
    ensures NetOf(ts + [t], d', img')
  {
    assert (ts + [t])[..|ts|] == ts;
    forall p: nat
      ensures LastOn(ts + [t], p) == if t.page == p then Some(t) else LastOn(ts, p)
    {}
    forall p: nat | p != t.page
      ensures Lookup(img', p) == Lookup(img, p)
      ensures p in img' <==> p in img
    {}
  }

  lemma PublishKeeps(v: View, p: nat, c: U32)
    requires ViewInv(v)
    ensures ViewInv(PublishPage(v, p, c))
  {
    var v' := PublishPage(v, p, c);
    NetSnoc(v.unsent, SetPage(p, c), v.since, v'.since, v.mem, v'.mem);
    NetDelta(v'.unsent, v'.since, v'.mem);
  }

  lemma RetractKeeps(v: View, p: nat)
    requires ViewInv(v)
    ensures ViewInv(RetractPage(v, p))
  {
    var v' := RetractPage(v, p);
    NetSnoc(v.unsent, ClearPage(p), v.since, v'.since, v.mem, v'.mem);
    NetDelta(v'.unsent, v'.since, v'.mem);
  }

  lemma SnapshotKeeps(v: View)
    requires ViewInv(v) && v.phase.Idle?
    ensures ViewInv(TakeSnapshot(v))
  {}

  lemma StoreKeeps(v: View, disk: Option<Image>)
    requires ViewInv(v) && v.phase.Snapped?
    ensures ViewInv(StoreDone(v, disk))
  {}

  lemma FailKeeps(v: View)
    requires ViewInv(v) && v.phase.Snapped?
    ensures ViewInv(StoreFailed(v))
  {
    var v' := StoreFailed(v);
    RearmIsConcat(v.sent, v.unsent, v.phase.delta, v.since, v.phase.snap, v.mem);
    NetDelta(v'.unsent, v'.since, v'.mem);
    forall p: nat | p !in v'.since.Pages() ensures Lookup(v'.mem, p) == Lookup(v'.base, p) {
      assert Lookup(v.phase.snap, p) == Lookup(v.base, p);
    }
  }

  lemma AdoptKeeps(v: View)
    requires ViewInv(v) && v.phase.Landed?
    ensures ViewInv(AdoptCommitted(v))
  {
    var v' := AdoptCommitted(v);
    forall p: nat | p in v.since.Pages() ensures Lookup(v'.mem, p) == Lookup(v.mem, p) {}
    forall p: nat
      ensures match LastOn(v.unsent, p)
              case None => p !in v.since.sets && p !in v.since.clears
              case Some(SetPage(_, c)) => p in v.since.sets && p !in v.since.clears && Lookup(v'.mem, p) == Some(c)
              case Some(ClearPage(_)) => p !in v.since.sets && p in v.since.clears && p !in v'.mem
    {}
    NetDelta(v'.unsent, v'.since, v'.mem);
  }

  /** What the invariant means: memory is the image last adopted (or, once a merge has
      landed, the snapshot it was taken from) with exactly this handle's own
      transitions replayed on it. */
  lemma MemoryIsOverlay(v: View)
    requires ViewInv(v)
    ensures v.mem == Replay(Ground(v), v.unsent)
    ensures v.phase.Snapped? ==> v.phase.snap == Replay(v.base, v.sent) && v.mem == Replay(v.base, v.sent + v.unsent)
  {
    OverlayIsReplay(v.mem, Ground(v), v.since, v.unsent);
    if v.phase.Snapped? {
      OverlayIsReplay(v.phase.snap, v.base, v.phase.delta, v.sent);
      ReplayConcat(v.base, v.sent, v.unsent);
    }
  }

  lemma OverlayIsReplay(mem: Image, ground: Image, d: Delta, ts: seq<Transition>)
    requires NetOf(ts, d, mem) && AgreeOff(mem, ground, d.Pages())
    ensures mem == Replay(ground, ts)
  {
    forall p: nat ensures Lookup(mem, p) == Lookup(Replay(ground, ts), p) {
      ReplayIsLast(ground, ts, p);
      assert LastOn(ts, p) == LastOn(ts, p);
    }
    SameImage(mem, Replay(ground, ts));
  }
}
