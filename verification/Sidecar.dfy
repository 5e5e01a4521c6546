/** What a sidecar says of the file it stands beside, who may use it, and what a commit makes of
    it. */
module Sidecars {
  import opened Bytes
  import opened Pages
  import opened Deltas
  import opened CommitOps

  /** What identifies a version of the remote file. */
  datatype Version = Version(key: seq<Byte>, fileSize: nat, mtime: nat, cksumKind: nat, cksum: nat)

  /** How much of it must match for a sidecar to be trusted. */
  datatype Validate = ByKey | BySize | ByMtime | ByCksum

  /** The sidecar's contents. */
  datatype Meta = Meta(version: Version, pageSize: nat, pinned: bool, complete: bool, atime: nat, bits: seq<bool>, crcs: seq<U32>) {
    function Shape(): Geometry { Geometry(pageSize, version.fileSize) }

    /** As any loaded sidecar is: tables as long as its pages. */
    predicate Loaded() { pageSize > 0 && |bits| == |crcs| == Shape().Npages() }

    function Image(): Image
      requires |bits| == |crcs|
    {
      ImageOf(bits, crcs)
    }

    /** The complete flag says what the bitmap says. */
    predicate Honest() { complete <==> AllHere(bits) }
  }

  predicate AllHere(bits: seq<bool>) { bits != [] && forall i :: 0 <= i < |bits| ==> bits[i] }

  /** A sidecar made for version `m` will do for one asking for `v`. Key and size always count. */
  predicate Agrees(mode: Validate, m: Version, v: Version) {
    && m.key == v.key && m.fileSize == v.fileSize
    && (mode.ByMtime? ==> m.mtime == v.mtime)
    && (mode.ByCksum? && v.cksumKind != 0 ==> m.cksumKind == v.cksumKind && m.cksum == v.cksum)
  }

  predicate Adoptable(m: Meta, mode: Validate, v: Version) {
    Agrees(mode, m.version, v) && ValidPageSize(m.pageSize) && |m.crcs| == m.Shape().Npages()
  }

  /** The sidecar one asking for version `v` would use, if the one on disk will do. */
  function Usable(disk: Option<Meta>, mode: Validate, v: Version): Option<Meta> {
    if disk.Some? && Adoptable(disk.value, mode, v) then disk else None
  }

  /** The sidecar a commit merges into: one that will do, with the same page size. */
  function Mergeable(disk: Option<Meta>, mode: Validate, v: Version, pageSize: nat): Option<Meta> {
    var found := Usable(disk, mode, v);
    if found.Some? && found.value.pageSize == pageSize then found else None
  }

  lemma FoundIs(disk: Option<Meta>, mode: Validate, v: Version, pageSize: nat)
    ensures var found := Mergeable(disk, mode, v, pageSize); found.Some? ==> found == disk && found.value.Shape() == Geometry(pageSize, v.fileSize)
  {}

  function ImageIn(m: Option<Meta>): Option<Image> {
    if m.Some? && |m.value.bits| == |m.value.crcs| then Some(m.value.Image()) else None
  }

  function Blank(v: Version, pageSize: nat, atime: nat): Meta
    requires pageSize > 0
  {
    var n := Geometry(pageSize, v.fileSize).Npages();
    Meta(v, pageSize, false, false, atime, seq(n, _ => false), seq(n, _ => 0))
  }

  /** The flags and the access time, and whether this handle set or cleared the pin since its
      last store. */
  datatype Status = Status(pinned: bool, complete: bool, touched: bool, atime: nat)

  /** What a handle has of the sidecar. */
  datatype Local = Local(view: View, dirty: bool, status: Status)

  /** The complete flag says whether every page is here; an empty file is never complete. */
  ghost predicate HonestIn(n: nat, mem: Image, st: Status) {
    st.complete <==> n > 0 && forall p: nat :: p < n ==> p in mem
  }

  lemma AllHereIs(bits: seq<bool>, crcs: seq<U32>)
    requires |bits| == |crcs|
    ensures AllHere(bits) <==> |bits| > 0 && forall p: nat :: p < |bits| ==> p in ImageOf(bits, crcs)
  {
    if forall p: nat :: p < |bits| ==> p in ImageOf(bits, crcs) {
      forall i | 0 <= i < |bits| ensures bits[i] { assert i in ImageOf(bits, crcs); }
    }
  }

  // ---- an open -----------------------------------------------------------------------------------

  /** What an opener asks for, and what it makes if it has to: the version, how strictly, the page
      size, the time. */
  datatype Request = Request(mode: Validate, version: Version, pageSize: nat, now: nat)

  /** It starts afresh, truncating `.data`, exactly when the sidecar on disk will not do. */
  predicate Truncates(q: Request, m0: Option<Meta>) { Usable(m0, q.mode, q.version).None? }

  /** That is: when there is none, or it is of another key or size, or not loadable as it stands, or
      the validators asked for differ. */
  lemma TruncatesExactly(q: Request, m0: Option<Meta>)
    ensures Truncates(q, m0) <==>
              || m0.None? || m0.value.version.key != q.version.key || m0.value.version.fileSize != q.version.fileSize
              || !ValidPageSize(m0.value.pageSize) || |m0.value.crcs| != Geometry(m0.value.pageSize, m0.value.version.fileSize).Npages()
              || (q.mode == ByMtime && m0.value.version.mtime != q.version.mtime)
              || (q.mode == ByCksum && q.version.cksumKind != 0
                  && (m0.value.version.cksumKind != q.version.cksumKind || m0.value.version.cksum != q.version.cksum))
  {}

  /** An open: a sidecar that will do is adopted with its version, page size, image and flags;
      otherwise an empty one is stored at once, or the handle stays dirty if that fails. */
  ghost predicate OpensAs(q: Request, storeOk: bool, m0: Option<Meta>, g: Geometry, version: Version, here: Local, m1: Option<Meta>)
    requires q.pageSize > 0
  {
    if Truncates(q, m0) then
      && g == Geometry(q.pageSize, q.version.fileSize) && version == q.version
      && here == Local(Opened(map[]), !storeOk, Status(false, false, false, q.now))
      && m1 == if storeOk then Some(Blank(q.version, q.pageSize, q.now)) else m0
    else
      var m := m0.value;
      && g == m.Shape() && version == m.version && m.Loaded()
      && here == Local(Opened(m.Image()), false, Status(m.pinned, m.complete, false, m.atime))
      && m1 == m0
  }

  lemma BlankIs(v: Version, pageSize: nat, atime: nat)
    requires pageSize > 0
    ensures var m := Blank(v, pageSize, atime);
            m.Loaded() && m.Image() == map[] && m.Honest() && m.Shape() == Geometry(pageSize, v.fileSize)
  {
    var m := Blank(v, pageSize, atime);
    if m.bits != [] { assert !m.bits[0]; }
  }

  // ---- a commit ----------------------------------------------------------------------------------

  lemma SnapshotSets(v: View)
    requires ViewInv(v)
    ensures v.since.sets <= v.mem.Keys && v.since.sets !! v.since.clears && v.since.clears !! v.mem.Keys
  {}

  /** What a commit makes of the view, stored or failed. */
  function Committed(v: View, disk: Option<Image>, ok: bool): View
    requires v.phase.Idle? && v.since.sets <= v.mem.Keys
  {
    var snapped := TakeSnapshot(v);
    if !ok then StoreFailed(snapped)
    else
      var done := StoreDone(snapped, disk);
      if done.phase.Landed? then AdoptCommitted(done) else done
  }

  lemma CommittedKeeps(v: View, disk: Option<Image>, ok: bool)
    requires ViewInv(v) && v.phase.Idle?
    ensures ViewInv(Committed(v, disk, ok)) && Committed(v, disk, ok).phase.Idle?
  {
    hide ViewInv;
    SnapshotKeeps(v);
    var snapped := TakeSnapshot(v);
    if !ok {
      FailKeeps(snapped);
    } else {
      SnapshotSets(v);
      StoreKeeps(snapped, disk);
      var done := StoreDone(snapped, disk);
      if done.phase.Landed? { AdoptKeeps(done); }
    }
  }

  /** The sidecar stored for a handle with `a`: merged into the one found, or its own. A pin is
      written over the one found only if this handle touched it. */
  ghost predicate StoredAs(g: Geometry, version: Version, found: Option<Meta>, a: Local, m: Meta)
    requires a.view.phase.Idle? && a.view.since.sets <= a.view.mem.Keys
  {
    && m.Loaded() && m.Shape() == g && m.Image() == Stored(TakeSnapshot(a.view), ImageIn(found))
    && m.version == (if found.Some? then found.value.version else version)
    && m.pinned == (if found.Some? && !a.status.touched then found.value.pinned else a.status.pinned)
    && m.atime == (if found.Some? then Max(found.value.atime, a.status.atime) else a.status.atime)
    && m.complete == (if found.Some? then AllHere(m.bits) else a.status.complete)
  }

  /** What is left of a view after a commit. */
  lemma CommittedIs(v: View, disk: Option<Image>, ok: bool)
    requires ViewInv(v) && v.phase.Idle? && v.since.sets <= v.mem.Keys
    ensures var c := Committed(v, disk, ok);
            && ViewInv(c) && c.phase.Idle? && c.since == (if ok then NO_DELTA else Rearm(NO_DELTA, v.since))
            && c.mem == if ok && disk.Some? then Stored(TakeSnapshot(v), disk) else v.mem
  {
    hide ViewInv, Adopt, Merge, Rearm;
    CommittedKeeps(v, disk, ok);
    if ok && disk.Some? { AdoptAll(v.mem, Stored(TakeSnapshot(v), disk)); }
  }

  lemma SameFull(bits: seq<bool>, crcs: seq<U32>, bits': seq<bool>, crcs': seq<U32>)
    requires |bits| == |crcs| == |bits'| == |crcs'| && ImageOf(bits, crcs) == ImageOf(bits', crcs')
    ensures AllHere(bits) <==> AllHere(bits')
  {
    AllHereIs(bits, crcs);
    AllHereIs(bits', crcs');
  }

  /** A commit by a handle of `version`: from `a` and the sidecar `m0` to `b` and `m1`. A clean
      handle does nothing; one whose file is unlinked never stores again; a failed store leaves
      everything pending; a successful one adopts what it stored. */
  ghost predicate CommitOf(g: Geometry, mode: Validate, version: Version, a: Local, m0: Option<Meta>,
                           storeOk: bool, unlinked: bool, b: Local, m1: Option<Meta>)
  {
    if !a.dirty then b == a && m1 == m0
    else if unlinked then m1 == m0 && b == Local(Opened(a.view.mem), false, a.status.(touched := false))
    else
      var found := Mergeable(m0, mode, version, g.pageSize);
      && a.view.phase.Idle? && a.view.since.sets <= a.view.mem.Keys
      && b.view == Committed(a.view, ImageIn(found), storeOk) && b.dirty == !storeOk
      && if !storeOk then m1 == m0 && b.status == a.status
         else
           && m1.Some? && StoredAs(g, version, found, a, m1.value)
           && b.status == Status(m1.value.pinned, m1.value.complete, false, m1.value.atime)
  }

  /** What a handle stores, one asking for the handle's version could use; and a commit never
      replaces a sidecar such a one could use by one it could not. */
  lemma StoredUsable(g: Geometry, mode: Validate, version: Version, m0: Option<Meta>, a: Local, m: Meta)
    requires a.view.phase.Idle? && a.view.since.sets <= a.view.mem.Keys && ValidPageSize(g.pageSize) && g.fileSize == version.fileSize
    requires StoredAs(g, version, Mergeable(m0, mode, version, g.pageSize), a, m)
    ensures Usable(Some(m), mode, version).Some?
  {
    hide ImageOf, Geometry.Npages, Merge;
  }

  /** Once stored, the sidecar has the handle's state of every page the handle has changed, and
      all of it if there was none to merge into. */
  lemma CommitLands(g: Geometry, mode: Validate, version: Version, a: Local, m0: Option<Meta>, b: Local, m1: Option<Meta>, p: nat)
    requires CommitOf(g, mode, version, a, m0, true, false, b, m1) && a.dirty && ViewInv(a.view)
    requires p in a.view.since.Pages() || Mergeable(m0, mode, version, g.pageSize).None?
    ensures m1.Some? && m1.value.Loaded() && Lookup(m1.value.Image(), p) == Lookup(a.view.mem, p)
  {
    hide ImageOf, Geometry.Npages, ViewInv;
    SnapshotSets(a.view);
    var found := Mergeable(m0, mode, version, g.pageSize);
    if ImageIn(found).Some? { MergeAt(ImageIn(found).value, a.view.mem, a.view.since, p); }
  }

  lemma AdoptAll(mem: Image, out: Image)
    ensures Adopt(mem, out, NO_DELTA) == out
  {
    forall p: nat ensures Lookup(Adopt(mem, out, NO_DELTA), p) == Lookup(out, p) {}
    SameImage(Adopt(mem, out, NO_DELTA), out);
  }

  /** After a store the handle has what is on disk, no more and no less. */
  lemma CommitAdopts(g: Geometry, mode: Validate, version: Version, a: Local, m0: Option<Meta>, b: Local, m1: Option<Meta>)
    requires CommitOf(g, mode, version, a, m0, true, false, b, m1) && a.dirty
    ensures m1.Some? && m1.value.Loaded() && b.view.mem == m1.value.Image() && b.view.since == NO_DELTA
  {
    hide ImageOf, Geometry.Npages;
    var found := Mergeable(m0, mode, version, g.pageSize);
    var disk := ImageIn(found);
    if disk.Some? {
      var out := Stored(TakeSnapshot(a.view), disk);
      AdoptAll(a.view.mem, out);
    }
  }

  /** A commit keeps the complete flag honest, in memory and in what it stores; a merge makes it
      so whatever it was. */
  lemma CommitHonest(g: Geometry, mode: Validate, version: Version, a: Local, m0: Option<Meta>, b: Local, m1: Option<Meta>)
    requires g.Valid() && CommitOf(g, mode, version, a, m0, true, false, b, m1) && a.dirty
    requires HonestIn(g.Npages(), a.view.mem, a.status) || Mergeable(m0, mode, version, g.pageSize).Some?
    ensures m1.Some? && m1.value.Honest() && HonestIn(g.Npages(), b.view.mem, b.status)
  {
    CommitAdopts(g, mode, version, a, m0, b, m1);
    AllHereIs(m1.value.bits, m1.value.crcs);
    hide Geometry.Npages, ImageOf, AllHere, Committed;
  }
}
