/** Runs of one entry across versions of the remote file: openers that ask for different versions,
    with different strictness, and handles that commit long after the file has changed. */
module Generations {
  import opened Bytes
  import opened Pages
  import opened Deltas
  import opened CommitOps
  import opened Sidecars

  datatype Handle = Handle(mode: Validate, version: Version, g: Geometry, here: Local)

  datatype State = State(meta: Option<Meta>, data: seq<Byte>, handles: map<nat, Handle>, nextId: nat)

  /** A change is whatever a handle does to what it holds; a write is whatever is done to
      `.data` other than by an open. */
  datatype Step =
    | Open(q: Request, storeOk: bool)
    | Change(id: nat, here: Local)
    | Commit(id: nat, storeOk: bool, unlinked: bool)
    | Write(bytes: seq<Byte>)
    | Die(id: nat)

  ghost predicate Follows(s: State, step: Step, s': State) {
    match step
    case Open(q, storeOk) =>
      && ValidPageSize(q.pageSize) && s.nextId in s'.handles
      && var h := s'.handles[s.nextId];
      && h.mode == q.mode && OpensAs(q, storeOk, s.meta, h.g, h.version, h.here, s'.meta)
      && s' == State(s'.meta, if Truncates(q, s.meta) then Zeros(q.version.fileSize) else s.data, s.handles[s.nextId := h], s.nextId + 1)
    case Change(id, here) =>
      && id in s.handles && ViewInv(here.view) && here.view.phase.Idle?
      && s' == s.(handles := s.handles[id := s.handles[id].(here := here)])
    case Commit(id, storeOk, unlinked) =>
      && id in s.handles && id in s'.handles
      && var h, h' := s.handles[id], s'.handles[id];
      && CommitOf(h.g, h.mode, h.version, h.here, s.meta, storeOk, unlinked, h'.here, s'.meta)
      && s' == s.(meta := s'.meta, handles := s.handles[id := h.(here := h'.here)])
    case Write(bytes) => s' == s.(data := bytes)
    case Die(id) => s' == s.(handles := s.handles - {id})
  }

  ghost predicate Init(s: State) { s.handles == map[] && (s.meta.Some? ==> s.meta.value.Loaded()) }

  ghost predicate Run(states: seq<State>, steps: seq<Step>) {
    && |states| == |steps| + 1 && Init(states[0])
    && forall i {:trigger Follows(states[i], steps[i], states[i + 1])} :: 0 <= i < |steps| ==> Follows(states[i], steps[i], states[i + 1])
  }

  // ---- what every state satisfies ---------------------------------------------------------------

  ghost predicate Shaped(s: State) {
    && (s.meta.Some? ==> s.meta.value.Loaded())
    && forall id <- s.handles :: ValidPageSize(s.handles[id].g.pageSize) && s.handles[id].g.fileSize == s.handles[id].version.fileSize
  }

  lemma StepShaped(s: State, step: Step, s': State)
    requires Shaped(s) && Follows(s, step, s')
    ensures Shaped(s')
  {
    hide Geometry.Npages, ImageOf, ViewInv, Committed, AllHere;
    if step.Open? { BlankIs(step.q.version, step.q.pageSize, step.q.now); }
  }

  lemma {:induction false} RunShaped(states: seq<State>, steps: seq<Step>, i: nat)
    requires Run(states, steps) && i < |states|
    ensures Shaped(states[i])
  {
    hide Follows, Shaped;
    if i == 0 {
      assert Shaped(states[0]) by { InitShaped(states[0]); }
    } else {
      var k := i - 1;
      RunShaped(states, steps, k);
      assert Follows(states[k], steps[k], states[k + 1]);
      StepShaped(states[k], steps[k], states[k + 1]);
    }
  }

  lemma InitShaped(s: State)
    requires Init(s)
    ensures Shaped(s)
  {}

  // ---- no later truncation ------------------------------------------------------------------------

  /** Whoever asks like `q` is content with every sidecar that one asking for `v` under `mode` is
      content with. */
  predicate NoStricter(q: Request, mode: Validate, v: Version) {
    && q.version.key == v.key && q.version.fileSize == v.fileSize
    && (q.mode.ByMtime? ==> mode.ByMtime? && q.version.mtime == v.mtime)
    && (q.mode.ByCksum? && q.version.cksumKind != 0 ==>
          mode.ByCksum? && q.version.cksumKind == v.cksumKind && q.version.cksum == v.cksum)
  }

  /** That is what it means, no more and no less. */
  lemma NoStricterExactly(q: Request, mode: Validate, v: Version)
    ensures NoStricter(q, mode, v) <==> forall m: Version :: Agrees(mode, m, v) ==> Agrees(q.mode, m, q.version)
  {
    if forall m: Version :: Agrees(mode, m, v) ==> Agrees(q.mode, m, q.version) {
      var other := if v.mtime == q.version.mtime then v.mtime + 1 else v.mtime;
      assert Agrees(mode, v, v);
      if !mode.ByMtime? { assert Agrees(mode, v.(mtime := other), v); }
      if !(mode.ByCksum? && v.cksumKind != 0) { assert Agrees(mode, v.(cksumKind := 0), v); }
    }
  }

  /** The sidecar on disk, and every handle, is of a version that will do for `v` under `mode`. */
  ghost predicate Settled(s: State, mode: Validate, v: Version) {
    Usable(s.meta, mode, v).Some? && forall id <- s.handles :: Agrees(mode, s.handles[id].version, v)
  }

  /** What a commit leaves is usable exactly if it merged into what was, or the committer's own
      version will do. */
  lemma CommitUsableExactly(s: State, step: Step, s': State, mode: Validate, v: Version)
    requires Shaped(s) && Follows(s, step, s') && step.Commit? && step.storeOk && !step.unlinked && s.handles[step.id].here.dirty
    requires Usable(s.meta, mode, v).Some?
    ensures var h := s.handles[step.id];
            Usable(s'.meta, mode, v).Some? <==> Mergeable(s.meta, h.mode, h.version, h.g.pageSize).Some? || Agrees(mode, h.version, v)
  {
    hide Geometry.Npages, ImageOf, ViewInv, Committed, AllHere, Stored;
  }

  lemma StepSettled(s: State, step: Step, s': State, mode: Validate, v: Version)
    requires Shaped(s) && Settled(s, mode, v) && Follows(s, step, s') && (step.Open? ==> NoStricter(step.q, mode, v))
    ensures Settled(s', mode, v)
    ensures step.Open? ==> s'.data == s.data && s'.meta == s.meta
  {
    hide Geometry.Npages, ImageOf, ViewInv, Committed, AllHere, Stored;
    match step
    case Commit(id, storeOk, unlinked) =>
      if s.handles[id].here.dirty && storeOk && !unlinked { CommitUsableExactly(s, step, s', mode, v); }
    case _ =>
  }

  /** Once a sidecar is on disk that will do for `v`, and every handle is of such a version, then
      whatever they do, and however many openers come who ask for no more, `.data` is not
      truncated by any of them, and the sidecar goes on being usable. */
  lemma {:induction false} NoLaterTruncation(states: seq<State>, steps: seq<Step>, i: nat, j: nat, mode: Validate, v: Version)
    requires Run(states, steps) && i <= j < |states| && Settled(states[i], mode, v)
    requires forall k :: i <= k < |steps| && steps[k].Open? ==> NoStricter(steps[k].q, mode, v)
    ensures Settled(states[j], mode, v)
    ensures j < |steps| && steps[j].Open? ==> states[j + 1].data == states[j].data
    decreases j - i
  {
    hide Follows, Settled, Shaped, NoStricter;
    if i < j {
      var k := j - 1;
      NoLaterTruncation(states, steps, i, k, mode, v);
      RunShaped(states, steps, k);
      assert Follows(states[k], steps[k], states[k + 1]);
      StepSettled(states[k], steps[k], states[k + 1], mode, v);
    }
    if j < |steps| && steps[j].Open? {
      RunShaped(states, steps, j);
      assert Follows(states[j], steps[j], states[j + 1]);
      StepSettled(states[j], steps[j], states[j + 1], mode, v);
    }
  }

  // ---- and when a handle is of another version ------------------------------------------------------

  /** A handle on an empty entry of version `v`. */
  function Fresh(v: Version, pageSize: nat, dirty: bool, now: nat): Handle {
    Handle(ByMtime, v, Geometry(pageSize, v.fileSize), Local(Opened(map[]), dirty, Status(false, false, false, now)))
  }

  lemma FirstOpen(s: State, q: Request, s': State)
    requires ValidPageSize(q.pageSize) && q.mode == ByMtime && Truncates(q, s.meta)
    requires s' == State(Some(Blank(q.version, q.pageSize, q.now)), Zeros(q.version.fileSize),
                         s.handles[s.nextId := Fresh(q.version, q.pageSize, false, q.now)], s.nextId + 1)
    ensures Follows(s, Open(q, true), s')
  {}

  lemma EmptyCommit(s: State, id: nat, q: Request, s': State)
    requires ValidPageSize(q.pageSize) && id in s.handles && s.handles[id] == Fresh(q.version, q.pageSize, true, q.now)
    requires q.mode == ByMtime && Truncates(q, s.meta)
    requires s' == s.(meta := Some(Blank(q.version, q.pageSize, q.now)), handles := s.handles[id := Fresh(q.version, q.pageSize, false, q.now)])
    ensures Follows(s, Commit(id, true, false), s')
  {
    hide Geometry.Npages, ImageOf, AllHere;
    BlankIs(q.version, q.pageSize, q.now);
    var v := Opened(map[]);
    assert Committed(v, None, true) == v;
  }

  /** The file changes; an opener of the new version starts afresh and stores its sidecar; a handle
      of the old version, which had anything at all to commit, commits; and the next opener of the new
      version truncates `.data` under the first, whatever was written there. */
  lemma StaleCommitTruncates(old1: Request, new1: Request, bytes: seq<Byte>) returns (states: seq<State>, steps: seq<Step>)
    requires old1.mode == new1.mode == ByMtime && ValidPageSize(old1.pageSize) && ValidPageSize(new1.pageSize)
    requires old1.version.mtime != new1.version.mtime
    ensures Run(states, steps) && |steps| == 6
    ensures steps[1] == steps[5] == Open(new1, true) && !Truncates(new1, states[2].meta) && steps[4].Commit?
    ensures 1 in states[5].handles && states[5].handles[1].version == new1.version
    ensures states[5].data == bytes && states[6].data == Zeros(new1.version.fileSize)
  {
    hide Follows, Truncates, Init;
    var m1, m2 := Blank(old1.version, old1.pageSize, old1.now), Blank(new1.version, new1.pageSize, new1.now);
    var a, b := Fresh(old1.version, old1.pageSize, false, old1.now), Fresh(new1.version, new1.pageSize, false, new1.now);
    var d := a.here.(dirty := true);
    var s0, s1 := State(None, [], map[], 0), State(Some(m1), Zeros(old1.version.fileSize), map[0 := a], 1);
    var s2 := State(Some(m2), Zeros(new1.version.fileSize), map[0 := a, 1 := b], 2);
    var s3 := s2.(data := bytes);
    var s4 := s3.(handles := map[0 := a.(here := d), 1 := b]);
    var s5 := s3.(meta := Some(m1));
    var s6 := State(Some(m2), Zeros(new1.version.fileSize), map[0 := a, 1 := b, 2 := b], 3);
    BlankVersion(old1);
    BlankVersion(new1);
    NobodyYet(s0);
    FirstOpen(s0, old1, s1);
    OtherVersion(new1, m1);
    OtherVersion(old1, m2);
    FirstOpen(s1, new1, s2);
    DirtyAgain(s2, s3, s4, bytes, d);
    EmptyCommit(s4, 0, old1, s5);
    FirstOpen(s5, new1, s6);
    states := [s0, s1, s2, s3, s4, s5, s6];
    steps := [Open(old1, true), Open(new1, true), Write(bytes), Change(0, d), Commit(0, true, false), Open(new1, true)];
  }

  lemma NobodyYet(s: State)
    requires s == State(None, [], map[], 0)
    ensures Init(s) && forall q: Request :: Truncates(q, s.meta)
  {}

  lemma OtherVersion(q: Request, m: Meta)
    requires q.mode == ByMtime && m.version.mtime != q.version.mtime
    ensures Truncates(q, Some(m))
  {}

  lemma DirtyAgain(s: State, s1: State, s2: State, bytes: seq<Byte>, here: Local)
    requires 0 in s.handles && here == s.handles[0].here.(dirty := true) && here.view == Opened(map[])
    requires s1 == s.(data := bytes) && s2 == s1.(handles := s1.handles[0 := s1.handles[0].(here := here)])
    ensures Follows(s, Write(bytes), s1) && Follows(s1, Change(0, here), s2)
  {
    hide ViewInv;
    OpenedInv(map[]);
  }

  lemma BlankVersion(q: Request)
    requires ValidPageSize(q.pageSize)
    ensures Blank(q.version, q.pageSize, q.now).version == q.version && Blank(q.version, q.pageSize, q.now).pageSize == q.pageSize
    ensures !Truncates(q, Some(Blank(q.version, q.pageSize, q.now)))
  {
    hide ValidPageSize;
  }
}
