/** Runs of one cached object of one generation: any number of handles in any number of
    processes that stage, flush, commit, adopt, demote, die, over a `.data` file that
    may be damaged or punched at any moment. */
module EntryRuns {
  import opened Bytes
  import opened Pages
  import opened Stages
  import opened Deltas
  import opened Reads

  /** `done`: pages the flush in progress has written whole. `journal`: every presence
      transition this handle ever made. */
  datatype Handle = Handle(view: View, stage: Stage, done: set<nat>, journal: seq<Transition>)

  datatype Logged = Logged(id: nat, t: Transition)

  /** The sidecar and data pages on disk, the open handles, and every transition ever
      committed, in commit order. */
  datatype State = State(disk: Option<Image>, data: map<nat, seq<Byte>>, handles: map<nat, Handle>,
                         history: seq<Logged>, nextId: nat)

  datatype Step =
    | Open(storeOk: bool)
    | Die(id: nat)
    | Fill(id: nat, p: nat, spec: bool)
    | Serve(id: nat, p: nat)
    | Unstage(id: nat, p: nat, all: bool)
    | Begin(id: nat)
    | Write(id: nat, p: nat, landed: nat)
    | End(id: nat, pages: seq<nat>)
    | Retract(id: nat, p: nat)
    | Snapshot(id: nat)
    | Store(id: nat)
    | Fail(id: nat)
    | Adopted(id: nat)
    | Damage(p: nat, bytes: seq<Byte>)

  // ---- steps ------------------------------------------------------------------------------

  /** `.data` truncated and grown back: every page reads as zeros. */
  function Blank(g: Geometry): map<nat, seq<Byte>>
    requires g.Valid()
  {
    map p: nat | 0 <= p < g.Npages() :: Zeros(g.PageBytes(p))
  }

  /** Page contents after the first `landed` bytes of `page` were written over `old`. */
  function Overwritten(was: seq<Byte>, page: seq<Byte>, landed: nat): seq<Byte> {
    if landed >= |page| then page
    else if landed <= |was| then page[..landed] + was[landed..]
    else page[..landed]
  }

  function DataPage(s: State, p: nat): seq<Byte> { if p in s.data then s.data[p] else [] }

  function OriginStaged(o: Origin, p: nat, spec: bool): Staged
    requires o.Valid() && p < o.g.Npages()
  {
    Staged(o.Page(p), o.PageCrc(p), spec, false)
  }

  function PublishAll(h: Handle, pages: seq<nat>): Handle
    requires forall p <- pages :: p in h.stage.flushing
    decreases |pages|
  {
    if pages == [] then h
    else
      var c := h.stage.flushing[pages[0]].crc;
      PublishAll(h.(view := PublishPage(h.view, pages[0], c), journal := h.journal + [SetPage(pages[0], c)]), pages[1..])
  }

  function Tagged(id: nat, ts: seq<Transition>): seq<Logged> {
    seq(|ts|, i requires 0 <= i < |ts| => Logged(id, ts[i]))
  }

  ghost predicate Enabled(o: Origin, s: State, step: Step)
    requires o.Valid()
  {
    match step
    case Open(_) => true
    case Damage(p, _) => true
    case Fill(id, p, _) => id in s.handles && p < o.g.Npages()
    case Serve(id, p) => id in s.handles && p < o.g.Npages()
    case Unstage(id, p, _) => id in s.handles && p < o.g.Npages()
    case Begin(id) => id in s.handles && s.handles[id].stage.flushing == map[]
    case Write(id, p, _) => id in s.handles && p in s.handles[id].stage.flushing
    case End(id, pages) => id in s.handles && forall p <- pages :: p in s.handles[id].done && p in s.handles[id].stage.flushing
    case Snapshot(id) => id in s.handles && s.handles[id].view.phase.Idle?
    case Store(id) => id in s.handles && s.handles[id].view.phase.Snapped?
                      && s.handles[id].view.phase.delta.sets <= s.handles[id].view.phase.snap.Keys
    case Fail(id) => id in s.handles && s.handles[id].view.phase.Snapped?
    case Adopted(id) => id in s.handles && s.handles[id].view.phase.Landed?
    case _ => step.id in s.handles
  }

  /** What a step does to the handle that takes it. */
  ghost function Moved(o: Origin, s: State, step: Step): Handle
    requires o.Valid() && Enabled(o, s, step) && !step.Open? && !step.Damage? && !step.Die?
  {
    var h := s.handles[step.id];
    match step
    case Fill(_, p, spec) =>
      h.(stage := if spec then SpeculatePage(h.stage, p, o.g.PageBytes(p), OriginStaged(o, p, true), p in h.view.mem)
                  else FillPage(h.stage, p, o.g.PageBytes(p), OriginStaged(o, p, false), p in h.view.mem))
    case Serve(_, p) => h.(stage := ServePage(h.stage, p, o.g.PageBytes(p)))
    case Unstage(_, p, all) =>
      h.(stage := if all then ReleasePage(h.stage, p, o.g.PageBytes(p)) else DropPage(h.stage, p, o.g.PageBytes(p)))
    case Begin(_) => h.(stage := BeginFlush(h.stage), done := {})
    case Write(_, p, landed) => if landed >= |h.stage.flushing[p].data| then h.(done := h.done + {p}) else h
    case End(_, pages) =>
      var h' := PublishAll(h, pages);
      h'.(stage := EndFlush(h'.stage), done := {})
    case Retract(_, p) => h.(view := RetractPage(h.view, p), journal := h.journal + [ClearPage(p)])
    case Snapshot(_) => h.(view := TakeSnapshot(h.view))
    case Store(_) => h.(view := StoreDone(h.view, s.disk))
    case Fail(_) => h.(view := StoreFailed(h.view))
    case Adopted(_) => h.(view := AdoptCommitted(h.view))
  }

  ghost function Apply(o: Origin, s: State, step: Step): State
    requires o.Valid() && Enabled(o, s, step)
  {
    match step
    case Open(storeOk) =>
      if s.disk.Some? then
        s.(handles := s.handles[s.nextId := Handle(Opened(s.disk.value), EmptyStage(), {}, [])], nextId := s.nextId + 1)
      else
        s.(data := Blank(o.g), disk := if storeOk then Some(map[]) else None,
           handles := s.handles[s.nextId := Handle(Opened(map[]), EmptyStage(), {}, [])], nextId := s.nextId + 1)
    case Die(id) => s.(handles := s.handles - {id})
    case Damage(p, bytes) => s.(data := s.data[p := bytes])
    case Write(id, p, landed) =>
      s.(data := s.data[p := Overwritten(DataPage(s, p), s.handles[id].stage.flushing[p].data, landed)],
         handles := s.handles[id := Moved(o, s, step)])
    case Store(id) =>
      s.(disk := Some(Stored(s.handles[id].view, s.disk)),
         history := s.history + Tagged(id, s.handles[id].view.sent),
         handles := s.handles[id := Moved(o, s, step)])
    case _ => s.(handles := s.handles[step.id := Moved(o, s, step)])
  }

  ghost predicate Follows(o: Origin, s: State, step: Step, s': State)
    requires o.Valid()
  {
    Enabled(o, s, step) && s' == Apply(o, s, step)
  }

  /** A run from a sidecar already there (or none), true to this generation's origin. */
  ghost predicate Run(o: Origin, states: seq<State>, steps: seq<Step>)
    requires o.Valid()
  {
    && |states| == |steps| + 1
    && Init(o, states[0])
    && forall i {:trigger Follows(o, states[i], steps[i], states[i + 1])} ::
         0 <= i < |steps| ==> Follows(o, states[i], steps[i], states[i + 1])
  }

  ghost predicate Init(o: Origin, s: State)
    requires o.Valid()
  {
    && s.handles == map[] && s.history == []
    && (s.disk.Some? ==> ImageTrue(o, s.disk.value))
  }

  // ---- truth of everything recorded --------------------------------------------------------

  ghost predicate ViewTrue(o: Origin, v: View)
    requires o.Valid()
  {
    && ImageTrue(o, v.mem) && ImageTrue(o, v.base)
    && (v.phase.Snapped? ==> ImageTrue(o, v.phase.snap))
    && (v.phase.Landed? ==> ImageTrue(o, v.phase.snap) && ImageTrue(o, v.phase.out))
  }

  ghost predicate HandleTrue(o: Origin, h: Handle)
    requires o.Valid()
  {
    ViewTrue(o, h.view) && StagedTrue(o, h.stage.buf) && StagedTrue(o, h.stage.flushing)
  }

  /** Every CRC recorded anywhere, on disk or in any handle, is that of the origin's
      page, and every staged page holds the origin's bytes. */
  ghost predicate AllTrue(o: Origin, s: State)
    requires o.Valid()
  {
    && (s.disk.Some? ==> ImageTrue(o, s.disk.value))
    && (forall id <- s.handles :: HandleTrue(o, s.handles[id]))
  }

  lemma StageOpsTrue(o: Origin, s: Stage, p: nat, nb: nat, present: bool)
    requires o.Valid() && p < o.g.Npages() && StagedTrue(o, s.buf) && StagedTrue(o, s.flushing)
    ensures StagedTrue(o, FillPage(s, p, nb, OriginStaged(o, p, false), present).buf)
    ensures StagedTrue(o, SpeculatePage(s, p, nb, OriginStaged(o, p, true), present).buf)
    ensures StagedTrue(o, ServePage(s, p, nb).buf)
    ensures StagedTrue(o, DropPage(s, p, nb).buf)
    ensures StagedTrue(o, ReleasePage(s, p, nb).buf)
  {
    hide Origin.Page, Geometry.Npages;
  }

  lemma BeginTrue(o: Origin, s: Stage)
    requires o.Valid() && StagedTrue(o, s.buf) && s.flushing == map[]
    ensures StagedTrue(o, BeginFlush(s).buf) && StagedTrue(o, BeginFlush(s).flushing)
  {}

  lemma PublishTrue(o: Origin, v: View, p: nat, c: U32)
    requires o.Valid() && ViewTrue(o, v) && p < o.g.Npages() && c == o.PageCrc(p)
    ensures ViewTrue(o, PublishPage(v, p, c))
  {}

  lemma {:induction false} PublishAllTrue(o: Origin, h: Handle, pages: seq<nat>)
    requires o.Valid() && HandleTrue(o, h) && forall p <- pages :: p in h.stage.flushing
    ensures HandleTrue(o, PublishAll(h, pages)) && PublishAll(h, pages).stage == h.stage
    decreases |pages|
  {
    if pages != [] {
      var p := pages[0];
      assert p in pages;
      var c := h.stage.flushing[p].crc;
      PublishTrue(o, h.view, p, c);
      assert forall q <- pages[1..] :: q in pages;
      PublishAllTrue(o, h.(view := PublishPage(h.view, p, c), journal := h.journal + [SetPage(p, c)]), pages[1..]);
    }
  }

  lemma CommitTrue(o: Origin, v: View, disk: Option<Image>)
    requires o.Valid() && ViewTrue(o, v) && v.phase.Snapped? && v.phase.delta.sets <= v.phase.snap.Keys
    requires disk.Some? ==> ImageTrue(o, disk.value)
    ensures ImageTrue(o, Stored(v, disk)) && ViewTrue(o, StoreDone(v, disk))
  {
    hide Origin.PageCrc, Geometry.Npages;
  }

  lemma AdoptTrue(o: Origin, v: View)
    requires o.Valid() && ViewTrue(o, v) && v.phase.Landed?
    ensures ViewTrue(o, AdoptCommitted(v))
  {
    hide Origin.PageCrc, Geometry.Npages;
  }

  lemma MoveTrue(o: Origin, s: State, step: Step)
    requires o.Valid() && AllTrue(o, s) && Enabled(o, s, step) && !step.Open? && !step.Damage? && !step.Die?
    ensures HandleTrue(o, Moved(o, s, step))
  {
    hide FillPage, SpeculatePage, ServePage, DropPage, ReleasePage, BeginFlush, PublishAll, Merge, Adopt, Rearm,
         ImageTrue, StagedTrue, Geometry.PageBytes, Geometry.Npages;
    var h := s.handles[step.id];
    assert HandleTrue(o, h);
    match step
    case Fill(_, p, _) =>
      StageOpsTrue(o, h.stage, p, o.g.PageBytes(p), p in h.view.mem);
      FlushingKept(o, h.stage, p, p in h.view.mem);
    case Serve(_, p) =>
      StageOpsTrue(o, h.stage, p, o.g.PageBytes(p), false);
      FlushingKept(o, h.stage, p, false);
    case Unstage(_, p, _) =>
      StageOpsTrue(o, h.stage, p, o.g.PageBytes(p), false);
      FlushingKept(o, h.stage, p, false);
    case Begin(_) => BeginTrue(o, h.stage);
    case Write(_, _, _) =>
    case End(_, pages) =>
      PublishAllTrue(o, h, pages);
      EmptyTrue(o);
    case Retract(_, p) => ImageLess(o, h.view.mem, p);
    case Snapshot(_) =>
    case Store(_) => CommitTrue(o, h.view, s.disk);
    case Fail(_) =>
    case Adopted(_) => AdoptTrue(o, h.view);
  }

  lemma EmptyTrue(o: Origin)
    requires o.Valid()
    ensures StagedTrue(o, map[]) && ImageTrue(o, map[])
  {}

  lemma ImageLess(o: Origin, img: Image, p: nat)
    requires o.Valid() && ImageTrue(o, img)
    ensures ImageTrue(o, img - {p})
  {}

  lemma FlushingKept(o: Origin, s: Stage, p: nat, present: bool)
    requires o.Valid() && p < o.g.Npages()
    ensures var nb := o.g.PageBytes(p);
            && FillPage(s, p, nb, OriginStaged(o, p, false), present).flushing == s.flushing
            && SpeculatePage(s, p, nb, OriginStaged(o, p, true), present).flushing == s.flushing
            && ServePage(s, p, nb).flushing == s.flushing
            && DropPage(s, p, nb).flushing == s.flushing
            && ReleasePage(s, p, nb).flushing == s.flushing
  {}

  lemma StepTrue(o: Origin, s: State, step: Step)
    requires o.Valid() && AllTrue(o, s) && Enabled(o, s, step)
    ensures AllTrue(o, Apply(o, s, step))
  {
    EmptyTrue(o);
    if !step.Open? && !step.Damage? && !step.Die? {
      MoveTrue(o, s, step);
    }
    if step.Store? { CommitTrue(o, s.handles[step.id].view, s.disk); }
    hide Moved, ImageTrue, StagedTrue, Merge, Blank;
  }

  lemma {:induction false} RunTrue(o: Origin, states: seq<State>, steps: seq<Step>)
    requires o.Valid() && Run(o, states, steps)
    ensures forall i :: 0 <= i < |states| ==> AllTrue(o, states[i])
  {
    assert AllTrue(o, states[0]);
    hide Apply, Enabled, AllTrue, Init;
    var k := 0;
    while k < |steps|
      invariant 0 <= k <= |steps|
      invariant forall i :: 0 <= i <= k ==> AllTrue(o, states[i])
    {
      assert Follows(o, states[k], steps[k], states[k + 1]);
      StepTrue(o, states[k], steps[k]);
      k := k + 1;
    }
  }

  /** Under every interleaving, with `.data` damaged at will and the disk's answers to
      the individual reads chosen by an adversary: a cached read that succeeds has
      returned exactly the origin's bytes. */
  lemma ReadsAreTheOrigins(o: Origin, states: seq<State>, steps: seq<Step>, i: nat, id: nat, seen: Seen, off: nat, len: nat)
    requires o.Valid() && SeenTells(o, seen) && Run(o, states, steps)
    requires i < |states| && id in states[i].handles
    ensures var h := states[i].handles[id];
            var got := ReadSpec(Reader(o.g, o.crc, h.view.mem, h.stage, seen), off, len);
            got.Some? ==> (len > 0 ==> off + len <= |o.bytes|) && got.value == (if len == 0 then [] else o.bytes[off..off + len])
  {
    RunTrue(o, states, steps);
    var h := states[i].handles[id];
    assert HandleTrue(o, h);
    var r := Reader(o.g, o.crc, h.view.mem, h.stage, seen);
    hide ReadSpec, SeenTells, ImageTrue, StagedTrue;
    if ReadSpec(r, off, len).Some? { ReadIsOrigin(o, r, off, len); }
  }
}
