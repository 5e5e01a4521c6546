/** What the runs of an entry guarantee of its sidecar: no committed transition is ever
    lost, and a bit is on disk only over data that is there. */
module CommitRuns {
  import opened Bytes
  import opened Pages
  import opened Stages
  import opened Deltas
  import opened Reads
  import opened EntryRuns

  // ---- no lost update ---------------------------------------------------------------------

  function Strip(history: seq<Logged>): (ts: seq<Transition>)
    ensures |ts| == |history|
  {
    seq(|history|, i requires 0 <= i < |history| => history[i].t)
  }

  /** The transitions handle `id` has committed, in order. */
  function Own(history: seq<Logged>, id: nat): seq<Transition> {
    if history == [] then []
    else
      var last := history[|history| - 1];
      Own(history[..|history| - 1], id) + if last.id == id then [last.t] else []
  }

  lemma OwnOneMore(history: seq<Logged>, l: Logged, k: nat)
    ensures Own(history + [l], k) == Own(history, k) + if l.id == k then [l.t] else []
  {
    assert (history + [l])[..|history|] == history;
  }

  lemma TagOneMore(history: seq<Logged>, id: nat, ts: seq<Transition>)
    requires ts != []
    ensures history + Tagged(id, ts) == (history + Tagged(id, ts[..|ts| - 1])) + [Logged(id, ts[|ts| - 1])]
  {}

  lemma {:induction false} OwnAppend(history: seq<Logged>, id: nat, ts: seq<Transition>, k: nat)
    ensures Own(history + Tagged(id, ts), k) == Own(history, k) + if k == id then ts else []
    decreases |ts|
  {
    if ts == [] {
      assert history + Tagged(id, ts) == history;
    } else {
      var front, last := ts[..|ts| - 1], ts[|ts| - 1];
      OwnAppend(history, id, front, k);
      hide Own, Tagged;
      TagOneMore(history, id, ts);
      OwnOneMore(history + Tagged(id, front), Logged(id, last), k);
      if k == id {
        assert (Own(history, k) + front) + [last] == Own(history, k) + ts;
      } else {
        assert (Own(history, k) + []) + [] == Own(history, k) + [];
      }
    }
  }

  lemma {:induction false} OwnNone(history: seq<Logged>, id: nat)
    requires forall i :: 0 <= i < |history| ==> history[i].id != id
    ensures Own(history, id) == []
    decreases |history|
  {
    if history != [] { OwnNone(history[..|history| - 1], id); }
  }

  lemma StripAppend(history: seq<Logged>, id: nat, ts: seq<Transition>)
    ensures Strip(history + Tagged(id, ts)) == Strip(history) + ts
  {}

  /** The image the history starts from. */
  function Origin0(s: State): Image { if s.disk.Some? then s.disk.value else map[] }

  ghost predicate HandleLedger(h: Handle, history: seq<Logged>, id: nat) {
    && ViewInv(h.view)
    && h.journal == Own(history, id) + h.view.sent + h.view.unsent
  }

  ghost predicate Ledger(first: Image, s: State) {
    && (s.disk.Some? ==> s.disk.value == Replay(first, Strip(s.history)))
    && (s.disk.None? ==>
          && s.history == [] && first == map[]
          && forall id <- s.handles :: s.handles[id].view.base == map[] && !s.handles[id].view.phase.Landed?)
    && (forall i :: 0 <= i < |s.history| ==> s.history[i].id < s.nextId)
    && (forall id <- s.handles :: id < s.nextId && HandleLedger(s.handles[id], s.history, id))
  }

  lemma {:induction false} PublishAllLedger(h: Handle, history: seq<Logged>, id: nat, pages: seq<nat>)
    requires HandleLedger(h, history, id) && forall p <- pages :: p in h.stage.flushing
    ensures HandleLedger(PublishAll(h, pages), history, id)
    ensures PublishAll(h, pages).view.base == h.view.base && PublishAll(h, pages).view.phase == h.view.phase
    decreases |pages|
  {
    if pages != [] {
      hide ViewInv;
      var p := pages[0];
      assert p in pages;
      var c := h.stage.flushing[p].crc;
      PublishKeeps(h.view, p, c);
      var h' := h.(view := PublishPage(h.view, p, c), journal := h.journal + [SetPage(p, c)]);
      assert h'.journal == Own(history, id) + h'.view.sent + h'.view.unsent;
      assert forall q <- pages[1..] :: q in pages;
      PublishAllLedger(h', history, id, pages[1..]);
    }
  }

  /** Steps that move one handle and commit nothing. */
  lemma MoveLedger(o: Origin, s: State, step: Step)
    requires o.Valid() && Enabled(o, s, step)
    requires !step.Open? && !step.Damage? && !step.Die? && !step.Store?
    requires HandleLedger(s.handles[step.id], s.history, step.id)
    ensures HandleLedger(Moved(o, s, step), s.history, step.id)
    ensures Moved(o, s, step).view.base == s.handles[step.id].view.base || s.handles[step.id].view.phase.Landed?
    ensures Moved(o, s, step).view.phase.Landed? ==> s.handles[step.id].view.phase.Landed?
  {
    hide ViewInv, PublishAll, Adopt, Rearm, FillPage, SpeculatePage, ServePage, DropPage, ReleasePage, BeginFlush,
         Geometry.PageBytes, Geometry.Npages, Own;
    var h := s.handles[step.id];
    match step
    case End(_, pages) => PublishAllLedger(h, s.history, step.id, pages);
    case Retract(_, p) =>
      RetractKeeps(h.view, p);
      var h' := Moved(o, s, step);
      assert h'.journal == Own(s.history, step.id) + h'.view.sent + h'.view.unsent;
    case Snapshot(_) =>
      SnapshotKeeps(h.view);
      assert h.view.sent == [] by { IdleSentNothing(h.view); }
      var own := Own(s.history, step.id);
      assert own + [] + h.view.unsent == own + h.view.unsent + [];
    case Fail(_) =>
      FailKeeps(h.view);
      var own := Own(s.history, step.id);
      assert own + h.view.sent + h.view.unsent == own + [] + (h.view.sent + h.view.unsent);
    case Adopted(_) => AdoptKeeps(h.view);
    case _ =>
  }

  lemma IdleSentNothing(v: View)
    requires ViewInv(v) && !v.phase.Snapped?
    ensures v.sent == []
  {}

  lemma StoreLedger(o: Origin, first: Image, s: State, id: nat)
    requires o.Valid() && Ledger(first, s) && Enabled(o, s, Store(id))
    ensures Ledger(first, Apply(o, s, Store(id)))
  {
    hide ViewInv, Merge, Own, Replay, NetOf;
    var v := s.handles[id].view;
    var s' := Apply(o, s, Store(id));
    assert HandleLedger(s.handles[id], s.history, id);
    assert s'.disk.value == Replay(Origin0(s), v.sent) by { StoreIsReplay(v, s.disk); }
    StripAppend(s.history, id, v.sent);
    ReplayConcat(first, Strip(s.history), v.sent);
    assert Origin0(s) == Replay(first, Strip(s.history)) by { NothingReplayed(first); }
    forall k <- s'.handles
      ensures k < s'.nextId && HandleLedger(s'.handles[k], s'.history, k)
    {
      OwnAppend(s.history, id, v.sent, k);
      assert HandleLedger(s.handles[k], s.history, k);
      if k == id {
        StoreKeeps(v, s.disk);
        var own := Own(s.history, id);
        assert own + v.sent + v.unsent == own + v.sent + [] + v.unsent;
      } else {
        assert Own(s.history, k) + [] == Own(s.history, k);
      }
    }
  }

  lemma NothingReplayed(img: Image)
    ensures Replay(img, []) == img && Strip([]) == []
  {}

  /** What a commit puts on disk is the image there with this handle's transitions
      since its last store replayed on it. */
  lemma StoreIsReplay(v: View, disk: Option<Image>)
    requires ViewInv(v) && v.phase.Snapped? && (disk.None? ==> v.base == map[])
    ensures v.phase.delta.sets <= v.phase.snap.Keys
    ensures Stored(v, disk) == Replay(if disk.Some? then disk.value else map[], v.sent)
  {
    if disk.Some? {
      MergeIsReplay(disk.value, v.phase.snap, v.phase.delta, v.sent);
    } else {
      MemoryIsOverlay(v);
    }
  }

  lemma OpenLedger(o: Origin, first: Image, s: State, storeOk: bool)
    requires o.Valid() && Ledger(first, s)
    ensures Ledger(first, Apply(o, s, Open(storeOk)))
  {
    hide ViewInv, Own, Blank;
    var s' := Apply(o, s, Open(storeOk));
    NothingReplayed(first);
    OpenedInv(Origin0(s));
    OwnNone(s.history, s.nextId);
    forall k <- s'.handles
      ensures k < s'.nextId && HandleLedger(s'.handles[k], s'.history, k)
    {
      if k != s.nextId { assert HandleLedger(s.handles[k], s.history, k); }
    }
  }

  lemma StepLedger(o: Origin, first: Image, s: State, step: Step)
    requires o.Valid() && Ledger(first, s) && Enabled(o, s, step)
    ensures Ledger(first, Apply(o, s, step))
  {
    hide Moved, HandleLedger, Replay, Strip, Blank;
    if step.Open? {
      OpenLedger(o, first, s, step.storeOk);
    } else if step.Store? {
      StoreLedger(o, first, s, step.id);
    } else if !step.Damage? && !step.Die? {
      assert HandleLedger(s.handles[step.id], s.history, step.id);
      MoveLedger(o, s, step);
    }
  }

  lemma {:induction false} RunLedger(o: Origin, states: seq<State>, steps: seq<Step>)
    requires o.Valid() && Run(o, states, steps)
    ensures forall i :: 0 <= i < |states| ==> Ledger(Origin0(states[0]), states[i])
  {
    var first := Origin0(states[0]);
    NothingReplayed(first);
    assert Ledger(first, states[0]);
    hide Apply, Enabled, Ledger, Init;
    var k := 0;
    while k < |steps|
      invariant 0 <= k <= |steps|
      invariant forall i :: 0 <= i <= k ==> Ledger(first, states[i])
    {
      assert Follows(o, states[k], steps[k], states[k + 1]);
      StepLedger(o, first, states[k], steps[k]);
      k := k + 1;
    }
  }

  /** No lost update. In every state of every run the sidecar on disk gives each page
      the bit and CRC of the last committed transition on it; the committed transitions
      of each handle, then those in its snapshot, then those since, are all it ever
      made, in order; and its in-memory deltas are what those pending ones add up to. */
  lemma NoLostUpdate(o: Origin, states: seq<State>, steps: seq<Step>, i: nat)
    requires o.Valid() && Run(o, states, steps) && i < |states|
    ensures var s := states[i];
            && (s.disk.Some? ==> forall p: nat ::
                  Lookup(s.disk.value, p) == Outcome(Origin0(states[0]), LastOn(Strip(s.history), p), p))
            && (forall id <- s.handles ::
                  var h := s.handles[id];
                  && h.journal == Own(s.history, id) + h.view.sent + h.view.unsent
                  && ViewInv(h.view) && h.view.mem == Replay(Ground(h.view), h.view.unsent))
  {
    RunLedger(o, states, steps);
    var s := states[i];
    var first := Origin0(states[0]);
    hide Replay, ViewInv, Own, LastOn;
    if s.disk.Some? {
      forall p: nat
        ensures Lookup(s.disk.value, p) == Outcome(first, LastOn(Strip(s.history), p), p)
      {
        ReplayIsLast(first, Strip(s.history), p);
      }
    }
    forall id <- s.handles
      ensures s.handles[id].view.mem == Replay(Ground(s.handles[id].view), s.handles[id].view.unsent)
    {
      assert HandleLedger(s.handles[id], s.history, id);
      MemoryIsOverlay(s.handles[id].view);
    }
  }

  /** A commit leaves every page alone that its handle has neither set nor cleared since
      its last store. */
  lemma CommitTouchesOwnPages(o: Origin, states: seq<State>, steps: seq<Step>, i: nat, p: nat)
    requires o.Valid() && Run(o, states, steps) && i < |steps| && steps[i].Store? && states[i].disk.Some?
    requires Follows(o, states[i], steps[i], states[i + 1])
    requires LastOn(states[i].handles[steps[i].id].view.sent, p).None?
    ensures states[i + 1].disk.Some? && Lookup(states[i + 1].disk.value, p) == Lookup(states[i].disk.value, p)
  {
    RunLedger(o, states, steps);
    var s := states[i];
    var v := s.handles[steps[i].id].view;
    assert HandleLedger(s.handles[steps[i].id], s.history, steps[i].id);
    hide Replay, Merge, LastOn;
    StoreIsReplay(v, s.disk);
    ReplayIsLast(s.disk.value, v.sent, p);
  }

  // ---- data before bit -----------------------------------------------------------------------

  /** Every page of the image is in `.data` with the origin's bytes. */
  ghost predicate Covered(o: Origin, data: map<nat, seq<Byte>>, pages: set<nat>)
    requires o.Valid()
  {
    forall p <- pages :: p < o.g.Npages() && p in data && data[p] == o.Page(p)
  }

  /** Pages a view vouches for in any of its images. */
  function Vouched(v: View): set<nat> {
    v.mem.Keys + v.base.Keys
    + match v.phase
      case Idle => {}
      case Snapped(snap, _) => snap.Keys
      case Landed(snap, out) => snap.Keys + out.Keys
  }

  function Claims(h: Handle): set<nat> { Vouched(h.view) + h.done }

  ghost predicate DataThere(o: Origin, s: State)
    requires o.Valid()
  {
    && (s.disk.Some? ==> Covered(o, s.data, s.disk.value.Keys))
    && (forall id <- s.handles :: Covered(o, s.data, Claims(s.handles[id])))
    && (forall id <- s.handles :: StagedTrue(o, s.handles[id].stage.flushing))
  }

  /** Steps of a run in which nobody punches or damages `.data`, and nobody truncates it
      under a handle that has written to it. */
  ghost predicate Benign(s: State, step: Step) {
    && !step.Damage?
    && (step.Open? && s.disk.None? ==> forall id <- s.handles :: Claims(s.handles[id]) == {})
  }

  lemma WriteKeepsCovered(o: Origin, data: map<nat, seq<Byte>>, pages: set<nat>, p: nat, landed: nat)
    requires o.Valid() && Covered(o, data, pages) && p < o.g.Npages()
    ensures var was := if p in data then data[p] else [];
            var data' := data[p := Overwritten(was, o.Page(p), landed)];
            && Covered(o, data', pages)
            && (landed >= |o.Page(p)| ==> Covered(o, data', pages + {p}))
  {
    hide Origin.Page, Geometry.Npages;
    if p in pages && landed < |o.Page(p)| {
      assert o.Page(p)[..landed] + o.Page(p)[landed..] == o.Page(p);
    }
  }

  lemma CoveredLess(o: Origin, data: map<nat, seq<Byte>>, a: set<nat>, b: set<nat>)
    requires o.Valid() && Covered(o, data, a) && b <= a
    ensures Covered(o, data, b)
  {}

  lemma {:induction false} PublishAllClaims(h: Handle, pages: seq<nat>)
    requires forall p <- pages :: p in h.stage.flushing && p in h.done
    ensures Claims(PublishAll(h, pages)) <= Claims(h)
    ensures PublishAll(h, pages).stage == h.stage && PublishAll(h, pages).done == h.done
    decreases |pages|
  {
    if pages != [] {
      var p := pages[0];
      assert p in pages;
      var c := h.stage.flushing[p].crc;
      assert forall q <- pages[1..] :: q in pages;
      PublishAllClaims(h.(view := PublishPage(h.view, p, c), journal := h.journal + [SetPage(p, c)]), pages[1..]);
    }
  }

  /** Only writing a page and committing add to what a handle claims. */
  lemma MoveClaims(o: Origin, s: State, step: Step)
    requires o.Valid() && Enabled(o, s, step)
    requires !step.Open? && !step.Damage? && !step.Die? && !step.Write? && !step.Store?
    ensures Claims(Moved(o, s, step)) <= Claims(s.handles[step.id])
  {
    hide PublishAll, Rearm, FillPage, SpeculatePage, ServePage, DropPage, ReleasePage, BeginFlush,
         Geometry.PageBytes, Geometry.Npages;
    var h := s.handles[step.id];
    match step
    case End(_, pages) => PublishAllClaims(h, pages);
    case _ =>
  }

  lemma StoreClaims(v: View, disk: Option<Image>)
    requires v.phase.Snapped? && v.phase.delta.sets <= v.phase.snap.Keys
    ensures var more := if disk.Some? then disk.value.Keys else {};
            && Stored(v, disk).Keys <= Vouched(v) + more
            && Vouched(StoreDone(v, disk)) <= Vouched(v) + more
  {}

  lemma StoreKeepsData(o: Origin, s: State, id: nat)
    requires o.Valid() && DataThere(o, s) && Enabled(o, s, Store(id))
    ensures DataThere(o, Apply(o, s, Store(id)))
  {
    hide Stored, StoreDone, Vouched;
    var h := s.handles[id];
    var s' := Apply(o, s, Store(id));
    StoreClaims(h.view, s.disk);
    var more := if s.disk.Some? then s.disk.value.Keys else {};
    assert Covered(o, s.data, Claims(h) + more);
    CoveredLess(o, s.data, Claims(h) + more, s'.disk.value.Keys);
    CoveredLess(o, s.data, Claims(h) + more, Claims(s'.handles[id]));
  }

  lemma WriteKeepsData(o: Origin, s: State, id: nat, p: nat, landed: nat)
    requires o.Valid() && DataThere(o, s) && Enabled(o, s, Write(id, p, landed))
    ensures DataThere(o, Apply(o, s, Write(id, p, landed)))
  {
    hide Vouched, Overwritten, Covered;
    var s' := Apply(o, s, Write(id, p, landed));
    var h := s.handles[id];
    assert h.stage.flushing[p].data == o.Page(p) && p < o.g.Npages();
    if s.disk.Some? { WriteKeepsCovered(o, s.data, s.disk.value.Keys, p, landed); }
    forall k <- s'.handles ensures Covered(o, s'.data, Claims(s'.handles[k])) {
      WriteKeepsCovered(o, s.data, Claims(s.handles[k]), p, landed);
      if k == id { assert Claims(h.(done := h.done + {p})) == Claims(h) + {p}; }
    }
  }

  lemma OpenKeepsData(o: Origin, s: State, storeOk: bool)
    requires o.Valid() && DataThere(o, s) && Benign(s, Open(storeOk))
    ensures DataThere(o, Apply(o, s, Open(storeOk)))
  {
    hide Vouched, Blank, Origin.Page, Geometry.Npages;
    var img := Origin0(s);
    assert Claims(Handle(Opened(img), EmptyStage(), {}, [])) <= img.Keys by { OpenedClaims(img); }
  }

  lemma OpenedClaims(img: Image)
    ensures Claims(Handle(Opened(img), EmptyStage(), {}, [])) <= img.Keys
  {}

  lemma FlushingTrue(o: Origin, s: State)
    requires o.Valid() && AllTrue(o, s)
    ensures forall id <- s.handles :: StagedTrue(o, s.handles[id].stage.flushing)
  {
    forall id <- s.handles ensures StagedTrue(o, s.handles[id].stage.flushing) {
      assert HandleTrue(o, s.handles[id]);
    }
  }

  lemma StepKeepsData(o: Origin, s: State, step: Step)
    requires o.Valid() && DataThere(o, s) && AllTrue(o, s) && Enabled(o, s, step) && Benign(s, step)
    ensures DataThere(o, Apply(o, s, step))
  {
    hide Covered, Moved, Claims, AllTrue, StagedTrue;
    var s' := Apply(o, s, step);
    StepTrue(o, s, step);
    FlushingTrue(o, s');
    if step.Write? {
      WriteKeepsData(o, s, step.id, step.p, step.landed);
    } else if step.Store? {
      StoreKeepsData(o, s, step.id);
    } else if step.Open? {
      OpenKeepsData(o, s, step.storeOk);
    } else if !step.Die? {
      MoveClaims(o, s, step);
      CoveredLess(o, s.data, Claims(s.handles[step.id]), Claims(s'.handles[step.id]));
    }
  }

  ghost predicate BenignRun(o: Origin, states: seq<State>, steps: seq<Step>)
    requires o.Valid()
  {
    && Run(o, states, steps)
    && (states[0].disk.Some? ==> Covered(o, states[0].data, states[0].disk.value.Keys))
    && forall i {:trigger Benign(states[i], steps[i])} :: 0 <= i < |steps| ==> Benign(states[i], steps[i])
  }

  lemma InitData(o: Origin, s: State)
    requires o.Valid() && Init(o, s) && (s.disk.Some? ==> Covered(o, s.data, s.disk.value.Keys))
    ensures DataThere(o, s)
  {}

  lemma {:induction false} RunKeepsData(o: Origin, states: seq<State>, steps: seq<Step>)
    requires o.Valid() && BenignRun(o, states, steps)
    ensures forall i :: 0 <= i < |states| ==> DataThere(o, states[i])
  {
    hide Apply, Enabled, DataThere, AllTrue, Init, Benign;
    RunTrue(o, states, steps);
    assert DataThere(o, states[0]) by { InitData(o, states[0]); }
    var k := 0;
    while k < |steps|
      invariant 0 <= k <= |steps|
      invariant forall i :: 0 <= i <= k ==> DataThere(o, states[i])
    {
      assert Follows(o, states[k], steps[k], states[k + 1]);
      assert Benign(states[k], steps[k]);
      StepKeepsData(o, states[k], steps[k]);
      k := k + 1;
    }
  }

  /** Data before bit: at every point of a run, so wherever a process may die, each bit
      of the sidecar on disk covers a data page that holds the origin's bytes. */
  lemma DataBeforeBit(o: Origin, states: seq<State>, steps: seq<Step>, i: nat, p: nat)
    requires o.Valid() && BenignRun(o, states, steps) && i < |states|
    requires states[i].disk.Some? && p in states[i].disk.value
    ensures p < o.g.Npages() && p in states[i].data && states[i].data[p] == o.Page(p)
  {
    RunKeepsData(o, states, steps);
    assert DataThere(o, states[i]);
  }

  // ---- and where it does not ------------------------------------------------------------------

  /** Handle 0 opens, its sidecar store fails, and it stages page 0 and begins to flush. */
  lemma LoneStage(o: Origin, s0: State) returns (s1: State, s2: State, s3: State)
    requires o.Valid() && o.g.Npages() == 1 && s0 == State(None, map[], map[], [], 0)
    ensures Follows(o, s0, Open(false), s1) && Follows(o, s1, Fill(0, 0, false), s2) && Follows(o, s2, Begin(0), s3)
    ensures s3.disk.None? && s3.nextId == 1 && s3.handles.Keys == {0} && s3.handles[0].view == Opened(map[])
    ensures s3.handles[0].stage.flushing == map[0 := OriginStaged(o, 0, false)] && s3.handles[0].done == {}
  {
    var page := OriginStaged(o, 0, false);
    hide Blank, Origin.Page, Geometry.Npages;
    s1 := Apply(o, s0, Open(false));
    assert s1.handles[0] == Handle(Opened(map[]), EmptyStage(), {}, []);
    s2 := Apply(o, s1, Fill(0, 0, false));
    assert s2.handles[0].stage.buf == map[0 := page];
    s3 := Apply(o, s2, Begin(0));
    assert s3.handles[0].stage.flushing == map[0 := page];
  }

  /** One fill of page 0 by handle 0, from an open whose sidecar store failed. */
  lemma LoneFill(o: Origin, s0: State) returns (s: State, states: seq<State>, steps: seq<Step>)
    requires o.Valid() && o.g.Npages() == 1 && s0 == State(None, map[], map[], [], 0)
    ensures Linked(o, states, steps) && states[0] == s0 && states[|states| - 1] == s
    ensures forall i :: 0 <= i < |steps| ==> !steps[i].Damage?
    ensures s.disk.None? && s.nextId == 1 && s.handles.Keys == {0} && s.handles[0].view.phase.Idle?
    ensures s.handles[0].view.since.sets <= s.handles[0].view.mem.Keys && 0 in s.handles[0].view.mem
  {
    var s1, s2, s3 := LoneStage(o, s0);
    hide Blank, Origin.Page, Geometry.Npages;
    var h3 := s3.handles[0];
    var s4 := Apply(o, s3, Write(0, 0, |o.Page(0)|));
    assert s4.handles[0].done == {0} && s4.handles[0].stage == h3.stage && s4.handles[0].view == h3.view;
    s := Apply(o, s4, End(0, [0]));
    assert PublishAll(s4.handles[0], [0]).view == PublishPage(h3.view, 0, h3.stage.flushing[0].crc);
    steps := [Open(false), Fill(0, 0, false), Begin(0), Write(0, 0, |o.Page(0)|), End(0, [0])];
    states := [s0, s1, s2, s3, s4, s];
  }

  /** States that follow one another by the steps given. */
  ghost predicate Linked(o: Origin, states: seq<State>, steps: seq<Step>)
    requires o.Valid()
  {
    && |states| == |steps| + 1
    && forall i {:trigger Follows(o, states[i], steps[i], states[i + 1])} ::
         0 <= i < |steps| ==> Follows(o, states[i], steps[i], states[i + 1])
  }

  /** The bit can end up over a hole, with nobody punching: when the store at a fresh
      open fails, the next opener truncates `.data` under the pages the first has
      written, and the first then commits their bits. */
  lemma BitOverHole(o: Origin) returns (states: seq<State>, steps: seq<Step>)
    requires o.Valid() && o.g.Npages() == 1 && o.Page(0) != Zeros(o.g.PageBytes(0))
    ensures Run(o, states, steps) && forall i :: 0 <= i < |steps| ==> !steps[i].Damage?
    ensures var s := states[|states| - 1];
            s.disk.Some? && 0 in s.disk.value && 0 in s.data && s.data[0] != o.Page(0)
  {
    var s0 := State(None, map[], map[], [], 0);
    var s, before, did := LoneFill(o, s0);
    hide Origin.Page, Geometry.Npages, PublishAll;
    var s1 := Apply(o, s, Open(false));
    var s2 := Apply(o, s1, Snapshot(0));
    var s3 := Apply(o, s2, Store(0));
    steps := did + [Open(false), Snapshot(0), Store(0)];
    states := before + [s1, s2, s3];
    assert Follows(o, s, Open(false), s1) && Follows(o, s1, Snapshot(0), s2) && Follows(o, s2, Store(0), s3);
    forall i | 0 <= i < |steps|
      ensures Follows(o, states[i], steps[i], states[i + 1])
    {
      if i < |did| { assert Follows(o, before[i], did[i], before[i + 1]); }
    }
  }
}
