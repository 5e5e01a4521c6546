/** Truncation by an opener that finds no sidecar: when it leaves every bit covered, and when it
    puts one over a hole. */
module Truncations {
  import opened Bytes
  import opened Pages
  import opened Stages
  import opened Deltas
  import opened EntryRuns
  import opened CommitRuns

  // ---- when the first store succeeds -----------------------------------------------------------

  /** Every open that found no sidecar managed to store one. */
  ghost predicate StoresSucceed(states: seq<State>, steps: seq<Step>)
    requires |states| == |steps| + 1
  {
    forall i :: 0 <= i < |steps| && steps[i].Open? && states[i].disk.None? ==> steps[i].storeOk
  }

  /** Then nobody holds the entry while there is no sidecar. */
  lemma {:induction false} NobodyWithoutSidecar(o: Origin, states: seq<State>, steps: seq<Step>, i: nat)
    requires o.Valid() && Run(o, states, steps) && StoresSucceed(states, steps) && i < |states|
    ensures states[i].disk.None? ==> states[i].handles == map[]
  {
    if i > 0 {
      var k := i - 1;
      NobodyWithoutSidecar(o, states, steps, k);
      assert Follows(o, states[k], steps[k], states[k + 1]);
      hide Moved, Blank, Stored;
    }
  }

  /** Data before bit, by what an opener knows: if `.data` is not punched or damaged, and every
      open that found no sidecar stored one, then in every state every bit on disk covers a
      page that holds the origin's bytes. */
  lemma StoredOpensCover(o: Origin, states: seq<State>, steps: seq<Step>, i: nat, p: nat)
    requires o.Valid() && Run(o, states, steps) && StoresSucceed(states, steps) && i < |states|
    requires forall k :: 0 <= k < |steps| ==> !steps[k].Damage?
    requires states[0].disk.Some? ==> Covered(o, states[0].data, states[0].disk.value.Keys)
    requires states[i].disk.Some? && p in states[i].disk.value
    ensures p < o.g.Npages() && p in states[i].data && states[i].data[p] == o.Page(p)
  {
    assert |states| == |steps| + 1;
    hide Run, Covered, Claims;
    forall k | 0 <= k < |steps| ensures Benign(states[k], steps[k]) {
      NobodyWithoutSidecar(o, states, steps, k);
    }
    assert BenignRun(o, states, steps);
    DataBeforeBit(o, states, steps, i, p);
  }

  // ---- when it does not ------------------------------------------------------------------------

  /** A bit on disk over a page that is not the origin's. */
  ghost predicate Uncovered(o: Origin, s: State)
    requires o.Valid()
  {
    s.disk.Some? && !Covered(o, s.data, s.disk.value.Keys)
  }

  /** States that follow one another from `s` by benign steps. */
  ghost predicate GoesOn(o: Origin, s: State, states: seq<State>, steps: seq<Step>)
    requires o.Valid()
  {
    && Linked(o, states, steps) && states[0] == s
    && forall i {:trigger Benign(states[i], steps[i])} :: 0 <= i < |steps| ==> Benign(states[i], steps[i])
  }

  /** A handle that was there when `.data` was truncated, before anything more was stored. */
  ghost predicate Poised(o: Origin, s: State, id: nat)
    requires o.Valid()
  {
    && id in s.handles && ViewInv(s.handles[id].view) && s.handles[id].view.base == map[]
    && !s.handles[id].view.phase.Landed? && (s.disk.None? || s.disk == Some(map[])) && s.data == Blank(o.g)
  }

  lemma GoesNowhere(o: Origin, s: State)
    requires o.Valid()
    ensures GoesOn(o, s, [s], [])
  {}

  lemma GoesOneMore(o: Origin, s: State, states: seq<State>, steps: seq<Step>, step: Step, s': State)
    requires o.Valid() && GoesOn(o, s, states, steps) && Follows(o, states[|states| - 1], step, s') && Benign(states[|states| - 1], step)
    ensures GoesOn(o, s, states + [s'], steps + [step])
  {
    hide Follows, Benign;
    var states', steps' := states + [s'], steps + [step];
    forall i | 0 <= i < |steps'| ensures Follows(o, states'[i], steps'[i], states'[i + 1]) && Benign(states'[i], steps'[i]) {
      if i < |steps| { assert Follows(o, states[i], steps[i], states[i + 1]) && Benign(states[i], steps[i]); }
    }
  }

  /** What the snapshot holds, the store commits: there was nothing before it. */
  lemma StoreCommits(o: Origin, s: State, id: nat, p: nat)
    requires o.Valid() && Poised(o, s, id) && s.handles[id].view.phase.Snapped? && p in s.handles[id].view.phase.snap
    ensures Enabled(o, s, Store(id))
    ensures var s' := Apply(o, s, Store(id)); s'.disk.Some? && p in s'.disk.value && s'.data == Blank(o.g)
  {
    hide Blank, NetOf;
    var v := s.handles[id].view;
    assert Lookup(v.phase.snap, p) != Lookup(v.base, p);
  }

  lemma SnapshotTakes(o: Origin, s: State, id: nat, p: nat) returns (s': State)
    requires o.Valid() && Poised(o, s, id) && s.handles[id].view.phase.Idle? && p in s.handles[id].view.mem
    ensures Follows(o, s, Snapshot(id), s') && Poised(o, s', id)
    ensures s'.handles[id].view.phase.Snapped? && p in s'.handles[id].view.phase.snap
  {
    hide ViewInv, Blank;
    s' := Apply(o, s, Snapshot(id));
    SnapshotKeeps(s.handles[id].view);
  }

  lemma FailReturns(o: Origin, s: State, id: nat, p: nat) returns (s': State)
    requires o.Valid() && Poised(o, s, id) && s.handles[id].view.phase.Snapped? && p in s.handles[id].view.mem
    ensures Follows(o, s, Fail(id), s') && Poised(o, s', id)
    ensures s'.handles[id].view.phase.Idle? && p in s'.handles[id].view.mem
  {
    hide ViewInv, Blank, Rearm;
    s' := Apply(o, s, Fail(id));
    FailKeeps(s.handles[id].view);
  }

  lemma EndPublishes(o: Origin, s: State, id: nat, p: nat) returns (s': State)
    requires o.Valid() && Poised(o, s, id) && p in s.handles[id].done && p in s.handles[id].stage.flushing
    ensures Follows(o, s, End(id, [p]), s') && Poised(o, s', id) && p in s'.handles[id].view.mem
  {
    hide ViewInv, Blank;
    var h := s.handles[id];
    s' := Apply(o, s, End(id, [p]));
    var c := h.stage.flushing[p].crc;
    PublishKeeps(h.view, p, c);
    var h1 := h.(view := PublishPage(h.view, p, c), journal := h.journal + [SetPage(p, c)]);
    assert [p][1..] == [] && PublishAll(h1, []) == h1;
    assert PublishAll(h, [p]) == PublishAll(h1, [p][1..]);
  }

  /** From a page in memory: snapshot and store. */
  lemma MemoryReachesDisk(o: Origin, s: State, id: nat, p: nat) returns (states: seq<State>, steps: seq<Step>)
    requires o.Valid() && Poised(o, s, id) && p in s.handles[id].view.mem
    ensures GoesOn(o, s, states, steps)
    ensures var last := states[|states| - 1]; last.disk.Some? && p in last.disk.value && last.data == Blank(o.g)
  {
    hide Poised, GoesOn, Follows, Blank;
    states, steps := [s], [];
    GoesNowhere(o, s);
    var t := s;
    assert !t.handles[id].view.phase.Landed? by { NotLanded(o, t, id); }
    if s.handles[id].view.phase.Snapped? {
      t := FailReturns(o, s, id, p);
      GoesOneMore(o, s, states, steps, Fail(id), t);
      states, steps := states + [t], steps + [Fail(id)];
    }
    var u := SnapshotTakes(o, t, id, p);
    GoesOneMore(o, s, states, steps, Snapshot(id), u);
    states, steps := states + [u], steps + [Snapshot(id)];
    var more, did := SnapshotReachesDisk(o, u, id, p);
    GoesOneMore(o, s, states, steps, did, more);
    states, steps := states + [more], steps + [did];
  }

  lemma NotLanded(o: Origin, s: State, id: nat)
    requires o.Valid() && Poised(o, s, id)
    ensures id in s.handles && !s.handles[id].view.phase.Landed?
  {}

  lemma SnapshotReachesDisk(o: Origin, s: State, id: nat, p: nat) returns (s': State, step: Step)
    requires o.Valid() && Poised(o, s, id) && s.handles[id].view.phase.Snapped? && p in s.handles[id].view.phase.snap
    ensures step == Store(id) && Follows(o, s, step, s')
    ensures s'.disk.Some? && p in s'.disk.value && s'.data == Blank(o.g)
  {
    hide Poised, Blank;
    StoreCommits(o, s, id, p);
    step := Store(id);
    s' := Apply(o, s, step);
  }

  /** Whatever a handle claims, it can commit: in memory, in its snapshot, or just written. */
  lemma ClaimReachesDisk(o: Origin, s: State, id: nat, p: nat) returns (states: seq<State>, steps: seq<Step>)
    requires o.Valid() && Poised(o, s, id) && p in Claims(s.handles[id])
    requires s.handles[id].done <= s.handles[id].stage.flushing.Keys
    ensures GoesOn(o, s, states, steps)
    ensures var last := states[|states| - 1]; last.disk.Some? && p in last.disk.value && last.data == Blank(o.g)
  {
    hide GoesOn, Follows, Blank, ViewInv;
    var h := s.handles[id];
    if p in h.view.mem {
      states, steps := MemoryReachesDisk(o, s, id, p);
    } else if h.view.phase.Snapped? && p in h.view.phase.snap {
      var s', step := SnapshotReachesDisk(o, s, id, p);
      GoesNowhere(o, s);
      GoesOneMore(o, s, [s], [], step, s');
      states, steps := [s] + [s'], [] + [step];
    } else {
      assert p in h.done;
      var t := EndPublishes(o, s, id, p);
      var more, did := MemoryReachesDisk(o, t, id, p);
      StepBefore(o, s, End(id, [p]), t, more, did);
      states, steps := [s] + more, [End(id, [p])] + did;
    }
  }

  lemma StepBefore(o: Origin, s: State, step: Step, t: State, states: seq<State>, steps: seq<Step>)
    requires o.Valid() && Follows(o, s, step, t) && Benign(s, step) && GoesOn(o, t, states, steps)
    ensures GoesOn(o, s, [s] + states, [step] + steps)
    ensures ([s] + states)[|states|] == states[|states| - 1]
  {
    hide Follows, Benign;
    var states', steps' := [s] + states, [step] + steps;
    forall i | 0 <= i < |steps'| ensures Follows(o, states'[i], steps'[i], states'[i + 1]) && Benign(states'[i], steps'[i]) {
      if i > 0 {
        var k := i - 1;
        assert Follows(o, states[k], steps[k], states[k + 1]) && Benign(states[k], steps[k]);
      }
    }
  }

  // ---- what is being written is in the snapshot -------------------------------------------------

  ghost predicate DoneStaged(s: State) {
    forall id <- s.handles :: s.handles[id].done <= s.handles[id].stage.flushing.Keys
  }

  lemma StepDone(o: Origin, s: State, step: Step)
    requires o.Valid() && DoneStaged(s) && Enabled(o, s, step)
    ensures DoneStaged(Apply(o, s, step))
  {
    hide Blank, Moved, Stored, Overwritten;
    if !step.Open? && !step.Damage? && !step.Die? { MovedDone(o, s, step); }
  }

  lemma MovedDone(o: Origin, s: State, step: Step)
    requires o.Valid() && DoneStaged(s) && Enabled(o, s, step) && !step.Open? && !step.Damage? && !step.Die?
    ensures Moved(o, s, step).done <= Moved(o, s, step).stage.flushing.Keys
  {
    hide Blank, Adopt, Rearm, Merge, Geometry.Npages, Geometry.PageBytes, PublishAll, FillPage, SpeculatePage, ServePage,
         DropPage, ReleasePage;
    var h := s.handles[step.id];
    match step
    case Fill(_, p, _) => FlushingKept(o, h.stage, p, p in h.view.mem);
    case Serve(_, p) => FlushingKept(o, h.stage, p, false);
    case Unstage(_, p, _) => FlushingKept(o, h.stage, p, false);
    case _ =>
  }

  lemma {:induction false} RunDone(o: Origin, states: seq<State>, steps: seq<Step>, i: nat)
    requires o.Valid() && Run(o, states, steps) && i < |states|
    ensures DoneStaged(states[i])
  {
    if i > 0 {
      var k := i - 1;
      RunDone(o, states, steps, k);
      assert Follows(o, states[k], steps[k], states[k + 1]);
      hide Apply, Enabled, DoneStaged;
      StepDone(o, states[k], steps[k]);
    }
  }

  // ---- exactly when --------------------------------------------------------------------------------

  /** Some handle claims a page that is not all zeros. */
  ghost predicate HoldsData(o: Origin, s: State)
    requires o.Valid()
  {
    exists id, p: nat :: id in s.handles && p in Claims(s.handles[id]) && p < o.g.Npages() && o.Page(p) != Zeros(o.g.PageBytes(p))
  }

  ghost predicate Reaches(o: Origin, s: State, states: seq<State>, steps: seq<Step>)
    requires o.Valid()
  {
    GoesOn(o, s, states, steps) && Uncovered(o, states[|states| - 1])
  }

  /** An opener that finds no sidecar truncates `.data`. From there, whether its own store
      succeeds or not, a bit over a hole is reachable without any damage or further truncation
      under a writer, if and only if some handle held a page that is not zeros. */
  lemma TruncationExposesExactly(o: Origin, states: seq<State>, steps: seq<Step>, storeOk: bool)
    requires o.Valid() && Run(o, states, steps) && states[|states| - 1].disk.None?
    ensures var s := states[|states| - 1];
            (exists more, did :: Reaches(o, Apply(o, s, Open(storeOk)), more, did)) <==> HoldsData(o, s)
  {
    var s := states[|states| - 1];
    RunLedger(o, states, steps);
    RunTrue(o, states, steps);
    RunDone(o, states, steps, |states| - 1);
    hide Run, Reaches;
    var s1 := Apply(o, s, Open(storeOk));
    assert Follows(o, s, Open(storeOk), s1);
    if HoldsData(o, s) {
      var id, p: nat :| id in s.handles && p in Claims(s.handles[id]) && p < o.g.Npages() && o.Page(p) != Zeros(o.g.PageBytes(p));
      OpenPoises(o, Origin0(states[0]), s, storeOk, id);
      var more, did := ClaimReachesDisk(o, s1, id, p);
      assert Reaches(o, s1, more, did) by { HoleAt(o, s1, more, did, p); }
    } else {
      forall more, did ensures !Reaches(o, s1, more, did) {
        ZeroClaimsHarmless(o, s, storeOk, more, did);
      }
    }
  }

  lemma OpenPoises(o: Origin, first: Image, s: State, storeOk: bool, id: nat)
    requires o.Valid() && Ledger(first, s) && s.disk.None? && id in s.handles
    ensures var s1 := Apply(o, s, Open(storeOk)); Poised(o, s1, id) && s1.handles[id] == s.handles[id]
  {
    hide ViewInv, Blank, Own;
    assert HandleLedger(s.handles[id], s.history, id);
  }

  lemma HoleAt(o: Origin, s: State, states: seq<State>, steps: seq<Step>, p: nat)
    requires o.Valid() && GoesOn(o, s, states, steps) && p < o.g.Npages() && o.Page(p) != Zeros(o.g.PageBytes(p))
    requires var last := states[|states| - 1]; last.disk.Some? && p in last.disk.value && last.data == Blank(o.g)
    ensures Reaches(o, s, states, steps)
  {
    hide GoesOn, Origin.Page, Geometry.Npages, Geometry.PageBytes;
  }

  /** Claims on pages of zeros survive the truncation, and with them every bit. */
  lemma ZeroClaimsHarmless(o: Origin, s: State, storeOk: bool, states: seq<State>, steps: seq<Step>)
    requires o.Valid() && AllTrue(o, s) && DoneStaged(s) && s.disk.None? && !HoldsData(o, s)
    ensures !Reaches(o, Apply(o, s, Open(storeOk)), states, steps)
  {
    var s1 := Apply(o, s, Open(storeOk));
    ZeroClaimsCovered(o, s, storeOk);
    StepTrue(o, s, Open(storeOk));
    if GoesOn(o, s1, states, steps) { GoesOnCovered(o, s1, states, steps, |states| - 1); }
  }

  lemma ZeroClaimsCovered(o: Origin, s: State, storeOk: bool)
    requires o.Valid() && AllTrue(o, s) && DoneStaged(s) && s.disk.None? && !HoldsData(o, s)
    ensures DataThere(o, Apply(o, s, Open(storeOk)))
  {
    hide Claims, Origin.Page, Geometry.Npages, Geometry.PageBytes, HandleTrue;
    var s1 := Apply(o, s, Open(storeOk));
    assert Claims(Handle(Opened(map[]), EmptyStage(), {}, [])) <= {} by { OpenedClaims(map[]); }
    FlushingTrue(o, s);
    forall id <- s1.handles ensures Covered(o, s1.data, Claims(s1.handles[id])) {
      if id != s.nextId {
        ClaimsArePages(o, s.handles[id]);
        forall p <- Claims(s.handles[id]) ensures p < o.g.Npages() && p in s1.data && s1.data[p] == o.Page(p) {}
      }
    }
  }

  lemma ClaimsArePages(o: Origin, h: Handle)
    requires o.Valid() && HandleTrue(o, h) && h.done <= h.stage.flushing.Keys
    ensures forall p <- Claims(h) :: p < o.g.Npages()
  {
    hide Origin.PageCrc, Origin.Page, Geometry.Npages;
  }

  lemma StepCovered(o: Origin, s: State, step: Step, s': State)
    requires o.Valid() && DataThere(o, s) && AllTrue(o, s) && Follows(o, s, step, s') && Benign(s, step)
    ensures DataThere(o, s') && AllTrue(o, s')
  {
    hide Apply, Enabled, DataThere, AllTrue, Benign;
    StepKeepsData(o, s, step);
    StepTrue(o, s, step);
  }

  lemma {:induction false} GoesOnCovered(o: Origin, s: State, states: seq<State>, steps: seq<Step>, i: nat)
    requires o.Valid() && DataThere(o, s) && AllTrue(o, s) && GoesOn(o, s, states, steps) && i < |states|
    ensures DataThere(o, states[i]) && AllTrue(o, states[i])
  {
    hide Follows, DataThere, AllTrue, Benign;
    if i > 0 {
      var k := i - 1;
      GoesOnCovered(o, s, states, steps, k);
      assert Follows(o, states[k], steps[k], states[k + 1]) && Benign(states[k], steps[k]);
      StepCovered(o, states[k], steps[k], states[k + 1]);
    }
  }
}
