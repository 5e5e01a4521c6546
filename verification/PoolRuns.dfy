/** Runs of one process's entries over the shared byte pools. Every change to a stage
    happens under its entry's lock; the process totals are adjusted later, when the
    thread that made the change gets to it, in any order. */
module PoolRuns {
  import opened Pages
  import opened Stages

  /** An adjustment some thread has yet to make to one of the process totals; the two totals
      are adjusted one after the other. */
  datatype Due = Due(buf: int, spec: int)

  /** An entry with the adjustments outstanding on its behalf and the history that
      matters: the pages an accounted read or a demand fill has asked for since they were
      last staged speculatively. */
  datatype Entry = Entry(g: Geometry, stage: Stage, due: seq<Due>, demanded: set<nat>)

  datatype Process = Process(entries: map<nat, Entry>, bufTotal: int, specTotal: int)

  datatype Step =
    | Open(id: nat, g: Geometry)
    | Fill(id: nat, p: nat, page: Staged, present: bool)
    | Speculate(id: nat, p: nat, page: Staged, present: bool)
    | Serve(id: nat, p: nat)
    | Drop(id: nat, p: nat)
    | Touch(id: nat, p: nat)
    | Release(id: nat, p: nat)
    | Begin(id: nat)
    | End(id: nat, written: set<nat>)
    | Pay(id: nat, k: nat)
    | Close(id: nat)

  predicate HasPage(s: Process, id: nat, p: nat) {
    id in s.entries && s.entries[id].g.Valid() && p < s.entries[id].g.Npages()
  }

  predicate Enabled(s: Process, step: Step) {
    match step
    case Open(id, g) => id !in s.entries && g.Valid()
    case Fill(id, p, _, _) => HasPage(s, id, p)
    case Speculate(id, p, _, _) => HasPage(s, id, p)
    case Serve(id, p) => HasPage(s, id, p)
    case Drop(id, p) => HasPage(s, id, p)
    case Touch(id, p) => HasPage(s, id, p)
    case Release(id, p) => HasPage(s, id, p)
    case Begin(id) => id in s.entries && s.entries[id].stage.flushing == map[]
    case End(id, written) => id in s.entries && written <= s.entries[id].stage.flushing.Keys
    case Pay(id, k) => id in s.entries && k < |s.entries[id].due|
    case Close(id) =>
      // nobody else holds the entry: its threads have made their adjustments, its flush
      // is over, and the destructor has dropped what was still marked
      && id in s.entries
      && s.entries[id].due == []
      && s.entries[id].stage.flushing == map[] && Marked(s.entries[id].stage.buf) == {}
  }

  function Dues(buf: int, spec: int): seq<Due> { [Due(buf, 0), Due(0, spec)] }

  /** The stage after an operation, and the adjustments its thread now has to make. */
  function Restaged(e: Entry, st: Stage): Entry {
    e.(stage := st, due := e.due + Dues(st.owedBuf - e.stage.owedBuf, st.owedSpec - e.stage.owedSpec))
  }

  function WithStage(s: Process, id: nat, st: Stage): Process
    requires id in s.entries
  {
    s.(entries := s.entries[id := Restaged(s.entries[id], st)])
  }

  function Paid(e: Entry, k: nat): Entry
    requires k < |e.due|
  {
    e.(stage := e.stage.(owedBuf := e.stage.owedBuf - e.due[k].buf, owedSpec := e.stage.owedSpec - e.due[k].spec),
       due := e.due[..k] + e.due[k + 1..])
  }

  function Demanding(s: Process, id: nat, p: nat): Process
    requires id in s.entries
  {
    s.(entries := s.entries[id := s.entries[id].(demanded := s.entries[id].demanded + {p})])
  }

  /** Read-ahead that does stage the page starts its history afresh. */
  function Predicting(s: Process, id: nat, p: nat, present: bool): Process
    requires id in s.entries
  {
    if present || s.entries[id].stage.Holds(p) then s
    else s.(entries := s.entries[id := s.entries[id].(demanded := s.entries[id].demanded - {p})])
  }

  function Apply(s: Process, step: Step): Process
    requires Enabled(s, step)
  {
    match step
    case Open(id, g) => s.(entries := s.entries[id := Entry(g, EmptyStage(), [], {})])
    case Fill(id, p, page, present) =>
      var e := s.entries[id];
      WithStage(Demanding(s, id, p), id, FillPage(e.stage, p, e.g.PageBytes(p), page, present))
    case Speculate(id, p, page, present) =>
      var e := s.entries[id];
      WithStage(Predicting(s, id, p, present), id, SpeculatePage(e.stage, p, e.g.PageBytes(p), page, present))
    case Serve(id, p) =>
      var e := s.entries[id];
      WithStage(Demanding(s, id, p), id, ServePage(e.stage, p, e.g.PageBytes(p)))
    case Drop(id, p) =>
      var e := s.entries[id];
      WithStage(s, id, DropPage(e.stage, p, e.g.PageBytes(p)))
    case Touch(id, p) => WithStage(s, id, TouchPage(s.entries[id].stage, p))
    case Release(id, p) =>
      var e := s.entries[id];
      WithStage(s, id, ReleasePage(e.stage, p, e.g.PageBytes(p)))
    case Begin(id) => WithStage(s, id, BeginFlush(s.entries[id].stage))
    case End(id, written) => WithStage(s, id, EndFlush(s.entries[id].stage))
    case Pay(id, k) =>
      var e := s.entries[id];
      s.(entries := s.entries[id := Paid(e, k)],
         bufTotal := s.bufTotal + e.due[k].buf, specTotal := s.specTotal + e.due[k].spec)
    case Close(id) =>
      s.(entries := s.entries - {id}, bufTotal := s.bufTotal - s.entries[id].stage.bufBytes)
  }

  // ---- totals over entries ------------------------------------------------------------

  ghost function Sum(m: map<nat, Entry>, f: Entry -> int): int {
    if m == map[] then 0
    else
      var id :| id in m;
      f(m[id]) + Sum(m - {id}, f)
  }

  lemma {:induction false} SumOut(m: map<nat, Entry>, f: Entry -> int, id: nat)
    requires id in m
    ensures Sum(m, f) == f(m[id]) + Sum(m - {id}, f)
    decreases |m|
  {
    var k :| k in m && Sum(m, f) == f(m[k]) + Sum(m - {k}, f);
    if k != id {
      SumOut(m - {k}, f, id);
      SumOut(m - {id}, f, k);
      assert m - {k} - {id} == m - {id} - {k};
    }
  }

  lemma SumSet(m: map<nat, Entry>, f: Entry -> int, id: nat, e: Entry)
    ensures Sum(m[id := e], f) == Sum(m, f) - (if id in m then f(m[id]) else 0) + f(e)
  {
    SumOut(m[id := e], f, id);
    assert m[id := e] - {id} == m - {id};
    if id in m { SumOut(m, f, id); } else { assert m - {id} == m; }
  }

  function EntryPaidBuf(e: Entry): int { PaidBuf(e.stage) }
  function EntryPaidSpec(e: Entry): int { PaidSpec(e.stage) }
  function EntryOwedBuf(e: Entry): int { e.stage.owedBuf }
  function EntryOwedSpec(e: Entry): int { e.stage.owedSpec }
  function EntryBuf(e: Entry): int { e.stage.bufBytes + e.stage.snapBytes }
  function EntrySpec(e: Entry): int { e.stage.specBytes }

  function DueBuf(due: seq<Due>): int { if due == [] then 0 else DueBuf(due[..|due| - 1]) + due[|due| - 1].buf }
  function DueSpec(due: seq<Due>): int { if due == [] then 0 else DueSpec(due[..|due| - 1]) + due[|due| - 1].spec }

  lemma {:induction false} DueOut(due: seq<Due>, k: nat)
    requires k < |due|
    ensures DueBuf(due[..k] + due[k + 1..]) == DueBuf(due) - due[k].buf
    ensures DueSpec(due[..k] + due[k + 1..]) == DueSpec(due) - due[k].spec
    decreases |due|
  {
    var last := |due| - 1;
    if k == last {
      assert due[..k] + due[k + 1..] == due[..last];
    } else {
      DueOut(due[..last], k);
      var rest := due[..k] + due[k + 1..];
      assert rest[..|rest| - 1] == due[..last][..k] + due[..last][k + 1..];
    }
  }

  lemma DueIn(due: seq<Due>, d: Due)
    ensures DueBuf(due + [d]) == DueBuf(due) + d.buf && DueSpec(due + [d]) == DueSpec(due) + d.spec
  {
    assert (due + [d])[..|due|] == due;
  }

  lemma DuesIn(due: seq<Due>, buf: int, spec: int)
    ensures DueBuf(due + Dues(buf, spec)) == DueBuf(due) + buf && DueSpec(due + Dues(buf, spec)) == DueSpec(due) + spec
  {
    hide DueBuf, DueSpec;
    DueIn(due, Due(buf, 0));
    DueIn(due + [Due(buf, 0)], Due(0, spec));
    assert due + Dues(buf, spec) == due + [Due(buf, 0)] + [Due(0, spec)];
  }

  // ---- the invariant --------------------------------------------------------------------

  /** Only pages a reader demanded are real or being written. */
  ghost predicate OnlyDemanded(e: Entry) {
    Real(e.stage.buf) <= e.demanded && e.stage.flushing.Keys <= e.demanded
  }

  ghost predicate EntryInv(e: Entry) {
    && e.g.Valid() && StageInv(e.g, e.stage) && OnlyDemanded(e)
    && e.stage.owedBuf == DueBuf(e.due) && e.stage.owedSpec == DueSpec(e.due)
  }

  ghost predicate Inv(s: Process) {
    && (forall id <- s.entries :: EntryInv(s.entries[id]))
    && s.bufTotal == Sum(s.entries, EntryPaidBuf)
    && s.specTotal == Sum(s.entries, EntryPaidSpec)
  }

  /** A change of one entry that keeps what it has paid keeps the totals. */
  lemma EntryStep(s: Process, id: nat, e: Entry, dBuf: int, dSpec: int)
    requires Inv(s) && id in s.entries && EntryInv(e)
    requires EntryPaidBuf(e) == EntryPaidBuf(s.entries[id]) + dBuf
    requires EntryPaidSpec(e) == EntryPaidSpec(s.entries[id]) + dSpec
    ensures Inv(s.(entries := s.entries[id := e], bufTotal := s.bufTotal + dBuf, specTotal := s.specTotal + dSpec))
  {
    SumSet(s.entries, EntryPaidBuf, id, e);
    SumSet(s.entries, EntryPaidSpec, id, e);
  }

  lemma StagePageKeeps(s: Process, step: Step)
    requires Inv(s) && Enabled(s, step)
    requires step.Fill? || step.Speculate? || step.Serve? || step.Drop? || step.Touch? || step.Release?
    ensures Inv(Apply(s, step))
  {
    hide Inv, StageInv, FillPage, SpeculatePage, ServePage, DropPage, TouchPage, ReleasePage, DueBuf, DueSpec, Dues,
         Geometry.Npages, Geometry.PageBytes;
    var e := s.entries[step.id];
    assert EntryInv(e) by { EntryHasInv(s, step.id); }
    match step {
      case Fill(id, p, page, present) => FillKeeps(e.g, e.stage, p, page, present);
      case Speculate(id, p, page, present) => SpeculateKeeps(e.g, e.stage, p, page, present);
      case Serve(id, p) => ServeKeeps(e.g, e.stage, p);
      case Drop(id, p) => DropKeeps(e.g, e.stage, p);
      case Touch(id, p) => TouchKeeps(e.g, e.stage, p);
      case Release(id, p) => ReleaseKeeps(e.g, e.stage, p);
    }
    var s' := Apply(s, step);
    var e' := s'.entries[step.id];
    assert e'.stage.flushing == e.stage.flushing by { FlushingStays(s, step); }
    DuesIn(e.due, e'.stage.owedBuf - e.stage.owedBuf, e'.stage.owedSpec - e.stage.owedSpec);
    EntryStep(s, step.id, e', 0, 0);
    assert s' == s.(entries := s.entries[step.id := e']);
  }

  lemma EntryHasInv(s: Process, id: nat)
    requires Inv(s) && id in s.entries
    ensures EntryInv(s.entries[id])
  {}

  lemma FlushingStays(s: Process, step: Step)
    requires Enabled(s, step)
    requires step.Fill? || step.Speculate? || step.Serve? || step.Drop? || step.Touch? || step.Release?
    ensures Apply(s, step).entries[step.id].stage.flushing == s.entries[step.id].stage.flushing
  {}

  lemma NewEntry(s: Process, id: nat, e: Entry)
    requires Inv(s) && id !in s.entries && EntryInv(e) && EntryPaidBuf(e) == 0 && EntryPaidSpec(e) == 0
    ensures Inv(s.(entries := s.entries[id := e]))
  {
    SumSet(s.entries, EntryPaidBuf, id, e);
    SumSet(s.entries, EntryPaidSpec, id, e);
  }

  lemma FreshEntry(e: Entry)
    requires e.g.Valid() && StageInv(e.g, e.stage) && Real(e.stage.buf) == {} && e.stage.flushing == map[]
    requires PaidBuf(e.stage) == 0 && PaidSpec(e.stage) == 0 && e.stage.owedBuf == 0 && e.stage.owedSpec == 0
    requires e.due == []
    ensures EntryInv(e) && EntryPaidBuf(e) == 0 && EntryPaidSpec(e) == 0
  {
    hide StageInv;
  }

  lemma EmptyReal()
    ensures Real(EmptyStage().buf) == {} && EmptyStage().flushing == map[] && PaidBuf(EmptyStage()) == 0 && PaidSpec(EmptyStage()) == 0
    ensures EmptyStage().owedBuf == 0 && EmptyStage().owedSpec == 0
  {}

  lemma OpenKeeps(s: Process, id: nat, g: Geometry)
    requires Inv(s) && id !in s.entries && g.Valid()
    ensures Inv(Apply(s, Open(id, g)))
  {
    hide Inv, EntryInv, EntryPaidBuf, EntryPaidSpec, StageInv, EmptyStage, PaidBuf, PaidSpec, Real;
    var e := Entry(g, EmptyStage(), [], {});
    EmptyInv(g);
    EmptyReal();
    FreshEntry(e);
    NewEntry(s, id, e);
  }

  lemma FlushKeeps(s: Process, step: Step)
    requires Inv(s) && Enabled(s, step) && (step.Begin? || step.End?)
    ensures Inv(Apply(s, step))
  {
    hide Inv, StageInv, BeginFlush, DueBuf, DueSpec;
    var e, e' := s.entries[step.id], Apply(s, step).entries[step.id];
    assert EntryInv(e) by { EntryHasInv(s, step.id); }
    DuesIn(e.due, e'.stage.owedBuf - e.stage.owedBuf, e'.stage.owedSpec - e.stage.owedSpec);
    match step {
      case Begin(id) => BeginFlushKeeps(e.g, e.stage);
      case End(id, written) => EndFlushKeeps(e.g, e.stage);
    }
    EntryStep(s, step.id, e', 0, 0);
  }

  lemma PayStepKeeps(s: Process, id: nat, k: nat)
    requires Inv(s) && Enabled(s, Pay(id, k))
    ensures Inv(Apply(s, Pay(id, k)))
  {
    hide Inv, StageInv, DueBuf, DueSpec;
    var e := s.entries[id];
    assert EntryInv(e) by { EntryHasInv(s, id); }
    var e' := Paid(e, k);
    PayKeeps(e.g, e.stage, e'.stage);
    DueOut(e.due, k);
    EntryStep(s, id, e', e.due[k].buf, e.due[k].spec);
  }

  lemma PayKeeps(g: Geometry, s: Stage, s': Stage)
    requires g.Valid() && StageInv(g, s) && s' == s.(owedBuf := s'.owedBuf, owedSpec := s'.owedSpec)
    ensures StageInv(g, s')
  {}

  /** An entry nobody uses any more has nothing marked and nothing in flush. */
  lemma QuietStage(g: Geometry, s: Stage)
    requires g.Valid() && StageInv(g, s) && s.flushing == map[] && Marked(s.buf) == {}
    ensures s.specBytes == 0 && s.snapBytes == 0
  {}

  lemma CloseKeeps(s: Process, id: nat)
    requires Inv(s) && Enabled(s, Close(id))
    ensures Inv(Apply(s, Close(id)))
  {
    hide StageInv;
    assert EntryInv(s.entries[id]);
    QuietStage(s.entries[id].g, s.entries[id].stage);
    SumOut(s.entries, EntryPaidBuf, id);
    SumOut(s.entries, EntryPaidSpec, id);
  }

  lemma StepKeepsInv(s: Process, step: Step)
    requires Inv(s) && Enabled(s, step)
    ensures Inv(Apply(s, step))
  {
    hide Inv, Apply;
    match step
    case Open(id, g) => OpenKeeps(s, id, g);
    case Begin(id) => FlushKeeps(s, step);
    case End(id, written) => FlushKeeps(s, step);
    case Pay(id, k) => PayStepKeeps(s, id, k);
    case Close(id) => CloseKeeps(s, id);
    case _ => StagePageKeeps(s, step);
  }

  // ---- runs and theorems ------------------------------------------------------------------

  ghost predicate Run(states: seq<Process>, steps: seq<Step>) {
    && |states| == |steps| + 1
    && states[0] == Process(map[], 0, 0)
    && forall i {:trigger Follows(states[i], steps[i], states[i + 1])} ::
         0 <= i < |steps| ==> Follows(states[i], steps[i], states[i + 1])
  }

  ghost predicate Follows(s: Process, step: Step, s': Process) {
    Enabled(s, step) && s' == Apply(s, step)
  }

  lemma {:induction false} RunKeepsInv(states: seq<Process>, steps: seq<Step>)
    requires Run(states, steps)
    ensures forall i :: 0 <= i < |states| ==> Inv(states[i])
  {
    hide Enabled, Apply;
    var k := 0;
    while k < |steps|
      invariant 0 <= k <= |steps|
      invariant forall i :: 0 <= i <= k ==> Inv(states[i])
    {
      assert Follows(states[k], steps[k], states[k + 1]);
      StepKeepsInv(states[k], steps[k]);
      k := k + 1;
    }
  }

  lemma {:induction false} SumMinus(m: map<nat, Entry>, paid: Entry -> int, have: Entry -> int, owed: Entry -> int)
    requires forall e: Entry :: paid(e) == have(e) - owed(e)
    ensures Sum(m, paid) == Sum(m, have) - Sum(m, owed)
    decreases |m|
  {
    if m != map[] {
      var id :| id in m;
      SumOut(m, paid, id);
      SumOut(m, have, id);
      SumOut(m, owed, id);
      SumMinus(m - {id}, paid, have, owed);
    }
  }

  /** Conservation: in every state of every run each entry's counters are the byte sums
      of its staged pages, and each process total is the sum over entries (bytes being
      flushed included) less what threads have still to add. So with nothing outstanding the
      totals are exactly the bytes held, and neither counter has wrapped. */
  lemma PoolsConserved(states: seq<Process>, steps: seq<Step>, i: nat)
    requires Run(states, steps) && i < |states|
    ensures var s := states[i];
            && (forall id <- s.entries ::
                  && s.entries[id].g.Valid() && StageInv(s.entries[id].g, s.entries[id].stage)
                  && s.entries[id].stage.bufBytes >= 0 && s.entries[id].stage.specBytes >= 0)
            && s.bufTotal == Sum(s.entries, EntryBuf) - Sum(s.entries, EntryOwedBuf)
            && s.specTotal == Sum(s.entries, EntrySpec) - Sum(s.entries, EntryOwedSpec)
            && ((forall id <- s.entries :: s.entries[id].due == []) ==>
                  s.bufTotal == Sum(s.entries, EntryBuf) >= 0 && s.specTotal == Sum(s.entries, EntrySpec) >= 0)
  {
    RunKeepsInv(states, steps);
    var s := states[i];
    forall id <- s.entries ensures EntryInv(s.entries[id]) {}
    if forall id <- s.entries :: s.entries[id].due == [] { NothingOwed(s); }
    SumMinus(s.entries, EntryPaidBuf, EntryBuf, EntryOwedBuf);
    SumMinus(s.entries, EntryPaidSpec, EntrySpec, EntryOwedSpec);
  }

  lemma NothingOwed(s: Process)
    requires (forall id <- s.entries :: EntryInv(s.entries[id])) && forall id <- s.entries :: s.entries[id].due == []
    ensures Sum(s.entries, EntryOwedBuf) == 0 && Sum(s.entries, EntryOwedSpec) == 0
    ensures Sum(s.entries, EntryBuf) >= 0 && Sum(s.entries, EntrySpec) >= 0
  {
    hide StageInv;
    forall id <- s.entries ensures EntryBuf(s.entries[id]) >= 0 && EntrySpec(s.entries[id]) >= 0 {
      CountersNotNegative(s.entries[id].g, s.entries[id].stage);
    }
    SumZero(s.entries, EntryOwedBuf);
    SumZero(s.entries, EntryOwedSpec);
    SumNotNegative(s.entries, EntryBuf);
    SumNotNegative(s.entries, EntrySpec);
  }

  lemma {:induction false} SumZero(m: map<nat, Entry>, f: Entry -> int)
    requires forall id <- m :: f(m[id]) == 0
    ensures Sum(m, f) == 0
    decreases |m|
  {
    if m != map[] {
      var id :| id in m;
      SumOut(m, f, id);
      SumZero(m - {id}, f);
    }
  }

  lemma {:induction false} DebtsOnly(due: seq<Due>)
    ensures (forall k :: 0 <= k < |due| ==> due[k].buf <= 0) ==> DueBuf(due) <= 0
    ensures (forall k :: 0 <= k < |due| ==> due[k].spec <= 0) ==> DueSpec(due) <= 0
  {
    if due != [] { DebtsOnly(due[..|due| - 1]); }
  }

  lemma {:induction false} SumNotNegative(m: map<nat, Entry>, f: Entry -> int)
    requires forall id <- m :: f(m[id]) >= 0
    ensures Sum(m, f) >= 0
    decreases |m|
  {
    if m != map[] {
      var id :| id in m;
      SumOut(m, f, id);
      SumNotNegative(m - {id}, f);
    }
  }

  /** No total is ever below zero unless, at that moment, some thread has put pages into the
      pool and not yet credited them: nothing is debited that is not staged. */
  lemma DipNeedsUncredited(states: seq<Process>, steps: seq<Step>, i: nat)
    requires Run(states, steps) && i < |states|
    ensures var s := states[i];
            && (s.bufTotal < 0 ==> exists id, k :: id in s.entries && 0 <= k < |s.entries[id].due| && s.entries[id].due[k].buf > 0)
            && (s.specTotal < 0 ==> exists id, k :: id in s.entries && 0 <= k < |s.entries[id].due| && s.entries[id].due[k].spec > 0)
  {
    RunKeepsInv(states, steps);
    var s := states[i];
    hide StageInv;
    forall id <- s.entries
      ensures (forall k :: 0 <= k < |s.entries[id].due| ==> s.entries[id].due[k].buf <= 0) ==> EntryPaidBuf(s.entries[id]) >= 0
      ensures (forall k :: 0 <= k < |s.entries[id].due| ==> s.entries[id].due[k].spec <= 0) ==> EntryPaidSpec(s.entries[id]) >= 0
    {
      var e := s.entries[id];
      assert EntryInv(e);
      DebtsOnly(e.due);
      CountersNotNegative(e.g, e.stage);
    }
    if forall id, k :: id in s.entries && 0 <= k < |s.entries[id].due| ==> s.entries[id].due[k].buf <= 0 {
      SumNotNegative(s.entries, EntryPaidBuf);
    }
    if forall id, k :: id in s.entries && 0 <= k < |s.entries[id].due| ==> s.entries[id].due[k].spec <= 0 {
      SumNotNegative(s.entries, EntryPaidSpec);
    }
  }

  lemma CountersNotNegative(g: Geometry, s: Stage)
    requires g.Valid() && StageInv(g, s)
    ensures s.bufBytes >= 0 && s.specBytes >= 0 && s.snapBytes >= 0
  {}

  /** Over whole runs, a page staged speculatively is written and published only if, since
      then, an accounted read served it or a demand fill covered it, however often it was
      demanded before. */
  lemma SpeculationStaysUnwritten(states: seq<Process>, steps: seq<Step>, i: nat, id: nat)
    requires Run(states, steps) && i < |states| && id in states[i].entries
    ensures var e := states[i].entries[id];
            && e.stage.flushing.Keys <= e.demanded
            && (forall p <- e.stage.flushing :: !e.stage.flushing[p].spec)
            && (forall p <- e.stage.buf :: p !in e.demanded ==> e.stage.buf[p].spec)
            && (i < |steps| && steps[i].End? && steps[i].id == id ==> steps[i].written <= e.demanded)
  {
    if i < |steps| { assert Follows(states[i], steps[i], states[i + 1]); }
    RunKeepsInv(states, steps);
    var e := states[i].entries[id];
    assert EntryInv(e);
    forall p <- e.stage.buf | p !in e.demanded ensures e.stage.buf[p].spec {
      assert p !in Real(e.stage.buf);
    }
  }

  /** A file of one page. */
  lemma OnePage() returns (g: Geometry)
    ensures g.Valid() && g.Npages() == 1 && g.PageBytes(0) == 4096
  {
    g := Geometry(4096, 4096);
  }

  function Lone(g: Geometry, st: Stage, due: seq<Due>, demanded: set<nat>, bufTotal: int): Process {
    Process(map[0 := Entry(g, st, due, demanded)], bufTotal, 0)
  }

  lemma DipFills(g: Geometry, page: Staged, plain: Staged)
    requires g.Valid() && g.Npages() == 1 && g.PageBytes(0) == 4096 && plain == page.(spec := false)
    ensures Follows(Process(map[], 0, 0), Open(0, g), Lone(g, EmptyStage(), [], {}, 0))
    ensures Follows(Lone(g, EmptyStage(), [], {}, 0), Fill(0, 0, page, false),
                    Lone(g, Stage(map[0 := plain], map[], 4096, 0, 0, 4096, 0), Dues(4096, 0), {0}, 0))
  {
    assert EmptyStage().buf[0 := plain] == map[0 := plain] && {} + {0} == {0};
    assert [] + Dues(4096, 0) == Dues(4096, 0);
  }

  lemma DipFlushes(g: Geometry, plain: Staged, due: seq<Due>)
    requires !plain.spec
    ensures Follows(Lone(g, Stage(map[0 := plain], map[], 4096, 0, 0, 4096, 0), due, {0}, 0), Begin(0),
                    Lone(g, Stage(map[], map[0 := plain], 0, 0, 4096, 4096, 0), due + Dues(0, 0), {0}, 0))
    ensures Follows(Lone(g, Stage(map[], map[0 := plain], 0, 0, 4096, 4096, 0), due + Dues(0, 0), {0}, 0),
                    End(0, {0}),
                    Lone(g, EmptyStage(), due + Dues(0, 0) + Dues(-4096, 0), {0}, 0))
  {
    var st0 := Stage(map[0 := plain], map[], 4096, 0, 0, 4096, 0);
    var st1 := BeginFlush(st0);
    assert st1.flushing == map[0 := plain];
    assert st1.buf == map[];
    assert st1 == Stage(map[], map[0 := plain], 0, 0, 4096, 4096, 0);
    assert EndFlush(st1) == EmptyStage();
    assert {} + {0} == {0};
  }

  lemma DipPays(g: Geometry, due: seq<Due>, left: seq<Due>)
    requires |due| == 6 && due[4] == Due(-4096, 0) && left == due[..4] + due[5..]
    ensures Follows(Lone(g, EmptyStage(), due, {0}, 0), Pay(0, 4),
                    Lone(g, EmptyStage().(owedBuf := 4096), left, {0}, -4096))
  {}

  /** The totals do dip: staging is credited after the lock is released, so a flush of
      the same page by another thread can be debited first. */
  lemma TotalCanDip(page: Staged) returns (states: seq<Process>, steps: seq<Step>)
    ensures Run(states, steps) && |states| > 0 && states[|states| - 1].bufTotal < 0
  {
    var g := OnePage();
    var plain := page.(spec := false);
    var due := Dues(4096, 0) + Dues(0, 0) + Dues(-4096, 0);
    DipFills(g, page, plain);
    DipFlushes(g, plain, Dues(4096, 0));
    DipPays(g, due, due[..4] + due[5..]);
    hide Follows;
    steps := [Open(0, g), Fill(0, 0, page, false), Begin(0), End(0, {0}), Pay(0, 4)];
    states := [Process(map[], 0, 0), Lone(g, EmptyStage(), [], {}, 0),
               Lone(g, Stage(map[0 := plain], map[], 4096, 0, 0, 4096, 0), Dues(4096, 0), {0}, 0),
               Lone(g, Stage(map[], map[0 := plain], 0, 0, 4096, 4096, 0), Dues(4096, 0) + Dues(0, 0), {0}, 0),
               Lone(g, EmptyStage(), due, {0}, 0),
               Lone(g, EmptyStage().(owedBuf := 4096), due[..4] + due[5..], {0}, -4096)];
  }
}
