/**
 The workspace lifecycle as a whole: user requests, the workflows they launch, the tasks of these
 workflows in any interleaving and with any outcome, and the callbacks they send.

 A callback is sent by curl, which tries again until a reply tells it that the call was accepted, or
 until its attempts are used up. An attempt that was sent is handled at most once, at any later time,
 in any order, or never; the reply to it may get lost.
 */
module WorkspaceProtocol {
  import opened Wrappers
  import opened WorkspaceTypes
  import opened Parameters
  import opened WorkspaceStore
  import opened WorkspaceTable
  import opened WorkspaceDag

  // one attempt of a workflow to call back, on its way to the service
  datatype Message = Message(flight: nat, phase: Phase)

  // a curl command: what it has sent so far, and whether it heard that the call was accepted
  datatype Call = Call(attempts: nat, acked: bool)

  // the exit handler, which reports the status of the workflow
  datatype Exit = NotYet | Reporting(phase: Phase, call: Call)

  // A workflow in progress: its compiled DAG, how far it is, and the call of its set-phase task.
  datatype Run = Run(flow: Flow, state: State, report: Call, exit: Exit)

  // runs[f] belongs to flight f of the table
  datatype World = World(table: Table, runs: seq<Run>, sent: multiset<Message>)

  // the workspace template of a request, as far as the compiled DAG depends on it
  datatype Template = Template(postExecution: bool, claims: nat)

  datatype Step =
    | CreateStep(ns: string, uid: string, parameters: seq<Parameter>, now: nat, fault: Fault, template: Template)
    | ActStep(ns: string, uid: string, op: Operation, parameters: seq<Parameter>, now: nat, fault: Fault,
        template: Template)
    | RetryStep(ns: string, uid: string, now: nat, fault: Fault, template: Template)
    // an event of one workflow
    | RunStep(flight: nat, event: Event)
    // task i of the workflow, a set-phase task that has begun, sends its callback
    | PostStep(flight: nat, i: nat)
    // the workflow is over and its exit handler begins; and then sends its callback
    | ExitStep(flight: nat, phase: Phase)
    | ReportStep(flight: nat)
    // a callback is handled, and its sender may hear of it
    | DeliverStep(message: Message, now: nat, heard: bool)

  // curl --retry 10
  const ATTEMPTS: nat := 11

  const INITIAL: World := World(Table([], 1, []), [], multiset{})

  predicate IsStatus(p: Phase) { p in {WorkflowSucceeded, WorkflowFailed, WorkflowError} }

  predicate CanSend(c: Call) { !c.acked && c.attempts < ATTEMPTS }

  // A set-phase task succeeds only when its curl has heard an acceptance.
  predicate NeedsAck(f: Flow, ev: Event) {
    ev.Finish? && ev.ok && ev.i < |f.dag| && Posts(f.dag[ev.i].name).Some?
  }

  ghost predicate Possible(w: World, st: Step) {
    match st
    case RunStep(f, ev) =>
      && f < |w.runs| && Fits(w.runs[f].flow, w.runs[f].state) && Enabled(w.runs[f].flow, w.runs[f].state, ev)
      && (NeedsAck(w.runs[f].flow, ev) ==> w.runs[f].report.acked)
    case PostStep(f, i) =>
      && f < |w.runs| && i < |w.runs[f].flow.dag| && i < |w.runs[f].state.status|
      && Posts(w.runs[f].flow.dag[i].name).Some? && w.runs[f].state.status[i] == Started
      && CanSend(w.runs[f].report)
    // Succeeded only if no task failed; Argo may also fail a workflow for reasons of its own
    case ExitStep(f, p) =>
      && f < |w.runs| && w.runs[f].exit.NotYet? && Complete(w.runs[f].state)
      && IsStatus(p) && (p == WorkflowSucceeded ==> Clean(w.runs[f].state))
    case ReportStep(f) => f < |w.runs| && w.runs[f].exit.Reporting? && CanSend(w.runs[f].exit.call)
    case DeliverStep(m, now, heard) => m in w.sent && m.flight < |w.table.flights|
    case _ => true
  }

  // A request that launched a workflow adds its run.
  function WithLaunched(runs: seq<Run>, flights: seq<Flight>, template: Template): seq<Run> {
    if |flights| <= |runs| then runs
    else
      var f := Compiled(template.postExecution, template.claims, flights[|runs|].action);
      runs + [Run(f, Initial(f), Call(0, false), NotYet)]
  }

  function Acknowledged(r: Run, phase: Phase): Run {
    if !IsStatus(phase) then r.(report := r.report.(acked := true))
    else if r.exit.Reporting? then r.(exit := r.exit.(call := r.exit.call.(acked := true)))
    else r
  }

  function Handled(w: World, m: Message, now: nat): Reply
    requires m.flight < |w.table.flights|
  {
    var f := w.table.flights[m.flight];
    Callback(w.table, f.namespace, f.uid, m.phase, now)
  }

  ghost function Next(w: World, st: Step): World
    requires Possible(w, st)
  {
    match st
    case CreateStep(ns, uid, parameters, now, fault, template) =>
      var t := New(w.table, ns, uid, parameters, now, fault).table;
      World(t, WithLaunched(w.runs, t.flights, template), w.sent)
    case ActStep(ns, uid, op, parameters, now, fault, template) =>
      var t := Act(w.table, ns, uid, op, parameters, now, fault).table;
      World(t, WithLaunched(w.runs, t.flights, template), w.sent)
    case RetryStep(ns, uid, now, fault, template) =>
      var t := Retry(w.table, ns, uid, now, fault).table;
      World(t, WithLaunched(w.runs, t.flights, template), w.sent)
    case RunStep(f, ev) =>
      var r := w.runs[f];
      w.(runs := w.runs[f := r.(state := Apply(r.flow, r.state, ev))])
    case PostStep(f, i) =>
      var r := w.runs[f];
      w.(runs := w.runs[f := r.(report := r.report.(attempts := r.report.attempts + 1))],
         sent := w.sent + multiset{Message(f, Posts(r.flow.dag[i].name).value)})
    case ExitStep(f, p) =>
      w.(runs := w.runs[f := w.runs[f].(exit := Reporting(p, Call(0, false)))])
    case ReportStep(f) =>
      var r := w.runs[f];
      w.(runs := w.runs[f := r.(exit := r.exit.(call := r.exit.call.(attempts := r.exit.call.attempts + 1)))],
         sent := w.sent + multiset{Message(f, r.exit.phase)})
    case DeliverStep(m, now, heard) =>
      var reply := Handled(w, m, now);
      var runs := if heard && reply.result.Ok? && m.flight < |w.runs|
        then w.runs[m.flight := Acknowledged(w.runs[m.flight], m.phase)] else w.runs;
      World(reply.table, runs, w.sent - multiset{m})
  }

  // v is reached from w by these steps
  ghost predicate RunsFrom(w: World, steps: seq<Step>, v: World)
    decreases |steps|
  {
    if steps == [] then v == w
    else
      var n := |steps| - 1;
      exists u :: RunsFrom(w, steps[..n], u) && Possible(u, steps[n]) && v == Next(u, steps[n])
  }

  ghost predicate Reached(w: World) {
    exists steps :: RunsFrom(INITIAL, steps, w)
  }

  // ----- the invariant

  ghost predicate RunFits(fl: Flight, r: Run) {
    && IsCompiled(r.flow, fl.action)
    && Consistent(r.flow, r.state)
    && (r.exit.Reporting? ==> IsStatus(r.exit.phase))
  }

  ghost predicate RunsFit(w: World) {
    |w.runs| == |w.table.flights| && forall f :: 0 <= f < |w.runs| ==> RunFits(w.table.flights[f], w.runs[f])
  }

  // A callback on its way was sent by a task that has begun, or by the exit handler.
  ghost predicate MessageFits(w: World, m: Message) {
    && m.flight < |w.runs| == |w.table.flights|
    && (IsStatus(m.phase) ||
         (m.phase == PhaseFor(w.table.flights[m.flight].action)
           && ReportBegun(w.runs[m.flight].flow, w.runs[m.flight].state)))
  }

  predicate IsDeleteOf(fl: Flight, ns: string, uid: string) {
    fl.action == Delete && fl.namespace == ns && fl.uid == uid
  }

  // Flight f is a workflow for a workspace of that name that reports this phase, and its whole guarded
  // chain has succeeded.
  ghost predicate IsBehind(w: World, ns: string, uid: string, phase: Phase, f: nat) {
    && f < |w.runs| && f < |w.table.flights|
    && w.table.flights[f].namespace == ns && w.table.flights[f].uid == uid
    && PhaseFor(w.table.flights[f].action) == phase
    && ChainSucceeded(w.runs[f].flow, w.runs[f].state)
  }

  ghost predicate Behind(w: World, r: Row) {
    exists f: nat :: IsBehind(w, r.namespace, r.uid, r.phase, f)
  }

  ghost predicate Inv(w: World) {
    && TableInv(w.table)
    && RunsFit(w)
    && (forall m :: m in w.sent ==> MessageFits(w, m))
    && forall i :: 0 <= i < |w.table.rows| && IsReported(w.table.rows[i].phase) ==> Behind(w, w.table.rows[i])
  }

  // ----- how a step may change the workflows

  ghost predicate RunKept(r: Run, s: Run) {
    && s.flow == r.flow
    && (ReportBegun(r.flow, r.state) ==> ReportBegun(s.flow, s.state))
    && (ChainSucceeded(r.flow, r.state) ==> ChainSucceeded(s.flow, s.state))
  }

  ghost predicate RunsKept(w: World, v: World) {
    && |w.runs| == |w.table.flights| && |w.runs| <= |v.runs| && w.table.flights <= v.table.flights
    && forall f :: 0 <= f < |w.runs| ==> RunKept(w.runs[f], v.runs[f])
  }

  lemma KeptFits(w: World, v: World, m: Message)
    requires RunsKept(w, v) && |v.runs| == |v.table.flights| && MessageFits(w, m)
    ensures MessageFits(v, m)
  {
    hide ReportBegun, ChainSucceeded;
    assert RunKept(w.runs[m.flight], v.runs[m.flight]);
  }

  lemma KeptBehind(w: World, v: World, ns: string, uid: string, phase: Phase, f: nat)
    requires RunsKept(w, v) && IsBehind(w, ns, uid, phase, f)
    ensures IsBehind(v, ns, uid, phase, f)
  {
    hide ReportBegun, ChainSucceeded;
    assert RunKept(w.runs[f], v.runs[f]) && v.table.flights[f] == w.table.flights[f];
  }

  // A row of the same name and phase
  lemma StaysBehind(w: World, v: World, r: Row, s: Row)
    requires RunsKept(w, v) && Behind(w, r) && SameKey(r, s) && s.phase == r.phase
    ensures Behind(v, s)
  {
    hide RunsKept, IsBehind;
    var f: nat :| IsBehind(w, r.namespace, r.uid, r.phase, f);
    KeptBehind(w, v, r.namespace, r.uid, r.phase, f);
  }

  // ----- the steps one by one

  // After a request: the table is kept, and a launched workflow starts from the beginning.
  ghost predicate Requested(w: World, v: World, template: Template) {
    && TableInv(v.table) && Evolves(w.table, v.table) && OneRowTouched(w.table, v.table)
    && NoneReported(w.table, v.table) && OneLaunched(w.table, v.table)
    && v.runs == WithLaunched(w.runs, v.table.flights, template) && v.sent == w.sent
  }

  function TemplateOf(st: Step): Option<Template> {
    if st.CreateStep? || st.ActStep? || st.RetryStep? then Some(st.template) else None
  }

  lemma RequestStep(w: World, st: Step)
    requires Inv(w) && Possible(w, st) && TemplateOf(st).Some?
    ensures Requested(w, Next(w, st), TemplateOf(st).value)
  {
    hide TableInv, RunsFit, OneRowTouched, Evolves, NoneReported, OneLaunched, New, Act, Retry, WithLaunched,
         MessageFits, Behind;
    var t := w.table;
    match st
    case CreateStep(ns, uid, parameters, now, fault, template) =>
      NewKeeps(t, ns, uid, parameters, now, fault);
      RequestsReportNone(t, ns, uid, UpdateOp, parameters, now, fault);
      RequestsLaunchOne(t, ns, uid, UpdateOp, parameters, now, fault);
    case ActStep(ns, uid, op, parameters, now, fault, template) =>
      ActKeeps(t, ns, uid, op, parameters, now, fault);
      RequestsReportNone(t, ns, uid, op, parameters, now, fault);
      RequestsLaunchOne(t, ns, uid, op, parameters, now, fault);
    case RetryStep(ns, uid, now, fault, template) =>
      RetryKeeps(t, ns, uid, now, fault);
      RetryReportsNone(t, ns, uid, now, fault);
      RetryLaunchesOne(t, ns, uid, now, fault);
  }

  lemma RequestedKeeps(w: World, v: World, template: Template)
    requires Inv(w) && Requested(w, v, template)
    ensures Inv(v) && RunsKept(w, v)
  {
    hide TableInv, ReportBegun, ChainSucceeded, Consistent, OneRowTouched, Compiled, Behind, MessageFits;
    LaunchedFits(w, v, template);
    forall m | m in v.sent
      ensures MessageFits(v, m)
    {
      KeptFits(w, v, m);
    }
    forall i | 0 <= i < |v.table.rows| && IsReported(v.table.rows[i].phase)
      ensures Behind(v, v.table.rows[i])
    {
      assert RowKept(w.table.rows[i], v.table.rows[i]);
      StaysBehind(w, v, w.table.rows[i], v.table.rows[i]);
    }
  }

  lemma LaunchedFits(w: World, v: World, template: Template)
    requires RunsFit(w) && w.table.flights <= v.table.flights && |v.table.flights| <= |w.table.flights| + 1
    requires v.runs == WithLaunched(w.runs, v.table.flights, template)
    ensures RunsFit(v) && RunsKept(w, v) && w.runs <= v.runs
  {
    hide ReportBegun, ChainSucceeded, Consistent, Lifecycle;
    if |v.table.flights| > |w.runs| {
      InitialConsistent(v.runs[|w.runs|].flow);
    }
    forall f | 0 <= f < |v.runs|
      ensures RunFits(v.table.flights[f], v.runs[f])
    {
      if f < |w.runs| { assert RunFits(w.table.flights[f], w.runs[f]); }
    }
  }

  // A step of one workflow that leaves the table alone and sends at most one callback.
  lemma WorkflowStepKeeps(w: World, f: nat, r: Run, sent: multiset<Message>)
    requires Inv(w) && f < |w.runs|
    requires RunFits(w.table.flights[f], r) && RunKept(w.runs[f], r)
    requires forall m :: m in sent ==> m in w.sent || MessageFits(w, m)
    ensures var v := World(w.table, w.runs[f := r], sent); Inv(v) && RunsKept(w, v)
  {
    hide TableInv, ReportBegun, ChainSucceeded, RunFits, Behind, MessageFits;
    var v := World(w.table, w.runs[f := r], sent);
    forall m | m in v.sent
      ensures MessageFits(v, m)
    {
      KeptFits(w, v, m);
    }
    forall i | 0 <= i < |v.table.rows| && IsReported(v.table.rows[i].phase)
      ensures Behind(v, v.table.rows[i])
    {
      StaysBehind(w, v, v.table.rows[i], v.table.rows[i]);
    }
  }

  lemma RunStepKeeps(w: World, f: nat, ev: Event)
    requires Inv(w) && Possible(w, RunStep(f, ev))
    ensures Inv(Next(w, RunStep(f, ev))) && RunsKept(w, Next(w, RunStep(f, ev)))
  {
    hide TableInv, ReportBegun, ChainSucceeded, Consistent, Complete, Clean, Enabled, Apply, Behind, MessageFits,
         IsCompiled;
    var r := w.runs[f];
    assert RunFits(w.table.flights[f], r);
    CompiledAction(r.flow, w.table.flights[f].action);
    EventKeepsCompiled(r.flow, r.state, ev);
    EventKeepsProgress(r.flow, r.state, ev);
    WorkflowStepKeeps(w, f, r.(state := Apply(r.flow, r.state, ev)), w.sent);
  }

  lemma CompiledAction(f: Flow, action: WorkspaceAction)
    requires IsCompiled(f, action)
    ensures f.action == action && IsCompiled(f, f.action)
  {
  }

  lemma PostStepKeeps(w: World, f: nat, i: nat)
    requires Inv(w) && Possible(w, PostStep(f, i))
    ensures Inv(Next(w, PostStep(f, i))) && RunsKept(w, Next(w, PostStep(f, i)))
    ensures i == ReportIndex(w.runs[f].flow.action)
    ensures Posts(w.runs[f].flow.dag[i].name) == Some(PhaseFor(w.table.flights[f].action))
  {
    hide TableInv, ChainSucceeded, Consistent, Behind, IsCompiled;
    var r := w.runs[f];
    assert RunFits(w.table.flights[f], r);
    CompiledAction(r.flow, w.table.flights[f].action);
    BegunAfterChain(r.flow, r.state, i);
    assert ReportBegun(r.flow, r.state);
    var sent := w.sent + multiset{Message(f, Posts(r.flow.dag[i].name).value)};
    assert MessageFits(w, Message(f, Posts(r.flow.dag[i].name).value));
    WorkflowStepKeeps(w, f, r.(report := r.report.(attempts := r.report.attempts + 1)), sent);
  }

  lemma ReportStepKeeps(w: World, f: nat)
    requires Inv(w) && Possible(w, ReportStep(f))
    ensures Inv(Next(w, ReportStep(f))) && RunsKept(w, Next(w, ReportStep(f)))
  {
    hide TableInv, ReportBegun, ChainSucceeded, Consistent, Behind, IsCompiled;
    var r := w.runs[f];
    assert RunFits(w.table.flights[f], r);
    assert MessageFits(w, Message(f, r.exit.phase));
    WorkflowStepKeeps(w, f, r.(exit := r.exit.(call := r.exit.call.(attempts := r.exit.call.attempts + 1))),
      w.sent + multiset{Message(f, r.exit.phase)});
  }

  // A callback with a reported phase was sent after the guarded chain of its workflow succeeded.
  lemma SentBehind(w: World, m: Message)
    requires Inv(w) && m in w.sent && IsReported(m.phase)
    ensures m.flight < |w.table.flights|
    ensures IsBehind(w, w.table.flights[m.flight].namespace, w.table.flights[m.flight].uid, m.phase, m.flight)
  {
    hide TableInv, ChainSucceeded, Consistent, IsCompiled;
    assert MessageFits(w, m);
    var r := w.runs[m.flight];
    assert RunFits(w.table.flights[m.flight], r);
    CompiledAction(r.flow, w.table.flights[m.flight].action);
    var i :| 0 <= i < |r.flow.dag| && i < |r.state.status| && Posts(r.flow.dag[i].name).Some?
      && r.state.status[i].Ran();
    BegunAfterChain(r.flow, r.state, i);
  }

  lemma DeliverStepKeeps(w: World, m: Message, now: nat, heard: bool)
    requires Inv(w) && Possible(w, DeliverStep(m, now, heard))
    ensures var v := Next(w, DeliverStep(m, now, heard));
      Inv(v) && RunsKept(w, v) && Evolves(w.table, v.table) && OneRowTouched(w.table, v.table)
  {
    hide TableInv, ReportBegun, ChainSucceeded, Consistent, IsCompiled, Callback, Behind, OneRowTouched;
    var v := Next(w, DeliverStep(m, now, heard));
    var fl := w.table.flights[m.flight];
    assert MessageFits(w, m);
    CallbackKeeps(w.table, fl.namespace, fl.uid, m.phase, now);
    DeliveredRuns(w, v, m);
    forall k | k in v.sent
      ensures MessageFits(v, k)
    {
      assert k in w.sent;
      KeptFits(w, v, k);
    }
    forall i | 0 <= i < |v.table.rows| && IsReported(v.table.rows[i].phase)
      ensures Behind(v, v.table.rows[i])
    {
      DeliveredRow(w, v, m, now, i);
    }
  }

  lemma DeliveredRow(w: World, v: World, m: Message, now: nat, i: nat)
    requires Inv(w) && m in w.sent && m.flight < |w.table.flights| && v.table == Handled(w, m, now).table
    requires RunsKept(w, v) && Evolves(w.table, v.table)
    requires i < |v.table.rows| && IsReported(v.table.rows[i].phase)
    ensures Behind(v, v.table.rows[i])
  {
    hide TableInv, RunsFit, RunsKept, MessageFits, Callback, IsBehind;
    var fl := w.table.flights[m.flight];
    var same := CallbackLength(w.table, fl.namespace, fl.uid, m.phase, now);
    assert RowKept(w.table.rows[i], v.table.rows[i]);
    if v.table.rows[i].phase == w.table.rows[i].phase {
      StaysBehind(w, v, w.table.rows[i], v.table.rows[i]);
    } else {
      CallbackReports(w.table, fl.namespace, fl.uid, m.phase, now, i);
      SentBehind(w, m);
      KeptBehind(w, v, fl.namespace, fl.uid, m.phase, m.flight);
    }
  }

  lemma CallbackLength(t: Table, ns: string, uid: string, phase: Phase, now: nat) returns (n: nat)
    ensures n == |Callback(t, ns, uid, phase, now).table.rows| == |t.rows|
    ensures Callback(t, ns, uid, phase, now).table.flights == t.flights
  {
    n := |t.rows|;
  }

  lemma DeliveredRuns(w: World, v: World, m: Message)
    requires RunsFit(w) && m.flight < |w.runs| && v.table.flights == w.table.flights
    requires v.runs == w.runs || v.runs == w.runs[m.flight := Acknowledged(w.runs[m.flight], m.phase)]
    ensures RunsFit(v) && RunsKept(w, v)
  {
    hide ReportBegun, ChainSucceeded, Consistent, IsCompiled;
    assert RunFits(w.table.flights[m.flight], w.runs[m.flight]);
  }

  // ----- every step, every run

  lemma InitialInv()
    ensures Inv(INITIAL)
  {
  }

  // Every step keeps the invariant, changes at most one row, and never touches a terminated one.
  lemma StepKeeps(w: World, st: Step)
    requires Inv(w) && Possible(w, st)
    ensures var v := Next(w, st);
      Inv(v) && RunsKept(w, v) && Evolves(w.table, v.table) && OneRowTouched(w.table, v.table)
  {
    hide Inv, RunsKept, OneRowTouched, Evolves, NoneReported, OneLaunched, TableInv, WithLaunched, New, Act, Retry,
         Callback, Apply, Enabled, Complete, Clean;
    NothingTouched(w.table);
    if TemplateOf(st).Some? {
      RequestStep(w, st);
      RequestedKeeps(w, Next(w, st), TemplateOf(st).value);
    } else {
      match st
      case RunStep(f, ev) => RunStepKeeps(w, f, ev);
      case PostStep(f, i) => PostStepKeeps(w, f, i);
      case ExitStep(f, p) => ExitStepKeeps(w, f, p);
      case ReportStep(f) => ReportStepKeeps(w, f);
      case DeliverStep(m, now, heard) => DeliverStepKeeps(w, m, now, heard);
    }
  }

  lemma ExitStepKeeps(w: World, f: nat, p: Phase)
    requires Inv(w) && Possible(w, ExitStep(f, p))
    ensures Inv(Next(w, ExitStep(f, p))) && RunsKept(w, Next(w, ExitStep(f, p)))
  {
    hide TableInv, ReportBegun, ChainSucceeded, Consistent, Behind, IsCompiled, MessageFits, Complete, Clean;
    var r := w.runs[f];
    assert RunFits(w.table.flights[f], r);
    WorkflowStepKeeps(w, f, r.(exit := Reporting(p, Call(0, false))), w.sent);
  }

  lemma {:induction false} RunKeeps(w: World, steps: seq<Step>, v: World)
    requires Inv(w) && RunsFrom(w, steps, v)
    ensures Inv(v) && Evolves(w.table, v.table)
    decreases |steps|
  {
    hide Inv, Next, Possible;
    if steps == [] {
      NothingTouched(w.table);
    } else {
      var n := |steps| - 1;
      var u :| RunsFrom(w, steps[..n], u) && Possible(u, steps[n]) && v == Next(u, steps[n]);
      RunKeeps(w, steps[..n], u);
      StepKeeps(u, steps[n]);
      EvolvesTransitive(w.table, u.table, v.table);
    }
  }

  lemma ReachedInv(w: World)
    requires Reached(w)
    ensures Inv(w)
  {
    hide Inv, RunsFrom;
    var steps :| RunsFrom(INITIAL, steps, w);
    InitialInv();
    RunKeeps(INITIAL, steps, w);
  }

  // ----- main results

  // A row is Running, Paused or Terminated only when a workflow launched for a workspace of that name
  // reports this phase, and its whole guarded chain has succeeded.
  lemma ReportedOnlyAfterChain(w: World, i: nat) returns (f: nat)
    requires Reached(w) && i < |w.table.rows| && w.table.rows[i].phase in {Running, Paused, Terminated}
    ensures f < |w.runs| && f < |w.table.flights|
    ensures w.table.flights[f].namespace == w.table.rows[i].namespace
    ensures w.table.flights[f].uid == w.table.rows[i].uid
    ensures PhaseFor(w.table.flights[f].action) == w.table.rows[i].phase
    ensures ChainSucceeded(w.runs[f].flow, w.runs[f].state)
  {
    hide TableInv, RunsFit, MessageFits, ChainSucceeded;
    ReachedInv(w);
    var r := w.table.rows[i];
    f :| IsBehind(w, r.namespace, r.uid, r.phase, f);
  }

  // A row reaches Terminated only after a workflow was launched to delete a workspace of that name
  // and its whole guarded chain succeeded, with every volume claim deleted.
  lemma TerminatedOnlyByDelete(w: World, i: nat)
    requires Reached(w) && i < |w.table.rows| && w.table.rows[i].phase == Terminated
    ensures exists f :: (
        && 0 <= f < |w.runs| && f < |w.table.flights|
        && IsDeleteOf(w.table.flights[f], w.table.rows[i].namespace, w.table.rows[i].uid)
        && ChainSucceeded(w.runs[f].flow, w.runs[f].state)
        && forall k :: 0 <= k < |w.runs[f].state.items| ==> w.runs[f].state.items[k] == Done)
  {
    hide TableInv, RunsFit, MessageFits;
    var f := ReportedOnlyAfterChain(w, i);
    DeleteRun(w, f);
  }

  lemma DeleteRun(w: World, f: nat)
    requires Reached(w) && f < |w.runs|
    ensures f < |w.table.flights| && w.runs[f].flow.action == w.table.flights[f].action
    ensures RunFits(w.table.flights[f], w.runs[f])
  {
    hide TableInv, MessageFits, Behind, Consistent;
    ReachedInv(w);
    assert RunFits(w.table.flights[f], w.runs[f]);
  }

  // Whatever happens later, a terminated row stays as it is, and terminated_at stays set.
  lemma TerminatedIsFinal(w: World, steps: seq<Step>, v: World, i: nat)
    requires Reached(w) && RunsFrom(w, steps, v) && i < |w.table.rows|
    ensures i < |v.table.rows|
    ensures w.table.rows[i].phase == Terminated ==> v.table.rows[i] == w.table.rows[i]
    ensures w.table.rows[i].terminatedAt.Some? ==> v.table.rows[i].terminatedAt.Some?
  {
    hide Inv, RunsFrom;
    ReachedInv(w);
    RunKeeps(w, steps, v);
    assert RowKept(w.table.rows[i], v.table.rows[i]);
  }

  lemma ReachedTable(w: World)
    requires Reached(w)
    ensures TableInv(w.table)
  {
    hide TableInv;
    ReachedInv(w);
  }

  // The timestamps of every reachable row fit its phase; FailedToResume is never stored.
  lemma TimesAlwaysFit(w: World, i: nat)
    requires Reached(w) && i < |w.table.rows|
    ensures TimesFit(w.table.rows[i])
  {
    ReachedTable(w);
  }

  // The request deletes the workspace of row i, and its write succeeds.
  ghost predicate RecordsDelete(w: World, st: Step, i: nat) {
    && st.ActStep? && st.op == DeleteOp && st.fault == Works
    && i < |w.table.rows| && w.table.rows[i].Matches(st.ns, st.uid)
  }

  ghost predicate DeleteRecorded(steps: seq<Step>, i: nat) {
    exists k: nat, u :: k < |steps| && RunsFrom(INITIAL, steps[..k], u) && RecordsDelete(u, steps[k], i)
  }

  lemma {:induction false} OneOutcome(w: World, steps: seq<Step>, u: World, v: World)
    requires RunsFrom(w, steps, u) && RunsFrom(w, steps, v)
    ensures u == v
    decreases |steps|
  {
    hide Next, Possible;
    if steps != [] {
      var n := |steps| - 1;
      var x :| RunsFrom(w, steps[..n], x) && Possible(x, steps[n]) && u == Next(x, steps[n]);
      var y :| RunsFrom(w, steps[..n], y) && Possible(y, steps[n]) && v == Next(y, steps[n]);
      OneOutcome(w, steps[..n], x, y);
    }
  }

  // A step gives terminated_at to row i exactly when it records a delete of it.
  lemma StepTerminatedAt(w: World, st: Step, i: nat)
    requires Inv(w) && Possible(w, st)
    ensures HasTerminatedAt(Next(w, st).table.rows, i) <==>
      RecordsDelete(w, st, i) || HasTerminatedAt(w.table.rows, i)
  {
    hide TableInv, HasTerminatedAt, RunsFit, Behind, New, Act, Retry, Callback, Apply, Enabled, WithLaunched,
         Acknowledged, Complete, Clean;
    match st
    case CreateStep(ns, uid, parameters, now, fault, template) =>
      RequestsTerminatedAt(w.table, ns, uid, UpdateOp, parameters, now, fault, i);
    case ActStep(ns, uid, op, parameters, now, fault, template) =>
      RequestsTerminatedAt(w.table, ns, uid, op, parameters, now, fault, i);
    case RetryStep(ns, uid, now, fault, template) => RetryTerminatedAt(w.table, ns, uid, now, fault, i);
    case DeliverStep(m, now, heard) =>
      assert MessageFits(w, m);
      var fl := w.table.flights[m.flight];
      CallbackTerminatedAt(w.table, fl.namespace, fl.uid, m.phase, now, i);
    case _ =>
  }

  lemma RecordedStep(steps: seq<Step>, u: World, st: Step, i: nat)
    requires RunsFrom(INITIAL, steps, u)
    ensures DeleteRecorded(steps + [st], i) <==> DeleteRecorded(steps, i) || RecordsDelete(u, st, i)
  {
    hide RunsFrom, RecordsDelete;
    var n, all := |steps|, steps + [st];
    assert forall k: nat :: k <= n ==> all[..k] == steps[..k];
    assert steps[..n] == steps;
    if DeleteRecorded(all, i) {
      var k: nat, x :| k < |all| && RunsFrom(INITIAL, all[..k], x) && RecordsDelete(x, all[k], i);
      if k == n { OneOutcome(INITIAL, steps, x, u); }
    }
    if DeleteRecorded(steps, i) {
      var k: nat, x :| k < n && RunsFrom(INITIAL, steps[..k], x) && RecordsDelete(x, steps[k], i);
      assert all[k] == steps[k] && RunsFrom(INITIAL, all[..k], x);
    }
    if RecordsDelete(u, st, i) {
      assert RunsFrom(INITIAL, all[..n], u) && all[n] == st;
    }
  }

  // A row has terminated_at exactly when a request to delete it was recorded; so a row that was
  // terminated by the workflow of an earlier workspace has none.
  lemma {:induction false} TerminatedAtExactlyWhen(steps: seq<Step>, w: World, i: nat)
    requires RunsFrom(INITIAL, steps, w)
    ensures HasTerminatedAt(w.table.rows, i) <==> DeleteRecorded(steps, i)
    decreases |steps|
  {
    hide Inv, Next, Possible, RecordsDelete;
    if steps == [] {
      assert !DeleteRecorded(steps, i);
    } else {
      var n := |steps| - 1;
      var u :| RunsFrom(INITIAL, steps[..n], u) && Possible(u, steps[n]) && w == Next(u, steps[n]);
      assert Reached(u);
      ReachedInv(u);
      TerminatedAtExactlyWhen(steps[..n], u, i);
      StepTerminatedAt(u, steps[n], i);
      RecordedStep(steps[..n], u, steps[n], i);
      assert steps[..n] + [steps[n]] == steps;
    }
  }

  // ----- a set-phase task succeeds only when its callback was accepted

  ghost predicate Heard(r: Run) {
    forall i :: HasReported(r, i) ==> r.report.acked
  }

  predicate HasReported(r: Run, i: int) {
    && 0 <= i < |r.flow.dag| && i < |r.state.status|
    && Posts(r.flow.dag[i].name).Some? && r.state.status[i] == Done
  }

  ghost predicate AllHeard(w: World) {
    forall f :: 0 <= f < |w.runs| ==> Heard(w.runs[f])
  }

  lemma EventHeard(r: Run, ev: Event)
    requires Heard(r) && Fits(r.flow, r.state) && Enabled(r.flow, r.state, ev)
    requires NeedsAck(r.flow, ev) ==> r.report.acked
    ensures Heard(r.(state := Apply(r.flow, r.state, ev)))
  {
    hide DepsFinished, DepsSatisfied;
    var q := r.(state := Apply(r.flow, r.state, ev));
    forall i | HasReported(q, i)
      ensures r.report.acked
    {
      if r.state.status[i] == Done { assert HasReported(r, i); } else { assert ev == Finish(i, true); }
    }
  }

  lemma LaunchedHeard(runs: seq<Run>, flights: seq<Flight>, template: Template)
    requires forall f :: 0 <= f < |runs| ==> Heard(runs[f])
    ensures forall f :: 0 <= f < |WithLaunched(runs, flights, template)| ==>
      Heard(WithLaunched(runs, flights, template)[f])
  {
    hide Lifecycle;
  }

  lemma StepHeard(w: World, st: Step)
    requires AllHeard(w) && Possible(w, st)
    ensures AllHeard(Next(w, st))
  {
    hide Heard, New, Act, Retry, Callback, Enabled, Apply, WithLaunched, Complete, Clean, NeedsAck;
    match st
    case CreateStep(_, _, _, _, _, t) => LaunchedHeard(w.runs, Next(w, st).table.flights, t);
    case ActStep(_, _, _, _, _, _, t) => LaunchedHeard(w.runs, Next(w, st).table.flights, t);
    case RetryStep(_, _, _, _, t) => LaunchedHeard(w.runs, Next(w, st).table.flights, t);
    case RunStep(f, ev) => EventHeard(w.runs[f], ev);
    case PostStep(f, i) =>
      var r := w.runs[f];
      SameStateHeard(r, r.(report := r.report.(attempts := r.report.attempts + 1)));
    case ExitStep(f, p) => SameStateHeard(w.runs[f], w.runs[f].(exit := Reporting(p, Call(0, false))));
    case ReportStep(f) =>
      var r := w.runs[f];
      SameStateHeard(r, r.(exit := r.exit.(call := r.exit.call.(attempts := r.exit.call.attempts + 1))));
    case DeliverStep(m, now, heard) =>
      if m.flight < |w.runs| { SameStateHeard(w.runs[m.flight], Acknowledged(w.runs[m.flight], m.phase)); }
  }

  lemma SameStateHeard(r: Run, q: Run)
    requires Heard(r) && q.flow == r.flow && q.state == r.state && (r.report.acked ==> q.report.acked)
    ensures Heard(q)
  {
    forall i | HasReported(q, i)
      ensures q.report.acked
    {
      assert HasReported(r, i);
    }
  }

  lemma {:induction false} RunHeard(steps: seq<Step>, w: World)
    requires RunsFrom(INITIAL, steps, w)
    ensures AllHeard(w)
    decreases |steps|
  {
    hide Next, Possible, Heard;
    if steps != [] {
      var n := |steps| - 1;
      var u :| RunsFrom(INITIAL, steps[..n], u) && Possible(u, steps[n]) && w == Next(u, steps[n]);
      RunHeard(steps[..n], u);
      StepHeard(u, steps[n]);
    }
  }

  // In every reachable state: the set-phase task of a workflow has succeeded, or the user's task behind
  // it has begun, only if the workflow has heard that its callback was accepted.
  lemma SuccessWasHeard(w: World, f: nat)
    requires Reached(w) && f < |w.runs|
    ensures var r := w.runs[f];
      (exists t :: Posts(t).Some? && Index(t) < |r.state.status| && StatusOf(r.state, t) == Done)
        || (Index(PostExecution) < |r.state.status| && StatusOf(r.state, PostExecution).Ran()) ==>
      r.report.acked
  {
    hide RunsFrom, ChainSucceeded, TableInv, Behind, MessageFits, ReportBegun;
    ReachedInv(w);
    var steps :| RunsFrom(INITIAL, steps, w);
    RunHeard(steps, w);
    var r := w.runs[f];
    assert RunFits(w.table.flights[f], r);
    DoneWasHeard(r, w.table.flights[f].action);
  }

  lemma DoneWasHeard(r: Run, action: WorkspaceAction)
    requires IsCompiled(r.flow, action) && Consistent(r.flow, r.state) && Heard(r)
    ensures forall t :: Posts(t).Some? && Index(t) < |r.state.status| && StatusOf(r.state, t) == Done ==> r.report.acked
    ensures Index(PostExecution) < |r.state.status| && StatusOf(r.state, PostExecution).Ran() ==> r.report.acked
  {
    hide Lifecycle, Consistent, Chain;
    var post :| r.flow.dag == Lifecycle(post);
    LifecycleByIndex(post);
    ConsistentFits(r.flow, r.state);
    forall t | Posts(t).Some? && Index(t) < |r.state.status| && StatusOf(r.state, t) == Done
      ensures r.report.acked
    {
      assert HasReported(r, Index(t));
    }
    if Index(PostExecution) < |r.state.status| && StatusOf(r.state, PostExecution).Ran() {
      LastOfChain(action);
      RanAfterThoseBefore(post, r.flow, r.state, |Chain(true, action)| - 1);
      assert HasReported(r, Index(ReportOf(action)));
    }
  }

  lemma LastOfChain(action: WorkspaceAction)
    ensures var c := Chain(true, action);
      |c| > 1 && c[|c| - 1] == PostExecution && c[|c| - 2] == ReportOf(action) && Posts(ReportOf(action)).Some?
  {
  }

  // At most one live workspace per name, so a status update selects at most one row.
  lemma UpdateSelectsOneRow(w: World, ns: string, uid: string, i: nat, j: nat)
    requires Reached(w) && i < |w.table.rows| && j < |w.table.rows|
    requires w.table.rows[i].Matches(ns, uid) && w.table.rows[j].Matches(ns, uid)
    ensures i == j
  {
    ReachedTable(w);
  }

  // and so no step ever changes two rows.
  lemma StepsTouchOneRow(w: World, st: Step)
    requires Reached(w) && Possible(w, st)
    ensures OneRowTouched(w.table, Next(w, st).table)
  {
    hide Inv, Possible, Next;
    ReachedInv(w);
    StepKeeps(w, st);
  }

  // The retry is accepted and leads back to the phase before the failure exactly when that was a
  // phase in progress; in any other phase the report itself is stored and cannot be retried.
  lemma RetryReturnsExactlyWhen(w: World, i: nat, reported: Phase, now: nat)
    requires Reached(w) && i < |w.table.rows| && w.table.rows[i].Live()
    requires reported in {WorkflowFailed, WorkflowError}
    ensures var r := w.table.rows[i];
      var after := FailAndRetry(w.table, r.namespace, r.uid, reported, now);
      && |after.table.rows| == |w.table.rows|
      && ((after.result.Ok? && after.table.rows[i].phase == r.phase) <==>
            r.phase in {Launching, Pausing, Updating, Terminating})
      && (r.phase !in {Launching, Pausing, Updating, Terminating} ==>
            after.result.Failed? && after.table.rows[i].phase == reported)
      && after.table.rows[i].parameters == r.parameters
  {
    hide TableInv, WithStatus, FailurePhase, Retry, Callback;
    ReachedTable(w);
    var r := w.table.rows[i];
    FailureOfRow(w.table, i, reported, now);
    CallbackKeeps(w.table, r.namespace, r.uid, reported, now);
    RetryOfRow(Callback(w.table, r.namespace, r.uid, reported, now).table, i, now);
  }
}
