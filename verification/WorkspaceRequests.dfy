/**
 What a user's request brings about, told in the words of the request: the workflow it launches, the row
 it writes, the phase this leads to; and that no row reaches a phase nobody asked for.
 */
module WorkspaceRequests {
  import opened Wrappers
  import opened WorkspaceTypes
  import opened Parameters
  import opened WorkspaceStore
  import opened WorkspaceTable
  import opened WorkspaceDag
  import opened WorkspaceProtocol
  import opened WorkspaceReuse

  // ----- one accepted request

  // An action, the phase of a row while its workflow runs, and the phase that the workflow reports.
  datatype Plan = Plan(action: WorkspaceAction, inHand: Phase, reported: Phase)

  function PlanOf(op: Operation): Plan {
    match op
    case UpdateOp => Plan(Update, Updating, Running)
    case PauseOp => Plan(Pause, Pausing, Paused)
    case ResumeOp => Plan(Create, Launching, Running)
    case DeleteOp => Plan(Delete, Terminating, Terminated)
  }

  const LAUNCH: Plan := Plan(Create, Launching, Running)

  // What a retry repeats, by the phase that is stored.
  function PlanOfRetry(stored: Phase): Option<Plan> {
    match stored
    case FailedToLaunch => Some(LAUNCH)
    case FailedToPause => Some(PlanOf(PauseOp))
    case FailedToTerminate => Some(PlanOf(DeleteOp))
    case FailedToUpdate => Some(PlanOf(UpdateOp))
    case _ => None
  }

  // The timestamps of a row that enters the phase of a plan: that of the phase is the time of the
  // request, and those that would contradict it are cleared.
  predicate Stamped(r: Row, s: Row, inHand: Phase, now: nat) {
    match inHand
    case Launching =>
      && s.startedAt == Some(now) && s.pausedAt == None
      && s.updatedAt == r.updatedAt && s.terminatedAt == r.terminatedAt
    case Pausing =>
      && s.startedAt == None && s.pausedAt == Some(now)
      && s.updatedAt == r.updatedAt && s.terminatedAt == r.terminatedAt
    case Updating =>
      && s.startedAt == r.startedAt && s.pausedAt == None
      && s.updatedAt == Some(now) && s.terminatedAt == r.terminatedAt
    case Terminating =>
      && s.startedAt == None && s.pausedAt == None
      && s.updatedAt == r.updatedAt && s.terminatedAt == Some(now)
    case _ => false
  }

  // Live row i, the one of that name, enters the phase of the plan, one workflow is launched for it,
  // which will report what the plan says, and what was given overlays what was stored.
  ghost predicate Carried(t: Table, u: Table, i: nat, ns: string, uid: string, plan: Plan, given: seq<Parameter>,
      now: nat)
  {
    && i < |t.rows| == |u.rows| && t.rows[i].Matches(ns, uid)
    && u.flights == t.flights + [Flight(ns, uid, plan.action, t.rows[i].id)]
    && PhaseFor(plan.action) == plan.reported
    && (forall j :: 0 <= j < |t.rows| && j != i ==> u.rows[j] == t.rows[j])
    && u.rows[i].phase == plan.inHand && u.rows[i].id == t.rows[i].id && SameKey(t.rows[i], u.rows[i])
    && Stamped(t.rows[i], u.rows[i], plan.inHand, now)
    && Overlays(u.rows[i].parameters, given, t.rows[i].parameters)
  }

  lemma NothingOverlays(ps: seq<Parameter>)
    ensures Overlays(ps, [], ps) && Overlays(ps, ps, ps)
  {
  }

  // A request that fails writes no row. If it was its write that failed, the workflow is on its way.
  ghost predicate Rejected(t: Table, r: Reply, fault: Fault, launched: Flight) {
    && r.result == Failed(BackendError)
    && fault != Works
    && r.table == if fault == WriteFails then t.(flights := t.flights + [launched]) else t
  }

  // Update, pause, resume and delete: accepted exactly for a live workspace when no call fails.
  lemma AcceptedAct(t: Table, ns: string, uid: string, op: Operation, request: seq<Parameter>, now: nat, fault: Fault)
    returns (i: nat)
    requires TableInv(t)
    ensures i == Find(t.rows, ns, uid)
    ensures var r := Act(t, ns, uid, op, request, now, fault);
      && (r.result.Ok? <==> fault == Works && exists j :: 0 <= j < |t.rows| && t.rows[j].Matches(ns, uid))
      && (r.result.Ok? ==> Carried(t, r.table, i, ns, uid, PlanOf(op), request, now))
      && (r.result.Failed? ==>
           if i < |t.rows| then Rejected(t, r, fault, Flight(ns, uid, PlanOf(op).action, t.rows[i].id))
           else r == Reply(Failed(UserError("Workspace not found.")), t))
  {
    hide TableInv, Merge, Overlays, Written, Stamped, Act;
    i := Find(t.rows, ns, uid);
    InvOneLive(t);
    ActWrites(t, ns, uid, op, request, now, fault);
    if i < |t.rows| { WrittenRow(t.rows[i], op, request, now); }
  }

  lemma ActWrites(t: Table, ns: string, uid: string, op: Operation, request: seq<Parameter>, now: nat, fault: Fault)
    requires OneLivePerKey(t.rows)
    ensures var i := Find(t.rows, ns, uid);
      var r := Act(t, ns, uid, op, request, now, fault);
      && (r.result.Ok? <==> fault == Works && i < |t.rows|)
      && (r.result.Failed? ==>
           if i < |t.rows| then Rejected(t, r, fault, Flight(ns, uid, op.Action(), t.rows[i].id))
           else r == Reply(Failed(UserError("Workspace not found.")), t))
      && (r.result.Ok? ==>
           var w := t.rows[i];
           var parameters := if request == [] then None else Some(Merge(w.parameters, request));
           && r.table.rows == t.rows[i := Written(w, op.Target(), now, parameters)]
           && r.table.flights == t.flights + [Flight(ns, uid, op.Action(), w.id)])
  {
    hide Merge, Written, OneLivePerKey;
    var i := Find(t.rows, ns, uid);
    if i < |t.rows| {
      SetStatusIs(t.rows, ns, uid, op.Target(), now,
        if request == [] then None else Some(Merge(t.rows[i].parameters, request)));
    }
  }

  lemma WrittenRow(r: Row, op: Operation, request: seq<Parameter>, now: nat)
    ensures var s := Written(r, op.Target(), now, if request == [] then None else Some(Merge(r.parameters, request)));
      && s.phase == PlanOf(op).inHand && s.id == r.id && SameKey(r, s)
      && Stamped(r, s, PlanOf(op).inHand, now)
      && Overlays(s.parameters, request, r.parameters)
  {
    hide Merge, Overlays;
    NothingOverlays(r.parameters);
    MergeOverlays(r.parameters, request);
  }

  lemma InvOneLive(t: Table)
    requires TableInv(t)
    ensures OneLivePerKey(t.rows)
  {
  }

  // A retry: accepted exactly for a live workspace in one of the failure phases, which it leaves for
  // the phase before the failure. The parameters stay.
  lemma AcceptedRetry(t: Table, ns: string, uid: string, now: nat, fault: Fault) returns (i: nat)
    requires TableInv(t)
    ensures i == Find(t.rows, ns, uid)
    ensures var r := Retry(t, ns, uid, now, fault);
      && (r.result.Ok? <==> fault == Works && i < |t.rows| && PlanOfRetry(t.rows[i].phase).Some?)
      && (r.result.Ok? ==>
           Carried(t, r.table, i, ns, uid, PlanOfRetry(t.rows[i].phase).value, t.rows[i].parameters, now))
      && (r.result.Failed? ==>
           if i < |t.rows| && PlanOfRetry(t.rows[i].phase).Some? then
             Rejected(t, r, fault, Flight(ns, uid, PlanOfRetry(t.rows[i].phase).value.action, t.rows[i].id))
           else
             r.result.failure.UserError? && r.table == t)
  {
    hide TableInv, Merge, Overlays, Act, Start, Carried;
    i := Find(t.rows, ns, uid);
    if i < |t.rows| {
      var w := t.rows[i];
      RowAt(t, i);
      match w.phase
      case FailedToLaunch => RestartCarried(t, ns, uid, now, fault);
      case FailedToPause => RetriedAct(t, ns, uid, PauseOp, [], now, fault);
      case FailedToTerminate => RetriedAct(t, ns, uid, DeleteOp, [], now, fault);
      case FailedToUpdate => RetriedAct(t, ns, uid, UpdateOp, w.parameters, now, fault);
      case _ =>
    }
  }

  lemma RetriedAct(t: Table, ns: string, uid: string, op: Operation, request: seq<Parameter>, now: nat, fault: Fault)
    requires TableInv(t) && Find(t.rows, ns, uid) < |t.rows|
    requires request in {[], t.rows[Find(t.rows, ns, uid)].parameters}
    ensures var i := Find(t.rows, ns, uid);
      var r := Act(t, ns, uid, op, request, now, fault);
      && (r.result.Ok? <==> fault == Works)
      && (r.result.Ok? ==> Carried(t, r.table, i, ns, uid, PlanOf(op), t.rows[i].parameters, now))
      && (r.result.Failed? ==> Rejected(t, r, fault, Flight(ns, uid, PlanOf(op).action, t.rows[i].id)))
  {
    hide TableInv, Act, Merge;
    var j := AcceptedAct(t, ns, uid, op, request, now, fault);
  }

  lemma RestartCarried(t: Table, ns: string, uid: string, now: nat, fault: Fault)
    requires TableInv(t) && Get(t.rows, ns, uid).Some? && Get(t.rows, ns, uid).value.phase == FailedToLaunch
    ensures var i := Find(t.rows, ns, uid);
      var r := Start(t, t.rows[i], now, fault);
      && (r.result.Ok? <==> fault == Works)
      && (r.result.Ok? ==> Carried(t, r.table, i, ns, uid, LAUNCH, t.rows[i].parameters, now))
      && (r.result.Failed? ==> Rejected(t, r, fault, Flight(ns, uid, Create, t.rows[i].id)))
  {
    hide TableInv, Overlays;
    var i := Find(t.rows, ns, uid);
    RowAt(t, i);
    NothingOverlays(t.rows[i].parameters);
    StartKeeps(t, ns, uid, now, fault);
  }

  // A create: accepted exactly if the name is free and no call fails. The row is new, and starts now,
  // with the parameters as given.
  lemma AcceptedCreate(t: Table, ns: string, uid: string, given: seq<Parameter>, now: nat, fault: Fault)
    ensures var r := New(t, ns, uid, given, now, fault);
      && (r.result.Ok? <==> fault == Works && forall j :: 0 <= j < |t.rows| ==> !t.rows[j].Matches(ns, uid))
      && (r.result.Failed? ==>
           if exists j :: 0 <= j < |t.rows| && t.rows[j].Matches(ns, uid)
           then r.result.failure.UserError? && r.table == t
           else Rejected(t, r, fault, Flight(ns, uid, Create, t.nextId)))
      && (r.result.Ok? ==>
           && |r.table.rows| == |t.rows| + 1 && r.table.rows[..|t.rows|] == t.rows
           && var s := r.table.rows[|t.rows|];
              && s.Matches(ns, uid) && s.phase == Launching && s.id == t.nextId < r.table.nextId
              && s.startedAt == Some(now) && s.pausedAt.None? && s.updatedAt.None? && s.terminatedAt.None?
              && s.parameters == given
              && r.table.flights == t.flights + [Flight(ns, uid, Create, s.id)])
  {
    var i := Find(t.rows, ns, uid);
  }

  // A start of a workspace that was read before: refused unless it is new or its launch had failed.
  lemma StartRefusedExactlyWhen(t: Table, w: Row, now: nat, fault: Fault)
    ensures var r := Start(t, w, now, fault);
      && (r.result.Ok? <==> fault == Works && (w.id == 0 || w.phase == FailedToLaunch))
      && (r.result.Failed? ==>
           if w.id == 0 || w.phase == FailedToLaunch then
             Rejected(t, r, fault, Flight(w.namespace, w.uid, Create, w.id))
           else
             r.result.failure.UserError? && r.table == t)
      && (r.result.Ok? ==>
           && r.table.flights == t.flights + [Flight(w.namespace, w.uid, Create, w.id)]
           && |r.table.rows| == |t.rows|
           && forall j :: 0 <= j < |t.rows| ==>
                r.table.rows[j] == if t.rows[j].id == w.id then t.rows[j].(phase := Launching, startedAt := Some(now))
                                   else t.rows[j])
  {
  }

  // The phase that is stored when a workflow is said to have failed, by the row as it is.
  function FailedAs(r: Row, reported: Phase): Phase {
    match r.phase
    case Launching => if r.pausedAt.Some? then FailedToResume else FailedToLaunch
    case Pausing => FailedToPause
    case Terminating => FailedToTerminate
    case Updating => FailedToUpdate
    case _ => reported
  }

  // A callback, for every table with at most one live workspace of each name: a success changes
  // nothing; for a name without a live workspace it fails, and a reported failure panics; else it
  // changes the phase of that workspace and nothing else.
  lemma CallbackInWords(t: Table, ns: string, uid: string, reported: Phase, now: nat)
    requires OneLivePerKey(t.rows)
    requires reported in {Running, Paused, Terminated, WorkflowSucceeded, WorkflowFailed, WorkflowError}
    ensures var r := Callback(t, ns, uid, reported, now);
      && (reported == WorkflowSucceeded ==> r == Reply(Ok(()), t))
      && (reported != WorkflowSucceeded && (forall j :: 0 <= j < |t.rows| ==> !t.rows[j].Matches(ns, uid)) ==>
           r == Reply(Failed(if reported in {Running, Paused, Terminated} then UserError("Workspace not found.")
                             else NilDereference), t))
      && forall j :: 0 <= j < |t.rows| && t.rows[j].Matches(ns, uid) && reported != WorkflowSucceeded ==>
           var p := if reported in {Running, Paused, Terminated} then reported else FailedAs(t.rows[j], reported);
           r == Reply(Ok(()), t.(rows := t.rows[j := t.rows[j].(phase := p)]))
  {
    hide OneLivePerKey, WithStatus, FailurePhase;
    var i := Find(t.rows, ns, uid);
    var failed := reported in {WorkflowFailed, WorkflowError};
    if i < |t.rows| {
      var p := if failed then FailurePhase(t.rows[i], reported) else reported;
      FailedPhase(t.rows[i], reported, now);
      SetStatusIs(t.rows, ns, uid, p, now, None);
      forall j | 0 <= j < |t.rows| && t.rows[j].Matches(ns, uid)
        ensures j == i
      {
        FindIs(t.rows, ns, uid, j);
      }
    } else {
      SetStatusIs(t.rows, ns, uid, reported, now, None);
    }
  }

  lemma FailedPhase(r: Row, reported: Phase, now: nat)
    requires reported in {Running, Paused, Terminated, WorkflowSucceeded, WorkflowFailed, WorkflowError}
    ensures reported in {WorkflowFailed, WorkflowError} ==> FailurePhase(r, reported) == FailedAs(r, reported)
    ensures var p := if reported in {WorkflowFailed, WorkflowError} then FailedAs(r, reported) else reported;
      WithStatus(r, p, now) == r.(phase := p)
  {
  }

  // ----- an accepted request can be carried through

  // The workflow launched last can run without a failure, report, and be heard: then the row is in the
  // phase that the request leads to.
  lemma CanBeCarriedThrough(w: World, st: Step, i: nat, plan: Plan) returns (steps: seq<Step>, v: World)
    requires Reached(w) && Possible(w, st) && TemplateOf(st).Some?
    requires var t, u := w.table, Next(w, st).table;
      && i < |u.rows| && u.rows[i].Live()
      && u.flights == t.flights + [Flight(u.rows[i].namespace, u.rows[i].uid, plan.action, u.rows[i].id)]
      && PhaseFor(plan.action) == plan.reported
    ensures RunsFrom(Next(w, st), steps, v)
    ensures i < |v.table.rows| && v.table.rows[i] == Next(w, st).table.rows[i].(phase := plan.reported)
  {
    hide Inv, RunsFrom, Reached, New, Act, Retry, CanStillPost, Lifecycle;
    ReachedInv(w);
    StepKeeps(w, st);
    var u := Next(w, st);
    var f := |w.runs|;
    LaunchedRun(w, st);
    StartsReady(u.runs[f], TemplateOf(st).value, plan.action);
    steps, v := WorkflowReports(u, f, i);
  }

  lemma LaunchedRun(w: World, st: Step)
    requires Inv(w) && Possible(w, st) && TemplateOf(st).Some?
    requires |Next(w, st).table.flights| == |w.table.flights| + 1
    ensures |w.runs| == |w.table.flights| && |Next(w, st).runs| == |w.runs| + 1
    ensures Next(w, st).runs[|w.runs|] ==
      FirstState(TemplateOf(st).value, Next(w, st).table.flights[|w.table.flights|].action)
  {
    hide TableInv, New, Act, Retry, MessageFits, Behind, Lifecycle;
  }

  function FirstState(template: Template, action: WorkspaceAction): Run {
    var f := Compiled(template.postExecution, template.claims, action);
    Run(f, Initial(f), Call(0, false), NotYet)
  }

  lemma StartsReady(r: Run, template: Template, action: WorkspaceAction)
    requires r == FirstState(template, action)
    ensures CanStillPost(r)
  {
  }

  function ReplyTo(t: Table, st: Step): Reply
    requires TemplateOf(st).Some?
  {
    match st
    case CreateStep(ns, uid, parameters, now, fault, _) => New(t, ns, uid, parameters, now, fault)
    case ActStep(ns, uid, op, parameters, now, fault, _) => Act(t, ns, uid, op, parameters, now, fault)
    case RetryStep(ns, uid, now, fault, _) => Retry(t, ns, uid, now, fault)
  }

  function PlanOfStep(t: Table, st: Step): Option<Plan> {
    match st
    case CreateStep(_, _, _, _, _, _) => Some(LAUNCH)
    case ActStep(_, _, op, _, _, _, _) => Some(PlanOf(op))
    case RetryStep(ns, uid, _, _, _) =>
      var w := Get(t.rows, ns, uid);
      if w.Some? then PlanOfRetry(w.value.phase) else None
    case _ => None
  }

  // So every accepted request of any kind, made in any reachable state, puts a row of its name into the
  // phase under way, and can be carried through to the phase it leads to.
  lemma AcceptedCanSucceed(w: World, st: Step) returns (i: nat, steps: seq<Step>, v: World)
    requires Reached(w) && Possible(w, st) && TemplateOf(st).Some? && ReplyTo(w.table, st).result.Ok?
    ensures PlanOfStep(w.table, st).Some?
    ensures var plan, u := PlanOfStep(w.table, st).value, Next(w, st);
      && i < |u.table.rows| && u.table.rows[i].Matches(st.ns, st.uid) && u.table.rows[i].phase == plan.inHand
      && RunsFrom(u, steps, v)
      && i < |v.table.rows| && v.table.rows[i] == u.table.rows[i].(phase := plan.reported)
  {
    hide Inv, RunsFrom, Reached, New, Act, Retry, TableInv, Stamped, Overlays, OneRowTouched;
    ReachedTable(w);
    match st {
      case CreateStep(ns, uid, parameters, now, fault, _) =>
        AcceptedCreate(w.table, ns, uid, parameters, now, fault);
        i := |w.table.rows|;
      case ActStep(ns, uid, op, parameters, now, fault, _) =>
        i := AcceptedAct(w.table, ns, uid, op, parameters, now, fault);
      case RetryStep(ns, uid, now, fault, _) =>
        i := AcceptedRetry(w.table, ns, uid, now, fault);
    }
    steps, v := CanBeCarriedThrough(w, st, i, PlanOfStep(w.table, st).value);
  }

  // ----- no row reaches a phase that nobody asked for

  // The request asks for that action on a workspace of that name.
  predicate Asks(st: Step, ns: string, uid: string, a: WorkspaceAction) {
    match st
    case CreateStep(n, u, _, _, _, _) => n == ns && u == uid && a == Create
    case ActStep(n, u, UpdateOp, _, _, _, _) => n == ns && u == uid && a == Update
    case ActStep(n, u, PauseOp, _, _, _, _) => n == ns && u == uid && a == Pause
    case ActStep(n, u, ResumeOp, _, _, _, _) => n == ns && u == uid && a == Create
    case ActStep(n, u, DeleteOp, _, _, _, _) => n == ns && u == uid && a == Delete
    case _ => false
  }

  ghost predicate Asked(steps: seq<Step>, ns: string, uid: string, a: WorkspaceAction) {
    exists k :: 0 <= k < |steps| && Asks(steps[k], ns, uid, a)
  }

  // the phases of a row for which the action is under way or has failed
  function UnderWay(a: WorkspaceAction): set<Phase> {
    match a
    case Create => {Launching, FailedToLaunch}
    case Update => {Updating, FailedToUpdate}
    case Pause => {Pausing, FailedToPause}
    case Delete => {Terminating, FailedToTerminate}
  }

  ghost predicate UnderWayIn(t: Table, ns: string, uid: string, a: WorkspaceAction) {
    exists j :: 0 <= j < |t.rows| && t.rows[j].namespace == ns && t.rows[j].uid == uid && t.rows[j].phase in UnderWay(a)
  }

  // A step from t to u that asks for what `st` asks launches no other workflow, and brings no row
  // under way, unless the action was under way for this name before.
  ghost predicate FlightGrounded(t: Table, st: Step, fl: Flight) {
    Asks(st, fl.namespace, fl.uid, fl.action) || UnderWayIn(t, fl.namespace, fl.uid, fl.action)
  }

  ghost predicate RowGrounded(t: Table, st: Step, r: Row) {
    forall a :: r.phase in UnderWay(a) ==> Asks(st, r.namespace, r.uid, a) || UnderWayIn(t, r.namespace, r.uid, a)
  }

  ghost predicate Grounded(t: Table, u: Table, st: Step) {
    && t.flights <= u.flights
    && (forall f :: |t.flights| <= f < |u.flights| ==> FlightGrounded(t, st, u.flights[f]))
    && forall i :: 0 <= i < |u.rows| ==> RowGrounded(t, st, u.rows[i])
  }

  lemma KeptGrounded(t: Table, st: Step, i: nat)
    requires i < |t.rows|
    ensures RowGrounded(t, st, t.rows[i])
  {
  }

  lemma ActGrounded(t: Table, st: Step)
    requires TableInv(t) && st.ActStep?
    ensures Grounded(t, Act(t, st.ns, st.uid, st.op, st.parameters, st.now, st.fault).table, st)
  {
    hide TableInv, Merge, Find, UnderWayIn;
    var u := Act(t, st.ns, st.uid, st.op, st.parameters, st.now, st.fault).table;
    forall i | 0 <= i < |u.rows|
      ensures RowGrounded(t, st, u.rows[i])
    {
      KeptGrounded(t, st, i);
    }
  }

  lemma CreateGrounded(t: Table, st: Step)
    requires st.CreateStep?
    ensures Grounded(t, New(t, st.ns, st.uid, st.parameters, st.now, st.fault).table, st)
  {
    hide Find, UnderWayIn;
    var u := New(t, st.ns, st.uid, st.parameters, st.now, st.fault).table;
    forall i | 0 <= i < |u.rows|
      ensures RowGrounded(t, st, u.rows[i])
    {
      if i < |t.rows| { KeptGrounded(t, st, i); }
    }
  }

  lemma Regrounded(t: Table, u: Table, st: Step, like: Step)
    requires Grounded(t, u, like)
    requires forall ns, uid, a :: Asks(like, ns, uid, a) ==> UnderWayIn(t, ns, uid, a)
    ensures Grounded(t, u, st)
  {
    hide Asks, UnderWayIn;
    forall i | 0 <= i < |u.rows|
      ensures RowGrounded(t, st, u.rows[i])
    {
      assert RowGrounded(t, like, u.rows[i]);
    }
    forall f | |t.flights| <= f < |u.flights|
      ensures FlightGrounded(t, st, u.flights[f])
    {
      assert FlightGrounded(t, like, u.flights[f]);
    }
  }

  lemma UnchangedGrounded(t: Table, st: Step)
    ensures Grounded(t, t, st)
  {
    hide UnderWayIn;
    forall i | 0 <= i < |t.rows|
      ensures RowGrounded(t, st, t.rows[i])
    {
      KeptGrounded(t, st, i);
    }
  }

  lemma RestartGrounded(t: Table, st: Step, i: nat, now: nat, fault: Fault)
    requires TableInv(t) && i < |t.rows| && t.rows[i].phase == FailedToLaunch
    ensures Grounded(t, Start(t, t.rows[i], now, fault).table, st)
  {
    hide TableInv, UnderWayIn, Start;
    var u := Start(t, t.rows[i], now, fault).table;
    IdIsOf(t, i);
    StartWrites(t, i, now, fault);
    assert UnderWayIn(t, t.rows[i].namespace, t.rows[i].uid, Create) by { RowUnderWay(t, i, Create); }
    forall j | 0 <= j < |u.rows|
      ensures RowGrounded(t, st, u.rows[j])
    {
      KeptGrounded(t, st, j);
    }
  }

  lemma RowUnderWay(t: Table, i: nat, a: WorkspaceAction)
    requires i < |t.rows| && t.rows[i].phase in UnderWay(a)
    ensures UnderWayIn(t, t.rows[i].namespace, t.rows[i].uid, a)
  {
  }

  lemma IdIsOf(t: Table, i: nat)
    requires TableInv(t) && i < |t.rows|
    ensures forall j :: 0 <= j < |t.rows| && t.rows[j].id == t.rows[i].id ==> j == i
  {
  }

  lemma StartWrites(t: Table, i: nat, now: nat, fault: Fault)
    requires i < |t.rows|
    requires forall j :: 0 <= j < |t.rows| && t.rows[j].id == t.rows[i].id ==> j == i
    ensures var u, w := Start(t, t.rows[i], now, fault).table, t.rows[i];
      && |u.rows| == |t.rows| && t.flights <= u.flights
      && (forall j :: 0 <= j < |t.rows| && j != i ==> u.rows[j] == t.rows[j])
      && (u.rows[i] == w || u.rows[i] == w.(phase := Launching, startedAt := Some(now)))
      && (u.flights == t.flights || u.flights == t.flights + [Flight(w.namespace, w.uid, Create, w.id)])
  {
  }

  lemma RetryGrounded(t: Table, st: Step)
    requires TableInv(t) && st.RetryStep?
    ensures Grounded(t, Retry(t, st.ns, st.uid, st.now, st.fault).table, st)
  {
    hide TableInv, Act, Start, Grounded, UnderWayIn;
    var i := Find(t.rows, st.ns, st.uid);
    UnchangedGrounded(t, st);
    if i < |t.rows| {
      RowAt(t, i);
      var w := t.rows[i];
      match w.phase
      case FailedToLaunch => RestartGrounded(t, st, i, st.now, st.fault);
      case FailedToPause => RetriedGrounded(t, st, i, PauseOp, Pause, []);
      case FailedToTerminate => RetriedGrounded(t, st, i, DeleteOp, Delete, []);
      case FailedToUpdate => RetriedGrounded(t, st, i, UpdateOp, Update, w.parameters);
      case _ =>
    }
  }

  lemma RetriedGrounded(t: Table, st: Step, i: nat, op: Operation, a: WorkspaceAction, request: seq<Parameter>)
    requires TableInv(t) && st.RetryStep? && i < |t.rows| && t.rows[i].Matches(st.ns, st.uid)
    requires t.rows[i].phase in UnderWay(a) && (op, a) in {(PauseOp, Pause), (DeleteOp, Delete), (UpdateOp, Update)}
    ensures Grounded(t, Act(t, st.ns, st.uid, op, request, st.now, st.fault).table, st)
  {
    hide TableInv, Act, Grounded, UnderWayIn;
    var like := ActStep(st.ns, st.uid, op, request, st.now, st.fault, st.template);
    ActGrounded(t, like);
    RowUnderWay(t, i, a);
    Regrounded(t, Act(t, st.ns, st.uid, op, request, st.now, st.fault).table, st, like);
  }

  // A callback reports the end of an action, or the failure of one that was under way.
  lemma CallbackGrounded(t: Table, st: Step, ns: string, uid: string, phase: Phase, now: nat)
    requires phase in {Running, Paused, Terminated, WorkflowSucceeded, WorkflowFailed, WorkflowError}
    requires OneLivePerKey(t.rows)
    ensures Grounded(t, Callback(t, ns, uid, phase, now).table, st)
  {
    hide OneLivePerKey, UnderWayIn, WithStatus;
    UnchangedGrounded(t, st);
    var u := Callback(t, ns, uid, phase, now).table;
    forall j | 0 <= j < |u.rows|
      ensures RowGrounded(t, st, u.rows[j])
    {
      KeptGrounded(t, st, j);
      CallbackRowGrounded(t, st, ns, uid, phase, now, j);
    }
  }

  lemma CallbackRowGrounded(t: Table, st: Step, ns: string, uid: string, phase: Phase, now: nat, j: nat)
    requires phase in {Running, Paused, Terminated, WorkflowSucceeded, WorkflowFailed, WorkflowError}
    requires OneLivePerKey(t.rows) && j < |t.rows|
    ensures var u := Callback(t, ns, uid, phase, now).table;
      |u.rows| == |t.rows| && u.flights == t.flights && RowGrounded(t, st, u.rows[j])
  {
    hide UnderWayIn, UnderWay, WithStatus, FailurePhase, Find;
    KeptGrounded(t, st, j);
    if t.rows[j].Matches(ns, uid) {
      FindIs(t.rows, ns, uid, j);
      var r := t.rows[j];
      var p := if phase in {WorkflowFailed, WorkflowError} then FailurePhase(r, phase) else phase;
      ReportedRow(r, phase, now);
      forall a | WithStatus(r, p, now).phase in UnderWay(a)
        ensures UnderWayIn(t, ns, uid, a)
      {
        RowUnderWay(t, j, a);
      }
    }
  }

  lemma ReportedRow(r: Row, phase: Phase, now: nat)
    requires phase in {Running, Paused, Terminated, WorkflowSucceeded, WorkflowFailed, WorkflowError}
    ensures var p := if phase in {WorkflowFailed, WorkflowError} then FailurePhase(r, phase) else phase;
      var s := WithStatus(r, p, now);
      && SameKey(r, s)
      && forall a :: s.phase in UnderWay(a) ==> r.phase in UnderWay(a)
  {
  }

  lemma StepGrounded(w: World, st: Step)
    requires Inv(w) && Possible(w, st)
    ensures Grounded(w.table, Next(w, st).table, st)
  {
    hide TableInv, RunsFit, Behind, New, Act, Retry, Callback, Grounded, Apply, Enabled, WithLaunched, Acknowledged,
         Complete, Clean;
    UnchangedGrounded(w.table, st);
    match st
    case CreateStep(_, _, _, _, _, _) => CreateGrounded(w.table, st);
    case ActStep(_, _, _, _, _, _, _) => ActGrounded(w.table, st);
    case RetryStep(_, _, _, _, _) => RetryGrounded(w.table, st);
    case DeliverStep(m, now, heard) =>
      assert MessageFits(w, m);
      var fl := w.table.flights[m.flight];
      InvOneLive(w.table);
      CallbackGrounded(w.table, st, fl.namespace, fl.uid, m.phase, now);
    case _ =>
  }

  ghost predicate RowAsked(steps: seq<Step>, r: Row) {
    forall a :: r.phase in UnderWay(a) ==> Asked(steps, r.namespace, r.uid, a)
  }

  ghost predicate AllAsked(steps: seq<Step>, t: Table) {
    && (forall f :: 0 <= f < |t.flights| ==>
          Asked(steps, t.flights[f].namespace, t.flights[f].uid, t.flights[f].action))
    && forall i :: 0 <= i < |t.rows| ==> RowAsked(steps, t.rows[i])
  }

  lemma StaysAsked(steps: seq<Step>, st: Step, ns: string, uid: string, a: WorkspaceAction)
    ensures Asked(steps, ns, uid, a) || Asks(st, ns, uid, a) ==> Asked(steps + [st], ns, uid, a)
  {
    hide Asks;
    var all := steps + [st];
    if k :| 0 <= k < |steps| && Asks(steps[k], ns, uid, a) { assert Asks(all[k], ns, uid, a); }
    if Asks(st, ns, uid, a) { assert Asks(all[|steps|], ns, uid, a); }
  }

  lemma UnderWayWasAsked(steps: seq<Step>, t: Table, ns: string, uid: string, a: WorkspaceAction)
    requires AllAsked(steps, t) && UnderWayIn(t, ns, uid, a)
    ensures Asked(steps, ns, uid, a)
  {
    hide Asked, UnderWay;
    var j :| 0 <= j < |t.rows| && t.rows[j].namespace == ns && t.rows[j].uid == uid && t.rows[j].phase in UnderWay(a);
    assert RowAsked(steps, t.rows[j]);
  }

  lemma StepAsked(steps: seq<Step>, t: Table, u: Table, st: Step)
    requires AllAsked(steps, t) && Grounded(t, u, st)
    ensures AllAsked(steps + [st], u)
  {
    hide Asks, Asked, UnderWayIn, UnderWay;
    forall ns, uid, a | Asks(st, ns, uid, a) || UnderWayIn(t, ns, uid, a)
      ensures Asked(steps + [st], ns, uid, a)
    {
      if UnderWayIn(t, ns, uid, a) { UnderWayWasAsked(steps, t, ns, uid, a); }
      StaysAsked(steps, st, ns, uid, a);
    }
    forall i | 0 <= i < |u.rows|
      ensures RowAsked(steps + [st], u.rows[i])
    {
      assert RowGrounded(t, st, u.rows[i]);
    }
    forall f | 0 <= f < |u.flights|
      ensures Asked(steps + [st], u.flights[f].namespace, u.flights[f].uid, u.flights[f].action)
    {
      if f < |t.flights| {
        assert u.flights[f] == t.flights[f];
        StaysAsked(steps, st, u.flights[f].namespace, u.flights[f].uid, u.flights[f].action);
      } else {
        assert FlightGrounded(t, st, u.flights[f]);
      }
    }
  }

  lemma {:induction false} RunAsked(steps: seq<Step>, w: World)
    requires RunsFrom(INITIAL, steps, w)
    ensures AllAsked(steps, w.table)
    decreases |steps|
  {
    hide Inv, Next, Possible, AllAsked, Grounded;
    if steps == [] {
      assert AllAsked(steps, w.table) by { NothingAsked(); }
    } else {
      var n := |steps| - 1;
      var u :| RunsFrom(INITIAL, steps[..n], u) && Possible(u, steps[n]) && w == Next(u, steps[n]);
      assert Reached(u);
      ReachedInv(u);
      RunAsked(steps[..n], u);
      StepGrounded(u, steps[n]);
      StepAsked(steps[..n], u.table, w.table, steps[n]);
      assert steps[..n] + [steps[n]] == steps;
    }
  }

  lemma NothingAsked()
    ensures AllAsked([], INITIAL.table)
  {
  }

  // Over every run: a row is Terminated only if someone asked to delete a workspace of that name,
  // Paused only if someone asked to pause one, Running only if someone asked to create, resume or
  // update one; and no workflow is launched for an action that nobody asked for.
  lemma NothingUnasked(steps: seq<Step>, w: World, i: nat)
    requires RunsFrom(INITIAL, steps, w) && i < |w.table.rows|
    ensures var r := w.table.rows[i];
      && (r.phase == Terminated ==> Asked(steps, r.namespace, r.uid, Delete))
      && (r.phase == Paused ==> Asked(steps, r.namespace, r.uid, Pause))
      && (r.phase == Running ==> Asked(steps, r.namespace, r.uid, Create) || Asked(steps, r.namespace, r.uid, Update))
      && RowAsked(steps, r)
    ensures forall f :: 0 <= f < |w.table.flights| ==>
      Asked(steps, w.table.flights[f].namespace, w.table.flights[f].uid, w.table.flights[f].action)
  {
    hide Asked, RunsFrom, ChainSucceeded;
    RunAsked(steps, w);
    if w.table.rows[i].phase in {Running, Paused, Terminated} {
      var f := ReportedOnlyAfterChain(w, i);
    }
  }
}
