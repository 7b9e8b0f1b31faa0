/**
 The workspaces table and the handlers that read and write it. Each handler is one atomic step; it
 may be refused before it launches a workflow, and its database write may fail after the launch.
 */
module WorkspaceStore {
  import opened Wrappers
  import opened WorkspaceTypes
  import opened Parameters

  datatype Row = Row(
    id: nat,
    namespace: string,
    uid: string,
    phase: Phase,
    startedAt: Option<nat>,
    pausedAt: Option<nat>,
    updatedAt: Option<nat>,
    terminatedAt: Option<nat>,
    parameters: seq<Parameter>)
  {
    predicate Live() { phase != Terminated }
    // what the WHERE clause of a status update selects
    predicate Matches(ns: string, u: string) { namespace == ns && uid == u && Live() }
  }

  // A workflow that was launched for a row.
  datatype Flight = Flight(namespace: string, uid: string, action: WorkspaceAction, row: nat)

  datatype Table = Table(rows: seq<Row>, nextId: nat, flights: seq<Flight>)

  datatype Fault = Works | Refused | WriteFails

  datatype Reply = Reply(result: Outcome<()>, table: Table)

  datatype Operation = UpdateOp | PauseOp | ResumeOp | DeleteOp
  {
    function Action(): WorkspaceAction {
      match this
      case UpdateOp => Update
      case PauseOp => Pause
      case ResumeOp => Create
      case DeleteOp => Delete
    }
    function Target(): Phase {
      match this
      case UpdateOp => Updating
      case PauseOp => Pausing
      case ResumeOp => Launching
      case DeleteOp => Terminating
    }
    // the strings that the callers of updateWorkspace hand to it
    function ActionName(): string {
      match this
      case UpdateOp => "update"
      case PauseOp => "pause"
      case ResumeOp => "create"
      case DeleteOp => "delete"
    }
    function ResourceAction(): string {
      match this
      case UpdateOp => "apply"
      case PauseOp => "delete"
      case ResumeOp => "apply"
      case DeleteOp => "delete"
    }
  }

  // what the When guards of a workflow make of its parameter sys-workspace-action
  function ActionNamed(parameters: seq<Parameter>): Option<WorkspaceAction> {
    match Lookup(parameters, "sys-workspace-action")
    case Some(Some("create")) => Some(Create)
    case Some(Some("update")) => Some(Update)
    case Some(Some("pause")) => Some(Pause)
    case Some(Some("delete")) => Some(Delete)
    case _ => None
  }

  lemma OperationIsNamed(op: Operation, parameters: seq<Parameter>)
    requires Lookup(parameters, "sys-workspace-action") == Some(Some(op.ActionName()))
    ensures ActionNamed(parameters) == Some(op.Action())
  {
  }

  // ----- reads and updates of the table

  // workspaceStatusToFieldMap applied to a row
  function WithStatus(r: Row, phase: Phase, now: nat): Row {
    var s := r.(phase := phase);
    match phase
    case Launching => s.(pausedAt := None, startedAt := Some(now))
    case Pausing => s.(startedAt := None, pausedAt := Some(now))
    case Updating => s.(pausedAt := None, updatedAt := Some(now))
    case Terminating => s.(startedAt := None, pausedAt := None, terminatedAt := Some(now))
    case _ => s
  }

  function Written(r: Row, phase: Phase, now: nat, parameters: Option<seq<Parameter>>): Row {
    var s := WithStatus(r, phase, now);
    if parameters.Some? then s.(parameters := parameters.value) else s
  }

  function SetStatus(rows: seq<Row>, ns: string, uid: string, phase: Phase, now: nat,
      parameters: Option<seq<Parameter>>): (r: seq<Row>)
    ensures |r| == |rows|
    ensures forall i :: 0 <= i < |rows| ==>
      r[i] == if rows[i].Matches(ns, uid)
              then Written(rows[i], phase, now, parameters)
              else rows[i]
  {
    seq(|rows|, i requires 0 <= i < |rows| =>
      if rows[i].Matches(ns, uid)
      then Written(rows[i], phase, now, parameters)
      else rows[i])
  }

  // The index of the first live workspace of that name, or the length.
  function Find(rows: seq<Row>, ns: string, uid: string): (i: nat)
    ensures i <= |rows|
    ensures i < |rows| ==> rows[i].Matches(ns, uid)
    ensures forall j :: 0 <= j < i ==> !rows[j].Matches(ns, uid)
  {
    if rows == [] || rows[0].Matches(ns, uid) then 0
    else
      var i := 1 + Find(rows[1..], ns, uid);
      assert forall j :: 0 < j < i ==> rows[j] == rows[1..][j - 1];
      i
  }

  // GetWorkspace
  function Get(rows: seq<Row>, ns: string, uid: string): Option<Row> {
    var i := Find(rows, ns, uid);
    if i < |rows| then Some(rows[i]) else None
  }

  // startWorkspace writes by id, whatever the phase, and leaves paused_at alone
  function StartById(rows: seq<Row>, id: nat, now: nat): (r: seq<Row>)
    ensures |r| == |rows|
    ensures forall i :: 0 <= i < |rows| ==>
      r[i] == if rows[i].id == id then rows[i].(phase := Launching, startedAt := Some(now)) else rows[i]
  {
    seq(|rows|, i requires 0 <= i < |rows| =>
      if rows[i].id == id then rows[i].(phase := Launching, startedAt := Some(now)) else rows[i])
  }

  // ----- what each handler does

  // the phase stored for a workflow that failed
  function FailurePhase(r: Row, reported: Phase): Phase {
    if r.phase == Launching && r.pausedAt == None then FailedToLaunch
    else if r.phase == Launching then FailedToResume
    else if r.phase == Pausing then FailedToPause
    else if r.phase == Terminating then FailedToTerminate
    else if r.phase == Updating then FailedToUpdate
    else reported
  }

  // UpdateWorkspaceStatus
  function Callback(t: Table, ns: string, uid: string, phase: Phase, now: nat): Reply {
    if phase == WorkflowSucceeded then Reply(Ok(()), t)
    else
      var w := Get(t.rows, ns, uid);
      if phase in {WorkflowFailed, WorkflowError} && w.None? then Reply(Failed(NilDereference), t)
      else
        var p := if phase in {WorkflowFailed, WorkflowError} then FailurePhase(w.value, phase) else phase;
        Reply(if w.None? then Failed(UserError("Workspace not found.")) else Ok(()),
              t.(rows := SetStatus(t.rows, ns, uid, p, now, None)))
  }

  function Launch(t: Table, ns: string, uid: string, action: WorkspaceAction, row: nat): Table {
    t.(flights := t.flights + [Flight(ns, uid, action, row)])
  }

  // updateWorkspace, for any of its callers
  function Act(t: Table, ns: string, uid: string, op: Operation, request: seq<Parameter>, now: nat,
      fault: Fault): Reply {
    var w := Get(t.rows, ns, uid);
    if w.None? then Reply(Failed(UserError("Workspace not found.")), t)
    else if fault == Refused then Reply(Failed(BackendError), t)
    else
      var u := Launch(t, ns, uid, op.Action(), w.value.id);
      if fault == WriteFails then Reply(Failed(BackendError), u)
      else
        var parameters := if request == [] then None else Some(Merge(w.value.parameters, request));
        Reply(Ok(()), u.(rows := SetStatus(u.rows, ns, uid, op.Target(), now, parameters)))
  }

  // CreateWorkspace
  function New(t: Table, ns: string, uid: string, parameters: seq<Parameter>, now: nat, fault: Fault): Reply {
    if Get(t.rows, ns, uid).Some? then Reply(Failed(UserError("Workspace already exists.")), t)
    else if fault == Refused then Reply(Failed(BackendError), t)
    else
      var u := Launch(t, ns, uid, Create, t.nextId);
      if fault == WriteFails then Reply(Failed(BackendError), u)
      else
        Reply(Ok(()), u.(nextId := u.nextId + 1,
                         rows := u.rows + [Row(t.nextId, ns, uid, Launching, Some(now), None, None, None, parameters)]))
  }

  // StartWorkspace for a workspace that was read before
  function Start(t: Table, w: Row, now: nat, fault: Fault): Reply {
    if w.id != 0 && w.phase != FailedToLaunch then Reply(Failed(UserError("unable to start")), t)
    else if fault == Refused then Reply(Failed(BackendError), t)
    else
      var u := Launch(t, w.namespace, w.uid, Create, w.id);
      if fault == WriteFails then Reply(Failed(BackendError), u)
      else Reply(Ok(()), u.(rows := StartById(u.rows, w.id, now)))
  }

  // RetryLastWorkspaceAction
  function Retry(t: Table, ns: string, uid: string, now: nat, fault: Fault): Reply {
    var w := Get(t.rows, ns, uid);
    if w.None? then Reply(Failed(UserError("workspace not found")), t)
    else
      match w.value.phase
      case FailedToLaunch => Start(t, w.value, now, fault)
      case FailedToPause => Act(t, ns, uid, PauseOp, [], now, fault)
      case FailedToResume => Act(t, ns, uid, ResumeOp, w.value.parameters, now, fault)
      case FailedToTerminate => Act(t, ns, uid, DeleteOp, [], now, fault)
      case FailedToUpdate => Act(t, ns, uid, UpdateOp, w.value.parameters, now, fault)
      case _ => Reply(Failed(UserError("Workspace is not in a failed state")), t)
  }

  // ----- what the launched workflow is handed

  function HandedByAct(w: Row, op: Operation, request: seq<Parameter>, host: string): seq<Parameter> {
    ForWorkflow(w.parameters, request, w.uid, SystemParameters(op.ActionName(), op.ResourceAction(), host))
  }

  function HandedByLaunch(uid: string, parameters: seq<Parameter>, host: string): seq<Parameter> {
    ForLaunch(parameters, uid, SystemParameters("create", "apply", host))
  }

  function HandedByRetry(w: Row, host: string): seq<Parameter> {
    match w.phase
    case FailedToPause => HandedByAct(w, PauseOp, [], host)
    case FailedToResume => HandedByAct(w, ResumeOp, w.parameters, host)
    case FailedToTerminate => HandedByAct(w, DeleteOp, [], host)
    case FailedToUpdate => HandedByAct(w, UpdateOp, w.parameters, host)
    case _ => HandedByLaunch(w.uid, w.parameters, host)
  }

  // The two system parameters that steer a workflow, operation by operation.
  ghost predicate Steers(op: Operation, ps: seq<Parameter>, host: string) {
    match op
    case UpdateOp => SystemValues(ps, "update", "apply", host)
    case PauseOp => SystemValues(ps, "pause", "delete", host)
    case ResumeOp => SystemValues(ps, "create", "apply", host)
    case DeleteOp => SystemValues(ps, "delete", "delete", host)
  }

  // Whatever is stored or requested, the workflow is steered as the operation says.
  lemma HandedSteers(w: Row, op: Operation, request: seq<Parameter>, host: string)
    ensures Steers(op, HandedByAct(w, op, request, host), host)
    ensures ActionNamed(HandedByAct(w, op, request, host)) == Some(op.Action())
    ensures SystemValues(HandedByLaunch(w.uid, request, host), "create", "apply", host)
  {
    hide Merge, Lookup, SystemParameters;
    var own := Merge(w.parameters, request) + [Parameter(SYS_UID, Some(w.uid))];
    InjectedValues(own, [], op.ActionName(), op.ResourceAction(), host);
    var all := HandedByAct(w, op, request, host);
    assert all + [] == all;
    OperationIsNamed(op, all);
    InjectedValues(request, [Parameter(SYS_UID, Some(w.uid))], "create", "apply", host);
  }

  // A retry steers its workflow as the operation that failed did.
  lemma RetrySteers(w: Row, host: string)
    ensures match w.phase
      case FailedToPause => Steers(PauseOp, HandedByRetry(w, host), host)
      case FailedToResume => Steers(ResumeOp, HandedByRetry(w, host), host)
      case FailedToTerminate => Steers(DeleteOp, HandedByRetry(w, host), host)
      case FailedToUpdate => Steers(UpdateOp, HandedByRetry(w, host), host)
      case _ => SystemValues(HandedByRetry(w, host), "create", "apply", host)
  {
    hide Steers, SystemValues, HandedByAct, HandedByLaunch;
    HandedSteers(w, PauseOp, [], host);
    HandedSteers(w, ResumeOp, w.parameters, host);
    HandedSteers(w, DeleteOp, [], host);
    HandedSteers(w, UpdateOp, w.parameters, host);
  }

  // ----- the service: the same handlers, reading and writing the table in place

  class Service {
    var rows: seq<Row>
    var nextId: nat
    var flights: seq<Flight>
    // the parameters that each launched workflow was handed
    var handed: seq<seq<Parameter>>
    const domain: string

    constructor (domain: string)
      ensures View() == Table([], 1, []) && handed == []
    {
      rows, nextId, flights, handed := [], 1, [], [];
      this.domain := domain;
    }

    function Host(ns: string, uid: string): (host: string)
      ensures uid + "--" + ns <= host
    {
      uid + "--" + ns + "." + domain
    }

    ghost function View(): Table
      reads this
    {
      Table(rows, nextId, flights)
    }

    method GetWorkspace(ns: string, uid: string) returns (w: Option<Row>)
      ensures w == Get(rows, ns, uid)
    {
      var i := 0;
      while i < |rows|
        invariant 0 <= i <= |rows|
        invariant forall j :: 0 <= j < i ==> !rows[j].Matches(ns, uid)
      {
        if rows[i].Matches(ns, uid) {
          assert Find(rows, ns, uid) == i;
          return Some(rows[i]);
        }
        i := i + 1;
      }
      return None;
    }

    method UpdateWorkspaceStatus(ns: string, uid: string, reported: Phase, now: nat) returns (r: Outcome<()>)
      modifies this`rows
      ensures Reply(r, View()) == Callback(old(View()), ns, uid, reported, now)
    {
      if reported == WorkflowSucceeded {
        return Ok(());
      }
      var phase := reported;
      if phase == WorkflowFailed || phase == WorkflowError {
        var workspace := GetWorkspace(ns, uid);
        if workspace.None? {
          return Failed(NilDereference);
        }
        var w := workspace.value;
        if w.phase == Launching && w.pausedAt == None {
          phase := FailedToLaunch;
        } else if w.phase == Launching && w.pausedAt != None {
          phase := FailedToResume;
        } else if w.phase == Pausing {
          phase := FailedToPause;
        } else if w.phase == Terminating {
          phase := FailedToTerminate;
        } else if w.phase == Updating {
          phase := FailedToUpdate;
        }
      }
      var affected := Find(rows, ns, uid) < |rows|;
      rows := SetStatus(rows, ns, uid, phase, now, None);
      if !affected {
        return Failed(UserError("Workspace not found."));
      }
      return Ok(());
    }

    method UpdateWorkspace(ns: string, uid: string, op: Operation, request: seq<Parameter>, now: nat,
        fault: Fault) returns (r: Outcome<()>)
      modifies this`rows, this`flights, this`handed
      ensures Reply(r, View()) == Act(old(View()), ns, uid, op, request, now, fault)
      ensures var w := Get(old(rows), ns, uid);
        handed == old(handed) +
          if w.Some? && fault != Refused then [HandedByAct(w.value, op, request, Host(ns, uid))] else []
    {
      var workspace := GetWorkspace(ns, uid);
      if workspace.None? {
        return Failed(UserError("Workspace not found."));
      }
      var persisted, parameters := PrepareParameters(workspace.value.parameters, request, uid, op.ActionName(),
        op.ResourceAction(), Host(ns, uid));
      if fault == Refused {
        return Failed(BackendError);
      }
      OperationIsNamed(op, parameters);
      flights := flights + [Flight(ns, uid, ActionNamed(parameters).value, workspace.value.id)];
      handed := handed + [parameters];
      if fault == WriteFails {
        return Failed(BackendError);
      }
      rows := SetStatus(rows, ns, uid, op.Target(), now, if |request| != 0 then Some(persisted) else None);
      return Ok(());
    }

    method CreateWorkspace(ns: string, uid: string, parameters: seq<Parameter>, now: nat,
        fault: Fault) returns (r: Outcome<()>)
      modifies this
      ensures Reply(r, View()) == New(old(View()), ns, uid, parameters, now, fault)
      ensures handed == old(handed) +
        if Get(old(rows), ns, uid).None? && fault != Refused
        then [HandedByLaunch(uid, parameters, Host(ns, uid))]
        else []
    {
      var existing := GetWorkspace(ns, uid);
      if existing.Some? {
        return Failed(UserError("Workspace already exists."));
      }
      var prepared := PrepareLaunchParameters(parameters, uid, Host(ns, uid));
      if fault == Refused {
        return Failed(BackendError);
      }
      flights := flights + [Flight(ns, uid, ActionNamed(prepared.value.1).value, nextId)];
      handed := handed + [prepared.value.1];
      if fault == WriteFails {
        return Failed(BackendError);
      }
      rows := rows + [Row(nextId, ns, uid, Launching, Some(now), None, None, None, prepared.value.0)];
      nextId := nextId + 1;
      return Ok(());
    }

    method StartWorkspace(w: Row, now: nat, fault: Fault) returns (r: Outcome<()>)
      modifies this`rows, this`flights, this`handed
      ensures Reply(r, View()) == Start(old(View()), w, now, fault)
      ensures handed == old(handed) +
        if (w.id == 0 || w.phase == FailedToLaunch) && fault != Refused
        then [HandedByLaunch(w.uid, w.parameters, Host(w.namespace, w.uid))]
        else []
    {
      if w.id != 0 && w.phase != FailedToLaunch {
        return Failed(UserError("unable to start"));
      }
      var prepared := PrepareLaunchParameters(w.parameters, w.uid, Host(w.namespace, w.uid));
      if fault == Refused {
        return Failed(BackendError);
      }
      flights := flights + [Flight(w.namespace, w.uid, ActionNamed(prepared.value.1).value, w.id)];
      handed := handed + [prepared.value.1];
      if fault == WriteFails {
        return Failed(BackendError);
      }
      rows := StartById(rows, w.id, now);
      return Ok(());
    }

    method RetryLastWorkspaceAction(ns: string, uid: string, now: nat, fault: Fault) returns (r: Outcome<()>)
      modifies this`rows, this`flights, this`handed
      ensures Reply(r, View()) == Retry(old(View()), ns, uid, now, fault)
      ensures handed == old(handed) +
        if |flights| > |old(flights)| then [HandedByRetry(Get(old(rows), ns, uid).value, Host(ns, uid))] else []
    {
      hide Merge, ForWorkflow, ForLaunch, SystemParameters, SetStatus, StartById;
      var workspace := GetWorkspace(ns, uid);
      if workspace.None? {
        return Failed(UserError("workspace not found"));
      }
      match workspace.value.phase
      case FailedToLaunch => r := StartWorkspace(workspace.value, now, fault);
      case FailedToPause => r := UpdateWorkspace(ns, uid, PauseOp, [], now, fault);
      case FailedToResume => r := UpdateWorkspace(ns, uid, ResumeOp, workspace.value.parameters, now, fault);
      case FailedToTerminate => r := UpdateWorkspace(ns, uid, DeleteOp, [], now, fault);
      case FailedToUpdate => r := UpdateWorkspace(ns, uid, UpdateOp, workspace.value.parameters, now, fault);
      case _ => r := Failed(UserError("Workspace is not in a failed state"));
    }
  }
}
