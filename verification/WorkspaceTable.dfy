/**
 What every handler keeps of the workspaces table, whatever the table, the request and the fault, and
 whatever callback arrives.
 */
module WorkspaceTable {
  import opened Wrappers
  import opened WorkspaceTypes
  import opened Parameters
  import opened WorkspaceStore

  // ----- the invariant of the table

  predicate SameKey(r: Row, s: Row) { r.namespace == s.namespace && r.uid == s.uid }

  // What the two running timestamps say in each phase.
  predicate TimesFit(r: Row) {
    && !(r.startedAt.Some? && r.pausedAt.Some?)
    && (r.phase in {Launching, FailedToLaunch} ==> r.startedAt.Some? && r.pausedAt.None?)
    && (r.phase in {Pausing, FailedToPause} ==> r.startedAt.None? && r.pausedAt.Some?)
    && (r.phase in {Updating, FailedToUpdate} ==> r.pausedAt.None?)
    && (r.phase in {Terminating, FailedToTerminate} ==> r.terminatedAt.Some?)
    && r.phase != FailedToResume
    && r.phase != WorkflowSucceeded
  }

  ghost predicate OneLivePerKey(rows: seq<Row>) {
    forall i, j :: 0 <= i < j < |rows| && SameKey(rows[i], rows[j]) ==> !rows[i].Live() || !rows[j].Live()
  }

  ghost predicate DistinctIds(t: Table) {
    && (forall i, j :: 0 <= i < j < |t.rows| ==> t.rows[i].id != t.rows[j].id)
    && (forall i :: 0 <= i < |t.rows| ==> 0 < t.rows[i].id < t.nextId)
  }

  ghost predicate TableInv(t: Table) {
    && OneLivePerKey(t.rows)
    && 0 < t.nextId
    && DistinctIds(t)
    && forall i :: 0 <= i < |t.rows| ==> TimesFit(t.rows[i])
  }

  // ----- how a step may change the table

  // Rows stay where they are; a terminated row is final; terminated_at is never cleared.
  predicate RowKept(r: Row, s: Row) {
    && s.id == r.id && SameKey(r, s)
    && (!r.Live() ==> s == r)
    && (r.terminatedAt.Some? ==> s.terminatedAt.Some?)
  }

  ghost predicate Evolves(t: Table, u: Table) {
    && |t.rows| <= |u.rows|
    && (forall i :: 0 <= i < |t.rows| ==> RowKept(t.rows[i], u.rows[i]))
    && t.flights <= u.flights
  }

  // At most one row differs, new rows included.
  ghost predicate OneRowTouched(t: Table, u: Table) {
    && |t.rows| <= |u.rows| <= |t.rows| + 1
    && forall i, j :: 0 <= i < j < |u.rows| ==>
      (i < |t.rows| && u.rows[i] == t.rows[i]) || (j < |t.rows| && u.rows[j] == t.rows[j])
  }

  lemma FindIs(rows: seq<Row>, ns: string, uid: string, i: nat)
    requires OneLivePerKey(rows) && i < |rows| && rows[i].Matches(ns, uid)
    ensures Find(rows, ns, uid) == i
    ensures forall j :: 0 <= j < |rows| && rows[j].Matches(ns, uid) ==> j == i
  {
  }

  // A status update of a table with one live row per key writes that row and no other.
  lemma SetStatusIs(rows: seq<Row>, ns: string, uid: string, phase: Phase, now: nat,
      parameters: Option<seq<Parameter>>)
    requires OneLivePerKey(rows)
    ensures var i := Find(rows, ns, uid);
      var r := SetStatus(rows, ns, uid, phase, now, parameters);
      if i == |rows| then r == rows
      else r == rows[i := Written(rows[i], phase, now, parameters)]
  {
    var i := Find(rows, ns, uid);
    if i < |rows| { FindIs(rows, ns, uid, i); }
  }

  // Replacing one live row by one that fits keeps the invariant of the table.
  ghost predicate GoodRow(t: Table, i: nat, s: Row)
    requires i < |t.rows|
  {
    t.rows[i].Live() && RowKept(t.rows[i], s) && TimesFit(s)
  }

  lemma ReplaceRow(t: Table, i: nat, s: Row)
    requires TableInv(t) && i < |t.rows| && GoodRow(t, i, s)
    ensures var u := t.(rows := t.rows[i := s]);
      TableInv(u) && Evolves(t, u) && OneRowTouched(t, u)
  {
  }

  lemma LaunchKeeps(t: Table, ns: string, uid: string, action: WorkspaceAction, row: nat)
    requires TableInv(t)
    ensures var u := Launch(t, ns, uid, action, row);
      TableInv(u) && Evolves(t, u) && OneRowTouched(t, u) && u.rows == t.rows
  {
  }

  lemma EvolvesTransitive(t: Table, u: Table, v: Table)
    requires Evolves(t, u) && Evolves(u, v)
    ensures Evolves(t, v)
  {
    forall i | 0 <= i < |t.rows|
      ensures RowKept(t.rows[i], v.rows[i])
    {
      assert RowKept(t.rows[i], u.rows[i]) && RowKept(u.rows[i], v.rows[i]);
    }
  }

  // ----- the handlers keep the invariant

  lemma ActKeeps(t: Table, ns: string, uid: string, op: Operation, request: seq<Parameter>,
      now: nat, fault: Fault)
    requires TableInv(t)
    ensures var u := Act(t, ns, uid, op, request, now, fault).table;
      TableInv(u) && Evolves(t, u) && OneRowTouched(t, u)
  {
    hide TableInv, Merge;
    var i := Find(t.rows, ns, uid);
    if i < |t.rows| && fault != Refused {
      var w := t.rows[i];
      var u := Launch(t, ns, uid, op.Action(), w.id);
      LaunchKeeps(t, ns, uid, op.Action(), w.id);
      if fault == Works {
        var parameters := if request == [] then None else Some(Merge(w.parameters, request));
        WriteKeeps(u, i, ns, uid, op.Target(), now, parameters);
      }
    }
    NothingTouched(t);
  }

  lemma NothingTouched(t: Table)
    ensures Evolves(t, t) && OneRowTouched(t, t)
  {
  }

  // A write of an in-progress phase, as the requests make it.
  lemma WriteKeeps(t: Table, i: nat, ns: string, uid: string, phase: Phase, now: nat,
      parameters: Option<seq<Parameter>>)
    requires TableInv(t) && i == Find(t.rows, ns, uid) && i < |t.rows|
    requires phase in {Launching, Pausing, Updating, Terminating}
    ensures var u := t.(rows := SetStatus(t.rows, ns, uid, phase, now, parameters));
      TableInv(u) && Evolves(t, u) && OneRowTouched(t, u)
  {
    SetStatusIs(t.rows, ns, uid, phase, now, parameters);
    var s := WithStatus(t.rows[i], phase, now);
    var s' := if parameters.Some? then s.(parameters := parameters.value) else s;
    assert TimesFit(t.rows[i]);
    ReplaceRow(t, i, s');
  }

  lemma NewKeeps(t: Table, ns: string, uid: string, parameters: seq<Parameter>, now: nat,
      fault: Fault)
    requires TableInv(t)
    ensures var u := New(t, ns, uid, parameters, now, fault).table;
      TableInv(u) && Evolves(t, u) && OneRowTouched(t, u)
  {
    NothingTouched(t);
    LaunchKeeps(t, ns, uid, Create, t.nextId);
    if Find(t.rows, ns, uid) == |t.rows| && fault == Works {
      var u := Launch(t, ns, uid, Create, t.nextId);
      AppendKeeps(u, Row(t.nextId, ns, uid, Launching, Some(now), None, None, None, parameters));
    }
  }

  lemma AppendKeeps(t: Table, r: Row)
    requires TableInv(t) && r.id == t.nextId && TimesFit(r) && r.Live()
    requires forall i :: 0 <= i < |t.rows| ==> !t.rows[i].Matches(r.namespace, r.uid)
    ensures var u := t.(nextId := t.nextId + 1, rows := t.rows + [r]);
      TableInv(u) && Evolves(t, u) && OneRowTouched(t, u)
  {
  }

  // StartWorkspace writes by id; called with a row just read, the id selects exactly that row.
  lemma StartKeeps(t: Table, ns: string, uid: string, now: nat, fault: Fault)
    requires TableInv(t) && Get(t.rows, ns, uid).Some? && Get(t.rows, ns, uid).value.phase == FailedToLaunch
    ensures var w := Get(t.rows, ns, uid).value;
      var u := Start(t, w, now, fault).table;
      && TableInv(u) && Evolves(t, u) && OneRowTouched(t, u)
      && (fault == Works ==> u.rows == t.rows[Find(t.rows, ns, uid) := w.(phase := Launching, startedAt := Some(now))])
  {
    var i := Find(t.rows, ns, uid);
    var w := t.rows[i];
    LaunchKeeps(t, w.namespace, w.uid, Create, w.id);
    NothingTouched(t);
    var u := Launch(t, w.namespace, w.uid, Create, w.id);
    var s := w.(phase := Launching, startedAt := Some(now));
    assert TimesFit(w);
    ReplaceRow(u, i, s);
    assert StartById(u.rows, w.id, now) == u.rows[i := s];
  }

  lemma RetryKeeps(t: Table, ns: string, uid: string, now: nat, fault: Fault)
    requires TableInv(t)
    ensures var u := Retry(t, ns, uid, now, fault).table;
      TableInv(u) && Evolves(t, u) && OneRowTouched(t, u)
  {
    hide TableInv, Act, Start;
    NothingTouched(t);
    var w := Get(t.rows, ns, uid);
    if w.Some? {
      match w.value.phase
      case FailedToLaunch => StartKeeps(t, ns, uid, now, fault);
      case FailedToPause => ActKeeps(t, ns, uid, PauseOp, [], now, fault);
      case FailedToResume => ActKeeps(t, ns, uid, ResumeOp, w.value.parameters, now, fault);
      case FailedToTerminate => ActKeeps(t, ns, uid, DeleteOp, [], now, fault);
      case FailedToUpdate => ActKeeps(t, ns, uid, UpdateOp, w.value.parameters, now, fault);
      case _ =>
    }
  }

  lemma RowAt(t: Table, i: nat)
    requires TableInv(t) && i < |t.rows|
    ensures TimesFit(t.rows[i])
  {
  }

  // The row a callback writes.
  lemma CallbackRow(t: Table, i: nat, phase: Phase, now: nat)
    requires i < |t.rows| && t.rows[i].Live() && TimesFit(t.rows[i])
    requires phase in {Running, Paused, Terminated, WorkflowFailed, WorkflowError}
    ensures var p := if phase in {WorkflowFailed, WorkflowError} then FailurePhase(t.rows[i], phase) else phase;
      GoodRow(t, i, WithStatus(t.rows[i], p, now))
  {
  }

  // Stale or not, a callback with a phase that some workflow posts keeps the invariant.
  lemma CallbackKeeps(t: Table, ns: string, uid: string, phase: Phase, now: nat)
    requires TableInv(t)
    requires phase in {Running, Paused, Terminated, WorkflowSucceeded, WorkflowFailed, WorkflowError}
    ensures var u := Callback(t, ns, uid, phase, now).table;
      TableInv(u) && Evolves(t, u) && OneRowTouched(t, u) && u.flights == t.flights
  {
    NothingTouched(t);
    var i := Find(t.rows, ns, uid);
    if phase != WorkflowSucceeded {
      assert OneLivePerKey(t.rows);
      hide TableInv, Evolves, OneRowTouched, GoodRow, TimesFit, WithStatus, FailurePhase;
      if i < |t.rows| {
        var p := if phase in {WorkflowFailed, WorkflowError} then FailurePhase(t.rows[i], phase) else phase;
        SetStatusIs(t.rows, ns, uid, p, now, None);
        RowAt(t, i);
        CallbackRow(t, i, phase, now);
        ReplaceRow(t, i, WithStatus(t.rows[i], p, now));
      } else {
        SetStatusIs(t.rows, ns, uid, phase, now, None);
      }
    }
  }

  // ----- which rows may get a phase that workflows report

  predicate IsReported(p: Phase) { p in {Running, Paused, Terminated} }

  // Requests put no row into such a phase.
  ghost predicate NoneReported(t: Table, u: Table) {
    forall i :: 0 <= i < |u.rows| && IsReported(u.rows[i].phase) ==>
      i < |t.rows| && t.rows[i].phase == u.rows[i].phase
  }

  lemma RequestsReportNone(t: Table, ns: string, uid: string, op: Operation,
      request: seq<Parameter>, now: nat, fault: Fault)
    ensures NoneReported(t, New(t, ns, uid, request, now, fault).table)
    ensures NoneReported(t, Act(t, ns, uid, op, request, now, fault).table)
  {
    hide Merge, Find;
  }

  lemma RetryReportsNone(t: Table, ns: string, uid: string, now: nat, fault: Fault)
    ensures NoneReported(t, Retry(t, ns, uid, now, fault).table)
  {
    hide Merge, Find, Act;
    var w := Get(t.rows, ns, uid);
    if w.Some? {
      RequestsReportNone(t, ns, uid, PauseOp, [], now, fault);
      RequestsReportNone(t, ns, uid, ResumeOp, w.value.parameters, now, fault);
      RequestsReportNone(t, ns, uid, DeleteOp, [], now, fault);
      RequestsReportNone(t, ns, uid, UpdateOp, w.value.parameters, now, fault);
    }
  }

  // A callback puts rows of its own name only into such a phase, and only into the one it carries.
  lemma CallbackReports(t: Table, ns: string, uid: string, phase: Phase, now: nat, i: nat)
    requires i < |t.rows|
    ensures var u := Callback(t, ns, uid, phase, now).table;
      && |u.rows| == |t.rows|
      && (IsReported(u.rows[i].phase) && u.rows[i].phase != t.rows[i].phase ==>
            phase == u.rows[i].phase && t.rows[i].Matches(ns, uid))
  {
    hide Find;
  }

  // ----- when a row gets its terminated_at

  predicate HasTerminatedAt(rows: seq<Row>, i: nat) { i < |rows| && rows[i].terminatedAt.Some? }

  // A request whose delete is written gives it to the live rows of its name; no other does.
  lemma RequestsTerminatedAt(t: Table, ns: string, uid: string, op: Operation,
      request: seq<Parameter>, now: nat, fault: Fault, i: nat)
    ensures HasTerminatedAt(New(t, ns, uid, request, now, fault).table.rows, i) <==> HasTerminatedAt(t.rows, i)
    ensures HasTerminatedAt(Act(t, ns, uid, op, request, now, fault).table.rows, i) <==>
      || HasTerminatedAt(t.rows, i)
      || (i < |t.rows| && op == DeleteOp && fault == Works && t.rows[i].Matches(ns, uid))
  {
    hide Merge;
  }

  // A retried delete finds it there already.
  lemma RetryTerminatedAt(t: Table, ns: string, uid: string, now: nat, fault: Fault, i: nat)
    requires TableInv(t)
    ensures HasTerminatedAt(Retry(t, ns, uid, now, fault).table.rows, i) <==> HasTerminatedAt(t.rows, i)
  {
    hide Act, Start, TableInv, HasTerminatedAt, Find;
    var w := Get(t.rows, ns, uid);
    if w.Some? {
      match w.value.phase
      case FailedToLaunch => StartTerminatedAt(t, w.value, now, fault, i);
      case FailedToPause => RequestsTerminatedAt(t, ns, uid, PauseOp, [], now, fault, i);
      case FailedToResume => RequestsTerminatedAt(t, ns, uid, ResumeOp, w.value.parameters, now, fault, i);
      case FailedToTerminate =>
        FoundTerminatedAt(t, ns, uid, i);
        RequestsTerminatedAt(t, ns, uid, DeleteOp, [], now, fault, i);
      case FailedToUpdate => RequestsTerminatedAt(t, ns, uid, UpdateOp, w.value.parameters, now, fault, i);
      case _ =>
    }
  }

  lemma StartTerminatedAt(t: Table, w: Row, now: nat, fault: Fault, i: nat)
    ensures HasTerminatedAt(Start(t, w, now, fault).table.rows, i) <==> HasTerminatedAt(t.rows, i)
  {
  }

  lemma FoundTerminatedAt(t: Table, ns: string, uid: string, i: nat)
    requires TableInv(t) && Get(t.rows, ns, uid).Some? && Get(t.rows, ns, uid).value.phase == FailedToTerminate
    ensures i < |t.rows| && t.rows[i].Matches(ns, uid) ==> HasTerminatedAt(t.rows, i)
  {
    if i < |t.rows| && t.rows[i].Matches(ns, uid) {
      FindIs(t.rows, ns, uid, i);
      RowAt(t, i);
    }
  }

  lemma CallbackTerminatedAt(t: Table, ns: string, uid: string, phase: Phase, now: nat, i: nat)
    requires phase != Terminating
    ensures HasTerminatedAt(Callback(t, ns, uid, phase, now).table.rows, i) <==> HasTerminatedAt(t.rows, i)
  {
    hide Find;
  }

  // ----- what a launch records

  // At most one workflow is launched, and a delete is aimed at the live row of its name.
  ghost predicate OneLaunched(t: Table, u: Table) {
    && t.flights <= u.flights && |u.flights| <= |t.flights| + 1
    && (|u.flights| == |t.flights| + 1 && u.flights[|t.flights|].action == Delete ==>
          var fl := u.flights[|t.flights|];
          Get(t.rows, fl.namespace, fl.uid).Some? && Get(t.rows, fl.namespace, fl.uid).value.id == fl.row)
  }

  lemma RequestsLaunchOne(t: Table, ns: string, uid: string, op: Operation,
      request: seq<Parameter>, now: nat, fault: Fault)
    ensures OneLaunched(t, New(t, ns, uid, request, now, fault).table)
    ensures OneLaunched(t, Act(t, ns, uid, op, request, now, fault).table)
  {
    hide Merge, Find, SetStatus;
  }

  lemma RetryLaunchesOne(t: Table, ns: string, uid: string, now: nat, fault: Fault)
    ensures OneLaunched(t, Retry(t, ns, uid, now, fault).table)
  {
    hide Merge, Find, Act, StartById;
    var w := Get(t.rows, ns, uid);
    if w.Some? {
      RequestsLaunchOne(t, ns, uid, PauseOp, [], now, fault);
      RequestsLaunchOne(t, ns, uid, ResumeOp, w.value.parameters, now, fault);
      RequestsLaunchOne(t, ns, uid, DeleteOp, [], now, fault);
      RequestsLaunchOne(t, ns, uid, UpdateOp, w.value.parameters, now, fault);
    }
  }

  // ----- a failure followed by a retry

  // A workflow of a live workspace fails, and the last action is retried without a fault.
  function FailAndRetry(t: Table, ns: string, uid: string, reported: Phase, now: nat): Reply {
    Retry(Callback(t, ns, uid, reported, now).table, ns, uid, now, Works)
  }

  lemma FailureOfRow(t: Table, i: nat, reported: Phase, now: nat)
    requires TableInv(t) && i < |t.rows| && t.rows[i].Live() && reported in {WorkflowFailed, WorkflowError}
    ensures var r := t.rows[i];
      var u := Callback(t, r.namespace, r.uid, reported, now).table;
      && |u.rows| == |t.rows|
      && u.rows[i] == r.(phase := u.rows[i].phase)
      && u.rows[i].phase ==
           match r.phase
           case Launching => FailedToLaunch
           case Pausing => FailedToPause
           case Terminating => FailedToTerminate
           case Updating => FailedToUpdate
           case _ => reported
  {
    var r := t.rows[i];
    assert OneLivePerKey(t.rows) && TimesFit(r);
    hide TableInv;
    FindIs(t.rows, r.namespace, r.uid, i);
    hide OneLivePerKey;
  }

  lemma RetryOfRow(t: Table, i: nat, now: nat)
    requires TableInv(t) && i < |t.rows| && t.rows[i].Live()
    ensures var r := t.rows[i];
      var after := Retry(t, r.namespace, r.uid, now, Works);
      && |after.table.rows| == |t.rows|
      && after.table.rows[i].parameters == r.parameters
      && match r.phase
         case FailedToLaunch => after.result.Ok? && after.table.rows[i].phase == Launching
         case FailedToPause => after.result.Ok? && after.table.rows[i].phase == Pausing
         case FailedToTerminate => after.result.Ok? && after.table.rows[i].phase == Terminating
         case FailedToUpdate => after.result.Ok? && after.table.rows[i].phase == Updating
         case _ => r.phase != FailedToResume && after.result.Failed? && after.table == t
  {
    var r := t.rows[i];
    assert OneLivePerKey(t.rows) && DistinctIds(t);
    FindIs(t.rows, r.namespace, r.uid, i);
    MergeIdempotent(r.parameters);
    hide TableInv, OneLivePerKey, Merge;
  }
}
