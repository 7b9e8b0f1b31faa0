/**
 Callbacks address a workspace by its name, and a name is free again once its workspace is terminated.
 A workflow that is still deleting an earlier workspace can then terminate a later one.
 */
module WorkspaceReuse {
  import opened Wrappers
  import opened WorkspaceTypes
  import opened Parameters
  import opened WorkspaceStore
  import opened WorkspaceTable
  import opened WorkspaceDag
  import opened WorkspaceProtocol

  ghost predicate DeleteAimedAt(flights: seq<Flight>, row: nat) {
    exists f :: 0 <= f < |flights| && flights[f].action == Delete && flights[f].row == row
  }

  // Row i can end up terminated although no delete is ever launched for it.
  ghost predicate MayDieUndeleted(w: World, i: nat)
    requires i < |w.table.rows|
  {
    exists steps, v :: RunsFrom(w, steps, v) && DiedUndeleted(w, v, i)
  }

  ghost predicate DiedUndeleted(w: World, v: World, i: nat)
    requires i < |w.table.rows|
  {
    i < |v.table.rows| && v.table.rows[i].phase == Terminated && !DeleteAimedAt(v.table.flights, w.table.rows[i].id)
  }

  // The set-phase task of the workflow can still send: its curl has neither heard an acceptance nor
  // used up its attempts, and the task has begun and not ended, or has yet to begin and nothing
  // before it has failed.
  ghost predicate CanStillPost(r: Run) {
    var i := ReportIndex(r.flow.action);
    && i < |r.state.status| && CanSend(r.report)
    && (r.state.status[i] == Started || (r.state.status[i] == Pending && Clean(r.state)))
  }

  // A callback of the workflow that says Terminated is on its way, or may still be sent.
  ghost predicate CanStillTerminate(w: World, f: nat)
    requires f < |w.runs|
  {
    Message(f, Terminated) in w.sent || CanStillPost(w.runs[f])
  }

  // some delete workflow of that name can
  ghost predicate Threatened(w: World, ns: string, uid: string) {
    exists f :: 0 <= f < |w.runs| && f < |w.table.flights| && IsDeleteOf(w.table.flights[f], ns, uid)
      && CanStillTerminate(w, f)
  }

  // ----- what can no longer terminate never can again

  lemma SpentStaysSpent(r: Run, ev: Event)
    requires IsCompiled(r.flow, r.flow.action) && Consistent(r.flow, r.state) && Enabled(r.flow, r.state, ev)
    requires !CanStillPost(r)
    ensures !CanStillPost(r.(state := Apply(r.flow, r.state, ev)))
  {
    hide Lifecycle, Clean;
    var f, s, i := r.flow, r.state, ReportIndex(r.flow.action);
    EventKeepsProgress(f, s, ev);
    var post :| f.dag == Lifecycle(post);
    if ev == Ready(i) && DepsSatisfied(f, s, i) {
      ReportTask(post, f.action);
      BeginsClean(post, f, s);
    }
  }

  // Once a task is running, only the one that reports can send its phase.
  lemma SenderCanPost(w: World, f: nat, i: nat)
    requires Inv(w) && Possible(w, PostStep(f, i))
    ensures CanStillPost(w.runs[f])
  {
    hide Inv, Clean;
    PostStepKeeps(w, f, i);
  }

  lemma NoThreatAppears(w: World, st: Step, f: nat)
    requires Inv(w) && Possible(w, st) && f < |w.runs| && w.table.flights[f].action == Delete
    requires !CanStillTerminate(w, f)
    ensures f < |Next(w, st).runs| && !CanStillTerminate(Next(w, st), f)
  {
    hide TableInv, Clean, Complete, Consistent, Apply, Enabled, New, Act, Retry, Callback, MessageFits, Behind,
         CanStillPost, IsCompiled;
    assert RunFits(w.table.flights[f], w.runs[f]);
    match st
    case RunStep(g, ev) =>
      if g == f {
        CompiledAction(w.runs[f].flow, Delete);
        SpentStaysSpent(w.runs[f], ev);
      }
    case PostStep(g, i) =>
      if g == f { SenderCanPost(w, f, i); }
    case ExitStep(g, p) => OnlyExitChanges(w.runs[f], Reporting(p, Call(0, false)));
    case ReportStep(g) =>
      assert RunFits(w.table.flights[g], w.runs[g]);
      var r := w.runs[g];
      OnlyExitChanges(r, r.exit.(call := r.exit.call.(attempts := r.exit.call.attempts + 1)));
    case DeliverStep(m, now, heard) => AcknowledgedCannotPost(w.runs[f], m.phase);
    case _ =>
  }

  lemma OnlyExitChanges(r: Run, exit: Exit)
    ensures CanStillPost(r.(exit := exit)) <==> CanStillPost(r)
  {
  }

  lemma AcknowledgedCannotPost(r: Run, phase: Phase)
    ensures CanStillPost(Acknowledged(r, phase)) ==> CanStillPost(r)
  {
  }

  // Without a threat a step neither terminates live row i nor makes a threat, unless it launches a
  // delete of row i.
  lemma UnthreatenedStep(w: World, st: Step, i: nat)
    requires Inv(w) && Possible(w, st) && i < |w.table.rows| && w.table.rows[i].Live()
    requires !Threatened(w, w.table.rows[i].namespace, w.table.rows[i].uid)
    requires !DeleteAimedAt(Next(w, st).table.flights, w.table.rows[i].id)
    ensures var r, v := w.table.rows[i], Next(w, st);
      && i < |v.table.rows| && v.table.rows[i].Live() && RowKept(r, v.table.rows[i])
      && !Threatened(v, r.namespace, r.uid)
  {
    hide Inv, Possible, Next, CanStillTerminate;
    var r, v := w.table.rows[i], Next(w, st);
    StepKeeps(w, st);
    assert RowKept(r, v.table.rows[i]);
    StaysLive(w, st, i);
    forall f | 0 <= f < |v.runs| && f < |v.table.flights| && IsDeleteOf(v.table.flights[f], r.namespace, r.uid)
      ensures !CanStillTerminate(v, f)
    {
      if f < |w.runs| {
        assert v.table.flights[f] == w.table.flights[f];
        NoThreatAppears(w, st, f);
      } else {
        NewDeleteAims(w, st, i, f);
      }
    }
  }

  lemma StaysLive(w: World, st: Step, i: nat)
    requires Inv(w) && Possible(w, st) && i < |w.table.rows| && w.table.rows[i].Live()
    requires !Threatened(w, w.table.rows[i].namespace, w.table.rows[i].uid)
    ensures var v := Next(w, st); i < |v.table.rows| && v.table.rows[i].Live()
  {
    hide TableInv, RunsFit, MessageFits, New, Act, Retry, Callback, Enabled, Apply, Clean, Complete, CanStillPost,
         WithLaunched, OneRowTouched, OneLaunched, Behind;
    StepKeeps(w, st);
    if TemplateOf(st).Some? {
      RequestStep(w, st);
    } else if st.DeliverStep? {
      var m := st.message;
      var fl := w.table.flights[m.flight];
      CallbackReports(w.table, fl.namespace, fl.uid, m.phase, st.now, i);
      if m.phase == Terminated {
        SentBehind(w, m);
        assert MessageFits(w, m);
        SentCanTerminate(w, m);
      }
    }
  }

  lemma SentCanTerminate(w: World, m: Message)
    requires MessageFits(w, m) && m in w.sent && m.phase == Terminated
    ensures m.flight < |w.runs| && CanStillTerminate(w, m.flight)
  {
  }

  // A delete launched for the name of live row i is a delete of row i.
  lemma NewDeleteAims(w: World, st: Step, i: nat, f: nat)
    requires Inv(w) && Possible(w, st) && i < |w.table.rows| && w.table.rows[i].Live()
    requires |w.runs| <= f < |Next(w, st).table.flights|
    requires IsDeleteOf(Next(w, st).table.flights[f], w.table.rows[i].namespace, w.table.rows[i].uid)
    ensures DeleteAimedAt(Next(w, st).table.flights, w.table.rows[i].id)
  {
    hide MessageFits, New, Act, Retry, Callback, Enabled, Apply, Clean, Complete,
         WithLaunched, OneRowTouched, Behind, DistinctIds, TimesFit;
    var fl := Next(w, st).table.flights[f];
    if TemplateOf(st).Some? {
      RequestStep(w, st);
      FindIs(w.table.rows, fl.namespace, fl.uid, i);
    } else if st.DeliverStep? {
      var m := st.message;
      var g := w.table.flights[m.flight];
      var n := CallbackLength(w.table, g.namespace, g.uid, m.phase, st.now);
    }
  }

  lemma {:induction false} UnthreatenedRun(w: World, steps: seq<Step>, v: World, i: nat)
    requires Inv(w) && RunsFrom(w, steps, v) && i < |w.table.rows| && w.table.rows[i].Live()
    requires !Threatened(w, w.table.rows[i].namespace, w.table.rows[i].uid)
    requires !DeleteAimedAt(v.table.flights, w.table.rows[i].id)
    ensures var r := w.table.rows[i];
      && i < |v.table.rows| && v.table.rows[i].Live() && RowKept(r, v.table.rows[i])
      && Inv(v) && !Threatened(v, r.namespace, r.uid)
    decreases |steps|
  {
    hide Inv, Possible, Next, Threatened;
    if steps != [] {
      var n := |steps| - 1;
      var u :| RunsFrom(w, steps[..n], u) && Possible(u, steps[n]) && v == Next(u, steps[n]);
      RunKeeps(w, steps[..n], u);
      StepKeeps(u, steps[n]);
      AimedStays(u.table.flights, v.table.flights, w.table.rows[i].id);
      UnthreatenedRun(w, steps[..n], u, i);
      UnthreatenedStep(u, steps[n], i);
    }
  }

  lemma AimedStays(fs: seq<Flight>, gs: seq<Flight>, row: nat)
    requires fs <= gs
    ensures DeleteAimedAt(fs, row) ==> DeleteAimedAt(gs, row)
  {
    if f :| 0 <= f < |fs| && fs[f].action == Delete && fs[f].row == row {
      assert gs[f] == fs[f];
    }
  }

  // ----- what can still terminate may do so

  lemma RunExtends(w: World, steps: seq<Step>, v: World, st: Step)
    requires RunsFrom(w, steps, v) && Possible(v, st)
    ensures RunsFrom(w, steps + [st], Next(v, st))
  {
    hide Possible, Next;
    assert (steps + [st])[..|steps|] == steps;
  }

  lemma RunNone(w: World)
    ensures RunsFrom(w, [], w)
  {
  }

  ghost function WithState(w: World, f: nat, s: State): World
    requires f < |w.runs|
  {
    w.(runs := w.runs[f := w.runs[f].(state := s)])
  }

  // A workflow in which nothing has failed can go on until its set-phase task begins, while the
  // rest of the world waits.
  lemma {:induction false} GoesOnToReport(w: World, before: seq<Step>, u: World, f: nat)
    returns (steps: seq<Step>, s: State)
    requires RunsFrom(w, before, u) && Inv(u) && f < |u.runs|
    requires Clean(u.runs[f].state) && ReportIndex(u.runs[f].flow.action) < |u.runs[f].state.status|
    requires u.runs[f].state.status[ReportIndex(u.runs[f].flow.action)] == Pending
    ensures RunsFrom(w, steps, WithState(u, f, s))
    ensures ReportIndex(u.runs[f].flow.action) < |s.status| && s.status[ReportIndex(u.runs[f].flow.action)] == Started
    decreases Remaining(u.runs[f].state)
  {
    hide Inv, RunsFrom, Consistent, Remaining, Clean, Complete, Enabled, Apply, IsCompiled, NeedsAck;
    var r := u.runs[f];
    var i := ReportIndex(r.flow.action);
    var ev := NextCleanEvent(u, f);
    EventShrinks(r.flow, r.state, ev);
    RunExtends(w, before, u, RunStep(f, ev));
    var t := Apply(r.flow, r.state, ev);
    var v := Next(u, RunStep(f, ev));
    assert v == WithState(u, f, t);
    if t.status[i] == Started {
      steps, s := before + [RunStep(f, ev)], t;
    } else {
      StepKeeps(u, RunStep(f, ev));
      steps, s := GoesOnToReport(w, before + [RunStep(f, ev)], v, f);
      assert WithState(v, f, s) == WithState(u, f, s);
    }
  }

  lemma NextCleanEvent(w: World, f: nat) returns (ev: Event)
    requires Inv(w) && f < |w.runs|
    requires Clean(w.runs[f].state) && ReportIndex(w.runs[f].flow.action) < |w.runs[f].state.status|
    requires w.runs[f].state.status[ReportIndex(w.runs[f].flow.action)] == Pending
    ensures Possible(w, RunStep(f, ev)) && Fits(w.runs[f].flow, w.runs[f].state)
    ensures var r := w.runs[f];
      var s := Apply(r.flow, r.state, ev);
      && Clean(s) && |s.status| == |r.state.status|
      && s.status[ReportIndex(r.flow.action)] in {Pending, Started}
  {
    hide TableInv, MessageFits, Behind, Clean, Lifecycle, WellOrdered, Consistent, Enabled;
    var r := w.runs[f];
    var i := ReportIndex(r.flow.action);
    assert RunFits(w.table.flights[f], r);
    CompiledAction(r.flow, w.table.flights[f].action);
    var post :| r.flow.dag == Lifecycle(post);
    LifecycleWellOrdered(post);
    ConsistentFits(r.flow, r.state);
    ev := Progress(r.flow, r.state);
    CleanEventIsFree(r.flow, r.state, ev);
  }

  lemma CleanEventIsFree(f: Flow, s: State, ev: Event)
    requires IsCompiled(f, f.action) && Consistent(f, s) && Clean(s) && Enabled(f, s, ev)
    requires ReportIndex(f.action) < |s.status| && s.status[ReportIndex(f.action)] == Pending
    ensures !NeedsAck(f, ev)
    ensures Apply(f, s, ev).status[ReportIndex(f.action)] in {Pending, Started}
  {
    hide Consistent, IsCompiled, Clean, ChainSucceeded;
    ConsistentFits(f, s);
    if NeedsAck(f, ev) {
      BegunAfterChain(f, s, ev.i);
    }
    if ev == Ready(ReportIndex(f.action)) {
      ReadyBegins(f, s, ReportIndex(f.action));
    }
  }

  // A workflow that can still report puts a live row of its name into the phase of its action.
  lemma WorkflowReports(w: World, f: nat, i: nat) returns (steps: seq<Step>, v: World)
    requires Inv(w) && f < |w.runs| && f < |w.table.flights| && i < |w.table.rows|
    requires w.table.rows[i].Matches(w.table.flights[f].namespace, w.table.flights[f].uid)
    requires Message(f, PhaseFor(w.table.flights[f].action)) in w.sent || CanStillPost(w.runs[f])
    ensures RunsFrom(w, steps, v) && v.table.flights == w.table.flights
    ensures v.table.rows == w.table.rows[i := w.table.rows[i].(phase := PhaseFor(w.table.flights[f].action))]
  {
    hide Inv, RunsFrom, Clean, Callback;
    RunNone(w);
    var before, u := [], w;
    if Message(f, PhaseFor(w.table.flights[f].action)) !in w.sent {
      if w.runs[f].state.status[ReportIndex(w.runs[f].flow.action)] == Pending {
        var s;
        before, s := GoesOnToReport(w, [], w, f);
        u := WithState(w, f, s);
      }
      before, u := PostNow(w, before, u, f);
    }
    steps, v := Deliver(w, before, u, f, i);
  }

  // So a threat to live row i terminates it.
  lemma ThreatStrikes(w: World, i: nat) returns (steps: seq<Step>, v: World)
    requires Inv(w) && i < |w.table.rows| && w.table.rows[i].Live()
    requires Threatened(w, w.table.rows[i].namespace, w.table.rows[i].uid)
    ensures RunsFrom(w, steps, v) && v.table.flights == w.table.flights
    ensures v.table.rows == w.table.rows[i := w.table.rows[i].(phase := Terminated)]
  {
    hide Inv, RunsFrom, CanStillPost;
    var r := w.table.rows[i];
    var f :| 0 <= f < |w.runs| && f < |w.table.flights| && IsDeleteOf(w.table.flights[f], r.namespace, r.uid)
      && CanStillTerminate(w, f);
    steps, v := WorkflowReports(w, f, i);
  }

  lemma PostNow(w: World, before: seq<Step>, u: World, f: nat) returns (steps: seq<Step>, v: World)
    requires Inv(w) && RunsFrom(w, before, u) && f < |u.runs| == |w.runs| && u.table == w.table
    requires f < |w.table.flights|
    requires CanStillPost(u.runs[f]) && u.runs[f].state.status[ReportIndex(u.runs[f].flow.action)] == Started
    ensures RunsFrom(w, steps, v) && v.table == w.table && |v.runs| == |w.runs|
    ensures Message(f, PhaseFor(w.table.flights[f].action)) in v.sent
  {
    hide Inv, RunsFrom, Clean;
    RunKeeps(w, before, u);
    var i := ReportIndex(u.runs[f].flow.action);
    StartedReport(u, f);
    RunExtends(w, before, u, PostStep(f, i));
    steps, v := before + [PostStep(f, i)], Next(u, PostStep(f, i));
  }

  lemma StartedReport(w: World, f: nat)
    requires Inv(w) && f < |w.runs|
    ensures f < |w.table.flights| && |w.runs[f].state.status| == |w.runs[f].flow.dag|
    ensures w.runs[f].flow.action == w.table.flights[f].action
    ensures var i := ReportIndex(w.runs[f].flow.action);
      i < |w.runs[f].flow.dag| && Posts(w.runs[f].flow.dag[i].name) == Some(PhaseFor(w.runs[f].flow.action))
  {
    hide TableInv, MessageFits, Behind, Lifecycle, Consistent;
    var r := w.runs[f];
    assert RunFits(w.table.flights[f], r);
    ConsistentFits(r.flow, r.state);
    var post :| r.flow.dag == Lifecycle(post);
    ReportTask(post, r.flow.action);
  }

  lemma Deliver(w: World, before: seq<Step>, u: World, f: nat, i: nat)
    returns (steps: seq<Step>, v: World)
    requires Inv(w) && RunsFrom(w, before, u) && u.table == w.table
    requires f < |w.table.flights| && Message(f, PhaseFor(w.table.flights[f].action)) in u.sent
    requires i < |w.table.rows| && w.table.rows[i].Live()
    requires w.table.rows[i].Matches(w.table.flights[f].namespace, w.table.flights[f].uid)
    ensures RunsFrom(w, steps, v) && v.table.flights == w.table.flights
    ensures v.table.rows == w.table.rows[i := w.table.rows[i].(phase := PhaseFor(w.table.flights[f].action))]
  {
    hide Inv, RunsFrom, Callback;
    var fl := w.table.flights[f];
    var st := DeliverStep(Message(f, PhaseFor(fl.action)), 0, true);
    RunExtends(w, before, u, st);
    InvTable(w);
    ReportLands(w.table, i, fl.namespace, fl.uid, PhaseFor(fl.action), 0);
    steps, v := before + [st], Next(u, st);
  }

  lemma InvTable(w: World)
    requires Inv(w)
    ensures OneLivePerKey(w.table.rows)
  {
  }

  // A callback with a reported phase for the name of live row i lands on row i, and changes the phase.
  lemma ReportLands(t: Table, i: nat, ns: string, uid: string, phase: Phase, now: nat)
    requires OneLivePerKey(t.rows) && i < |t.rows| && t.rows[i].Matches(ns, uid)
    requires phase in {Running, Paused, Terminated}
    ensures Callback(t, ns, uid, phase, now) ==
      Reply(Ok(()), t.(rows := t.rows[i := t.rows[i].(phase := phase)]))
  {
    FindIs(t.rows, ns, uid, i);
    SetStatusIs(t.rows, ns, uid, phase, now, None);
  }

  // ----- main results

  // A live workspace for which no delete was ever launched can still end up terminated, exactly when
  // a workflow launched to delete an earlier workspace of that name has a Terminated callback on its
  // way, or can still send one.
  lemma UndeletedDiesExactlyWhen(w: World, i: nat)
    requires Reached(w) && i < |w.table.rows| && w.table.rows[i].Live()
    requires !DeleteAimedAt(w.table.flights, w.table.rows[i].id)
    ensures MayDieUndeleted(w, i) <==> Threatened(w, w.table.rows[i].namespace, w.table.rows[i].uid)
  {
    hide Inv, RunsFrom, Threatened;
    ReachedInv(w);
    if MayDieUndeleted(w, i) {
      var steps, v :| RunsFrom(w, steps, v) && DiedUndeleted(w, v, i);
      if !Threatened(w, w.table.rows[i].namespace, w.table.rows[i].uid) {
        UnthreatenedRun(w, steps, v, i);
      }
    }
    if Threatened(w, w.table.rows[i].namespace, w.table.rows[i].uid) {
      var steps, v := ThreatStrikes(w, i);
      assert DiedUndeleted(w, v, i);
    }
  }

  // The workflow has been answered, or has failed before its report, and no callback of it is on
  // its way.
  ghost predicate Settled(w: World, f: nat)
    requires f < |w.runs|
  {
    && Message(f, Terminated) !in w.sent
    && (w.runs[f].report.acked || (!Clean(w.runs[f].state) && !ReportBegun(w.runs[f].flow, w.runs[f].state)))
  }

  ghost predicate AllSettled(w: World, ns: string, uid: string) {
    forall f :: 0 <= f < |w.runs| && f < |w.table.flights| && IsDeleteOf(w.table.flights[f], ns, uid) ==> Settled(w, f)
  }

  // So a name is safe to use again when every delete workflow of that name is settled.
  lemma ReuseIsSafe(w: World, i: nat)
    requires Reached(w) && i < |w.table.rows| && w.table.rows[i].Live()
    requires !DeleteAimedAt(w.table.flights, w.table.rows[i].id)
    requires AllSettled(w, w.table.rows[i].namespace, w.table.rows[i].uid)
    ensures !MayDieUndeleted(w, i)
  {
    hide Inv, MayDieUndeleted;
    var r := w.table.rows[i];
    UndeletedDiesExactlyWhen(w, i);
    ReachedInv(w);
    forall f | 0 <= f < |w.runs| && f < |w.table.flights| && IsDeleteOf(w.table.flights[f], r.namespace, r.uid)
      ensures !CanStillTerminate(w, f)
    {
      StartedReport(w, f);
    }
  }

  // ----- two concrete runs

  const PLAIN: Template := Template(false, 1)
  const CREATED: Step := CreateStep("ns", "ws", [], 1, Works, PLAIN)
  const DELETED: Step := ActStep("ns", "ws", DeleteOp, [], 2, Works, PLAIN)
  const AGAIN: Step := CreateStep("ns", "ws", [], 4, Works, PLAIN)

  const BORN: Row := Row(1, "ns", "ws", Launching, Some(1), None, None, None, [])
  const LEAVING: Row := Row(1, "ns", "ws", Terminating, None, None, None, Some(2), [])
  const GONE: Row := Row(1, "ns", "ws", Terminated, None, None, None, Some(2), [])
  const REBORN: Row := Row(2, "ns", "ws", Launching, Some(4), None, None, None, [])

  function Begun(action: WorkspaceAction): Run {
    var f := Compiled(PLAIN.postExecution, PLAIN.claims, action);
    Run(f, Initial(f), Call(0, false), NotYet)
  }

  function FlightFor(action: WorkspaceAction, row: nat): Flight {
    Flight("ns", "ws", action, row)
  }

  lemma Birth()
    ensures Next(INITIAL, CREATED) == World(Table([BORN], 2, [FlightFor(Create, 1)]), [Begun(Create)], multiset{})
  {
  }

  lemma Leave(w: World)
    requires w.table.rows in {[BORN], [LEAVING]} && |w.runs| == |w.table.flights|
    ensures var t := w.table;
      Next(w, DELETED) ==
        World(Table([LEAVING], t.nextId, t.flights + [FlightFor(Delete, 1)]), w.runs + [Begun(Delete)], w.sent)
  {
    hide Merge;
    assert Find(w.table.rows, "ns", "ws") == 0;
    assert SetStatus(w.table.rows, "ns", "ws", Terminating, 2, None) == [LEAVING];
  }

  // Created, deleted once or twice, and gone when the first delete workflow has reported and been
  // answered.
  lemma Gone(twice: bool) returns (steps: seq<Step>, w: World)
    ensures RunsFrom(INITIAL, steps, w)
    ensures w.table == Table([GONE], 2,
      [FlightFor(Create, 1), FlightFor(Delete, 1)] + if twice then [FlightFor(Delete, 1)] else [])
    ensures w.sent == multiset{} && |w.runs| == |w.table.flights|
    ensures w.runs[1].report.acked && (twice ==> w.runs[2] == Begun(Delete))
  {
    hide RunsFrom, Act, New, Callback, Lifecycle, Clean, Inv;
    RunNone(INITIAL);
    RunExtends(INITIAL, [], INITIAL, CREATED);
    Birth();
    var w1 := Next(INITIAL, CREATED);
    RunExtends(INITIAL, [] + [CREATED], w1, DELETED);
    Leave(w1);
    var before, u := [] + [CREATED] + [DELETED], Next(w1, DELETED);
    if twice {
      RunExtends(INITIAL, before, u, DELETED);
      Leave(u);
      before, u := before + [DELETED], Next(u, DELETED);
    }
    InitialInv();
    RunKeeps(INITIAL, before, u);
    CleanlyStarted(u.runs[1]);
    var s;
    before, s := GoesOnToReport(INITIAL, before, u, 1);
    steps, w := Answer(before, WithState(u, 1, s));
  }

  // The set-phase task of flight 1 has begun; it sends its callback and hears the answer.
  lemma Answer(before: seq<Step>, v: World) returns (steps: seq<Step>, w: World)
    requires RunsFrom(INITIAL, before, v) && |v.runs| == |v.table.flights| > 1
    requires v.table.rows == [LEAVING] && v.table.flights[1] == FlightFor(Delete, 1) && v.sent == multiset{}
    requires v.runs[1].flow.action == Delete && v.runs[1].report == Call(0, false)
    requires |v.runs[1].state.status| > 10 && v.runs[1].state.status[10] == Status.Started
    ensures RunsFrom(INITIAL, steps, w)
    ensures w.table == v.table.(rows := [GONE]) && w.sent == multiset{}
    ensures |w.runs| == |v.runs| && w.runs[1].report.acked
    ensures forall f :: 0 <= f < |v.runs| && f != 1 ==> w.runs[f] == v.runs[f]
  {
    hide RunsFrom, Callback, Inv;
    InitialInv();
    RunKeeps(INITIAL, before, v);
    StartedReport(v, 1);
    RunExtends(INITIAL, before, v, PostStep(1, 10));
    var x := Next(v, PostStep(1, 10));
    var answered := DeliverStep(Message(1, Terminated), 3, true);
    RunExtends(INITIAL, before + [PostStep(1, 10)], x, answered);
    LeavingMatches();
    ReportLands(x.table, 0, "ns", "ws", Terminated, 3);
    steps, w := before + [PostStep(1, 10)] + [answered], Next(x, answered);
  }

  lemma LeavingMatches()
    ensures OneLivePerKey([LEAVING]) && LEAVING.Matches("ns", "ws") && [LEAVING][0 := GONE] == [GONE]
  {
  }

  lemma CleanlyStarted(r: Run)
    requires r == Begun(Delete)
    ensures Clean(r.state) && r.flow.action == Delete && |r.state.status| == 11 && r.state.status[10] == Pending
    ensures CanStillPost(r)
  {
  }

  lemma BornAgain(u: World)
    requires u.table.rows == [GONE] && u.table.nextId == 2 && |u.runs| == |u.table.flights|
    ensures Next(u, AGAIN) ==
      World(Table([GONE, REBORN], 3, u.table.flights + [FlightFor(Create, 2)]), u.runs + [Begun(Create)], u.sent)
  {
    assert Find(u.table.rows, "ns", "ws") == 1;
  }

  // After one delete that was answered, a workspace of the same name is safe ...
  lemma OneDeleteLeavesTheNameSafe() returns (w: World)
    ensures Reached(w) && w.table.rows == [GONE, REBORN] && SameKey(GONE, REBORN)
    ensures !DeleteAimedAt(w.table.flights, REBORN.id) && !MayDieUndeleted(w, 1)
  {
    hide RunsFrom, New, Lifecycle, Clean, MayDieUndeleted;
    var steps, u := Gone(false);
    RunExtends(INITIAL, steps, u, AGAIN);
    BornAgain(u);
    w := Next(u, AGAIN);
    assert forall f :: 0 <= f < |w.table.flights| && w.table.flights[f].action == Delete ==> f == 1;
    ReuseIsSafe(w, 1);
  }

  // ... after two, of which the first was answered, the second terminates a workspace that nobody
  // deleted, and leaves it without terminated_at.
  lemma SecondDeleteHitsTheNextWorkspace() returns (w: World, steps: seq<Step>, v: World)
    ensures Reached(w) && w.table.rows == [GONE, REBORN] && SameKey(GONE, REBORN)
    ensures !DeleteAimedAt(w.table.flights, REBORN.id) && MayDieUndeleted(w, 1)
    ensures RunsFrom(w, steps, v) && v.table.flights == w.table.flights
    ensures v.table.rows == [GONE, REBORN.(phase := Terminated)] && v.table.rows[1].terminatedAt.None?
  {
    hide RunsFrom, New, Lifecycle, Clean, MayDieUndeleted;
    var before, u := Gone(true);
    RunExtends(INITIAL, before, u, AGAIN);
    BornAgain(u);
    w := Next(u, AGAIN);
    assert w.table.flights == [FlightFor(Create, 1), FlightFor(Delete, 1), FlightFor(Delete, 1), FlightFor(Create, 2)];
    CleanlyStarted(w.runs[2]);
    assert IsDeleteOf(w.table.flights[2], "ns", "ws") && CanStillTerminate(w, 2);
    UndeletedDiesExactlyWhen(w, 1);
    ReachedInv(w);
    steps, v := ThreatStrikes(w, 1);
  }
}
