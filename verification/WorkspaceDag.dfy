/**
 The DAG compiled for a workspace template and the ways Argo can run it. A task becomes ready when
 all its dependencies are finished; it is omitted if one of them failed or was omitted, skipped if
 its When guard is false, and otherwise runs and succeeds or fails. FailFast is off, so unrelated
 branches go on after a failure.
 */
module WorkspaceDag {
  import opened Wrappers
  import opened WorkspaceTypes

  datatype TaskName =
    | Service | VirtualService
    | CreateStatefulSet | GetStatefulSet | CreateWorkspace
    | DeleteStatefulSet | DeleteWorkspace | DeletePVC
    | SetPhaseRunning | SetPhasePaused | SetPhaseTerminated
    | PostExecution

  datatype LifecycleTask = LifecycleTask(name: TaskName, deps: seq<TaskName>, guard: set<WorkspaceAction>)

  const ANY: set<WorkspaceAction> := {Create, Update, Pause, Delete}

  // unmarshalWorkflowTemplate: the tasks of the "workspace" DAG, with an optional task of the user's at the end
  function Lifecycle(postExecution: bool): seq<LifecycleTask> {
    [ LifecycleTask(Service, [], ANY),
      LifecycleTask(VirtualService, [Service], ANY),
      LifecycleTask(CreateStatefulSet, [VirtualService], {Create, Update}),
      LifecycleTask(GetStatefulSet, [CreateStatefulSet], {Create, Update}),
      LifecycleTask(CreateWorkspace, [GetStatefulSet], {Create, Update}),
      LifecycleTask(DeleteStatefulSet, [VirtualService], {Pause, Delete}),
      LifecycleTask(DeleteWorkspace, [DeleteStatefulSet], {Pause, Delete}),
      LifecycleTask(DeletePVC, [DeleteWorkspace], {Delete}),
      LifecycleTask(SetPhaseRunning, [CreateWorkspace], {Create, Update}),
      LifecycleTask(SetPhasePaused, [DeleteWorkspace], {Pause}),
      LifecycleTask(SetPhaseTerminated, [DeletePVC], {Delete}) ]
    + if postExecution
      then [LifecycleTask(PostExecution, [SetPhaseRunning, SetPhasePaused, SetPhaseTerminated], ANY)] else []
  }

  // the phase that a set-phase task posts back
  function Posts(t: TaskName): Option<Phase> {
    match t
    case SetPhaseRunning => Some(Running)
    case SetPhasePaused => Some(Paused)
    case SetPhaseTerminated => Some(Terminated)
    case _ => None
  }

  datatype Status = Pending | Started | Done | Broken | Skipped | Omitted
  {
    predicate Finished() { this != Pending && this != Started }
    // what the implicit condition on a dependency accepts
    predicate Satisfies() { this == Done || this == Skipped }
    // the task has begun to execute, so its effect may have happened
    predicate Ran() { this == Started || this == Done || this == Broken }
  }

  // status[i] belongs to task i of the DAG, items[k] to the deletion of volume claim k
  datatype State = State(status: seq<Status>, items: seq<Status>)

  // A workflow: the compiled DAG, the number of volume claims its PVC task expands to, and the action.
  datatype Flow = Flow(dag: seq<LifecycleTask>, claims: nat, action: WorkspaceAction)

  function Compiled(postExecution: bool, claims: nat, action: WorkspaceAction): Flow {
    Flow(Lifecycle(postExecution), claims, action)
  }

  datatype Event =
    | Ready(i: nat)
    | FinishItem(k: nat, ok: bool)
    | Finish(i: nat, ok: bool)

  function Initial(f: Flow): State {
    State(seq(|f.dag|, _ => Pending), seq(f.claims, _ => Started))
  }

  predicate Fits(f: Flow, s: State) {
    |s.status| == |f.dag| && |s.items| == f.claims
  }

  // task j is a dependency of task i
  predicate DependsOnTask(f: Flow, i: nat, j: nat)
    requires i < |f.dag| && j < |f.dag|
  {
    f.dag[j].name in f.dag[i].deps
  }

  predicate DepsFinished(f: Flow, s: State, i: nat)
    requires Fits(f, s) && i < |f.dag|
  {
    forall j :: 0 <= j < |f.dag| && DependsOnTask(f, i, j) ==> s.status[j].Finished()
  }

  predicate DepsSatisfied(f: Flow, s: State, i: nat)
    requires Fits(f, s) && i < |f.dag|
  {
    forall j :: 0 <= j < |f.dag| && DependsOnTask(f, i, j) ==> s.status[j].Satisfies()
  }

  predicate Enabled(f: Flow, s: State, ev: Event)
    requires Fits(f, s)
  {
    match ev
    case Ready(i) => i < |f.dag| && s.status[i] == Pending && DepsFinished(f, s, i)
    // the claims are deleted while the PVC task runs
    case FinishItem(k, ok) =>
      && k < f.claims && s.items[k] == Started
      && exists i :: 0 <= i < |f.dag| && f.dag[i].name == DeletePVC && s.status[i] == Started
    // the PVC task succeeds exactly when every deletion did; without items it is an ordinary task
    case Finish(i, ok) =>
      && i < |f.dag| && s.status[i] == Started
      && (f.dag[i].name == DeletePVC && f.claims > 0 ==>
            && (forall k :: 0 <= k < f.claims ==> s.items[k].Finished())
            && (ok <==> forall k :: 0 <= k < f.claims ==> s.items[k] == Done))
  }

  function Apply(f: Flow, s: State, ev: Event): (r: State)
    requires Fits(f, s) && Enabled(f, s, ev)
    ensures Fits(f, r)
  {
    match ev
    case Ready(i) =>
      var next := if !DepsSatisfied(f, s, i) then Omitted
        else if f.action !in f.dag[i].guard then Skipped
        else Started;
      s.(status := s.status[i := next])
    case FinishItem(k, ok) => s.(items := s.items[k := if ok then Done else Broken])
    case Finish(i, ok) => s.(status := s.status[i := if ok then Done else Broken])
  }

  // s is reached from the start by some interleaving, with some outcome for every task
  ghost predicate RunsTo(f: Flow, evs: seq<Event>, s: State)
    decreases |evs|
  {
    if evs == [] then s == Initial(f)
    else exists r ::
      RunsTo(f, evs[..|evs| - 1], r) && Fits(f, r) && Enabled(f, r, evs[|evs| - 1]) && s == Apply(f, r, evs[|evs| - 1])
  }

  ghost predicate Reachable(f: Flow, s: State) {
    exists evs :: RunsTo(f, evs, s)
  }

  // ----- what every run keeps

  ghost predicate TaskConsistent(f: Flow, s: State, i: nat)
    requires Fits(f, s) && i < |f.dag|
  {
    var st := s.status[i];
    && (st.Ran() ==> f.action in f.dag[i].guard && DepsSatisfied(f, s, i))
    && (st == Skipped ==> f.action !in f.dag[i].guard && DepsSatisfied(f, s, i))
    && (st == Omitted ==> !DepsSatisfied(f, s, i))
    && (st != Pending ==> DepsFinished(f, s, i))
    && (f.dag[i].name == DeletePVC ==> ItemsConsistent(f, s, st))
  }

  // the deletions happen while the PVC task runs, and it is done only when all of them are
  ghost predicate ItemsConsistent(f: Flow, s: State, st: Status)
    requires Fits(f, s)
  {
    && (st == Done ==> forall k :: 0 <= k < f.claims ==> s.items[k] == Done)
    && (!st.Ran() ==> forall k :: 0 <= k < f.claims ==> s.items[k] == Started)
  }

  ghost predicate Consistent(f: Flow, s: State) {
    && Fits(f, s)
    && (forall i :: 0 <= i < |f.dag| ==> TaskConsistent(f, s, i))
    && (forall k :: 0 <= k < f.claims ==> s.items[k] in {Started, Done, Broken})
  }

  // Each name once, dependencies before dependents.
  ghost predicate WellOrdered(d: seq<LifecycleTask>) {
    && (forall i, j :: 0 <= i < j < |d| ==> d[i].name != d[j].name)
    && (forall i, a :: 0 <= i < |d| && a in d[i].deps ==> exists j :: 0 <= j < i && d[j].name == a)
    && exists i :: 0 <= i < |d| && d[i].name == DeletePVC
  }

  // where a task stands in the list
  function Index(t: TaskName): nat {
    match t
    case Service => 0 case VirtualService => 1 case CreateStatefulSet => 2 case GetStatefulSet => 3
    case CreateWorkspace => 4 case DeleteStatefulSet => 5 case DeleteWorkspace => 6 case DeletePVC => 7
    case SetPhaseRunning => 8 case SetPhasePaused => 9 case SetPhaseTerminated => 10 case PostExecution => 11
  }

  lemma LifecycleByIndex(post: bool)
    ensures |Lifecycle(post)| == if post then 12 else 11
    ensures forall i :: 0 <= i < |Lifecycle(post)| ==> Index(Lifecycle(post)[i].name) == i
    ensures forall a: TaskName :: a != PostExecution ==> Lifecycle(post)[Index(a)].name == a
    ensures forall i, a :: 0 <= i < |Lifecycle(post)| && a in Lifecycle(post)[i].deps ==>
      Index(a) < i && a != PostExecution
  {
  }

  lemma LifecycleWellOrdered(post: bool)
    ensures WellOrdered(Lifecycle(post))
  {
    var d := Lifecycle(post);
    LifecycleByIndex(post);
    forall i, a | 0 <= i < |d| && a in d[i].deps
      ensures exists j :: 0 <= j < i && d[j].name == a
    {
      assert d[Index(a)].name == a;
    }
    assert d[7].name == DeletePVC;
  }

  lemma InitialConsistent(f: Flow)
    ensures Consistent(f, Initial(f))
  {
  }

  // Writing the status of an unfinished task does not touch what a task with finished dependencies sees.
  lemma FinishedDepsStay(f: Flow, s: State, r: State, i: nat, j: nat)
    requires Fits(f, s) && i < |f.dag| && j < |f.dag|
    requires r.items == s.items && |r.status| == |s.status|
    requires forall k :: 0 <= k < |s.status| && k != i ==> r.status[k] == s.status[k]
    requires !s.status[i].Finished() && DepsFinished(f, s, j)
    ensures DepsFinished(f, r, j)
    ensures DepsSatisfied(f, r, j) <==> DepsSatisfied(f, s, j)
  {
    assert !DependsOnTask(f, j, i);
  }

  lemma StatusChange(f: Flow, s: State, r: State, i: nat)
    requires WellOrdered(f.dag) && Consistent(f, s) && i < |f.dag|
    requires r.items == s.items && |r.status| == |s.status|
    requires forall k :: 0 <= k < |s.status| && k != i ==> r.status[k] == s.status[k]
    requires !s.status[i].Finished() && TaskConsistent(f, r, i)
    ensures Consistent(f, r)
  {
    forall j | 0 <= j < |f.dag|
      ensures TaskConsistent(f, r, j)
    {
      if j != i && s.status[j] != Pending {
        assert TaskConsistent(f, s, j);
        FinishedDepsStay(f, s, r, i, j);
      }
      assert TaskConsistent(f, s, j);
    }
  }

  lemma StepKeepsConsistent(f: Flow, s: State, ev: Event)
    requires WellOrdered(f.dag) && Consistent(f, s) && Enabled(f, s, ev)
    ensures Consistent(f, Apply(f, s, ev))
  {
    hide WellOrdered;
    var r := Apply(f, s, ev);
    match ev
    case Ready(i) =>
      assert TaskConsistent(f, s, i);
      FinishedDepsStay(f, s, r, i, i);
      StatusChange(f, s, r, i);
    case Finish(i, ok) =>
      assert TaskConsistent(f, s, i);
      FinishedDepsStay(f, s, r, i, i);
      StatusChange(f, s, r, i);
    case FinishItem(k, ok) =>
      ItemChange(f, s, r, k);
  }

  lemma ItemChange(f: Flow, s: State, r: State, k: nat)
    requires WellOrdered(f.dag) && Consistent(f, s) && k < f.claims
    requires s.items[k] == Started && r.status == s.status
    requires |r.items| == |s.items| && r.items[k] in {Done, Broken}
    requires forall m :: 0 <= m < f.claims && m != k ==> r.items[m] == s.items[m]
    requires exists i :: 0 <= i < |f.dag| && f.dag[i].name == DeletePVC && s.status[i] == Started
    ensures Consistent(f, r)
  {
    var p :| 0 <= p < |f.dag| && f.dag[p].name == DeletePVC && s.status[p] == Started;
    forall j | 0 <= j < |f.dag|
      ensures TaskConsistent(f, r, j)
    {
      assert TaskConsistent(f, s, j);
      assert DepsFinished(f, r, j) <==> DepsFinished(f, s, j);
      assert DepsSatisfied(f, r, j) <==> DepsSatisfied(f, s, j);
      if f.dag[j].name == DeletePVC { assert j == p; }
    }
  }

  lemma {:induction false} RunsAreConsistent(f: Flow, evs: seq<Event>, s: State)
    requires WellOrdered(f.dag) && RunsTo(f, evs, s)
    ensures Consistent(f, s)
    decreases |evs|
  {
    hide WellOrdered, Consistent, Enabled, Apply;
    if evs == [] {
      InitialConsistent(f);
    } else {
      var n := |evs| - 1;
      var r :| RunsTo(f, evs[..n], r) && Fits(f, r) && Enabled(f, r, evs[n]) && s == Apply(f, r, evs[n]);
      RunsAreConsistent(f, evs[..n], r);
      StepKeepsConsistent(f, r, evs[n]);
    }
  }

  // ----- safety: which set-phase task may run, and after what

  ghost predicate Succeeded(s: State, t: TaskName) {
    Index(t) < |s.status| && s.status[Index(t)] == Done
  }

  // Everything that has to have succeeded before the action may report its phase.
  ghost predicate ChainSucceeded(f: Flow, s: State) {
    && Succeeded(s, Service) && Succeeded(s, VirtualService)
    && (f.action in {Create, Update} ==>
          Succeeded(s, CreateStatefulSet) && Succeeded(s, GetStatefulSet) && Succeeded(s, CreateWorkspace))
    && (f.action in {Pause, Delete} ==> Succeeded(s, DeleteStatefulSet) && Succeeded(s, DeleteWorkspace))
    && (f.action == Delete ==> Succeeded(s, DeletePVC) && forall k :: 0 <= k < |s.items| ==> s.items[k] == Done)
  }

  // t follows u in the compiled DAG, and both run for the actions in `both`
  ghost predicate Link(post: bool, t: TaskName, u: TaskName, both: set<WorkspaceAction>) {
    var d := Lifecycle(post);
    && u != PostExecution
    && Index(t) < |d| && Index(u) < |d| && d[Index(t)].name == t && d[Index(u)].name == u
    && u in d[Index(t)].deps && both <= d[Index(u)].guard
  }

  lemma LifecycleLinks(post: bool)
    ensures Link(post, VirtualService, Service, ANY)
    ensures Link(post, CreateStatefulSet, VirtualService, ANY)
    ensures Link(post, GetStatefulSet, CreateStatefulSet, {Create, Update})
    ensures Link(post, CreateWorkspace, GetStatefulSet, {Create, Update})
    ensures Link(post, SetPhaseRunning, CreateWorkspace, {Create, Update})
    ensures Link(post, DeleteStatefulSet, VirtualService, ANY)
    ensures Link(post, DeleteWorkspace, DeleteStatefulSet, {Pause, Delete})
    ensures Link(post, SetPhasePaused, DeleteWorkspace, {Pause})
    ensures Link(post, DeletePVC, DeleteWorkspace, {Pause, Delete})
    ensures Link(post, SetPhaseTerminated, DeletePVC, {Delete})
  {
  }

  lemma LinkSucceeded(post: bool, f: Flow, s: State, t: TaskName, u: TaskName,
      both: set<WorkspaceAction>)
    requires f.dag == Lifecycle(post) && Consistent(f, s)
    requires Link(post, t, u, both) && f.action in both
    requires s.status[Index(t)].Ran()
    ensures Succeeded(s, u)
  {
    hide Lifecycle, Consistent;
    DependencySucceeded(post, f, s, t, u);
  }

  // The task that posts a phase, and the actions its guard lets through.
  lemma PostingTask(post: bool, i: nat, action: WorkspaceAction)
    requires i < |Lifecycle(post)| && Posts(Lifecycle(post)[i].name).Some?
    ensures i == Index(Lifecycle(post)[i].name)
    ensures action in Lifecycle(post)[i].guard ==> Posts(Lifecycle(post)[i].name) == Some(PhaseFor(action))
  {
    LifecycleByIndex(post);
  }

  // A dependency whose guard holds has succeeded, not been skipped.
  lemma DependencySucceeded(post: bool, f: Flow, s: State, t: TaskName, u: TaskName)
    requires f.dag == Lifecycle(post) && Consistent(f, s)
    requires Index(t) < |f.dag| && Index(u) < |f.dag| && u != PostExecution
    requires f.dag[Index(t)].name == t && u in f.dag[Index(t)].deps
    requires s.status[Index(t)].Ran() && f.action in f.dag[Index(u)].guard
    ensures Succeeded(s, u)
  {
    hide Lifecycle;
    LifecycleByIndex(post);
    assert TaskConsistent(f, s, Index(t)) && TaskConsistent(f, s, Index(u));
    assert DependsOnTask(f, Index(t), Index(u));
  }

  lemma RanAfterChain(post: bool, f: Flow, s: State, i: nat)
    requires f.dag == Lifecycle(post) && Consistent(f, s)
    requires i < |f.dag| && Posts(f.dag[i].name).Some? && s.status[i].Ran()
    ensures Posts(f.dag[i].name) == Some(PhaseFor(f.action))
    ensures i == Index(f.dag[i].name)
    ensures ChainSucceeded(f, s)
  {
    hide Consistent, TaskConsistent, Lifecycle, Link;
    LifecycleLinks(post);
    GuardHolds(f, s, i);
    PostingTask(post, i, f.action);
    if f.action == Delete {
      LinkSucceeded(post, f, s, SetPhaseTerminated, DeletePVC, {Delete});
      LinkSucceeded(post, f, s, DeletePVC, DeleteWorkspace, {Pause, Delete});
      ClaimsDeleted(post, f, s);
    } else if f.action == Pause {
      LinkSucceeded(post, f, s, SetPhasePaused, DeleteWorkspace, {Pause});
    }
    if f.action in {Pause, Delete} {
      LinkSucceeded(post, f, s, DeleteWorkspace, DeleteStatefulSet, {Pause, Delete});
      LinkSucceeded(post, f, s, DeleteStatefulSet, VirtualService, ANY);
    } else {
      LinkSucceeded(post, f, s, SetPhaseRunning, CreateWorkspace, {Create, Update});
      LinkSucceeded(post, f, s, CreateWorkspace, GetStatefulSet, {Create, Update});
      LinkSucceeded(post, f, s, GetStatefulSet, CreateStatefulSet, {Create, Update});
      LinkSucceeded(post, f, s, CreateStatefulSet, VirtualService, ANY);
    }
    LinkSucceeded(post, f, s, VirtualService, Service, ANY);
  }

  lemma GuardHolds(f: Flow, s: State, i: nat)
    requires Consistent(f, s) && i < |f.dag| && s.status[i].Ran()
    ensures f.action in f.dag[i].guard
  {
    assert TaskConsistent(f, s, i);
  }

  lemma ClaimsDeleted(post: bool, f: Flow, s: State)
    requires f.dag == Lifecycle(post) && Consistent(f, s) && Succeeded(s, DeletePVC)
    ensures forall k :: 0 <= k < |s.items| ==> s.items[k] == Done
  {
    assert TaskConsistent(f, s, Index(DeletePVC));
  }

  // On every run, whatever the interleaving and the outcomes: only the set-phase task of the
  // action runs, at most one of them does, and only after its whole chain has succeeded.
  lemma SetPhaseSafety(post: bool, claims: nat, action: WorkspaceAction, s: State, i: nat)
    requires Reachable(Compiled(post, claims, action), s)
    requires i < |Lifecycle(post)| && |s.status| == |Lifecycle(post)|
    requires Posts(Lifecycle(post)[i].name).Some? && s.status[i].Ran()
    ensures Posts(Lifecycle(post)[i].name) == Some(PhaseFor(action))
    ensures ChainSucceeded(Compiled(post, claims, action), s)
    ensures forall j :: 0 <= j < |Lifecycle(post)| && Posts(Lifecycle(post)[j].name).Some? && s.status[j].Ran() ==>
      j == i
  {
    hide Lifecycle, Consistent;
    var f := Compiled(post, claims, action);
    var evs :| RunsTo(f, evs, s);
    LifecycleWellOrdered(post);
    RunsAreConsistent(f, evs, s);
    RanAfterChain(post, f, s, i);
    forall j | 0 <= j < |f.dag| && Posts(f.dag[j].name).Some? && s.status[j].Ran()
      ensures j == i
    {
      GuardHolds(f, s, i);
      GuardHolds(f, s, j);
      OneGuardPerAction(post, i, j, action);
    }
  }

  lemma OneGuardPerAction(post: bool, i: nat, j: nat, a: WorkspaceAction)
    requires i < |Lifecycle(post)| && j < |Lifecycle(post)|
    requires Posts(Lifecycle(post)[i].name).Some? && Posts(Lifecycle(post)[j].name).Some?
    requires a in Lifecycle(post)[i].guard && a in Lifecycle(post)[j].guard
    ensures i == j
  {
    LifecycleByIndex(post);
  }

  // ----- liveness: a run can always go on until every task is finished

  ghost predicate Complete(s: State) {
    forall i :: 0 <= i < |s.status| ==> s.status[i].Finished()
  }

  // nothing has failed so far
  ghost predicate Clean(s: State) {
    && (forall i :: 0 <= i < |s.status| ==> s.status[i] != Broken)
    && (forall k :: 0 <= k < |s.items| ==> s.items[k] != Broken)
  }

  function Weight(ss: seq<Status>): nat {
    if ss == [] then 0
    else Weight(ss[..|ss| - 1]) + WeightOf(ss[|ss| - 1])
  }

  function WeightOf(st: Status): nat {
    match st case Pending => 2 case Started => 1 case _ => 0
  }

  lemma {:induction false} WeightUpdate(ss: seq<Status>, i: nat, st: Status)
    requires i < |ss|
    ensures Weight(ss[i := st]) + WeightOf(ss[i]) == Weight(ss) + WeightOf(st)
  {
    var n := |ss| - 1;
    if i < n {
      assert ss[i := st][..n] == ss[..n][i := st];
      WeightUpdate(ss[..n], i, st);
    } else {
      assert ss[i := st][..n] == ss[..n];
    }
  }

  function Remaining(s: State): nat {
    Weight(s.status) + Weight(s.items)
  }

  // Every event brings the run closer to its end, so no run is longer than the initial weight.
  lemma EventShrinks(f: Flow, s: State, ev: Event)
    requires Fits(f, s) && Enabled(f, s, ev)
    ensures Remaining(Apply(f, s, ev)) < Remaining(s)
  {
    hide Weight, DepsFinished, DepsSatisfied;
    match ev
    case Ready(i) => WeightUpdate(s.status, i, Apply(f, s, ev).status[i]);
    case Finish(i, ok) => WeightUpdate(s.status, i, Apply(f, s, ev).status[i]);
    case FinishItem(k, ok) => WeightUpdate(s.items, k, Apply(f, s, ev).items[k]);
  }

  lemma {:induction false} WeightOfAll(ss: seq<Status>, st: Status)
    requires forall i :: 0 <= i < |ss| ==> ss[i] == st
    ensures Weight(ss) == |ss| * WeightOf(st)
  {
    if ss != [] {
      WeightOfAll(ss[..|ss| - 1], st);
    }
  }

  lemma {:induction false} RunsAreBounded(f: Flow, evs: seq<Event>, s: State)
    requires WellOrdered(f.dag) && RunsTo(f, evs, s)
    ensures |evs| + Remaining(s) <= 2 * |f.dag| + f.claims
    decreases |evs|
  {
    hide WellOrdered, Enabled, Apply, Weight;
    if evs == [] {
      WeightOfAll(Initial(f).status, Pending);
      WeightOfAll(Initial(f).items, Started);
    } else {
      var n := |evs| - 1;
      var r :| RunsTo(f, evs[..n], r) && Fits(f, r) && Enabled(f, r, evs[n]) && s == Apply(f, r, evs[n]);
      RunsAreBounded(f, evs[..n], r);
      EventShrinks(f, r, evs[n]);
    }
  }

  // While a task is unfinished some event is enabled; after a clean start it can be a clean one.
  lemma Progress(f: Flow, s: State) returns (ev: Event)
    requires WellOrdered(f.dag) && Consistent(f, s) && !Complete(s)
    ensures Enabled(f, s, ev)
    ensures Clean(s) ==> Clean(Apply(f, s, ev))
  {
    var i := FirstUnfinished(s, 0);
    if s.status[i] == Pending {
      ev := Ready(i);
      forall j | 0 <= j < |f.dag| && DependsOnTask(f, i, j)
        ensures s.status[j].Finished()
      {
        var k :| 0 <= k < i && f.dag[k].name == f.dag[j].name;
      }
    } else if f.dag[i].name == DeletePVC && exists k :: 0 <= k < f.claims && !s.items[k].Finished() {
      var k :| 0 <= k < f.claims && !s.items[k].Finished();
      ev := FinishItem(k, true);
    } else {
      ev := Finish(i, f.dag[i].name == DeletePVC ==> forall k :: 0 <= k < f.claims ==> s.items[k] == Done);
    }
  }

  lemma {:induction false} FirstUnfinished(s: State, from: nat) returns (i: nat)
    requires from <= |s.status| && forall j :: 0 <= j < from ==> s.status[j].Finished()
    requires !Complete(s)
    ensures i < |s.status| && !s.status[i].Finished() && forall j :: 0 <= j < i ==> s.status[j].Finished()
    decreases |s.status| - from
  {
    if !s.status[from].Finished() {
      i := from;
    } else {
      i := FirstUnfinished(s, from + 1);
    }
  }

  // the set-phase task of an action, and where it stands in the list
  function ReportOf(action: WorkspaceAction): TaskName {
    match action
    case Create => SetPhaseRunning
    case Update => SetPhaseRunning
    case Pause => SetPhasePaused
    case Delete => SetPhaseTerminated
  }

  function ReportIndex(action: WorkspaceAction): nat {
    Index(ReportOf(action))
  }

  // the task it waits for
  function LastBeforeReport(action: WorkspaceAction): TaskName {
    match action
    case Create => CreateWorkspace
    case Update => CreateWorkspace
    case Pause => DeleteWorkspace
    case Delete => DeletePVC
  }

  lemma ReportTask(post: bool, action: WorkspaceAction)
    ensures var i := ReportIndex(action);
      && i < |Lifecycle(post)| && action in Lifecycle(post)[i].guard
      && Posts(Lifecycle(post)[i].name) == Some(PhaseFor(action)) && i == Index(Lifecycle(post)[i].name)
      && LastBeforeReport(action) in Lifecycle(post)[i].deps
  {
  }

  // As long as nothing fails, nothing is omitted ...
  lemma {:induction false} NoneOmitted(f: Flow, s: State, i: nat)
    requires WellOrdered(f.dag) && Consistent(f, s) && Clean(s)
    requires i < |f.dag|
    ensures s.status[i] != Omitted
  {
    assert TaskConsistent(f, s, i);
    if s.status[i] == Omitted {
      var j :| 0 <= j < |f.dag| && DependsOnTask(f, i, j) && !s.status[j].Satisfies();
      var k :| 0 <= k < i && f.dag[k].name == f.dag[j].name;
      assert k == j;
      NoneOmitted(f, s, j);
    }
  }

  // ... so when all tasks succeed, exactly the action's set-phase task has succeeded.
  lemma CleanRunReports(post: bool, claims: nat, action: WorkspaceAction, s: State)
    requires Reachable(Compiled(post, claims, action), s) && Complete(s) && Clean(s)
    ensures |s.status| == |Lifecycle(post)|
    ensures forall i :: 0 <= i < |Lifecycle(post)| && Posts(Lifecycle(post)[i].name).Some? ==>
      (s.status[i].Ran() <==> Posts(Lifecycle(post)[i].name) == Some(PhaseFor(action)))
    ensures exists i ::
      0 <= i < |Lifecycle(post)| && Posts(Lifecycle(post)[i].name) == Some(PhaseFor(action)) && s.status[i] == Done
  {
    hide Consistent, WellOrdered, Lifecycle;
    var f := Compiled(post, claims, action);
    var evs :| RunsTo(f, evs, s);
    LifecycleWellOrdered(post);
    RunsAreConsistent(f, evs, s);
    ConsistentFits(f, s);
    forall i | 0 <= i < |f.dag| && Posts(f.dag[i].name).Some?
      ensures s.status[i].Ran() <==> Posts(f.dag[i].name) == Some(PhaseFor(action))
      ensures Posts(f.dag[i].name) == Some(PhaseFor(action)) ==> s.status[i] == Done
    {
      if s.status[i].Ran() { RanAfterChain(post, f, s, i); }
      if Posts(f.dag[i].name) == Some(PhaseFor(action)) {
        GuardOfOwnPhase(post, action, i);
        NoneOmitted(f, s, i);
        NotSkipped(f, s, i);
      }
    }
    ReportTask(post, action);
  }

  lemma ConsistentFits(f: Flow, s: State)
    requires Consistent(f, s)
    ensures Fits(f, s)
  {
  }

  lemma NotSkipped(f: Flow, s: State, i: nat)
    requires Consistent(f, s) && i < |f.dag| && f.action in f.dag[i].guard
    ensures s.status[i] != Skipped
  {
    assert TaskConsistent(f, s, i);
  }

  lemma GuardOfOwnPhase(post: bool, action: WorkspaceAction, i: nat)
    requires i < |Lifecycle(post)| && Posts(Lifecycle(post)[i].name) == Some(PhaseFor(action))
    ensures action in Lifecycle(post)[i].guard
  {
    LifecycleByIndex(post);
  }

  lemma {:induction false} FinishCleanly(f: Flow, evs: seq<Event>, s: State) returns (all: seq<Event>, end: State)
    requires WellOrdered(f.dag) && RunsTo(f, evs, s) && Clean(s)
    ensures RunsTo(f, all, end) && Complete(end) && Clean(end)
    decreases Remaining(s)
  {
    hide WellOrdered, Enabled, Apply, Weight, Clean, Complete, Consistent;
    RunsAreConsistent(f, evs, s);
    if Complete(s) {
      all, end := evs, s;
    } else {
      ConsistentFits(f, s);
      var ev := Progress(f, s);
      EventShrinks(f, s, ev);
      assert (evs + [ev])[..|evs|] == evs;
      all, end := FinishCleanly(f, evs + [ev], Apply(f, s, ev));
    }
  }

  // Some schedule of the workflow posts that phase.
  ghost predicate MayPost(f: Flow, p: Phase) {
    exists s, i: nat :: Reachable(f, s) && i < |f.dag| && |s.status| == |f.dag| && Posts(f.dag[i].name) == Some(p)
      && s.status[i].Ran()
  }

  // The phases that the compiled workflow can post are exactly the one of its action.
  lemma MayPostExactly(post: bool, claims: nat, action: WorkspaceAction, p: Phase)
    ensures MayPost(Compiled(post, claims, action), p) <==> p == PhaseFor(action)
  {
    hide Lifecycle, Complete, Clean;
    var f := Compiled(post, claims, action);
    if MayPost(f, p) {
      var s, i: nat :| Reachable(f, s) && i < |f.dag| && |s.status| == |f.dag| && Posts(f.dag[i].name) == Some(p)
        && s.status[i].Ran();
      SetPhaseSafety(post, claims, action, s, i);
    }
    if p == PhaseFor(action) {
      LifecycleWellOrdered(post);
      CleanStart(f);
      var evs, s := FinishCleanly(f, [], Initial(f));
      CleanRunReports(post, claims, action, s);
    }
  }

  lemma CleanStart(f: Flow)
    ensures RunsTo(f, [], Initial(f)) && Clean(Initial(f))
  {
  }

  // The user's post-execution task starts only after the action has reported its phase.
  lemma PostExecutionComesLast(claims: nat, action: WorkspaceAction, s: State)
    requires Reachable(Compiled(true, claims, action), s) && |s.status| == 12
    requires s.status[Index(PostExecution)].Ran()
    ensures exists i :: 0 <= i < 11 && Posts(Lifecycle(true)[i].name) == Some(PhaseFor(action)) && s.status[i] == Done
    ensures ChainSucceeded(Compiled(true, claims, action), s)
  {
    hide Consistent, WellOrdered;
    var f := Compiled(true, claims, action);
    var evs :| RunsTo(f, evs, s);
    LifecycleWellOrdered(true);
    LifecycleByIndex(true);
    RunsAreConsistent(f, evs, s);
    ReportTask(true, action);
    var i := ReportIndex(action);
    GuardOfOwnPhase(true, action, i);
    assert f.dag[Index(PostExecution)].name == PostExecution;
    DependencySucceeded(true, f, s, PostExecution, f.dag[i].name);
    RanAfterChain(true, f, s, i);
  }

  // ----- which tasks run, told action by action

  // The tasks of each action, one after the other; the user's comes last.
  function Chain(post: bool, action: WorkspaceAction): seq<TaskName> {
    (match action
     case Create =>
       [Service, VirtualService, CreateStatefulSet, GetStatefulSet, CreateWorkspace, SetPhaseRunning]
     case Update =>
       [Service, VirtualService, CreateStatefulSet, GetStatefulSet, CreateWorkspace, SetPhaseRunning]
     case Pause =>
       [Service, VirtualService, DeleteStatefulSet, DeleteWorkspace, SetPhasePaused]
     case Delete =>
       [Service, VirtualService, DeleteStatefulSet, DeleteWorkspace, DeletePVC, SetPhaseTerminated])
    + if post then [PostExecution] else []
  }

  function StatusOf(s: State, t: TaskName): Status
    requires Index(t) < |s.status|
  {
    s.status[Index(t)]
  }

  lemma ChainIsGuarded(post: bool, action: WorkspaceAction, i: nat)
    requires i < |Lifecycle(post)|
    ensures action in Lifecycle(post)[i].guard <==> Lifecycle(post)[i].name in Chain(post, action)
  {
    match action
    case Create =>
    case Update =>
    case Pause =>
    case Delete =>
  }

  lemma ChainInOrder(post: bool, action: WorkspaceAction, k: nat)
    requires k < |Chain(post, action)|
    ensures var c, d := Chain(post, action), Lifecycle(post);
      && Index(c[k]) < |d| && d[Index(c[k])].name == c[k]
      && (k > 0 ==> c[k - 1] in d[Index(c[k])].deps && c[k - 1] != PostExecution)
      && forall i :: 0 <= i < Index(c[k]) && d[i].name in c ==> exists j :: 0 <= j < k && c[j] == d[i].name
  {
    hide Lifecycle, Chain;
    ChainLinks(post, action, k);
    LifecycleByIndex(post);
    var c, d := Chain(post, action), Lifecycle(post);
    forall i | 0 <= i < Index(c[k]) && d[i].name in c
      ensures exists j :: 0 <= j < k && c[j] == d[i].name
    {
      var j :| 0 <= j < |c| && c[j] == d[i].name;
      if j >= k { LaterInChain(post, action, k, j); }
    }
  }

  lemma ChainLinks(post: bool, action: WorkspaceAction, k: nat)
    requires k < |Chain(post, action)|
    ensures var c, d := Chain(post, action), Lifecycle(post);
      && Index(c[k]) < |d| && d[Index(c[k])].name == c[k]
      && (k > 0 ==> c[k - 1] in d[Index(c[k])].deps && c[k - 1] != PostExecution)
  {
  }

  lemma LaterInChain(post: bool, action: WorkspaceAction, k: nat, j: nat)
    requires k <= j < |Chain(post, action)|
    ensures Index(Chain(post, action)[k]) <= Index(Chain(post, action)[j])
  {
  }

  // A task of the chain has begun only when those before it have succeeded.
  lemma {:induction false} RanAfterThoseBefore(post: bool, f: Flow, s: State, k: nat)
    requires f.dag == Lifecycle(post) && Consistent(f, s) && k < |Chain(post, f.action)|
    requires Index(Chain(post, f.action)[k]) < |s.status| && StatusOf(s, Chain(post, f.action)[k]).Ran()
    ensures forall j :: 0 <= j < k ==> Succeeded(s, Chain(post, f.action)[j])
  {
    hide Consistent, Lifecycle, Chain;
    ChainInOrder(post, f.action, k);
    if k > 0 {
      var c := Chain(post, f.action);
      ChainInOrder(post, f.action, k - 1);
      ChainIsGuarded(post, f.action, Index(c[k - 1]));
      DependencySucceeded(post, f, s, c[k], c[k - 1]);
      RanAfterThoseBefore(post, f, s, k - 1);
    }
  }

  // When the tasks of the chain among the first n have succeeded, the others among them are skipped.
  lemma {:induction false} OthersAreSkipped(post: bool, f: Flow, s: State, n: nat)
    requires f.dag == Lifecycle(post) && Consistent(f, s) && Complete(s) && n <= |f.dag|
    requires forall i :: 0 <= i < n && f.dag[i].name in Chain(post, f.action) ==> s.status[i] == Done
    ensures forall i :: 0 <= i < n ==>
      s.status[i] == if f.dag[i].name in Chain(post, f.action) then Done else Skipped
  {
    hide Lifecycle, Chain;
    if n > 0 {
      var i := n - 1;
      OthersAreSkipped(post, f, s, i);
      LifecycleByIndex(post);
      assert TaskConsistent(f, s, i);
      ChainIsGuarded(post, f.action, i);
      forall j | 0 <= j < |f.dag| && DependsOnTask(f, i, j)
        ensures s.status[j].Satisfies()
      {
        assert Index(f.dag[j].name) == j;
      }
    }
  }

  // On every run to the end: a task of the chain runs exactly when those before it have succeeded, and
  // no other task runs. At any moment before, a task has begun only when those before it have succeeded.
  lemma RunsExactlyWhen(post: bool, claims: nat, action: WorkspaceAction, s: State, t: TaskName)
    requires Reachable(Compiled(post, claims, action), s) && (t == PostExecution ==> post)
    ensures var c := Chain(post, action);
      && Index(t) < |s.status| && (forall u :: u in c ==> Index(u) < |s.status|)
      && (t !in c ==> !StatusOf(s, t).Ran())
      && (forall k :: 0 <= k < |c| && c[k] == t && StatusOf(s, t).Ran() ==>
            forall j :: 0 <= j < k ==> StatusOf(s, c[j]) == Done)
      && (Complete(s) ==> forall k :: 0 <= k < |c| && c[k] == t ==>
            (StatusOf(s, t).Ran() <==> forall j :: 0 <= j < k ==> StatusOf(s, c[j]) == Done))
  {
    hide Consistent, Lifecycle, Chain, WellOrdered, RunsTo;
    var f, c := Compiled(post, claims, action), Chain(post, action);
    var evs :| RunsTo(f, evs, s);
    LifecycleWellOrdered(post);
    LifecycleByIndex(post);
    RunsAreConsistent(f, evs, s);
    ConsistentFits(f, s);
    ChainFits(post, action);
    if StatusOf(s, t).Ran() {
      GuardHolds(f, s, Index(t));
      ChainIsGuarded(post, action, Index(t));
    }
    forall k | 0 <= k < |c| && c[k] == t
      ensures StatusOf(s, t).Ran() ==> forall j :: 0 <= j < k ==> StatusOf(s, c[j]) == Done
      ensures Complete(s) && (forall j :: 0 <= j < k ==> StatusOf(s, c[j]) == Done) ==> StatusOf(s, t).Ran()
    {
      if StatusOf(s, t).Ran() { RanAfterThoseBefore(post, f, s, k); }
      if Complete(s) && forall j :: 0 <= j < k ==> StatusOf(s, c[j]) == Done { RunsWhenReached(post, f, s, k); }
    }
  }

  lemma ChainFits(post: bool, action: WorkspaceAction)
    ensures forall u :: u in Chain(post, action) ==> Index(u) < |Lifecycle(post)|
    ensures |Chain(post, action)| > 0
  {
  }

  lemma RunsWhenReached(post: bool, f: Flow, s: State, k: nat)
    requires f.dag == Lifecycle(post) && Consistent(f, s) && Complete(s) && k < |Chain(post, f.action)|
    requires forall j :: 0 <= j < k ==> Succeeded(s, Chain(post, f.action)[j])
    ensures Index(Chain(post, f.action)[k]) < |s.status| && StatusOf(s, Chain(post, f.action)[k]).Ran()
  {
    hide Lifecycle, Chain;
    var c := Chain(post, f.action);
    LifecycleByIndex(post);
    ChainInOrder(post, f.action, k);
    var i := Index(c[k]);
    forall j | 0 <= j < i && f.dag[j].name in c
      ensures s.status[j] == Done
    {
      var h :| 0 <= h < k && c[h] == f.dag[j].name;
      assert Succeeded(s, c[h]);
    }
    OthersAreSkipped(post, f, s, i);
    ChainIsGuarded(post, f.action, i);
    assert TaskConsistent(f, s, i);
    forall j | 0 <= j < |f.dag| && DependsOnTask(f, i, j)
      ensures s.status[j].Satisfies()
    {
      assert Index(f.dag[j].name) == j;
    }
  }

  // So if every task succeeds, all tasks of the chain are done, the user's included, and all others are
  // skipped.
  lemma CleanRunOutcome(post: bool, claims: nat, action: WorkspaceAction, s: State, t: TaskName)
    requires Reachable(Compiled(post, claims, action), s) && Complete(s) && Clean(s) && (t == PostExecution ==> post)
    ensures Index(t) < |s.status|
    ensures StatusOf(s, t) == if t in Chain(post, action) then Done else Skipped
    ensures post && t == PostExecution ==> StatusOf(s, t) == Done
  {
    hide Consistent, Lifecycle, WellOrdered, RunsTo;
    var f := Compiled(post, claims, action);
    var evs :| RunsTo(f, evs, s);
    LifecycleWellOrdered(post);
    LifecycleByIndex(post);
    RunsAreConsistent(f, evs, s);
    ConsistentFits(f, s);
    var i := Index(t);
    ChainIsGuarded(post, action, i);
    NoneOmitted(f, s, i);
    if t in Chain(post, action) {
      NotSkipped(f, s, i);
    } else if s.status[i].Ran() {
      GuardHolds(f, s, i);
    }
  }

  // The user's task runs to the end exactly when the action has reported its phase: then all other
  // dependencies are skipped.
  lemma PostExecutionRunsExactlyWhen(claims: nat, action: WorkspaceAction, s: State)
    requires Reachable(Compiled(true, claims, action), s) && Complete(s)
    ensures |s.status| == 12
    ensures StatusOf(s, PostExecution).Ran() <==> StatusOf(s, ReportOf(action)) == Done
  {
    hide RunsTo, Lifecycle, Complete;
    var c := Chain(true, action);
    var n := |c| - 1;
    assert c[n] == PostExecution && c[n - 1] == ReportOf(action);
    RunsExactlyWhen(true, claims, action, s, PostExecution);
    RunsExactlyWhen(true, claims, action, s, ReportOf(action));
    TwelveTasks(claims, action, s);
  }

  lemma TwelveTasks(claims: nat, action: WorkspaceAction, s: State)
    requires Reachable(Compiled(true, claims, action), s)
    ensures |s.status| == 12
  {
    hide Consistent, WellOrdered;
    var f := Compiled(true, claims, action);
    var evs :| RunsTo(f, evs, s);
    LifecycleWellOrdered(true);
    RunsAreConsistent(f, evs, s);
    ConsistentFits(f, s);
  }

  // What became of a task or of the deletion of a claim is what its last event said.
  lemma {:induction false} OutcomeStays(f: Flow, evs: seq<Event>, s: State, ev: Event)
    requires RunsTo(f, evs, s) && ev in evs
    ensures Fits(f, s)
    ensures match ev
      case Ready(i) => i < |s.status| && s.status[i] != Pending
      case FinishItem(k, ok) => k < |s.items| && s.items[k] == if ok then Done else Broken
      case Finish(i, ok) => i < |s.status| && s.status[i] == if ok then Done else Broken
    decreases |evs|
  {
    hide DepsFinished, DepsSatisfied, Complete;
    var n := |evs| - 1;
    var r :| RunsTo(f, evs[..n], r) && Fits(f, r) && Enabled(f, r, evs[n]) && s == Apply(f, r, evs[n]);
    if ev in evs[..n] {
      OutcomeStays(f, evs[..n], r, ev);
      EventKeepsStatus(f, r, evs[n]);
      EventEndsPending(f, r, evs[n]);
    } else {
      assert ev == evs[n];
    }
  }

  lemma EventEndsPending(f: Flow, s: State, ev: Event)
    requires Fits(f, s) && Enabled(f, s, ev)
    ensures forall i :: 0 <= i < |s.status| && s.status[i] != Pending ==> Apply(f, s, ev).status[i] != Pending
  {
    hide DepsFinished, DepsSatisfied;
  }

  // So once a task of the chain has failed, none behind it ever runs ...
  lemma FailureBlocks(post: bool, claims: nat, action: WorkspaceAction, evs: seq<Event>, s: State, j: nat, k: nat)
    requires RunsTo(Compiled(post, claims, action), evs, s) && j < k < |Chain(post, action)|
    requires Finish(Index(Chain(post, action)[j]), false) in evs
    ensures Index(Chain(post, action)[k]) < |s.status| && !StatusOf(s, Chain(post, action)[k]).Ran()
  {
    hide RunsTo, Lifecycle, Chain, Complete;
    var f, c := Compiled(post, claims, action), Chain(post, action);
    OutcomeStays(f, evs, s, Finish(Index(c[j]), false));
    assert Reachable(f, s);
    ChainFits(post, action);
    LifecycleByIndex(post);
    RunsExactlyWhen(post, claims, action, s, c[k]);
  }

  // ... and once the deletion of a claim has failed, the workspace is not reported as terminated.
  lemma FailedDeletionBlocks(post: bool, claims: nat, evs: seq<Event>, s: State, k: nat)
    requires RunsTo(Compiled(post, claims, Delete), evs, s) && FinishItem(k, false) in evs
    ensures Index(SetPhaseTerminated) < |s.status| && !StatusOf(s, SetPhaseTerminated).Ran()
  {
    hide RunsTo, Complete;
    var f := Compiled(post, claims, Delete);
    OutcomeStays(f, evs, s, FinishItem(k, false));
    assert Reachable(f, s);
    LifecycleByIndex(post);
    if StatusOf(s, SetPhaseTerminated).Ran() {
      SetPhaseSafety(post, claims, Delete, s, Index(SetPhaseTerminated));
    }
  }

  // The volume claims are touched by a delete alone, and not before the workspace is gone.
  lemma ClaimsAreKept(post: bool, claims: nat, action: WorkspaceAction, s: State, k: nat)
    requires Reachable(Compiled(post, claims, action), s) && k < claims
    ensures k < |s.items| && s.items[k] in {Started, Done, Broken}
    ensures s.items[k] != Started ==>
      action == Delete && Succeeded(s, DeleteStatefulSet) && Succeeded(s, DeleteWorkspace)
  {
    hide Consistent, Lifecycle, WellOrdered, RunsTo;
    var f := Compiled(post, claims, action);
    var evs :| RunsTo(f, evs, s);
    LifecycleWellOrdered(post);
    LifecycleByIndex(post);
    RunsAreConsistent(f, evs, s);
    ConsistentFits(f, s);
    RunsExactlyWhen(post, claims, action, s, DeletePVC);
    UntouchedItems(f, s, Index(DeletePVC), k);
    if s.items[k] != Started {
      assert Chain(post, Delete)[4] == DeletePVC && Chain(post, Delete)[2] == DeleteStatefulSet;
      assert Chain(post, Delete)[3] == DeleteWorkspace;
    }
  }

  lemma UntouchedItems(f: Flow, s: State, i: nat, k: nat)
    requires Consistent(f, s) && i < |f.dag| && f.dag[i].name == DeletePVC && k < f.claims
    ensures s.items[k] in {Started, Done, Broken}
    ensures !s.status[i].Ran() ==> s.items[k] == Started
  {
    assert TaskConsistent(f, s, i);
  }

  // ----- the set-phase task of an action, for the protocol built on this

  // A flow compiled from some workspace template.
  ghost predicate IsCompiled(f: Flow, action: WorkspaceAction) {
    f.action == action && exists post :: f.dag == Lifecycle(post)
  }

  // A task that the action lets through belongs to its chain, unless it reports or comes after.
  lemma GuardedTask(post: bool, k: nat, f: Flow, s: State)
    requires f.dag == Lifecycle(post) && k < |f.dag| && f.action in f.dag[k].guard
    requires ChainSucceeded(f, s)
    ensures k in {ReportIndex(f.action), Index(PostExecution)} || (k < |s.status| && s.status[k] == Done)
  {
    hide Lifecycle;
    LifecycleByIndex(post);
    ChainIsGuarded(post, f.action, k);
  }

  // Some set-phase task has begun.
  ghost predicate ReportBegun(f: Flow, s: State) {
    exists i :: 0 <= i < |f.dag| && i < |s.status| && Posts(f.dag[i].name).Some? && s.status[i].Ran()
  }

  // It is the one of the action, and its chain is behind it.
  lemma BegunAfterChain(f: Flow, s: State, i: nat)
    requires IsCompiled(f, f.action) && Consistent(f, s)
    requires i < |f.dag| && i < |s.status| && Posts(f.dag[i].name).Some? && s.status[i].Ran()
    ensures i == ReportIndex(f.action) && Posts(f.dag[i].name) == Some(PhaseFor(f.action))
    ensures ChainSucceeded(f, s)
  {
    hide Lifecycle, Consistent, ChainSucceeded;
    var post :| f.dag == Lifecycle(post);
    RanAfterChain(post, f, s, i);
    ReportTask(post, f.action);
    GuardHolds(f, s, i);
    OneGuardPerAction(post, i, ReportIndex(f.action), f.action);
  }

  lemma EventKeepsCompiled(f: Flow, s: State, ev: Event)
    requires IsCompiled(f, f.action) && Consistent(f, s) && Enabled(f, s, ev)
    ensures Consistent(f, Apply(f, s, ev))
  {
    hide Lifecycle, Consistent, WellOrdered;
    var post :| f.dag == Lifecycle(post);
    LifecycleWellOrdered(post);
    StepKeepsConsistent(f, s, ev);
  }

  // What has begun, succeeded or failed stays so.
  lemma EventKeepsStatus(f: Flow, s: State, ev: Event)
    requires Fits(f, s) && Enabled(f, s, ev)
    ensures var r := Apply(f, s, ev);
      && (forall i :: 0 <= i < |s.status| && s.status[i].Ran() ==> r.status[i].Ran())
      && (forall i :: 0 <= i < |s.status| && s.status[i].Finished() ==> r.status[i] == s.status[i])
      && (forall k :: 0 <= k < |s.items| && s.items[k] != Started ==> r.items[k] == s.items[k])
      && !Complete(s)
  {
    hide DepsFinished, DepsSatisfied;
    match ev
    case Ready(i) =>
    case FinishItem(k, ok) =>
    case Finish(i, ok) =>
  }

  lemma EventKeepsProgress(f: Flow, s: State, ev: Event)
    requires Fits(f, s) && Enabled(f, s, ev)
    ensures var r := Apply(f, s, ev);
      && (ReportBegun(f, s) ==> ReportBegun(f, r))
      && (ChainSucceeded(f, s) ==> ChainSucceeded(f, r))
      && (Clean(r) ==> Clean(s))
  {
    hide Enabled, Apply;
    EventKeepsStatus(f, s, ev);
  }

  // The set-phase task can begin only while nothing has failed: every task before it that runs for
  // the action is in its chain.
  lemma BeginsClean(post: bool, f: Flow, s: State)
    requires f.dag == Lifecycle(post) && Consistent(f, s)
    requires s.status[ReportIndex(f.action)] == Pending && DepsSatisfied(f, s, ReportIndex(f.action))
    ensures Clean(s)
  {
    hide Lifecycle, ChainSucceeded;
    ChainBehindReady(post, f, s);
    var i := ReportIndex(f.action);
    forall k | 0 <= k < |f.dag|
      ensures s.status[k] != Broken
    {
      assert TaskConsistent(f, s, k);
      if s.status[k].Ran() {
        GuardedTask(post, k, f, s);
        if k == 11 { ReportsBeforeLast(post, f, i); }
      }
    }
    NoClaimBroken(post, f, s);
  }

  lemma ReportsBeforeLast(post: bool, f: Flow, i: nat)
    requires f.dag == Lifecycle(post) && |f.dag| > 11 && i == ReportIndex(f.action)
    ensures DependsOnTask(f, 11, i)
  {
  }

  lemma NoClaimBroken(post: bool, f: Flow, s: State)
    requires f.dag == Lifecycle(post) && Consistent(f, s) && ChainSucceeded(f, s)
    ensures forall k :: 0 <= k < |s.items| ==> s.items[k] != Broken
  {
    LifecycleByIndex(post);
    assert TaskConsistent(f, s, 7);
  }

  lemma ChainBehindReady(post: bool, f: Flow, s: State)
    requires f.dag == Lifecycle(post) && Consistent(f, s)
    requires s.status[ReportIndex(f.action)] == Pending && DepsSatisfied(f, s, ReportIndex(f.action))
    ensures ChainSucceeded(f, s)
  {
    hide Consistent, TaskConsistent, Lifecycle, Link;
    LifecycleLinks(post);
    ReportTask(post, f.action);
    SatisfiedDependency(post, f, s, LastBeforeReport(f.action));
    if f.action == Delete {
      LinkSucceeded(post, f, s, DeletePVC, DeleteWorkspace, {Pause, Delete});
      ClaimsDeleted(post, f, s);
    }
    if f.action in {Pause, Delete} {
      LinkSucceeded(post, f, s, DeleteWorkspace, DeleteStatefulSet, {Pause, Delete});
      LinkSucceeded(post, f, s, DeleteStatefulSet, VirtualService, ANY);
    } else {
      LinkSucceeded(post, f, s, CreateWorkspace, GetStatefulSet, {Create, Update});
      LinkSucceeded(post, f, s, GetStatefulSet, CreateStatefulSet, {Create, Update});
      LinkSucceeded(post, f, s, CreateStatefulSet, VirtualService, ANY);
    }
    LinkSucceeded(post, f, s, VirtualService, Service, ANY);
  }

  lemma SatisfiedDependency(post: bool, f: Flow, s: State, u: TaskName)
    requires f.dag == Lifecycle(post) && Consistent(f, s)
    requires DepsSatisfied(f, s, ReportIndex(f.action))
    requires u in f.dag[ReportIndex(f.action)].deps
    ensures Succeeded(s, u)
  {
    LifecycleByIndex(post);
    assert TaskConsistent(f, s, Index(u));
    assert DependsOnTask(f, ReportIndex(f.action), Index(u));
  }

  // Without a failure, the set-phase task does begin when it is ready.
  lemma ReadyBegins(f: Flow, s: State, i: nat)
    requires IsCompiled(f, f.action) && Consistent(f, s) && Clean(s)
    requires i == ReportIndex(f.action) && i < |f.dag| && Enabled(f, s, Ready(i))
    ensures Apply(f, s, Ready(i)).status[i] == Started
  {
    var post :| f.dag == Lifecycle(post);
    LifecycleWellOrdered(post);
    ReportTask(post, f.action);
    hide Lifecycle, WellOrdered;
    forall j | 0 <= j < |f.dag| && DependsOnTask(f, i, j)
      ensures s.status[j].Satisfies()
    {
      NoneOmitted(f, s, j);
    }
  }
}
