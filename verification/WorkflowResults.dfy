/**
 The main results about createWorkflow's rewriting: well-formedness is kept, the user's ordering
 is kept, the user's tasks run between the injected set-up and tear-down, and what happens outside
 the hypotheses.
 */
module WorkflowResults {
  import opened Wrappers
  import opened DependencyGraph
  import opened WorkflowModel
  import opened WorkflowPasses
  import opened EntryGraph
  import opened ExitGraph
  import opened PreparedWorkflow

  // A workflow the validator accepts, fresh identifiers for it, and a port on every interactive sidecar.
  ghost predicate Input(w: WorkflowView, draws: seq<Draw>) {
    && WellFormedWorkflow(w)
    && Fresh(w, draws)
    && AllHavePorts(SidecarsOf(w))
    && |SidecarsOf(w)| <= |draws|
  }

  // the identifiers actually used
  ghost function Used(w: WorkflowView, draws: seq<Draw>): seq<Draw>
    requires Input(w, draws)
  {
    draws[..|SidecarsOf(w)|]
  }

  lemma UsedIsFresh(w: WorkflowView, draws: seq<Draw>)
    requires Input(w, draws)
    ensures var ds := Used(w, draws);
      DistinctDraws(ds) && Untouched(EntryOf(w), ds) && Untouched(ExitOf(w), ds)
  {
    hide Accepted, SidecarsOf, AllHavePorts;
  }

  lemma Assemble(p: WorkflowView, g: seq<Task>, x: seq<Task>)
    requires UniqueTemplates(p.templates) && ReferencesResolved(p.templates)
    requires DagOf(p.templates, p.entrypoint) == Some(g) && g != [] && WellFormed(g)
    requires p.onExit != "" && p.onExit != p.entrypoint
    requires DagOf(p.templates, p.onExit) == Some(x) && WellFormed(x)
    ensures WellFormedWorkflow(p) && EntryOf(p) == g && ExitOf(p) == x
  {
    hide UniqueTemplates, ReferencesResolved, DagOf, WellFormed;
  }

  lemma ExitIsWellFormed(w: WorkflowView)
    requires WellFormedWorkflow(w)
    ensures WellFormed(ExitOf(w))
  {
    if w.onExit == "" {
      forall a
        ensures !DependsOn([], a, a)
      {
        if DependsOn([], a, a) { var c := DependsHasFirstEdge([], a, a); }
      }
    }
  }

  lemma RewrittenDagsAreWellFormed(w: WorkflowView, draws: seq<Draw>)
    requires Input(w, draws)
    ensures EntryDag(EntryOf(w), Used(w, draws)) != [] && WellFormed(EntryDag(EntryOf(w), Used(w, draws)))
    ensures WellFormed(ExitDag(ExitOf(w), Used(w, draws)))
  {
    hide SidecarsOf, Fresh, EntryDag, ExitDag, HasTemplate, ReferencesResolved, UniqueTemplates, WellFormed,
         DistinctDraws, Untouched;
    UsedIsFresh(w, draws);
    ExitIsWellFormed(w);
    EntryWellFormed(EntryOf(w), Used(w, draws));
    ExitWellFormed(ExitOf(w), Used(w, draws));
    EntryNotEmpty(EntryOf(w), Used(w, draws));
  }

  // Every well-formed workflow is turned into a well-formed workflow.
  lemma PreparedIsWellFormed(w: WorkflowView, draws: seq<Draw>)
    requires Input(w, draws)
    ensures Prepare(w, draws).Ok?
    ensures var p := Prepare(w, draws).value;
      && WellFormedWorkflow(p)
      && p.onExit != ""
      && EntryOf(p) == EntryDag(EntryOf(w), Used(w, draws))
      && ExitOf(p) == ExitDag(ExitOf(w), Used(w, draws))
  {
    RewrittenDagsAreWellFormed(w, draws);
    HandlerIsNotEntry(w, draws);
    NotItsOwnExit(w);
    hide SidecarsOf, Fresh, EntryDag, ExitDag, Prepare, Accepted, WellFormed, DagOf;
    PreparedDags(w, draws);
    PreparedReferences(w, draws);
    Assemble(Prepare(w, draws).value, EntryDag(EntryOf(w), Used(w, draws)), ExitDag(ExitOf(w), Used(w, draws)));
  }

  lemma NotItsOwnExit(w: WorkflowView)
    requires WellFormedWorkflow(w)
    ensures w.onExit != "" ==> w.onExit != w.entrypoint
  {
  }

  lemma EntryNotEmpty(g: seq<Task>, draws: seq<Draw>)
    requires g != []
    ensures EntryDag(g, draws) != []
  {
  }

  lemma HandlerIsNotEntry(w: WorkflowView, draws: seq<Draw>)
    requires WellFormedWorkflow(w) && Fresh(w, draws)
    ensures w.onExit == "" ==> w.entrypoint != EXIT_HANDLER
  {
    var i := FirstNamed(w.templates, w.entrypoint);
    assert HasTemplate(w.templates, w.templates[i].name);
  }

  // Between the user's own tasks, dependence is what it was: nothing gained, nothing lost.
  lemma MeaningPreserved(w: WorkflowView, draws: seq<Draw>)
    requires Input(w, draws)
    ensures Prepare(w, draws).Ok? && WellFormedWorkflow(Prepare(w, draws).value)
    ensures var p := Prepare(w, draws).value;
      && (forall a, b :: HasTask(EntryOf(w), a) && HasTask(EntryOf(w), b) ==>
            (DependsOn(EntryOf(p), a, b) <==> DependsOn(EntryOf(w), a, b)))
      && (forall a, b :: HasTask(ExitOf(w), a) && HasTask(ExitOf(w), b) ==>
            (DependsOn(ExitOf(p), a, b) <==> DependsOn(ExitOf(w), a, b)))
  {
    hide SidecarsOf, Fresh, EntryDag, ExitDag, DependsOn, Prepare, DagOf, ReferencesResolved, UniqueTemplates;
    PreparedIsWellFormed(w, draws);
    UsedIsFresh(w, draws);
    var g, x, ds := EntryOf(w), ExitOf(w), Used(w, draws);
    EntryLayered(g, ds);
    ExitLayered(x, ds);
    forall a, b | HasTask(g, a) && HasTask(g, b)
      ensures DependsOn(EntryDag(g, ds), a, b) <==> DependsOn(g, a, b)
    {
      LayeringKeepsDependence(g, EntryDag(g, ds), Names(g), a, b);
    }
    forall a, b | HasTask(x, a) && HasTask(x, b)
      ensures DependsOn(ExitDag(x, ds), a, b) <==> DependsOn(x, a, b)
    {
      LayeringKeepsDependence(x, ExitDag(x, ds), Names(x), a, b);
    }
  }

  lemma EntrySchedulesSame(w: WorkflowView, draws: seq<Draw>, s: seq<string>)
    requires Input(w, draws)
    ensures var g := EntryOf(w);
      Schedule(g, s) <==> exists r :: Schedule(EntryDag(g, Used(w, draws)), r) && Restrict(r, Names(g)) == s
  {
    hide SidecarsOf, Fresh, EntryDag, Schedule, Restrict, DagOf, ReferencesResolved, UniqueTemplates;
    UsedIsFresh(w, draws);
    EntrySchedules(EntryOf(w), Used(w, draws));
  }

  lemma ExitSchedulesSame(w: WorkflowView, draws: seq<Draw>, s: seq<string>)
    requires Input(w, draws)
    ensures var g := ExitOf(w);
      Schedule(g, s) <==> exists r :: Schedule(ExitDag(g, Used(w, draws)), r) && Restrict(r, Names(g)) == s
  {
    hide SidecarsOf, Fresh, ExitDag, Schedule, Restrict, DagOf, ReferencesResolved, UniqueTemplates;
    UsedIsFresh(w, draws);
    ExitIsWellFormed(w);
    ExitSchedules(ExitOf(w), Used(w, draws));
  }

  // The orders in which the user's entry tasks can run are the same before and after, and so are
  // those of the user's exit tasks.
  lemma SchedulesPreserved(w: WorkflowView, draws: seq<Draw>, s: seq<string>)
    requires Input(w, draws)
    ensures Prepare(w, draws).Ok? && WellFormedWorkflow(Prepare(w, draws).value)
    ensures Schedule(EntryOf(w), s) <==>
      exists r :: Schedule(EntryOf(Prepare(w, draws).value), r) && Restrict(r, Names(EntryOf(w))) == s
    ensures Schedule(ExitOf(w), s) <==>
      exists r :: Schedule(ExitOf(Prepare(w, draws).value), r) && Restrict(r, Names(ExitOf(w))) == s
  {
    hide Input, WellFormedWorkflow, EntryOf, ExitOf, EntryDag, ExitDag, Schedule, Restrict, Prepare, Used;
    PreparedIsWellFormed(w, draws);
    EntrySchedulesSame(w, draws, s);
    ExitSchedulesSame(w, draws, s);
  }

  // sys-send-status comes before every user task, exactly when no task has an explicitly empty
  // dependency list (task 0 may, if there is an interactive sidecar).
  lemma StatusComesFirst(w: WorkflowView, draws: seq<Draw>)
    requires Input(w, draws)
    ensures Prepare(w, draws).Ok? && WellFormedWorkflow(Prepare(w, draws).value)
    ensures
      (forall a :: HasTask(EntryOf(w), a) ==> DependsOn(EntryOf(Prepare(w, draws).value), a, SEND_STATUS)) <==>
      (forall i :: 0 <= i < |EntryOf(w)| && EntryOf(w)[i].deps == Listed([]) ==> i == 0 && SidecarsOf(w) != [])
  {
    hide SidecarsOf, Fresh, EntryDag, ExitDag, DependsOn, HasTask, Prepare, DagOf, ReferencesResolved, UniqueTemplates;
    PreparedIsWellFormed(w, draws);
    UsedIsFresh(w, draws);
    EntryBracketed(EntryOf(w), Used(w, draws));
  }

  // So in a workflow as it arrives, where an empty dependency list is nil, all of them wait.
  lemma StatusAlwaysFirst(w: WorkflowView, draws: seq<Draw>, a: string)
    requires Input(w, draws)
    requires forall i :: 0 <= i < |EntryOf(w)| ==> EntryOf(w)[i].deps != Listed([])
    requires HasTask(EntryOf(w), a)
    ensures Prepare(w, draws).Ok? && WellFormedWorkflow(Prepare(w, draws).value)
    ensures DependsOn(EntryOf(Prepare(w, draws).value), a, SEND_STATUS)
  {
    hide Accepted, SidecarsOf, Fresh, DependsOn, HasTask, Prepare, DagOf;
    StatusComesFirst(w, draws);
  }

  // Each sidecar is reachable before task 0 starts, and cleaned up before the statistics are sent.
  lemma AccessBracketsTheRun(w: WorkflowView, draws: seq<Draw>, i: nat)
    requires Input(w, draws) && i < |SidecarsOf(w)|
    ensures Prepare(w, draws).Ok? && WellFormedWorkflow(Prepare(w, draws).value)
    ensures var p, d := Prepare(w, draws).value, draws[i];
      && DependsOn(EntryOf(p), EntryOf(w)[0].name, d.VirtualAddTask())
      && DependsOn(EntryOf(p), d.VirtualAddTask(), d.ServiceAddTask())
      && DependsOn(EntryOf(p), d.ServiceAddTask(), SEND_STATUS)
      && DependsOn(ExitOf(p), SEND_EXIT_STATS, d.VirtualDeleteTask())
      && DependsOn(ExitOf(p), d.VirtualDeleteTask(), d.ServiceDeleteTask())
  {
    hide SidecarsOf, Fresh, EntryDag, ExitDag, DependsOn, HasTask, Prepare, DagOf, ReferencesResolved, UniqueTemplates;
    PreparedIsWellFormed(w, draws);
    var g, ds, d := EntryOf(w), Used(w, draws), draws[i];
    assert ds[i] == d;
    TaskZeroWaits(g, ds, i);
    AddEdges(g, ds, i);
    EdgeDepends(EntryDag(g, ds), d.VirtualAddTask(), d.ServiceAddTask());
    EdgeDepends(EntryDag(g, ds), d.ServiceAddTask(), SEND_STATUS);
    ExitBracketed(ExitOf(w), ds, i);
  }

  // ----- one create and one delete for each sidecar, of the same resource

  function TemplateNamed(ts: seq<TemplateView>, name: string): Option<TemplateView> {
    var i := FirstNamed(ts, name);
    if i == |ts| then None else Some(ts[i])
  }

  lemma FindTemplate(ts: seq<TemplateView>, t: TemplateView)
    requires UniqueTemplates(ts) && t in ts
    ensures TemplateNamed(ts, t.name) == Some(t)
  {
  }

  // a container that sends, without a DAG, a volume, a sidecar or a resource
  predicate Sends(ts: seq<TemplateView>, name: string) {
    TemplateNamed(ts, name) == Some(Template(name, None, Some([]), None, [], None))
  }

  ghost predicate CreatedAndDeleted(ts: seq<TemplateView>, create: string, delete: string, m: Manifest) {
    && TemplateNamed(ts, create) == Some(Template(create, None, None, None, [], Some(Resource(Create, m))))
    && TemplateNamed(ts, delete) == Some(Template(delete, None, None, None, [], Some(Resource(Delete, m))))
  }

  // What the create tasks of sidecar i create is what its delete tasks delete.
  lemma CreatesMatchDeletes(w: WorkflowView, draws: seq<Draw>, i: nat)
    requires Input(w, draws) && i < |SidecarsOf(w)|
    ensures Prepare(w, draws).Ok? && WellFormedWorkflow(Prepare(w, draws).value)
    ensures var p, s, d := Prepare(w, draws).value, SidecarsOf(w)[i], draws[i];
      && Task(d.ServiceAddTask(), d.ServiceAddTemplate(), Listed([SEND_STATUS])) in EntryOf(p)
      && Task(d.VirtualAddTask(), d.VirtualAddTemplate(), Listed([d.ServiceAddTask()])) in EntryOf(p)
      && Task(d.ServiceDeleteTask(), d.ServiceDeleteTemplate(), Absent) in ExitOf(p)
      && Task(d.VirtualDeleteTask(), d.VirtualDeleteTemplate(), Listed([d.ServiceDeleteTask()])) in ExitOf(p)
      && CreatedAndDeleted(p.templates, d.ServiceAddTemplate(), d.ServiceDeleteTemplate(), Service(d.service, s.ports))
      && CreatedAndDeleted(p.templates, d.VirtualAddTemplate(), d.VirtualDeleteTemplate(),
                           VirtualService(d.virtualService, d.service, s.ports))
  {
    hide SidecarsOf, Fresh, EntryDag, ExitDag, Prepare, DagOf, ReferencesResolved, UniqueTemplates, WellFormed,
         Weave, AllInteractive, ReadyForAccess;
    PreparedIsWellFormed(w, draws);
    var p, s, d, ds := Prepare(w, draws).value, SidecarsOf(w)[i], draws[i], Used(w, draws);
    assert ds[i] == d;
    EntryMembers(EntryOf(w), ds, AddTasks(d)[0]);
    EntryMembers(EntryOf(w), ds, AddTasks(d)[1]);
    ExitMembers(ExitOf(w), ds, DeleteTasks(d)[0]);
    ExitMembers(ExitOf(w), ds, DeleteTasks(d)[1]);
    AccessTemplatesOf(w, draws, i);
    hide Accepted;
    var four := AccessTemplates<Option<seq<Task>>>(None, s, d);
    assert four[0] in four && four[1] in four && four[2] in four && four[3] in four;
    FindTemplate(p.templates, four[0]);
    FindTemplate(p.templates, four[1]);
    FindTemplate(p.templates, four[2]);
    FindTemplate(p.templates, four[3]);
  }

  lemma AccessTemplatesOf(w: WorkflowView, draws: seq<Draw>, i: nat)
    requires Input(w, draws) && i < |SidecarsOf(w)|
    ensures Prepare(w, draws).Ok?
    ensures UniqueTemplates(Prepare(w, draws).value.templates)
    ensures forall t :: t in AccessTemplates(None, SidecarsOf(w)[i], draws[i]) ==>
      t in Prepare(w, draws).value.templates
  {
    hide SidecarsOf, Fresh, EntryDag, ExitDag, Prepare, DagOf, ReferencesResolved, UniqueTemplates, WellFormed,
         Accepted, Weave, AllInteractive, ReadyForAccess, AccessTemplates;
    PreparedDags(w, draws);
    var v, e, x := PrepareShape(w, draws);
    AccessTemplatesPresent(Attached(w, v, e, x, Used(w, draws)), draws, i);
  }

  // ... and nothing else was added to the entry DAG.
  lemma NothingElseAdded(w: WorkflowView, draws: seq<Draw>, a: string)
    requires Input(w, draws)
    ensures Prepare(w, draws).Ok? && WellFormedWorkflow(Prepare(w, draws).value)
    ensures HasTask(EntryOf(Prepare(w, draws).value), a) <==>
      || HasTask(EntryOf(w), a)
      || a == SEND_STATUS
      || exists i :: 0 <= i < |SidecarsOf(w)| && (a == draws[i].ServiceAddTask() || a == draws[i].VirtualAddTask())
  {
    hide SidecarsOf, Fresh, EntryDag, ExitDag, Prepare, DagOf, ReferencesResolved, UniqueTemplates, HasTask, WellFormed;
    PreparedIsWellFormed(w, draws);
    EntryTasks(EntryOf(w), Used(w, draws), a);
    var ds := Used(w, draws);
    if i :| 0 <= i < |SidecarsOf(w)| && (a == draws[i].ServiceAddTask() || a == draws[i].VirtualAddTask()) {
      assert ds[i] == draws[i];
    }
  }

  // ----- the returned template list

  // The list has every template of the workflow, in order, each right behind the four access
  // templates of each of its sidecars: n + 2 curl templates (+ 1 exit handler) + 4k in all.
  lemma TemplatesInOrder(w: WorkflowView, draws: seq<Draw>, i: nat)
    requires Input(w, draws) && i < |w.templates|
    ensures Prepare(w, draws).Ok?
    ensures var p, fs := Prepare(w, draws).value.templates, FilesyncerPass(w).templates;
      && |fs| == |w.templates|
      && |p| == |w.templates| + (if w.onExit == "" then 3 else 2) + 4 * |SidecarsOf(w)|
      && var own, m := Interactive(fs[i].sidecars), |AllInteractive(fs[..i])|;
         var start := i + 4 * m;
         && m + |own| <= |draws| && start + 4 * |own| < |p|
         && p[start..start + 4 * |own|] == AllAccessTemplates(None, own, draws[m..])
         && p[start + 4 * |own|] == fs[i].(dag := p[start + 4 * |own|].dag)
         && (w.templates[i].name != w.entrypoint && w.templates[i].name != w.onExit ==>
               p[start + 4 * |own|].dag == w.templates[i].dag)
  {
    hide Fresh, EntryDag, ExitDag, Prepare, DagOf, ReferencesResolved, UniqueTemplates, WellFormed, Weave,
         AllInteractive, Interactive, AllAccessTemplates, AddStatusRoot, FilesyncerPass, Attached, ReadyForAccess,
         SidecarsOf, BeforeAccess;
    var v, e, x := PrepareShape(w, draws);
    var ts, fs := Attached(w, v, e, x, Used(w, draws)), FilesyncerPass(w).templates;
    AttachedIsFilesynced(w, v, e, x, Used(w, draws));
    WeavePosition(ts, draws, i);
    WeaveLength(ts, draws);
    SameSidecars(ts[..i], fs[..i]);
  }

  // The first templates of the final workflow are the user's, but for sidecars and DAGs.
  lemma AttachedIsFilesynced(w: WorkflowView, v: WorkflowView, e: nat, x: nat, ds: seq<Draw>)
    requires WellFormedWorkflow(w) && e < |v.templates| && x < |v.templates| && ReadyForAccess(w, v, e, x)
    ensures var ts, fs := Attached(w, v, e, x, ds), FilesyncerPass(w).templates;
      && |fs| == |w.templates|
      && |ts| == |w.templates| + (if w.onExit == "" then 3 else 2)
      && forall i :: 0 <= i < |fs| ==>
           && ts[i] == fs[i].(dag := ts[i].dag)
           && (w.templates[i].name != w.entrypoint && w.templates[i].name != w.onExit ==>
             ts[i].dag == w.templates[i].dag)
  {
    hide EntryDag, ExitDag, DagOf, ReferencesResolved, UniqueTemplates, WellFormed, AddStatusRoot, FilesyncerPass;
    FilesyncerKeeps(w);
  }

  // ----- outside the hypotheses

  // An interactive sidecar without a port is reported by name, and the first one wins.
  lemma MissingPortIsReported(w: WorkflowView, draws: seq<Draw>, k: nat)
    requires Accepted(w) && Fresh(w, draws) && |SidecarsOf(w)| <= |draws|
    requires k < |SidecarsOf(w)| && SidecarsOf(w)[k].ports == []
    requires forall i :: 0 <= i < k ==> SidecarsOf(w)[i].ports != []
    ensures Prepare(w, draws) == Failed(UserError(SidecarsOf(w)[k].name))
  {
    hide Accepted, Fresh, ReadyForAccess, BeforeAccess, SidecarsOf, Weave, AllInteractive, RunSidecars;
    NoClashWithCurl(w, draws);
    var v, e, x := BeforeShape(w);
    SidecarsUnchanged(w, v, e, x);
    ReadyIsLocated(w, v, e, x, draws);
    RunRejects(v, e, x, SidecarsOf(w), draws, k);
  }

  lemma NoClashWithCurl(w: WorkflowView, draws: seq<Draw>)
    requires Accepted(w) && Fresh(w, draws)
    ensures !HasTemplate(w.templates, SEND_STATUS) && !HasTemplate(w.templates, SEND_EXIT_STATS)
  {
  }

  function LoneStatus(draws: seq<Draw>): seq<Task> {
    [Task(SEND_STATUS, SEND_STATUS, Listed(VirtualAdds(draws)))] + AddChains(draws)
  }

  lemma EmptyEntryStep(draws: seq<Draw>)
    requires |draws| > 1
    ensures AttachAccess(LoneStatus(draws[..|draws| - 1]), draws[|draws| - 1]) == LoneStatus(draws)
  {
    hide AddTasks;
    var n := |draws| - 1;
    assert VirtualAdds(draws[..n]) + [draws[n].VirtualAddTask()] == VirtualAdds(draws);
    forall i | 0 <= i < n
      ensures VirtualAdds(draws[..n])[i] != SEND_STATUS
    {
      TaskNamesDistinct(draws[i], draws[i]);
    }
  }

  lemma {:induction false} EmptyEntryShape(draws: seq<Draw>)
    requires draws != []
    ensures FoldAttach(AddStatusRoot([]), draws) == LoneStatus(draws)
  {
    hide AddTasks;
    var n := |draws| - 1;
    assert AddStatusRoot([]) == [StatusTask()];
    if n == 0 {
      assert draws[..n] == [];
      assert VirtualAdds(draws) == [] + [draws[0].VirtualAddTask()];
      assert AddChains(draws) == AddTasks(draws[0]);
    } else {
      EmptyEntryShape(draws[..n]);
      EmptyEntryStep(draws);
    }
  }

  // Of a workflow that is well formed but for an entry DAG that may be empty, the passes make an
  // acyclic entry DAG exactly when the user's has a task or there is no interactive sidecar. Without
  // a task, task 0 is sys-send-status itself and the first sidecar closes a cycle.
  lemma AcyclicExactlyWhenEntryNotEmpty(w: WorkflowView, draws: seq<Draw>)
    requires Accepted(w) && Fresh(w, draws) && |SidecarsOf(w)| <= |draws| && AllHavePorts(SidecarsOf(w))
    ensures Prepare(w, draws).Ok?
    ensures var p := Prepare(w, draws).value;
      && p.entrypoint == w.entrypoint && DagOf(p.templates, p.entrypoint).Some?
      && (Acyclic(EntryOf(p)) <==> EntryOf(w) != [] || SidecarsOf(w) == [])
  {
    hide Prepare, SidecarsOf, DagOf, ExitDag, FoldAttach, AddStatusRoot, Acyclic;
    var ds := draws[..|SidecarsOf(w)|];
    PreparedByPasses(w, draws);
    UntouchedPrefix(EntryOf(w), draws, |SidecarsOf(w)|);
    FoldedIsAcyclicExactlyWhen(EntryOf(w), ds);
  }

  lemma UntouchedPrefix(g: seq<Task>, draws: seq<Draw>, n: nat)
    requires Untouched(g, draws) && n <= |draws|
    ensures Untouched(g, draws[..n])
  {
  }

  lemma FoldedIsAcyclicExactlyWhen(g: seq<Task>, draws: seq<Draw>)
    requires WellFormed(g) && Untouched(g, draws)
    ensures AddStatusRoot(g) != []
    ensures Acyclic(FoldAttach(AddStatusRoot(g), draws)) <==> g != [] || draws == []
  {
    hide FoldAttach, AddTasks, AddStatusRoot;
    assert AddStatusRoot(g) != [] by { EmptyIsNotLeft(g); }
    if g != [] {
      StatusIsNoDependency(g, draws);
      EntryShape(g, draws);
      EntryAcyclic(g, draws);
    } else if draws == [] {
      StatusAloneIsAcyclic();
    } else {
      EmptyEntryShape(draws);
      CycleThroughStatus(LoneStatus(draws), draws);
    }
  }

  lemma EmptyIsNotLeft(g: seq<Task>)
    ensures AddStatusRoot(g) != []
  {
  }

  lemma StatusAloneIsAcyclic()
    ensures Acyclic(FoldAttach(AddStatusRoot([]), []))
  {
    var h := FoldAttach(AddStatusRoot([]), []);
    forall a
      ensures !DependsOn(h, a, a)
    {
      if DependsOn(h, a, a) { var c := DependsHasFirstEdge(h, a, a); }
    }
  }

  lemma CycleThroughStatus(h: seq<Task>, draws: seq<Draw>)
    requires draws != []
    requires h == LoneStatus(draws)
    ensures !Acyclic(h)
  {
    hide AddChains;
    var d := draws[0];
    ChainMembers(draws, AddTasks(d)[0]);
    ChainMembers(draws, AddTasks(d)[1]);
    assert VirtualAdds(draws)[0] == d.VirtualAddTask();
    EdgeOfTask(h, h[0], d.VirtualAddTask());
    EdgeOfTask(h, AddTasks(d)[1], d.ServiceAddTask());
    EdgeOfTask(h, AddTasks(d)[0], SEND_STATUS);
    EdgeDepends(h, SEND_STATUS, d.VirtualAddTask());
    EdgeDepends(h, d.VirtualAddTask(), d.ServiceAddTask());
    EdgeDepends(h, d.ServiceAddTask(), SEND_STATUS);
    DependsTransitive(h, SEND_STATUS, d.VirtualAddTask(), d.ServiceAddTask());
    DependsTransitive(h, SEND_STATUS, d.ServiceAddTask(), SEND_STATUS);
  }

  // The sidecar loop adds an exit handler of its own only to a workflow without one ...
  lemma {:induction false} SidecarLoopExit(w: WorkflowView, ss: seq<Sidecar>, draws: seq<Draw>)
    requires |ss| <= |draws|
    ensures var r := RunSidecars(w, ss, draws);
      r.Ok? ==>
        && (w.onExit != "" ==> r.value.onExit == w.onExit && |r.value.templates| == |w.templates|)
        && (w.onExit == "" && ss != [] ==> r.value.onExit == EXIT_HANDLER && |r.value.templates| == |w.templates| + 1)
        && (w.onExit == "" && ss == [] ==> r.value == w)
  {
    hide AddTasks, DeleteTasks, AttachDelete, AttachAccess;
    if ss != [] {
      SidecarLoopExit(w, ss[..|ss| - 1], draws);
    }
  }

  // ... which createWorkflow never gives it, because the statistics pass comes first.
  lemma NeverASecondExitHandler(w: WorkflowView, draws: seq<Draw>)
    requires |SidecarsOf(w)| <= |draws|
    ensures var b := BeforeAccess(w);
      b.Ok? ==>
        && b.value.onExit != ""
        && AllInteractive(b.value.templates) == SidecarsOf(w)
        && var r := RunSidecars(b.value, SidecarsOf(w), draws);
           r.Ok? ==> r.value.onExit == b.value.onExit && |r.value.templates| == |b.value.templates|
  {
    hide RunSidecars, AllInteractive, FilesyncerPass;
    var b := BeforeAccess(w);
    if b.Ok? {
      assert b.value.onExit != "";
      SidecarsBeforeAccess(w);
      SidecarLoopExit(b.value, SidecarsOf(w), draws);
    }
  }

  // Run on a workflow without OnExit, the loop would return a list that lacks the handler it
  // appended: OnExit then names a template of the list exactly when the workflow already had one
  // of that name, or there is no interactive sidecar and OnExit stays empty.
  lemma OwnHandlerWouldBeLost(w: WorkflowView, draws: seq<Draw>)
    requires w.onExit == "" && |AllInteractive(w.templates)| <= |draws|
    ensures var r := AccessPass(w, draws);
      r.Ok? ==>
        && |w.templates| <= |r.value.templates|
        && |AllInteractive(r.value.templates[..|w.templates|])| <= |draws|
        && var order := Weave(None, r.value.templates[..|w.templates|], draws);
           (r.value.onExit == "" || HasTemplate(order, r.value.onExit)) <==>
           (AllInteractive(w.templates) == [] || HasTemplate(w.templates, EXIT_HANDLER))
  {
    hide RunSidecars, AllInteractive, Weave, AccessTemplates, AllAccessTemplates, Draw.TemplateNames;
    var ss := AllInteractive(w.templates);
    var r := AccessPass(w, draws);
    if r.Ok? {
      SidecarLoopExit(w, ss, draws);
      RunKeepsShape(w, ss, draws);
      var ts := r.value.templates[..|w.templates|];
      SameSidecars(w.templates, ts);
      SameTemplateNames(ts, w.templates, draws);
      if ss != [] {
        HandlerInOrder(ts, draws);
      }
    }
  }

  lemma HandlerInOrder(ts: seq<TemplateView>, draws: seq<Draw>)
    requires |AllInteractive(ts)| <= |draws|
    ensures HasTemplate(Weave(None, ts, draws), EXIT_HANDLER) <==> HasTemplate(ts, EXIT_HANDLER)
  {
    hide AllInteractive, Weave, AccessTemplates, AllAccessTemplates, Draw.TemplateNames;
    var order := Weave(None, ts, draws);
    if HasTemplate(ts, EXIT_HANDLER) { WeaveHas(ts, draws, EXIT_HANDLER); }
    if i :| 0 <= i < |order| && order[i].name == EXIT_HANDLER {
      WeaveMembers(ts, draws, order[i]);
      if order[i] in ts {
        MemberHasTemplate(ts, order[i]);
      } else {
        AccessMembers(AllInteractive(ts), draws, order[i]);
        var k :| 0 <= k < |AllInteractive(ts)| && order[i] in AccessTemplates(None, AllInteractive(ts)[k], draws[k]);
        AccessNames(AllInteractive(ts)[k], draws[k], order[i]);
        AccessNameIsNotFixed(draws[k], order[i].name);
      }
    }
  }
}
