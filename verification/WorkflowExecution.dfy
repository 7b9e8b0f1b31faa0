/**
 The rewriting passes of createWorkflow and buildCronWorkflowDefinition on a mutable workflow.
 Templates are values, but their DAG is a pointer: a template copied into another list still
 shows every later change of its DAG. Each method is proved to compute the function of the
 same pass in WorkflowPasses.
 */
module WorkflowExecution {
  import opened Wrappers
  import opened DependencyGraph
  import opened WorkflowModel
  import opened WorkflowPasses

  ghost function DagsOf(ts: seq<TemplateRef>): set<Dag> {
    set t | t in ts && t.dag != null :: t.dag
  }

  // Two templates never share a DAG: each is unmarshalled on its own.
  ghost predicate OwnDags(ts: seq<TemplateRef>) {
    forall i, j :: 0 <= i < j < |ts| && ts[i].dag != null ==> ts[i].dag != ts[j].dag
  }

  ghost function ViewOf(t: TemplateRef): TemplateView
    reads t.dag
  {
    Template(t.name, if t.dag == null then None else Some(t.dag.tasks),
      t.container, t.script, t.sidecars, t.resource)
  }

  ghost function Views(ts: seq<TemplateRef>): (r: seq<TemplateView>)
    reads DagsOf(ts)
    ensures |r| == |ts|
    ensures forall i :: 0 <= i < |ts| ==> r[i] == ViewOf(ts[i])
  {
    seq(|ts|, i requires 0 <= i < |ts| reads DagsOf(ts) => assert ts[i] in ts; ViewOf(ts[i]))
  }

  class Workflow {
    var templates: seq<TemplateRef>
    var entrypoint: string
    var onExit: string

    constructor (templates: seq<TemplateRef>, entrypoint: string, onExit: string)
      ensures this.templates == templates && this.entrypoint == entrypoint && this.onExit == onExit
    {
      this.templates, this.entrypoint, this.onExit := templates, entrypoint, onExit;
    }

    ghost predicate Valid()
      reads this
    {
      OwnDags(templates)
    }

    ghost function Dags(): set<Dag>
      reads this
    {
      DagsOf(templates)
    }

    ghost function View(): WorkflowView
      reads this, Dags()
    {
      WorkflowView(Views(templates), entrypoint, onExit)
    }

    method InjectFilesyncerSidecar()
      requires Valid()
      modifies this`templates
      ensures Valid() && Dags() == old(Dags())
      ensures View() == FilesyncerPass(old(View()))
    {
      var i := 0;
      while i < |templates|
        invariant 0 <= i <= |templates| == |old(templates)|
        invariant forall j :: 0 <= j < i ==> templates[j] == AddFilesyncer(old(templates)[j])
        invariant forall j :: i <= j < |templates| ==> templates[j] == old(templates)[j]
      {
        templates := templates[i := AddFilesyncer(templates[i])];
        i := i + 1;
      }
      assert forall j :: 0 <= j < |templates| ==> templates[j].dag == old(templates)[j].dag;
      assert Dags() == old(Dags()) by {
        forall d: Dag
          ensures d in Dags() <==> d in old(Dags())
        {
          if d in Dags() {
            var j :| 0 <= j < |templates| && templates[j].dag == d;
            assert old(templates)[j] in old(templates);
          }
          if d in old(Dags()) {
            var j :| 0 <= j < |templates| && old(templates)[j].dag == d;
            assert templates[j] in templates;
          }
        }
      }
      assert Views(templates) == FilesyncerPass(old(View())).templates;
    }

    method InjectStatusCaller() returns (r: Outcome<()>)
      requires Valid()
      modifies this`templates, Dags()
      ensures r.Failed? ==> StatusPass(old(View())) == Failed(r.failure)
      ensures r.Ok? ==> StatusPass(old(View())) == Ok(View()) && Valid() && Dags() == old(Dags())
    {
      AppendLeaf(templates, CurlTemplate(SEND_STATUS, null));
      templates := templates + [CurlTemplate(SEND_STATUS, null)];
      assert Views(templates) == old(View()).templates + [CurlTemplate(SEND_STATUS, None)];
      r := AddRootToNamedDag(templates, entrypoint);
    }

    method InjectInitStats()
      requires Valid()
      modifies this`templates, Dags()
      ensures Valid() && Dags() == old(Dags()) && View() == InitPass(old(View()))
    {
      hide AddInitRoots;
      AppendLeaf(templates, CurlTemplate(SEND_INIT_STATS, null));
      templates := templates + [CurlTemplate(SEND_INIT_STATS, null)];
      ghost var ts := Views(templates);
      assert ts == old(View()).templates + [CurlTemplate(SEND_INIT_STATS, None)];
      var i := IndexOf(templates, entrypoint);
      FirstNamedInView(templates, entrypoint);
      if i < |templates| && templates[i].dag != null {
        assert templates[i] in templates;
        AddInit(templates[i].dag, templates, i);
      }
    }

    method InjectExitStats() returns (r: Outcome<()>)
      requires Valid()
      modifies this, Dags()
      ensures r.Failed? ==> ExitStatsPass(old(View())) == Failed(r.failure)
      ensures r.Ok? ==> ExitStatsPass(old(View())) == Ok(View()) && Valid() && fresh(Dags() - old(Dags()))
    {
      ghost var spec := ExitStatsPass(View());
      var stats := CurlTemplate(SEND_EXIT_STATS, null);
      var dagTask := Task(stats.name, stats.name, Absent);
      AppendLeaf(templates, stats);
      templates := templates + [stats];
      ghost var ts := Views(templates);
      assert ts == old(View()).templates + [CurlTemplate(SEND_EXIT_STATS, None)];
      if onExit != "" {
        r := AppendToNamedDag(templates, onExit, [dagTask]);
      } else {
        var dag := new Dag([dagTask]);
        AppendFresh(templates, DagTemplate(EXIT_HANDLER, dag));
        onExit := EXIT_HANDLER;
        templates := templates + [DagTemplate(EXIT_HANDLER, dag)];
        assert Views(templates) == ts + [DagTemplate(EXIT_HANDLER, Some([StatsTask()]))];
        r := Ok(());
      }
    }

    // The body of the sidecar loop, for one interactive sidecar: the four templates it adds to the order.
    method AddAccess(s: Sidecar, d: Draw) returns (r: Outcome<seq<TemplateRef>>)
      requires Valid()
      modifies this, Dags()
      ensures r.Failed? ==> SidecarStep(old(View()), s, d) == Failed(r.failure)
      ensures r.Ok? ==> SidecarStep(old(View()), s, d) == Ok(View()) && r.value == AccessTemplates(null, s, d)
      ensures r.Ok? ==> Valid() && fresh(Dags() - old(Dags())) && old(templates) <= templates
    {
      hide AttachAll, CanAttach, AttachExit, OwnDags, Views;
      if |s.ports| == 0 {
        return Failed(UserError(s.name));
      }
      var service := Service(d.service, s.ports);
      var added := [ResourceTemplate(d.ServiceAddTemplate(), null, Create, service)];
      var route := VirtualService(d.virtualService, d.service, s.ports);
      added := added + [ResourceTemplate(d.VirtualAddTemplate(), null, Create, route)];

      var attached := AttachToEntry(templates, entrypoint, d);
      if attached.Failed? {
        return Failed(attached.failure);
      }

      added := added + [ResourceTemplate(d.ServiceDeleteTemplate(), null, Delete, service)];
      added := added + [ResourceTemplate(d.VirtualDeleteTemplate(), null, Delete, route)];

      var exit := AttachExitTasks(d);
      if exit.Failed? {
        return Failed(exit.failure);
      }
      return Ok(added);
    }

    method AttachExitTasks(d: Draw) returns (r: Outcome<()>)
      requires Valid()
      modifies this, Dags()
      ensures r.Failed? ==> AttachExit(old(View()), d) == Failed(r.failure)
      ensures r.Ok? ==> AttachExit(old(View()), d) == Ok(View())
      ensures r.Ok? ==> Valid() && fresh(Dags() - old(Dags())) && old(templates) <= templates
    {
      if onExit != "" {
        r := DeleteOnExit(templates, onExit, d);
      } else {
        var dag := new Dag(DeleteTasks(d));
        AppendFresh(templates, DagTemplate(EXIT_HANDLER, dag));
        onExit := EXIT_HANDLER;
        templates := templates + [DagTemplate(EXIT_HANDLER, dag)];
        assert View() == AttachExit(old(View()), d).value;
        r := Ok(());
      }
    }

    // The sidecar loop of one template; `draws` supplies the identifiers, one for each interactive sidecar.
    method AddAccessForAll(sidecars: seq<Sidecar>, draws: seq<Draw>) returns (r: Outcome<seq<TemplateRef>>, used: nat)
      requires Valid()
      requires |Interactive(sidecars)| <= |draws|
      modifies this, Dags()
      ensures r.Failed? ==> RunSidecars(old(View()), Interactive(sidecars), draws) == Failed(r.failure)
      ensures r.Ok? ==> RunSidecars(old(View()), Interactive(sidecars), draws) == Ok(View())
      ensures r.Ok? ==> r.value == AllAccessTemplates(null, Interactive(sidecars), draws)
      ensures r.Ok? ==> used == |Interactive(sidecars)|
      ensures r.Ok? ==> Valid() && fresh(Dags() - old(Dags())) && old(templates) <= templates
    {
      ghost var w := View();
      NoSidecarsYet<Dag?>(w, null, sidecars, draws);
      hide AccessTemplates, SidecarStep, Interactive, RunSidecars, AllAccessTemplates;
      ghost var v, done := w, [];
      var order: seq<TemplateRef> := [];
      used := 0;
      var si := 0;
      while si < |sidecars|
        invariant 0 <= si <= |sidecars| && old(templates) <= templates
        invariant Valid() && fresh(Dags() - old(Dags())) && View() == v
        invariant done == Interactive(sidecars[..si]) && used == |done| <= |draws|
        invariant RunSidecars(w, done, draws) == Ok(v)
        invariant order == AllAccessTemplates(null, done, draws)
      {
        var s := sidecars[si];
        SidecarTurn<Dag?>(w, null, sidecars, si, draws);
        if INTERACTIVE in s.env {
          var added := AddAccess(s, draws[used]);
          done := Interactive(sidecars[..si + 1]);
          if added.Failed? {
            RunFailsEarly(w, sidecars, draws, si + 1);
            return Failed(added.failure), used;
          }
          v := View();
          order := order + added.value;
          used := used + 1;
        }
        si := si + 1;
      }
      assert sidecars[..si] == sidecars;
      return Ok(order), used;
    }

    method InjectAccessForSidecars(draws: seq<Draw>) returns (r: Outcome<seq<TemplateRef>>)
      requires Valid()
      requires |AllInteractive(templates)| <= |draws|
      modifies this, Dags()
      ensures r.Failed? ==> RunSidecars(old(View()), AllInteractive(old(templates)), draws) == Failed(r.failure)
      ensures r.Ok? ==> RunSidecars(old(View()), AllInteractive(old(templates)), draws) == Ok(View())
      ensures r.Ok? ==> r.value == Weave(null, old(templates), draws)
      ensures r.Ok? ==> Valid() && old(templates) <= templates
    {
      ghost var ts, w := templates, View();
      NothingYet(w, null, ts, draws);
      hide AllAccessTemplates, Interactive, RunSidecars, Weave, AllInteractive;
      var n := |templates|;
      var order: seq<TemplateRef> := [];
      var used := 0;
      var tIdx := 0;
      while tIdx < n
        invariant 0 <= tIdx <= n == |ts| && ts <= templates
        invariant Valid() && fresh(Dags() - old(Dags()))
        invariant used == |AllInteractive(ts[..tIdx])| <= |draws|
        invariant RunSidecars(w, AllInteractive(ts[..tIdx]), draws) == Ok(View())
        invariant order == Weave(null, ts[..tIdx], draws)
      {
        var t := templates[tIdx];
        TemplateTurn(w, null, ts, tIdx, draws);
        var added, more := AddAccessForAll(t.sidecars, draws[used..]);
        if added.Failed? {
          FailureSticks(w, ts, draws, tIdx + 1);
          return Failed(added.failure);
        }
        order := order + added.value + [templates[tIdx]];
        used := used + more;
        tIdx := tIdx + 1;
      }
      assert ts[..n] == ts;
      return Ok(order);
    }

    // the injections of createWorkflow that come before the sidecar loop
    method InjectBeforeAccess() returns (r: Outcome<()>)
      requires Valid()
      modifies this, Dags()
      ensures r.Failed? ==> BeforeAccess(old(View())) == Failed(r.failure)
      ensures r.Ok? ==> BeforeAccess(old(View())) == Ok(View()) && Valid() && fresh(Dags() - old(Dags()))
    {
      hide StatusPass, ExitStatsPass, FilesyncerPass, Views, OwnDags;
      InjectFilesyncerSidecar();
      r := InjectStatusCaller();
      if r.Failed? {
        return;
      }
      r := InjectExitStats();
    }

    // createWorkflow from the first injection to the assignment of the new template order
    method Prepare(draws: seq<Draw>) returns (r: Outcome<()>)
      requires Valid()
      requires |SidecarsOf(View())| <= |draws|
      modifies this, Dags()
      ensures r.Failed? ==> WorkflowPasses.Prepare(old(View()), draws) == Failed(r.failure)
      ensures r.Ok? ==> WorkflowPasses.Prepare(old(View()), draws) == Ok(View())
    {
      hide RunSidecars, Weave, AllInteractive, SidecarsOf, BeforeAccess, Views, OwnDags;
      SidecarsBeforeAccess(View());
      r := InjectBeforeAccess();
      if r.Failed? {
        return;
      }
      ghost var ts, b := templates, View();
      SameSidecars(ts, b.templates);
      var order := InjectAccessForSidecars(draws);
      if order.Failed? {
        return Failed(order.failure);
      }
      ghost var v := View();
      assert templates[..|ts|] == ts;
      ViewsOfPrefix(templates, |ts|);
      ghost var shown := v.templates[..|b.templates|];
      assert shown == Views(ts);
      SameSidecars(ts, shown);
      templates := order.value;
      WeaveView(ts, draws);
      assert View() == WorkflowView(Weave(None, shown, draws), v.entrypoint, v.onExit);
    }

    // the injections of buildCronWorkflowDefinition
    method PrepareCron() returns (r: Outcome<()>)
      requires Valid()
      modifies this, Dags()
      ensures r.Failed? ==> WorkflowPasses.PrepareCron(old(View())) == Failed(r.failure)
      ensures r.Ok? ==> WorkflowPasses.PrepareCron(old(View())) == Ok(View())
    {
      r := InjectExitStats();
      if r.Failed? {
        return;
      }
      InjectInitStats();
    }
  }

  lemma ViewsOfPrefix(ts: seq<TemplateRef>, k: nat)
    requires k <= |ts|
    ensures Views(ts)[..k] == Views(ts[..k])
  {
  }

  lemma ViewsAppend(ts: seq<TemplateRef>, us: seq<TemplateRef>)
    ensures Views(ts + us) == Views(ts) + Views(us)
  {
  }

  lemma {:induction false} AccessTemplatesView(ss: seq<Sidecar>, draws: seq<Draw>)
    requires |ss| <= |draws|
    ensures Views(AllAccessTemplates(null, ss, draws)) == AllAccessTemplates(None, ss, draws)
  {
    if ss != [] {
      var n := |ss| - 1;
      AccessTemplatesView(ss[..n], draws);
      ViewsAppend(AllAccessTemplates(null, ss[..n], draws), AccessTemplates(null, ss[n], draws[n]));
      assert Views(AccessTemplates(null, ss[n], draws[n])) == AccessTemplates(None, ss[n], draws[n]);
    }
  }

  lemma ViewsOfTurn(w: seq<TemplateRef>, added: seq<TemplateRef>, t: TemplateRef)
    ensures Views(w + added + [t]) == Views(w) + Views(added) + [ViewOf(t)]
  {
    ViewsAppend(w, added);
    ViewsAppend(w + added, [t]);
    assert Views([t]) == [ViewOf(t)];
  }

  // A list assembled from copies of the templates shows the DAGs as they are now.
  lemma {:induction false} WeaveView(ts: seq<TemplateRef>, draws: seq<Draw>)
    requires |AllInteractive(ts)| <= |draws|
    ensures AllInteractive(Views(ts)) == AllInteractive(ts)
    ensures Views(Weave(null, ts, draws)) == Weave(None, Views(ts), draws)
  {
    hide AllAccessTemplates, Interactive;
    SameSidecars(ts, Views(ts));
    if ts != [] {
      var n := |ts| - 1;
      InteractivePrefix(ts, n);
      WeaveView(ts[..n], draws);
      ViewsOfPrefix(ts, n);
      var m := |AllInteractive(ts[..n])|;
      var own := Interactive(ts[n].sidecars);
      AccessTemplatesView(own, draws[m..]);
      ViewsOfTurn(Weave(null, ts[..n], draws), AllAccessTemplates(null, own, draws[m..]), ts[n]);
    }
  }

  // The search loops of the passes: the first template of that name, or one past the end.
  method IndexOf(ts: seq<TemplateRef>, name: string) returns (i: nat)
    ensures i == FirstNamed(ts, name)
  {
    i := 0;
    while i < |ts|
      invariant 0 <= i <= |ts|
      invariant forall j :: 0 <= j < i ==> ts[j].name != name
    {
      if ts[i].name == name { return; }
      i := i + 1;
    }
  }

  lemma FirstNamedInView(ts: seq<TemplateRef>, name: string)
    ensures FirstNamed(Views(ts), name) == FirstNamed(ts, name)
  {
    assert forall j :: 0 <= j < |ts| ==> Views(ts)[j].name == ts[j].name;
  }

  // `was` is the view of ts before the DAG of template i, and no other, was written.
  lemma OneDagChanged(ts: seq<TemplateRef>, i: nat, was: seq<TemplateView>)
    requires i < |ts| == |was| && ts[i].dag != null
    requires forall j :: 0 <= j < |ts| && j != i ==> was[j] == ViewOf(ts[j])
    requires WithTasks(was[i], ts[i].dag.tasks) == ViewOf(ts[i])
    ensures Views(ts) == was[i := WithTasks(was[i], ts[i].dag.tasks)]
  {
  }

  lemma AppendLeaf(ts: seq<TemplateRef>, t: TemplateRef)
    requires t.dag == null
    ensures DagsOf(ts + [t]) == DagsOf(ts)
    ensures OwnDags(ts) ==> OwnDags(ts + [t])
    ensures Views(ts + [t]) == Views(ts) + [ViewOf(t)]
  {
    AppendDags(ts, t);
  }

  lemma AppendFresh(ts: seq<TemplateRef>, t: TemplateRef)
    requires t.dag != null && t.dag !in DagsOf(ts)
    ensures DagsOf(ts + [t]) == DagsOf(ts) + {t.dag}
    ensures OwnDags(ts) ==> OwnDags(ts + [t])
    ensures Views(ts + [t]) == Views(ts) + [ViewOf(t)]
  {
    AppendDags(ts, t);
    if OwnDags(ts) {
      forall i, j | 0 <= i < j < |ts + [t]| && (ts + [t])[i].dag != null
        ensures (ts + [t])[i].dag != (ts + [t])[j].dag
      {
        if j == |ts| { assert ts[i] in ts; }
      }
    }
  }

  lemma AppendDags(ts: seq<TemplateRef>, t: TemplateRef)
    ensures DagsOf(ts + [t]) == DagsOf(ts) + if t.dag == null then {} else {t.dag}
  {
    forall d: Dag
      ensures d in DagsOf(ts + [t]) <==> d in DagsOf(ts) || d == t.dag
    {
      if d in DagsOf(ts) {
        var u :| u in ts && u.dag == d;
        assert u in ts + [t];
      }
      if d == t.dag { assert t in ts + [t]; }
    }
  }

  // The loop over the tasks of the entry DAG: a task with a nil dependency list becomes a dependent of `name`.
  // `ts` are the templates in play and `k` the one that owns the DAG.
  method AddRoot(dag: Dag, name: string, ghost ts: seq<TemplateRef>, ghost k: nat)
    requires OwnDags(ts) && k < |ts| && ts[k].dag == dag
    modifies dag
    ensures dag.tasks == RootsDependOn(old(dag.tasks), name)
    ensures Views(ts) == old(Views(ts))[k := WithTasks(old(Views(ts))[k], dag.tasks)]
  {
    var j := 0;
    while j < |dag.tasks|
      invariant 0 <= j <= |dag.tasks| == |old(dag.tasks)|
      invariant forall i :: 0 <= i < j ==> dag.tasks[i] == RootDependsOn(old(dag.tasks)[i], name)
      invariant forall i :: j <= i < |dag.tasks| ==> dag.tasks[i] == old(dag.tasks)[i]
    {
      var task := dag.tasks[j];
      if task.deps.Absent? {
        dag.tasks := dag.tasks[j := task.(deps := Listed([name]))];
      }
      j := j + 1;
    }
    OneDagChanged(ts, k, old(Views(ts)));
  }

  method AddRootToNamedDag(ts: seq<TemplateRef>, name: string) returns (r: Outcome<()>)
    requires OwnDags(ts)
    modifies DagsOf(ts)
    ensures r.Failed? ==> AddRootToDag(old(Views(ts)), name) == Failed(r.failure)
    ensures r.Ok? ==> AddRootToDag(old(Views(ts)), name) == Ok(Views(ts))
  {
    var i := IndexOf(ts, name);
    FirstNamedInView(ts, name);
    if i == |ts| {
      return Ok(());
    }
    var t := ts[i];
    assert t in ts;
    if t.dag == null {
      return Failed(NilDereference);
    }
    ghost var was, g := Views(ts), t.dag.tasks;
    AddRoot(t.dag, SEND_STATUS, ts, i);
    AppendTasks(t.dag, [Task(SEND_STATUS, SEND_STATUS, Absent)], ts, i);
    assert Views(ts) == was[i := WithTasks(was[i], AddStatusRoot(g))];
    return Ok(());
  }

  // The cron variant appends its task inside the loop, once for each root it finds.
  method AddInit(dag: Dag, ghost ts: seq<TemplateRef>, ghost k: nat)
    requires OwnDags(ts) && k < |ts| && ts[k].dag == dag
    modifies dag
    ensures dag.tasks == AddInitRoots(old(dag.tasks))
    ensures Views(ts) == old(Views(ts))[k := WithTasks(old(Views(ts))[k], dag.tasks)]
  {
    var range := dag.tasks;
    var j := 0;
    while j < |range|
      invariant 0 <= j <= |range|
      invariant |dag.tasks| == |range| + Roots(range[..j])
      invariant forall i :: 0 <= i < j ==> dag.tasks[i] == RootDependsOn(range[i], SEND_INIT_STATS)
      invariant forall i :: j <= i < |range| ==> dag.tasks[i] == range[i]
      invariant forall i :: |range| <= i < |dag.tasks| ==> dag.tasks[i] == InitTask()
    {
      var task := range[j];
      assert range[..j + 1][..j] == range[..j];
      if task.deps.Absent? {
        dag.tasks := dag.tasks[j := task.(deps := Listed([SEND_INIT_STATS]))];
        dag.tasks := dag.tasks + [InitTask()];
      }
      j := j + 1;
    }
    assert range[..j] == range;
    assert dag.tasks == AddInitRoots(range);
    OneDagChanged(ts, k, old(Views(ts)));
  }

  // Searches the exit template and appends to its DAG through the shared pointer.
  method AppendToNamedDag(ts: seq<TemplateRef>, name: string, added: seq<Task>) returns (r: Outcome<()>)
    requires OwnDags(ts)
    modifies DagsOf(ts)
    ensures r.Failed? ==> AppendToDag(old(Views(ts)), name, added) == Failed(r.failure)
    ensures r.Ok? ==> AppendToDag(old(Views(ts)), name, added) == Ok(Views(ts))
  {
    var i := IndexOf(ts, name);
    FirstNamedInView(ts, name);
    if i == |ts| {
      return Ok(());
    }
    var t := ts[i];
    assert t in ts;
    if t.dag == null {
      return Failed(NilDereference);
    }
    AppendTasks(t.dag, added, ts, i);
    return Ok(());
  }

  // append(dag.Tasks, added...)
  method AppendTasks(dag: Dag, added: seq<Task>, ghost ts: seq<TemplateRef>, ghost k: nat)
    requires OwnDags(ts) && k < |ts| && ts[k].dag == dag
    modifies dag
    ensures dag.tasks == old(dag.tasks) + added
    ensures Views(ts) == old(Views(ts))[k := WithTasks(old(Views(ts))[k], dag.tasks)]
  {
    dag.tasks := dag.tasks + added;
    OneDagChanged(ts, k, old(Views(ts)));
  }

  // ----- injectAccessForSidecars

  // Task 0 waits for the new virtual service; the chain that creates it hangs off sys-send-status.
  method AttachAccessTasks(dag: Dag, d: Draw, ghost ts: seq<TemplateRef>, ghost k: nat)
    requires OwnDags(ts) && k < |ts| && ts[k].dag == dag
    requires dag.tasks != []
    modifies dag
    ensures dag.tasks == AttachAccess(old(dag.tasks), d)
    ensures Views(ts) == old(Views(ts))[k := WithTasks(old(Views(ts))[k], dag.tasks)]
  {
    var first := dag.tasks[0];
    var deps := first.DepNames();
    var sysDepFound := false;
    var i := 0;
    while i < |deps|
      invariant 0 <= i <= |deps|
      invariant sysDepFound <==> SEND_STATUS in deps[..i]
      invariant dag.tasks == old(dag.tasks)
        [0 := first.(deps := if sysDepFound then Listed([d.VirtualAddTask()]) else first.deps)]
    {
      if deps[i] == SEND_STATUS {
        sysDepFound := true;
        dag.tasks := dag.tasks[0 := dag.tasks[0].(deps := Listed([d.VirtualAddTask()]))];
      }
      i := i + 1;
    }
    assert deps[..i] == deps;
    if !sysDepFound {
      dag.tasks := dag.tasks[0 := first.(deps := Append(first.deps, d.VirtualAddTask()))];
    }
    dag.tasks := dag.tasks + AddTasks(d);
    OneDagChanged(ts, k, old(Views(ts)));
  }

  method AttachToEntry(ts: seq<TemplateRef>, entrypoint: string, d: Draw) returns (r: Outcome<()>)
    requires OwnDags(ts)
    modifies DagsOf(ts)
    ensures r.Ok? <==> CanAttach(old(Views(ts)), entrypoint)
    ensures r.Failed? ==> r.failure == IndexOutOfRange
    ensures r.Ok? ==> Views(ts) == AttachAll(old(Views(ts)), entrypoint, d)
  {
    ghost var was := Views(ts);
    var i := 0;
    while i < |ts|
      invariant 0 <= i <= |ts|
      invariant forall j :: 0 <= j < i ==>
        && (IsEntryDag(was[j], entrypoint) ==> was[j].dag.value != [])
        && Views(ts)[j] == AttachTo(was[j], entrypoint, d)
      invariant forall j :: i <= j < |ts| ==> Views(ts)[j] == was[j]
    {
      var t := ts[i];
      assert t in ts;
      if t.name == entrypoint && t.dag != null {
        assert IsEntryDag(was[i], entrypoint) && was[i].dag == Some(t.dag.tasks);
        if t.dag.tasks == [] {
          assert was[i] in was;
          return Failed(IndexOutOfRange);
        }
        AttachAccessTasks(t.dag, d, ts, i);
      }
      i := i + 1;
    }
    return Ok(());
  }

  method AttachDeleteTasks(dag: Dag, d: Draw, ghost ts: seq<TemplateRef>, ghost k: nat)
    requires OwnDags(ts) && k < |ts| && ts[k].dag == dag
    modifies dag
    ensures dag.tasks == AttachDelete(old(dag.tasks), d)
    ensures Views(ts) == old(Views(ts))[k := WithTasks(old(Views(ts))[k], dag.tasks)]
  {
    dag.tasks := dag.tasks + DeleteTasks(d);
    ghost var h := dag.tasks;
    var sysExitDepFound := false;
    var i := 0;
    while i < |dag.tasks|
      invariant 0 <= i <= |dag.tasks| == |h|
      invariant sysExitDepFound <==> exists j :: 0 <= j < i && h[j].name == SEND_EXIT_STATS
      invariant forall j :: 0 <= j < i ==> dag.tasks[j] == AwaitDelete(h[j], d)
      invariant forall j :: i <= j < |h| ==> dag.tasks[j] == h[j]
    {
      var dt := dag.tasks[i];
      if dt.name == SEND_EXIT_STATS {
        sysExitDepFound := true;
        dag.tasks := dag.tasks[i := dt.(deps := Append(dt.deps, d.VirtualDeleteTask()))];
      }
      i := i + 1;
    }
    if !sysExitDepFound {
      assert dag.tasks == h;
      dag.tasks := dag.tasks[0 := dag.tasks[0].(deps := Append(dag.tasks[0].deps, d.VirtualDeleteTask()))];
    }
    OneDagChanged(ts, k, old(Views(ts)));
  }

  method DeleteOnExit(ts: seq<TemplateRef>, name: string, d: Draw) returns (r: Outcome<()>)
    requires OwnDags(ts)
    modifies DagsOf(ts)
    ensures r.Failed? ==> DeleteFromDag(old(Views(ts)), name, d) == Failed(r.failure)
    ensures r.Ok? ==> DeleteFromDag(old(Views(ts)), name, d) == Ok(Views(ts))
  {
    var i := IndexOf(ts, name);
    FirstNamedInView(ts, name);
    if i == |ts| {
      return Ok(());
    }
    var t := ts[i];
    assert t in ts;
    if t.dag == null {
      return Failed(NilDereference);
    }
    AttachDeleteTasks(t.dag, d, ts, i);
    return Ok(());
  }
}
