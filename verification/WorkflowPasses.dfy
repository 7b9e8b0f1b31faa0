/**
 What each rewriting pass of createWorkflow does to a workflow, as functions on its value.
 The methods of WorkflowExecution are proved to compute these.
 */
module WorkflowPasses {
  import opened Wrappers
  import opened DependencyGraph
  import opened WorkflowModel

  datatype WorkflowView = WorkflowView(templates: seq<TemplateView>, entrypoint: string, onExit: string)

  // ----- shared pieces

  // The index of the first template of that name, or the length when there is none.
  function FirstNamed<D>(ts: seq<Template<D>>, name: string): (i: nat)
    ensures i <= |ts|
    ensures i < |ts| ==> ts[i].name == name
    ensures forall j :: 0 <= j < i ==> ts[j].name != name
  {
    if ts == [] || ts[0].name == name then 0
    else
      var i := 1 + FirstNamed(ts[1..], name);
      assert forall j :: 0 < j < i ==> ts[j] == ts[1..][j - 1];
      i
  }

  function CurlTemplate<D>(name: string, noDag: D): Template<D> {
    Template(name, noDag, Some([]), None, [], None)
  }

  function ResourceTemplate<D>(name: string, noDag: D, action: Action, manifest: Manifest): Template<D> {
    Template(name, noDag, None, None, [], Some(Resource(action, manifest)))
  }

  function DagTemplate<D>(name: string, dag: D): Template<D> {
    Template(name, dag, None, None, [], None)
  }

  // append to a possibly nil slice
  function Append(deps: Dependencies, name: string): Dependencies {
    Listed((if deps.Absent? then [] else deps.names) + [name])
  }

  function WithTasks(t: TemplateView, tasks: seq<Task>): TemplateView {
    t.(dag := Some(tasks))
  }

  // ----- injectFilesyncerSidecar

  function AddFilesyncer<D>(t: Template<D>): Template<D> {
    if (t.container.Some? && t.container.value != []) || (t.script.Some? && t.script.value != []) then
      t.(sidecars := t.sidecars + [FILESYNCER])
    else t
  }

  function FilesyncerPass(w: WorkflowView): WorkflowView {
    w.(templates := seq(|w.templates|, i requires 0 <= i < |w.templates| => AddFilesyncer(w.templates[i])))
  }

  // ----- injectWorkflowExecutionStatusCaller and injectInitHandlerWorkflowExecutionStatistic

  function RootDependsOn(t: Task, name: string): Task {
    if t.deps.Absent? then t.(deps := Listed([name])) else t
  }

  function RootsDependOn(g: seq<Task>, name: string): (h: seq<Task>)
    ensures |h| == |g|
    ensures forall i :: 0 <= i < |g| ==> h[i] == RootDependsOn(g[i], name)
  {
    seq(|g|, i requires 0 <= i < |g| => RootDependsOn(g[i], name))
  }

  function AddStatusRoot(g: seq<Task>): seq<Task> {
    RootsDependOn(g, SEND_STATUS) + [Task(SEND_STATUS, SEND_STATUS, Absent)]
  }

  function AddRootToDag(ts: seq<TemplateView>, name: string): Outcome<seq<TemplateView>> {
    var i := FirstNamed(ts, name);
    if i == |ts| then Ok(ts)
    else if ts[i].dag.None? then Failed(NilDereference)
    else Ok(ts[i := WithTasks(ts[i], AddStatusRoot(ts[i].dag.value))])
  }

  function StatusPass(w: WorkflowView): Outcome<WorkflowView> {
    var r := AddRootToDag(w.templates + [CurlTemplate(SEND_STATUS, None)], w.entrypoint);
    if r.Failed? then Failed(r.failure) else Ok(w.(templates := r.value))
  }

  // One task per root, all of the same name.
  function Roots(g: seq<Task>): nat {
    if g == [] then 0 else Roots(g[..|g| - 1]) + if g[|g| - 1].deps.Absent? then 1 else 0
  }

  function InitTask(): Task { Task(SEND_INIT_STATS, SEND_INIT_STATS, Absent) }

  function AddInitRoots(g: seq<Task>): seq<Task> {
    RootsDependOn(g, SEND_INIT_STATS) + seq(Roots(g), _ => InitTask())
  }

  function InitPass(w: WorkflowView): WorkflowView {
    var ts := w.templates + [CurlTemplate(SEND_INIT_STATS, None)];
    var i := FirstNamed(ts, w.entrypoint);
    if i == |ts| || ts[i].dag.None? then w.(templates := ts)
    else w.(templates := ts[i := WithTasks(ts[i], AddInitRoots(ts[i].dag.value))])
  }

  // ----- injectExitHandlerWorkflowExecutionStatistic

  function StatsTask(): Task { Task(SEND_EXIT_STATS, SEND_EXIT_STATS, Absent) }

  // The exit DAG of that name gains the tasks; a name that no template carries is ignored.
  function AppendToDag(ts: seq<TemplateView>, name: string, added: seq<Task>): Outcome<seq<TemplateView>> {
    var i := FirstNamed(ts, name);
    if i == |ts| then Ok(ts)
    else if ts[i].dag.None? then Failed(NilDereference)
    else Ok(ts[i := WithTasks(ts[i], ts[i].dag.value + added)])
  }

  function ExitStatsPass(w: WorkflowView): Outcome<WorkflowView> {
    var ts := w.templates + [CurlTemplate(SEND_EXIT_STATS, None)];
    if w.onExit == "" then
      Ok(w.(templates := ts + [DagTemplate(EXIT_HANDLER, Some([StatsTask()]))], onExit := EXIT_HANDLER))
    else
      var r := AppendToDag(ts, w.onExit, [StatsTask()]);
      if r.Failed? then Failed(r.failure) else Ok(w.(templates := r.value))
  }

  // ----- injectAccessForSidecars

  predicate IsInteractive(s: Sidecar) { INTERACTIVE in s.env }

  function Interactive(ss: seq<Sidecar>): seq<Sidecar> {
    if ss == [] then []
    else
      var n := |ss| - 1;
      Interactive(ss[..n]) + if IsInteractive(ss[n]) then [ss[n]] else []
  }

  function AllInteractive<D>(ts: seq<Template<D>>): seq<Sidecar> {
    if ts == [] then []
    else
      var n := |ts| - 1;
      AllInteractive(ts[..n]) + Interactive(ts[n].sidecars)
  }

  function AddTasks(d: Draw): seq<Task> {
    [ Task(d.ServiceAddTask(), d.ServiceAddTemplate(), Listed([SEND_STATUS])),
      Task(d.VirtualAddTask(), d.VirtualAddTemplate(), Listed([d.ServiceAddTask()])) ]
  }

  function DeleteTasks(d: Draw): seq<Task> {
    [ Task(d.ServiceDeleteTask(), d.ServiceDeleteTemplate(), Absent),
      Task(d.VirtualDeleteTask(), d.VirtualDeleteTemplate(), Listed([d.ServiceDeleteTask()])) ]
  }

  function RewireFirst(t: Task, d: Draw): Task {
    t.(deps := if SEND_STATUS in t.DepNames() then Listed([d.VirtualAddTask()]) else Append(t.deps, d.VirtualAddTask()))
  }

  function AttachAccess(g: seq<Task>, d: Draw): seq<Task>
    requires g != []
  {
    g[0 := RewireFirst(g[0], d)] + AddTasks(d)
  }

  predicate IsEntryDag(t: TemplateView, entrypoint: string) {
    t.name == entrypoint && t.dag.Some?
  }

  function AttachTo(t: TemplateView, entrypoint: string, d: Draw): TemplateView
    requires IsEntryDag(t, entrypoint) ==> t.dag.value != []
  {
    if IsEntryDag(t, entrypoint) then WithTasks(t, AttachAccess(t.dag.value, d)) else t
  }

  predicate CanAttach(ts: seq<TemplateView>, entrypoint: string) {
    forall t :: t in ts && IsEntryDag(t, entrypoint) ==> t.dag.value != []
  }

  function AttachAll(ts: seq<TemplateView>, entrypoint: string, d: Draw): (r: seq<TemplateView>)
    requires CanAttach(ts, entrypoint)
    ensures |r| == |ts|
    ensures forall i :: 0 <= i < |ts| ==> r[i] == AttachTo(ts[i], entrypoint, d)
  {
    seq(|ts|, i requires 0 <= i < |ts| => AttachTo(ts[i], entrypoint, d))
  }

  predicate HasStats(g: seq<Task>) {
    exists i :: 0 <= i < |g| && g[i].name == SEND_EXIT_STATS
  }

  function AwaitDelete(t: Task, d: Draw): Task {
    if t.name == SEND_EXIT_STATS then t.(deps := Append(t.deps, d.VirtualDeleteTask())) else t
  }

  function AllAwaitDelete(g: seq<Task>, d: Draw): (h: seq<Task>)
    ensures |h| == |g|
    ensures forall i :: 0 <= i < |g| ==> h[i] == AwaitDelete(g[i], d)
  {
    seq(|g|, i requires 0 <= i < |g| => AwaitDelete(g[i], d))
  }

  function AttachDelete(g: seq<Task>, d: Draw): seq<Task> {
    var h := g + DeleteTasks(d);
    if HasStats(h) then AllAwaitDelete(h, d)
    else h[0 := h[0].(deps := Append(h[0].deps, d.VirtualDeleteTask()))]
  }

  function DeleteFromDag(ts: seq<TemplateView>, name: string, d: Draw): Outcome<seq<TemplateView>> {
    var i := FirstNamed(ts, name);
    if i == |ts| then Ok(ts)
    else if ts[i].dag.None? then Failed(NilDereference)
    else Ok(ts[i := WithTasks(ts[i], AttachDelete(ts[i].dag.value, d))])
  }

  function AttachExit(w: WorkflowView, d: Draw): Outcome<WorkflowView> {
    if w.onExit == "" then
      Ok(w.(templates := w.templates + [DagTemplate(EXIT_HANDLER, Some(DeleteTasks(d)))], onExit := EXIT_HANDLER))
    else
      var r := DeleteFromDag(w.templates, w.onExit, d);
      if r.Failed? then Failed(r.failure) else Ok(w.(templates := r.value))
  }

  function SidecarStep(w: WorkflowView, s: Sidecar, d: Draw): Outcome<WorkflowView> {
    if s.ports == [] then Failed(UserError(s.name))
    else if !CanAttach(w.templates, w.entrypoint) then Failed(IndexOutOfRange)
    else AttachExit(w.(templates := AttachAll(w.templates, w.entrypoint, d)), d)
  }

  function RunSidecars(w: WorkflowView, ss: seq<Sidecar>, draws: seq<Draw>): Outcome<WorkflowView>
    requires |ss| <= |draws|
  {
    if ss == [] then Ok(w)
    else
      var n := |ss| - 1;
      var r := RunSidecars(w, ss[..n], draws);
      if r.Failed? then r else SidecarStep(r.value, ss[n], draws[n])
  }

  // The four templates emitted ahead of the template that owns the sidecar.
  function AccessTemplates<D>(noDag: D, s: Sidecar, d: Draw): seq<Template<D>> {
    var service := Service(d.service, s.ports);
    var route := VirtualService(d.virtualService, d.service, s.ports);
    [ ResourceTemplate(d.ServiceAddTemplate(), noDag, Create, service),
      ResourceTemplate(d.VirtualAddTemplate(), noDag, Create, route),
      ResourceTemplate(d.ServiceDeleteTemplate(), noDag, Delete, service),
      ResourceTemplate(d.VirtualDeleteTemplate(), noDag, Delete, route) ]
  }

  function AllAccessTemplates<D>(noDag: D, ss: seq<Sidecar>, draws: seq<Draw>): (r: seq<Template<D>>)
    requires |ss| <= |draws|
    ensures |r| == 4 * |ss|
  {
    if ss == [] then []
    else
      var n := |ss| - 1;
      AllAccessTemplates(noDag, ss[..n], draws) + AccessTemplates(noDag, ss[n], draws[n])
  }

  // newTemplateOrder: each template preceded by the access templates of its interactive sidecars
  function Weave<D>(noDag: D, ts: seq<Template<D>>, draws: seq<Draw>): seq<Template<D>>
    requires |AllInteractive(ts)| <= |draws|
  {
    if ts == [] then []
    else
      var n := |ts| - 1;
      var m := |AllInteractive(ts[..n])|;
      Weave(noDag, ts[..n], draws) + AllAccessTemplates(noDag, Interactive(ts[n].sidecars), draws[m..]) + [ts[n]]
  }

  function AccessPass(w: WorkflowView, draws: seq<Draw>): Outcome<WorkflowView>
    requires |AllInteractive(w.templates)| <= |draws|
  {
    RunSidecars(w, AllInteractive(w.templates), draws)
  }

  lemma InteractivePrefix<D>(ts: seq<Template<D>>, k: nat)
    requires k <= |ts|
    ensures AllInteractive(ts[..k]) <= AllInteractive(ts)
    ensures k < |ts| ==> AllInteractive(ts[..k + 1]) == AllInteractive(ts[..k]) + Interactive(ts[k].sidecars)
    decreases |ts| - k
  {
    if k < |ts| {
      assert ts[..k + 1][..k] == ts[..k];
      InteractivePrefix(ts, k + 1);
    } else {
      assert ts[..k] == ts;
    }
  }

  lemma InteractiveStep(ss: seq<Sidecar>, k: nat)
    requires k < |ss|
    ensures Interactive(ss[..k + 1]) == Interactive(ss[..k]) + if IsInteractive(ss[k]) then [ss[k]] else []
  {
    assert ss[..k + 1][..k] == ss[..k];
  }

  lemma RunOneMore(w: WorkflowView, ss: seq<Sidecar>, s: Sidecar, draws: seq<Draw>)
    requires |ss| < |draws|
    ensures RunSidecars(w, ss + [s], draws) ==
            var r := RunSidecars(w, ss, draws);
            if r.Failed? then r else SidecarStep(r.value, s, draws[|ss|])
  {
    assert (ss + [s])[..|ss|] == ss;
  }

  // Working through a + b is working through a and then, from where that ended, through b.
  lemma {:induction false} RunAppend(w: WorkflowView, a: seq<Sidecar>, b: seq<Sidecar>, draws: seq<Draw>)
    requires |a| + |b| <= |draws|
    ensures RunSidecars(w, a + b, draws) ==
            var r := RunSidecars(w, a, draws);
            if r.Failed? then r else RunSidecars(r.value, b, draws[|a|..])
  {
    if b == [] {
      assert a + b == a;
    } else {
      var n := |b| - 1;
      RunAppend(w, a, b[..n], draws);
      RunOneMore(w, a + b[..n], b[n], draws);
      assert a + b[..n] + [b[n]] == a + b;
    }
  }

  lemma {:induction false} InteractivePrefixAppend(ss: seq<Sidecar>, k: nat) returns (rest: seq<Sidecar>)
    requires k <= |ss|
    ensures Interactive(ss) == Interactive(ss[..k]) + rest
    decreases |ss| - k
  {
    if k == |ss| {
      assert ss[..k] == ss;
      rest := [];
    } else {
      InteractiveStep(ss, k);
      var tail := InteractivePrefixAppend(ss, k + 1);
      rest := (if IsInteractive(ss[k]) then [ss[k]] else []) + tail;
    }
  }

  lemma NoSidecarsYet<D>(w: WorkflowView, noDag: D, ss: seq<Sidecar>, draws: seq<Draw>)
    ensures Interactive(ss[..0]) == []
    ensures RunSidecars(w, [], draws) == Ok(w)
    ensures AllAccessTemplates(noDag, [], draws) == []
  {
  }

  // One turn of the sidecar loop, seen from its specification.
  lemma SidecarTurn<D>(w: WorkflowView, noDag: D, ss: seq<Sidecar>, k: nat, draws: seq<Draw>)
    requires k < |ss| && |Interactive(ss)| <= |draws|
    ensures |Interactive(ss[..k])| <= |Interactive(ss[..k + 1])| <= |draws|
    ensures !IsInteractive(ss[k]) ==> Interactive(ss[..k + 1]) == Interactive(ss[..k])
    ensures IsInteractive(ss[k]) ==>
      var done, more := Interactive(ss[..k]), Interactive(ss[..k + 1]);
      && |more| == |done| + 1
      && AllAccessTemplates(noDag, more, draws) ==
        AllAccessTemplates(noDag, done, draws) + AccessTemplates(noDag, ss[k], draws[|done|])
      && RunSidecars(w, more, draws) ==
         var r := RunSidecars(w, done, draws);
         if r.Failed? then r else SidecarStep(r.value, ss[k], draws[|done|])
  {
    var done := Interactive(ss[..k]);
    InteractiveStep(ss, k);
    var rest := InteractivePrefixAppend(ss, k + 1);
    if IsInteractive(ss[k]) {
      RunOneMore(w, done, ss[k], draws);
      assert (done + [ss[k]])[..|done|] == done;
    }
  }

  // An error in the middle of the loop is the error of the whole loop.
  lemma RunFailsEarly(w: WorkflowView, ss: seq<Sidecar>, draws: seq<Draw>, k: nat)
    requires k <= |ss| && |Interactive(ss)| <= |draws|
    requires |Interactive(ss[..k])| <= |draws| && RunSidecars(w, Interactive(ss[..k]), draws).Failed?
    ensures RunSidecars(w, Interactive(ss), draws) == RunSidecars(w, Interactive(ss[..k]), draws)
  {
    var rest := InteractivePrefixAppend(ss, k);
    RunAppend(w, Interactive(ss[..k]), rest, draws);
  }

  lemma FailureSticks<D>(w: WorkflowView, ts: seq<Template<D>>, draws: seq<Draw>, k: nat)
    requires k <= |ts| && |AllInteractive(ts)| <= |draws|
    requires |AllInteractive(ts[..k])| <= |draws| && RunSidecars(w, AllInteractive(ts[..k]), draws).Failed?
    ensures RunSidecars(w, AllInteractive(ts), draws) == RunSidecars(w, AllInteractive(ts[..k]), draws)
  {
    InteractivePrefix(ts, k);
    var done, all := AllInteractive(ts[..k]), AllInteractive(ts);
    assert all == done + all[|done|..];
    RunAppend(w, done, all[|done|..], draws);
  }

  lemma NothingYet<D>(w: WorkflowView, noDag: D, ts: seq<Template<D>>, draws: seq<Draw>)
    ensures |AllInteractive(ts[..0])| == 0
    ensures RunSidecars(w, AllInteractive(ts[..0]), draws) == Ok(w)
    ensures Weave(noDag, ts[..0], draws) == []
  {
  }

  // One turn of the template loop.
  lemma TemplateTurn<D>(w: WorkflowView, noDag: D, ts: seq<Template<D>>, k: nat, draws: seq<Draw>)
    requires k < |ts| && |AllInteractive(ts)| <= |draws|
    ensures
      var done, own, more := AllInteractive(ts[..k]), Interactive(ts[k].sidecars), AllInteractive(ts[..k + 1]);
      && |more| == |done| + |own| <= |draws|
      && Weave(noDag, ts[..k + 1], draws) ==
        Weave(noDag, ts[..k], draws) + AllAccessTemplates(noDag, own, draws[|done|..]) + [ts[k]]
      && RunSidecars(w, more, draws) ==
         var r := RunSidecars(w, done, draws);
         if r.Failed? then r else RunSidecars(r.value, own, draws[|done|..])
  {
    InteractivePrefix(ts, k);
    InteractivePrefix(ts, k + 1);
    RunAppend(w, AllInteractive(ts[..k]), Interactive(ts[k].sidecars), draws);
    assert ts[..k + 1][..k] == ts[..k];
  }

  lemma SameSidecars<D, E>(ts: seq<Template<D>>, us: seq<Template<E>>)
    requires |ts| == |us|
    requires forall i :: 0 <= i < |ts| ==> ts[i].sidecars == us[i].sidecars
    ensures AllInteractive(ts) == AllInteractive(us)
  {
    if ts != [] {
      var n := |ts| - 1;
      SameSidecars(ts[..n], us[..n]);
    }
  }

  // The access pass only ever writes DAGs and appends templates.
  ghost predicate SameButDags(ts: seq<TemplateView>, us: seq<TemplateView>) {
    && |ts| <= |us|
    && forall i :: 0 <= i < |ts| ==>
         && us[i] == ts[i].(dag := us[i].dag)
         && (us[i].dag.None? <==> ts[i].dag.None?)
  }

  lemma {:induction false} RunKeepsShape(w: WorkflowView, ss: seq<Sidecar>, draws: seq<Draw>)
    requires |ss| <= |draws|
    ensures var r := RunSidecars(w, ss, draws);
      r.Ok? ==> r.value.entrypoint == w.entrypoint && SameButDags(w.templates, r.value.templates)
  {
    hide AddTasks, DeleteTasks, AttachDelete, AttachAccess;
    if ss != [] {
      var n := |ss| - 1;
      RunKeepsShape(w, ss[..n], draws);
    }
  }

  // ----- createWorkflow

  function BeforeAccess(w: WorkflowView): Outcome<WorkflowView> {
    var s := StatusPass(FilesyncerPass(w));
    if s.Failed? then s else ExitStatsPass(s.value)
  }

  // the interactive sidecars, including the file syncers that the first pass adds
  function SidecarsOf(w: WorkflowView): seq<Sidecar> {
    AllInteractive(FilesyncerPass(w).templates)
  }

  lemma {:induction false} TailWithoutSidecars(ts: seq<TemplateView>, n: nat)
    requires n <= |ts|
    requires forall i :: n <= i < |ts| ==> ts[i].sidecars == []
    ensures AllInteractive(ts) == AllInteractive(ts[..n])
  {
    if n == |ts| {
      assert ts[..n] == ts;
    } else {
      var m := |ts| - 1;
      assert ts[..m][..n] == ts[..n];
      TailWithoutSidecars(ts[..m], n);
    }
  }

  // Only the first pass touches sidecars.
  lemma SidecarsBeforeAccess(w: WorkflowView)
    ensures BeforeAccess(w).Ok? ==> AllInteractive(BeforeAccess(w).value.templates) == SidecarsOf(w)
  {
    hide FilesyncerPass, AddStatusRoot, AllInteractive;
    var b := BeforeAccess(w);
    if b.Ok? {
      var us, fs := b.value.templates, FilesyncerPass(w).templates;
      TailWithoutSidecars(us, |fs|);
      SameSidecars(us[..|fs|], fs);
    }
  }

  // The workflow handed to Argo: the template list is the order built by the last pass.
  ghost function Prepare(w: WorkflowView, draws: seq<Draw>): Outcome<WorkflowView>
    requires |SidecarsOf(w)| <= |draws|
  {
    var b := BeforeAccess(w);
    if b.Failed? then b
    else
      SidecarsBeforeAccess(w);
      var ss := AllInteractive(b.value.templates);
      var r := RunSidecars(b.value, ss, draws);
      if r.Failed? then r
      else
        RunKeepsShape(b.value, ss, draws);
        var ts := r.value.templates[..|b.value.templates|];
        SameSidecars(b.value.templates, ts);
        Ok(WorkflowView(Weave(None, ts, draws), r.value.entrypoint, r.value.onExit))
  }

  // ----- buildCronWorkflowDefinition

  // For a cron workflow: the statistics pass, then the init pass.
  function PrepareCron(w: WorkflowView): Outcome<WorkflowView> {
    var s := ExitStatsPass(w);
    if s.Failed? then s else Ok(InitPass(s.value))
  }
}
