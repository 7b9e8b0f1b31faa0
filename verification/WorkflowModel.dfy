/**
 Argo workflows as createWorkflow sees them: templates that hold a pointer to a DAG, and the names
 and templates the passes inject. Template is generic in its DAG: code works on pointers to Dag
 objects, specifications on the task lists behind them.
 */
module WorkflowModel {
  import opened Wrappers
  import opened DependencyGraph

  const SEND_STATUS: string := "sys-send-status"
  const SEND_EXIT_STATS: string := "sys-send-exit-stats"
  const SEND_INIT_STATS: string := "sys-send-init-stats"
  const EXIT_HANDLER: string := "exit-handler"

  datatype EnvVar = EnvVar(name: string, value: string)

  const INTERACTIVE: EnvVar := EnvVar("ONEPANEL_INTERACTIVE_SIDECAR", "true")

  datatype Sidecar = Sidecar(name: string, env: seq<EnvVar>, ports: seq<int>)

  const FILESYNCER: Sidecar := Sidecar("sys-filesyncer", [INTERACTIVE], [8888])

  datatype Action = Create | Delete

  // What a resource template applies to the cluster.
  datatype Manifest =
    | Service(name: string, ports: seq<int>)
    | VirtualService(name: string, destination: string, ports: seq<int>)

  datatype Resource = Resource(action: Action, manifest: Manifest)

  // container and script list the volume mounts of the two kinds of pod template
  datatype Template<+D> = Template(
    name: string,
    dag: D,
    container: Option<seq<string>>,
    script: Option<seq<string>>,
    sidecars: seq<Sidecar>,
    resource: Option<Resource>)

  class Dag {
    var tasks: seq<Task>

    constructor (tasks: seq<Task>)
      ensures this.tasks == tasks
    {
      this.tasks := tasks;
    }
  }

  type TemplateRef = Template<Dag?>
  type TemplateView = Template<Option<seq<Task>>>

  // One interactive sidecar draws six unique identifiers.
  datatype Draw = Draw(
    service: string,
    serviceTemplate: string,
    serviceTask: string,
    virtualTemplate: string,
    virtualTask: string,
    virtualService: string)
  {
    function ServiceAddTask(): string { "sys-add-service-" + serviceTask }
    function ServiceDeleteTask(): string { "sys-delete-service-" + serviceTask }
    function VirtualAddTask(): string { "sys-add-virtual-service-" + virtualTask }
    function VirtualDeleteTask(): string { "sys-delete-virtual-service-" + virtualTask }
    function ServiceAddTemplate(): string { "sys-k8s-service-template-add-" + serviceTemplate }
    function ServiceDeleteTemplate(): string { "sys-k8s-service-template-delete-" + serviceTemplate }
    function VirtualAddTemplate(): string { "sys-k8s-virtual-service-template-add-" + virtualTemplate }
    function VirtualDeleteTemplate(): string { "sys-k8s-virtual-service-template-delete-" + virtualTemplate }

    function TaskNames(): set<string> {
      {ServiceAddTask(), ServiceDeleteTask(), VirtualAddTask(), VirtualDeleteTask()}
    }

    function TemplateNames(): set<string> {
      {ServiceAddTemplate(), ServiceDeleteTemplate(), VirtualAddTemplate(), VirtualDeleteTemplate()}
    }
  }

  ghost predicate DistinctDraws(draws: seq<Draw>) {
    forall i, j :: 0 <= i < j < |draws| ==>
      && draws[i].serviceTemplate != draws[j].serviceTemplate
      && draws[i].serviceTask != draws[j].serviceTask
      && draws[i].virtualTemplate != draws[j].virtualTemplate
      && draws[i].virtualTask != draws[j].virtualTask
  }

  lemma PrefixInjective(p: string, a: string, b: string)
    requires p + a == p + b
    ensures a == b
  {
    assert (p + a)[|p|..] == a;
    assert (p + b)[|p|..] == b;
  }

  // The four task names of a draw differ from each other, from the fixed ones and from those of other draws.
  lemma TaskNamesDistinct(d: Draw, e: Draw)
    ensures d.ServiceAddTask() !in {e.VirtualAddTask(), e.ServiceDeleteTask(), e.VirtualDeleteTask(), SEND_STATUS,
      SEND_EXIT_STATS}
    ensures d.VirtualAddTask() !in {e.ServiceDeleteTask(), e.VirtualDeleteTask(), SEND_STATUS, SEND_EXIT_STATS}
    ensures d.ServiceDeleteTask() !in {e.VirtualDeleteTask(), SEND_STATUS, SEND_EXIT_STATS}
    ensures d.VirtualDeleteTask() !in {SEND_STATUS, SEND_EXIT_STATS}
  {
    assert d.ServiceAddTask()[4] == 'a' && d.ServiceAddTask()[8] == 's';
    assert e.VirtualAddTask()[4] == 'a' && e.VirtualAddTask()[8] == 'v';
    assert d.VirtualAddTask()[4] == 'a';
    assert d.ServiceDeleteTask()[4] == 'd' && d.ServiceDeleteTask()[11] == 's';
    assert e.ServiceDeleteTask()[4] == 'd';
    assert e.VirtualDeleteTask()[4] == 'd' && e.VirtualDeleteTask()[11] == 'v';
    assert d.VirtualDeleteTask()[4] == 'd';
    assert SEND_STATUS[4] == 's' && SEND_EXIT_STATS[4] == 's';
  }

  lemma TaskNamesInjective(d: Draw, e: Draw)
    ensures d.ServiceAddTask() == e.ServiceAddTask() ==> d.serviceTask == e.serviceTask
    ensures d.ServiceDeleteTask() == e.ServiceDeleteTask() ==> d.serviceTask == e.serviceTask
    ensures d.VirtualAddTask() == e.VirtualAddTask() ==> d.virtualTask == e.virtualTask
    ensures d.VirtualDeleteTask() == e.VirtualDeleteTask() ==> d.virtualTask == e.virtualTask
  {
    if d.ServiceAddTask() == e.ServiceAddTask() {
      PrefixInjective("sys-add-service-", d.serviceTask, e.serviceTask);
    }
    if d.ServiceDeleteTask() == e.ServiceDeleteTask() {
      PrefixInjective("sys-delete-service-", d.serviceTask, e.serviceTask);
    }
    if d.VirtualAddTask() == e.VirtualAddTask() {
      PrefixInjective("sys-add-virtual-service-", d.virtualTask, e.virtualTask);
    }
    if d.VirtualDeleteTask() == e.VirtualDeleteTask() {
      PrefixInjective("sys-delete-virtual-service-", d.virtualTask, e.virtualTask);
    }
  }

  lemma TemplateNamesDistinct(d: Draw, e: Draw)
    ensures d.ServiceAddTemplate() !in {e.VirtualAddTemplate(), e.ServiceDeleteTemplate(),
      e.VirtualDeleteTemplate(), SEND_STATUS, SEND_EXIT_STATS, EXIT_HANDLER}
    ensures d.VirtualAddTemplate() !in {e.ServiceDeleteTemplate(), e.VirtualDeleteTemplate(), SEND_STATUS,
      SEND_EXIT_STATS, EXIT_HANDLER}
    ensures d.ServiceDeleteTemplate() !in {e.VirtualDeleteTemplate(), SEND_STATUS, SEND_EXIT_STATS, EXIT_HANDLER}
    ensures d.VirtualDeleteTemplate() !in {SEND_STATUS, SEND_EXIT_STATS, EXIT_HANDLER}
  {
    assert d.ServiceAddTemplate()[4] == 'k' && d.ServiceAddTemplate()[8] == 's' && d.ServiceAddTemplate()[25] == 'a';
    assert d.VirtualAddTemplate()[4] == 'k' && d.VirtualAddTemplate()[8] == 'v' && d.VirtualAddTemplate()[33] == 'a';
    assert e.VirtualAddTemplate()[8] == 'v';
    assert d.ServiceDeleteTemplate()[4] == 'k' && d.ServiceDeleteTemplate()[8] == 's';
    assert e.ServiceDeleteTemplate()[8] == 's' && e.ServiceDeleteTemplate()[25] == 'd';
    assert d.VirtualDeleteTemplate()[4] == 'k';
    assert e.VirtualDeleteTemplate()[8] == 'v' && e.VirtualDeleteTemplate()[33] == 'd';
    assert SEND_STATUS[4] == 's' && SEND_EXIT_STATS[4] == 's' && EXIT_HANDLER[0] == 'e';
  }

  lemma TemplateNamesInjective(d: Draw, e: Draw)
    ensures d.ServiceAddTemplate() == e.ServiceAddTemplate() ==> d.serviceTemplate == e.serviceTemplate
    ensures d.ServiceDeleteTemplate() == e.ServiceDeleteTemplate() ==> d.serviceTemplate == e.serviceTemplate
    ensures d.VirtualAddTemplate() == e.VirtualAddTemplate() ==> d.virtualTemplate == e.virtualTemplate
    ensures d.VirtualDeleteTemplate() == e.VirtualDeleteTemplate() ==> d.virtualTemplate == e.virtualTemplate
  {
    if d.ServiceAddTemplate() == e.ServiceAddTemplate() {
      PrefixInjective("sys-k8s-service-template-add-", d.serviceTemplate, e.serviceTemplate);
    }
    if d.ServiceDeleteTemplate() == e.ServiceDeleteTemplate() {
      PrefixInjective("sys-k8s-service-template-delete-", d.serviceTemplate, e.serviceTemplate);
    }
    if d.VirtualAddTemplate() == e.VirtualAddTemplate() {
      PrefixInjective("sys-k8s-virtual-service-template-add-", d.virtualTemplate, e.virtualTemplate);
    }
    if d.VirtualDeleteTemplate() == e.VirtualDeleteTemplate() {
      PrefixInjective("sys-k8s-virtual-service-template-delete-", d.virtualTemplate, e.virtualTemplate);
    }
  }

  // No user task is called like an injected one.
  ghost predicate Untouched(g: seq<Task>, draws: seq<Draw>) {
    && !HasTask(g, SEND_STATUS)
    && !HasTask(g, SEND_EXIT_STATS)
    && forall i, a :: 0 <= i < |draws| && a in draws[i].TaskNames() ==> !HasTask(g, a)
  }

  lemma InjectedIsForeign(g: seq<Task>, draws: seq<Draw>, i: nat)
    requires Untouched(g, draws) && i < |draws|
    ensures !HasTask(g, draws[i].ServiceAddTask()) && !HasTask(g, draws[i].VirtualAddTask())
    ensures !HasTask(g, draws[i].ServiceDeleteTask()) && !HasTask(g, draws[i].VirtualDeleteTask())
  {
    assert draws[i].ServiceAddTask() in draws[i].TaskNames();
    assert draws[i].VirtualAddTask() in draws[i].TaskNames();
    assert draws[i].ServiceDeleteTask() in draws[i].TaskNames();
    assert draws[i].VirtualDeleteTask() in draws[i].TaskNames();
  }
}
