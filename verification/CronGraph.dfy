/**
 The entry DAG of a cron run: the init pass appends one sys-send-init-stats task per root it finds.
 */
module CronGraph {
  import opened Wrappers
  import opened DependencyGraph
  import opened WorkflowModel
  import opened WorkflowPasses
  import opened PreparedWorkflow
  import opened WorkflowResults

  // ----- counting

  function CountNamed(g: seq<Task>, name: string): nat {
    if g == [] then 0 else CountNamed(g[..|g| - 1], name) + if g[|g| - 1].name == name then 1 else 0
  }

  lemma {:induction false} CountAppend(g: seq<Task>, h: seq<Task>, name: string)
    ensures CountNamed(g + h, name) == CountNamed(g, name) + CountNamed(h, name)
  {
    if h == [] {
      assert g + h == g;
    } else {
      assert (g + h)[..|g + h| - 1] == g + h[..|h| - 1];
      CountAppend(g, h[..|h| - 1], name);
    }
  }

  lemma {:induction false} CountNone(g: seq<Task>, name: string)
    requires !HasTask(g, name)
    ensures CountNamed(g, name) == 0
  {
    if g != [] {
      var h := g[..|g| - 1];
      forall i | 0 <= i < |h|
        ensures h[i].name != name
      {
        assert g[i].name != name;
      }
      CountNone(g[..|g| - 1], name);
    }
  }

  lemma {:induction false} CountAll(g: seq<Task>, name: string)
    requires forall t :: t in g ==> t.name == name
    ensures CountNamed(g, name) == |g|
  {
    if g != [] {
      CountAll(g[..|g| - 1], name);
    }
  }

  // As many init tasks as the DAG had roots, and nothing else besides the user's tasks.
  lemma OneInitTaskPerRoot(g: seq<Task>)
    requires !HasTask(g, SEND_INIT_STATS)
    ensures |AddInitRoots(g)| == |g| + Roots(g)
    ensures CountNamed(AddInitRoots(g), SEND_INIT_STATS) == Roots(g)
    ensures forall i :: 0 <= i < |g| ==> AddInitRoots(g)[i].name == g[i].name
  {
    var users, inits := RootsDependOn(g, SEND_INIT_STATS), seq(Roots(g), _ => InitTask());
    forall i | 0 <= i < |users|
      ensures users[i].name != SEND_INIT_STATS
    {
      assert g[i].name != SEND_INIT_STATS;
    }
    CountAppend(users, inits, SEND_INIT_STATS);
    CountNone(users, SEND_INIT_STATS);
    CountAll(inits, SEND_INIT_STATS);
  }

  lemma {:induction false} RootCounted(g: seq<Task>, i: nat)
    requires i < |g| && g[i].deps.Absent?
    ensures Roots(g) > 0
  {
    if i < |g| - 1 {
      assert g[..|g| - 1][i] == g[i];
      RootCounted(g[..|g| - 1], i);
    }
  }

  // ----- edges

  lemma InitEdge(g: seq<Task>, a: string, b: string)
    requires !HasTask(g, SEND_INIT_STATS) && Resolved(g)
    ensures Edge(AddInitRoots(g), a, b) <==>
      || Edge(g, a, b)
      || (b == SEND_INIT_STATS && exists i :: 0 <= i < |g| && g[i].name == a && g[i].deps.Absent?)
  {
    var h := AddInitRoots(g);
    if Edge(h, a, b) {
      var i :| 0 <= i < |h| && h[i].name == a && b in h[i].DepNames();
      if i < |g| { assert h[i] == RootDependsOn(g[i], SEND_INIT_STATS); }
    }
    if i :| 0 <= i < |g| && g[i].name == a && b in g[i].DepNames() {
      assert h[i] == RootDependsOn(g[i], SEND_INIT_STATS) && b in h[i].DepNames();
    }
    if i :| 0 <= i < |g| && g[i].name == a && g[i].deps.Absent? && b == SEND_INIT_STATS {
      assert h[i] == RootDependsOn(g[i], SEND_INIT_STATS) && b in h[i].DepNames();
    }
  }

  lemma InitLayered(g: seq<Task>)
    requires !HasTask(g, SEND_INIT_STATS) && Resolved(g)
    ensures Layered(g, AddInitRoots(g), Names(g))
  {
    hide AddInitRoots;
    forall a, b
      ensures Edge(AddInitRoots(g), a, b) <==>
        Edge(g, a, b) || (b == SEND_INIT_STATS && exists i :: 0 <= i < |g| && g[i].name == a && g[i].deps.Absent?)
    {
      InitEdge(g, a, b);
    }
    forall a, b | Edge(g, a, b)
      ensures a in Names(g) && b in Names(g)
    {
      var t := TaskOfEdge(g, a, b);
    }
  }

  // However many roots there are, no cycle appears and every dependency names a task.
  lemma InitKeepsOrder(g: seq<Task>)
    requires WellFormed(g) && !HasTask(g, SEND_INIT_STATS)
    ensures Acyclic(AddInitRoots(g)) && Resolved(AddInitRoots(g))
    ensures forall a, b :: HasTask(g, a) && HasTask(g, b) ==> (DependsOn(AddInitRoots(g), a, b) <==> DependsOn(g, a, b))
  {
    hide DependsOn;
    var h := AddInitRoots(g);
    InitLayered(g);
    forall a, b | Edge(h, a, b)
      ensures a in Names(g) && HasTask(h, b)
    {
      InitEdge(g, a, b);
      if Edge(g, a, b) {
        var t := TaskOfEdge(g, a, b);
        var i :| 0 <= i < |g| && g[i].name == b;
        assert h[i].name == b;
      } else {
        var i :| 0 <= i < |g| && g[i].name == a && g[i].deps.Absent?;
        RootCounted(g, i);
        assert h[|g|] == InitTask();
      }
    }
    LayeringKeepsAcyclic(g, h, Names(g), map[]);
    forall a, b | HasTask(g, a) && HasTask(g, b)
      ensures DependsOn(h, a, b) <==> DependsOn(g, a, b)
    {
      LayeringKeepsDependence(g, h, Names(g), a, b);
    }
  }

  // Two roots mean two tasks of the same name, which Argo rejects: the names stay unique exactly
  // when the entry DAG has at most one root.
  lemma InitUniqueExactlyWhenOneRoot(g: seq<Task>)
    requires UniqueNames(g) && !HasTask(g, SEND_INIT_STATS)
    ensures UniqueNames(AddInitRoots(g)) <==> Roots(g) <= 1
  {
    var h := AddInitRoots(g);
    var n := |g|;
    assert forall i :: 0 <= i < n ==> h[i].name == g[i].name;
    assert forall i :: n <= i < |h| ==> h[i] == InitTask();
    if Roots(g) <= 1 {
      forall i, j | 0 <= i < j < |h|
        ensures h[i].name != h[j].name
      {
        if j == n { assert HasTask(g, h[i].name); }
      }
    } else {
      assert h[n].name == h[n + 1].name;
    }
  }

  // Every user task waits for sys-send-init-stats, exactly when no dependency list is explicitly empty.
  lemma InitComesFirst(g: seq<Task>)
    requires WellFormed(g) && !HasTask(g, SEND_INIT_STATS)
    ensures (forall a :: HasTask(g, a) ==> DependsOn(AddInitRoots(g), a, SEND_INIT_STATS)) <==>
      (forall i :: 0 <= i < |g| ==> g[i].deps != Listed([]))
  {
    hide AddInitRoots;
    var h := AddInitRoots(g);
    InitKeepsOrder(g);
    if forall i :: 0 <= i < |g| ==> g[i].deps != Listed([]) {
      forall a | a in Names(g)
        ensures DependsOn(h, a, SEND_INIT_STATS) || exists b :: b in Names(g) && Edge(h, a, b)
      {
        var i :| 0 <= i < |g| && g[i].name == a;
        var b := if g[i].deps.Absent? then SEND_INIT_STATS else g[i].deps.names[0];
        if g[i].deps.Listed? { EdgeOfTask(g, g[i], b); }
        InitEdge(g, a, b);
        if g[i].deps.Absent? { EdgeDepends(h, a, b); } else { assert b in Names(g); }
      }
      forall a | HasTask(g, a)
        ensures DependsOn(h, a, SEND_INIT_STATS)
      {
        AllDescend(h, Names(g), SEND_INIT_STATS, [a]);
      }
    } else {
      var i :| 0 <= i < |g| && g[i].deps == Listed([]);
      var a := g[i].name;
      assert HasTask(g, a);
      if DependsOn(h, a, SEND_INIT_STATS) {
        var c := DependsHasFirstEdge(h, a, SEND_INIT_STATS);
        InitEdge(g, a, c);
      }
    }
  }

  // So in a workflow as it arrives, where an empty dependency list is nil, all of them wait.
  lemma InitAlwaysFirst(g: seq<Task>, a: string)
    requires WellFormed(g) && !HasTask(g, SEND_INIT_STATS)
    requires forall i :: 0 <= i < |g| ==> g[i].deps != Listed([])
    requires HasTask(g, a)
    ensures DependsOn(AddInitRoots(g), a, SEND_INIT_STATS)
  {
    hide DependsOn, AddInitRoots, HasTask;
    InitComesFirst(g);
  }

  // ----- the definition built for a cron workflow

  lemma FirstNamedPrefix(ts: seq<TemplateView>, us: seq<TemplateView>, name: string)
    requires FirstNamed(ts, name) < |ts| <= |us|
    requires forall i :: 0 <= i < |ts| ==> us[i].name == ts[i].name
    ensures FirstNamed(us, name) == FirstNamed(ts, name)
  {
    forall j | 0 <= j < FirstNamed(ts, name)
      ensures us[j].name != name
    {
      assert ts[j].name != name;
    }
  }

  // A well-formed workflow becomes one whose entry DAG has gained its init tasks and whose exit DAG
  // has gained its statistics task.
  lemma CronDags(w: WorkflowView)
    requires WellFormedWorkflow(w)
    requires !HasTemplate(w.templates, SEND_INIT_STATS) && !HasTemplate(w.templates, SEND_EXIT_STATS)
    requires w.onExit == "" ==> !HasTemplate(w.templates, EXIT_HANDLER)
    ensures PrepareCron(w).Ok?
    ensures var p := PrepareCron(w).value;
      && p.entrypoint == w.entrypoint
      && p.onExit == (if w.onExit == "" then EXIT_HANDLER else w.onExit)
      && DagOf(p.templates, p.entrypoint) == Some(AddInitRoots(EntryOf(w)))
      && DagOf(p.templates, p.onExit) == Some(ExitOf(w) + [StatsTask()])
  {
    CronExitPart(w);
    var s := ExitStatsPass(w).value;
    hide ExitStatsPass, AddInitRoots, Accepted, ExitOf;
    var e := FirstNamed(s.templates, w.entrypoint);
    var us := s.templates + [CurlTemplate(SEND_INIT_STATS, None)];
    FirstNamedPrefix(s.templates, us, w.entrypoint);
    FirstNamedPrefix(s.templates, us, s.onExit);
    var p := InitPass(s);
    assert p.templates == us[e := WithTasks(us[e], AddInitRoots(EntryOf(w)))];
    FirstNamedPrefix(us, p.templates, w.entrypoint);
    FirstNamedPrefix(us, p.templates, s.onExit);
  }

  lemma CronExitPart(w: WorkflowView)
    requires WellFormedWorkflow(w)
    requires !HasTemplate(w.templates, SEND_EXIT_STATS)
    requires w.onExit == "" ==> !HasTemplate(w.templates, EXIT_HANDLER)
    ensures ExitStatsPass(w).Ok?
    ensures var s := ExitStatsPass(w).value;
      && s.entrypoint == w.entrypoint
      && s.onExit == (if w.onExit == "" then EXIT_HANDLER else w.onExit)
      && s.onExit != s.entrypoint
      && FirstNamed(s.templates, s.entrypoint) < |s.templates| && FirstNamed(s.templates, s.onExit) < |s.templates|
      && DagOf(s.templates, s.entrypoint) == Some(EntryOf(w))
      && DagOf(s.templates, s.onExit) == Some(ExitOf(w) + [StatsTask()])
  {
    hide WellFormed, ReferencesResolved, UniqueTemplates;
    var n, e := |w.templates|, FirstNamed(w.templates, w.entrypoint);
    var ts := w.templates + [CurlTemplate(SEND_EXIT_STATS, None)];
    assert HasTemplate(w.templates, w.templates[e].name);
    FirstNamedPrefix(w.templates, ts, w.entrypoint);
    var s := ExitStatsPass(w).value;
    if w.onExit == "" {
      FirstNamedPrefix(ts, s.templates, w.entrypoint);
      assert ExitOf(w) + [StatsTask()] == [StatsTask()];
      HandlerIsLast(w.templates, s.templates);
    } else {
      FirstNamedPrefix(w.templates, ts, w.onExit);
      FirstNamedPrefix(ts, s.templates, w.entrypoint);
      FirstNamedPrefix(ts, s.templates, w.onExit);
    }
  }

  lemma HandlerIsLast(ts: seq<TemplateView>, us: seq<TemplateView>)
    requires !HasTemplate(ts, EXIT_HANDLER)
    requires us == ts + [CurlTemplate(SEND_EXIT_STATS, None)] + [DagTemplate(EXIT_HANDLER, Some([StatsTask()]))]
    ensures DagOf(us, EXIT_HANDLER) == Some([StatsTask()])
    ensures FirstNamed(us, EXIT_HANDLER) < |us|
  {
    forall i | 0 <= i < |us| - 1
      ensures us[i].name != EXIT_HANDLER
    {
      if i < |ts| { assert ts[i].name != EXIT_HANDLER; }
    }
    assert us[|us| - 1].name == EXIT_HANDLER;
  }

  // Nothing the user wrote carries a name that a cron workflow injects.
  ghost predicate CronFresh(w: WorkflowView)
    requires Accepted(w)
  {
    && !HasTask(EntryOf(w), SEND_INIT_STATS)
    && !HasTask(ExitOf(w), SEND_EXIT_STATS)
    && !HasTemplate(w.templates, SEND_INIT_STATS) && !HasTemplate(w.templates, SEND_EXIT_STATS)
    && (w.onExit == "" ==> !HasTemplate(w.templates, EXIT_HANDLER))
  }

  // the templates appended to those of the workflow
  ghost function Appended(w: WorkflowView): seq<TemplateView> {
    [CurlTemplate(SEND_EXIT_STATS, None)]
      + (if w.onExit == "" then [DagTemplate(EXIT_HANDLER, Some([StatsTask()]))] else [])
      + [CurlTemplate(SEND_INIT_STATS, None)]
  }

  // The workflow's templates, of which two have a new DAG, and the appended ones.
  ghost predicate CronShape(w: WorkflowView, ts: seq<TemplateView>)
    requires Accepted(w)
  {
    var n, e, x := |w.templates|, FirstNamed(w.templates, w.entrypoint), FirstNamed(w.templates, w.onExit);
    && e < n <= |ts|
    && ts[n..] == Appended(w)
    && ts[e] == WithTasks(w.templates[e], AddInitRoots(EntryOf(w)))
    && (w.onExit != "" ==> x < n && x != e && ts[x] == WithTasks(w.templates[x], ExitOf(w) + [StatsTask()]))
    && forall i :: 0 <= i < n && i != e && (w.onExit == "" || i != x) ==> ts[i] == w.templates[i]
  }

  // the templates after the statistics pass
  ghost function WithStats(w: WorkflowView): seq<TemplateView>
    requires Accepted(w)
  {
    var ts, x := w.templates + [CurlTemplate(SEND_EXIT_STATS, None)], FirstNamed(w.templates, w.onExit);
    if w.onExit == "" then ts + [DagTemplate(EXIT_HANDLER, Some([StatsTask()]))]
    else if x < |ts| then ts[x := WithTasks(ts[x], ExitOf(w) + [StatsTask()])]
    else ts
  }

  lemma StatsTemplates(w: WorkflowView)
    requires Accepted(w)
    ensures ExitStatsPass(w).Ok?
    ensures ExitStatsPass(w).value.templates == WithStats(w) && ExitStatsPass(w).value.entrypoint == w.entrypoint
  {
    hide WellFormed, ReferencesResolved, UniqueTemplates, EntryOf;
    if w.onExit != "" {
      ExitInPlace(w);
      FirstNamedPrefix(w.templates, w.templates + [CurlTemplate(SEND_EXIT_STATS, None)], w.onExit);
    }
  }

  ghost function WithInit(w: WorkflowView): seq<TemplateView>
    requires Accepted(w)
  {
    var us, e := WithStats(w) + [CurlTemplate(SEND_INIT_STATS, None)], FirstNamed(w.templates, w.entrypoint);
    us[e := WithTasks(us[e], AddInitRoots(EntryOf(w)))]
  }

  lemma InitTemplates(w: WorkflowView)
    requires Accepted(w)
    ensures PrepareCron(w).Ok? && PrepareCron(w).value.templates == WithInit(w)
  {
    hide Accepted, AddInitRoots, EntryOf, ExitOf, ExitStatsPass;
    EntryInPlace(w);
    if w.onExit != "" { ExitInPlace(w); }
    StatsTemplates(w);
    FirstNamedPrefix(w.templates, WithStats(w) + [CurlTemplate(SEND_INIT_STATS, None)], w.entrypoint);
  }

  lemma CronTemplates(w: WorkflowView)
    requires Accepted(w)
    ensures PrepareCron(w).Ok? && CronShape(w, PrepareCron(w).value.templates)
  {
    hide Accepted, AddInitRoots, EntryOf, ExitOf, PrepareCron;
    InitTemplates(w);
    EntryInPlace(w);
    if w.onExit != "" { ExitInPlace(w); }
    assert WithInit(w)[|w.templates|..] == Appended(w);
  }

  lemma EntryInPlace(w: WorkflowView)
    requires Accepted(w)
    ensures var e := FirstNamed(w.templates, w.entrypoint);
      e < |w.templates| && w.templates[e].dag == Some(EntryOf(w)) && w.templates[e].name == w.entrypoint
  {
    hide WellFormed, ReferencesResolved, UniqueTemplates;
  }

  lemma ExitInPlace(w: WorkflowView)
    requires Accepted(w) && w.onExit != ""
    ensures var e, x := FirstNamed(w.templates, w.entrypoint), FirstNamed(w.templates, w.onExit);
      x < |w.templates| && x != e && w.templates[x].dag == Some(ExitOf(w)) && w.templates[x].name == w.onExit
  {
    hide WellFormed, ReferencesResolved, UniqueTemplates;
    EntryInPlace(w);
  }

  lemma CronNames(w: WorkflowView, ts: seq<TemplateView>, a: string)
    requires Accepted(w) && CronShape(w, ts)
    ensures forall i :: 0 <= i < |w.templates| ==> ts[i].name == w.templates[i].name
    ensures HasTemplate(w.templates, a) || a in {SEND_INIT_STATS, SEND_EXIT_STATS} ==> HasTemplate(ts, a)
    ensures |ts| == |w.templates| + |Appended(w)|
    ensures forall i :: |w.templates| <= i < |ts| ==> ts[i] == Appended(w)[i - |w.templates|]
  {
    hide Accepted, AddInitRoots, EntryOf, ExitOf;
    var n, k := |w.templates|, |Appended(w)| - 1;
    assert forall i :: n <= i < |ts| ==> ts[i] == ts[n..][i - n];
    assert ts[n].name == SEND_EXIT_STATS && ts[n + k].name == SEND_INIT_STATS;
    if i :| 0 <= i < n && w.templates[i].name == a { assert ts[i].name == a; }
  }

  lemma CronUnique(w: WorkflowView, ts: seq<TemplateView>)
    requires Accepted(w) && CronFresh(w) && CronShape(w, ts)
    ensures UniqueTemplates(ts)
  {
    hide CronShape, HasTemplate, ReferencesResolved, WellFormed;
    CronNames(w, ts, "");
    UniqueFirst(w.templates, ts);
  }

  // Whatever a task of the new DAGs runs, is a template of the workflow or an injected one.
  lemma CronReference(w: WorkflowView, ts: seq<TemplateView>, i: nat, task: Task)
    requires Accepted(w) && CronShape(w, ts) && i < |w.templates|
    requires ts[i].dag.Some? && task in ts[i].dag.value
    ensures HasTemplate(w.templates, task.template) || task.template in {SEND_INIT_STATS, SEND_EXIT_STATS}
  {
    hide HasTemplate, WellFormed, UniqueTemplates, EntryOf, ExitOf;
    EntryInPlace(w);
    if w.onExit != "" { ExitInPlace(w); }
    var u := w.templates[i];
    assert u in w.templates;
    if i == FirstNamed(w.templates, w.entrypoint) {
      var t := ts[i].dag.value;
      var k :| 0 <= k < |t| && t[k] == task;
      if k < |EntryOf(w)| { assert EntryOf(w)[k] in u.dag.value && EntryOf(w)[k].template == task.template; }
    }
  }

  lemma CronReferences(w: WorkflowView, ts: seq<TemplateView>)
    requires Accepted(w) && CronShape(w, ts)
    ensures ReferencesResolved(ts)
  {
    hide HasTemplate, Accepted, CronShape;
    forall t, task: Task | t in ts && t.dag.Some? && task in t.dag.value
      ensures HasTemplate(ts, task.template)
    {
      CronNames(w, ts, task.template);
      var i :| 0 <= i < |ts| && ts[i] == t;
      if i < |w.templates| { CronReference(w, ts, i, task); }
    }
  }

  // The definition built for a cron workflow is well formed exactly when the entry DAG has at most
  // one root: then template names are unique, references resolve, and both DAGs are well formed.
  lemma CronWellFormedExactlyWhen(w: WorkflowView)
    requires WellFormedWorkflow(w) && CronFresh(w)
    ensures PrepareCron(w).Ok?
    ensures WellFormedWorkflow(PrepareCron(w).value) <==> Roots(EntryOf(w)) <= 1
  {
    hide PrepareCron, CronShape, AddInitRoots, DagOf, ReferencesResolved, UniqueTemplates, Roots;
    CronDags(w);
    CronTemplates(w);
    var p, g, x := PrepareCron(w).value, EntryOf(w), ExitOf(w);
    CronUnique(w, p.templates);
    CronReferences(w, p.templates);
    InitUniqueExactlyWhenOneRoot(g);
    InitKeepsOrder(g);
    InitNotEmpty(g);
    ExitIsWellFormed(w);
    StatsWellFormed(x);
    HandlerIsNoEntry(w);
  }

  lemma InitNotEmpty(g: seq<Task>)
    requires g != []
    ensures AddInitRoots(g) != []
  {
  }

  lemma StatsEdge(x: seq<Task>, a: string, b: string)
    ensures Edge(x + [StatsTask()], a, b) <==> Edge(x, a, b)
  {
    var h := x + [StatsTask()];
    if Edge(h, a, b) {
      var t := TaskOfEdge(h, a, b);
      EdgeOfTask(x, t, b);
    }
    if Edge(x, a, b) {
      var t := TaskOfEdge(x, a, b);
      EdgeOfTask(h, t, b);
    }
  }

  // The statistics task stands alone in the exit DAG.
  lemma StatsWellFormed(x: seq<Task>)
    requires WellFormed(x) && !HasTask(x, SEND_EXIT_STATS)
    ensures WellFormed(x + [StatsTask()])
  {
    hide Edge;
    var h := x + [StatsTask()];
    forall a, b
      ensures Edge(h, a, b) <==> Edge(x, a, b)
    {
      StatsEdge(x, a, b);
    }
    forall a, b | Edge(x, a, b)
      ensures a in Names(x) && b in Names(x) && HasTask(h, b)
    {
      var t := TaskOfEdge(x, a, b);
      var i :| 0 <= i < |x| && x[i].name == b;
      assert h[i] == x[i];
    }
    LayeringKeepsAcyclic(x, h, Names(x), map[]);
  }

  lemma HandlerIsNoEntry(w: WorkflowView)
    requires Accepted(w) && CronFresh(w)
    ensures w.onExit == "" ==> w.entrypoint != EXIT_HANDLER
    ensures w.onExit != "" ==> w.onExit != w.entrypoint
  {
    hide WellFormed, ReferencesResolved, UniqueTemplates;
    EntryInPlace(w);
  }

  // the places of the tasks without a dependency list
  function NilPlaces(g: seq<Task>): set<nat> {
    set k: nat | k < |g| && g[k].deps == Absent
  }

  lemma {:induction false} RootsAreNil(g: seq<Task>)
    ensures Roots(g) == |NilPlaces(g)|
  {
    if g == [] {
      assert NilPlaces(g) == {};
    } else {
      var n := |g| - 1;
      RootsAreNil(g[..n]);
      var before := NilPlaces(g[..n]);
      assert NilPlaces(g) == before + if g[n].deps == Absent then {n} else {};
    }
  }

  // The definition in the words of the workflow: one task that calls the sending template for each
  // task without a dependency list, which now waits for it; the statistics task in the exit DAG; and
  // the two templates that send.
  lemma CronInWords(w: WorkflowView)
    requires WellFormedWorkflow(w) && CronFresh(w)
    ensures PrepareCron(w).Ok?
    ensures var p := PrepareCron(w).value;
      && p.entrypoint == w.entrypoint && p.onExit == (if w.onExit == "" then "exit-handler" else w.onExit)
      && DagOf(p.templates, p.onExit) ==
           Some(ExitOf(w) + [Task("sys-send-exit-stats", "sys-send-exit-stats", Absent)])
      && DagOf(p.templates, p.entrypoint).Some?
      && (var g, h := EntryOf(w), DagOf(p.templates, p.entrypoint).value;
          && |h| == |g| + |NilPlaces(g)|
          && (forall k :: 0 <= k < |g| ==>
               h[k] == if g[k].deps == Absent then g[k].(deps := Listed(["sys-send-init-stats"])) else g[k])
          && forall k :: |g| <= k < |h| ==> h[k] == Task("sys-send-init-stats", "sys-send-init-stats", Absent))
      && (forall i :: 0 <= i < |w.templates| ==>
           i < |p.templates| && p.templates[i] == w.templates[i].(dag := p.templates[i].dag))
      && Sends(p.templates, "sys-send-init-stats") && Sends(p.templates, "sys-send-exit-stats")
  {
    hide PrepareCron, DagOf, UniqueTemplates, Roots, CronShape, HasTemplate, ReferencesResolved, WellFormed;
    CronDags(w);
    CronTemplates(w);
    var p := PrepareCron(w).value;
    CronUnique(w, p.templates);
    CronNames(w, p.templates, "");
    RootsAreNil(EntryOf(w));
    CronKeepsTemplates(w, p.templates);
    var n, k := |w.templates|, |Appended(w)| - 1;
    assert p.templates[n] == CurlTemplate(SEND_EXIT_STATS, None);
    assert p.templates[n + k] == CurlTemplate(SEND_INIT_STATS, None);
    FindTemplate(p.templates, p.templates[n]);
    FindTemplate(p.templates, p.templates[n + k]);
  }

  lemma CronKeepsTemplates(w: WorkflowView, ts: seq<TemplateView>)
    requires Accepted(w) && CronShape(w, ts)
    ensures forall i :: 0 <= i < |w.templates| ==> i < |ts| && ts[i] == w.templates[i].(dag := ts[i].dag)
  {
    hide Accepted, AddInitRoots, EntryOf, ExitOf;
  }

  // Two roots are enough: a well-formed workflow of two tasks whose cron definition is not.
  const TWO_ROOTS: seq<Task> := [Task("a", "step", Absent), Task("b", "step", Absent)]
  const FORKED: WorkflowView :=
    WorkflowView([DagTemplate("main", Some(TWO_ROOTS)), CurlTemplate("step", None)], "main", "")

  lemma ForkedIsWellFormed()
    ensures WellFormedWorkflow(FORKED) && CronFresh(FORKED) && EntryOf(FORKED) == TWO_ROOTS
  {
    assert FORKED.templates[0].name == "main" && FORKED.templates[1].name == "step";
    assert HasTemplate(FORKED.templates, "step");
    forall a, b
      ensures !Edge(TWO_ROOTS, a, b)
    {
    }
    forall a
      ensures !DependsOn(TWO_ROOTS, a, a)
    {
      if DependsOn(TWO_ROOTS, a, a) { var c := DependsHasFirstEdge(TWO_ROOTS, a, a); }
    }
  }

  lemma ForkedCronIsNotWellFormed()
    ensures WellFormedWorkflow(FORKED) && CronFresh(FORKED)
    ensures PrepareCron(FORKED).Ok? && !WellFormedWorkflow(PrepareCron(FORKED).value)
  {
    hide WellFormedWorkflow, CronFresh, PrepareCron, EntryOf;
    ForkedIsWellFormed();
    CronWellFormedExactlyWhen(FORKED);
    assert TWO_ROOTS[..1] == [TWO_ROOTS[0]] && TWO_ROOTS[..1][..0] == [];
  }
}
