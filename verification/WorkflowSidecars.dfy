/**
 createWorkflow told in the words of the submitted workflow: which sidecars are given access, which
 templates get a file syncer, what the injected tasks call, and what is left of the rewriting when no
 sidecar is involved.
 */
module WorkflowSidecars {
  import opened Wrappers
  import opened DependencyGraph
  import opened WorkflowModel
  import opened WorkflowPasses
  import opened EntryGraph
  import opened ExitGraph
  import opened PreparedWorkflow
  import opened WorkflowResults

  // ----- which sidecars are interactive

  predicate Marked(s: Sidecar) { EnvVar("ONEPANEL_INTERACTIVE_SIDECAR", "true") in s.env }

  // Some container or script of the template mounts a volume.
  ghost predicate MountsVolume<D>(t: Template<D>) {
    exists v :: (t.container.Some? && v in t.container.value) || (t.script.Some? && v in t.script.value)
  }

  function AllSidecars<D>(ts: seq<Template<D>>): seq<Sidecar> {
    if ts == [] then [] else AllSidecars(ts[..|ts| - 1]) + ts[|ts| - 1].sidecars
  }

  // `chosen` are the marked ones of `all`, all of them, in order: at[i] is the place of chosen[i].
  ghost predicate Selects(all: seq<Sidecar>, chosen: seq<Sidecar>, at: seq<nat>) {
    && |at| == |chosen|
    && (forall i :: 0 <= i < |at| ==> at[i] < |all| && chosen[i] == all[at[i]])
    && (forall i, j :: 0 <= i < j < |at| ==> at[i] < at[j])
    && forall p: nat :: p < |all| ==> (p in at <==> Marked(all[p]))
  }

  lemma {:induction false} InteractiveAppend(a: seq<Sidecar>, b: seq<Sidecar>)
    ensures Interactive(a + b) == Interactive(a) + Interactive(b)
  {
    if b == [] {
      assert a + b == a;
    } else {
      var n := |b| - 1;
      assert (a + b)[..|a + b| - 1] == a + b[..n];
      InteractiveAppend(a, b[..n]);
    }
  }

  lemma {:induction false} InteractiveOfAll<D>(ts: seq<Template<D>>)
    ensures AllInteractive(ts) == Interactive(AllSidecars(ts))
  {
    hide Interactive;
    if ts == [] {
      NoneInteractive();
    } else {
      InteractiveOfAll(ts[..|ts| - 1]);
      InteractiveAppend(AllSidecars(ts[..|ts| - 1]), ts[|ts| - 1].sidecars);
    }
  }

  lemma NoneInteractive()
    ensures Interactive([]) == []
  {
  }

  lemma {:induction false} InteractiveSelects(all: seq<Sidecar>) returns (at: seq<nat>)
    ensures Selects(all, Interactive(all), at)
  {
    if all == [] {
      assert Interactive(all) == [];
      at := [];
    } else {
      var n := |all| - 1;
      var before := InteractiveSelects(all[..n]);
      if Marked(all[n]) {
        at := before + [n];
        SelectsOneMore(all, Interactive(all[..n]), before);
      } else {
        at := before;
        SelectsNoMore(all, Interactive(all[..n]), before);
      }
    }
  }

  lemma SelectsOneMore(all: seq<Sidecar>, chosen: seq<Sidecar>, at: seq<nat>)
    requires all != [] && Selects(all[..|all| - 1], chosen, at) && Marked(all[|all| - 1])
    ensures Selects(all, chosen + [all[|all| - 1]], at + [|all| - 1])
  {
    hide Marked;
    var n := |all| - 1;
    assert forall i :: 0 <= i < |at| ==> at[i] in at && at[i] < n;
    forall p: nat | p < |all|
      ensures p in at + [n] <==> Marked(all[p])
    {
      if p < n { assert all[..n][p] == all[p]; }
    }
  }

  lemma SelectsNoMore(all: seq<Sidecar>, chosen: seq<Sidecar>, at: seq<nat>)
    requires all != [] && Selects(all[..|all| - 1], chosen, at) && !Marked(all[|all| - 1])
    ensures Selects(all, chosen, at)
  {
    hide Marked;
    var n := |all| - 1;
    assert forall i :: 0 <= i < |at| ==> at[i] in at && at[i] < n;
    forall p: nat | p < |all|
      ensures p in at <==> Marked(all[p])
    {
      if p < n { assert all[..n][p] == all[p]; }
    }
  }

  // The interactive sidecars are the marked ones, each as often as it occurs and in the order of the
  // templates.
  lemma InteractiveAreMarked<D>(ts: seq<Template<D>>) returns (at: seq<nat>)
    ensures Selects(AllSidecars(ts), AllInteractive(ts), at)
  {
    hide Selects;
    InteractiveOfAll(ts);
    at := InteractiveSelects(AllSidecars(ts));
  }

  lemma {:induction false} SidecarOfTemplate<D>(ts: seq<Template<D>>, s: Sidecar)
    ensures s in AllSidecars(ts) <==> exists i :: 0 <= i < |ts| && s in ts[i].sidecars
  {
    if ts != [] {
      var n := |ts| - 1;
      SidecarOfTemplate(ts[..n], s);
      if s in AllSidecars(ts[..n]) {
        var i :| 0 <= i < n && s in ts[..n][i].sidecars;
        assert s in ts[i].sidecars;
      }
      if i :| 0 <= i < |ts| && s in ts[i].sidecars {
        if i < n { assert s in ts[..n][i].sidecars; }
      }
    }
  }

  lemma InteractiveMembers<D>(ts: seq<Template<D>>, s: Sidecar)
    ensures s in AllInteractive(ts) <==> Marked(s) && exists i :: 0 <= i < |ts| && s in ts[i].sidecars
  {
    hide AllInteractive, AllSidecars, Marked;
    var at := InteractiveAreMarked(ts);
    SidecarOfTemplate(ts, s);
    var all, chosen := AllSidecars(ts), AllInteractive(ts);
    if s in chosen {
      var i :| 0 <= i < |chosen| && chosen[i] == s;
      assert at[i] in at && all[at[i]] == s;
    }
    if s in all && Marked(s) {
      var p: nat :| p < |all| && all[p] == s;
      assert p in at;
      var i :| 0 <= i < |at| && at[i] == p;
      assert chosen[i] == s;
    }
  }

  const SYNCER: Sidecar := Sidecar("sys-filesyncer", [EnvVar("ONEPANEL_INTERACTIVE_SIDECAR", "true")], [8888])

  lemma SyncerAdded<D>(t: Template<D>)
    ensures AddFilesyncer(t).sidecars == t.sidecars + if MountsVolume(t) then [SYNCER] else []
    ensures AddFilesyncer(t) == t.(sidecars := AddFilesyncer(t).sidecars)
  {
    if t.container.Some? && t.container.value != [] { assert t.container.value[0] in t.container.value; }
    if t.script.Some? && t.script.value != [] { assert t.script.value[0] in t.script.value; }
  }

  // The sidecars that are given access: the user's marked ones, and a file syncer if a volume is mounted.
  lemma AccessIsForMarked(w: WorkflowView, s: Sidecar)
    ensures s in SidecarsOf(w) <==>
      || (Marked(s) && exists i :: 0 <= i < |w.templates| && s in w.templates[i].sidecars)
      || (s == SYNCER && exists i :: 0 <= i < |w.templates| && MountsVolume(w.templates[i]))
  {
    hide AddFilesyncer, MountsVolume, AllInteractive;
    var ts, fs := w.templates, FilesyncerPass(w).templates;
    InteractiveMembers(fs, s);
    forall i | 0 <= i < |ts|
      ensures s in fs[i].sidecars <==> s in ts[i].sidecars || (MountsVolume(ts[i]) && s == SYNCER)
    {
      SyncerAdded(ts[i]);
    }
    if i :| 0 <= i < |fs| && s in fs[i].sidecars {
      assert s in ts[i].sidecars || (MountsVolume(ts[i]) && s == SYNCER);
    }
    if i :| 0 <= i < |ts| && s in ts[i].sidecars { assert s in fs[i].sidecars; }
    if i :| 0 <= i < |ts| && MountsVolume(ts[i]) {
      assert s == SYNCER ==> s in fs[i].sidecars;
    }
  }

  // An interactive sidecar of the user's without a port.
  ghost predicate LacksPort(w: WorkflowView) {
    exists i, s :: 0 <= i < |w.templates| && s in w.templates[i].sidecars && Marked(s) && s.ports == []
  }

  // Of an accepted workflow the preparation fails exactly when a marked sidecar has no port.
  lemma FailsExactlyWhen(w: WorkflowView, draws: seq<Draw>)
    requires Accepted(w) && Fresh(w, draws) && |SidecarsOf(w)| <= |draws|
    ensures Prepare(w, draws).Failed? <==> LacksPort(w)
  {
    hide Accepted, Fresh, Prepare, SidecarsOf, DagOf, Marked, HasTemplate;
    var ss := SidecarsOf(w);
    if AllHavePorts(ss) {
      PreparedByPasses(w, draws);
      if i, s :| 0 <= i < |w.templates| && s in w.templates[i].sidecars && Marked(s) && s.ports == [] {
        AccessIsForMarked(w, s);
      }
    } else {
      var k := FirstPortless(ss);
      MissingPortIsReported(w, draws, k);
      AccessIsForMarked(w, ss[k]);
      var i :| 0 <= i < |w.templates| && ss[k] in w.templates[i].sidecars;
      assert LacksPort(w);
    }
  }

  lemma FirstPortless(ss: seq<Sidecar>) returns (k: nat)
    requires !AllHavePorts(ss)
    ensures k < |ss| && ss[k].ports == [] && forall i :: 0 <= i < k ==> ss[i].ports != []
  {
    k := 0;
    while ss[k].ports != []
      invariant k < |ss| && forall i :: 0 <= i < k ==> ss[i].ports != []
      invariant exists i :: k <= i < |ss| && ss[i].ports == []
      decreases |ss| - k
    {
      k := k + 1;
    }
  }

  // ----- entry or exit templates without a DAG, or without a template

  // The first template of a name, which may have no DAG.
  ghost predicate LacksDag(w: WorkflowView, name: string) {
    exists i :: 0 <= i < |w.templates| && w.templates[i].name == name && w.templates[i].dag.None?
      && forall j :: 0 <= j < i ==> w.templates[j].name != name
  }

  ghost predicate HasDag(w: WorkflowView, name: string) {
    exists i :: 0 <= i < |w.templates| && w.templates[i].name == name && w.templates[i].dag.Some?
      && forall j :: 0 <= j < i ==> w.templates[j].name != name
  }

  lemma FirstIs(w: WorkflowView, name: string)
    ensures var i := FirstNamed(w.templates, name);
      && (LacksDag(w, name) <==> i < |w.templates| && w.templates[i].dag.None?)
      && (HasDag(w, name) <==> i < |w.templates| && w.templates[i].dag.Some?)
  {
  }

  // A nil DAG of the entry template, or of the exit template behind an entry template with a DAG, is
  // dereferenced: the preparation panics. A cron definition panics for the exit template only.
  lemma NilDagPanics(w: WorkflowView, draws: seq<Draw>)
    requires |SidecarsOf(w)| <= |draws|
    ensures LacksDag(w, w.entrypoint) ==> Prepare(w, draws) == Failed(NilDereference)
    ensures HasDag(w, w.entrypoint) && w.onExit != "" && LacksDag(w, w.onExit) ==>
      Prepare(w, draws) == Failed(NilDereference)
    ensures w.onExit != "" && LacksDag(w, w.onExit) ==> PrepareCron(w) == Failed(NilDereference)
    ensures w.onExit == "" || HasDag(w, w.onExit) ==> PrepareCron(w).Ok?
  {
    hide AddStatusRoot, SidecarsOf, RunSidecars, Weave, AllInteractive, LacksDag, HasDag, InitPass;
    FirstIs(w, w.entrypoint);
    FirstIs(w, w.onExit);
    FilesyncerKeeps(w);
    var fs := FilesyncerPass(w).templates;
    FirstInPrefix(w.templates, fs, w.entrypoint);
    FirstInPrefix(fs, fs + [CurlTemplate(SEND_STATUS, None)], w.entrypoint);
    NilExitPanics(w);
    FirstInPrefix(w.templates, w.templates + [CurlTemplate(SEND_EXIT_STATS, None)], w.onExit);
  }

  lemma FirstInPrefix(ts: seq<TemplateView>, us: seq<TemplateView>, name: string)
    requires |ts| <= |us| && forall i :: 0 <= i < |ts| ==> us[i].name == ts[i].name
    ensures FirstNamed(ts, name) < |ts| ==> FirstNamed(us, name) == FirstNamed(ts, name)
  {
    var i, j := FirstNamed(ts, name), FirstNamed(us, name);
  }

  lemma NilExitPanics(w: WorkflowView)
    ensures HasDag(w, w.entrypoint) && w.onExit != "" && LacksDag(w, w.onExit) ==>
      BeforeAccess(w) == Failed(NilDereference)
  {
    hide AddStatusRoot, LacksDag, HasDag, FilesyncerPass;
    FirstIs(w, w.entrypoint);
    FirstIs(w, w.onExit);
    FilesyncerKeeps(w);
    var fs := FilesyncerPass(w).templates;
    var ts := fs + [CurlTemplate(SEND_STATUS, None)];
    FirstInPrefix(w.templates, fs, w.entrypoint);
    FirstInPrefix(fs, ts, w.entrypoint);
    if HasDag(w, w.entrypoint) && w.onExit != "" && LacksDag(w, w.onExit) {
      var us := StatusPass(FilesyncerPass(w)).value.templates;
      FirstInPrefix(w.templates, us, w.onExit);
      FirstInPrefix(us, us + [CurlTemplate(SEND_EXIT_STATS, None)], w.onExit);
    }
  }

  // Some entry template has a DAG without tasks.
  ghost predicate HasEmptyEntry(w: WorkflowView) {
    exists i :: 0 <= i < |w.templates| && w.templates[i].name == w.entrypoint && w.templates[i].dag == Some([])
  }

  // One turn of the sidecar loop, on any workflow: the errors in the order in which they are noticed.
  lemma TurnFailsExactlyWhen(w: WorkflowView, s: Sidecar, d: Draw)
    ensures var r := SidecarStep(w, s, d);
      if s.ports == [] then r == Failed(UserError(s.name))
      else if HasEmptyEntry(w) then r == Failed(IndexOutOfRange)
      else if w.onExit != "" && LacksDag(w, w.onExit) then r == Failed(NilDereference)
      else r.Ok?
  {
    hide AttachAccess, AttachDelete, LacksDag, AddTasks, DeleteTasks;
    FirstIs(w, w.onExit);
    if HasEmptyEntry(w) {
      var i :| 0 <= i < |w.templates| && w.templates[i].name == w.entrypoint && w.templates[i].dag == Some([]);
      assert w.templates[i] in w.templates && IsEntryDag(w.templates[i], w.entrypoint);
    } else if s.ports != [] {
      assert CanAttach(w.templates, w.entrypoint);
      var us := AttachAll(w.templates, w.entrypoint, d);
      assert forall i :: 0 <= i < |us| ==>
        us[i].name == w.templates[i].name && (us[i].dag.None? <==> w.templates[i].dag.None?);
      FirstInPrefix(w.templates, us, w.onExit);
      FirstInPrefix(us, w.templates, w.onExit);
    }
  }

  // What a turn makes of the exit tasks x: the two deletions are appended, the second behind the first;
  // the statistics tasks wait for the second, or, if there is none, task 0 of the new list does.
  ghost predicate GainsDeletes(x: seq<Task>, h: seq<Task>, d: Draw) {
    var all := x + [Task(d.ServiceDeleteTask(), d.ServiceDeleteTemplate(), Absent),
                    Task(d.VirtualDeleteTask(), d.VirtualDeleteTemplate(), Listed([d.ServiceDeleteTask()]))];
    && |h| == |all|
    && forall k :: 0 <= k < |all| ==>
      var waits := if HasTask(all, "sys-send-exit-stats") then all[k].name == "sys-send-exit-stats" else k == 0;
      h[k] == if waits then all[k].(deps := Listed(all[k].DepNames() + [d.VirtualDeleteTask()])) else all[k]
  }

  // A successful turn, on any workflow: a handler with the two deletions is made if there is none, else
  // the first template of that name gains them; other exit templates are left alone.
  lemma TurnOnExit(w: WorkflowView, s: Sidecar, d: Draw)
    requires SidecarStep(w, s, d).Ok?
    ensures var n, v := |w.templates|, SidecarStep(w, s, d).value;
      && v.entrypoint == w.entrypoint
      && (w.onExit == "" ==>
           && v.onExit == "exit-handler" && |v.templates| == n + 1
           && v.templates[n] == Template("exit-handler",
                Some([Task(d.ServiceDeleteTask(), d.ServiceDeleteTemplate(), Absent),
                      Task(d.VirtualDeleteTask(), d.VirtualDeleteTemplate(), Listed([d.ServiceDeleteTask()]))]),
                None, None, [], None))
      && (w.onExit != "" ==>
           && v.onExit == w.onExit && |v.templates| == n
           && forall i :: 0 <= i < n && w.templates[i].name == w.onExit != w.entrypoint && w.templates[i].dag.Some? ==>
                && v.templates[i].dag.Some?
                && if forall j :: 0 <= j < i ==> w.templates[j].name != w.onExit
                   then GainsDeletes(w.templates[i].dag.value, v.templates[i].dag.value, d)
                   else v.templates[i] == w.templates[i])
  {
    hide AttachAccess, AttachDelete, AddTasks, GainsDeletes;
    if w.onExit != "" {
      var us := AttachAll(w.templates, w.entrypoint, d);
      FirstInPrefix(w.templates, us, w.onExit);
      FirstInPrefix(us, w.templates, w.onExit);
      forall i | 0 <= i < |us| && us[i].dag.Some?
        ensures GainsDeletes(us[i].dag.value, AttachDelete(us[i].dag.value, d), d)
      {
        DeletesGained(us[i].dag.value, d);
      }
    }
  }

  lemma DeletesGained(x: seq<Task>, d: Draw)
    ensures GainsDeletes(x, AttachDelete(x, d), d)
  {
    var all := x + DeleteTasks(d);
    assert HasTask(all, "sys-send-exit-stats") <==> HasStats(all);
  }

  // In the prepared workflow a template has the sidecars it had, and a file syncer behind them exactly
  // when it mounts a volume; whatever else it is stays as it was, but for the two DAGs.
  lemma SyncersExactlyWhen(w: WorkflowView, draws: seq<Draw>, i: nat)
    requires Input(w, draws) && i < |w.templates|
    ensures Prepare(w, draws).Ok? && UniqueTemplates(Prepare(w, draws).value.templates)
    ensures var t, u := w.templates[i], TemplateNamed(Prepare(w, draws).value.templates, w.templates[i].name);
      && u.Some?
      && u.value == t.(sidecars := t.sidecars + if MountsVolume(t) then [SYNCER] else [], dag := u.value.dag)
      && (t.name != w.entrypoint && t.name != w.onExit ==> u.value.dag == t.dag)
  {
    hide Accepted, Fresh, Prepare, SidecarsOf, DagOf, HasTemplate, AllInteractive, Interactive, AllAccessTemplates,
         ReferencesResolved, UniqueTemplates, AddFilesyncer, MountsVolume;
    PreparedDagsAreUnique(w, draws);
    TemplatesInOrder(w, draws, i);
    SyncerAdded(w.templates[i]);
    var p, fs := Prepare(w, draws).value.templates, FilesyncerPass(w).templates;
    var at := i + 4 * |AllInteractive(fs[..i])| + 4 * |Interactive(fs[i].sidecars)|;
    assert p[at] in p;
    FindTemplate(p, p[at]);
  }

  lemma PreparedDagsAreUnique(w: WorkflowView, draws: seq<Draw>)
    requires Input(w, draws)
    ensures Prepare(w, draws).Ok? && UniqueTemplates(Prepare(w, draws).value.templates)
  {
    hide Accepted, Fresh, Prepare, SidecarsOf, DagOf, UniqueTemplates, EntryDag, ExitDag;
    PreparedDags(w, draws);
  }

  // ----- what the injected tasks call

  // The status task and the statistics task each call a template that sends.
  lemma InjectedTasksSend(w: WorkflowView, draws: seq<Draw>)
    requires Input(w, draws)
    ensures Prepare(w, draws).Ok? && WellFormedWorkflow(Prepare(w, draws).value)
    ensures var p := Prepare(w, draws).value;
      && Task("sys-send-status", "sys-send-status", Absent) in EntryOf(p)
      && (exists t :: t in ExitOf(p) && t.name == "sys-send-exit-stats" && t.template == "sys-send-exit-stats")
      && Sends(p.templates, "sys-send-status")
      && Sends(p.templates, "sys-send-exit-stats")
  {
    hide Fresh, Prepare, SidecarsOf, DagOf, EntryDag, ExitDag, WellFormed, ReferencesResolved, Sends, UniqueTemplates;
    PreparedIsWellFormed(w, draws);
    var ds := Used(w, draws);
    EntryMembers(EntryOf(w), ds, StatusTask());
    ExitMembers(ExitOf(w), ds, FinalStats(ds));
    assert FinalStats(ds) in ExitOf(Prepare(w, draws).value);
    SendersPresent(w, draws);
  }

  lemma SendersPresent(w: WorkflowView, draws: seq<Draw>)
    requires Input(w, draws)
    ensures Prepare(w, draws).Ok?
    ensures Sends(Prepare(w, draws).value.templates, "sys-send-status")
    ensures Sends(Prepare(w, draws).value.templates, "sys-send-exit-stats")
  {
    hide Fresh, Prepare, DagOf, EntryDag, ExitDag, WellFormed, ReferencesResolved, UniqueTemplates, Weave,
         AllInteractive, SidecarsOf, FilesyncerPass;
    PreparedDagsAreUnique(w, draws);
    var v, e, x := PrepareShape(w, draws);
    var n, ts := |w.templates|, Attached(w, v, e, x, draws[..|SidecarsOf(w)|]);
    assert ts[n] == v.templates[n] && ts[n + 1] == v.templates[n + 1];
    WeaveMembers(ts, draws, ts[n]);
    WeaveMembers(ts, draws, ts[n + 1]);
    FindTemplate(Prepare(w, draws).value.templates, ts[n]);
    FindTemplate(Prepare(w, draws).value.templates, ts[n + 1]);
  }

  // ----- a workflow without sidecars to give access to

  ghost predicate Plain(w: WorkflowView) {
    forall i :: 0 <= i < |w.templates| ==>
      !MountsVolume(w.templates[i]) && forall s :: s in w.templates[i].sidecars ==> !Marked(s)
  }

  lemma PlainHasNone(w: WorkflowView)
    requires Plain(w)
    ensures SidecarsOf(w) == []
  {
    hide Marked, MountsVolume, SidecarsOf;
    if SidecarsOf(w) != [] {
      AccessIsForMarked(w, SidecarsOf(w)[0]);
    }
  }

  lemma PlainIsNotSynced(w: WorkflowView, i: nat)
    requires Plain(w) && i < |w.templates|
    ensures FilesyncerPass(w).templates[i] == w.templates[i]
  {
    hide AddFilesyncer, MountsVolume;
    SyncerAdded(w.templates[i]);
    assert w.templates[i].sidecars + [] == w.templates[i].sidecars;
  }

  lemma {:induction false} WeaveNone(ts: seq<TemplateView>, draws: seq<Draw>)
    requires AllInteractive(ts) == []
    ensures Weave(None, ts, draws) == ts
  {
    if ts != [] {
      WeaveNone(ts[..|ts| - 1], draws);
    }
  }

  lemma PlainPrepared(w: WorkflowView, draws: seq<Draw>) returns (v: WorkflowView, e: nat, x: nat)
    requires Accepted(w) && Fresh(w, draws) && Plain(w)
    ensures ReadyForAccess(w, v, e, x) && |SidecarsOf(w)| <= |draws| && Prepare(w, draws) == Ok(v)
  {
    hide Accepted, Fresh, ReadyForAccess, BeforeAccess, SidecarsOf, Weave, AllInteractive, Plain;
    PlainHasNone(w);
    NoClashWithCurl(w, draws);
    v, e, x := BeforeShape(w);
    SidecarsUnchanged(w, v, e, x);
    assert v.templates[..|v.templates|] == v.templates;
    WeaveNone(v.templates, draws);
  }

  // Nothing but the tasks that send is added: the templates are the user's, the two that send, and an
  // exit handler if there was none; a task without dependencies now waits for the status task.
  lemma PlainWorkflow(w: WorkflowView, draws: seq<Draw>)
    requires Accepted(w) && Fresh(w, draws) && Plain(w)
    ensures |SidecarsOf(w)| <= |draws| && Prepare(w, draws).Ok?
    ensures var p, n, own := Prepare(w, draws).value, |w.templates|, w.onExit == "";
      && p.entrypoint == w.entrypoint && p.onExit == (if own then "exit-handler" else w.onExit)
      && |p.templates| == n + (if own then 3 else 2)
      && (forall i :: 0 <= i < n ==> p.templates[i] == w.templates[i].(dag := p.templates[i].dag))
      && (forall i :: 0 <= i < n && w.templates[i].name != w.entrypoint && w.templates[i].name != w.onExit ==>
           p.templates[i] == w.templates[i])
      && p.templates[n] == Template("sys-send-status", None, Some([]), None, [], None)
      && p.templates[n + 1] == Template("sys-send-exit-stats", None, Some([]), None, [], None)
      && (own ==>
           p.templates[n + 2] == Template("exit-handler",
             Some([Task("sys-send-exit-stats", "sys-send-exit-stats", Absent)]), None, None, [], None))
      && UniqueTemplates(p.templates)
      && DagOf(p.templates, p.onExit) ==
           Some(ExitOf(w) + [Task("sys-send-exit-stats", "sys-send-exit-stats", Absent)])
      && DagOf(p.templates, p.entrypoint).Some?
      && var g, h := EntryOf(w), DagOf(p.templates, p.entrypoint).value;
         && |h| == |g| + 1 && h[|g|] == Task("sys-send-status", "sys-send-status", Absent)
         && forall k :: 0 <= k < |g| ==>
              h[k] == if g[k].deps.Absent? then g[k].(deps := Listed(["sys-send-status"])) else g[k]
  {
    hide Fresh, SidecarsOf, DagOf, UniqueTemplates, ReferencesResolved, WellFormed, Prepare, FilesyncerPass, Plain,
         HasTemplate;
    var v, e, x := PlainPrepared(w, draws);
    PlainHasNone(w);
    PreparedByPasses(w, draws);
    assert draws[..0] == [];
    NoChains(EntryOf(w), ExitOf(w));
    FilesyncerKeeps(w);
    forall i | 0 <= i < |w.templates|
      ensures FilesyncerPass(w).templates[i] == w.templates[i]
    {
      PlainIsNotSynced(w, i);
    }
    OnlyTwoByName(w, v, e, x, draws);
  }

  lemma NoChains(g: seq<Task>, x: seq<Task>)
    ensures AddStatusRoot(g) != [] && FoldAttach(AddStatusRoot(g), []) == AddStatusRoot(g)
    ensures ExitDag(x, []) == x + [Task("sys-send-exit-stats", "sys-send-exit-stats", Absent)]
  {
  }

  // In a list of templates with unique names only the entry and the exit template have theirs.
  lemma OnlyTwoByName(w: WorkflowView, v: WorkflowView, e: nat, x: nat, draws: seq<Draw>)
    requires Accepted(w) && Fresh(w, draws) && ReadyForAccess(w, v, e, x)
    ensures forall i :: 0 <= i < |w.templates| ==>
      w.templates[i].name != w.entrypoint && w.templates[i].name != w.onExit ==> i != e && i != x
  {
    hide AddStatusRoot, FilesyncerPass, UniqueTemplates, ReferencesResolved, WellFormed;
    FilesyncerKeeps(w);
  }
}
