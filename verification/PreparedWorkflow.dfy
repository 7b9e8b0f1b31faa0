/**
 The whole pass sequence of createWorkflow: what it makes of every well-formed workflow, however
 many templates and interactive sidecars it has.
 */
module PreparedWorkflow {
  import opened Wrappers
  import opened DependencyGraph
  import opened WorkflowModel
  import opened WorkflowPasses
  import opened EntryGraph
  import opened ExitGraph

  ghost predicate HasTemplate(ts: seq<TemplateView>, name: string) {
    exists i :: 0 <= i < |ts| && ts[i].name == name
  }

  ghost predicate UniqueTemplates(ts: seq<TemplateView>) {
    forall i, j :: 0 <= i < j < |ts| ==> ts[i].name != ts[j].name
  }

  ghost predicate ReferencesResolved(ts: seq<TemplateView>) {
    forall t, task :: t in ts && t.dag.Some? && task in t.dag.value ==> HasTemplate(ts, task.template)
  }

  function DagOf(ts: seq<TemplateView>, name: string): Option<seq<Task>> {
    var i := FirstNamed(ts, name);
    if i == |ts| then None else ts[i].dag
  }

  // What the validator of a workflow demands: an entry DAG, and an exit DAG when one is named.
  ghost predicate Accepted(w: WorkflowView) {
    && UniqueTemplates(w.templates)
    && ReferencesResolved(w.templates)
    && DagOf(w.templates, w.entrypoint).Some?
    && WellFormed(EntryOf(w))
    && (w.onExit != "" ==>
          && w.onExit != w.entrypoint
          && DagOf(w.templates, w.onExit).Some?
          && WellFormed(ExitOf(w)))
  }

  // It also rejects a DAG without tasks.
  ghost predicate WellFormedWorkflow(w: WorkflowView) {
    Accepted(w) && EntryOf(w) != []
  }

  ghost function EntryOf(w: WorkflowView): seq<Task>
    requires DagOf(w.templates, w.entrypoint).Some?
  {
    DagOf(w.templates, w.entrypoint).value
  }

  // the tasks that run on exit
  ghost function ExitOf(w: WorkflowView): seq<Task>
    requires w.onExit != "" ==> DagOf(w.templates, w.onExit).Some?
  {
    if w.onExit == "" then [] else DagOf(w.templates, w.onExit).value
  }

  // Nothing the user wrote carries the name of an injected task or template.
  ghost predicate Fresh(w: WorkflowView, draws: seq<Draw>)
    requires Accepted(w)
  {
    && DistinctDraws(draws)
    && Untouched(EntryOf(w), draws)
    && Untouched(ExitOf(w), draws)
    && !HasTemplate(w.templates, SEND_STATUS)
    && !HasTemplate(w.templates, SEND_EXIT_STATS)
    && (w.onExit == "" ==> !HasTemplate(w.templates, EXIT_HANDLER))
    && forall i, a :: 0 <= i < |draws| && a in draws[i].TemplateNames() ==> !HasTemplate(w.templates, a)
  }

  // ----- looking templates up by name

  lemma UniqueLookup(ts: seq<TemplateView>, t: TemplateView)
    requires UniqueTemplates(ts) && t in ts
    ensures FirstNamed(ts, t.name) < |ts| && ts[FirstNamed(ts, t.name)] == t
    ensures DagOf(ts, t.name) == t.dag
  {
  }

  // ----- the loop over all interactive sidecars

  // e and x are the entry and the exit template
  ghost predicate Located(w: WorkflowView, e: nat, x: nat) {
    && e < |w.templates| && x < |w.templates| && e != x
    && UniqueTemplates(w.templates)
    && w.templates[e].name == w.entrypoint && w.templates[e].dag.Some? && w.templates[e].dag.value != []
    && w.templates[x].name == w.onExit && w.templates[x].dag.Some? && w.onExit != ""
  }

  ghost function Rewritten(w: WorkflowView, e: nat, x: nat, draws: seq<Draw>): WorkflowView
    requires Located(w, e, x)
  {
    w.(templates := w.templates
      [e := WithTasks(w.templates[e], FoldAttach(w.templates[e].dag.value, draws))]
      [x := WithTasks(w.templates[x], FoldDelete(w.templates[x].dag.value, draws))])
  }

  lemma StepShape(w: WorkflowView, e: nat, x: nat, s: Sidecar, d: Draw)
    requires Located(w, e, x) && s.ports != []
    ensures SidecarStep(w, s, d) == Ok(w.(templates := w.templates
      [e := WithTasks(w.templates[e], AttachAccess(w.templates[e].dag.value, d))]
      [x := WithTasks(w.templates[x], AttachDelete(w.templates[x].dag.value, d))]))
  {
    hide AttachAccess, AttachDelete, AddTasks, DeleteTasks;
    var ts := w.templates;
    assert forall i :: 0 <= i < |ts| && i != e ==> !IsEntryDag(ts[i], w.entrypoint);
    assert CanAttach(ts, w.entrypoint);
    var us := AttachAll(ts, w.entrypoint, d);
    assert us == ts[e := WithTasks(ts[e], AttachAccess(ts[e].dag.value, d))];
    assert FirstNamed(us, w.onExit) == x;
  }

  lemma {:induction false} RunShape(w: WorkflowView, e: nat, x: nat, ss: seq<Sidecar>, draws: seq<Draw>)
    requires Located(w, e, x) && |ss| <= |draws|
    requires forall s :: s in ss ==> s.ports != []
    ensures RunSidecars(w, ss, draws) == Ok(Rewritten(w, e, x, draws[..|ss|]))
  {
    hide AttachAccess, AttachDelete, Rewritten, Located, SidecarStep;
    if ss == [] {
      RewrittenByNone(w, e, x);
      assert draws[..0] == [];
    } else {
      var n := |ss| - 1;
      RunShape(w, e, x, ss[..n], draws);
      assert draws[..n + 1] == draws[..n] + [draws[n]];
      RewrittenStep(w, e, x, draws[..n], draws[n]);
      StepShape(Rewritten(w, e, x, draws[..n]), e, x, ss[n], draws[n]);
    }
  }

  lemma RewrittenByNone(w: WorkflowView, e: nat, x: nat)
    requires Located(w, e, x)
    ensures Rewritten(w, e, x, []) == w
  {
  }

  lemma RewrittenStep(w: WorkflowView, e: nat, x: nat, draws: seq<Draw>, d: Draw)
    requires Located(w, e, x)
    ensures var v := Rewritten(w, e, x, draws);
      && Located(v, e, x)
      && Rewritten(w, e, x, draws + [d]) == v.(templates := v.templates
           [e := WithTasks(v.templates[e], AttachAccess(v.templates[e].dag.value, d))]
           [x := WithTasks(v.templates[x], AttachDelete(v.templates[x].dag.value, d))])
  {
    hide AttachAccess, AttachDelete;
    assert (draws + [d])[..|draws|] == draws;
    var v := Rewritten(w, e, x, draws);
    assert Rewritten(w, e, x, draws + [d]).templates == v.templates
      [e := WithTasks(v.templates[e], AttachAccess(v.templates[e].dag.value, d))]
      [x := WithTasks(v.templates[x], AttachDelete(v.templates[x].dag.value, d))];
  }

  // A sidecar without a port stops the pass, and the first such sidecar is the one reported.
  lemma {:induction false} RunRejects(w: WorkflowView, e: nat, x: nat, ss: seq<Sidecar>, draws: seq<Draw>, k: nat)
    requires Located(w, e, x) && |ss| <= |draws|
    requires k < |ss| && ss[k].ports == [] && forall i :: 0 <= i < k ==> ss[i].ports != []
    ensures RunSidecars(w, ss, draws) == Failed(UserError(ss[k].name))
  {
    hide Rewritten, AttachAll, AttachExit, CanAttach;
    var n := |ss| - 1;
    if k < n {
      RunRejects(w, e, x, ss[..n], draws, k);
    } else {
      RunShape(w, e, x, ss[..n], draws);
    }
  }

  // ----- the passes before the sidecar loop

  lemma FilesyncerKeeps(w: WorkflowView)
    ensures var v := FilesyncerPass(w);
      && |v.templates| == |w.templates| && v.entrypoint == w.entrypoint && v.onExit == w.onExit
      && forall i :: 0 <= i < |w.templates| ==>
           v.templates[i].name == w.templates[i].name && v.templates[i].dag == w.templates[i].dag
  {
  }

  // How far the workflow has come when the sidecar loop starts.
  ghost predicate ReadyForAccess(w: WorkflowView, v: WorkflowView, e: nat, x: nat)
    requires Accepted(w)
  {
    var n, fs := |w.templates|, FilesyncerPass(w).templates;
    && v.entrypoint == w.entrypoint
    && v.onExit == (if w.onExit == "" then EXIT_HANDLER else w.onExit)
    && |v.templates| == n + 2 + (if w.onExit == "" then 1 else 0)
    && e < n && x < |v.templates| && e != x
    && v.templates[e].name == w.entrypoint && v.templates[e].dag == Some(AddStatusRoot(EntryOf(w)))
    && v.templates[x].name == v.onExit && v.templates[x].dag == Some(ExitOf(w) + [StatsTask()])
    && (if w.onExit == "" then x == n + 2 else x < n)
    && (forall i :: 0 <= i < n ==> v.templates[i] == fs[i].(dag := v.templates[i].dag))
    && (forall i :: 0 <= i < n && i != e && i != x ==> v.templates[i] == fs[i])
    && v.templates[n] == CurlTemplate(SEND_STATUS, None)
    && v.templates[n + 1] == CurlTemplate(SEND_EXIT_STATS, None)
    && (x == n + 2 ==> v.templates[x] == DagTemplate(EXIT_HANDLER, Some([StatsTask()])))
  }

  lemma AfterStatus(w: WorkflowView, e: nat)
    requires Accepted(w) && !HasTemplate(w.templates, SEND_STATUS)
    requires e == FirstNamed(w.templates, w.entrypoint)
    ensures e < |w.templates|
    ensures StatusPass(FilesyncerPass(w)) == Ok(FilesyncerPass(w).(templates :=
      FilesyncerPass(w).templates[e := WithTasks(FilesyncerPass(w).templates[e], AddStatusRoot(EntryOf(w)))] +
      [CurlTemplate(SEND_STATUS, None)]))
  {
    hide AddStatusRoot;
    FilesyncerKeeps(w);
    var fs := FilesyncerPass(w).templates;
    var ts := fs + [CurlTemplate(SEND_STATUS, None)];
    assert FirstNamed(ts, w.entrypoint) == e;
    assert ts[e := WithTasks(ts[e], AddStatusRoot(EntryOf(w)))] ==
      fs[e := WithTasks(fs[e], AddStatusRoot(EntryOf(w)))] + [CurlTemplate(SEND_STATUS, None)];
  }

  ghost function Middle(w: WorkflowView, e: nat): seq<TemplateView>
    requires Accepted(w) && e < |w.templates|
  {
    var fs := FilesyncerPass(w).templates;
    fs[e := WithTasks(fs[e], AddStatusRoot(EntryOf(w)))] + [CurlTemplate(SEND_STATUS, None)]
      + [CurlTemplate(SEND_EXIT_STATS, None)]
  }

  lemma StatsIntoOwnHandler(w: WorkflowView, e: nat) returns (v: WorkflowView)
    requires Accepted(w) && !HasTemplate(w.templates, SEND_STATUS)
    requires e == FirstNamed(w.templates, w.entrypoint) < |w.templates| && w.onExit == ""
    ensures BeforeAccess(w) == Ok(v) && ReadyForAccess(w, v, e, |w.templates| + 2)
  {
    hide AddStatusRoot, StatusPass;
    AfterStatus(w, e);
    FilesyncerKeeps(w);
    hide FilesyncerPass;
    v := w.(templates := Middle(w, e) + [DagTemplate(EXIT_HANDLER, Some([StatsTask()]))], onExit := EXIT_HANDLER);
    assert ExitOf(w) + [StatsTask()] == [StatsTask()];
  }

  lemma MiddleNames(w: WorkflowView, e: nat)
    requires Accepted(w) && e < |w.templates|
    ensures var ts := Middle(w, e);
      && |ts| == |w.templates| + 2
      && (forall i :: 0 <= i < |w.templates| ==> ts[i].name == w.templates[i].name)
      && (forall i :: 0 <= i < |w.templates| && i != e ==> ts[i].dag == w.templates[i].dag)
  {
    hide AddStatusRoot;
    FilesyncerKeeps(w);
  }

  lemma StatsIntoExitDag(w: WorkflowView, e: nat, x: nat) returns (v: WorkflowView)
    requires Accepted(w)
    requires !HasTemplate(w.templates, SEND_STATUS) && !HasTemplate(w.templates, SEND_EXIT_STATS)
    requires e == FirstNamed(w.templates, w.entrypoint) < |w.templates|
    requires w.onExit != "" && x == FirstNamed(w.templates, w.onExit)
    ensures x < |w.templates| && x != e
    ensures v == w.(templates := Middle(w, e)[x := WithTasks(Middle(w, e)[x], ExitOf(w) + [StatsTask()])])
    ensures BeforeAccess(w) == Ok(v)
  {
    hide AddStatusRoot, StatusPass;
    AfterStatus(w, e);
    MiddleNames(w, e);
    hide FilesyncerPass;
    var ts := Middle(w, e);
    assert FirstNamed(ts, w.onExit) == x;
    v := w.(templates := ts[x := WithTasks(ts[x], ExitOf(w) + [StatsTask()])]);
  }

  lemma ExitDagReady(w: WorkflowView, v: WorkflowView, e: nat, x: nat)
    requires Accepted(w)
    requires e == FirstNamed(w.templates, w.entrypoint) < |w.templates|
    requires w.onExit != "" && x == FirstNamed(w.templates, w.onExit) < |w.templates| && x != e
    requires v == w.(templates := Middle(w, e)[x := WithTasks(Middle(w, e)[x], ExitOf(w) + [StatsTask()])])
    ensures ReadyForAccess(w, v, e, x)
  {
    hide AddStatusRoot;
    FilesyncerKeeps(w);
    hide FilesyncerPass;
  }

  lemma BeforeShape(w: WorkflowView) returns (v: WorkflowView, e: nat, x: nat)
    requires Accepted(w)
    requires !HasTemplate(w.templates, SEND_STATUS) && !HasTemplate(w.templates, SEND_EXIT_STATS)
    ensures BeforeAccess(w) == Ok(v)
    ensures ReadyForAccess(w, v, e, x)
  {
    hide ReadyForAccess, BeforeAccess;
    e := FirstNamed(w.templates, w.entrypoint);
    if w.onExit == "" {
      x := |w.templates| + 2;
      v := StatsIntoOwnHandler(w, e);
    } else {
      x := FirstNamed(w.templates, w.onExit);
      v := StatsIntoExitDag(w, e, x);
      ExitDagReady(w, v, e, x);
    }
  }

  // ----- the new template order

  lemma {:induction false} AccessMembers(ss: seq<Sidecar>, draws: seq<Draw>, t: TemplateView)
    requires |ss| <= |draws|
    ensures t in AllAccessTemplates(None, ss, draws) <==>
      exists i :: 0 <= i < |ss| && t in AccessTemplates(None, ss[i], draws[i])
  {
    hide AccessTemplates;
    if ss != [] {
      var n := |ss| - 1;
      AccessMembers(ss[..n], draws, t);
      if t in AllAccessTemplates(None, ss[..n], draws) {
        var i :| 0 <= i < n && t in AccessTemplates(None, ss[..n][i], draws[i]);
        assert t in AccessTemplates(None, ss[i], draws[i]);
      }
      if i :| 0 <= i < |ss| && t in AccessTemplates(None, ss[i], draws[i]) {
        if i < n { assert t in AccessTemplates(None, ss[..n][i], draws[i]); }
      }
    }
  }

  lemma {:induction false} AccessAppend(a: seq<Sidecar>, b: seq<Sidecar>, draws: seq<Draw>)
    requires |a| + |b| <= |draws|
    ensures AllAccessTemplates<Option<seq<Task>>>(None, a + b, draws) ==
            AllAccessTemplates(None, a, draws) + AllAccessTemplates(None, b, draws[|a|..])
  {
    hide AccessTemplates;
    if b == [] {
      assert a + b == a;
    } else {
      var n := |b| - 1;
      assert (a + b)[..|a + b| - 1] == a + b[..n];
      AccessAppend(a, b[..n], draws);
    }
  }

  lemma {:induction false} WeaveMembers(ts: seq<TemplateView>, draws: seq<Draw>, t: TemplateView)
    requires |AllInteractive(ts)| <= |draws|
    ensures t in Weave(None, ts, draws) <==> t in ts || t in AllAccessTemplates(None, AllInteractive(ts), draws)
  {
    hide AllAccessTemplates, Interactive;
    if ts != [] {
      var n := |ts| - 1;
      InteractivePrefix(ts, n);
      WeaveMembers(ts[..n], draws, t);
      AccessAppend(AllInteractive(ts[..n]), Interactive(ts[n].sidecars), draws);
      assert ts == ts[..n] + [ts[n]];
    } else {
      assert AllAccessTemplates<Option<seq<Task>>>(None, [], draws) == [] by {
        NoSidecarsYet<Option<seq<Task>>>(WorkflowView([], "", ""), None, [], draws);
      }
    }
  }

  lemma {:induction false} WeaveLength(ts: seq<TemplateView>, draws: seq<Draw>)
    requires |AllInteractive(ts)| <= |draws|
    ensures |Weave(None, ts, draws)| == |ts| + 4 * |AllInteractive(ts)|
  {
    hide Interactive;
    if ts != [] {
      InteractivePrefix(ts, |ts| - 1);
      WeaveLength(ts[..|ts| - 1], draws);
    }
  }

  lemma {:induction false} WeavePrefix(ts: seq<TemplateView>, draws: seq<Draw>, k: nat)
    requires |AllInteractive(ts)| <= |draws| && k <= |ts|
    ensures |AllInteractive(ts[..k])| <= |AllInteractive(ts)|
    ensures Weave(None, ts[..k], draws) <= Weave(None, ts, draws)
    decreases |ts| - k
  {
    hide Interactive, AllAccessTemplates;
    InteractivePrefix(ts, k);
    if k == |ts| {
      assert ts[..k] == ts;
    } else {
      InteractivePrefix(ts, k + 1);
      assert ts[..k + 1][..k] == ts[..k];
      WeavePrefix(ts, draws, k + 1);
    }
  }

  // Template i stands right behind the four new templates of each of its interactive sidecars,
  // and behind all templates before it with theirs.
  lemma WeavePosition(ts: seq<TemplateView>, draws: seq<Draw>, i: nat)
    requires |AllInteractive(ts)| <= |draws|
    requires i < |ts|
    ensures
      var order, own, m := Weave(None, ts, draws), Interactive(ts[i].sidecars), |AllInteractive(ts[..i])|;
      var start := i + 4 * m;
      && m + |own| <= |draws| && start + 4 * |own| < |order|
      && order[start..start + 4 * |own|] == AllAccessTemplates(None, own, draws[m..])
      && order[start + 4 * |own|] == ts[i]
  {
    hide Interactive, AllAccessTemplates;
    InteractivePrefix(ts, i);
    InteractivePrefix(ts, i + 1);
    WeaveLength(ts[..i], draws);
    WeavePrefix(ts, draws, i + 1);
    assert ts[..i + 1][..i] == ts[..i];
    var order, own, m := Weave(None, ts, draws), Interactive(ts[i].sidecars), |AllInteractive(ts[..i])|;
    var w, acc := Weave(None, ts[..i], draws), AllAccessTemplates(None, own, draws[m..]);
    assert Weave(None, ts[..i + 1], draws) == w + acc + [ts[i]];
    PrefixParts(w, acc, ts[i], order);
  }

  lemma PrefixParts(a: seq<TemplateView>, b: seq<TemplateView>, t: TemplateView,
      r: seq<TemplateView>)
    requires a + b + [t] <= r
    ensures r[|a|..|a| + |b|] == b && r[|a| + |b|] == t
  {
    var p := a + b + [t];
    assert r[|a| + |b|] == p[|a| + |b|];
    assert r[|a|..|a| + |b|] == p[|a|..|a| + |b|];
  }

  lemma UniqueTemplatesAppend(a: seq<TemplateView>, b: seq<TemplateView>)
    requires UniqueTemplates(a) && UniqueTemplates(b)
    requires forall s, t :: s in a && t in b ==> s.name != t.name
    ensures UniqueTemplates(a + b)
  {
    var r := a + b;
    forall i, j | 0 <= i < j < |r|
      ensures r[i].name != r[j].name
    {
      if i < |a| <= j {
        assert r[i] == a[i] && r[j] == b[j - |a|];
        assert a[i] in a && b[j - |a|] in b;
      }
    }
  }

  lemma AccessNames(s: Sidecar, d: Draw, t: TemplateView)
    requires t in AccessTemplates(None, s, d)
    ensures t.name in d.TemplateNames() && t.dag.None?
  {
  }

  lemma AccessNamesApart(d: Draw, e: Draw, a: string)
    requires d.serviceTemplate != e.serviceTemplate && d.virtualTemplate != e.virtualTemplate
    requires a in d.TemplateNames()
    ensures a !in e.TemplateNames()
  {
    TemplateNamesDistinct(d, e);
    TemplateNamesDistinct(e, d);
    TemplateNamesInjective(d, e);
  }

  lemma FourUnique(s: Sidecar, d: Draw)
    ensures UniqueTemplates(AccessTemplates(None, s, d))
  {
    TemplateNamesDistinct(d, d);
  }

  lemma {:induction false} AccessUnique(ss: seq<Sidecar>, draws: seq<Draw>)
    requires |ss| <= |draws| && DistinctDraws(draws)
    ensures UniqueTemplates(AllAccessTemplates(None, ss, draws))
  {
    hide AccessTemplates;
    if ss != [] {
      var n := |ss| - 1;
      AccessUnique(ss[..n], draws);
      var a, b := AllAccessTemplates(None, ss[..n], draws), AccessTemplates(None, ss[n], draws[n]);
      forall s, t | s in a && t in b
        ensures s.name != t.name
      {
        AccessMembers(ss[..n], draws, s);
        var i :| 0 <= i < n && s in AccessTemplates(None, ss[..n][i], draws[i]);
        AccessNames(ss[..n][i], draws[i], s);
        AccessNames(ss[n], draws[n], t);
        AccessNamesApart(draws[i], draws[n], s.name);
      }
      FourUnique(ss[n], draws[n]);
      UniqueTemplatesAppend(a, b);
    }
  }

  // No template is called like one of the access templates.
  ghost predicate NoAccessName(ts: seq<TemplateView>, draws: seq<Draw>) {
    forall i, a :: 0 <= i < |draws| && a in draws[i].TemplateNames() ==> !HasTemplate(ts, a)
  }

  lemma {:induction false} WeaveUnique(ts: seq<TemplateView>, draws: seq<Draw>)
    requires |AllInteractive(ts)| <= |draws|
    requires UniqueTemplates(ts) && DistinctDraws(draws) && NoAccessName(ts, draws)
    ensures UniqueTemplates(Weave(None, ts, draws))
  {
    hide Interactive, AllAccessTemplates, AccessTemplates;
    if ts != [] {
      var n := |ts| - 1;
      InteractivePrefix(ts, n);
      assert NoAccessName(ts[..n], draws) by {
        forall a | HasTemplate(ts[..n], a)
          ensures HasTemplate(ts, a)
        {
          var i :| 0 <= i < n && ts[..n][i].name == a;
          assert ts[i].name == a;
        }
      }
      WeaveUnique(ts[..n], draws);
      var m, done, own := |AllInteractive(ts[..n])|, AllInteractive(ts[..n]), Interactive(ts[n].sidecars);
      var w, acc := Weave(None, ts[..n], draws), AllAccessTemplates(None, own, draws[m..]);
      AccessUnique(own, draws[m..]);
      forall s, t | s in w && t in acc
        ensures s.name != t.name
      {
        WeaveApart(ts, n, draws, s, t);
      }
      UniqueTemplatesAppend(w, acc);
      forall s | s in w + acc
        ensures s.name != ts[n].name
      {
        WeaveLastApart(ts, n, draws, s);
      }
      UniqueTemplatesAppend(w + acc, [ts[n]]);
    }
  }

  lemma WeaveApart(ts: seq<TemplateView>, n: nat, draws: seq<Draw>, s: TemplateView, t: TemplateView)
    requires n < |ts| && |AllInteractive(ts[..n])| + |Interactive(ts[n].sidecars)| <= |draws|
    requires DistinctDraws(draws) && NoAccessName(ts, draws)
    requires s in Weave(None, ts[..n], draws)
    requires t in AllAccessTemplates(None, Interactive(ts[n].sidecars), draws[|AllInteractive(ts[..n])|..])
    ensures s.name != t.name
  {
    hide Interactive, AllAccessTemplates, AccessTemplates, Weave;
    var m, done, own := |AllInteractive(ts[..n])|, AllInteractive(ts[..n]), Interactive(ts[n].sidecars);
    AccessMembers(own, draws[m..], t);
    var j :| 0 <= j < |own| && t in AccessTemplates(None, own[j], draws[m..][j]);
    AccessNames(own[j], draws[m + j], t);
    WeaveMembers(ts[..n], draws, s);
    if s in ts[..n] {
      assert HasTemplate(ts, s.name);
    } else {
      AccessMembers(done, draws, s);
      var i :| 0 <= i < |done| && s in AccessTemplates(None, done[i], draws[i]);
      AccessNames(done[i], draws[i], s);
      AccessNamesApart(draws[i], draws[m + j], s.name);
    }
  }

  lemma WeaveLastApart(ts: seq<TemplateView>, n: nat, draws: seq<Draw>, s: TemplateView)
    requires n + 1 == |ts| && |AllInteractive(ts[..n])| + |Interactive(ts[n].sidecars)| <= |draws|
    requires UniqueTemplates(ts) && NoAccessName(ts, draws)
    requires s in Weave(None, ts[..n], draws)
      + AllAccessTemplates(None, Interactive(ts[n].sidecars), draws[|AllInteractive(ts[..n])|..])
    ensures s.name != ts[n].name
  {
    hide Interactive, AllAccessTemplates, AccessTemplates, Weave;
    var m, done, own := |AllInteractive(ts[..n])|, AllInteractive(ts[..n]), Interactive(ts[n].sidecars);
    assert HasTemplate(ts, ts[n].name);
    WeaveMembers(ts[..n], draws, s);
    AccessMembers(done, draws, s);
    AccessMembers(own, draws[m..], s);
    if s in ts[..n] {
    } else if s in AllAccessTemplates(None, done, draws) {
      var i :| 0 <= i < |done| && s in AccessTemplates(None, done[i], draws[i]);
      AccessNames(done[i], draws[i], s);
    } else {
      var j :| 0 <= j < |own| && s in AccessTemplates(None, own[j], draws[m..][j]);
      AccessNames(own[j], draws[m + j], s);
    }
  }

  // ----- all passes together

  ghost predicate AllHavePorts(ss: seq<Sidecar>) {
    forall s :: s in ss ==> s.ports != []
  }

  lemma ReadySidecars(w: WorkflowView, v: WorkflowView, e: nat, x: nat)
    requires Accepted(w) && ReadyForAccess(w, v, e, x)
    ensures var n, fs := |w.templates|, FilesyncerPass(w).templates;
      && |fs| == n <= |v.templates|
      && (forall i :: 0 <= i < n ==> v.templates[i].sidecars == fs[i].sidecars)
      && (forall i :: n <= i < |v.templates| ==> v.templates[i].sidecars == [])
  {
    hide AddStatusRoot, Accepted, FilesyncerPass;
    FilesyncerKeeps(w);
  }

  lemma SidecarsUnchanged(w: WorkflowView, v: WorkflowView, e: nat, x: nat)
    requires Accepted(w) && ReadyForAccess(w, v, e, x)
    ensures AllInteractive(v.templates) == SidecarsOf(w)
  {
    hide ReadyForAccess, Accepted, FilesyncerPass, AllInteractive;
    ReadySidecars(w, v, e, x);
    var n := |w.templates|;
    SameSidecars(v.templates[..n], FilesyncerPass(w).templates);
    TailWithoutSidecars(v.templates, n);
  }

  lemma ReadyNames(w: WorkflowView, v: WorkflowView, e: nat, x: nat)
    requires Accepted(w) && ReadyForAccess(w, v, e, x)
    ensures var n := |w.templates|;
      && |v.templates| == n + 2 + (if w.onExit == "" then 1 else 0)
      && (forall i :: 0 <= i < n ==> v.templates[i].name == w.templates[i].name)
      && v.templates[n].name == SEND_STATUS
      && v.templates[n + 1].name == SEND_EXIT_STATS
      && (w.onExit == "" ==> v.templates[n + 2].name == EXIT_HANDLER)
  {
    hide AddStatusRoot, Accepted, FilesyncerPass;
    FilesyncerKeeps(w);
  }

  lemma ReadyTemplates(w: WorkflowView, v: WorkflowView, e: nat, x: nat, a: string)
    requires Accepted(w) && ReadyForAccess(w, v, e, x)
    ensures HasTemplate(v.templates, a) <==>
      HasTemplate(w.templates, a) || a in {SEND_STATUS, SEND_EXIT_STATS} || (a == EXIT_HANDLER && w.onExit == "")
  {
    hide ReadyForAccess, Accepted;
    ReadyNames(w, v, e, x);
    var n := |w.templates|;
    if i :| 0 <= i < n && w.templates[i].name == a { assert v.templates[i].name == a; }
    if i :| 0 <= i < |v.templates| && v.templates[i].name == a {
      if i < n { assert w.templates[i].name == a; }
    }
    assert v.templates[n].name == SEND_STATUS && v.templates[n + 1].name == SEND_EXIT_STATS;
  }

  lemma AccessNameIsNotFixed(d: Draw, a: string)
    requires a in d.TemplateNames()
    ensures a != SEND_STATUS && a != SEND_EXIT_STATS && a != EXIT_HANDLER
  {
    TemplateNamesDistinct(d, d);
  }

  lemma ReadyNoAccess(w: WorkflowView, v: WorkflowView, e: nat, x: nat, draws: seq<Draw>)
    requires Accepted(w) && ReadyForAccess(w, v, e, x)
    requires NoAccessName(w.templates, draws)
    ensures NoAccessName(v.templates, draws)
  {
    hide ReadyForAccess, HasTemplate, Accepted, Draw.TemplateNames;
    forall i, a | 0 <= i < |draws| && a in draws[i].TemplateNames()
      ensures !HasTemplate(v.templates, a)
    {
      ReadyTemplates(w, v, e, x, a);
      AccessNameIsNotFixed(draws[i], a);
    }
  }

  lemma UniqueFirst(ts: seq<TemplateView>, us: seq<TemplateView>)
    requires UniqueTemplates(ts) && |ts| <= |us|
    requires forall i :: 0 <= i < |ts| ==> us[i].name == ts[i].name
    requires forall i :: |ts| <= i < |us| ==> !HasTemplate(ts, us[i].name)
    requires forall i, j :: |ts| <= i < j < |us| ==> us[i].name != us[j].name
    ensures UniqueTemplates(us)
  {
    forall i, j | 0 <= i < j < |us|
      ensures us[i].name != us[j].name
    {
      if i < |ts| <= j { assert HasTemplate(ts, ts[i].name); }
    }
  }

  lemma ReadyUnique(w: WorkflowView, v: WorkflowView, e: nat, x: nat)
    requires Accepted(w) && ReadyForAccess(w, v, e, x)
    requires !HasTemplate(w.templates, SEND_STATUS) && !HasTemplate(w.templates, SEND_EXIT_STATS)
    requires w.onExit == "" ==> !HasTemplate(w.templates, EXIT_HANDLER)
    requires UniqueTemplates(w.templates)
    ensures UniqueTemplates(v.templates)
  {
    hide ReadyForAccess, Accepted, HasTemplate;
    ReadyNames(w, v, e, x);
    UniqueFirst(w.templates, v.templates);
  }

  lemma ReadyIsLocated(w: WorkflowView, v: WorkflowView, e: nat, x: nat, draws: seq<Draw>)
    requires Accepted(w) && Fresh(w, draws) && ReadyForAccess(w, v, e, x)
    ensures Located(v, e, x)
  {
    ReadyUnique(w, v, e, x);
  }

  // The templates once the sidecar loop has run, before the new order is built.
  ghost function Attached(w: WorkflowView, v: WorkflowView, e: nat, x: nat, ds: seq<Draw>): seq<TemplateView>
    requires Accepted(w) && e < |v.templates| && x < |v.templates|
  {
    v.templates
      [e := WithTasks(v.templates[e], FoldAttach(AddStatusRoot(EntryOf(w)), ds))]
      [x := WithTasks(v.templates[x], ExitDag(ExitOf(w), ds))]
  }

  lemma StatusIsNoDependency(g: seq<Task>, draws: seq<Draw>)
    requires g != [] && Resolved(g) && Untouched(g, draws)
    ensures SEND_STATUS !in g[0].DepNames()
  {
    if SEND_STATUS in g[0].DepNames() { EdgeOfTask(g, g[0], SEND_STATUS); }
  }

  lemma PrepareShape(w: WorkflowView, draws: seq<Draw>) returns (v: WorkflowView, e: nat, x: nat)
    requires Accepted(w) && Fresh(w, draws) && |SidecarsOf(w)| <= |draws|
    requires AllHavePorts(SidecarsOf(w))
    ensures BeforeAccess(w) == Ok(v) && ReadyForAccess(w, v, e, x)
    ensures e < |v.templates| && x < |v.templates|
    ensures |SidecarsOf(w)| <= |draws|
    ensures var ts := Attached(w, v, e, x, draws[..|SidecarsOf(w)|]);
      && AllInteractive(ts) == SidecarsOf(w)
      && Prepare(w, draws) == Ok(WorkflowView(Weave(None, ts, draws), v.entrypoint, v.onExit))
  {
    hide Weave, BeforeAccess, EntryDag, ExitDag, AllInteractive, ReadyForAccess, AddStatusRoot, FoldAttach,
         FoldDelete, RunSidecars, SidecarsOf;
    v, e, x := BeforeShape(w);
    SidecarsUnchanged(w, v, e, x);
    ReadyIsLocated(w, v, e, x, draws);
    var ss := SidecarsOf(w);
    var ds := draws[..|ss|];
    RunShape(v, e, x, ss, draws);
    RewrittenIsAttached(w, v, e, x, draws, ds);
    var ts := Attached(w, v, e, x, ds);
    SameSidecars(v.templates, ts);
    assert ts[..|v.templates|] == ts;
  }

  lemma RewrittenIsAttached(w: WorkflowView, v: WorkflowView, e: nat, x: nat, draws: seq<Draw>,
      ds: seq<Draw>)
    requires Accepted(w) && Fresh(w, draws) && ReadyForAccess(w, v, e, x) && Located(v, e, x)
    ensures Rewritten(v, e, x, ds).templates == Attached(w, v, e, x, ds)
  {
    ExitShape(ExitOf(w), ds);
    hide EntryDag, ExitDag, AddStatusRoot, FoldAttach, FoldDelete;
  }

  lemma MemberHasTemplate(ts: seq<TemplateView>, t: TemplateView)
    requires t in ts
    ensures HasTemplate(ts, t.name)
  {
  }

  lemma SameTemplateNames(ts: seq<TemplateView>, us: seq<TemplateView>, draws: seq<Draw>)
    requires |ts| == |us| && forall i :: 0 <= i < |ts| ==> ts[i].name == us[i].name
    ensures forall a :: HasTemplate(ts, a) <==> HasTemplate(us, a)
    ensures UniqueTemplates(ts) <==> UniqueTemplates(us)
  {
    forall a
      ensures HasTemplate(ts, a) <==> HasTemplate(us, a)
    {
      if i :| 0 <= i < |ts| && ts[i].name == a { assert us[i].name == a; }
      if i :| 0 <= i < |us| && us[i].name == a { assert ts[i].name == a; }
    }
  }

  lemma WeaveHas(ts: seq<TemplateView>, draws: seq<Draw>, a: string)
    requires |AllInteractive(ts)| <= |draws| && HasTemplate(ts, a)
    ensures HasTemplate(Weave(None, ts, draws), a)
  {
    hide Weave;
    var i :| 0 <= i < |ts| && ts[i].name == a;
    WeaveMembers(ts, draws, ts[i]);
    MemberHasTemplate(Weave(None, ts, draws), ts[i]);
  }

  // The new order is free of duplicates and knows every old and every access template.
  lemma {:induction false} OrderOfAttached(w: WorkflowView, v: WorkflowView, e: nat, x: nat, draws: seq<Draw>,
      ds: seq<Draw>)
    requires Accepted(w) && Fresh(w, draws) && ReadyForAccess(w, v, e, x)
    requires e < |v.templates| && x < |v.templates|
    requires |AllInteractive(Attached(w, v, e, x, ds))| <= |draws|
    ensures UniqueTemplates(Weave(None, Attached(w, v, e, x, ds), draws))
    ensures forall a :: HasTemplate(v.templates, a) ==> HasTemplate(Weave(None, Attached(w, v, e, x, ds), draws), a)
  {
    hide ReadyForAccess, Weave, EntryDag, ExitDag, AllInteractive;
    ReadyUnique(w, v, e, x);
    ReadyNoAccess(w, v, e, x, draws);
    hide Accepted, UniqueTemplates, HasTemplate;
    var ts := Attached(w, v, e, x, ds);
    SameTemplateNames(ts, v.templates, draws);
    WeaveUnique(ts, draws);
    forall a | HasTemplate(v.templates, a)
      ensures HasTemplate(Weave(None, ts, draws), a)
    {
      WeaveHas(ts, draws, a);
    }
  }

  lemma AccessTemplatesPresent(ts: seq<TemplateView>, draws: seq<Draw>, i: nat)
    requires |AllInteractive(ts)| <= |draws| && i < |AllInteractive(ts)|
    ensures forall t :: t in AccessTemplates(None, AllInteractive(ts)[i], draws[i]) ==> t in Weave(None, ts, draws)
  {
    hide Weave, AccessTemplates;
    forall t | t in AccessTemplates<Option<seq<Task>>>(None, AllInteractive(ts)[i], draws[i])
      ensures t in Weave(None, ts, draws)
    {
      AccessMembers(AllInteractive(ts), draws, t);
      WeaveMembers(ts, draws, t);
    }
  }

  lemma AccessNamesPresent(ts: seq<TemplateView>, draws: seq<Draw>, i: nat)
    requires |AllInteractive(ts)| <= |draws| && i < |AllInteractive(ts)|
    ensures forall a :: a in draws[i].TemplateNames() ==> HasTemplate(Weave(None, ts, draws), a)
  {
    var four := AccessTemplates<Option<seq<Task>>>(None, AllInteractive(ts)[i], draws[i]);
    var names := [four[0].name, four[1].name, four[2].name, four[3].name];
    AccessTemplatesPresent(ts, draws, i);
    forall j | 0 <= j < 4
      ensures HasTemplate(Weave(None, ts, draws), names[j])
    {
      assert four[j] in four;
      MemberHasTemplate(Weave(None, ts, draws), four[j]);
    }
    assert forall a :: a in draws[i].TemplateNames() ==> a in names;
  }

  lemma WeaveLookup(ts: seq<TemplateView>, draws: seq<Draw>, i: nat)
    requires |AllInteractive(ts)| <= |draws| && i < |ts|
    requires UniqueTemplates(Weave(None, ts, draws))
    ensures DagOf(Weave(None, ts, draws), ts[i].name) == ts[i].dag
  {
    hide Weave;
    WeaveMembers(ts, draws, ts[i]);
    UniqueLookup(Weave(None, ts, draws), ts[i]);
  }

  // The entry and the exit DAG of the prepared workflow: the passes applied to the user's.
  lemma PreparedByPasses(w: WorkflowView, draws: seq<Draw>)
    requires Accepted(w) && Fresh(w, draws) && |SidecarsOf(w)| <= |draws|
    requires AllHavePorts(SidecarsOf(w))
    ensures Prepare(w, draws).Ok?
    ensures var p, ds := Prepare(w, draws).value, draws[..|SidecarsOf(w)|];
      && p.entrypoint == w.entrypoint
      && p.onExit == (if w.onExit == "" then EXIT_HANDLER else w.onExit)
      && UniqueTemplates(p.templates)
      && DagOf(p.templates, p.entrypoint) == Some(FoldAttach(AddStatusRoot(EntryOf(w)), ds))
      && DagOf(p.templates, p.onExit) == Some(ExitDag(ExitOf(w), ds))
  {
    hide Accepted, Weave, FoldAttach, ExitDag, AllInteractive, DagOf, AddStatusRoot, FilesyncerPass, SidecarsOf,
         BeforeAccess;
    var v, e, x := PrepareShape(w, draws);
    var ds := draws[..|SidecarsOf(w)|];
    OrderOfAttached(w, v, e, x, draws, ds);
    var ts := Attached(w, v, e, x, ds);
    WeaveLookup(ts, draws, e);
    WeaveLookup(ts, draws, x);
  }

  // Both in closed form, when the entry DAG has a task.
  lemma PreparedDags(w: WorkflowView, draws: seq<Draw>)
    requires WellFormedWorkflow(w) && Fresh(w, draws) && |SidecarsOf(w)| <= |draws|
    requires AllHavePorts(SidecarsOf(w))
    ensures Prepare(w, draws).Ok?
    ensures var p, ds := Prepare(w, draws).value, draws[..|SidecarsOf(w)|];
      && p.entrypoint == w.entrypoint
      && p.onExit == (if w.onExit == "" then EXIT_HANDLER else w.onExit)
      && UniqueTemplates(p.templates)
      && DagOf(p.templates, p.entrypoint) == Some(EntryDag(EntryOf(w), ds))
      && DagOf(p.templates, p.onExit) == Some(ExitDag(ExitOf(w), ds))
  {
    hide Prepare, EntryDag, ExitDag, FoldAttach, AddStatusRoot, SidecarsOf, DagOf, Accepted;
    PreparedByPasses(w, draws);
    EntryIsFolded(w, draws, draws[..|SidecarsOf(w)|]);
  }

  lemma EntryIsFolded(w: WorkflowView, draws: seq<Draw>, ds: seq<Draw>)
    requires WellFormedWorkflow(w) && Fresh(w, draws)
    ensures FoldAttach(AddStatusRoot(EntryOf(w)), ds) == EntryDag(EntryOf(w), ds)
  {
    hide EntryDag, FoldAttach, AddStatusRoot;
    StatusIsNoDependency(EntryOf(w), draws);
    EntryShape(EntryOf(w), ds);
  }

  // The templates that a task of the prepared workflow may refer to.
  ghost predicate Known(w: WorkflowView, ds: seq<Draw>, a: string) {
    || HasTemplate(w.templates, a)
    || a == SEND_STATUS
    || a == SEND_EXIT_STATS
    || exists i :: 0 <= i < |ds| && a in ds[i].TemplateNames()
  }

  lemma EntryReferences(w: WorkflowView, ds: seq<Draw>, task: Task)
    requires WellFormedWorkflow(w)
    requires task in EntryDag(EntryOf(w), ds)
    ensures Known(w, ds, task.template)
  {
    hide EntryDag, HasTemplate, AddTasks, UserTasks, WellFormed, ExitOf, UniqueTemplates;
    var g := EntryOf(w);
    EntryMembers(g, ds, task);
    if task in UserTasks(g, ds) {
      UserTaskAt(g, ds, 0);
      var i :| 0 <= i < |UserTasks(g, ds)| && UserTasks(g, ds)[i] == task;
      UserTaskAt(g, ds, i);
      var t := w.templates[FirstNamed(w.templates, w.entrypoint)];
      assert t in w.templates && t.dag == Some(g) && g[i] in g;
    } else if task != StatusTask() {
      var i :| 0 <= i < |ds| && task in AddTasks(ds[i]);
      AddTemplateNames(ds[i], task);
    }
  }

  lemma AddTemplateNames(d: Draw, task: Task)
    requires task in AddTasks(d) + DeleteTasks(d)
    ensures task.template in d.TemplateNames()
  {
  }

  lemma ExitReferences(w: WorkflowView, ds: seq<Draw>, task: Task)
    requires Accepted(w)
    requires task in ExitDag(ExitOf(w), ds)
    ensures Known(w, ds, task.template)
  {
    hide ExitDag, HasTemplate, DeleteTasks, WellFormed, EntryOf, UniqueTemplates;
    var x := ExitOf(w);
    ExitMembers(x, ds, task);
    if task in x {
      var t := w.templates[FirstNamed(w.templates, w.onExit)];
      assert t in w.templates && t.dag == Some(x);
    } else if task != FinalStats(ds) {
      var i :| 0 <= i < |ds| && task in DeleteTasks(ds[i]);
      AddTemplateNames(ds[i], task);
    }
  }

  lemma KnownIsPresent(w: WorkflowView, v: WorkflowView, e: nat, x: nat, ts: seq<TemplateView>,
      draws: seq<Draw>, a: string)
    requires Accepted(w) && ReadyForAccess(w, v, e, x)
    requires |AllInteractive(ts)| <= |draws|
    requires forall b :: HasTemplate(v.templates, b) ==> HasTemplate(Weave(None, ts, draws), b)
    requires Known(w, draws[..|AllInteractive(ts)|], a)
    ensures HasTemplate(Weave(None, ts, draws), a)
  {
    hide Accepted, ReadyForAccess, Weave, HasTemplate, AllInteractive, Draw.TemplateNames;
    ReadyTemplates(w, v, e, x, a);
    var ds := draws[..|AllInteractive(ts)|];
    if i :| 0 <= i < |ds| && a in ds[i].TemplateNames() {
      AccessNamesPresent(ts, draws, i);
    }
  }

  // The DAG of a template other than the entry and the exit template is the user's.
  lemma OtherReferences(w: WorkflowView, v: WorkflowView, e: nat, x: nat, i: nat, ds: seq<Draw>,
      task: Task)
    requires Accepted(w) && ReadyForAccess(w, v, e, x)
    requires i < |v.templates| && i != e && i != x
    requires v.templates[i].dag.Some? && task in v.templates[i].dag.value
    ensures Known(w, ds, task.template)
  {
    hide AddStatusRoot, FilesyncerPass, WellFormed, HasTemplate, UniqueTemplates, EntryOf, ExitOf;
    FilesyncerKeeps(w);
    assert w.templates[i] in w.templates;
  }

  lemma PreparedReferences(w: WorkflowView, draws: seq<Draw>)
    requires WellFormedWorkflow(w) && Fresh(w, draws) && |SidecarsOf(w)| <= |draws|
    requires AllHavePorts(SidecarsOf(w))
    ensures Prepare(w, draws).Ok? && ReferencesResolved(Prepare(w, draws).value.templates)
  {
    hide Accepted, ReadyForAccess, Weave, EntryDag, FoldAttach, AddStatusRoot, ExitDag, AllInteractive, SidecarsOf,
         BeforeAccess, Known, HasTemplate;
    var v, e, x := PrepareShape(w, draws);
    var ds := draws[..|SidecarsOf(w)|];
    EntryIsFolded(w, draws, ds);
    OrderOfAttached(w, v, e, x, draws, ds);
    var ts := Attached(w, v, e, x, ds);
    var order := Weave(None, ts, draws);
    forall t, task: Task | t in order && t.dag.Some? && task in t.dag.value
      ensures HasTemplate(order, task.template)
    {
      WeaveMembers(ts, draws, t);
      if t in ts {
        var i :| 0 <= i < |ts| && ts[i] == t;
        if i == x {
          ExitReferences(w, ds, task);
        } else if i == e {
          EntryReferences(w, ds, task);
        } else {
          OtherReferences(w, v, e, x, i, ds, task);
        }
        KnownIsPresent(w, v, e, x, ts, draws, task.template);
      } else {
        AccessMembers(AllInteractive(ts), draws, t);
        var i :| 0 <= i < |AllInteractive(ts)| && t in AccessTemplates(None, AllInteractive(ts)[i], draws[i]);
        AccessNames(AllInteractive(ts)[i], draws[i], t);
      }
    }
  }
}
