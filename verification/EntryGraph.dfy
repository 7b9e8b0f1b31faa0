/**
 The shape that the passes give the entry DAG, and what that shape means for the order of tasks:
 the injected tasks form a layer underneath the user's own.
 */
module EntryGraph {
  import opened DependencyGraph
  import opened WorkflowModel
  import opened WorkflowPasses

  // ----- the entry DAG

  function StatusTask(): Task { Task(SEND_STATUS, SEND_STATUS, Absent) }

  function FoldAttach(g: seq<Task>, draws: seq<Draw>): (h: seq<Task>)
    requires g != []
    ensures h != []
  {
    if draws == [] then g else AttachAccess(FoldAttach(g, draws[..|draws| - 1]), draws[|draws| - 1])
  }

  function VirtualAdds(draws: seq<Draw>): (s: seq<string>)
    ensures |s| == |draws|
    ensures forall i :: 0 <= i < |s| ==> s[i] == draws[i].VirtualAddTask()
  {
    seq(|draws|, i requires 0 <= i < |draws| => draws[i].VirtualAddTask())
  }

  function AddChains(draws: seq<Draw>): seq<Task> {
    if draws == [] then [] else AddChains(draws[..|draws| - 1]) + AddTasks(draws[|draws| - 1])
  }

  function FirstTask(t: Task, draws: seq<Draw>): Task {
    if draws == [] then RootDependsOn(t, SEND_STATUS)
    else t.(deps := Listed(t.DepNames() + VirtualAdds(draws)))
  }

  function UserTasks(g: seq<Task>, draws: seq<Draw>): seq<Task>
    requires g != []
  {
    [FirstTask(g[0], draws)] + RootsDependOn(g[1..], SEND_STATUS)
  }

  // What the entry DAG g has become after the status pass and one access step per draw.
  function EntryDag(g: seq<Task>, draws: seq<Draw>): seq<Task>
    requires g != []
  {
    UserTasks(g, draws) + [StatusTask()] + AddChains(draws)
  }

  lemma {:induction false} EntryShape(g: seq<Task>, draws: seq<Draw>)
    requires g != [] && SEND_STATUS !in g[0].DepNames()
    ensures FoldAttach(AddStatusRoot(g), draws) == EntryDag(g, draws)
  {
    if draws == [] {
      assert AddStatusRoot(g) == EntryDag(g, draws);
    } else {
      var n := |draws| - 1;
      EntryShape(g, draws[..n]);
      FirstTaskStep(g[0], draws);
      EntryShapeStep(g, draws);
    }
  }

  lemma EntryShapeStep(g: seq<Task>, draws: seq<Draw>)
    requires g != [] && draws != []
    requires RewireFirst(FirstTask(g[0], draws[..|draws| - 1]), draws[|draws| - 1]) == FirstTask(g[0], draws)
    ensures AttachAccess(EntryDag(g, draws[..|draws| - 1]), draws[|draws| - 1]) == EntryDag(g, draws)
  {
    hide AddTasks, RewireFirst, FirstTask, RootsDependOn;
    var n := |draws| - 1;
    var rest, chains, added := RootsDependOn(g[1..], SEND_STATUS), AddChains(draws[..n]), AddTasks(draws[n]);
    var h := EntryDag(g, draws[..n]);
    assert h[0 := FirstTask(g[0], draws)] + added ==
      [FirstTask(g[0], draws)] + rest + [StatusTask()] + (chains + added);
  }

  lemma FirstTaskStep(t: Task, draws: seq<Draw>)
    requires draws != [] && SEND_STATUS !in t.DepNames()
    ensures RewireFirst(FirstTask(t, draws[..|draws| - 1]), draws[|draws| - 1]) == FirstTask(t, draws)
  {
    var n := |draws| - 1;
    var before := FirstTask(t, draws[..n]);
    if n == 0 {
      assert draws[..n] == [] && VirtualAdds(draws) == [draws[0].VirtualAddTask()];
      assert t.deps.Absent? ==> t.DepNames() + VirtualAdds(draws) == [draws[0].VirtualAddTask()];
    } else {
      forall i | 0 <= i < n
        ensures draws[i].VirtualAddTask() != SEND_STATUS
      {
        TaskNamesDistinct(draws[i], draws[i]);
      }
      assert SEND_STATUS !in before.DepNames();
      assert before.DepNames() + [draws[n].VirtualAddTask()] == t.DepNames() + VirtualAdds(draws);
    }
  }

  lemma {:induction false} ChainMembers(draws: seq<Draw>, t: Task)
    ensures t in AddChains(draws) <==> exists i :: 0 <= i < |draws| && t in AddTasks(draws[i])
  {
    hide AddTasks;
    if draws != [] {
      var n := |draws| - 1;
      ChainMembers(draws[..n], t);
      if t in AddChains(draws[..n]) {
        var i :| 0 <= i < n && t in AddTasks(draws[..n][i]);
        assert t in AddTasks(draws[i]);
      }
      if i :| 0 <= i < |draws| && t in AddTasks(draws[i]) {
        if i < n { assert t in AddTasks(draws[..n][i]); }
      }
    }
  }

  // The members of the rewritten DAG.
  lemma EntryMembers(g: seq<Task>, draws: seq<Draw>, t: Task)
    requires g != []
    ensures t in EntryDag(g, draws) <==>
      || t in UserTasks(g, draws)
      || t == StatusTask()
      || exists i :: 0 <= i < |draws| && t in AddTasks(draws[i])
  {
    hide AddTasks, UserTasks;
    ChainMembers(draws, t);
  }

  // The task that user task i has become: its own dependencies, plus injected ones.
  function UserTask(g: seq<Task>, draws: seq<Draw>, i: nat): Task
    requires i < |g|
  {
    if i == 0 then FirstTask(g[0], draws) else RootDependsOn(g[i], SEND_STATUS)
  }

  lemma UserTaskAt(g: seq<Task>, draws: seq<Draw>, i: nat)
    requires i < |g|
    ensures |UserTasks(g, draws)| == |g|
    ensures UserTasks(g, draws)[i] == UserTask(g, draws, i)
    ensures UserTask(g, draws, i).name == g[i].name && UserTask(g, draws, i).template == g[i].template
    ensures UserTask(g, draws, i) in EntryDag(g, draws)
  {
    assert UserTasks(g, draws)[i] in UserTasks(g, draws);
  }

  lemma InjectedDeps(g: seq<Task>, draws: seq<Draw>, i: nat, b: string)
    requires i < |g|
    ensures b in UserTask(g, draws, i).DepNames() <==>
      || b in g[i].DepNames()
      || (b == SEND_STATUS && g[i].deps.Absent? && (i > 0 || draws == []))
      || (i == 0 && exists k :: 0 <= k < |draws| && b == draws[k].VirtualAddTask())
  {
    if b in VirtualAdds(draws) {
      var k :| 0 <= k < |draws| && VirtualAdds(draws)[k] == b;
    }
    if k :| 0 <= k < |draws| && b == draws[k].VirtualAddTask() {
      assert VirtualAdds(draws)[k] == b;
    }
  }

  // Every edge of the rewritten DAG, by where its source comes from.
  lemma EntryEdge(g: seq<Task>, draws: seq<Draw>, a: string, b: string) returns (i: nat, user: bool)
    requires g != [] && Edge(EntryDag(g, draws), a, b)
    ensures user ==> i < |g| && g[i].name == a && b in UserTask(g, draws, i).DepNames()
    ensures !user ==> i < |draws|
    ensures !user ==>
      || (a == draws[i].ServiceAddTask() && b == SEND_STATUS)
      || (a == draws[i].VirtualAddTask() && b == draws[i].ServiceAddTask())
  {
    var t := TaskOfEdge(EntryDag(g, draws), a, b);
    EntryMembers(g, draws, t);
    if t in UserTasks(g, draws) {
      var k :| 0 <= k < |UserTasks(g, draws)| && UserTasks(g, draws)[k] == t;
      UserTaskAt(g, draws, k);
      i, user := k, true;
    } else {
      i :| 0 <= i < |draws| && t in AddTasks(draws[i]);
      user := false;
    }
  }

  lemma AddEdges(g: seq<Task>, draws: seq<Draw>, i: nat)
    requires g != [] && i < |draws|
    ensures Edge(EntryDag(g, draws), draws[i].ServiceAddTask(), SEND_STATUS)
    ensures Edge(EntryDag(g, draws), draws[i].VirtualAddTask(), draws[i].ServiceAddTask())
    ensures Edge(EntryDag(g, draws), g[0].name, draws[i].VirtualAddTask())
  {
    var h := EntryDag(g, draws);
    var ts := AddTasks(draws[i]);
    EntryMembers(g, draws, ts[0]);
    EntryMembers(g, draws, ts[1]);
    EdgeOfTask(h, ts[0], SEND_STATUS);
    EdgeOfTask(h, ts[1], draws[i].ServiceAddTask());
    UserTaskAt(g, draws, 0);
    InjectedDeps(g, draws, 0, draws[i].VirtualAddTask());
    EdgeOfTask(h, UserTask(g, draws, 0), draws[i].VirtualAddTask());
  }

  lemma EntryLayered(g: seq<Task>, draws: seq<Draw>)
    requires g != [] && Resolved(g) && Untouched(g, draws)
    ensures Layered(g, EntryDag(g, draws), Names(g))
  {
    var h := EntryDag(g, draws);
    forall a, b | Edge(h, a, b)
      ensures a !in Names(g) ==> b !in Names(g)
      ensures a in Names(g) && b in Names(g) ==> Edge(g, a, b)
    {
      var i, user := EntryEdge(g, draws, a, b);
      if user {
        InjectedDeps(g, draws, i, b);
        if k :| 0 <= k < |draws| && b == draws[k].VirtualAddTask() { InjectedIsForeign(g, draws, k); }
      } else {
        InjectedIsForeign(g, draws, i);
      }
    }
    forall a, b | Edge(g, a, b)
      ensures Edge(h, a, b) && a in Names(g) && b in Names(g)
    {
      var i :| 0 <= i < |g| && g[i].name == a && b in g[i].DepNames();
      InjectedDeps(g, draws, i, b);
      UserTaskAt(g, draws, i);
      EdgeOfTask(h, UserTask(g, draws, i), b);
    }
  }

  // sys-send-status, then the services, then the virtual services
  ghost function AddRank(draws: seq<Draw>): map<string, nat> {
    var services := set i | 0 <= i < |draws| :: draws[i].ServiceAddTask();
    var virtuals := set i | 0 <= i < |draws| :: draws[i].VirtualAddTask();
    map a | a in {SEND_STATUS} + services + virtuals :: if a == SEND_STATUS then 0 else if a in services then 1 else 2
  }

  lemma AddRankOf(draws: seq<Draw>, i: nat)
    requires i < |draws|
    ensures var r := AddRank(draws);
      && SEND_STATUS in r && r[SEND_STATUS] == 0
      && draws[i].ServiceAddTask() in r && r[draws[i].ServiceAddTask()] == 1
      && draws[i].VirtualAddTask() in r && r[draws[i].VirtualAddTask()] == 2
  {
    TaskNamesDistinct(draws[i], draws[i]);
    forall k | 0 <= k < |draws|
      ensures draws[k].ServiceAddTask() != draws[i].VirtualAddTask()
    {
      TaskNamesDistinct(draws[k], draws[i]);
    }
  }

  lemma RankedIsForeign(g: seq<Task>, draws: seq<Draw>, a: string)
    requires Untouched(g, draws) && a in AddRank(draws)
    ensures !HasTask(g, a)
  {
    if a != SEND_STATUS {
      var i :| 0 <= i < |draws| && (a == draws[i].ServiceAddTask() || a == draws[i].VirtualAddTask());
      InjectedIsForeign(g, draws, i);
    }
  }

  lemma EntryAcyclic(g: seq<Task>, draws: seq<Draw>)
    requires g != [] && WellFormed(g) && Untouched(g, draws)
    ensures Acyclic(EntryDag(g, draws))
  {
    var h, r := EntryDag(g, draws), AddRank(draws);
    EntryLayered(g, draws);
    forall a, b | Edge(h, a, b)
      ensures a !in Names(g) ==> a in r
      ensures a in r ==> b in r && r[b] < r[a]
    {
      var i, user := EntryEdge(g, draws, a, b);
      if user {
        if a in r {
          RankedIsForeign(g, draws, a);
          assert false;
        }
      } else {
        AddRankOf(draws, i);
      }
    }
    LayeringKeepsAcyclic(g, h, Names(g), r);
  }

  lemma {:induction false} ChainsUnique(draws: seq<Draw>)
    requires DistinctDraws(draws)
    ensures UniqueNames(AddChains(draws))
  {
    if draws != [] {
      var n := |draws| - 1;
      ChainsUnique(draws[..n]);
      forall s, t | s in AddChains(draws[..n]) && t in AddTasks(draws[n])
        ensures s.name != t.name
      {
        ChainMembers(draws[..n], s);
        var i :| 0 <= i < n && s in AddTasks(draws[..n][i]);
        assert draws[..n][i] == draws[i];
        TaskNamesDistinct(draws[i], draws[n]);
        TaskNamesDistinct(draws[n], draws[i]);
        TaskNamesInjective(draws[i], draws[n]);
      }
      TaskNamesDistinct(draws[n], draws[n]);
      UniqueAppend(AddChains(draws[..n]), AddTasks(draws[n]));
    }
  }

  lemma ChainIsForeign(g: seq<Task>, draws: seq<Draw>, t: Task)
    requires Untouched(g, draws) && t in AddChains(draws)
    ensures !HasTask(g, t.name) && t.name != SEND_STATUS
  {
    hide AddChains, Untouched;
    ChainMembers(draws, t);
    var i :| 0 <= i < |draws| && t in AddTasks(draws[i]);
    InjectedIsForeign(g, draws, i);
    TaskNamesDistinct(draws[i], draws[i]);
  }

  lemma UserTasksNamed(g: seq<Task>, draws: seq<Draw>)
    requires g != []
    ensures |UserTasks(g, draws)| == |g|
    ensures forall i :: 0 <= i < |g| ==> UserTasks(g, draws)[i].name == g[i].name
    ensures forall t :: t in UserTasks(g, draws) ==> HasTask(g, t.name)
  {
    hide UserTasks;
    forall i | 0 <= i < |g|
      ensures |UserTasks(g, draws)| == |g| && UserTasks(g, draws)[i].name == g[i].name
    {
      UserTaskAt(g, draws, i);
    }
    UserTaskAt(g, draws, 0);
  }

  lemma EntryUnique(g: seq<Task>, draws: seq<Draw>)
    requires g != [] && UniqueNames(g) && Untouched(g, draws) && DistinctDraws(draws)
    ensures UniqueNames(EntryDag(g, draws))
  {
    hide UserTasks, AddChains, HasTask, DistinctDraws;
    var users, chains := UserTasks(g, draws), AddChains(draws);
    UserTasksNamed(g, draws);
    forall t | t in chains
      ensures !HasTask(g, t.name) && t.name != SEND_STATUS
    {
      ChainIsForeign(g, draws, t);
    }
    ChainsUnique(draws);
    UniqueAppend(users, [StatusTask()]);
    UniqueAppend(users + [StatusTask()], chains);
  }

  // Exactly the user's tasks, sys-send-status and the two create tasks of each draw.
  lemma EntryTasks(g: seq<Task>, draws: seq<Draw>, a: string)
    requires g != []
    ensures HasTask(EntryDag(g, draws), a) <==>
      || HasTask(g, a)
      || a == SEND_STATUS
      || exists i :: 0 <= i < |draws| && (a == draws[i].ServiceAddTask() || a == draws[i].VirtualAddTask())
  {
    hide FirstTask, RootsDependOn, EntryDag;
    var h := EntryDag(g, draws);
    if HasTask(h, a) {
      var k :| 0 <= k < |h| && h[k].name == a;
      EntryMembers(g, draws, h[k]);
      if h[k] in UserTasks(g, draws) {
        var i :| 0 <= i < |UserTasks(g, draws)| && UserTasks(g, draws)[i] == h[k];
        UserTaskAt(g, draws, 0);
        UserTaskAt(g, draws, i);
        assert g[i].name == a;
      }
    }
    if i :| 0 <= i < |g| && g[i].name == a { UserTaskAt(g, draws, i); }
    EntryMembers(g, draws, StatusTask());
    if i :| 0 <= i < |draws| && (a == draws[i].ServiceAddTask() || a == draws[i].VirtualAddTask()) {
      EntryMembers(g, draws, AddTasks(draws[i])[0]);
      EntryMembers(g, draws, AddTasks(draws[i])[1]);
    }
  }

  lemma EntryResolved(g: seq<Task>, draws: seq<Draw>)
    requires g != [] && Resolved(g)
    ensures Resolved(EntryDag(g, draws))
  {
    hide EntryDag;
    forall a, b | Edge(EntryDag(g, draws), a, b)
      ensures HasTask(EntryDag(g, draws), b)
    {
      var i, user := EntryEdge(g, draws, a, b);
      EntryTasks(g, draws, b);
      if user {
        InjectedDeps(g, draws, i, b);
        if b in g[i].DepNames() { EdgeOfTask(g, g[i], b); }
      }
    }
  }

  lemma EntryWellFormed(g: seq<Task>, draws: seq<Draw>)
    requires g != [] && WellFormed(g) && Untouched(g, draws) && DistinctDraws(draws)
    ensures WellFormed(EntryDag(g, draws))
  {
    EntryUnique(g, draws);
    EntryResolved(g, draws);
    EntryAcyclic(g, draws);
  }

  // ----- what comes before what in the entry DAG

  lemma TaskZeroWaits(g: seq<Task>, draws: seq<Draw>, i: nat)
    requires g != [] && i < |draws|
    ensures var h := EntryDag(g, draws);
      && DependsOn(h, g[0].name, draws[i].VirtualAddTask())
      && DependsOn(h, g[0].name, draws[i].ServiceAddTask())
      && DependsOn(h, g[0].name, SEND_STATUS)
  {
    hide EntryDag;
    var h := EntryDag(g, draws);
    AddEdges(g, draws, i);
    EdgeDepends(h, g[0].name, draws[i].VirtualAddTask());
    EdgeDepends(h, draws[i].VirtualAddTask(), draws[i].ServiceAddTask());
    EdgeDepends(h, draws[i].ServiceAddTask(), SEND_STATUS);
    DependsTransitive(h, g[0].name, draws[i].VirtualAddTask(), draws[i].ServiceAddTask());
    DependsTransitive(h, g[0].name, draws[i].ServiceAddTask(), SEND_STATUS);
  }

  // One step down: towards sys-send-status, or to another user task.
  lemma UserTaskDescends(g: seq<Task>, draws: seq<Draw>, i: nat)
    requires g != [] && Resolved(g) && i < |g|
    requires g[i].deps == Listed([]) ==> i == 0 && draws != []
    ensures var h := EntryDag(g, draws);
      || DependsOn(h, g[i].name, SEND_STATUS)
      || exists b :: b in Names(g) && Edge(h, g[i].name, b)
  {
    hide EntryDag;
    var h := EntryDag(g, draws);
    if i == 0 && draws != [] {
      TaskZeroWaits(g, draws, 0);
    } else {
      var b := if g[i].deps.Absent? then SEND_STATUS else g[i].deps.names[0];
      InjectedDeps(g, draws, i, b);
      UserTaskAt(g, draws, i);
      EdgeOfTask(h, UserTask(g, draws, i), b);
      if g[i].deps.Absent? {
        EdgeDepends(h, g[i].name, b);
      } else {
        EdgeOfTask(g, g[i], b);
        assert b in Names(g);
      }
    }
  }

  // A task whose list is present but empty keeps an empty list.
  lemma EmptyListIsNoRoot(g: seq<Task>, draws: seq<Draw>, i: nat)
    requires g != [] && UniqueNames(g) && Untouched(g, draws) && i < |g|
    requires g[i].deps == Listed([]) && !(i == 0 && draws != [])
    ensures forall b :: !DependsOn(EntryDag(g, draws), g[i].name, b)
  {
    hide EntryDag;
    forall b
      ensures !DependsOn(EntryDag(g, draws), g[i].name, b)
    {
      if DependsOn(EntryDag(g, draws), g[i].name, b) {
        var c := DependsHasFirstEdge(EntryDag(g, draws), g[i].name, b);
        var k, user := EntryEdge(g, draws, g[i].name, c);
        if user {
          InjectedDeps(g, draws, k, c);
        } else {
          InjectedIsForeign(g, draws, k);
        }
      }
    }
  }

  // Every user task waits for sys-send-status exactly when no task carries an explicitly empty
  // dependency list; task 0 is exempt as soon as there is an interactive sidecar.
  lemma EntryBracketed(g: seq<Task>, draws: seq<Draw>)
    requires g != [] && WellFormed(g) && Untouched(g, draws)
    ensures
      (forall a :: HasTask(g, a) ==> DependsOn(EntryDag(g, draws), a, SEND_STATUS)) <==>
      (forall i :: 0 <= i < |g| && g[i].deps == Listed([]) ==> i == 0 && draws != [])
  {
    hide EntryDag;
    var h := EntryDag(g, draws);
    if forall i :: 0 <= i < |g| && g[i].deps == Listed([]) ==> i == 0 && draws != [] {
      EntryAcyclic(g, draws);
      forall a | a in Names(g)
        ensures DependsOn(h, a, SEND_STATUS) || exists b :: b in Names(g) && Edge(h, a, b)
      {
        var i :| 0 <= i < |g| && g[i].name == a;
        UserTaskDescends(g, draws, i);
      }
      forall a | HasTask(g, a)
        ensures DependsOn(h, a, SEND_STATUS)
      {
        AllDescend(h, Names(g), SEND_STATUS, [a]);
      }
    } else {
      var i :| 0 <= i < |g| && g[i].deps == Listed([]) && !(i == 0 && draws != []);
      EmptyListIsNoRoot(g, draws, i);
      assert HasTask(g, g[i].name);
    }
  }

  // ----- schedules of the entry DAG

  function AddOrder(draws: seq<Draw>): seq<string> {
    if draws == [] then [SEND_STATUS]
    else
      var n := |draws| - 1;
      AddOrder(draws[..n]) + [draws[n].ServiceAddTask(), draws[n].VirtualAddTask()]
  }

  lemma {:induction false} AddOrderMembers(draws: seq<Draw>, a: string)
    ensures a in AddOrder(draws) <==>
      || a == SEND_STATUS
      || exists i :: 0 <= i < |draws| && (a == draws[i].ServiceAddTask() || a == draws[i].VirtualAddTask())
  {
    if draws != [] {
      var n := |draws| - 1;
      AddOrderMembers(draws[..n], a);
      if i :| 0 <= i < n && (a == draws[i].ServiceAddTask() || a == draws[i].VirtualAddTask()) {
        assert draws[..n][i] == draws[i];
      }
      if i :| 0 <= i < |draws[..n]| && (a == draws[..n][i].ServiceAddTask() || a == draws[..n][i].VirtualAddTask()) {
        assert draws[..n][i] == draws[i];
      }
    }
  }

  lemma {:induction false} AddOrderOnce(draws: seq<Draw>)
    requires DistinctDraws(draws)
    ensures NoDuplicates(AddOrder(draws))
  {
    if draws != [] {
      var n := |draws| - 1;
      AddOrderOnce(draws[..n]);
      TaskNamesDistinct(draws[n], draws[n]);
      forall a | a in AddOrder(draws[..n])
        ensures a !in [draws[n].ServiceAddTask(), draws[n].VirtualAddTask()]
      {
        AddOrderMembers(draws[..n], a);
        if i :| 0 <= i < |draws[..n]| && (a == draws[..n][i].ServiceAddTask() || a == draws[..n][i].VirtualAddTask()) {
          assert draws[..n][i] == draws[i];
          TaskNamesDistinct(draws[i], draws[n]);
          TaskNamesDistinct(draws[n], draws[i]);
          TaskNamesInjective(draws[i], draws[n]);
        }
      }
      AppendNoDuplicates(AddOrder(draws[..n]), [draws[n].ServiceAddTask(), draws[n].VirtualAddTask()]);
    }
  }

  lemma InjectedEdge(g: seq<Task>, draws: seq<Draw>, k: nat, a: string, b: string)
    requires g != [] && Untouched(g, draws) && DistinctDraws(draws) && k < |draws|
    requires Edge(EntryDag(g, draws), a, b)
    ensures a == draws[k].ServiceAddTask() ==> b == SEND_STATUS
    ensures a == draws[k].VirtualAddTask() ==> b == draws[k].ServiceAddTask()
    ensures a != SEND_STATUS
  {
    hide EntryDag;
    var i, user := EntryEdge(g, draws, a, b);
    InjectedIsForeign(g, draws, k);
    if user {
      assert HasTask(g, a);
    } else {
      TaskNamesDistinct(draws[i], draws[k]);
      TaskNamesDistinct(draws[k], draws[i]);
      TaskNamesInjective(draws[i], draws[k]);
    }
  }

  lemma {:induction false} AddOrderRespected(g: seq<Task>, draws: seq<Draw>, k: nat)
    requires g != [] && Untouched(g, draws) && DistinctDraws(draws) && k <= |draws|
    ensures RespectsOrder(EntryDag(g, draws), AddOrder(draws[..k]))
  {
    hide EntryDag;
    var h := EntryDag(g, draws);
    var s := AddOrder(draws[..k]);
    if k == 0 {
      forall b
        ensures !Edge(h, SEND_STATUS, b)
      {
        if Edge(h, SEND_STATUS, b) {
          var i, user := EntryEdge(g, draws, SEND_STATUS, b);
          if !user { TaskNamesDistinct(draws[i], draws[i]); }
        }
      }
    } else {
      var n := k - 1;
      var t := AddOrder(draws[..n]);
      assert draws[..k][..n] == draws[..n];
      AddOrderRespected(g, draws, n);
      AddOrderMembers(draws[..n], SEND_STATUS);
      forall i, b | 0 <= i < |s| && Edge(h, s[i], b)
        ensures b in s[..i]
      {
        if i < |t| {
          assert s[i] == t[i] && s[..i] == t[..i];
        } else {
          InjectedEdge(g, draws, n, s[i], b);
          assert t <= s[..i];
          if i > |t| { assert s[..i][|t|] == draws[n].ServiceAddTask(); }
          if b == SEND_STATUS { assert b in t; assert exists j :: 0 <= j < |t| && t[j] == s[..i][j] == b; }
        }
      }
    }
  }

  // The rewritten DAG lets the user's tasks run in exactly the orders the original allowed.
  lemma EntrySchedules(g: seq<Task>, draws: seq<Draw>)
    requires g != [] && WellFormed(g) && Untouched(g, draws) && DistinctDraws(draws)
    ensures forall s :: Schedule(EntryDag(g, draws), s) ==> Schedule(g, Restrict(s, Names(g)))
    ensures forall s :: Schedule(g, s) ==>
      Schedule(EntryDag(g, draws), AddOrder(draws) + s) && Restrict(AddOrder(draws) + s, Names(g)) == s
  {
    hide EntryDag;
    var h, below := EntryDag(g, draws), AddOrder(draws);
    EntryLayered(g, draws);
    EntryResolved(g, draws);
    forall a
      ensures HasTask(g, a) ==> HasTask(h, a)
      ensures a in below <==> HasTask(h, a) && !HasTask(g, a)
    {
      EntryTasks(g, draws, a);
      AddOrderMembers(draws, a);
      if i :| 0 <= i < |draws| && (a == draws[i].ServiceAddTask() || a == draws[i].VirtualAddTask()) {
        InjectedIsForeign(g, draws, i);
      }
    }
    AddOrderOnce(draws);
    assert draws[..|draws|] == draws;
    AddOrderRespected(g, draws, |draws|);
    forall s | Schedule(h, s)
      ensures Schedule(g, Restrict(s, Names(g)))
    {
      RestrictedScheduleIsSchedule(g, h, s);
    }
    forall s | Schedule(g, s)
      ensures Schedule(h, below + s) && Restrict(below + s, Names(g)) == s
    {
      ScheduleExtends(g, h, below, s);
    }
  }
}
