/**
 The shape that the passes give the exit DAG: the user's exit tasks, the statistics task, and one
 chain of deletions per interactive sidecar that the statistics task waits for.
 */
module ExitGraph {
  import opened DependencyGraph
  import opened WorkflowModel
  import opened WorkflowPasses

  // ----- the exit DAG

  function FoldDelete(g: seq<Task>, draws: seq<Draw>): seq<Task> {
    if draws == [] then g else AttachDelete(FoldDelete(g, draws[..|draws| - 1]), draws[|draws| - 1])
  }

  function VirtualDeletes(draws: seq<Draw>): (s: seq<string>)
    ensures |s| == |draws|
    ensures forall i :: 0 <= i < |s| ==> s[i] == draws[i].VirtualDeleteTask()
  {
    seq(|draws|, i requires 0 <= i < |draws| => draws[i].VirtualDeleteTask())
  }

  function DeleteChains(draws: seq<Draw>): seq<Task> {
    if draws == [] then [] else DeleteChains(draws[..|draws| - 1]) + DeleteTasks(draws[|draws| - 1])
  }

  function FinalStats(draws: seq<Draw>): Task {
    Task(SEND_EXIT_STATS, SEND_EXIT_STATS, if draws == [] then Absent else Listed(VirtualDeletes(draws)))
  }

  // What the exit DAG x has become after the statistics pass and one access step per draw.
  function ExitDag(x: seq<Task>, draws: seq<Draw>): seq<Task> {
    x + [FinalStats(draws)] + DeleteChains(draws)
  }

  lemma {:induction false} DeleteChainMembers(draws: seq<Draw>, t: Task)
    ensures t in DeleteChains(draws) <==> exists i :: 0 <= i < |draws| && t in DeleteTasks(draws[i])
  {
    hide DeleteTasks;
    if draws != [] {
      var n := |draws| - 1;
      DeleteChainMembers(draws[..n], t);
      if t in DeleteChains(draws[..n]) {
        var i :| 0 <= i < n && t in DeleteTasks(draws[..n][i]);
        assert t in DeleteTasks(draws[i]);
      }
      if i :| 0 <= i < |draws| && t in DeleteTasks(draws[i]) {
        if i < n { assert t in DeleteTasks(draws[..n][i]); }
      }
    }
  }

  // Only the statistics task itself waits for a deletion.
  lemma AwaitOnlyStats(x: seq<Task>, draws: seq<Draw>, d: Draw)
    requires !HasTask(x, SEND_EXIT_STATS)
    ensures AllAwaitDelete(x, d) == x
    ensures AllAwaitDelete(DeleteChains(draws), d) == DeleteChains(draws)
    ensures AllAwaitDelete(DeleteTasks(d), d) == DeleteTasks(d)
  {
    forall i | 0 <= i < |DeleteChains(draws)|
      ensures DeleteChains(draws)[i].name != SEND_EXIT_STATS
    {
      var t := DeleteChains(draws)[i];
      DeleteChainMembers(draws, t);
      var k :| 0 <= k < |draws| && t in DeleteTasks(draws[k]);
      TaskNamesDistinct(draws[k], draws[k]);
    }
    TaskNamesDistinct(d, d);
  }

  lemma AwaitAppend(g: seq<Task>, h: seq<Task>, d: Draw)
    ensures AllAwaitDelete(g + h, d) == AllAwaitDelete(g, d) + AllAwaitDelete(h, d)
  {
  }

  lemma {:induction false} ExitShape(x: seq<Task>, draws: seq<Draw>)
    requires !HasTask(x, SEND_EXIT_STATS)
    ensures FoldDelete(x + [StatsTask()], draws) == ExitDag(x, draws)
  {
    if draws != [] {
      ExitShape(x, draws[..|draws| - 1]);
      ExitShapeStep(x, draws);
    }
  }

  lemma ExitShapeStep(x: seq<Task>, draws: seq<Draw>)
    requires !HasTask(x, SEND_EXIT_STATS) && draws != []
    ensures AttachDelete(ExitDag(x, draws[..|draws| - 1]), draws[|draws| - 1]) == ExitDag(x, draws)
  {
    hide DeleteTasks;
    var n := |draws| - 1;
    var d := draws[n];
    var stats, chains, added := FinalStats(draws[..n]), DeleteChains(draws[..n]), DeleteTasks(d);
    var h := ExitDag(x, draws[..n]) + added;
    assert h[|x|] == stats;
    assert HasStats(h);
    assert h == x + [stats] + chains + added;
    AwaitOnlyStats(x, draws[..n], d);
    AwaitAppend(x, [stats], d);
    AwaitAppend(x + [stats], chains, d);
    AwaitAppend(x + [stats] + chains, added, d);
    assert stats.DepNames() + [d.VirtualDeleteTask()] == VirtualDeletes(draws);
    assert AllAwaitDelete([stats], d) == [FinalStats(draws)];
    assert x + [FinalStats(draws)] + chains + added == x + [FinalStats(draws)] + (chains + added);
  }

  lemma ExitMembers(x: seq<Task>, draws: seq<Draw>, t: Task)
    ensures t in ExitDag(x, draws) <==>
      t in x || t == FinalStats(draws) || exists i :: 0 <= i < |draws| && t in DeleteTasks(draws[i])
  {
    hide DeleteTasks;
    DeleteChainMembers(draws, t);
  }

  // The two edges that deleting one sidecar's access adds.
  ghost predicate DeleteEdge(d: Draw, a: string, b: string) {
    || (a == SEND_EXIT_STATS && b == d.VirtualDeleteTask())
    || (a == d.VirtualDeleteTask() && b == d.ServiceDeleteTask())
  }

  lemma ExitEdge(x: seq<Task>, draws: seq<Draw>, a: string, b: string)
    requires Edge(ExitDag(x, draws), a, b)
    ensures
      || Edge(x, a, b)
      || exists i :: 0 <= i < |draws| && DeleteEdge(draws[i], a, b)
  {
    hide ExitDag;
    var t := TaskOfEdge(ExitDag(x, draws), a, b);
    ExitMembers(x, draws, t);
    if t in x {
      EdgeOfTask(x, t, b);
    } else if t == FinalStats(draws) {
      var i :| 0 <= i < |draws| && VirtualDeletes(draws)[i] == b;
    }
  }

  // The statistics are sent after every service and virtual service is gone.
  lemma ExitBracketed(x: seq<Task>, draws: seq<Draw>, i: nat)
    requires i < |draws|
    ensures DependsOn(ExitDag(x, draws), SEND_EXIT_STATS, draws[i].VirtualDeleteTask())
    ensures DependsOn(ExitDag(x, draws), draws[i].VirtualDeleteTask(), draws[i].ServiceDeleteTask())
    ensures DependsOn(ExitDag(x, draws), SEND_EXIT_STATS, draws[i].ServiceDeleteTask())
  {
    hide ExitDag;
    var h := ExitDag(x, draws);
    ExitMembers(x, draws, FinalStats(draws));
    ExitMembers(x, draws, DeleteTasks(draws[i])[1]);
    assert VirtualDeletes(draws)[i] == draws[i].VirtualDeleteTask();
    EdgeOfTask(h, FinalStats(draws), draws[i].VirtualDeleteTask());
    EdgeOfTask(h, DeleteTasks(draws[i])[1], draws[i].ServiceDeleteTask());
    EdgeDepends(h, SEND_EXIT_STATS, draws[i].VirtualDeleteTask());
    EdgeDepends(h, draws[i].VirtualDeleteTask(), draws[i].ServiceDeleteTask());
    DependsTransitive(h, SEND_EXIT_STATS, draws[i].VirtualDeleteTask(), draws[i].ServiceDeleteTask());
  }

  lemma ExitLayered(x: seq<Task>, draws: seq<Draw>)
    requires Resolved(x) && Untouched(x, draws)
    ensures Layered(x, ExitDag(x, draws), Names(x))
  {
    hide ExitDag;
    var h := ExitDag(x, draws);
    forall a, b | Edge(h, a, b)
      ensures Edge(x, a, b) || (a !in Names(x) && b !in Names(x))
    {
      ExitEdge(x, draws, a, b);
      if !Edge(x, a, b) {
        var i :| 0 <= i < |draws| && DeleteEdge(draws[i], a, b);
        InjectedIsForeign(x, draws, i);
      }
    }
    forall a, b | Edge(x, a, b)
      ensures Edge(h, a, b) && a in Names(x) && b in Names(x)
    {
      var t := TaskOfEdge(x, a, b);
      ExitMembers(x, draws, t);
      EdgeOfTask(h, t, b);
    }
  }

  ghost function DeleteRank(draws: seq<Draw>): map<string, nat> {
    var services := set i | 0 <= i < |draws| :: draws[i].ServiceDeleteTask();
    var virtuals := set i | 0 <= i < |draws| :: draws[i].VirtualDeleteTask();
    map a | a in {SEND_EXIT_STATS} + services + virtuals ::
      if a == SEND_EXIT_STATS then 2 else if a in services then 0 else 1
  }

  lemma DeleteRankOf(draws: seq<Draw>, i: nat)
    requires i < |draws|
    ensures var r := DeleteRank(draws);
      && SEND_EXIT_STATS in r && r[SEND_EXIT_STATS] == 2
      && draws[i].ServiceDeleteTask() in r && r[draws[i].ServiceDeleteTask()] == 0
      && draws[i].VirtualDeleteTask() in r && r[draws[i].VirtualDeleteTask()] == 1
  {
    TaskNamesDistinct(draws[i], draws[i]);
    forall k | 0 <= k < |draws|
      ensures draws[k].ServiceDeleteTask() != draws[i].VirtualDeleteTask()
    {
      TaskNamesDistinct(draws[k], draws[i]);
    }
  }

  lemma ExitAcyclic(x: seq<Task>, draws: seq<Draw>)
    requires WellFormed(x) && Untouched(x, draws)
    ensures Acyclic(ExitDag(x, draws))
  {
    hide ExitDag;
    var h, r := ExitDag(x, draws), DeleteRank(draws);
    ExitLayered(x, draws);
    forall a, b | Edge(h, a, b)
      ensures a !in Names(x) ==> a in r
      ensures a in r ==> b in r && r[b] < r[a]
    {
      ExitEdge(x, draws, a, b);
      if Edge(x, a, b) {
        assert HasTask(x, a);
        if a in r && a != SEND_EXIT_STATS {
          var i :| 0 <= i < |draws| && (a == draws[i].ServiceDeleteTask() || a == draws[i].VirtualDeleteTask());
          InjectedIsForeign(x, draws, i);
        }
      } else {
        var i :| 0 <= i < |draws| && DeleteEdge(draws[i], a, b);
        DeleteRankOf(draws, i);
      }
    }
    LayeringKeepsAcyclic(x, h, Names(x), r);
  }

  lemma {:induction false} DeleteChainsUnique(draws: seq<Draw>)
    requires DistinctDraws(draws)
    ensures UniqueNames(DeleteChains(draws))
  {
    if draws != [] {
      var n := |draws| - 1;
      DeleteChainsUnique(draws[..n]);
      forall s, t | s in DeleteChains(draws[..n]) && t in DeleteTasks(draws[n])
        ensures s.name != t.name
      {
        DeleteChainMembers(draws[..n], s);
        var i :| 0 <= i < n && s in DeleteTasks(draws[..n][i]);
        assert draws[..n][i] == draws[i];
        TaskNamesDistinct(draws[i], draws[n]);
        TaskNamesDistinct(draws[n], draws[i]);
        TaskNamesInjective(draws[i], draws[n]);
      }
      TaskNamesDistinct(draws[n], draws[n]);
      UniqueAppend(DeleteChains(draws[..n]), DeleteTasks(draws[n]));
    }
  }

  lemma ExitUnique(x: seq<Task>, draws: seq<Draw>)
    requires UniqueNames(x) && Untouched(x, draws) && DistinctDraws(draws)
    ensures UniqueNames(ExitDag(x, draws))
  {
    var stats, chains := FinalStats(draws), DeleteChains(draws);
    forall t | t in chains
      ensures !HasTask(x, t.name) && t.name != SEND_EXIT_STATS
    {
      DeleteChainMembers(draws, t);
      var i :| 0 <= i < |draws| && t in DeleteTasks(draws[i]);
      InjectedIsForeign(x, draws, i);
      TaskNamesDistinct(draws[i], draws[i]);
    }
    assert forall t :: t in x ==> HasTask(x, t.name);
    DeleteChainsUnique(draws);
    UniqueAppend(x, [stats]);
    UniqueAppend(x + [stats], chains);
  }

  lemma ExitResolved(x: seq<Task>, draws: seq<Draw>)
    requires Resolved(x)
    ensures Resolved(ExitDag(x, draws))
  {
    hide ExitDag;
    var h := ExitDag(x, draws);
    forall a, b | Edge(h, a, b)
      ensures HasTask(h, b)
    {
      ExitEdge(x, draws, a, b);
      if Edge(x, a, b) {
        var i :| 0 <= i < |x| && x[i].name == b;
        ExitMembers(x, draws, x[i]);
      } else {
        var i :| 0 <= i < |draws| && DeleteEdge(draws[i], a, b);
        ExitMembers(x, draws, DeleteTasks(draws[i])[0]);
        ExitMembers(x, draws, DeleteTasks(draws[i])[1]);
      }
    }
  }

  lemma ExitWellFormed(x: seq<Task>, draws: seq<Draw>)
    requires WellFormed(x) && Untouched(x, draws) && DistinctDraws(draws)
    ensures WellFormed(ExitDag(x, draws))
  {
    ExitUnique(x, draws);
    ExitResolved(x, draws);
    ExitAcyclic(x, draws);
  }

  // ----- schedules of the exit DAG

  function DeleteOrder(draws: seq<Draw>): seq<string> {
    if draws == [] then []
    else
      var n := |draws| - 1;
      DeleteOrder(draws[..n]) + [draws[n].ServiceDeleteTask()] + [draws[n].VirtualDeleteTask()]
  }

  ghost predicate IsDeleteTask(draws: seq<Draw>, a: string) {
    exists i :: 0 <= i < |draws| && (a == draws[i].ServiceDeleteTask() || a == draws[i].VirtualDeleteTask())
  }

  lemma DeleteTaskStep(draws: seq<Draw>, a: string)
    requires draws != []
    ensures var n := |draws| - 1;
      IsDeleteTask(draws, a) <==>
        IsDeleteTask(draws[..n], a) || a == draws[n].ServiceDeleteTask() || a == draws[n].VirtualDeleteTask()
  {
    var n := |draws| - 1;
    if i :| 0 <= i < n && (a == draws[i].ServiceDeleteTask() || a == draws[i].VirtualDeleteTask()) {
      assert draws[..n][i] == draws[i];
    }
  }

  lemma {:induction false} DeleteOrderMembers(draws: seq<Draw>, a: string)
    ensures a in DeleteOrder(draws) <==> IsDeleteTask(draws, a)
  {
    if draws != [] {
      DeleteOrderMembers(draws[..|draws| - 1], a);
      DeleteTaskStep(draws, a);
    }
  }

  lemma {:induction false} DeleteOrderOnce(draws: seq<Draw>)
    requires DistinctDraws(draws)
    ensures NoDuplicates(DeleteOrder(draws))
  {
    if draws != [] {
      var n := |draws| - 1;
      var t, d := DeleteOrder(draws[..n]), draws[n];
      DeleteOrderOnce(draws[..n]);
      forall a | a in t
        ensures a != d.ServiceDeleteTask() && a != d.VirtualDeleteTask()
      {
        DeleteOrderMembers(draws[..n], a);
        var i :| 0 <= i < |draws[..n]|
          && (a == draws[..n][i].ServiceDeleteTask() || a == draws[..n][i].VirtualDeleteTask());
        assert draws[..n][i] == draws[i];
        TaskNamesDistinct(draws[i], d);
        TaskNamesDistinct(d, draws[i]);
        TaskNamesInjective(draws[i], d);
      }
      TaskNamesDistinct(d, d);
      AppendNoDuplicates(t, [d.ServiceDeleteTask()]);
      AppendNoDuplicates(t + [d.ServiceDeleteTask()], [d.VirtualDeleteTask()]);
    }
  }

  // The edges out of the tasks that delete the access of sidecar k.
  lemma DeleteTaskEdge(x: seq<Task>, draws: seq<Draw>, k: nat, a: string, b: string)
    requires Untouched(x, draws) && DistinctDraws(draws) && k < |draws|
    requires Edge(ExitDag(x, draws), a, b)
    ensures a != draws[k].ServiceDeleteTask()
    ensures a == draws[k].VirtualDeleteTask() ==> b == draws[k].ServiceDeleteTask()
  {
    hide ExitDag;
    ExitEdge(x, draws, a, b);
    InjectedIsForeign(x, draws, k);
    if Edge(x, a, b) {
      assert HasTask(x, a);
    } else {
      var i :| 0 <= i < |draws| && DeleteEdge(draws[i], a, b);
      TaskNamesDistinct(draws[i], draws[k]);
      TaskNamesDistinct(draws[k], draws[i]);
      TaskNamesInjective(draws[i], draws[k]);
    }
  }

  lemma {:induction false} DeleteOrderRespected(x: seq<Task>, draws: seq<Draw>, k: nat)
    requires Untouched(x, draws) && DistinctDraws(draws) && k <= |draws|
    ensures RespectsOrder(ExitDag(x, draws), DeleteOrder(draws[..k]))
  {
    hide ExitDag;
    if k > 0 {
      var h, d := ExitDag(x, draws), draws[k - 1];
      var t := DeleteOrder(draws[..k - 1]);
      DeleteOrderRespected(x, draws, k - 1);
      assert draws[..k][..k - 1] == draws[..k - 1];
      forall a, b | Edge(h, a, b)
        ensures a != d.ServiceDeleteTask() && (a == d.VirtualDeleteTask() ==> b == d.ServiceDeleteTask())
      {
        DeleteTaskEdge(x, draws, k - 1, a, b);
      }
      RespectsSnoc(h, t, d.ServiceDeleteTask());
      RespectsSnoc(h, t + [d.ServiceDeleteTask()], d.VirtualDeleteTask());
    }
  }

  lemma StatsIsNoUserTask(x: seq<Task>, draws: seq<Draw>, b: string)
    requires Untouched(x, draws)
    ensures !Edge(x, SEND_EXIT_STATS, b)
  {
    if Edge(x, SEND_EXIT_STATS, b) {
      var t := TaskOfEdge(x, SEND_EXIT_STATS, b);
    }
  }

  // All injected tasks, the statistics last.
  lemma InjectedRespected(x: seq<Task>, draws: seq<Draw>)
    requires Untouched(x, draws) && DistinctDraws(draws)
    ensures RespectsOrder(ExitDag(x, draws), DeleteOrder(draws) + [SEND_EXIT_STATS])
    ensures NoDuplicates(DeleteOrder(draws) + [SEND_EXIT_STATS])
  {
    hide ExitDag, RespectsOrder;
    var h := ExitDag(x, draws);
    assert draws[..|draws|] == draws;
    DeleteOrderRespected(x, draws, |draws|);
    DeleteOrderOnce(draws);
    forall b | Edge(h, SEND_EXIT_STATS, b)
      ensures b in DeleteOrder(draws)
    {
      ExitEdge(x, draws, SEND_EXIT_STATS, b);
      StatsIsNoUserTask(x, draws, b);
      DeleteOrderMembers(draws, b);
      var i :| 0 <= i < |draws| && DeleteEdge(draws[i], SEND_EXIT_STATS, b);
      TaskNamesDistinct(draws[i], draws[i]);
    }
    RespectsSnoc(h, DeleteOrder(draws), SEND_EXIT_STATS);
    if SEND_EXIT_STATS in DeleteOrder(draws) {
      DeleteOrderMembers(draws, SEND_EXIT_STATS);
      var i :| 0 <= i < |draws|
        && (SEND_EXIT_STATS == draws[i].ServiceDeleteTask() || SEND_EXIT_STATS == draws[i].VirtualDeleteTask());
      TaskNamesDistinct(draws[i], draws[i]);
    }
    AppendNoDuplicates(DeleteOrder(draws), [SEND_EXIT_STATS]);
  }

  // Exactly the user's tasks, the statistics task and the two delete tasks of each draw.
  lemma ExitTasks(x: seq<Task>, draws: seq<Draw>, a: string)
    ensures HasTask(ExitDag(x, draws), a) <==> HasTask(x, a) || a == SEND_EXIT_STATS || IsDeleteTask(draws, a)
  {
    hide ExitDag;
    var h := ExitDag(x, draws);
    if i :| 0 <= i < |h| && h[i].name == a {
      ExitMembers(x, draws, h[i]);
      if h[i] in x {
        var j :| 0 <= j < |x| && x[j] == h[i];
      }
    }
    if i :| 0 <= i < |x| && x[i].name == a {
      ExitMembers(x, draws, x[i]);
    }
    ExitMembers(x, draws, FinalStats(draws));
    if i :| 0 <= i < |draws| && (a == draws[i].ServiceDeleteTask() || a == draws[i].VirtualDeleteTask()) {
      ExitMembers(x, draws, DeleteTasks(draws[i])[0]);
      ExitMembers(x, draws, DeleteTasks(draws[i])[1]);
    }
  }

  // The rewritten DAG lets the user's exit tasks run in exactly the orders the original allowed.
  lemma ExitSchedules(x: seq<Task>, draws: seq<Draw>)
    requires WellFormed(x) && Untouched(x, draws) && DistinctDraws(draws)
    ensures var below := DeleteOrder(draws) + [SEND_EXIT_STATS];
      && (forall s :: Schedule(ExitDag(x, draws), s) ==> Schedule(x, Restrict(s, Names(x))))
      && (forall s :: Schedule(x, s) ==>
            Schedule(ExitDag(x, draws), below + s) && Restrict(below + s, Names(x)) == s)
  {
    hide ExitDag;
    var h, below := ExitDag(x, draws), DeleteOrder(draws) + [SEND_EXIT_STATS];
    ExitLayered(x, draws);
    ExitResolved(x, draws);
    InjectedRespected(x, draws);
    forall a
      ensures HasTask(x, a) ==> HasTask(h, a)
      ensures a in below <==> HasTask(h, a) && !HasTask(x, a)
    {
      ExitTasks(x, draws, a);
      DeleteOrderMembers(draws, a);
      if i :| 0 <= i < |draws| && (a == draws[i].ServiceDeleteTask() || a == draws[i].VirtualDeleteTask()) {
        InjectedIsForeign(x, draws, i);
      }
    }
    forall s | Schedule(h, s)
      ensures Schedule(x, Restrict(s, Names(x)))
    {
      RestrictedScheduleIsSchedule(x, h, s);
    }
    forall s | Schedule(x, s)
      ensures Schedule(h, below + s) && Restrict(below + s, Names(x)) == s
    {
      ScheduleExtends(x, h, below, s);
    }
  }
}
