/**
 Argo DAG tasks, the dependency relation between their names, and the schedules a DAG admits.
 Nothing here knows about the tasks that onepanel injects.
 */
module DependencyGraph {

  // Go distinguishes a nil dependency slice from an empty one; the rewriting passes test for nil.
  datatype Dependencies = Absent | Listed(names: seq<string>)

  datatype Task = Task(name: string, template: string, deps: Dependencies)
  {
    function DepNames(): seq<string> {
      if deps.Absent? then [] else deps.names
    }
  }

  ghost predicate HasTask(g: seq<Task>, a: string) {
    exists i :: 0 <= i < |g| && g[i].name == a
  }

  // a lists b as a dependency
  ghost predicate Edge(g: seq<Task>, a: string, b: string) {
    exists i :: 0 <= i < |g| && g[i].name == a && b in g[i].DepNames()
  }

  ghost predicate Path(g: seq<Task>, p: seq<string>) {
    && p != []
    && forall i :: 0 <= i < |p| - 1 ==> Edge(g, p[i], p[i + 1])
  }

  ghost predicate PathBetween(g: seq<Task>, p: seq<string>, a: string, b: string) {
    && Path(g, p)
    && |p| >= 2
    && p[0] == a
    && p[|p| - 1] == b
  }

  // a depends on b, directly or through other tasks
  ghost predicate DependsOn(g: seq<Task>, a: string, b: string) {
    exists p :: PathBetween(g, p, a, b)
  }

  ghost predicate Acyclic(g: seq<Task>) {
    forall a :: !DependsOn(g, a, a)
  }

  ghost predicate UniqueNames(g: seq<Task>) {
    forall i, j :: 0 <= i < j < |g| ==> g[i].name != g[j].name
  }

  ghost predicate Resolved(g: seq<Task>) {
    forall a, b :: Edge(g, a, b) ==> HasTask(g, b)
  }

  ghost predicate WellFormed(g: seq<Task>) {
    UniqueNames(g) && Resolved(g) && Acyclic(g)
  }

  // ----- lists of tasks as sets of edges

  lemma EdgeOfTask(g: seq<Task>, t: Task, b: string)
    requires t in g && b in t.DepNames()
    ensures Edge(g, t.name, b)
  {
  }

  lemma TaskOfEdge(g: seq<Task>, a: string, b: string) returns (t: Task)
    requires Edge(g, a, b)
    ensures t in g && t.name == a && b in t.DepNames()
  {
    var i :| 0 <= i < |g| && g[i].name == a && b in g[i].DepNames();
    t := g[i];
  }

  lemma UniqueAppend(g: seq<Task>, h: seq<Task>)
    requires UniqueNames(g) && UniqueNames(h)
    requires forall s, t :: s in g && t in h ==> s.name != t.name
    ensures UniqueNames(g + h)
  {
    var r := g + h;
    forall i, j | 0 <= i < j < |r|
      ensures r[i].name != r[j].name
    {
      if i < |g| <= j {
        assert r[i] == g[i] && r[j] == h[j - |g|];
        assert g[i] in g && h[j - |g|] in h;
      }
    }
  }

  // ----- paths

  lemma PathSuffix(g: seq<Task>, p: seq<string>, k: nat)
    requires Path(g, p) && k < |p|
    ensures Path(g, p[k..])
  {
    var q := p[k..];
    forall i | 0 <= i < |q| - 1
      ensures Edge(g, q[i], q[i + 1])
    {
      assert Edge(g, p[k + i], p[k + i + 1]);
    }
  }

  lemma PathExtend(g: seq<Task>, p: seq<string>, b: string)
    requires Path(g, p) && Edge(g, p[|p| - 1], b)
    ensures Path(g, p + [b])
  {
    var q := p + [b];
    forall i | 0 <= i < |q| - 1
      ensures Edge(g, q[i], q[i + 1])
    {
      if i < |p| - 1 { assert Edge(g, p[i], p[i + 1]); }
    }
  }

  lemma EdgeDepends(g: seq<Task>, a: string, b: string)
    requires Edge(g, a, b)
    ensures DependsOn(g, a, b)
  {
    assert PathBetween(g, [a, b], a, b);
  }

  lemma DependsTransitive(g: seq<Task>, a: string, b: string, c: string)
    requires DependsOn(g, a, b) && DependsOn(g, b, c)
    ensures DependsOn(g, a, c)
  {
    var p :| PathBetween(g, p, a, b);
    var q :| PathBetween(g, q, b, c);
    var r := p + q[1..];
    forall i | 0 <= i < |r| - 1
      ensures Edge(g, r[i], r[i + 1])
    {
      if i < |p| - 1 {
        assert Edge(g, p[i], p[i + 1]);
      } else {
        assert r[i] == q[i - |p| + 1] && r[i + 1] == q[i - |p| + 2];
      }
    }
    assert PathBetween(g, r, a, c);
  }

  lemma DependsHasFirstEdge(g: seq<Task>, a: string, b: string) returns (c: string)
    requires DependsOn(g, a, b)
    ensures Edge(g, a, c)
  {
    var p :| PathBetween(g, p, a, b);
    c := p[1];
    assert Edge(g, p[0], p[1]);
  }

  // A rank that falls along every edge rules out cycles.
  lemma {:induction false} RankFallsAlongPath(g: seq<Task>, rank: map<string, nat>, p: seq<string>)
    requires Path(g, p) && |p| >= 2
    requires forall a, b :: Edge(g, a, b) && a in rank ==> b in rank && rank[b] < rank[a]
    requires p[0] in rank
    ensures p[|p| - 1] in rank && rank[p[|p| - 1]] < rank[p[0]]
  {
    assert Edge(g, p[0], p[1]);
    if |p| > 2 {
      var q := p[1..];
      PathSuffix(g, p, 1);
      RankFallsAlongPath(g, rank, q);
    }
  }

  // ----- adding a layer of tasks underneath a graph

  // h keeps the edges of g between the members of `upper`, and nothing below `upper` depends on it.
  ghost predicate Layered(g: seq<Task>, h: seq<Task>, upper: set<string>) {
    && (forall a, b :: a in upper && b in upper ==> (Edge(h, a, b) <==> Edge(g, a, b)))
    && (forall a, b :: a !in upper && Edge(h, a, b) ==> b !in upper)
    && (forall a, b :: Edge(g, a, b) ==> a in upper && b in upper)
  }

  lemma {:induction false} PathStaysUpper(g: seq<Task>, h: seq<Task>, upper: set<string>, p: seq<string>)
    requires Layered(g, h, upper)
    requires Path(h, p) && p[|p| - 1] in upper
    ensures forall i :: 0 <= i < |p| ==> p[i] in upper
    ensures Path(g, p)
  {
    if |p| > 1 {
      var q := p[1..];
      PathSuffix(h, p, 1);
      PathStaysUpper(g, h, upper, q);
      assert Edge(h, p[0], p[1]);
      assert p[1] == q[0];
      assert p[0] in upper;
      forall i | 0 <= i < |p|
        ensures p[i] in upper
      {
        if i > 0 { assert p[i] == q[i - 1]; }
      }
      forall i | 0 <= i < |p| - 1
        ensures Edge(g, p[i], p[i + 1])
      {
        assert Edge(h, p[i], p[i + 1]);
      }
    }
  }

  lemma LayeringKeepsDependence(g: seq<Task>, h: seq<Task>, upper: set<string>, a: string, b: string)
    requires Layered(g, h, upper)
    requires a in upper && b in upper
    ensures DependsOn(h, a, b) <==> DependsOn(g, a, b)
  {
    if DependsOn(h, a, b) {
      var p :| PathBetween(h, p, a, b);
      PathStaysUpper(g, h, upper, p);
      assert PathBetween(g, p, a, b);
    }
    if DependsOn(g, a, b) {
      var p :| PathBetween(g, p, a, b);
      forall i | 0 <= i < |p| - 1
        ensures Edge(h, p[i], p[i + 1])
      {
        assert Edge(g, p[i], p[i + 1]);
      }
      assert PathBetween(h, p, a, b);
    }
  }

  // A layer whose own edges follow a rank cannot close a cycle.
  lemma LayeringKeepsAcyclic(g: seq<Task>, h: seq<Task>, upper: set<string>, rank: map<string, nat>)
    requires Layered(g, h, upper) && Acyclic(g)
    requires forall a, b :: Edge(h, a, b) && a !in upper ==> a in rank
    requires forall a, b :: Edge(h, a, b) && a in rank ==> b in rank && rank[b] < rank[a]
    ensures Acyclic(h)
  {
    forall a
      ensures !DependsOn(h, a, a)
    {
      if DependsOn(h, a, a) {
        if a in upper {
          LayeringKeepsDependence(g, h, upper, a, a);
        } else {
          var p :| PathBetween(h, p, a, a);
          assert Edge(h, p[0], p[1]);
          RankFallsAlongPath(h, rank, p);
        }
      }
    }
  }

  // ----- every task of a finite acyclic graph reaches a bottom task

  ghost predicate NoDuplicates(s: seq<string>) {
    forall i, j :: 0 <= i < j < |s| ==> s[i] != s[j]
  }

  ghost function Names(g: seq<Task>): (s: set<string>)
    ensures forall a :: a in s <==> HasTask(g, a)
    ensures |s| <= |g|
  {
    if g == [] then {}
    else
      var n := |g| - 1;
      var rest := Names(g[..n]);
      assert forall a :: HasTask(g, a) <==> HasTask(g[..n], a) || a == g[n].name by {
        forall a | HasTask(g, a)
          ensures HasTask(g[..n], a) || a == g[n].name
        {
          var i :| 0 <= i < |g| && g[i].name == a;
          if i < n { assert g[..n][i].name == a; }
        }
      }
      rest + {g[n].name}
  }

  lemma {:induction false} SimplePathsAreShort(names: set<string>, p: seq<string>)
    requires NoDuplicates(p)
    requires forall i :: 0 <= i < |p| ==> p[i] in names
    ensures |p| <= |names|
  {
    if p != [] {
      var last := p[|p| - 1];
      SimplePathsAreShort(names - {last}, p[..|p| - 1]);
    }
  }

  // If each task of a set `from` either depends on `goal` or has a direct dependency in `from`,
  // then in an acyclic graph all of them depend on `goal`.
  lemma {:induction false} AllDescend(g: seq<Task>, members: set<string>, goal: string, p: seq<string>)
    requires Acyclic(g) && Path(g, p) && NoDuplicates(p)
    requires forall i :: 0 <= i < |p| ==> p[i] in members
    requires forall a :: a in members ==> DependsOn(g, a, goal) || exists b :: b in members && Edge(g, a, b)
    ensures DependsOn(g, p[|p| - 1], goal)
    decreases |members| - |p|
  {
    SimplePathsAreShort(members, p);
    var a := p[|p| - 1];
    if !DependsOn(g, a, goal) {
      var b :| b in members && Edge(g, a, b);
      var q := p + [b];
      PathExtend(g, p, b);
      if b in p {
        var i :| 0 <= i < |p| && p[i] == b;
        PathSuffix(g, q, i);
        assert PathBetween(g, q[i..], b, b);
        assert DependsOn(g, b, b);
      } else {
        SimplePathsAreShort(members, q);
        AllDescend(g, members, goal, q);
        EdgeDepends(g, a, b);
        DependsTransitive(g, a, b, goal);
      }
    }
  }

  // ----- schedules

  // Each task starts only after everything it depends on.
  ghost predicate RespectsOrder(g: seq<Task>, s: seq<string>) {
    forall i, b :: 0 <= i < |s| && Edge(g, s[i], b) ==> b in s[..i]
  }

  // s runs every task of g exactly once, dependencies first
  ghost predicate Schedule(g: seq<Task>, s: seq<string>) {
    && NoDuplicates(s)
    && (forall a :: a in s <==> HasTask(g, a))
    && RespectsOrder(g, s)
  }

  function Restrict(s: seq<string>, keep: set<string>): (r: seq<string>)
    ensures forall a :: a in r <==> a in s && a in keep
  {
    if s == [] then []
    else
      var n := |s| - 1;
      assert s == s[..n] + [s[n]];
      Restrict(s[..n], keep) + if s[n] in keep then [s[n]] else []
  }

  lemma RespectsPrefix(g: seq<Task>, s: seq<string>, n: nat)
    requires RespectsOrder(g, s) && n <= |s|
    ensures RespectsOrder(g, s[..n])
  {
    forall i, b | 0 <= i < n && Edge(g, s[..n][i], b)
      ensures b in s[..n][..i]
    {
      assert s[..n][i] == s[i] && s[..n][..i] == s[..i];
    }
  }

  lemma RespectsSnoc(g: seq<Task>, s: seq<string>, a: string)
    requires RespectsOrder(g, s)
    requires forall b :: Edge(g, a, b) ==> b in s
    ensures RespectsOrder(g, s + [a])
  {
    var t := s + [a];
    forall i, b | 0 <= i < |t| && Edge(g, t[i], b)
      ensures b in t[..i]
    {
      assert t[..i] == s[..i];
      if i == |s| { assert s[..i] == s; } else { assert t[i] == s[i]; }
    }
  }

  lemma {:induction false} RestrictKeepsOrder(g: seq<Task>, h: seq<Task>, upper: set<string>, s: seq<string>)
    requires Layered(g, h, upper)
    requires NoDuplicates(s) && RespectsOrder(h, s)
    ensures NoDuplicates(Restrict(s, upper)) && RespectsOrder(g, Restrict(s, upper))
  {
    if s != [] {
      var n := |s| - 1;
      RespectsPrefix(h, s, n);
      RestrictKeepsOrder(g, h, upper, s[..n]);
      if s[n] in upper {
        forall b | Edge(g, s[n], b)
          ensures b in Restrict(s[..n], upper)
        {
          assert Edge(h, s[n], b);
        }
        hide RespectsOrder, Layered;
        RespectsSnoc(g, Restrict(s[..n], upper), s[n]);
      }
    }
  }

  // Forgetting the added layer turns a schedule of h into a schedule of g ...
  lemma RestrictedScheduleIsSchedule(g: seq<Task>, h: seq<Task>, s: seq<string>)
    requires Layered(g, h, Names(g))
    requires forall a :: HasTask(g, a) ==> HasTask(h, a)
    requires Schedule(h, s)
    ensures Schedule(g, Restrict(s, Names(g)))
  {
    RestrictKeepsOrder(g, h, Names(g), s);
  }

  lemma {:induction false} RestrictAppend(s: seq<string>, t: seq<string>, keep: set<string>)
    ensures Restrict(s + t, keep) == Restrict(s, keep) + Restrict(t, keep)
  {
    if t == [] {
      assert s + t == s;
    } else {
      var n := |t| - 1;
      assert (s + t)[..|s + t| - 1] == s + t[..n];
      RestrictAppend(s, t[..n], keep);
    }
  }

  lemma {:induction false} RestrictNothing(s: seq<string>, keep: set<string>)
    requires forall a :: a in s ==> a !in keep
    ensures Restrict(s, keep) == []
  {
    if s != [] {
      RestrictNothing(s[..|s| - 1], keep);
    }
  }

  lemma {:induction false} RestrictAll(s: seq<string>, keep: set<string>)
    requires forall a :: a in s ==> a in keep
    ensures Restrict(s, keep) == s
  {
    if s != [] {
      var n := |s| - 1;
      RestrictAll(s[..n], keep);
      assert s == s[..n] + [s[n]];
    }
  }

  lemma ExtensionOrder(g: seq<Task>, h: seq<Task>, below: seq<string>, s: seq<string>)
    requires Layered(g, h, Names(g))
    requires Schedule(g, s)
    requires RespectsOrder(h, below) && Resolved(h)
    requires forall a :: a in below <==> HasTask(h, a) && !HasTask(g, a)
    ensures RespectsOrder(h, below + s)
  {
    var r := below + s;
    forall i, b | 0 <= i < |r| && Edge(h, r[i], b)
      ensures b in r[..i]
    {
      if i < |below| {
        assert r[i] == below[i] && r[..i] == below[..i];
      } else {
        var k := i - |below|;
        assert r[i] == s[k] && r[..i] == below + s[..k];
        if HasTask(g, b) {
          assert s[k] in s && s[k] in Names(g) && b in Names(g);
          assert Edge(g, s[k], b);
        }
      }
    }
  }

  lemma AppendNoDuplicates(s: seq<string>, t: seq<string>)
    requires NoDuplicates(s) && NoDuplicates(t)
    requires forall a :: a in s ==> a !in t
    ensures NoDuplicates(s + t)
  {
    var r := s + t;
    forall i, j | 0 <= i < j < |r|
      ensures r[i] != r[j]
    {
      if i < |s| <= j {
        assert r[i] == s[i] && r[j] == t[j - |s|];
        assert s[i] in s && t[j - |s|] in t;
      }
    }
  }

  // ... and every schedule of g arises this way, once the layer itself can be scheduled first.
  lemma ScheduleExtends(g: seq<Task>, h: seq<Task>, below: seq<string>, s: seq<string>)
    requires Layered(g, h, Names(g)) && Resolved(h)
    requires Schedule(g, s)
    requires NoDuplicates(below) && RespectsOrder(h, below)
    requires forall a :: a in below <==> HasTask(h, a) && !HasTask(g, a)
    requires forall a :: HasTask(g, a) ==> HasTask(h, a)
    ensures Schedule(h, below + s)
    ensures Restrict(below + s, Names(g)) == s
  {
    ExtensionOrder(g, h, below, s);
    AppendNoDuplicates(below, s);
    RestrictAppend(below, s, Names(g));
    RestrictNothing(below, Names(g));
    RestrictAll(s, Names(g));
  }
}
