/** Metrics reported by workflows: lists of shared metric objects, merged in place. */
module Metrics {
  // Values are floating-point numbers in the source; they are only copied.
  datatype Reading = Reading(name: string, value: real, format: string)

  class Metric {
    var name: string
    var value: real
    var format: string

    constructor (r: Reading)
      ensures Read() == r
    {
      name, value, format := r.name, r.value, r.format;
    }

    function Read(): Reading
      reads this
    {
      Reading(name, value, format)
    }
  }

  function Readings(ms: seq<Metric>): (r: seq<Reading>)
    reads ms
    ensures |r| == |ms|
    ensures forall i :: 0 <= i < |ms| ==> r[i] == ms[i].Read()
  {
    if ms == [] then [] else Readings(ms[..|ms| - 1]) + [ms[|ms| - 1].Read()]
  }

  predicate HasName(rs: seq<Reading>, name: string) {
    exists i :: 0 <= i < |rs| && rs[i].name == name
  }

  function Overwritten(rs: seq<Reading>, x: Reading): (r: seq<Reading>)
    ensures |r| == |rs|
    ensures forall i :: 0 <= i < |rs| ==> r[i] == if rs[i].name == x.name then x else rs[i]
  {
    seq(|rs|, i requires 0 <= i < |rs| => if rs[i].name == x.name then x else rs[i])
  }

  function Added(rs: seq<Reading>, x: Reading, override: bool): seq<Reading> {
    if override && HasName(rs, x.name) then Overwritten(rs, x) else rs + [x]
  }

  function Merged(rs: seq<Reading>, xs: seq<Reading>, override: bool): seq<Reading> {
    if xs == [] then rs
    else Added(Merged(rs, xs[..|xs| - 1], override), xs[|xs| - 1], override)
  }

  lemma ReadingsStep(ms: seq<Metric>, m: Metric)
    ensures Readings(ms + [m]) == Readings(ms) + [m.Read()]
  {
  }

  lemma AddedIs(rs: seq<Reading>, x: Reading, override: bool, after: seq<Reading>, found: bool)
    requires found <==> override && exists j :: 0 <= j < |rs| && rs[j].name == x.name
    requires |after| == |rs|
    requires forall k :: 0 <= k < |rs| ==> after[k] == if override && rs[k].name == x.name then x else rs[k]
    ensures Added(rs, x, override) == if found then after else after + [x]
  {
    if found {
      assert HasName(rs, x.name);
    } else {
      assert after == rs;
    }
  }

  class Metrics {
    var items: seq<Metric>

    constructor (items: seq<Metric>)
      ensures this.items == items
    {
      this.items := items;
    }

    // The input itself may be one of the items, and items may occur twice.
    method Add(input: Metric, override: bool)
      modifies this, items
      ensures items == old(items) || items == old(items) + [input]
      ensures Readings(items) == Added(old(Readings(items)), old(input.Read()), override)
      ensures forall m :: m in old(items) ==>
        m.Read().name == old(m.Read().name) && (!override ==> m.Read() == old(m.Read()))
    {
      hide Readings, Added;
      ghost var before, x := Readings(items), input.Read();
      var foundExisting := false;
      var i := 0;
      while i < |items|
        invariant 0 <= i <= |items| && items == old(items)
        invariant foundExisting <==> override && exists j :: 0 <= j < i && before[j].name == x.name
        invariant input.Read() == x
        invariant forall k :: 0 <= k < i ==>
          items[k].Read() == if override && before[k].name == x.name then x else before[k]
        invariant forall k :: i <= k < |items| ==>
          items[k].Read() == before[k] || (override && before[k].name == x.name && items[k].Read() == x)
      {
        var metric := items[i];
        if metric.name == input.name && override {
          foundExisting := true;
          metric.value := input.value;
          metric.format := input.format;
        }
        i := i + 1;
      }
      AddedIs(before, x, override, Readings(items), foundExisting);
      ReadingsStep(items, input);
      if !foundExisting {
        items := items + [input];
      }
    }

    // The list after the first i metrics of the input.
    ghost predicate MergedSoFar(was: seq<Metric>, input: seq<Metric>, store: map<Metric, Reading>, override: bool,
        i: nat)
      reads this, items, input, was
    {
      && Knows(store, was) && Knows(store, input) && i <= |input|
      && items == Listed(was, input[..i], store, override)
      && Readings(items) == Merged(Initial(was, store), Turns(was, input[..i], store, override), override)
      && (forall k :: 0 <= k < |items| ==> items[k].name == store[items[k]].name)
      && (forall k :: 0 <= k < |input| && (input[k] !in items || !override) ==> input[k].Read() == store[input[k]])
    }

    method MergeOne(ghost was: seq<Metric>, input: seq<Metric>, ghost store: map<Metric, Reading>, override: bool,
        i: nat)
      requires i < |input| && MergedSoFar(was, input, store, override, i)
      modifies this, items
      ensures MergedSoFar(was, input, store, override, i + 1)
      ensures forall m :: m in items ==> m in old(items) || m == input[i]
    {
      hide Added, Readings, Merged, Listed, Turns, HasName, Initial, Position;
      ghost var l, before := items, Readings(items);
      OneTurn(was, input, store, override, i);
      assert input[i].Read() == Turns(was, input[..i + 1], store, override)[i];
      SameNames(before, Initial(l, store), input[i].name);
      AddedLength(before, input[i].Read(), override);
      Add(input[i], override);
    }

    // Metrics may be shared: one that is on the list already, or comes twice, may be overwritten
    // before it is read.
    method Merge(input: seq<Metric>, override: bool)
      modifies this, items, input
      ensures var was, store := old(items), old(Snapshot(items + input));
        && items == Listed(was, input, store, override)
        && Readings(items) == Merged(Initial(was, store), Turns(was, input, store, override), override)
        && forall m :: m in input && m !in items ==> m.Read() == store[m]
    {
      hide Added, Readings, Merged, Listed, Turns, HasName, Initial, Position;
      ghost var was, store := items, Snapshot(items + input);
      NothingMerged(was, input, store, override);
      assert Initial(was, store) == Readings(items);
      var i := 0;
      while i < |input|
        invariant 0 <= i <= |input| && MergedSoFar(was, input, store, override, i)
        invariant forall m :: m in items ==> m in was || m in input
      {
        MergeOne(was, input, store, override, i);
        i := i + 1;
      }
      assert input[..i] == input;
    }
  }

  // ----- merging shared metrics: what each of them shows when its turn comes

  ghost function Snapshot(ms: seq<Metric>): map<Metric, Reading>
    reads ms
  {
    map m | m in ms :: m.Read()
  }

  ghost predicate Knows(store: map<Metric, Reading>, ms: seq<Metric>) {
    forall i :: 0 <= i < |ms| ==> ms[i] in store
  }

  ghost function Initial(ms: seq<Metric>, store: map<Metric, Reading>): (r: seq<Reading>)
    requires Knows(store, ms)
    ensures |r| == |ms|
    ensures forall i :: 0 <= i < |ms| ==> r[i] == store[ms[i]]
  {
    seq(|ms|, i requires 0 <= i < |ms| => store[ms[i]])
  }

  // the metrics on the list after the merge
  ghost function Listed(items: seq<Metric>, input: seq<Metric>, store: map<Metric, Reading>,
      override: bool): seq<Metric>
    requires Knows(store, items) && Knows(store, input)
    ensures items <= Listed(items, input, store, override)
    ensures Knows(store, Listed(items, input, store, override))
  {
    if input == [] then items
    else
      var n := |input| - 1;
      var l := Listed(items, input[..n], store, override);
      if override && HasName(Initial(l, store), store[input[n]].name) then l else l + [input[n]]
  }

  ghost function Position(ms: seq<Metric>, m: Metric): (i: nat)
    requires m in ms
    ensures i < |ms| && ms[i] == m
  {
    if ms[|ms| - 1] == m then |ms| - 1 else Position(ms[..|ms| - 1], m)
  }

  // What the metrics of the input show when their turn comes: one on the list shows what the merge
  // has made of it, any other what it showed at first.
  ghost function Turns(items: seq<Metric>, input: seq<Metric>, store: map<Metric, Reading>,
      override: bool): (r: seq<Reading>)
    requires Knows(store, items) && Knows(store, input)
    ensures |r| == |input|
  {
    if input == [] then []
    else
      var n := |input| - 1;
      var r := Turns(items, input[..n], store, override);
      var l, shown := Listed(items, input[..n], store, override), Merged(Initial(items, store), r, override);
      r + [if override && input[n] in l && Position(l, input[n]) < |shown| then shown[Position(l, input[n])]
           else store[input[n]]]
  }

  lemma NothingMerged(items: seq<Metric>, input: seq<Metric>, store: map<Metric, Reading>,
      override: bool)
    requires Knows(store, items)
    ensures Listed(items, input[..0], store, override) == items && Turns(items, input[..0], store, override) == []
    ensures Merged(Initial(items, store), [], override) == Initial(items, store)
  {
  }

  lemma OneTurn(items: seq<Metric>, input: seq<Metric>, store: map<Metric, Reading>,
      override: bool, i: nat)
    requires Knows(store, items) && Knows(store, input) && i < |input|
    ensures var l, r := Listed(items, input[..i], store, override), Turns(items, input[..i], store, override);
      var shown, t := Merged(Initial(items, store), r, override), Turns(items, input[..i + 1], store, override);
      && (Listed(items, input[..i + 1], store, override) ==
            if override && HasName(Initial(l, store), store[input[i]].name) then l else l + [input[i]])
      && t[i] == (if override && input[i] in l && Position(l, input[i]) < |shown| then shown[Position(l, input[i])]
                  else store[input[i]])
      && Merged(Initial(items, store), t, override) == Added(shown, t[i], override)
  {
    assert input[..i + 1][..i] == input[..i];
    var r, t := Turns(items, input[..i], store, override), Turns(items, input[..i + 1], store, override);
    assert t[..i] == r;
  }

  lemma SameNames(rs: seq<Reading>, ss: seq<Reading>, name: string)
    requires |rs| == |ss| && forall i :: 0 <= i < |rs| ==> rs[i].name == ss[i].name
    ensures HasName(rs, name) <==> HasName(ss, name)
  {
    if i :| 0 <= i < |rs| && rs[i].name == name { assert ss[i].name == name; }
    if i :| 0 <= i < |ss| && ss[i].name == name { assert rs[i].name == name; }
  }

  lemma AddedLength(rs: seq<Reading>, x: Reading, override: bool)
    ensures |Added(rs, x, override)| == if override && HasName(rs, x.name) then |rs| else |rs| + 1
  {
  }

  // ----- what a merge amounts to

  // the last reading of that name
  function Last(xs: seq<Reading>, name: string): Reading
    requires HasName(xs, name)
  {
    var n := |xs| - 1;
    if xs[n].name == name then xs[n]
    else
      assert HasName(xs[..n], name) by { var i :| 0 <= i < |xs| && xs[i].name == name; assert xs[..n][i] == xs[i]; }
      Last(xs[..n], name)
  }

  lemma HasNameStep(xs: seq<Reading>, name: string)
    requires xs != []
    ensures HasName(xs, name) <==> HasName(xs[..|xs| - 1], name) || xs[|xs| - 1].name == name
  {
    var n := |xs| - 1;
    if i :| 0 <= i < n && xs[i].name == name { assert xs[..n][i] == xs[i]; }
  }

  // With override: existing entries stay in place and keep their names, an entry whose name is in
  // the input has the last reading of that name, and any other is as it was. Entries beyond the
  // existing ones have new names from the input, each once.
  lemma {:induction false} MergeOverrides(rs: seq<Reading>, xs: seq<Reading>, i: nat)
    requires i < |Merged(rs, xs, true)|
    ensures var m := Merged(rs, xs, true);
      && |rs| <= |m|
      && (if HasName(xs, m[i].name) then m[i] == Last(xs, m[i].name) else i < |rs| && m[i] == rs[i])
      && (i < |rs| ==> m[i].name == rs[i].name)
      && (i >= |rs| ==> forall j :: 0 <= j < i ==> m[j].name != m[i].name)
  {
    if xs != [] {
      var n := |xs| - 1;
      var before, m := Merged(rs, xs[..n], true), Merged(rs, xs, true);
      HasNameStep(xs, m[i].name);
      if i < |before| {
        MergeOverrides(rs, xs[..n], i);
        assert forall j :: 0 <= j < |before| ==> m[j].name == before[j].name;
      } else {
        MergeKeepsLength(rs, xs[..n]);
        assert m[i] == xs[n];
        assert forall j :: 0 <= j < |before| ==> m[j] == before[j];
      }
    }
  }

  lemma {:induction false} MergeKeepsLength(rs: seq<Reading>, xs: seq<Reading>)
    ensures |rs| <= |Merged(rs, xs, true)|
  {
    if xs != [] {
      MergeKeepsLength(rs, xs[..|xs| - 1]);
    }
  }

  // Every name of the input is there afterwards.
  lemma {:induction false} MergeCovers(rs: seq<Reading>, xs: seq<Reading>, name: string)
    ensures HasName(Merged(rs, xs, true), name) <==> HasName(rs, name) || HasName(xs, name)
  {
    if xs != [] {
      var n := |xs| - 1;
      MergeCovers(rs, xs[..n], name);
      HasNameStep(xs, name);
      AddCovers(Merged(rs, xs[..n], true), xs[n], name);
    }
  }

  lemma AddCovers(rs: seq<Reading>, x: Reading, name: string)
    ensures HasName(Added(rs, x, true), name) <==> HasName(rs, name) || x.name == name
  {
    var r := Added(rs, x, true);
    if i :| 0 <= i < |rs| && rs[i].name == name { assert r[i].name == name; }
    if HasName(rs, x.name) {
      assert forall i :: 0 <= i < |r| ==> r[i].name == rs[i].name;
    } else {
      assert r[|rs|] == x && forall i :: 0 <= i < |rs| ==> r[i] == rs[i];
    }
  }

  // Names that were distinct stay distinct.
  lemma MergeKeepsNamesDistinct(rs: seq<Reading>, xs: seq<Reading>)
    requires forall i, j :: 0 <= i < j < |rs| ==> rs[i].name != rs[j].name
    ensures var m := Merged(rs, xs, true); forall i, j :: 0 <= i < j < |m| ==> m[i].name != m[j].name
  {
    var m := Merged(rs, xs, true);
    forall i, j | 0 <= i < j < |m|
      ensures m[i].name != m[j].name
    {
      MergeOverrides(rs, xs, i);
      MergeOverrides(rs, xs, j);
    }
  }

  // Without override a merge only appends, so a name may come twice.
  lemma {:induction false} MergeWithoutOverrideAppends(rs: seq<Reading>, xs: seq<Reading>)
    ensures Merged(rs, xs, false) == rs + xs
  {
    if xs != [] {
      MergeWithoutOverrideAppends(rs, xs[..|xs| - 1]);
      assert xs == xs[..|xs| - 1] + [xs[|xs| - 1]];
    }
  }

  // ----- when shared metrics do not matter

  lemma AddedNames(rs: seq<Reading>, x: Reading)
    ensures forall i :: 0 <= i < |rs| ==> Added(rs, x, true)[i].name == rs[i].name
    ensures !HasName(rs, x.name) ==> Added(rs, x, true) == rs + [x]
    ensures HasName(rs, x.name) ==> |Added(rs, x, true)| == |rs|
  {
  }

  lemma TurnsExtend(items: seq<Metric>, input: seq<Metric>, store: map<Metric, Reading>,
      override: bool)
    requires Knows(store, items) && Knows(store, input) && input != []
    ensures var n := |input| - 1;
      Turns(items, input, store, override)[..n] == Turns(items, input[..n], store, override)
  {
  }

  // The list shows a reading for each of its metrics, under the metric's name.
  lemma {:induction false} ListedNames(items: seq<Metric>, input: seq<Metric>, store: map<Metric, Reading>)
    requires Knows(store, items) && Knows(store, input)
    ensures var l, t := Listed(items, input, store, true), Turns(items, input, store, true);
      var shown := Merged(Initial(items, store), t, true);
      && |l| == |shown| && (forall i :: 0 <= i < |l| ==> shown[i].name == store[l[i]].name)
      && forall j :: 0 <= j < |input| ==> t[j].name == store[input[j]].name
  {
    hide Turns, Listed, Merged, Added, HasName, Initial, Position;
    if input == [] {
      NothingMerged(items, input, store, true);
      assert input[..0] == input;
    } else {
      var n := |input| - 1;
      ListedNames(items, input[..n], store);
      assert input[..n + 1] == input;
      OneTurn(items, input, store, true, n);
      TurnsExtend(items, input, store, true);
      var l, t := Listed(items, input[..n], store, true), Turns(items, input, store, true);
      var shown := Merged(Initial(items, store), t[..n], true);
      assert forall j :: 0 <= j < n ==> input[..n][j] == input[j] && t[j] == t[..n][j];
      assert t[n].name == store[input[n]].name;
      SameNames(shown, Initial(l, store), t[n].name);
      AddedNames(shown, t[n]);
    }
  }

  // A metric of the input that is on the list at its turn, and whose name the input had before,
  // shows what it showed at first only if the last of these namesakes showed the same.
  ghost predicate Unspoilt(items: seq<Metric>, input: seq<Metric>, store: map<Metric, Reading>, j: nat)
    requires Knows(store, items) && Knows(store, input) && j < |input|
  {
    var before, x := Initial(input[..j], store), store[input[j]];
    input[j] in Listed(items, input[..j], store, true) && HasName(before, x.name) ==> Last(before, x.name) == x
  }

  lemma {:induction false} TurnIsInitial(items: seq<Metric>, input: seq<Metric>, store: map<Metric, Reading>)
    requires Knows(store, items) && Knows(store, input) && input != []
    requires var n := |input| - 1; Turns(items, input[..n], store, true) == Initial(input[..n], store)
    ensures var n := |input| - 1;
      Turns(items, input, store, true)[n] == store[input[n]] <==> Unspoilt(items, input, store, n)
  {
    hide Turns, Listed, Merged;
    var n := |input| - 1;
    var front := input[..n];
    var l, rs, xs := Listed(items, front, store, true), Initial(items, store), Initial(front, store);
    assert input[..n + 1] == input;
    OneTurn(items, input, store, true, n);
    ListedNames(items, front, store);
    if input[n] in l {
      var p := Position(l, input[n]);
      MergeOverrides(rs, xs, p);
      if p < |items| { assert l[p] == items[p]; }
    }
  }

  lemma UnspoiltPrefix(items: seq<Metric>, input: seq<Metric>, store: map<Metric, Reading>, j: nat)
    requires Knows(store, items) && Knows(store, input) && j < |input| - 1
    ensures Unspoilt(items, input[..|input| - 1], store, j) <==> Unspoilt(items, input, store, j)
  {
    hide Listed, HasName, Last, Initial;
    assert input[..|input| - 1][..j] == input[..j];
  }

  // Every metric of the input is read as it was at first, exactly when each of them is unspoilt.
  lemma {:induction false} TurnsAreInitialExactlyWhen(items: seq<Metric>, input: seq<Metric>,
      store: map<Metric, Reading>)
    requires Knows(store, items) && Knows(store, input)
    ensures Turns(items, input, store, true) == Initial(input, store) <==>
      forall j :: 0 <= j < |input| ==> Unspoilt(items, input, store, j)
  {
    hide Turns, Unspoilt, Initial;
    if input == [] {
      assert Turns(items, input, store, true) == [] == Initial(input, store);
    } else {
      var n := |input| - 1;
      var front, t, xs := input[..n], Turns(items, input, store, true), Initial(input, store);
      TurnsAreInitialExactlyWhen(items, front, store);
      forall j | 0 <= j < n
        ensures Unspoilt(items, front, store, j) <==> Unspoilt(items, input, store, j)
      {
        UnspoiltPrefix(items, input, store, j);
      }
      TurnsExtend(items, input, store, true);
      assert xs[..n] == Initial(front, store);
      assert t == t[..n] + [t[n]] && xs == xs[..n] + [store[input[n]]];
      if t[..n] == xs[..n] {
        TurnIsInitial(items, input, store);
      }
    }
  }

  lemma {:induction false} ListedFromBoth(items: seq<Metric>, input: seq<Metric>, store: map<Metric, Reading>,
      override: bool, m: Metric)
    requires Knows(store, items) && Knows(store, input)
    requires m in Listed(items, input, store, override)
    ensures m in items || m in input
  {
    if input != [] {
      var n := |input| - 1;
      if m in Listed(items, input[..n], store, override) { ListedFromBoth(items, input[..n], store, override, m); }
    }
  }

  // So it is with metrics that are allocated separately, as those of two unmarshalled lists are.
  lemma SeparateMetricsAreUnspoilt(items: seq<Metric>, input: seq<Metric>,
      store: map<Metric, Reading>)
    requires Knows(store, items) && Knows(store, input)
    requires forall i, j :: 0 <= i < j < |input| ==> input[i] != input[j]
    requires forall i :: 0 <= i < |input| ==> input[i] !in items
    ensures Turns(items, input, store, true) == Initial(input, store)
  {
    hide Turns, Listed, HasName, Last;
    forall j | 0 <= j < |input|
      ensures Unspoilt(items, input, store, j)
    {
      if input[j] in Listed(items, input[..j], store, true) {
        ListedFromBoth(items, input[..j], store, true, input[j]);
      }
    }
    TurnsAreInitialExactlyWhen(items, input, store);
  }

  lemma OneMetric(a: Metric, store: map<Metric, Reading>)
    requires a in store
    ensures Turns([], [a], store, true) == [store[a]] && Listed([], [a], store, true) == [a]
  {
    hide Turns, Listed, Merged;
    NothingMerged([], [a], store, true);
    assert [a][..0] == [] && [a][..1] == [a];
    OneTurn([], [a], store, true, 0);
  }

  lemma TwoNamesakes(a: Metric, b: Metric, store: map<Metric, Reading>)
    requires a != b && a in store && b in store && store[a].name == store[b].name
    ensures Turns([], [a, b], store, true) == [store[a], store[b]] && Listed([], [a, b], store, true) == [a]
  {
    hide Turns, Listed, Merged;
    OneMetric(a, store);
    assert [a, b][..1] == [a] && [a, b][..2] == [a, b];
    assert HasName(Initial([a], store), store[b].name) by { assert Initial([a], store)[0] == store[a]; }
    OneTurn([], [a, b], store, true, 1);
    TurnsExtend([], [a, b], store, true);
  }

  // Otherwise it may not be: a metric that comes again after a namesake with another reading.
  lemma RepeatedMetricIsSpoilt(a: Metric, b: Metric, store: map<Metric, Reading>)
    requires a != b && a in store && b in store
    requires store[a].name == store[b].name && store[a] != store[b]
    ensures Turns([], [a, b, a], store, true) == [store[a], store[b], store[b]]
    ensures Merged([], [store[a], store[b], store[b]], true) != Merged([], [store[a], store[b], store[a]], true)
  {
    hide Turns, Listed, Merged, HasName;
    TwoNamesakes(a, b, store);
    MergedTwice(store[a], store[b]);
    assert [a, b, a][..2] == [a, b] && [a, b, a][..3] == [a, b, a];
    assert Initial([], store) == [];
    OneTurn([], [a, b, a], store, true, 2);
    TurnsExtend([], [a, b, a], store, true);
  }

  lemma MergedTwice(x: Reading, y: Reading)
    requires x.name == y.name
    ensures Merged([], [x], true) == [x] && Merged([], [x, y], true) == [y]
    ensures Merged([], [x, y, y], true) == [y] && Merged([], [x, y, x], true) == [x]
  {
    assert [x][..0] == [] && [x, y][..1] == [x] && [x, y, y][..2] == [x, y] == [x, y, x][..2];
    assert [x][0].name == x.name && [y][0].name == x.name;
    assert HasName([x], x.name) && HasName([y], x.name);
  }

  // Without override nothing is overwritten, and the list is extended by the whole input.
  lemma {:induction false} PlainTurnsAreInitial(items: seq<Metric>, input: seq<Metric>, store: map<Metric, Reading>)
    requires Knows(store, items) && Knows(store, input)
    ensures Turns(items, input, store, false) == Initial(input, store)
    ensures Listed(items, input, store, false) == items + input
  {
    if input != [] {
      var n := |input| - 1;
      PlainTurnsAreInitial(items, input[..n], store);
      assert input == input[..n] + [input[n]];
    }
  }

  // So a plain merge of any metrics, shared or not, shows the readings of both lists in turn.
  lemma PlainMergeAppends(items: seq<Metric>, input: seq<Metric>, store: map<Metric, Reading>)
    requires Knows(store, items) && Knows(store, input)
    ensures Listed(items, input, store, false) == items + input
    ensures Merged(Initial(items, store), Turns(items, input, store, false), false) == Initial(items + input, store)
  {
    PlainTurnsAreInitial(items, input, store);
    MergeWithoutOverrideAppends(Initial(items, store), Initial(input, store));
  }
}
