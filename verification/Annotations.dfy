/**
 Parameters of a workflow template kept as annotations of its Argo template: a map from the name of
 each parameter to its YAML, in which an `order` key records its place in the list.
 */
module Annotations {
  import opened Wrappers

  datatype Value = Text(text: string) | Number(number: int) | Other

  type Fields = map<string, Value>

  // An entry of the parameter list of a manifest.
  datatype Item = NotAMap | AMap(fields: Fields)

  // Where the manifest has no parameter list, there is nothing to encode.
  datatype Manifest = NoParameters | Parameters(items: seq<Item>)

  // An annotation, read as YAML; that encoding and then parsing restores the fields is assumed.
  datatype Document = Unparsable | Parsed(fields: Fields)

  predicate Named(item: Item) {
    item.AMap? && "name" in item.fields && item.fields["name"].Text?
  }

  function Name(item: Item): string
    requires Named(item)
  {
    item.fields["name"].text
  }

  // A later parameter of the same name replaces an earlier one.
  function Encoded(items: seq<Item>): map<string, Document> {
    if items == [] then map[]
    else
      var n := |items| - 1;
      var before := Encoded(items[..n]);
      if Named(items[n]) then before[Name(items[n]) := Parsed(items[n].fields["order" := Number(n)])] else before
  }

  method GetParametersKeyString(manifest: Manifest) returns (r: Outcome<map<string, Document>>)
    ensures r == match manifest
      case NoParameters => Ok(map[])
      // deletes an entry whose key is a map
      case Parameters(items) => if items == [] then Failed(UnhashableKey) else Ok(Encoded(items))
  {
    if manifest.NoParameters? {
      return Ok(map[]);
    }
    var items := manifest.items;
    if |items| == 0 {
      return Failed(UnhashableKey);
    }
    var result: map<string, Document> := map[];
    var i := 0;
    while i < |items|
      invariant 0 <= i <= |items|
      invariant result == Encoded(items[..i])
    {
      assert items[..i + 1][..i] == items[..i];
      if Named(items[i]) {
        var parameterMap := items[i].fields["order" := Number(i)];
        result := result[Name(items[i]) := Parsed(parameterMap)];
      }
      i := i + 1;
    }
    assert items[..i] == items;
    return Ok(result);
  }

  predicate HasOrder(d: Document, i: int) {
    d.Parsed? && "order" in d.fields && d.fields["order"] == Number(i)
  }

  predicate BadOrder(d: Document) {
    d.Parsed? && "order" in d.fields && !d.fields["order"].Number?
  }

  // The parameters that decoding may give: one slot for every annotation, each filled from an
  // annotation of that order, or empty if there is none.
  ghost predicate Decoded(annotations: map<string, Document>, parameters: seq<Option<Fields>>) {
    |parameters| == |annotations| && FilledFrom(annotations, annotations.Keys, parameters)
  }

  ghost predicate FilledFrom(annotations: map<string, Document>, names: set<string>, parameters: seq<Option<Fields>>)
    requires names <= annotations.Keys
  {
    forall i :: 0 <= i < |parameters| ==>
      match parameters[i]
      case None => forall k :: k in names ==> !HasOrder(annotations[k], i)
      case Some(f) => exists k :: k in names && HasOrder(annotations[k], i) && f == annotations[k].fields - {"order"}
  }

  // With no annotation at all the list the spec arrived with stays.
  ghost predicate Delivered(annotations: map<string, Document>, was: seq<Option<Fields>>,
      parameters: seq<Option<Fields>>)
  {
    if annotations == map[] then parameters == was else Decoded(annotations, parameters)
  }

  class Arguments {
    var parameters: seq<Option<Fields>>

    constructor (parameters: seq<Option<Fields>>)
      ensures this.parameters == parameters
    {
      this.parameters := parameters;
    }

    // The annotations are visited in any order, as Go visits a map.
    method AddWorkflowTemplateParametersFromAnnotations(annotations: map<string, Document>) returns (r: Outcome<()>)
      modifies this
      ensures r.Failed? <==> exists k :: k in annotations && BadOrder(annotations[k])
      ensures r.Failed? ==> r.failure == WrongType && parameters == []
      ensures r.Ok? ==> Delivered(annotations, old(parameters), parameters)
    {
      if |annotations| == 0 {
        assert annotations == map[];
        return Ok(());
      }
      parameters := [];
      var slots: seq<Option<Fields>> := seq(|annotations|, i => None);
      var left := annotations.Keys;
      while left != {}
        invariant left <= annotations.Keys
        invariant |slots| == |annotations|
        invariant FilledFrom(annotations, annotations.Keys - left, slots)
        invariant forall k :: k in annotations.Keys - left ==> !BadOrder(annotations[k])
        invariant parameters == []
        decreases left
      {
        var k :| k in left;
        ghost var before, done := slots, annotations.Keys - left;
        var d := annotations[k];
        if BadOrder(d) {
          return Failed(WrongType);
        }
        left := left - {k};
        assert annotations.Keys - left == done + {k};
        if d.Parsed? && "order" in d.fields {
          var order := d.fields["order"].number;
          if 0 <= order < |slots| {
            slots := slots[order := Some(d.fields - {"order"})];
          }
        }
        FillOne(annotations, done, before, k, slots);
      }
      assert annotations.Keys - left == annotations.Keys;
      parameters := slots;
      return Ok(());
    }
  }

  lemma FillOne(annotations: map<string, Document>, done: set<string>,
      before: seq<Option<Fields>>, k: string, after: seq<Option<Fields>>)
    requires done <= annotations.Keys && k in annotations && FilledFrom(annotations, done, before)
    requires |after| == |before|
    requires forall i :: 0 <= i < |after| ==>
      after[i] == if HasOrder(annotations[k], i) then Some(annotations[k].fields - {"order"}) else before[i]
    ensures FilledFrom(annotations, done + {k}, after)
  {
    forall i | 0 <= i < |after| && after[i].Some?
      ensures exists j ::
        j in done + {k} && HasOrder(annotations[j], i) && after[i].value == annotations[j].fields - {"order"}
    {
      if !HasOrder(annotations[k], i) {
        assert before[i].Some?;
        var j :| j in done && HasOrder(annotations[j], i) && before[i].value == annotations[j].fields - {"order"};
        assert j in done + {k};
      }
    }
  }

  // ----- main result

  predicate Distinct(items: seq<Item>) {
    forall i, j :: 0 <= i < j < |items| && Named(items[i]) && Named(items[j]) ==> Name(items[i]) != Name(items[j])
  }

  // Every entry is a map with a name of its own and without an `order` of its own.
  predicate Encodable(items: seq<Item>) {
    && (forall i :: 0 <= i < |items| ==> Named(items[i]) && "order" !in items[i].fields)
    && Distinct(items)
  }

  function Originals(items: seq<Item>): seq<Option<Fields>> {
    seq(|items|, i requires 0 <= i < |items| => match items[i] case NotAMap => None case AMap(f) => Some(f))
  }

  lemma {:induction false} EncodedNames(items: seq<Item>, k: string)
    ensures k in Encoded(items) <==> exists i :: 0 <= i < |items| && Named(items[i]) && Name(items[i]) == k
  {
    if items != [] {
      var n := |items| - 1;
      EncodedNames(items[..n], k);
      if k in Encoded(items[..n]) {
        var i :| 0 <= i < n && Named(items[..n][i]) && Name(items[..n][i]) == k;
        assert items[i] == items[..n][i];
      }
    }
  }

  // the annotations hold exactly the last entry of each name
  lemma {:induction false} EncodedEntries(items: seq<Item>, k: string) returns (i: nat)
    requires k in Encoded(items)
    ensures i < |items| && Named(items[i]) && Name(items[i]) == k
    ensures Encoded(items)[k] == Parsed(items[i].fields["order" := Number(i)])
    ensures forall j :: i < j < |items| && Named(items[j]) ==> Name(items[j]) != k
  {
    var n := |items| - 1;
    if Named(items[n]) && Name(items[n]) == k {
      i := n;
    } else {
      i := EncodedEntries(items[..n], k);
      assert forall j :: i <= j < n ==> items[j] == items[..n][j];
    }
  }

  lemma {:induction false} EncodedSize(items: seq<Item>)
    ensures |Encoded(items)| <= |items|
    ensures |Encoded(items)| == |items| <==> (forall i :: 0 <= i < |items| ==> Named(items[i])) && Distinct(items)
  {
    if items != [] {
      var n := |items| - 1;
      var front := items[..n];
      EncodedSize(front);
      assert forall i :: 0 <= i < n ==> front[i] == items[i];
      EncodedKeys(items);
      if Named(items[n]) {
        hide Encoded, Distinct, Named;
        var k := Name(items[n]);
        DistinctStep(items);
        EncodedNames(front, k);
        if k in Encoded(front) {
          assert Encoded(front).Keys + {k} == Encoded(front).Keys;
        }
      }
    }
  }

  lemma EncodedKeys(items: seq<Item>)
    requires items != []
    ensures var n := |items| - 1;
      Encoded(items).Keys ==
        if Named(items[n]) then Encoded(items[..n]).Keys + {Name(items[n])} else Encoded(items[..n]).Keys
    ensures |Encoded(items)| == |Encoded(items).Keys|
    ensures |Encoded(items[..|items| - 1])| == |Encoded(items[..|items| - 1]).Keys|
  {
  }

  lemma DistinctStep(items: seq<Item>)
    requires items != [] && Named(items[|items| - 1])
    ensures var n := |items| - 1;
      Distinct(items) <==>
        Distinct(items[..n]) &&
        forall i :: 0 <= i < n && Named(items[..n][i]) ==> Name(items[..n][i]) != Name(items[n])
  {
    var n := |items| - 1;
    assert forall i :: 0 <= i < n ==> items[..n][i] == items[i];
  }

  lemma DecodedExactlyWhen(items: seq<Item>, parameters: seq<Option<Fields>>)
    requires Decoded(Encoded(items), parameters)
    ensures parameters == Originals(items) <==> Encodable(items)
  {
    hide Encoded;
    EncodedSize(items);
    if Encodable(items) {
      forall i | 0 <= i < |items|
        ensures parameters[i] == Some(items[i].fields)
      {
        SlotRestored(items, parameters, i);
      }
    }
    if parameters == Originals(items) {
      forall i | 0 <= i < |items|
        ensures "order" !in items[i].fields
      {
        assert parameters[i] == Some(items[i].fields);
      }
    }
  }

  // What the caller can check beforehand: where no entry is named nothing is encoded, and the list
  // found has to be the right one already.
  ghost predicate Restores(items: seq<Item>, found: seq<Option<Fields>>) {
    if forall i :: 0 <= i < |items| ==> !CarriesAny(items[i]) then found == Originals(items)
    else Storable(items)
  }

  // an entry that is a map with this name
  predicate Carries(item: Item, name: string) {
    item.AMap? && "name" in item.fields && item.fields["name"] == Text(name)
  }

  ghost predicate CarriesAny(item: Item) { exists name :: Carries(item, name) }

  // Every entry has a name, no two the same, and none an order of its own.
  ghost predicate Storable(items: seq<Item>) {
    && (forall i :: 0 <= i < |items| ==> CarriesAny(items[i]))
    && (forall i, j, k :: 0 <= i < j < |items| && Carries(items[i], k) ==> !Carries(items[j], k))
    && forall i :: 0 <= i < |items| && items[i].AMap? ==> "order" !in items[i].fields
  }

  lemma NamedCarries(item: Item)
    ensures Named(item) <==> CarriesAny(item)
    ensures forall k :: Carries(item, k) ==> Named(item) && Name(item) == k
  {
    if Named(item) { assert Carries(item, Name(item)); }
  }

  lemma StorableIsEncodable(items: seq<Item>)
    ensures Storable(items) <==> Encodable(items)
    ensures (forall i :: 0 <= i < |items| ==> !CarriesAny(items[i])) <==>
      forall i :: 0 <= i < |items| ==> !Named(items[i])
  {
    hide Named, Carries, Name, CarriesAny;
    forall i | 0 <= i < |items|
      ensures Named(items[i]) <==> CarriesAny(items[i])
      ensures forall k :: Carries(items[i], k) ==> Named(items[i]) && Name(items[i]) == k
      ensures Named(items[i]) ==> items[i].AMap? && Carries(items[i], Name(items[i]))
    {
      NamedCarries(items[i]);
      if Named(items[i]) { NamedIsAMap(items[i]); }
    }
    if Storable(items) {
      forall i, j | 0 <= i < j < |items| && Named(items[i]) && Named(items[j])
        ensures Name(items[i]) != Name(items[j])
      {
        assert Carries(items[i], Name(items[i])) && Carries(items[j], Name(items[j]));
      }
    }
  }

  lemma NamedIsAMap(item: Item)
    requires Named(item)
    ensures item.AMap? && Carries(item, Name(item))
  {
  }

  // Whatever order the annotations are visited in, and whatever list the spec arrives with.
  lemma RoundTripsExactlyWhen(items: seq<Item>, was: seq<Option<Fields>>,
      parameters: seq<Option<Fields>>)
    requires Delivered(Encoded(items), was, parameters)
    ensures parameters == Originals(items) <==> Restores(items, was)
  {
    hide Encoded, Decoded, Encodable, Storable, Carries, Originals, Named;
    StorableIsEncodable(items);
    NothingEncodedExactlyWhen(items);
    if Encoded(items) != map[] {
      DecodedExactlyWhen(items, parameters);
    }
  }

  predicate LastCarries(items: seq<Item>, i: int, k: string) {
    0 <= i < |items| && Carries(items[i], k) && forall j :: i < j < |items| ==> !Carries(items[j], k)
  }

  // What is stored under a name: the last entry of that name, with its place added.
  lemma EncodedInWords(items: seq<Item>, k: string)
    ensures k in Encoded(items) <==> exists i :: 0 <= i < |items| && Carries(items[i], k)
    ensures forall i :: LastCarries(items, i, k) ==>
      k in Encoded(items) && Encoded(items)[k] == Parsed(items[i].fields["order" := Number(i)])
  {
    hide Encoded;
    EncodedNames(items, k);
    if k in Encoded(items) {
      var last := EncodedEntries(items, k);
      assert Carries(items[last], k);
      assert forall j :: last < j < |items| ==> !Carries(items[j], k);
    }
    forall i | 0 <= i < |items| && Carries(items[i], k)
      ensures k in Encoded(items)
    {
      assert Named(items[i]) && Name(items[i]) == k;
    }
  }

  lemma NothingEncodedExactlyWhen(items: seq<Item>)
    ensures Encoded(items) == map[] <==> forall i :: 0 <= i < |items| ==> !Named(items[i])
  {
    hide Encoded;
    forall i | 0 <= i < |items| && Named(items[i])
      ensures Name(items[i]) in Encoded(items)
    {
      EncodedNames(items, Name(items[i]));
    }
    if Encoded(items) != map[] {
      var k :| k in Encoded(items);
      EncodedNames(items, k);
    }
  }

  // The two methods one after the other: the list of a manifest is stored and read back into a spec.
  // It fails exactly for an empty list, and otherwise restores the list exactly when Restores says.
  method StoreAndLoad(items: seq<Item>, spec: Arguments) returns (r: Outcome<()>)
    modifies spec
    ensures r.Failed? <==> items == []
    ensures r.Failed? ==> r.failure == UnhashableKey && spec.parameters == old(spec.parameters)
    ensures r.Ok? ==> (spec.parameters == Originals(items) <==> Restores(items, old(spec.parameters)))
  {
    hide Encoded, Delivered, Originals, Restores;
    var encoded := GetParametersKeyString(Parameters(items));
    if encoded.Failed? {
      return Failed(encoded.failure);
    }
    EncodedNeverPanics(items);
    r := spec.AddWorkflowTemplateParametersFromAnnotations(encoded.value);
    RoundTripsExactlyWhen(items, old(spec.parameters), spec.parameters);
  }

  lemma SlotRestored(items: seq<Item>, parameters: seq<Option<Fields>>, i: nat)
    requires Decoded(Encoded(items), parameters) && Encodable(items) && i < |items| == |parameters|
    ensures parameters[i] == Some(items[i].fields)
  {
    hide Encoded;
    var k := Name(items[i]);
    EncodedNames(items, k);
    var last := EncodedEntries(items, k);
    assert last == i;
    assert HasOrder(Encoded(items)[k], i);
    assert parameters[i].Some?;
    var m :| m in Encoded(items) && HasOrder(Encoded(items)[m], i)
      && parameters[i].value == Encoded(items)[m].fields - {"order"};
    var source := EncodedEntries(items, m);
    assert items[i].fields["order" := Number(i)] - {"order"} == items[i].fields;
  }

  // A manifest made of such entries never makes decoding panic.
  lemma EncodedNeverPanics(items: seq<Item>)
    ensures forall k :: k in Encoded(items) ==> !BadOrder(Encoded(items)[k])
  {
    forall k | k in Encoded(items)
      ensures !BadOrder(Encoded(items)[k])
    {
      var i := EncodedEntries(items, k);
    }
  }
}
