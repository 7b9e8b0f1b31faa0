/**
 The three loops over the volumes of a workspace template that have to agree: the size parameters,
 the claims of the stateful set that refer to them, and the claims that a delete removes.
 */
module VolumeClaims {
  import opened Wrappers

  datatype Mount = Mount(name: string, path: string)
  datatype Container = Container(mounts: seq<Mount>)

  // `storage` is None if the template makes no resource request.
  datatype ClaimTemplate = ClaimTemplate(name: string, storage: Option<string>)

  datatype Parameter = Parameter(name: string, mountPath: string)
  datatype Storage = Quantity(amount: string) | FromParameter(name: string)
  datatype Claim = Claim(name: string, storage: Storage)

  const SYSTEM_VOLUMES: set<string> := {"sys-dshm", "sys-namespace-config"}

  function SizeParameter(volume: string): string {
    "sys-" + volume + "-volume-size"
  }

  // ----- first occurrences

  function Names<T(==)>(xs: seq<T>, name: T -> string): set<string> {
    set x | x in xs :: name(x)
  }

  // The elements whose name is neither in `seen` nor that of an earlier element.
  function Firsts<T(==)>(xs: seq<T>, name: T -> string, seen: set<string>): seq<T> {
    if xs == [] then []
    else
      var n := |xs| - 1;
      Firsts(xs[..n], name, seen) + if name(xs[n]) in seen + Names(xs[..n], name) then [] else [xs[n]]
  }

  lemma FirstsStep<T>(xs: seq<T>, x: T, name: T -> string, seen: set<string>)
    ensures Firsts(xs + [x], name, seen) ==
      if name(x) in seen + Names(xs, name) then Firsts(xs, name, seen) else Firsts(xs, name, seen) + [x]
    ensures Names(xs + [x], name) == Names(xs, name) + {name(x)}
    ensures Firsts([], name, seen) == [] && Names([], name) == {}
  {
    assert (xs + [x])[..|xs|] == xs;
  }

  // Each name that is not in `seen`, and no other.
  lemma FirstsNames<T>(xs: seq<T>, name: T -> string, seen: set<string>)
    ensures Names(Firsts(xs, name, seen), name) == Names(xs, name) - seen
  {
    hide Firsts, Names;
    if xs == [] {
      FirstsNone(name, seen);
    } else {
      var n := |xs| - 1;
      FirstsNames(xs[..n], name, seen);
      assert xs == xs[..n] + [xs[n]];
      FirstsStep(xs[..n], xs[n], name, seen);
      FirstsStep(Firsts(xs[..n], name, seen), xs[n], name, seen);
    }
  }

  lemma FirstsNone<T>(name: T -> string, seen: set<string>)
    ensures Firsts([], name, seen) == [] && Names([], name) == {}
  {
  }

  // Each once.
  lemma FirstsDistinct<T>(xs: seq<T>, name: T -> string, seen: set<string>)
    ensures forall i, j :: 0 <= i < j < |Firsts(xs, name, seen)| ==>
      name(Firsts(xs, name, seen)[i]) != name(Firsts(xs, name, seen)[j])
  {
    if xs != [] {
      var n := |xs| - 1;
      FirstsDistinct(xs[..n], name, seen);
      FirstsNames(xs[..n], name, seen);
      var f := Firsts(xs[..n], name, seen);
      assert forall i :: 0 <= i < |f| ==> name(f[i]) in Names(f, name);
    }
  }

  ghost predicate EarliestAt<T>(xs: seq<T>, name: T -> string, k: int) {
    0 <= k < |xs| && forall j :: 0 <= j < k ==> name(xs[j]) != name(xs[k])
  }

  // By the first element that has the name, and every such element is there.
  lemma EarliestIsThere<T>(xs: seq<T>, name: T -> string, seen: set<string>, k: nat)
    requires EarliestAt(xs, name, k) && name(xs[k]) !in seen
    ensures xs[k] in Firsts(xs, name, seen)
  {
    var n := |xs| - 1;
    if k < n {
      assert EarliestAt(xs[..n], name, k);
      EarliestIsThere(xs[..n], name, seen, k);
    } else {
      assert name(xs[n]) !in Names(xs[..n], name);
    }
  }

  lemma OnlyEarliestAreThere<T>(xs: seq<T>, name: T -> string, seen: set<string>,
      x: T) returns (k: nat)
    requires x in Firsts(xs, name, seen)
    ensures EarliestAt(xs, name, k) && xs[k] == x && name(x) !in seen
  {
    var n := |xs| - 1;
    if x in Firsts(xs[..n], name, seen) {
      k := OnlyEarliestAreThere(xs[..n], name, seen, x);
      assert forall j :: 0 <= j <= k ==> xs[j] == xs[..n][j];
    } else {
      k := n;
      assert forall j :: 0 <= j < n ==> xs[..n][j] == xs[j] && name(xs[..n][j]) in Names(xs[..n], name);
    }
  }

  // ----- what the loops compute

  function MountName(): Mount -> string { (m: Mount) => m.name }

  function TemplateName(): ClaimTemplate -> string { (t: ClaimTemplate) => t.name }

  function Mounts(containers: seq<Container>): seq<Mount> {
    if containers == [] then [] else Mounts(containers[..|containers| - 1]) + containers[|containers| - 1].mounts
  }

  function Sized(templates: seq<ClaimTemplate>): set<string> {
    set t | t in templates && t.storage.Some? :: t.name
  }

  function SizeParameters(containers: seq<Container>, templates: seq<ClaimTemplate>): seq<Parameter> {
    ParametersFor(Firsts(Mounts(containers), MountName(), SYSTEM_VOLUMES + Sized(templates)))
  }

  function ParametersFor(ms: seq<Mount>): seq<Parameter> {
    seq(|ms|, i requires 0 <= i < |ms| => Parameter(SizeParameter(ms[i].name), ms[i].path))
  }

  function TemplateClaim(t: ClaimTemplate): Claim {
    Claim(t.name, if t.storage.Some? then Quantity(t.storage.value) else FromParameter(SizeParameter(t.name)))
  }

  function MountClaim(m: Mount): Claim {
    Claim(m.name, FromParameter(SizeParameter(m.name)))
  }

  function Claims(containers: seq<Container>, templates: seq<ClaimTemplate>): seq<Claim> {
    TemplateClaims(Firsts(templates, TemplateName(), {}))
      + MountClaims(Firsts(Mounts(containers), MountName(), SYSTEM_VOLUMES + Names(templates, TemplateName())))
  }

  function TemplateClaims(ts: seq<ClaimTemplate>): seq<Claim> {
    seq(|ts|, i requires 0 <= i < |ts| => TemplateClaim(ts[i]))
  }

  function MountClaims(ms: seq<Mount>): seq<Claim> {
    seq(|ms|, i requires 0 <= i < |ms| => MountClaim(ms[i]))
  }

  function WithSharedMemory(containers: seq<Container>): (r: seq<Container>)
    ensures |r| == |containers|
    ensures forall i :: 0 <= i < |containers| ==> r[i].mounts == containers[i].mounts + [Mount("sys-dshm", "/dev/shm")]
  {
    seq(|containers|, i requires 0 <= i < |containers| =>
      Container(containers[i].mounts + [Mount("sys-dshm", "/dev/shm")]))
  }

  function DeleteItems(containers: seq<Container>): seq<string> {
    ItemsFor(Firsts(Mounts(containers), MountName(), {}))
  }

  function ItemsFor(ms: seq<Mount>): seq<string> {
    seq(|ms|, i requires 0 <= i < |ms| => ms[i].name)
  }

  // One more mount, and one more template.
  lemma MountStep(past: seq<Mount>, v: Mount, skip: set<string>)
    ensures var more, ms := past + [v], Firsts(past, MountName(), skip);
      && Names(more, MountName()) == Names(past, MountName()) + {v.name}
      && Firsts(more, MountName(), skip) == (if v.name in skip + Names(past, MountName()) then ms else ms + [v])
      && ParametersFor(ms + [v]) == ParametersFor(ms) + [Parameter(SizeParameter(v.name), v.path)]
      && MountClaims(ms + [v]) == MountClaims(ms) + [MountClaim(v)]
      && ItemsFor(ms + [v]) == ItemsFor(ms) + [v.name]
  {
    hide Firsts, Names;
    FirstsStep(past, v, MountName(), skip);
  }

  lemma NoMountYet(skip: set<string>)
    ensures Names([], MountName()) == {} && Mounts([]) == [] == Firsts([], MountName(), skip)
    ensures ParametersFor([]) == [] && MountClaims([]) == [] == TemplateClaims([]) && ItemsFor([]) == []
  {
  }

  lemma TemplateStep(templates: seq<ClaimTemplate>, i: nat)
    requires i < |templates|
    ensures var past, t := templates[..i], templates[i];
      var more, ts := templates[..i + 1], Firsts(past, TemplateName(), {});
      && Names(more, TemplateName()) == Names(past, TemplateName()) + {t.name}
      && Firsts(more, TemplateName(), {}) == (if t.name in Names(past, TemplateName()) then ts else ts + [t])
      && TemplateClaims(ts + [t]) == TemplateClaims(ts) + [TemplateClaim(t)]
      && Sized(more) == if t.storage.Some? then Sized(past) + {t.name} else Sized(past)
  {
    hide Firsts, Names;
    var past, t := templates[..i], templates[i];
    assert templates[..i + 1] == past + [t];
    FirstsStep(past, t, TemplateName(), {});
  }

  lemma NoTemplateYet(templates: seq<ClaimTemplate>)
    ensures Names(templates[..0], TemplateName()) == {} && Firsts(templates[..0], TemplateName(), {}) == []
    ensures TemplateClaims([]) == [] && Sized(templates[..0]) == {}
    ensures templates[..|templates|] == templates
  {
  }

  // ----- the loops

  class WorkspaceSpec {
    var containers: seq<Container>
    const templates: seq<ClaimTemplate>
    var parameters: seq<Parameter>

    constructor (containers: seq<Container>, templates: seq<ClaimTemplate>, parameters: seq<Parameter>)
      ensures this.containers == containers && this.templates == templates && this.parameters == parameters
    {
      this.containers, this.templates, this.parameters := containers, templates, parameters;
    }

    method GenerateVolumeParameters()
      modifies this`parameters
      ensures parameters == old(parameters) + SizeParameters(containers, templates)
    {
      hide Firsts, Names, Mounts, ParametersFor, Sized;
      NoTemplateYet(templates);
      var sized: set<string> := {};
      var i := 0;
      while i < |templates|
        invariant 0 <= i <= |templates| && parameters == old(parameters)
        invariant sized == Sized(templates[..i])
      {
        TemplateStep(templates, i);
        if templates[i].storage.Some? {
          sized := sized + {templates[i].name};
        }
        i := i + 1;
      }
      ghost var skip := SYSTEM_VOLUMES + sized;
      var mapped := SYSTEM_VOLUMES;
      var added: seq<Parameter> := [];
      ghost var past: seq<Mount> := [];
      NoMountYet(skip);
      assert containers[..0] == [];
      i := 0;
      while i < |containers|
        invariant 0 <= i <= |containers| && parameters == old(parameters)
        invariant past == Mounts(containers[..i])
        invariant mapped + sized == skip + Names(past, MountName())
        invariant added == ParametersFor(Firsts(past, MountName(), skip))
      {
        var mounts := containers[i].mounts;
        ghost var before := past;
        var j := 0;
        while j < |mounts|
          invariant 0 <= j <= |mounts| && parameters == old(parameters)
          invariant past == before + mounts[..j]
          invariant mapped + sized == skip + Names(past, MountName())
          invariant added == ParametersFor(Firsts(past, MountName(), skip))
        {
          var v := mounts[j];
          MountStep(past, v, skip);
          past := past + [v];
          if v.name !in mapped && v.name !in sized {
            added := added + [Parameter(SizeParameter(v.name), v.path)];
            mapped := mapped + {v.name};
          }
          j := j + 1;
        }
        MountsStep(containers, i);
        i := i + 1;
      }
      assert containers[..i] == containers;
      parameters := parameters + added;
    }

    // Also adds the shared memory volume to every container.
    method CreateVolumeClaims() returns (claims: seq<Claim>)
      modifies this`containers
      ensures claims == Claims(old(containers), templates)
      ensures containers == WithSharedMemory(old(containers))
    {
      hide Firsts, Names, Mounts, MountClaims, TemplateClaims;
      claims := [];
      var mapped: set<string> := {};
      NoTemplateYet(templates);
      var i := 0;
      while i < |templates|
        invariant 0 <= i <= |templates| && containers == old(containers)
        invariant mapped == Names(templates[..i], TemplateName())
        invariant claims == TemplateClaims(Firsts(templates[..i], TemplateName(), {}))
      {
        var t := templates[i];
        TemplateStep(templates, i);
        if t.name !in mapped {
          claims := claims + [TemplateClaim(t)];
          mapped := mapped + {t.name};
        }
        i := i + 1;
      }
      ghost var own := claims;
      ghost var skip := SYSTEM_VOLUMES + mapped;
      ghost var start := containers;
      mapped := mapped + SYSTEM_VOLUMES;
      ghost var past: seq<Mount> := [];
      NoMountYet(skip);
      assert containers[..0] == [];
      i := 0;
      while i < |containers|
        invariant 0 <= i <= |containers| == |start|
        invariant past == Mounts(start[..i])
        invariant mapped == skip + Names(past, MountName())
        invariant claims == own + MountClaims(Firsts(past, MountName(), skip))
        invariant forall k :: 0 <= k < i ==>
          containers[k] == Container(start[k].mounts + [Mount("sys-dshm", "/dev/shm")])
        invariant forall k :: i <= k < |start| ==> containers[k] == start[k]
      {
        var mounts := containers[i].mounts;
        assert mounts == start[i].mounts;
        ghost var before, now := past, containers;
        var j := 0;
        while j < |mounts|
          invariant 0 <= j <= |mounts| && containers == now
          invariant past == before + mounts[..j]
          invariant mapped == skip + Names(past, MountName())
          invariant claims == own + MountClaims(Firsts(past, MountName(), skip))
        {
          var v := mounts[j];
          MountStep(past, v, skip);
          past := past + [v];
          if v.name !in mapped {
            claims := claims + [MountClaim(v)];
            mapped := mapped + {v.name};
          }
          j := j + 1;
        }
        MountsStep(start, i);
        containers := containers[i := Container(mounts + [Mount("sys-dshm", "/dev/shm")])];
        i := i + 1;
      }
      assert start[..i] == start;
      assert containers == WithSharedMemory(start);
    }

    method ListDeleteItems() returns (items: seq<string>)
      ensures items == DeleteItems(containers)
    {
      hide Firsts, Names, Mounts, ItemsFor;
      items := [];
      var mapped: set<string> := {};
      ghost var past: seq<Mount> := [];
      NoMountYet({});
      assert containers[..0] == [];
      var i := 0;
      while i < |containers|
        invariant 0 <= i <= |containers|
        invariant past == Mounts(containers[..i])
        invariant mapped == Names(past, MountName())
        invariant items == ItemsFor(Firsts(past, MountName(), {}))
      {
        var mounts := containers[i].mounts;
        ghost var before := past;
        var j := 0;
        while j < |mounts|
          invariant 0 <= j <= |mounts|
          invariant past == before + mounts[..j]
          invariant mapped == Names(past, MountName())
          invariant items == ItemsFor(Firsts(past, MountName(), {}))
        {
          var v := mounts[j];
          MountStep(past, v, {});
          past := past + [v];
          if v.name !in mapped {
            items := items + [v.name];
            mapped := mapped + {v.name};
          }
          j := j + 1;
        }
        MountsStep(containers, i);
        i := i + 1;
      }
      assert containers[..i] == containers;
    }
  }

  lemma MountsStep(containers: seq<Container>, i: nat)
    requires i < |containers|
    ensures Mounts(containers[..i + 1]) == Mounts(containers[..i]) + containers[i].mounts
    ensures containers[i].mounts[..|containers[i].mounts|] == containers[i].mounts
  {
    assert containers[..i + 1][..i] == containers[..i];
  }

  // The passes in the order of generateWorkspaceTemplateWorkflowTemplate.
  method Generate(spec: WorkspaceSpec) returns (claims: seq<Claim>, items: seq<string>)
    modifies spec
    ensures spec.parameters == old(spec.parameters) + SizeParameters(old(spec.containers), spec.templates)
    ensures claims == Claims(old(spec.containers), spec.templates)
    ensures items == DeleteItems(WithSharedMemory(old(spec.containers)))
  {
    spec.GenerateVolumeParameters();
    claims := spec.CreateVolumeClaims();
    items := spec.ListDeleteItems();
  }

  // ----- main results

  // the parameters the claims refer to
  function Referenced(claims: seq<Claim>): set<string> {
    set c | c in claims && c.storage.FromParameter? :: c.storage.name
  }

  function ParameterNames(ps: seq<Parameter>): set<string> {
    set p | p in ps :: p.name
  }

  predicate Reserved(volume: string) { volume == "sys-dshm" || volume == "sys-namespace-config" }

  // some claim template of that name, or one that also gives it a size
  ghost predicate HasTemplate(templates: seq<ClaimTemplate>, volume: string) {
    exists k :: 0 <= k < |templates| && templates[k].name == volume
  }

  ghost predicate HasSize(templates: seq<ClaimTemplate>, volume: string) {
    exists k :: 0 <= k < |templates| && templates[k].name == volume && templates[k].storage.Some?
  }

  lemma SkippedAre(templates: seq<ClaimTemplate>, v: string)
    ensures v in SYSTEM_VOLUMES <==> Reserved(v)
    ensures v in Names(templates, TemplateName()) <==> HasTemplate(templates, v)
    ensures v in Sized(templates) <==> HasSize(templates, v)
  {
    NameIndex(templates, TemplateName(), v);
    if k :| 0 <= k < |templates| && templates[k].name == v { assert TemplateName()(templates[k]) == v; }
    if k :| 0 <= k < |templates| && TemplateName()(templates[k]) == v { assert templates[k].name == v; }
  }

  ghost predicate Mounted(containers: seq<Container>, volume: string) {
    exists i :: 0 <= i < |containers| && MountsIt(containers[i], volume)
  }

  predicate MountsIt(c: Container, volume: string) {
    exists j :: 0 <= j < |c.mounts| && c.mounts[j].name == volume
  }

  // The list that the loops go through has the mounts of all containers.
  lemma {:induction false} MountedIs(containers: seq<Container>, v: string)
    ensures Mounted(containers, v) <==> v in Names(Mounts(containers), MountName())
  {
    hide MountsIt;
    if containers != [] {
      var n := |containers| - 1;
      MountedIs(containers[..n], v);
      MountedLast(containers, v);
      MountsIs(containers[n], v);
      NamesAppend(Mounts(containers[..n]), containers[n].mounts, v);
    }
  }

  lemma MountsIs(c: Container, v: string)
    ensures MountsIt(c, v) <==> v in Names(c.mounts, MountName())
  {
    NameIndex(c.mounts, MountName(), v);
    if j :| 0 <= j < |c.mounts| && c.mounts[j].name == v { assert MountName()(c.mounts[j]) == v; }
    if j :| 0 <= j < |c.mounts| && MountName()(c.mounts[j]) == v { assert c.mounts[j].name == v; }
  }

  lemma NamesAppend(a: seq<Mount>, b: seq<Mount>, v: string)
    ensures v in Names(a + b, MountName()) <==> v in Names(a, MountName()) || v in Names(b, MountName())
  {
  }

  lemma SizeParameterInjective(a: string, b: string)
    ensures SizeParameter(a) == SizeParameter(b) ==> a == b
  {
    if SizeParameter(a) == SizeParameter(b) {
      assert SizeParameter(a)[4..4 + |a|] == a && SizeParameter(b)[4..4 + |b|] == b;
    }
  }

  // Each size parameter is generated once: for the volumes that are mounted, that are not system
  // volumes and that no claim template gives a size.
  lemma GeneratedParameters(containers: seq<Container>, templates: seq<ClaimTemplate>)
    ensures var ps := SizeParameters(containers, templates);
      && (forall i, j :: 0 <= i < j < |ps| ==> ps[i].name != ps[j].name)
      && (forall v :: SizeParameter(v) in ParameterNames(ps) <==>
            Mounted(containers, v) && !Reserved(v) && !HasSize(templates, v))
      && forall p :: p in ParameterNames(ps) ==> exists v :: p == SizeParameter(v)
  {
    hide Mounted, Mounts, Firsts, HasSize;
    var skip := SYSTEM_VOLUMES + Sized(templates);
    var ms, ps := Firsts(Mounts(containers), MountName(), skip), SizeParameters(containers, templates);
    FirstsDistinct(Mounts(containers), MountName(), skip);
    FirstsNames(Mounts(containers), MountName(), skip);
    forall i, j | 0 <= i < j < |ps|
      ensures ps[i].name != ps[j].name
    {
      SizeParameterInjective(ms[i].name, ms[j].name);
      assert MountName()(ms[i]) != MountName()(ms[j]);
    }
    forall v
      ensures SizeParameter(v) in ParameterNames(ps) <==> v in Names(ms, MountName())
      ensures Mounted(containers, v) <==> v in Names(Mounts(containers), MountName())
      ensures v in skip <==> Reserved(v) || HasSize(templates, v)
    {
      MountedIs(containers, v);
      SkippedAre(templates, v);
      if SizeParameter(v) in ParameterNames(ps) {
        var i :| 0 <= i < |ps| && ps[i].name == SizeParameter(v);
        SizeParameterInjective(ms[i].name, v);
        assert ms[i] in ms;
      }
      if v in Names(ms, MountName()) {
        var i :| 0 <= i < |ms| && ms[i].name == v;
        assert ps[i] in ps && ps[i].name == SizeParameter(v);
      }
    }
  }

  lemma NameIndex<T>(xs: seq<T>, name: T -> string, v: string)
    ensures v in Names(xs, name) <==> exists i :: 0 <= i < |xs| && name(xs[i]) == v
  {
    if v in Names(xs, name) {
      var x :| x in xs && name(x) == v;
      var i :| 0 <= i < |xs| && xs[i] == x;
    }
  }

  lemma ClaimNamesDistinct(containers: seq<Container>, templates: seq<ClaimTemplate>)
    ensures var cs := Claims(containers, templates);
      forall i, j :: 0 <= i < j < |cs| ==> cs[i].name != cs[j].name
  {
    hide Firsts, Mounts, Names;
    var skip := SYSTEM_VOLUMES + Names(templates, TemplateName());
    var ts := Firsts(templates, TemplateName(), {});
    var ms := Firsts(Mounts(containers), MountName(), skip);
    var cs := Claims(containers, templates);
    FirstsDistinct(templates, TemplateName(), {});
    FirstsDistinct(Mounts(containers), MountName(), skip);
    FirstsNames(templates, TemplateName(), {});
    FirstsNames(Mounts(containers), MountName(), skip);
    forall i, j | 0 <= i < j < |cs|
      ensures cs[i].name != cs[j].name
    {
      NameIndex(ts, TemplateName(), cs[i].name);
      NameIndex(ms, MountName(), cs[j].name);
      if i < |ts| { assert TemplateName()(ts[i]) == cs[i].name; }
      if j < |ts| {
        assert TemplateName()(ts[j]) == cs[j].name;
      } else {
        assert MountName()(ms[j - |ts|]) == cs[j].name;
      }
      if i >= |ts| { assert MountName()(ms[i - |ts|]) == cs[i].name; }
    }
  }

  // Claims are made for the volumes of the claim templates, and for those that are mounted and
  // are not system volumes; each once.
  lemma ClaimNames(containers: seq<Container>, templates: seq<ClaimTemplate>, v: string)
    ensures var cs := Claims(containers, templates);
      && (forall i, j :: 0 <= i < j < |cs| ==> cs[i].name != cs[j].name)
      && ((exists c :: c in cs && c.name == v) <==>
            HasTemplate(templates, v) || (Mounted(containers, v) && !Reserved(v)))
  {
    hide Firsts, Mounts, Names, Mounted, HasTemplate;
    SkippedAre(templates, v);
    ClaimNamesDistinct(containers, templates);
    MountedIs(containers, v);
    var skip := SYSTEM_VOLUMES + Names(templates, TemplateName());
    var ts := Firsts(templates, TemplateName(), {});
    var ms := Firsts(Mounts(containers), MountName(), skip);
    var cs := Claims(containers, templates);
    FirstsNames(templates, TemplateName(), {});
    FirstsNames(Mounts(containers), MountName(), skip);
    NameIndex(ts, TemplateName(), v);
    NameIndex(ms, MountName(), v);
    if i :| 0 <= i < |ts| && TemplateName()(ts[i]) == v { assert cs[i] in cs; }
    if i :| 0 <= i < |ms| && MountName()(ms[i]) == v { assert cs[|ts| + i] in cs; }
    if c :| c in cs && c.name == v {
      var i :| 0 <= i < |cs| && cs[i] == c;
      if i < |ts| { assert TemplateName()(ts[i]) == v; } else { assert MountName()(ms[i - |ts|]) == v; }
    }
  }

  // The first claim template of a name decides on the size of its claim; any other claim takes the
  // size parameter of its volume.
  lemma ClaimSizes(containers: seq<Container>, templates: seq<ClaimTemplate>, c: Claim)
    requires c in Claims(containers, templates)
    ensures forall k :: EarliestAt(templates, TemplateName(), k) && templates[k].name == c.name ==>
      c.storage == match templates[k].storage
                   case Some(q) => Quantity(q)
                   case None => FromParameter("sys-" + c.name + "-volume-size")
    ensures (forall t :: t in templates ==> t.name != c.name) ==>
      c.storage == FromParameter("sys-" + c.name + "-volume-size")
  {
    hide Firsts, Mounts, Names;
    var skip := SYSTEM_VOLUMES + Names(templates, TemplateName());
    var ts := Firsts(templates, TemplateName(), {});
    var ms := Firsts(Mounts(containers), MountName(), skip);
    var cs := Claims(containers, templates);
    var i :| 0 <= i < |cs| && cs[i] == c;
    if i < |ts| {
      var k := OnlyEarliestAreThere(templates, TemplateName(), {}, ts[i]);
      assert templates[k] in templates;
      forall j | EarliestAt(templates, TemplateName(), j) && templates[j].name == c.name
        ensures j == k
      {
        assert TemplateName()(templates[j]) == TemplateName()(templates[k]);
      }
    } else {
      var m := ms[i - |ts|];
      assert m in ms;
      var k := OnlyEarliestAreThere(Mounts(containers), MountName(), skip, m);
      forall j | 0 <= j < |templates|
        ensures templates[j].name != c.name
      {
        assert TemplateName()(templates[j]) == templates[j].name;
        NameIndex(templates, TemplateName(), templates[j].name);
      }
    }
  }

  // the first mount of its volume, container by container
  ghost predicate FirstMount(containers: seq<Container>, m: Mount, i: int, j: int) {
    && 0 <= i < |containers| && 0 <= j < |containers[i].mounts| && containers[i].mounts[j] == m
    && (forall h :: 0 <= h < i ==> !MountsIt(containers[h], m.name))
    && forall h :: 0 <= h < j ==> containers[i].mounts[h].name != m.name
  }

  lemma {:induction false} EarliestIsFirst(containers: seq<Container>, k: nat) returns (i: nat, j: nat)
    requires EarliestAt(Mounts(containers), MountName(), k)
    ensures FirstMount(containers, Mounts(containers)[k], i, j)
  {
    var n := |containers| - 1;
    var before, m := Mounts(containers[..n]), Mounts(containers)[k];
    assert Mounts(containers) == before + containers[n].mounts;
    if k < |before| {
      assert forall h :: 0 <= h <= k ==> before[h] == Mounts(containers)[h];
      i, j := EarliestIsFirst(containers[..n], k);
      assert forall h :: 0 <= h < n ==> containers[..n][h] == containers[h];
    } else {
      i, j := n, k - |before|;
      forall h | 0 <= h < |before|
        ensures before[h].name != m.name
      {
        assert MountName()(Mounts(containers)[h]) != MountName()(m);
      }
      forall h | 0 <= h < n
        ensures !MountsIt(containers[h], m.name)
      {
        NotAmong(containers[..n], m.name);
        assert containers[..n][h] == containers[h];
      }
      forall h | 0 <= h < j
        ensures containers[n].mounts[h].name != m.name
      {
        assert MountName()(Mounts(containers)[|before| + h]) != MountName()(m);
      }
    }
  }

  lemma NotAmong(containers: seq<Container>, v: string)
    requires forall h :: 0 <= h < |Mounts(containers)| ==> Mounts(containers)[h].name != v
    ensures forall h :: 0 <= h < |containers| ==> !MountsIt(containers[h], v)
  {
    hide MountsIt, Mounts;
    MountedIs(containers, v);
    NameIndex(Mounts(containers), MountName(), v);
  }

  // A size parameter is named after its volume and tells where the volume is mounted first.
  lemma ParameterPaths(containers: seq<Container>, templates: seq<ClaimTemplate>, p: Parameter)
    returns (m: Mount, i: nat, j: nat)
    requires p in SizeParameters(containers, templates)
    ensures FirstMount(containers, m, i, j)
    ensures p == Parameter("sys-" + m.name + "-volume-size", m.path)
  {
    hide Firsts, Mounts;
    var skip := SYSTEM_VOLUMES + Sized(templates);
    var ms, ps := Firsts(Mounts(containers), MountName(), skip), SizeParameters(containers, templates);
    var h :| 0 <= h < |ps| && ps[h] == p;
    m := ms[h];
    var k := OnlyEarliestAreThere(Mounts(containers), MountName(), skip, m);
    i, j := EarliestIsFirst(containers, k);
  }

  // the first claim template of its name leaves the size open
  ghost predicate LeavesSizeOpen(templates: seq<ClaimTemplate>, k: int) {
    EarliestAt(templates, TemplateName(), k) && templates[k].storage.None?
  }

  lemma ReferencedParameters(containers: seq<Container>, templates: seq<ClaimTemplate>)
    ensures var r := Referenced(Claims(containers, templates));
      && (forall v :: SizeParameter(v) in r <==>
            || (exists k :: LeavesSizeOpen(templates, k) && templates[k].name == v)
            || (Mounted(containers, v) && !Reserved(v) && !HasTemplate(templates, v)))
      && forall p :: p in r ==> exists v :: p == SizeParameter(v)
  {
    hide Firsts, Mounts, SizeParameter, Mounted, HasTemplate;
    var own := Names(templates, TemplateName());
    var ts := Firsts(templates, TemplateName(), {});
    var ms := Firsts(Mounts(containers), MountName(), SYSTEM_VOLUMES + own);
    var cs := Claims(containers, templates);
    FirstsNames(Mounts(containers), MountName(), SYSTEM_VOLUMES + own);
    forall c | c in cs && c.storage.FromParameter?
      ensures c.storage.name == SizeParameter(c.name)
      ensures (exists k :: LeavesSizeOpen(templates, k) && templates[k].name == c.name) ||
        c.name in Names(ms, MountName())
    {
      var i :| 0 <= i < |cs| && cs[i] == c;
      if i < |ts| {
        var k := OnlyEarliestAreThere(templates, TemplateName(), {}, ts[i]);
        assert LeavesSizeOpen(templates, k) && templates[k].name == c.name;
      } else {
        assert ms[i - |ts|] in ms;
      }
    }
    forall v
      ensures SizeParameter(v) in Referenced(cs) <==>
        (exists k :: LeavesSizeOpen(templates, k) && templates[k].name == v) || v in Names(ms, MountName())
      ensures Mounted(containers, v) <==> v in Names(Mounts(containers), MountName())
      ensures v in SYSTEM_VOLUMES + own <==> Reserved(v) || HasTemplate(templates, v)
    {
      MountedIs(containers, v);
      SkippedAre(templates, v);
      if SizeParameter(v) in Referenced(cs) {
        var c :| c in cs && c.storage.FromParameter? && c.storage.name == SizeParameter(v);
        SizeParameterInjective(c.name, v);
      }
      if k :| LeavesSizeOpen(templates, k) && templates[k].name == v {
        EarliestIsThere(templates, TemplateName(), {}, k);
        var i :| 0 <= i < |ts| && ts[i] == templates[k];
        assert cs[i] in cs && cs[i].storage == FromParameter(SizeParameter(v));
      }
      if v in Names(ms, MountName()) {
        var i :| 0 <= i < |ms| && ms[i].name == v;
        assert cs[|ts| + i] in cs && cs[|ts| + i].storage == FromParameter(SizeParameter(v));
      }
    }
  }

  // Every generated parameter is used by a claim. Every parameter that a claim uses is generated
  // exactly when each claim template that leaves its size open is mounted, is not a system volume,
  // and is not given a size by a later claim template of the same name.
  lemma ParametersMatchClaimsExactlyWhen(containers: seq<Container>, templates: seq<ClaimTemplate>)
    ensures var generated := ParameterNames(SizeParameters(containers, templates));
      var used := Referenced(Claims(containers, templates));
      && generated <= used
      && (generated == used <==>
            forall k :: LeavesSizeOpen(templates, k) ==>
              Mounted(containers, templates[k].name) && !Reserved(templates[k].name)
                && !HasSize(templates, templates[k].name))
  {
    hide Firsts, Mounts, SizeParameter, SizeParameters, Claims, Mounted, ParameterNames, Referenced, Sized, Names;
    GeneratedParameters(containers, templates);
    ReferencedParameters(containers, templates);
    var generated := ParameterNames(SizeParameters(containers, templates));
    var used := Referenced(Claims(containers, templates));
    forall v | SizeParameter(v) in generated
      ensures SizeParameter(v) in used
    {
      if HasTemplate(templates, v) {
        var k := FirstOfName(templates, v);
        assert LeavesSizeOpen(templates, k);
      }
    }
    if generated == used {
      forall k | LeavesSizeOpen(templates, k)
        ensures Mounted(containers, templates[k].name) && !Reserved(templates[k].name)
        ensures !HasSize(templates, templates[k].name)
      {
        assert SizeParameter(templates[k].name) in used;
      }
    }
  }

  lemma FirstOfName(templates: seq<ClaimTemplate>, v: string) returns (k: nat)
    requires HasTemplate(templates, v)
    ensures EarliestAt(templates, TemplateName(), k) && templates[k].name == v
  {
    k := 0;
    while templates[k].name != v
      invariant 0 <= k < |templates|
      invariant forall j :: 0 <= j < k ==> templates[j].name != v
      invariant exists j :: k <= j < |templates| && templates[j].name == v
      decreases |templates| - k
    {
      k := k + 1;
    }
  }

  lemma {:induction false} MountedAfter(containers: seq<Container>, v: string)
    ensures Mounted(WithSharedMemory(containers), v) <==>
      Mounted(containers, v) || (v == "sys-dshm" && containers != [])
  {
    hide Mounted;
    if containers == [] {
      assert WithSharedMemory(containers) == containers;
    } else {
      var n := |containers| - 1;
      MountedAfter(containers[..n], v);
      assert WithSharedMemory(containers)[..n] == WithSharedMemory(containers[..n]);
      MountedLast(containers, v);
      MountedLast(WithSharedMemory(containers), v);
      OneMoreMount(containers[n], WithSharedMemory(containers)[n], v);
    }
  }

  lemma OneMoreMount(c: Container, d: Container, v: string)
    requires d.mounts == c.mounts + [Mount("sys-dshm", "/dev/shm")]
    ensures MountsIt(d, v) <==> MountsIt(c, v) || v == "sys-dshm"
  {
    assert d.mounts[|c.mounts|] == Mount("sys-dshm", "/dev/shm");
    if j :| 0 <= j < |c.mounts| && c.mounts[j].name == v { assert d.mounts[j].name == v; }
    if j :| 0 <= j < |d.mounts| && d.mounts[j].name == v {
      if j < |c.mounts| { assert c.mounts[j].name == v; }
    }
  }

  lemma MountedLast(containers: seq<Container>, v: string)
    requires containers != []
    ensures var n := |containers| - 1;
      Mounted(containers, v) <==> Mounted(containers[..n], v) || MountsIt(containers[n], v)
  {
    hide MountsIt;
    var n := |containers| - 1;
    if i :| 0 <= i < n && MountsIt(containers[..n][i], v) { assert MountsIt(containers[i], v); }
    if i :| 0 <= i < |containers| && MountsIt(containers[i], v) {
      if i < n { assert MountsIt(containers[..n][i], v); }
    }
  }

  // The delete items are distinct, are the mounted volumes and the shared memory, and cover every
  // claim exactly when every claim template is mounted.
  lemma DeletesEveryClaimExactlyWhen(containers: seq<Container>, templates: seq<ClaimTemplate>)
    ensures var items := DeleteItems(WithSharedMemory(containers));
      && (forall i, j :: 0 <= i < j < |items| ==> items[i] != items[j])
      && (forall v :: v in items <==> Mounted(containers, v) || (v == "sys-dshm" && containers != []))
      && ((forall c :: c in Claims(containers, templates) ==> c.name in items) <==>
          (forall t :: t in templates ==> Mounted(containers, t.name) || (t.name == "sys-dshm" && containers != [])))
      && (forall v :: v in items && !Reserved(v) ==>
        exists c :: c in Claims(containers, templates) && c.name == v)
  {
    hide Firsts, Mounts, Claims, Mounted;
    var after := Mounts(WithSharedMemory(containers));
    var ms, items := Firsts(after, MountName(), {}), DeleteItems(WithSharedMemory(containers));
    FirstsDistinct(after, MountName(), {});
    FirstsNames(after, MountName(), {});
    assert forall i :: 0 <= i < |ms| ==> items[i] == MountName()(ms[i]);
    forall v
      ensures v in items <==> Mounted(containers, v) || (v == "sys-dshm" && containers != [])
    {
      MountedAfter(containers, v);
      ItemsAreMounted(WithSharedMemory(containers), v);
    }
    forall v
      ensures (exists c :: c in Claims(containers, templates) && c.name == v) <==>
        HasTemplate(templates, v) || (Mounted(containers, v) && !Reserved(v))
    {
      ClaimNames(containers, templates, v);
    }
    forall t | t in templates
      ensures exists c :: c in Claims(containers, templates) && c.name == t.name
    {
      assert HasTemplate(templates, t.name);
    }
  }

  lemma ItemsAreMounted(containers: seq<Container>, v: string)
    ensures v in DeleteItems(containers) <==> Mounted(containers, v)
  {
    hide Firsts, Mounts, Mounted;
    MountedIs(containers, v);
    var ms, items := Firsts(Mounts(containers), MountName(), {}), DeleteItems(containers);
    FirstsNames(Mounts(containers), MountName(), {});
    assert forall i :: 0 <= i < |ms| ==> items[i] == MountName()(ms[i]) && ms[i] in ms;
    if v in Names(ms, MountName()) {
      var i :| 0 <= i < |ms| && ms[i].name == v;
      assert items[i] == v;
    }
  }
}
