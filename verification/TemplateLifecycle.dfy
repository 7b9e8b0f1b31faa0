/**
 The whole life of workflow templates: first versions, later versions, and archiving, which deletes the
 Argo templates of the versions, the newest first, before it marks the database row.
 */
module TemplateLifecycle {
  import opened Wrappers
  import opened TemplateVersions
  import Archiving = TemplateArchive

  // ----- archiving, as far as the store of templates goes

  // The versions of a template, the newest first; rows are in the order of their creation.
  function VersionList(vs: seq<VersionRow>, template: nat): seq<nat> {
    if vs == [] then []
    else
      var n := |vs| - 1;
      (if vs[n].template == template then [vs[n].version] else []) + VersionList(vs[..n], template)
  }

  // of the live template of that uid
  function Versions(s: Store, uid: string): seq<nat> {
    var i := FindTemplate(s.templates, uid);
    if i == |s.templates| then [] else VersionList(s.versions, s.templates[i].id)
  }

  function ArgoVersions(argo: seq<ArgoTemplate>, uid: string): set<nat> {
    set t | t in argo && t.uid == uid :: t.version
  }

  // Of the templates of that uid only these versions are left.
  function Kept(argo: seq<ArgoTemplate>, uid: string, versions: set<nat>): seq<ArgoTemplate> {
    if argo == [] then []
    else
      var n := |argo| - 1;
      Kept(argo[..n], uid, versions) + if argo[n].uid != uid || argo[n].version in versions then [argo[n]] else []
  }

  function Archived(ts: seq<TemplateRow>, uid: string): (r: seq<TemplateRow>)
    ensures |r| == |ts|
    ensures forall i :: 0 <= i < |ts| ==> r[i] == if ts[i].uid == uid then ts[i].(archived := true) else ts[i]
  {
    seq(|ts|, i requires 0 <= i < |ts| => if ts[i].uid == uid then ts[i].(archived := true) else ts[i])
  }

  // The call begins by reading the latest version, from the database and from the cluster.
  predicate Archivable(s: Store, uid: string) {
    var i := FindTemplate(s.templates, uid);
    && i < |s.templates|
    && (exists j :: 0 <= j < |s.versions| && s.versions[j].template == s.templates[i].id && s.versions[j].isLatest)
    && GetLatest(s.argo, uid).Ok?
  }

  // How many Argo templates are deleted if the first call to fail comes after `reach` of them.
  function Cut(s: Store, uid: string, reach: nat): (n: nat)
    ensures n <= |Versions(s, uid)|
  {
    var missing := Archiving.FirstMissing(Versions(s, uid), ArgoVersions(s.argo, uid));
    if reach < missing then reach else missing
  }

  // The store after a call; a reach beyond the number of versions means that nothing fails.
  function AfterArchive(s: Store, uid: string, reach: nat): Store {
    if !Archivable(s, uid) then s
    else
      var vs, cut := Versions(s, uid), Cut(s, uid, reach);
      s.(argo := Kept(s.argo, uid, ArgoVersions(s.argo, uid) - Archiving.Firsts(vs, cut)),
         templates := if cut == |vs| < reach then Archived(s.templates, uid) else s.templates)
  }

  // `readFails` stands for the calls before the first execution is listed. The template is archived
  // only after all executions of all its versions.
  method ArchiveWorkflowTemplate(registry: Registry, executions: seq<Archiving.Execution>, namespace: string,
      uid: string, readFails: bool, faults: Archiving.Faults)
    returns (ok: bool, executionsAfter: seq<Archiving.Execution>, ghost reach: nat)
    requires forall v: nat :: Archiving.Local(executions, Archiving.Scope(namespace, uid, v))
    modifies registry
    ensures registry.View() == AfterArchive(old(registry.View()), uid, reach)
    ensures ok <==> !readFails && Archivable(old(registry.View()), uid) && reach > |Versions(old(registry.View()), uid)|
    ensures !readFails && Archiving.NoFaults(faults) && Archivable(old(registry.View()), uid) ==> ok
    ensures registry.templates != old(registry.templates) ==>
      forall v :: v in Versions(old(registry.View()), uid) ==>
        Archiving.AllArchived(executionsAfter, Archiving.Scope(namespace, uid, v))
  {
    hide Archiving.Select, Archiving.Mark, Archiving.AllArchived, Latest, Kept, VersionList;
    ghost var s := registry.View();
    var i := FindTemplate(registry.templates, uid);
    KeepsAll(registry.argo, uid);
    if readFails || i == |registry.templates| {
      return false, executions, 0;
    }
    var id := registry.templates[i].id;
    if !(exists j ::
        0 <= j < |registry.versions| && registry.versions[j].template == id && registry.versions[j].isLatest) {
      return false, executions, 0;
    }
    var latest := GetLatest(registry.argo, uid);
    if latest.Failed? {
      return false, executions, 0;
    }
    var versions := VersionList(registry.versions, id);
    var archive := new Archiving.Archive(executions, ArgoVersions(registry.argo, uid));
    ghost var done, cut;
    ok, done, cut := archive.ArchiveWorkflowTemplate(namespace, uid, versions, faults);
    reach := if ok then |versions| + 1 else cut;
    executionsAfter := archive.executions;
    registry.argo := Kept(registry.argo, uid, archive.argo);
    if archive.templateArchived {
      forall v | v in versions
        ensures Archiving.AllArchived(executionsAfter, Archiving.Scope(namespace, uid, v))
      {
        Archiving.NoneLeft(executionsAfter, Archiving.Scope(namespace, uid, v));
      }
      registry.templates := Archived(registry.templates, uid);
    }
  }

  lemma KeepsAll(argo: seq<ArgoTemplate>, uid: string)
    ensures Kept(argo, uid, ArgoVersions(argo, uid)) == argo
    ensures forall vs :: ArgoVersions(argo, uid) - Archiving.Firsts(vs, 0) == ArgoVersions(argo, uid)
  {
    KeepsThose(argo, uid, ArgoVersions(argo, uid));
  }

  lemma {:induction false} KeepsThose(argo: seq<ArgoTemplate>, uid: string, versions: set<nat>)
    requires forall t :: t in argo && t.uid == uid ==> t.version in versions
    ensures Kept(argo, uid, versions) == argo
  {
    if argo != [] {
      var n := |argo| - 1;
      assert argo == argo[..n] + [argo[n]];
      KeepsThose(argo[..n], uid, versions);
    }
  }

  // ----- about the pieces

  lemma {:induction false} KeptMembers(argo: seq<ArgoTemplate>, uid: string, versions: set<nat>)
    ensures forall t :: t in Kept(argo, uid, versions) <==> t in argo && (t.uid != uid || t.version in versions)
    ensures UniqueNames(argo) ==> UniqueNames(Kept(argo, uid, versions))
  {
    if argo != [] {
      var n := |argo| - 1;
      var rest := Kept(argo[..n], uid, versions);
      assert argo == argo[..n] + [argo[n]];
      KeptMembers(argo[..n], uid, versions);
      if UniqueNames(argo) {
        forall i | 0 <= i < |rest|
          ensures rest[i].uid != argo[n].uid || rest[i].version != argo[n].version
        {
          assert rest[i] in rest;
          var j :| 0 <= j < n && argo[j] == rest[i];
        }
      }
    }
  }

  // The label selector sees what is kept of what it saw before.
  lemma {:induction false} LatestKept(argo: seq<ArgoTemplate>, uid: string, versions: set<nat>, other: string)
    ensures Latest(Kept(argo, uid, versions), other) == Kept(Latest(argo, other), uid, versions)
  {
    if argo == [] {
      assert Kept(argo, uid, versions) == [] && Latest(argo, other) == [];
    } else {
      var n := |argo| - 1;
      var t, rest := argo[n], Kept(argo[..n], uid, versions);
      hide Latest, Kept;
      assert argo == argo[..n] + [t];
      LatestKept(argo[..n], uid, versions, other);
      LatestSnoc(argo[..n], t, other);
      LatestSnoc(rest, t, other);
      KeptAppend(argo[..n], t, uid, versions);
      KeptAppend(Latest(argo[..n], other), t, uid, versions);
    }
  }

  lemma LatestSnoc(argo: seq<ArgoTemplate>, t: ArgoTemplate, uid: string)
    ensures Latest(argo + [t], uid) ==
      if t.uid == uid && t.latest then Latest(argo, uid) + [t] else Latest(argo, uid)
  {
    assert (argo + [t])[..|argo|] == argo;
  }

  lemma KeptAppend(argo: seq<ArgoTemplate>, t: ArgoTemplate, uid: string, versions: set<nat>)
    ensures Kept(argo + [t], uid, versions) ==
      if t.uid != uid || t.version in versions then Kept(argo, uid, versions) + [t] else Kept(argo, uid, versions)
  {
    assert (argo + [t])[..|argo|] == argo;
  }

  lemma KeptLatest(argo: seq<ArgoTemplate>, uid: string, versions: set<nat>, other: string)
    ensures other != uid ==> Latest(Kept(argo, uid, versions), other) == Latest(argo, other)
    ensures |Latest(argo, uid)| == 1 ==>
      Latest(Kept(argo, uid, versions), uid) ==
        if Latest(argo, uid)[0].version in versions then Latest(argo, uid) else []
  {
    hide Latest;
    LatestKept(argo, uid, versions, other);
    LatestKept(argo, uid, versions, uid);
    LatestMembers(argo, other);
    LatestMembers(argo, uid);
    if other != uid {
      KeepsThose(Latest(argo, other), uid, versions);
    }
    if |Latest(argo, uid)| == 1 {
      var t := Latest(argo, uid)[0];
      assert Latest(argo, uid) == [] + [t] && t in Latest(argo, uid);
      KeptAppend([], t, uid, versions);
    }
  }

  lemma ArchivedFinds(ts: seq<TemplateRow>, uid: string, other: string)
    ensures FindTemplate(Archived(ts, uid), uid) == |ts|
    ensures other != uid ==> FindTemplate(Archived(ts, uid), other) == FindTemplate(ts, other)
  {
    var i, j := FindTemplate(ts, other), FindTemplate(Archived(ts, uid), other);
  }

  lemma ListAppend(vs: seq<VersionRow>, row: VersionRow, template: nat)
    ensures VersionList(vs + [row], template) ==
      (if row.template == template then [row.version] else []) + VersionList(vs, template)
  {
    assert (vs + [row])[..|vs|] == vs;
  }

  lemma {:induction false} ListOutdated(vs: seq<VersionRow>, outdated: nat, template: nat)
    ensures VersionList(Outdated(vs, outdated), template) == VersionList(vs, template)
  {
    if vs != [] {
      var n := |vs| - 1;
      ListOutdated(vs[..n], outdated, template);
      assert Outdated(vs, outdated)[..n] == Outdated(vs[..n], outdated);
    }
  }

  lemma {:induction false} ListNone(vs: seq<VersionRow>, template: nat)
    requires forall i :: 0 <= i < |vs| ==> vs[i].template != template
    ensures VersionList(vs, template) == []
  {
    if vs != [] { ListNone(vs[..|vs| - 1], template); }
  }

  lemma TakenIsVersion(argo: seq<ArgoTemplate>, uid: string, version: nat)
    ensures NameTaken(argo, uid, version) <==> version in ArgoVersions(argo, uid)
  {
  }

  // ----- what is in order

  // Database and cluster agree on the newest version, and each version has its Argo template.
  ghost predicate VersionsFit(s: Store, uid: string, id: nat, version: nat) {
    var vs := VersionList(s.versions, id);
    && Agree(s, uid, id, version)
    && vs != [] && vs[0] == version
    && (forall i, j :: 0 <= i < j < |vs| ==> vs[i] != vs[j])
    && forall i :: 0 <= i < |vs| ==> NameTaken(s.argo, uid, vs[i])
  }

  ghost predicate InOrder(s: Store, uid: string) {
    var i := FindTemplate(s.templates, uid);
    if i == |s.templates| then Latest(s.argo, uid) == []
    else exists v :: VersionsFit(s, uid, s.templates[i].id, v)
  }

  ghost predicate AllInOrder(s: Store) {
    Keyed(s) && forall uid :: InOrder(s, uid)
  }

  // ----- runs with archiving

  datatype Event = Version(request: Request) | Archive(uid: string, reach: nat)

  function UidOf(e: Event): string {
    if e.Version? then e.request.uid else e.uid
  }

  function AfterEvent(s: Store, e: Event): Store {
    match e
    case Version(r) => After(s, r)
    case Archive(uid, reach) => AfterArchive(s, uid, reach)
  }

  function AfterEvents(s: Store, es: seq<Event>): Store {
    if es == [] then s else AfterEvent(AfterEvents(s, es[..|es| - 1]), es[|es| - 1])
  }

  // The call does not fail once it has changed the cluster, unless it cleans up.
  predicate Harmless(s: Store, e: Event) {
    match e
    case Version(FirstVersion(uid, call)) => Stop(s, e.request) != Some(CommitAndCleanUp)
    case Version(NextVersion(uid, call)) => Stop(s, e.request) !in {Some(UpdateArgo), Some(UpdateLabels), Some(Commit)}
    case Archive(uid, reach) => reach == 0 || reach > |Versions(s, uid)|
  }

  // ----- one event, for the other uids

  lemma ArchiveKeepsKeys(s: Store, uid: string, reach: nat)
    requires Keyed(s)
    ensures Keyed(AfterArchive(s, uid, reach))
  {
    hide Archivable, Cut, ArgoVersions, UniqueNames;
    var t := AfterArchive(s, uid, reach);
    KeptMembers(s.argo, uid, ArgoVersions(s.argo, uid) - Archiving.Firsts(Versions(s, uid), Cut(s, uid, reach)));
    forall i | 0 <= i < |t.templates| && !t.templates[i].archived
      ensures FindTemplate(t.templates, t.templates[i].uid) == i
    {
      ArchivedFinds(s.templates, uid, t.templates[i].uid);
    }
  }

  lemma EventKeepsKeys(s: Store, e: Event)
    requires Keyed(s)
    ensures Keyed(AfterEvent(s, e))
  {
    hide Keyed, After, AfterArchive;
    match e
    case Version(FirstVersion(uid, call)) => FirstVersionKeepsKeys(s, e.request);
    case Version(NextVersion(uid, call)) => NextVersionKeepsKeys(s, e.request);
    case Archive(uid, reach) => ArchiveKeepsKeys(s, uid, reach);
  }

  // Whether another uid has a live template, which one, and what is labelled latest, stays.
  ghost predicate SameFor(s: Store, t: Store, other: string) {
    var i := FindTemplate(s.templates, other);
    && Latest(t.argo, other) == Latest(s.argo, other)
    && (if i == |s.templates| then FindTemplate(t.templates, other) == |t.templates|
        else FindTemplate(t.templates, other) == i < |t.templates| && t.templates[i] == s.templates[i])
  }

  lemma ArchiveSame(s: Store, uid: string, reach: nat, other: string)
    requires other != uid
    ensures SameFor(s, AfterArchive(s, uid, reach), other)
  {
    hide Latest, Archivable, Cut, ArgoVersions;
    ArchivedFinds(s.templates, uid, other);
    KeptLatest(s.argo, uid, ArgoVersions(s.argo, uid) - Archiving.Firsts(Versions(s, uid), Cut(s, uid, reach)), other);
  }

  lemma OthersKept(s: Store, e: Event, other: string)
    requires UniqueNames(s.argo) && other != UidOf(e)
    ensures SameFor(s, AfterEvent(s, e), other)
  {
    hide Latest, AfterArchive, UniqueNames, Unlabel, Outdated;
    match e
    case Version(FirstVersion(uid, c)) =>
      FindAppend(s.templates, TemplateRow(s.nextId, uid, false), other);
      LatestAppend(s.argo, [ArgoTemplate(uid, c.now, true)], other);
      LatestOne(ArgoTemplate(uid, c.now, true), other);
    case Version(NextVersion(uid, c)) => OthersUntouched(s, uid, c.manifest, c.now, c.fault, other);
    case Archive(uid, reach) => ArchiveSame(s, uid, reach, other);
  }

  // No event takes an Argo template of another uid away, or a version row of another template.
  lemma {:induction false} OthersFit(s: Store, e: Event, other: string, version: nat)
    requires Keyed(s) && other != UidOf(e) && FindTemplate(s.templates, other) < |s.templates|
    requires VersionsFit(s, other, s.templates[FindTemplate(s.templates, other)].id, version)
    ensures VersionsFit(AfterEvent(s, e), other, s.templates[FindTemplate(s.templates, other)].id, version)
  {
    hide Latest, OneLatestRow, UniqueNames, Archivable, Cut, ArgoVersions, NameTaken;
    var i := FindTemplate(s.templates, other);
    var id, t := s.templates[i].id, AfterEvent(s, e);
    OthersKept(s, e, other);
    match e
    case Version(r) =>
      OthersStayInStep(s, r, other, version);
      OthersList(s, r, id);
      forall v | NameTaken(s.argo, other, v)
        ensures NameTaken(t.argo, other, v)
      {
        NamesStayTaken(s, r, other, v);
      }
    case Archive(uid, reach) =>
      var left := ArgoVersions(s.argo, uid) - Archiving.Firsts(Versions(s, uid), Cut(s, uid, reach));
      forall v | NameTaken(s.argo, other, v)
        ensures NameTaken(t.argo, other, v)
      {
        KeptTaken(s.argo, uid, left, other, v);
      }
  }

  lemma OthersList(s: Store, r: Request, id: nat)
    requires id < s.nextId
    requires r.NextVersion? && FindTemplate(s.templates, r.uid) < |s.templates| ==>
      s.templates[FindTemplate(s.templates, r.uid)].id != id
    ensures VersionList(After(s, r).versions, id) == VersionList(s.versions, id)
  {
    hide VersionList, Latest, WithNewArgo, Unlabel;
    var c := r.call;
    if Stop(s, r).None? {
      if r.FirstVersion? {
        ListAppend(s.versions, VersionRow(s.nextId, c.now, true, c.manifest), id);
      } else {
        var own := s.templates[FindTemplate(s.templates, r.uid)].id;
        ListAppend(Outdated(s.versions, own), VersionRow(own, c.now, true, c.manifest), id);
        ListOutdated(s.versions, own, id);
      }
    }
  }

  lemma NamesStayTaken(s: Store, r: Request, uid: string, version: nat)
    requires NameTaken(s.argo, uid, version)
    ensures NameTaken(After(s, r).argo, uid, version)
  {
    hide Latest, Outdated;
    var i :| 0 <= i < |s.argo| && s.argo[i].uid == uid && s.argo[i].version == version;
    var t := After(s, r).argo[i];
  }

  lemma KeptTaken(argo: seq<ArgoTemplate>, uid: string, versions: set<nat>, other: string,
      version: nat)
    requires other != uid && NameTaken(argo, other, version)
    ensures NameTaken(Kept(argo, uid, versions), other, version)
  {
    KeptMembers(argo, uid, versions);
    var i :| 0 <= i < |argo| && argo[i].uid == other && argo[i].version == version;
    assert argo[i] in Kept(argo, uid, versions);
  }

  lemma OthersInOrder(s: Store, e: Event, other: string)
    requires Keyed(s) && other != UidOf(e) && InOrder(s, other)
    ensures InOrder(AfterEvent(s, e), other)
  {
    hide Keyed, Latest, VersionsFit, AfterEvent;
    assert UniqueNames(s.argo) by { KeyedNames(s); }
    OthersKept(s, e, other);
    var i := FindTemplate(s.templates, other);
    if i < |s.templates| {
      var v :| VersionsFit(s, other, s.templates[i].id, v);
      OthersFit(s, e, other, v);
    }
  }

  lemma KeyedNames(s: Store)
    requires Keyed(s)
    ensures UniqueNames(s.argo)
  {
  }

  // ----- one event, for its own uid

  lemma OwnFirstVersion(s: Store, r: Request)
    requires Keyed(s) && r.FirstVersion? && InOrder(s, r.uid)
    ensures InOrder(After(s, r), r.uid) <==> Harmless(s, Version(r))
  {
    hide Latest, OneLatestRow, UniqueNames, VersionList;
    var c, t := r.call, After(s, r);
    var made := ArgoTemplate(r.uid, c.now, true);
    LatestAppend(s.argo, [made], r.uid);
    LatestOne(made, r.uid);
    if Stop(s, r).None? {
      FirstVersionAgreesExactlyWhen(s, r.uid, c.manifest, c.now, c.fault);
      FindAppend(s.templates, TemplateRow(s.nextId, r.uid, false), r.uid);
      ListNone(s.versions, s.nextId);
      ListAppend(s.versions, VersionRow(s.nextId, c.now, true, c.manifest), s.nextId);
      assert t.argo[|s.argo|] == made;
      assert VersionsFit(t, r.uid, s.nextId, c.now);
    }
  }

  lemma OwnNextVersion(s: Store, r: Request)
    requires r.NextVersion? && InOrder(s, r.uid)
    ensures InOrder(After(s, r), r.uid) <==> Harmless(s, Version(r))
  {
    hide Latest, OneLatestRow, VersionList, VersionsFit;
    var c, t := r.call, After(s, r);
    if Stop(s, r).None? {
      SuccessFits(s, r);
    } else if Stop(s, r) in {Some(UpdateArgo), Some(UpdateLabels), Some(Commit)} {
      LabelMoves(s.argo, r.uid, c.now);
      var id := s.templates[FindTemplate(s.templates, r.uid)].id;
      var v :| VersionsFit(s, r.uid, id, v);
      forall w
        ensures !VersionsFit(t, r.uid, id, w)
      {
        if VersionsFit(t, r.uid, id, w) { NewestIsLabelled(s, t, r.uid, id, v, w); }
      }
    }
  }

  lemma NewestIsLabelled(s: Store, t: Store, uid: string, id: nat, v: nat, w: nat)
    requires VersionsFit(s, uid, id, v) && VersionsFit(t, uid, id, w) && t.versions == s.versions
    ensures v == w && NameTaken(s.argo, uid, v) && Latest(t.argo, uid) == [ArgoTemplate(uid, v, true)]
  {
  }

  lemma SuccessFits(s: Store, r: Request)
    requires r.NextVersion? && InOrder(s, r.uid) && Stop(s, r).None?
    ensures InOrder(After(s, r), r.uid)
  {
    hide Latest, OneLatestRow, VersionList, Unlabel, Outdated;
    var c, t := r.call, After(s, r);
    var id := s.templates[FindTemplate(s.templates, r.uid)].id;
    var v :| VersionsFit(s, r.uid, id, v);
    var earlier := VersionList(s.versions, id);
    SuccessAgrees(s, r.uid, c.manifest, c.now, c.fault);
    ListAppend(Outdated(s.versions, id), VersionRow(id, c.now, true, c.manifest), id);
    ListOutdated(s.versions, id, id);
    assert VersionList(t.versions, id) == [c.now] + earlier;
    forall k | 0 <= k < |earlier|
      ensures NameTaken(t.argo, r.uid, earlier[k]) && earlier[k] != c.now
    {
      NamesStayTaken(s, r, r.uid, earlier[k]);
    }
    MadeIsTaken(s, r);
    assert VersionsFit(t, r.uid, id, c.now);
  }

  lemma MadeIsTaken(s: Store, r: Request)
    requires Stop(s, r).None?
    ensures NameTaken(After(s, r).argo, r.uid, r.call.now)
  {
    hide Latest, Outdated;
    var made := After(s, r).argo[|s.argo|];
  }

  // In order, a template can be archived, and no version is missing its Argo template.
  lemma OrderlyArchives(s: Store, uid: string, version: nat)
    requires FindTemplate(s.templates, uid) < |s.templates|
    requires VersionsFit(s, uid, s.templates[FindTemplate(s.templates, uid)].id, version)
    ensures Archivable(s, uid) && Versions(s, uid) != [] && Versions(s, uid)[0] == version
    ensures Archiving.FirstMissing(Versions(s, uid), ArgoVersions(s.argo, uid)) == |Versions(s, uid)|
  {
    hide Latest, VersionList;
    var vs := Versions(s, uid);
    forall i | 0 <= i < |vs|
      ensures vs[i] in ArgoVersions(s.argo, uid)
    {
      TakenIsVersion(s.argo, uid, vs[i]);
    }
    Archiving.NoneMissingExactlyWhen(vs, ArgoVersions(s.argo, uid));
  }

  lemma OwnArchive(s: Store, uid: string, reach: nat)
    requires InOrder(s, uid)
    ensures InOrder(AfterArchive(s, uid, reach), uid) <==> Harmless(s, Archive(uid, reach))
  {
    hide Latest, VersionList, ArgoVersions, VersionsFit, Kept, Archivable;
    var i := FindTemplate(s.templates, uid);
    if i == |s.templates| {
      NotArchivable(s, uid);
    } else {
      var v :| VersionsFit(s, uid, s.templates[i].id, v);
      OrderlyArchives(s, uid, v);
      LatestIs(s, uid, s.templates[i].id, v);
      var vs, cut, t := Versions(s, uid), Cut(s, uid, reach), AfterArchive(s, uid, reach);
      KeptLatest(s.argo, uid, ArgoVersions(s.argo, uid) - Archiving.Firsts(vs, cut), uid);
      KeepsAll(s.argo, uid);
      ArchivedFinds(s.templates, uid, uid);
      if reach > 0 {
        assert v in Archiving.Firsts(vs, cut);
        assert Latest(t.argo, uid) == [];
        forall w
          ensures !VersionsFit(t, uid, s.templates[i].id, w)
        {
          if VersionsFit(t, uid, s.templates[i].id, w) { LatestIs(t, uid, s.templates[i].id, w); }
        }
      }
    }
  }

  lemma NotArchivable(s: Store, uid: string)
    requires FindTemplate(s.templates, uid) == |s.templates|
    ensures !Archivable(s, uid)
  {
  }

  lemma LatestIs(s: Store, uid: string, id: nat, version: nat)
    requires VersionsFit(s, uid, id, version)
    ensures Latest(s.argo, uid) == [ArgoTemplate(uid, version, true)]
  {
  }

  lemma OwnEvent(s: Store, e: Event)
    requires Keyed(s) && InOrder(s, UidOf(e))
    ensures InOrder(AfterEvent(s, e), UidOf(e)) <==> Harmless(s, e)
  {
    hide Keyed, InOrder, After, AfterArchive;
    match e
    case Version(FirstVersion(uid, c)) => OwnFirstVersion(s, e.request);
    case Version(NextVersion(uid, c)) => OwnNextVersion(s, e.request);
    case Archive(uid, reach) => OwnArchive(s, uid, reach);
  }

  // ----- main results

  // An event leaves everything in order exactly when it does not fail once it has changed the cluster.
  lemma OrderKeptExactlyWhen(s: Store, e: Event)
    requires AllInOrder(s)
    ensures AllInOrder(AfterEvent(s, e)) <==> Harmless(s, e)
  {
    hide Keyed, InOrder, AfterEvent, Harmless;
    EventKeepsKeys(s, e);
    assert InOrder(s, UidOf(e));
    OwnEvent(s, e);
    forall other
      ensures Harmless(s, e) ==> InOrder(AfterEvent(s, e), other)
    {
      if other != UidOf(e) { OthersInOrder(s, e, other); }
    }
  }

  // So over any run, of any templates, everything is in order throughout exactly when no call fails
  // that way.
  lemma OrderOverRuns(s: Store, es: seq<Event>)
    requires AllInOrder(s)
    ensures (forall k :: 0 <= k <= |es| ==> AllInOrder(AfterEvents(s, es[..k]))) <==>
      forall k :: 0 <= k < |es| ==> Harmless(AfterEvents(s, es[..k]), es[k])
  {
    hide AllInOrder, AfterEvent, Harmless;
    if forall k :: 0 <= k <= |es| ==> AllInOrder(AfterEvents(s, es[..k])) {
      forall k | 0 <= k < |es|
        ensures Harmless(AfterEvents(s, es[..k]), es[k])
      {
        assert es[..k + 1][..k] == es[..k] && AllInOrder(AfterEvents(s, es[..k + 1]));
        OrderKeptExactlyWhen(AfterEvents(s, es[..k]), es[k]);
      }
    }
    if forall k :: 0 <= k < |es| ==> Harmless(AfterEvents(s, es[..k]), es[k]) {
      OrderUpTo(s, es, |es|);
    }
  }

  lemma {:induction false} OrderUpTo(s: Store, es: seq<Event>, n: nat)
    requires AllInOrder(s) && n <= |es|
    requires forall k :: 0 <= k < n ==> Harmless(AfterEvents(s, es[..k]), es[k])
    ensures forall k :: 0 <= k <= n ==> AllInOrder(AfterEvents(s, es[..k]))
  {
    hide AllInOrder, AfterEvent, Harmless;
    if n > 0 {
      OrderUpTo(s, es, n - 1);
      assert es[..n][..n - 1] == es[..n - 1];
      OrderKeptExactlyWhen(AfterEvents(s, es[..n - 1]), es[n - 1]);
    }
  }

  // In order, an archive call archives exactly when nothing fails; otherwise the template stays live.
  lemma OrderlyArchivesExactlyWhen(s: Store, uid: string, reach: nat)
    requires AllInOrder(s) && FindTemplate(s.templates, uid) < |s.templates|
    ensures var t := AfterArchive(s, uid, reach);
      FindTemplate(t.templates, uid) == |t.templates| <==> reach > |Versions(s, uid)|
  {
    hide Latest, VersionList, ArgoVersions, VersionsFit, Kept, Archivable, Keyed;
    assert InOrder(s, uid);
    var v :| VersionsFit(s, uid, s.templates[FindTemplate(s.templates, uid)].id, v);
    OrderlyArchives(s, uid, v);
    ArchivedFinds(s.templates, uid, uid);
  }

  // A call that archives the template keeps the store tidy exactly when the version labelled latest
  // is one the database knows.
  lemma ArchivingKeepsTidyExactlyWhen(s: Store, uid: string, reach: nat)
    requires Tidy(s) && Archivable(s, uid) && Cut(s, uid, reach) == |Versions(s, uid)| < reach
    ensures var t := AfterArchive(s, uid, reach);
      && FindTemplate(t.templates, uid) == |t.templates|
      && (Latest(t.argo, uid) == [] <==> GetLatest(s.argo, uid).value.version in Versions(s, uid))
      && (Tidy(t) <==> GetLatest(s.argo, uid).value.version in Versions(s, uid))
  {
    hide Keyed, Latest, VersionList, Kept, OneLatestRow, Cut;
    var t, vs := AfterArchive(s, uid, reach), Versions(s, uid);
    var x := GetLatest(s.argo, uid).value;
    ArchiveKeepsKeys(s, uid, reach);
    ArchivedFinds(s.templates, uid, uid);
    KeptLatest(s.argo, uid, ArgoVersions(s.argo, uid) - Archiving.Firsts(vs, |vs|), uid);
    LatestMembers(s.argo, uid);
    assert x in Latest(s.argo, uid);
    assert x.version in ArgoVersions(s.argo, uid);
    assert SingleLatest(t, uid) <==> Latest(t.argo, uid) == [];
    forall other | other != uid
      ensures SingleLatest(t, other)
    {
      assert SingleLatest(s, other);
      ArchiveSame(s, uid, reach, other);
    }
  }

  // Only then does the first version of a new template of that name agree.
  lemma RecreatedAgreesExactlyWhen(s: Store, uid: string, reach: nat, manifest: string, now: nat,
      fault: Option<Point>)
    requires Tidy(s) && Archivable(s, uid) && Cut(s, uid, reach) == |Versions(s, uid)| < reach
    requires FirstStopsAt(AfterArchive(s, uid, reach), uid, now, fault).None?
    ensures Agree(AfterFirst(AfterArchive(s, uid, reach), uid, manifest, now, fault), uid, s.nextId, now) <==>
      GetLatest(s.argo, uid).value.version in Versions(s, uid)
  {
    hide Archivable, Tidy, Agree, Latest, Versions, Cut, Kept;
    ArchivingKeepsTidyExactlyWhen(s, uid, reach);
    var t := AfterArchive(s, uid, reach);
    TidyRows(s);
    FirstVersionAgreesExactlyWhen(t, uid, manifest, now, fault);
  }

  lemma TidyRows(s: Store)
    requires Tidy(s)
    ensures forall i :: 0 <= i < |s.versions| ==> s.versions[i].template < s.nextId
  {
  }

  // ----- what is stored, and that it stays

  // The database has this manifest under this version, for a template of that uid, archived or not.
  ghost predicate Stored(s: Store, uid: string, version: nat, manifest: string) {
    exists i, j :: StoredAt(s, uid, version, manifest, i, j)
  }

  ghost predicate StoredAt(s: Store, uid: string, version: nat, manifest: string, i: int, j: int) {
    && 0 <= i < |s.versions| && 0 <= j < |s.templates|
    && s.versions[i].template == s.templates[j].id && s.templates[j].uid == uid
    && s.versions[i].version == version && s.versions[i].manifest == manifest
  }

  // The event is a call for a version of that uid at that time, with that manifest, and it succeeds.
  ghost predicate Gives(s: Store, e: Event, uid: string, version: nat, manifest: string) {
    && e.Version? && e.request.uid == uid && e.request.call.now == version && e.request.call.manifest == manifest
    && Stop(s, e.request).None?
  }

  lemma EventKeepsStored(s: Store, e: Event, uid: string, version: nat, manifest: string, i: int, j: int)
    requires StoredAt(s, uid, version, manifest, i, j)
    ensures StoredAt(AfterEvent(s, e), uid, version, manifest, i, j)
  {
    hide Latest, Kept, ArgoVersions, Cut, Archivable, WithNewArgo, Unlabel, GetLatest;
  }

  lemma GivenIsStored(s: Store, r: Request)
    requires Stop(s, r).None?
    ensures Stored(After(s, r), r.uid, r.call.now, r.call.manifest)
  {
    hide Latest, WithNewArgo, Unlabel;
    var j := if r.FirstVersion? then |s.templates| else FindTemplate(s.templates, r.uid);
    assert StoredAt(After(s, r), r.uid, r.call.now, r.call.manifest, |s.versions|, j);
  }

  lemma OnlyGivenIsNew(s: Store, e: Event, uid: string, version: nat, manifest: string)
    requires Keyed(s) && Stored(AfterEvent(s, e), uid, version, manifest)
    ensures Stored(s, uid, version, manifest) || Gives(s, e, uid, version, manifest)
  {
    hide AfterEvent, Gives, StoredAt;
    var i, j :| StoredAt(AfterEvent(s, e), uid, version, manifest, i, j);
    if e.Archive? {
      ArchiveStoresNothing(s, e, uid, version, manifest, i, j);
    } else {
      RequestStoresOne(s, e, uid, version, manifest, i, j);
    }
  }

  lemma ArchiveStoresNothing(s: Store, e: Event, uid: string, version: nat, manifest: string, i: int, j: int)
    requires e.Archive? && StoredAt(AfterEvent(s, e), uid, version, manifest, i, j)
    ensures StoredAt(s, uid, version, manifest, i, j)
  {
    hide Latest, Kept, ArgoVersions, Cut, Archivable;
  }

  lemma RequestStoresOne(s: Store, e: Event, uid: string, version: nat, manifest: string, i: int, j: int)
    requires Keyed(s) && e.Version? && StoredAt(AfterEvent(s, e), uid, version, manifest, i, j)
    ensures StoredAt(s, uid, version, manifest, i, j) || Gives(s, e, uid, version, manifest)
  {
    hide After, Stop, UniqueNames;
    if Stop(s, e.request).Some? {
      StopStoresNothing(s, e.request);
    } else if e.request.FirstVersion? {
      FirstStores(s, e.request);
    } else {
      NextStores(s, e.request);
    }
  }

  lemma StopStoresNothing(s: Store, r: Request)
    requires Stop(s, r).Some?
    ensures After(s, r).templates == s.templates && After(s, r).versions == s.versions
  {
    hide Latest, WithNewArgo, Unlabel, GetLatest;
  }

  lemma FirstStores(s: Store, r: Request)
    requires r.FirstVersion? && Stop(s, r).None?
    ensures After(s, r).templates == s.templates + [TemplateRow(s.nextId, r.uid, false)]
    ensures After(s, r).versions == s.versions + [VersionRow(s.nextId, r.call.now, true, r.call.manifest)]
  {
    hide Latest, WithNewArgo;
  }

  lemma NextStores(s: Store, r: Request)
    requires r.NextVersion? && Stop(s, r).None?
    ensures var j, t := FindTemplate(s.templates, r.uid), After(s, r);
      && j < |s.templates| && t.templates == s.templates
      && s.templates[j].uid == r.uid
      && t.versions == Outdated(s.versions, s.templates[j].id)
           + [VersionRow(s.templates[j].id, r.call.now, true, r.call.manifest)]
  {
    hide Latest, WithNewArgo, Unlabel, GetLatest;
  }

  // Over every run from the empty store: the database has a manifest under a version of a template
  // exactly when a successful call gave it that manifest at that time; nothing is lost or mixed up.
  lemma {:induction false} StoredExactlyWhen(es: seq<Event>, uid: string, version: nat, manifest: string)
    ensures Stored(AfterEvents(EMPTY, es), uid, version, manifest) <==>
      exists k :: 0 <= k < |es| && Gives(AfterEvents(EMPTY, es[..k]), es[k], uid, version, manifest)
  {
    hide AfterEvent, Gives, Stored, Keyed;
    if es == [] {
      assert !Stored(AfterEvents(EMPTY, es), uid, version, manifest) by { NothingStored(uid, version, manifest); }
    } else {
      var n := |es| - 1;
      var s := AfterEvents(EMPTY, es[..n]);
      StoredExactlyWhen(es[..n], uid, version, manifest);
      EmptyInOrder();
      KeysOverRuns(EMPTY, es[..n]);
      StoredStep(s, es[n], uid, version, manifest);
      assert forall k :: 0 <= k <= n ==> es[..n][..k] == es[..k];
      if k :| 0 <= k < |es| && Gives(AfterEvents(EMPTY, es[..k]), es[k], uid, version, manifest) {
        if k < n { assert Gives(AfterEvents(EMPTY, es[..n][..k]), es[..n][k], uid, version, manifest); }
      }
      if k :| 0 <= k < n && Gives(AfterEvents(EMPTY, es[..n][..k]), es[..n][k], uid, version, manifest) {
        assert Gives(AfterEvents(EMPTY, es[..k]), es[k], uid, version, manifest);
      }
    }
  }

  lemma NothingStored(uid: string, version: nat, manifest: string)
    ensures !Stored(AfterEvents(EMPTY, []), uid, version, manifest)
  {
  }

  lemma StoredStep(s: Store, e: Event, uid: string, version: nat, manifest: string)
    requires Keyed(s)
    ensures Stored(AfterEvent(s, e), uid, version, manifest) <==>
      Stored(s, uid, version, manifest) || Gives(s, e, uid, version, manifest)
  {
    hide AfterEvent, After, Stop, Keyed, StoredAt;
    if Stored(AfterEvent(s, e), uid, version, manifest) { OnlyGivenIsNew(s, e, uid, version, manifest); }
    if i, j :| StoredAt(s, uid, version, manifest, i, j) { EventKeepsStored(s, e, uid, version, manifest, i, j); }
    if Gives(s, e, uid, version, manifest) {
      GivenIsStored(s, e.request);
      assert AfterEvent(s, e) == After(s, e.request) by { VersionEvent(s, e); }
    }
  }

  lemma VersionEvent(s: Store, e: Event)
    requires e.Version?
    ensures AfterEvent(s, e) == After(s, e.request)
  {
  }

  // ----- templates that no call can change any more

  predicate Takes(s: Store, e: Event) {
    match e
    case Version(r) => Stop(s, r).None?
    case Archive(uid, reach) => Archivable(s, uid)
  }

  // An archive call is accepted exactly for a uid with a live template, one of whose versions is marked
  // latest in the database and one of whose Argo templates, and no other, is labelled latest; else it
  // changes nothing.
  lemma ArchiveAcceptedExactlyWhen(s: Store, uid: string, reach: nat)
    ensures Takes(s, Archive(uid, reach)) <==> exists i, j, t ::
      && 0 <= i < |s.templates| && s.templates[i].uid == uid && !s.templates[i].archived
      && (forall h :: 0 <= h < i ==> s.templates[h].uid != uid || s.templates[h].archived)
      && 0 <= j < |s.versions| && s.versions[j].template == s.templates[i].id && s.versions[j].isLatest
      && Latest(s.argo, uid) == [t]
    ensures !Takes(s, Archive(uid, reach)) ==> AfterArchive(s, uid, reach) == s
  {
    hide Latest;
    var i := FindTemplate(s.templates, uid);
    if Takes(s, Archive(uid, reach)) {
      var j :| 0 <= j < |s.versions| && s.versions[j].template == s.templates[i].id && s.versions[j].isLatest;
      var t := Latest(s.argo, uid)[0];
      assert Latest(s.argo, uid) == [t];
      assert s.templates[i].uid == uid && s.versions[j].isLatest;
    }
  }

  // A live template of which no Argo template, or more than one, is labelled latest stays as it is: no
  // later version can be made of it, it cannot be archived, and its name is not free again.
  lemma {:induction false} StuckForEver(s: Store, es: seq<Event>, uid: string)
    requires Keyed(s) && FindTemplate(s.templates, uid) < |s.templates| && |Latest(s.argo, uid)| != 1
    ensures Keyed(AfterEvents(s, es)) && SameFor(s, AfterEvents(s, es), uid)
    ensures forall k :: 0 <= k < |es| && UidOf(es[k]) == uid ==> !Takes(AfterEvents(s, es[..k]), es[k])
  {
    hide Keyed, Latest, Takes, AfterEvent;
    if es != [] {
      var n := |es| - 1;
      var t := AfterEvents(s, es[..n]);
      StuckForEver(s, es[..n], uid);
      EventKeepsKeys(t, es[n]);
      if UidOf(es[n]) == uid {
        StuckStep(t, es[n]);
      } else {
        KeyedNames(t);
        OthersKept(t, es[n], uid);
      }
      forall k | 0 <= k < n && UidOf(es[k]) == uid
        ensures !Takes(AfterEvents(s, es[..k]), es[k])
      {
        assert es[..n][..k] == es[..k] && UidOf(es[..n][k]) == uid;
      }
    }
  }

  lemma StuckStep(s: Store, e: Event)
    requires FindTemplate(s.templates, UidOf(e)) < |s.templates| && |Latest(s.argo, UidOf(e))| != 1
    ensures AfterEvent(s, e) == s && !Takes(s, e)
  {
    hide Latest;
  }

  // From the empty store on.
  lemma OrderFromEmpty(es: seq<Event>)
    ensures (forall k :: 0 <= k <= |es| ==> AllInOrder(AfterEvents(EMPTY, es[..k]))) <==>
      forall k :: 0 <= k < |es| ==> Harmless(AfterEvents(EMPTY, es[..k]), es[k])
  {
    hide AllInOrder, AfterEvents, Harmless;
    EmptyInOrder();
    OrderOverRuns(EMPTY, es);
  }

  lemma EmptyInOrder()
    ensures AllInOrder(EMPTY) && Keyed(EMPTY)
  {
  }

  // ----- three runs that end like that

  function First(now: nat): Event { Version(FirstVersion("t", Call("", now, None))) }

  function Later(now: nat, fault: Point): Event { Version(NextVersion("t", Call("", now, Some(fault)))) }

  // the label is not taken from the old Argo template
  const RELABEL_FAILED: seq<Event> := [First(1), Later(2, UpdateArgo)]
  // the call to archive fails after the first deletion
  const HALF_ARCHIVED: seq<Event> := [First(1), Archive("t", 1)]
  // The second version is not committed; the template is archived without it, and made again.
  const STRAY_LABEL: seq<Event> := [First(1), Later(2, Commit), Archive("t", 2), First(3)]

  const ROW: TemplateRow := TemplateRow(1, "t", false)
  const MADE: Store := Store([ROW], [VersionRow(1, 1, true, "")], [ArgoTemplate("t", 1, true)], 2)

  lemma Made()
    ensures AfterEvents(EMPTY, [First(1)]) == MADE
    ensures Latest(MADE.argo, "t") == MADE.argo && FindTemplate(MADE.templates, "t") == 0
    ensures Versions(MADE, "t") == [1] && ArgoVersions(MADE.argo, "t") == {1} && Archivable(MADE, "t")
  {
    assert [First(1)][..0] == [];
    assert MADE.argo[..0] == [] && MADE.versions[..0] == [];
  }

  lemma RelabelFailed()
    ensures var s := AfterEvents(EMPTY, RELABEL_FAILED);
      s.templates == [ROW] && |Latest(s.argo, "t")| == 2
  {
    hide AfterCreate, Latest;
    Made();
    assert RELABEL_FAILED[..1] == [First(1)];
    FailureLeavesDatabase(MADE, "t", "", 2, Some(UpdateArgo));
  }

  lemma HalfArchived()
    ensures var s := AfterEvents(EMPTY, HALF_ARCHIVED);
      s.templates == [ROW] && Latest(s.argo, "t") == []
  {
    hide Archivable, Latest, Kept, ArgoVersions, Versions;
    Made();
    assert HALF_ARCHIVED[..1] == [First(1)];
    OneVersion({1});
    assert {1} - Archiving.Firsts([1], 1) == {};
    KeptLatest(MADE.argo, "t", {}, "t");
  }

  lemma OneVersion(argo: set<nat>)
    requires 1 in argo
    ensures Archiving.FirstMissing([1], argo) == 1
    ensures argo - Archiving.Firsts([1], 1) == argo - {1}
  {
    Archiving.NoneMissingExactlyWhen([1], argo);
  }

  const UNCOMMITTED: Store := MADE.(argo := [ArgoTemplate("t", 1, false), ArgoTemplate("t", 2, true)])
  const STRAY: Store := UNCOMMITTED.(argo := [ArgoTemplate("t", 2, true)], templates := [ROW.(archived := true)])

  lemma Uncommitted()
    ensures AfterEvent(MADE, Later(2, Commit)) == UNCOMMITTED
  {
    hide Latest;
    Made();
    assert Unlabel(WithNewArgo(MADE, "t", 2), "t", 1) == UNCOMMITTED.argo;
  }

  lemma TwoTemplates(a: ArgoTemplate, b: ArgoTemplate, uid: string)
    requires a.uid == b.uid == uid && !a.latest && b.latest && a.version != b.version
    ensures Latest([a, b], uid) == [b] && Kept([a, b], uid, {b.version}) == [b]
    ensures ArgoVersions([a, b], uid) == {a.version, b.version}
  {
    hide Latest, Kept;
    assert [a, b] == [a] + [b] && [a] == [] + [a];
    NoArgo(uid, {b.version});
    LatestSnoc([], a, uid);
    LatestSnoc([a], b, uid);
    KeptAppend([], a, uid, {b.version});
    KeptAppend([a], b, uid, {b.version});
    assert a in [a, b] && b in [a, b];
  }

  lemma NoArgo(uid: string, versions: set<nat>)
    ensures Latest([], uid) == [] && Kept([], uid, versions) == []
  {
  }

  lemma UncommittedArgo()
    ensures Latest(UNCOMMITTED.argo, "t") == [ArgoTemplate("t", 2, true)]
    ensures Kept(UNCOMMITTED.argo, "t", {2}) == STRAY.argo
    ensures ArgoVersions(UNCOMMITTED.argo, "t") == {1, 2}
  {
    hide Latest, Kept, ArgoVersions;
    TwoTemplates(ArgoTemplate("t", 1, false), ArgoTemplate("t", 2, true), "t");
  }

  lemma UncommittedArchivable()
    ensures Archivable(UNCOMMITTED, "t") && Versions(UNCOMMITTED, "t") == [1] && Cut(UNCOMMITTED, "t", 2) == 1
  {
    hide Latest, ArgoVersions;
    Made();
    UncommittedArgo();
    OneVersion({1, 2});
    assert UNCOMMITTED.versions[0].isLatest;
  }

  lemma ArchivedAround()
    ensures AfterEvent(UNCOMMITTED, Archive("t", 2)) == STRAY
  {
    hide Latest, Kept, ArgoVersions, Archivable, Versions, Cut;
    UncommittedArchivable();
    UncommittedArgo();
    OneVersion({1, 2});
    assert {1, 2} - {1} == {2};
    assert Archived([ROW], "t") == STRAY.templates;
  }

  lemma StrayLabel()
    ensures var s := AfterEvents(EMPTY, STRAY_LABEL);
      s.templates == [ROW.(archived := true), TemplateRow(2, "t", false)] && |Latest(s.argo, "t")| == 2
  {
    hide Archivable, Latest, AfterArchive, AfterCreate;
    Made();
    Uncommitted();
    ArchivedAround();
    var es := STRAY_LABEL;
    assert es[..3][..2] == es[..2] && es[..2][..1] == [First(1)];
    assert AfterEvents(EMPTY, es[..2]) == UNCOMMITTED;
    assert AfterEvents(EMPTY, es[..3]) == STRAY;
    LatestAppend(STRAY.argo, [ArgoTemplate("t", 3, true)], "t");
    LatestOne(ArgoTemplate("t", 2, true), "t");
    LatestOne(ArgoTemplate("t", 3, true), "t");
  }

  lemma {:induction false} KeysOverRuns(s: Store, es: seq<Event>)
    requires Keyed(s)
    ensures Keyed(AfterEvents(s, es))
  {
    hide Keyed, AfterEvent;
    if es != [] {
      KeysOverRuns(s, es[..|es| - 1]);
      EventKeepsKeys(AfterEvents(s, es[..|es| - 1]), es[|es| - 1]);
    }
  }

  // After each of them the template is live, and no call for it is ever accepted again.
  lemma StuckFromEmpty(before: seq<Event>, later: seq<Event>)
    requires before in {RELABEL_FAILED, HALF_ARCHIVED, STRAY_LABEL}
    ensures var s := AfterEvents(EMPTY, before);
      && FindTemplate(s.templates, "t") < |s.templates|
      && forall k :: 0 <= k < |later| && UidOf(later[k]) == "t" ==> !Takes(AfterEvents(s, later[..k]), later[k])
  {
    hide Latest, AfterEvents, Takes, Keyed;
    RelabelFailed();
    HalfArchived();
    StrayLabel();
    EmptyInOrder();
    KeysOverRuns(EMPTY, before);
    var s := AfterEvents(EMPTY, before);
    assert |Latest(s.argo, "t")| != 1;
    assert exists i :: 0 <= i < |s.templates| && s.templates[i].uid == "t" && !s.templates[i].archived by {
      var n := |s.templates| - 1;
      assert s.templates[n].uid == "t";
    }
    StuckForEver(s, later, "t");
  }
}
