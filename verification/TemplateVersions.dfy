/**
 Workflow templates and their versions, kept twice: rows in the database, written in a transaction,
 and Argo workflow templates, of which one carries the label that marks the latest version.
 */
module TemplateVersions {
  import opened Wrappers

  datatype TemplateRow = TemplateRow(id: nat, uid: string, archived: bool)
  datatype VersionRow = VersionRow(template: nat, version: nat, isLatest: bool, manifest: string)
  // its name in the cluster is <uid>-v<version>
  datatype ArgoTemplate = ArgoTemplate(uid: string, version: nat, latest: bool)

  datatype Store = Store(templates: seq<TemplateRow>, versions: seq<VersionRow>, argo: seq<ArgoTemplate>, nextId: nat)

  // The calls that can fail, in the order in which they are made.
  datatype Point =
    | Validate | Begin | SelectTemplate | InsertTemplate | MarkOutdated | ParseManifest | InsertVersion
    | BuildArgo | ReadParameters | ListLatest | CreateArgo | UpdateArgo | UpdateLabels | Commit | CommitAndCleanUp

  // ----- the pieces

  // the index of the live template of that uid, or the length
  function FindTemplate(ts: seq<TemplateRow>, uid: string): (i: nat)
    ensures i <= |ts|
    ensures i < |ts| ==> ts[i].uid == uid && !ts[i].archived
    ensures forall j :: 0 <= j < i ==> ts[j].uid != uid || ts[j].archived
  {
    if ts == [] || (ts[0].uid == uid && !ts[0].archived) then 0
    else
      var i := 1 + FindTemplate(ts[1..], uid);
      assert forall j :: 0 < j < i ==> ts[j] == ts[1..][j - 1];
      i
  }

  lemma FindAppend(ts: seq<TemplateRow>, t: TemplateRow, uid: string)
    ensures var i := FindTemplate(ts, uid);
      FindTemplate(ts + [t], uid) == if i < |ts| || (t.uid == uid && !t.archived) then i else i + 1
  {
    var i, j, all := FindTemplate(ts, uid), FindTemplate(ts + [t], uid), ts + [t];
    assert forall k :: 0 <= k < |ts| ==> all[k] == ts[k];
    assert all[|ts|] == t;
  }

  function Outdated(vs: seq<VersionRow>, template: nat): (r: seq<VersionRow>)
    ensures |r| == |vs|
    ensures forall i :: 0 <= i < |vs| ==>
      r[i] == if vs[i].template == template then vs[i].(isLatest := false) else vs[i]
  {
    seq(|vs|, i requires 0 <= i < |vs| => if vs[i].template == template then vs[i].(isLatest := false) else vs[i])
  }

  // the Argo templates that the "latest" label selector lists
  function Latest(argo: seq<ArgoTemplate>, uid: string): seq<ArgoTemplate> {
    if argo == [] then []
    else
      var n := |argo| - 1;
      Latest(argo[..n], uid) + if argo[n].uid == uid && argo[n].latest then [argo[n]] else []
  }

  predicate NameTaken(argo: seq<ArgoTemplate>, uid: string, version: nat) {
    exists i :: 0 <= i < |argo| && argo[i].uid == uid && argo[i].version == version
  }

  // Update: the object of that name loses its label
  function Unlabel(argo: seq<ArgoTemplate>, uid: string, version: nat): (r: seq<ArgoTemplate>)
    ensures |r| == |argo|
    ensures forall i :: 0 <= i < |argo| ==>
      r[i] == if argo[i].uid == uid && argo[i].version == version then argo[i].(latest := false) else argo[i]
  {
    seq(|argo|, i requires 0 <= i < |argo| =>
      if argo[i].uid == uid && argo[i].version == version then argo[i].(latest := false) else argo[i])
  }

  // getArgoWorkflowTemplate for "latest"
  function GetLatest(argo: seq<ArgoTemplate>, uid: string): Outcome<ArgoTemplate> {
    var found := Latest(argo, uid);
    if |found| == 0 then Failed(UserError("not found"))
    else if |found| > 1 then Failed(UserError("not unique result"))
    else Ok(found[0])
  }

  // ----- CreateWorkflowTemplateVersion

  // Where the call stops, if it does.
  function StopsAt(s: Store, uid: string, now: nat, fault: Option<Point>): Option<Point> {
    if fault in {Some(Validate), Some(Begin), Some(SelectTemplate)} then fault
    else if FindTemplate(s.templates, uid) == |s.templates| then Some(SelectTemplate)
    else if fault in {Some(MarkOutdated), Some(ParseManifest), Some(InsertVersion), Some(BuildArgo),
      Some(ReadParameters), Some(ListLatest)} then fault
    else if GetLatest(s.argo, uid).Failed? then Some(ListLatest)
    else if fault == Some(CreateArgo) || NameTaken(s.argo, uid, now) then Some(CreateArgo)
    else if fault in {Some(UpdateArgo), Some(UpdateLabels), Some(Commit)} then fault
    else None
  }

  function WithNewArgo(s: Store, uid: string, now: nat): seq<ArgoTemplate> {
    s.argo + [ArgoTemplate(uid, now, true)]
  }

  function WithNewVersion(s: Store, template: nat, manifest: string, now: nat): seq<VersionRow> {
    Outdated(s.versions, template) + [VersionRow(template, now, true, manifest)]
  }

  // The store after the call: a transaction that is not committed leaves no trace, an Argo call does.
  function AfterCreate(s: Store, uid: string, manifest: string, now: nat, fault: Option<Point>): Store {
    match StopsAt(s, uid, now, fault)
    case Some(UpdateArgo) => s.(argo := WithNewArgo(s, uid, now))
    case Some(UpdateLabels) => s.(argo := Unlabel(WithNewArgo(s, uid, now), uid, GetLatest(s.argo, uid).value.version))
    case Some(Commit) => s.(argo := Unlabel(WithNewArgo(s, uid, now), uid, GetLatest(s.argo, uid).value.version))
    case Some(_) => s
    case None =>
      s.(argo := Unlabel(WithNewArgo(s, uid, now), uid, GetLatest(s.argo, uid).value.version),
         versions := WithNewVersion(s, s.templates[FindTemplate(s.templates, uid)].id, manifest, now))
  }

  class Registry {
    var templates: seq<TemplateRow>
    var versions: seq<VersionRow>
    var argo: seq<ArgoTemplate>
    var nextId: nat

    constructor ()
      ensures View() == Store([], [], [], 1)
    {
      templates, versions, argo, nextId := [], [], [], 1;
    }

    ghost function View(): Store
      reads this
    {
      Store(templates, versions, argo, nextId)
    }

    // `now` is the clock that numbers the version, `fault` the call that fails, if any.
    method CreateWorkflowTemplateVersion(uid: string, manifest: string, now: nat,
        fault: Option<Point>) returns (ok: bool)
      modifies this`versions, this`argo
      ensures ok <==> StopsAt(old(View()), uid, now, fault).None?
      ensures View() == AfterCreate(old(View()), uid, manifest, now, fault)
    {
      if fault == Some(Validate) || fault == Some(Begin) {
        return false;
      }
      var tx := versions;
      var i := FindTemplate(templates, uid);
      if fault == Some(SelectTemplate) || i == |templates| {
        return false;
      }
      var id := templates[i].id;
      if fault == Some(MarkOutdated) {
        return false;
      }
      tx := Outdated(tx, id);
      if fault == Some(ParseManifest) || fault == Some(InsertVersion) {
        return false;
      }
      tx := tx + [VersionRow(id, now, true, manifest)];
      if fault == Some(BuildArgo) || fault == Some(ReadParameters) || fault == Some(ListLatest) {
        return false;
      }
      var latest := GetLatest(argo, uid);
      if latest.Failed? {
        return false;
      }
      if fault == Some(CreateArgo) || NameTaken(argo, uid, now) {
        return false;
      }
      argo := argo + [ArgoTemplate(uid, now, true)];
      if fault == Some(UpdateArgo) {
        return false;
      }
      argo := Unlabel(argo, uid, latest.value.version);
      if fault == Some(UpdateLabels) || fault == Some(Commit) {
        return false;
      }
      versions := tx;
      return true;
    }

    // The first version: the Argo template is deleted again if the commit fails.
    method CreateWorkflowTemplate(uid: string, manifest: string, now: nat, fault: Option<Point>) returns (ok: bool)
      modifies this
      ensures ok <==> FirstStopsAt(old(View()), uid, now, fault).None?
      ensures View() == AfterFirst(old(View()), uid, manifest, now, fault)
    {
      if fault == Some(Validate) || fault == Some(Begin) {
        return false;
      }
      if fault == Some(InsertTemplate) || FindTemplate(templates, uid) < |templates| {
        return false;
      }
      var txTemplates := templates + [TemplateRow(nextId, uid, false)];
      if fault == Some(ParseManifest) || fault == Some(InsertVersion) {
        return false;
      }
      var txVersions := versions + [VersionRow(nextId, now, true, manifest)];
      if fault == Some(BuildArgo) || fault == Some(CreateArgo) || NameTaken(argo, uid, now) {
        return false;
      }
      argo := argo + [ArgoTemplate(uid, now, true)];
      if fault == Some(CommitAndCleanUp) {
        return false;
      }
      if fault == Some(Commit) {
        argo := argo[..|argo| - 1];
        return false;
      }
      templates, versions, nextId := txTemplates, txVersions, nextId + 1;
      return true;
    }
  }

  // ----- createWorkflowTemplate

  function FirstStopsAt(s: Store, uid: string, now: nat, fault: Option<Point>): Option<Point> {
    if fault in {Some(Validate), Some(Begin)} then fault
    else if fault == Some(InsertTemplate) || FindTemplate(s.templates, uid) < |s.templates| then Some(InsertTemplate)
    else if fault in {Some(ParseManifest), Some(InsertVersion), Some(BuildArgo)} then fault
    else if fault == Some(CreateArgo) || NameTaken(s.argo, uid, now) then Some(CreateArgo)
    else if fault in {Some(Commit), Some(CommitAndCleanUp)} then fault
    else None
  }

  function AfterFirst(s: Store, uid: string, manifest: string, now: nat, fault: Option<Point>): Store {
    match FirstStopsAt(s, uid, now, fault)
    case Some(CommitAndCleanUp) => s.(argo := WithNewArgo(s, uid, now))
    case Some(_) => s
    case None =>
      Store(s.templates + [TemplateRow(s.nextId, uid, false)],
            s.versions + [VersionRow(s.nextId, now, true, manifest)],
            WithNewArgo(s, uid, now),
            s.nextId + 1)
  }

  // ----- what the label selector sees

  lemma {:induction false} LatestAppend(a: seq<ArgoTemplate>, b: seq<ArgoTemplate>, uid: string)
    ensures Latest(a + b, uid) == Latest(a, uid) + Latest(b, uid)
  {
    if b == [] {
      assert a + b == a;
    } else {
      assert (a + b)[..|a + b| - 1] == a + b[..|b| - 1];
      LatestAppend(a, b[..|b| - 1], uid);
    }
  }

  lemma LatestOne(t: ArgoTemplate, uid: string)
    ensures Latest([t], uid) == if t.uid == uid && t.latest then [t] else []
  {
    assert [t][..0] == [];
  }

  lemma {:induction false} LatestMembers(argo: seq<ArgoTemplate>, uid: string)
    ensures forall t :: t in Latest(argo, uid) <==> t in argo && t.uid == uid && t.latest
  {
    if argo != [] {
      LatestMembers(argo[..|argo| - 1], uid);
      assert argo == argo[..|argo| - 1] + [argo[|argo| - 1]];
    }
  }

  // Names are unique in the cluster.
  ghost predicate UniqueNames(argo: seq<ArgoTemplate>) {
    forall i, j :: 0 <= i < j < |argo| ==> argo[i].uid != argo[j].uid || argo[i].version != argo[j].version
  }

  lemma {:induction false} UnlabelOther(argo: seq<ArgoTemplate>, uid: string, version: nat, other: string)
    requires forall t :: t in argo && t.uid == uid && t.version == version ==> t.uid != other || !t.latest
    ensures Latest(Unlabel(argo, uid, version), other) == Latest(argo, other)
  {
    if argo != [] {
      var n := |argo| - 1;
      UnlabelOther(argo[..n], uid, version, other);
      assert Unlabel(argo, uid, version)[..n] == Unlabel(argo[..n], uid, version);
      assert argo[n] in argo;
    }
  }

  // Taking the label from the only template that has it leaves none of that uid.
  lemma {:induction false} UnlabelOnly(argo: seq<ArgoTemplate>, uid: string, version: nat)
    requires forall t :: t in argo && t.uid == uid && t.latest ==> t.version == version
    ensures Latest(Unlabel(argo, uid, version), uid) == []
  {
    if argo != [] {
      var n := |argo| - 1;
      UnlabelOnly(argo[..n], uid, version);
      assert Unlabel(argo, uid, version)[..n] == Unlabel(argo[..n], uid, version);
      assert argo[n] in argo;
    }
  }

  lemma UnlabelAppend(a: seq<ArgoTemplate>, b: seq<ArgoTemplate>, uid: string, version: nat)
    ensures Unlabel(a + b, uid, version) == Unlabel(a, uid, version) + Unlabel(b, uid, version)
  {
  }

  // After the new template is created and the prior one unlabelled, the new one alone is latest.
  lemma LabelMoves(argo: seq<ArgoTemplate>, uid: string, now: nat)
    requires GetLatest(argo, uid).Ok? && !NameTaken(argo, uid, now)
    ensures var made := ArgoTemplate(uid, now, true);
      && Latest(argo + [made], uid) == Latest(argo, uid) + [made]
      && Latest(Unlabel(argo + [made], uid, GetLatest(argo, uid).value.version), uid) == [made]
  {
    var made := ArgoTemplate(uid, now, true);
    var prior := GetLatest(argo, uid).value;
    LatestMembers(argo, uid);
    assert prior in argo && prior.uid == uid by { assert prior in Latest(argo, uid); }
    assert prior.version != now;
    forall t | t in argo && t.uid == uid && t.latest
      ensures t.version == prior.version
    {
      assert t in Latest(argo, uid);
    }
    LatestAppend(argo, [made], uid);
    LatestOne(made, uid);
    UnlabelOnly(argo, uid, prior.version);
    UnlabelAppend(argo, [made], uid, prior.version);
    assert Unlabel([made], uid, prior.version) == [made];
    LatestAppend(Unlabel(argo, uid, prior.version), [made], uid);
  }

  // ----- main results

  // The one database row of template id that is marked latest, and its version.
  ghost predicate OneLatestRow(vs: seq<VersionRow>, id: nat, version: nat) {
    && (exists i :: 0 <= i < |vs| && vs[i].template == id && vs[i].isLatest && vs[i].version == version)
    && forall i, j :: 0 <= i < j < |vs| && vs[i].template == id && vs[j].template == id ==>
      !vs[i].isLatest || !vs[j].isLatest
  }

  // Database and cluster agree on the latest version.
  ghost predicate Agree(s: Store, uid: string, id: nat, version: nat) {
    && OneLatestRow(s.versions, id, version)
    && Latest(s.argo, uid) == [ArgoTemplate(uid, version, true)]
  }

  // The call succeeds exactly when nothing fails, the template exists, one Argo template carries
  // the label, and the clock has not produced this version before.
  lemma SucceedsExactlyWhen(s: Store, uid: string, now: nat, fault: Option<Point>)
    requires fault.None?
    ensures StopsAt(s, uid, now, fault).None? <==>
      FindTemplate(s.templates, uid) < |s.templates| && |Latest(s.argo, uid)| == 1 && !NameTaken(s.argo, uid, now)
  {
  }

  // Wherever it stops, the database is as before, and the cluster still has a latest template.
  lemma FailureLeavesDatabase(s: Store, uid: string, manifest: string, now: nat,
      fault: Option<Point>)
    requires StopsAt(s, uid, now, fault).Some?
    ensures var r := AfterCreate(s, uid, manifest, now, fault);
      && r.(argo := s.argo) == s
      && (Latest(s.argo, uid) != [] ==> Latest(r.argo, uid) != [])
      && |Latest(r.argo, uid)| == (if StopsAt(s, uid, now, fault) == Some(UpdateArgo) then 2
                                  else |Latest(s.argo, uid)|)
  {
    hide Latest;
    if StopsAt(s, uid, now, fault) in {Some(UpdateArgo), Some(UpdateLabels), Some(Commit)} {
      LabelMoves(s.argo, uid, now);
    }
  }

  // Database and cluster still agree after a call that stops, exactly when it stops before the new
  // Argo template is created or is refused there. After any of the three later points the cluster
  // has a latest version that the database does not know.
  lemma StopKeepsAgreementExactlyWhen(s: Store, uid: string, manifest: string, now: nat,
      fault: Option<Point>, id: nat, version: nat)
    requires StopsAt(s, uid, now, fault).Some? && Agree(s, uid, id, version)
    ensures Agree(AfterCreate(s, uid, manifest, now, fault), uid, id, version) <==>
      StopsAt(s, uid, now, fault) !in {Some(UpdateArgo), Some(UpdateLabels), Some(Commit)}
  {
    hide Latest, OneLatestRow;
    if StopsAt(s, uid, now, fault) in {Some(UpdateArgo), Some(UpdateLabels), Some(Commit)} {
      LabelMoves(s.argo, uid, now);
      LatestIsTaken(s.argo, uid, version);
    }
  }

  lemma LatestIsTaken(argo: seq<ArgoTemplate>, uid: string, version: nat)
    requires Latest(argo, uid) == [ArgoTemplate(uid, version, true)]
    ensures NameTaken(argo, uid, version)
  {
    LatestMembers(argo, uid);
    var t := ArgoTemplate(uid, version, true);
    assert t in Latest(argo, uid);
    var i :| 0 <= i < |argo| && argo[i] == t;
  }

  // A successful call always ends with database and cluster in agreement, even if earlier
  // failures had left them apart.
  lemma SuccessAgrees(s: Store, uid: string, manifest: string, now: nat, fault: Option<Point>)
    requires StopsAt(s, uid, now, fault).None?
    ensures var r := AfterCreate(s, uid, manifest, now, fault);
      && FindTemplate(s.templates, uid) < |s.templates|
      && Agree(r, uid, s.templates[FindTemplate(s.templates, uid)].id, now)
  {
    hide Latest;
    LabelMoves(s.argo, uid, now);
    var r := AfterCreate(s, uid, manifest, now, fault);
    var n := |s.versions|;
    assert r.versions[n] == VersionRow(s.templates[FindTemplate(s.templates, uid)].id, now, true, manifest);
  }

  // Rows of one template do not bear on the latest row of another.
  lemma OtherRowsKept(vs: seq<VersionRow>, row: VersionRow, id: nat, version: nat)
    requires row.template != id
    ensures OneLatestRow(vs + [row], id, version) <==> OneLatestRow(vs, id, version)
    ensures OneLatestRow(Outdated(vs, row.template) + [row], id, version) <==> OneLatestRow(vs, id, version)
  {
    var a, b := vs + [row], Outdated(vs, row.template) + [row];
    assert forall i :: 0 <= i < |vs| && vs[i].template == id ==> a[i] == vs[i] && b[i] == vs[i];
    assert forall i :: 0 <= i < |vs| ==> a[i].template == vs[i].template == b[i].template;
    if OneLatestRow(vs, id, version) {
      var k :| 0 <= k < |vs| && vs[k].template == id && vs[k].isLatest && vs[k].version == version;
      assert a[k] == b[k] == vs[k];
    }
  }

  // Other templates are not disturbed, wherever the call stops.
  lemma OthersUntouched(s: Store, uid: string, manifest: string, now: nat, fault: Option<Point>,
      other: string)
    requires UniqueNames(s.argo)
    requires other != uid
    ensures Latest(AfterCreate(s, uid, manifest, now, fault).argo, other) == Latest(s.argo, other)
  {
    hide Latest;
    var made := ArgoTemplate(uid, now, true);
    LatestAppend(s.argo, [made], other);
    LatestOne(made, other);
    if GetLatest(s.argo, uid).Ok? {
      UnlabelOther(s.argo + [made], uid, GetLatest(s.argo, uid).value.version, other);
    }
  }

  datatype Call = Call(manifest: string, now: nat, fault: Option<Point>)

  // a sequence of calls for one template
  function AfterAll(s: Store, uid: string, calls: seq<Call>): Store {
    if calls == [] then s
    else
      var c := calls[|calls| - 1];
      AfterCreate(AfterAll(s, uid, calls[..|calls| - 1]), uid, c.manifest, c.now, c.fault)
  }

  // Does call k of the sequence succeed?
  predicate Succeeds(s: Store, uid: string, calls: seq<Call>, k: nat)
    requires k < |calls|
  {
    StopsAt(AfterAll(s, uid, calls[..k]), uid, calls[k].now, calls[k].fault).None?
  }

  // If the update of the old Argo template fails once, two templates carry the label, and no
  // later call for the template can succeed, whatever happens to it.
  lemma {:induction false} TwoLatestAreForEver(s: Store, uid: string, calls: seq<Call>)
    requires |Latest(s.argo, uid)| == 2
    ensures |Latest(AfterAll(s, uid, calls).argo, uid)| == 2
    ensures forall k :: 0 <= k < |calls| ==> !Succeeds(s, uid, calls, k)
  {
    hide Latest;
    if calls != [] {
      var n := |calls| - 1;
      var c := calls[n];
      TwoLatestAreForEver(s, uid, calls[..n]);
      var t := AfterAll(s, uid, calls[..n]);
      FailureLeavesDatabase(t, uid, c.manifest, c.now, c.fault);
      forall k | 0 <= k < n
        ensures !Succeeds(s, uid, calls, k)
      {
        assert calls[..n][..k] == calls[..k];
        assert !Succeeds(s, uid, calls[..n], k);
      }
    }
  }

  // Over any sequence of calls in which that update does not fail, exactly one Argo template stays
  // latest, and whenever the last call succeeded, database and cluster agree on its version.
  lemma {:induction false} OneLatestOverRuns(s: Store, uid: string, calls: seq<Call>)
    requires |Latest(s.argo, uid)| == 1
    requires forall c :: c in calls ==> c.fault != Some(UpdateArgo)
    ensures AfterAll(s, uid, calls).templates == s.templates
    ensures |Latest(AfterAll(s, uid, calls).argo, uid)| == 1
    ensures calls != [] && Succeeds(s, uid, calls, |calls| - 1) ==>
      && FindTemplate(s.templates, uid) < |s.templates|
      && Agree(AfterAll(s, uid, calls), uid, s.templates[FindTemplate(s.templates, uid)].id, calls[|calls| - 1].now)
  {
    hide Latest, Agree;
    if calls != [] {
      var n := |calls| - 1;
      var c := calls[n];
      OneLatestOverRuns(s, uid, calls[..n]);
      var t := AfterAll(s, uid, calls[..n]);
      if StopsAt(t, uid, c.now, c.fault).Some? {
        FailureLeavesDatabase(t, uid, c.manifest, c.now, c.fault);
      } else {
        SuccessAgrees(t, uid, c.manifest, c.now, c.fault);
        AgreeHasOne(AfterAll(s, uid, calls), uid, s.templates[FindTemplate(s.templates, uid)].id, c.now);
      }
    }
  }

  lemma AgreeHasOne(s: Store, uid: string, id: nat, version: nat)
    requires Agree(s, uid, id, version)
    ensures |Latest(s.argo, uid)| == 1
  {
  }

  // Does version v of the template stem from the start state or from one of the calls?
  ghost predicate Known(s: Store, uid: string, calls: seq<Call>, v: nat) {
    (exists a :: a in s.argo && a.uid == uid && a.version == v) || exists c :: c in calls && c.now == v
  }

  lemma {:induction false} VersionsAreKnown(s: Store, uid: string, calls: seq<Call>)
    ensures forall a :: a in AfterAll(s, uid, calls).argo && a.uid == uid ==> Known(s, uid, calls, a.version)
  {
    hide Latest, StopsAt;
    if calls != [] {
      var n := |calls| - 1;
      VersionsAreKnown(s, uid, calls[..n]);
      var t := AfterAll(s, uid, calls[..n]);
      var r := AfterAll(s, uid, calls);
      forall a | a in r.argo && a.uid == uid
        ensures Known(s, uid, calls, a.version)
      {
        var i :| 0 <= i < |r.argo| && r.argo[i] == a;
        if i < |t.argo| {
          assert t.argo[i] in t.argo && t.argo[i].uid == uid && t.argo[i].version == a.version;
          assert Known(s, uid, calls[..n], a.version);
        } else {
          assert calls[n] in calls && calls[n].now == a.version;
        }
      }
    }
  }

  lemma LaterIsNew(s: Store, uid: string, calls: seq<Call>, now: nat)
    requires forall c :: c in calls ==> c.now < now
    requires forall a :: a in s.argo && a.uid == uid ==> a.version < now
    ensures !NameTaken(AfterAll(s, uid, calls).argo, uid, now)
  {
    hide AfterAll;
    VersionsAreKnown(s, uid, calls);
    var t := AfterAll(s, uid, calls);
    forall i | 0 <= i < |t.argo| && t.argo[i].uid == uid
      ensures t.argo[i].version != now
    {
      assert t.argo[i] in t.argo && Known(s, uid, calls, t.argo[i].version);
    }
  }

  // With a strictly increasing clock and no fault, every call of the sequence succeeds, so after
  // it database and cluster agree on the last version.
  lemma {:induction false} FaultlessRunsSucceed(s: Store, uid: string, calls: seq<Call>)
    requires |Latest(s.argo, uid)| == 1 && FindTemplate(s.templates, uid) < |s.templates|
    requires forall c :: c in calls ==> c.fault.None?
    requires forall i, j :: 0 <= i < j < |calls| ==> calls[i].now < calls[j].now
    requires forall t, c :: t in s.argo && t.uid == uid && c in calls ==> t.version < c.now
    ensures forall k :: 0 <= k < |calls| ==> Succeeds(s, uid, calls, k)
    ensures calls != [] ==>
      Agree(AfterAll(s, uid, calls), uid, s.templates[FindTemplate(s.templates, uid)].id, calls[|calls| - 1].now)
  {
    hide Latest, Agree, AfterAll, StopsAt, NameTaken;
    if calls != [] {
      var n := |calls| - 1;
      FaultlessRunsSucceed(s, uid, calls[..n]);
      OneLatestOverRuns(s, uid, calls[..n]);
      LaterIsNew(s, uid, calls[..n], calls[n].now);
      assert calls[n] in calls;
      SucceedsExactlyWhen(AfterAll(s, uid, calls[..n]), uid, calls[n].now, calls[n].fault);
      OneLatestOverRuns(s, uid, calls);
      forall k | 0 <= k < n
        ensures Succeeds(s, uid, calls, k)
      {
        assert calls[..n][..k] == calls[..k];
        assert Succeeds(s, uid, calls[..n], k);
      }
    }
  }

  // The first version of a new template puts both sides in agreement, exactly when no stray Argo
  // template of that uid still carries the label.
  lemma FirstVersionAgreesExactlyWhen(s: Store, uid: string, manifest: string, now: nat,
      fault: Option<Point>)
    requires FirstStopsAt(s, uid, now, fault).None?
    requires forall i :: 0 <= i < |s.versions| ==> s.versions[i].template < s.nextId
    ensures var r := AfterFirst(s, uid, manifest, now, fault);
      && FindTemplate(r.templates, uid) < |r.templates|
      && (Agree(r, uid, s.nextId, now) <==> Latest(s.argo, uid) == [])
  {
    hide Latest;
    var made := ArgoTemplate(uid, now, true);
    LatestAppend(s.argo, [made], uid);
    LatestOne(made, uid);
    var r := AfterFirst(s, uid, manifest, now, fault);
    var n := |s.versions|;
    assert r.versions[n] == VersionRow(s.nextId, now, true, manifest);
    forall i | 0 <= i < n
      ensures r.versions[i].template != s.nextId
    {
      assert r.versions[i] == s.versions[i] && s.versions[i] in s.versions;
    }
    assert r.templates[|s.templates|] == TemplateRow(s.nextId, uid, false);
  }

  // ----- runs over all templates

  datatype Request = FirstVersion(uid: string, call: Call) | NextVersion(uid: string, call: Call)

  function Stop(s: Store, r: Request): Option<Point> {
    if r.FirstVersion? then FirstStopsAt(s, r.uid, r.call.now, r.call.fault)
    else StopsAt(s, r.uid, r.call.now, r.call.fault)
  }

  function After(s: Store, r: Request): Store {
    if r.FirstVersion? then AfterFirst(s, r.uid, r.call.manifest, r.call.now, r.call.fault)
    else AfterCreate(s, r.uid, r.call.manifest, r.call.now, r.call.fault)
  }

  function AfterRun(s: Store, rs: seq<Request>): Store {
    if rs == [] then s else After(AfterRun(s, rs[..|rs| - 1]), rs[|rs| - 1])
  }

  // Argo names and row ids are unique, and so are the uids of live templates.
  ghost predicate Keyed(s: Store) {
    && UniqueNames(s.argo)
    && (forall i, j :: 0 <= i < j < |s.templates| ==> s.templates[i].id != s.templates[j].id)
    && (forall i :: 0 <= i < |s.templates| ==> s.templates[i].id < s.nextId)
    && (forall i :: 0 <= i < |s.versions| ==> s.versions[i].template < s.nextId)
    && forall i :: 0 <= i < |s.templates| && !s.templates[i].archived ==>
      FindTemplate(s.templates, s.templates[i].uid) == i
  }

  // Each live template has one latest row and one latest Argo template; a uid without a live
  // template has no latest Argo template.
  ghost predicate Tidy(s: Store) {
    Keyed(s) && forall uid :: SingleLatest(s, uid)
  }

  ghost predicate SingleLatest(s: Store, uid: string) {
    var i := FindTemplate(s.templates, uid);
    if i == |s.templates| then Latest(s.argo, uid) == []
    else |Latest(s.argo, uid)| == 1 && exists v :: OneLatestRow(s.versions, s.templates[i].id, v)
  }

  lemma NextVersionKeepsSingle(s: Store, r: Request, uid: string)
    requires r.NextVersion? && Stop(s, r) != Some(UpdateArgo)
    requires Tidy(s)
    ensures SingleLatest(After(s, r), uid)
  {
    hide Latest, OneLatestRow;
    var i := FindTemplate(s.templates, uid);
    var c := r.call;
    assert SingleLatest(s, uid);
    if Stop(s, r).Some? {
      if uid == r.uid {
        FailureLeavesDatabase(s, uid, c.manifest, c.now, c.fault);
      } else {
        OthersUntouched(s, r.uid, c.manifest, c.now, c.fault, uid);
      }
    } else if uid == r.uid {
      SuccessAgrees(s, uid, c.manifest, c.now, c.fault);
    } else {
      OthersUntouched(s, r.uid, c.manifest, c.now, c.fault, uid);
      if i < |s.templates| {
        var j := FindTemplate(s.templates, r.uid);
        assert s.templates[i].id != s.templates[j].id;
        var v :| OneLatestRow(s.versions, s.templates[i].id, v);
        OtherRowsKept(s.versions, VersionRow(s.templates[j].id, c.now, true, c.manifest), s.templates[i].id, v);
      }
    }
  }

  lemma FirstVersionKeepsSingle(s: Store, r: Request, uid: string)
    requires r.FirstVersion? && Stop(s, r) != Some(CommitAndCleanUp)
    requires Tidy(s)
    ensures SingleLatest(After(s, r), uid)
  {
    hide Latest, OneLatestRow;
    var i := FindTemplate(s.templates, uid);
    var c := r.call;
    assert SingleLatest(s, uid);
    if Stop(s, r).None? {
      FindAppend(s.templates, TemplateRow(s.nextId, r.uid, false), uid);
      if uid == r.uid {
        FirstVersionAgreesExactlyWhen(s, uid, c.manifest, c.now, c.fault);
      } else {
        LatestAppend(s.argo, [ArgoTemplate(r.uid, c.now, true)], uid);
        LatestOne(ArgoTemplate(r.uid, c.now, true), uid);
        if i < |s.templates| {
          var v :| OneLatestRow(s.versions, s.templates[i].id, v);
          OtherRowsKept(s.versions, VersionRow(s.nextId, c.now, true, c.manifest), s.templates[i].id, v);
        }
      }
    }
  }

  lemma RequestKeepsTidy(s: Store, r: Request)
    requires Tidy(s)
    requires Stop(s, r) !in {Some(UpdateArgo), Some(CommitAndCleanUp)}
    ensures Tidy(After(s, r))
  {
    hide Keyed, SingleLatest, After;
    forall uid
      ensures SingleLatest(After(s, r), uid)
    {
      if r.FirstVersion? { FirstVersionKeepsSingle(s, r, uid); } else { NextVersionKeepsSingle(s, r, uid); }
    }
    if r.FirstVersion? { FirstVersionKeepsKeys(s, r); } else { NextVersionKeepsKeys(s, r); }
  }

  lemma FirstVersionKeepsKeys(s: Store, r: Request)
    requires Keyed(s) && r.FirstVersion?
    ensures Keyed(After(s, r))
  {
    hide Latest, UniqueNames, WithNewArgo;
    NamesStayUnique(s, r);
    var t := After(s, r);
    if Stop(s, r).None? {
      var row := TemplateRow(s.nextId, r.uid, false);
      forall i | 0 <= i < |t.templates| && !t.templates[i].archived
        ensures FindTemplate(t.templates, t.templates[i].uid) == i
      {
        FindAppend(s.templates, row, t.templates[i].uid);
      }
    }
  }

  lemma NextVersionKeepsKeys(s: Store, r: Request)
    requires Keyed(s) && r.NextVersion?
    ensures Keyed(After(s, r))
  {
    hide Latest, UniqueNames, WithNewArgo, Unlabel, GetLatest;
    NamesStayUnique(s, r);
  }

  lemma NamesStayUnique(s: Store, r: Request)
    requires UniqueNames(s.argo)
    ensures UniqueNames(After(s, r).argo)
  {
    hide Latest;
    var made := WithNewArgo(s, r.uid, r.call.now);
    if !NameTaken(s.argo, r.uid, r.call.now) {
      assert UniqueNames(made);
    }
  }

  // The invariant over every run: from an empty store, or any tidy one, whatever calls are made for
  // whatever templates and wherever they fail, save for the two points that leave a second or a
  // stray label behind.
  lemma {:induction false} TidyOverRuns(s: Store, rs: seq<Request>)
    requires Tidy(s)
    requires forall k :: 0 <= k < |rs| ==> rs[k].call.fault !in {Some(UpdateArgo), Some(CommitAndCleanUp)}
    ensures Tidy(AfterRun(s, rs))
  {
    hide Tidy, After;
    if rs != [] {
      var n := |rs| - 1;
      TidyOverRuns(s, rs[..n]);
      RequestKeepsTidy(AfterRun(s, rs[..n]), rs[n]);
    }
  }

  // If the last call that concerns a uid succeeded, database and cluster agree on its version,
  // whatever was done to other templates since.
  lemma {:induction false} AgreeOverRuns(s: Store, rs: seq<Request>, k: nat)
    requires Tidy(s) && k < |rs|
    requires forall i :: 0 <= i < |rs| ==> rs[i].call.fault !in {Some(UpdateArgo), Some(CommitAndCleanUp)}
    requires Stop(AfterRun(s, rs[..k]), rs[k]).None?
    requires forall i :: k < i < |rs| ==> rs[i].uid != rs[k].uid
    ensures var t := AfterRun(s, rs); var i := FindTemplate(t.templates, rs[k].uid);
      i < |t.templates| && Agree(t, rs[k].uid, t.templates[i].id, rs[k].call.now)
  {
    hide After, Agree, Stop, Keyed, SingleLatest;
    var n := |rs| - 1;
    TidyOverRuns(s, rs[..n]);
    var t := AfterRun(s, rs[..n]);
    if k == n {
      SuccessPutsInStep(t, rs[n]);
    } else {
      assert rs[..n][..k] == rs[..k];
      AgreeOverRuns(s, rs[..n], k);
      OthersStayInStep(t, rs[n], rs[k].uid, rs[k].call.now);
    }
  }

  const EMPTY: Store := Store([], [], [], 1)

  // So from the empty store on, without those two faults: single latest templates throughout, and
  // agreement on the version of the last successful call.
  lemma RunsFromEmpty(rs: seq<Request>, k: nat)
    requires k < |rs|
    requires forall i :: 0 <= i < |rs| ==> rs[i].call.fault !in {Some(UpdateArgo), Some(CommitAndCleanUp)}
    requires Stop(AfterRun(EMPTY, rs[..k]), rs[k]).None?
    requires forall i :: k < i < |rs| ==> rs[i].uid != rs[k].uid
    ensures Tidy(AfterRun(EMPTY, rs))
    ensures var t := AfterRun(EMPTY, rs); var i := FindTemplate(t.templates, rs[k].uid);
      i < |t.templates| && Agree(t, rs[k].uid, t.templates[i].id, rs[k].call.now)
  {
    hide AfterRun, Agree, Stop;
    assert Tidy(EMPTY);
    TidyOverRuns(EMPTY, rs);
    AgreeOverRuns(EMPTY, rs, k);
  }

  lemma SuccessPutsInStep(s: Store, r: Request)
    requires Tidy(s) && Stop(s, r).None?
    ensures var t := After(s, r); var i := FindTemplate(t.templates, r.uid);
      i < |t.templates| && Agree(t, r.uid, t.templates[i].id, r.call.now)
  {
    hide Latest, OneLatestRow;
    var c := r.call;
    if r.FirstVersion? {
      assert SingleLatest(s, r.uid);
      FirstVersionAgreesExactlyWhen(s, r.uid, c.manifest, c.now, c.fault);
    } else {
      SuccessAgrees(s, r.uid, c.manifest, c.now, c.fault);
    }
  }

  lemma {:induction false} OthersStayInStep(s: Store, r: Request, uid: string, version: nat)
    requires Keyed(s) && r.uid != uid
    requires FindTemplate(s.templates, uid) < |s.templates|
    requires Agree(s, uid, s.templates[FindTemplate(s.templates, uid)].id, version)
    ensures var t := After(s, r); var i := FindTemplate(t.templates, uid);
      i < |t.templates| && Agree(t, uid, t.templates[i].id, version)
  {
    hide Latest, OneLatestRow, GetLatest, UniqueNames;
    var c := r.call;
    var i, j := FindTemplate(s.templates, uid), FindTemplate(s.templates, r.uid);
    var id := s.templates[i].id;
    if r.FirstVersion? {
      LatestAppend(s.argo, [ArgoTemplate(r.uid, c.now, true)], uid);
      LatestOne(ArgoTemplate(r.uid, c.now, true), uid);
      FindAppend(s.templates, TemplateRow(s.nextId, r.uid, false), uid);
      OtherRowsKept(s.versions, VersionRow(s.nextId, c.now, true, c.manifest), id, version);
    } else {
      OthersUntouched(s, r.uid, c.manifest, c.now, c.fault, uid);
      if j < |s.templates| {
        assert id != s.templates[j].id;
        OtherRowsKept(s.versions, VersionRow(s.templates[j].id, c.now, true, c.manifest), id, version);
      }
    }
  }
}
