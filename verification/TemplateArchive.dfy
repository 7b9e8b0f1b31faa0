/**
 Archiving a workflow template. For each version, a loop reads the first page of executions that are
 not archived yet and archives them, until the first page is empty.
 */
module TemplateArchive {
  // The template columns come from a join. The model's rows are in the order of the query.
  datatype Execution = Execution(uid: string, namespace: string, template: string, templateNamespace: string,
                                 version: nat, archived: bool)

  datatype Scope = Scope(namespace: string, template: string, version: nat)

  const PAGE_SIZE := 100

  predicate Selected(r: Execution, s: Scope) {
    !r.archived && r.templateNamespace == s.namespace && r.template == s.template && r.version == s.version
  }

  function Select(rows: seq<Execution>, s: Scope): seq<Execution> {
    if rows == [] then []
    else
      var n := |rows| - 1;
      Select(rows[..n], s) + if Selected(rows[n], s) then [rows[n]] else []
  }

  function FirstPage(rows: seq<Execution>, s: Scope): seq<Execution> {
    var all := Select(rows, s);
    if |all| <= PAGE_SIZE then all else all[..PAGE_SIZE]
  }

  function Uids(rows: seq<Execution>): set<string> {
    set r | r in rows :: r.uid
  }

  // the rows with these uids in that namespace are marked
  function Mark(rows: seq<Execution>, namespace: string, uids: set<string>): (r: seq<Execution>)
    ensures |r| == |rows|
    ensures forall i :: 0 <= i < |rows| ==>
      r[i] == if rows[i].namespace == namespace && rows[i].uid in uids then rows[i].(archived := true) else rows[i]
  {
    seq(|rows|, i requires 0 <= i < |rows| =>
      if rows[i].namespace == namespace && rows[i].uid in uids then rows[i].(archived := true) else rows[i])
  }

  // an execution of this version of the template
  predicate IsOf(r: Execution, s: Scope) {
    r.templateNamespace == s.namespace && r.template == s.template && r.version == s.version
  }

  predicate AllArchived(rows: seq<Execution>, s: Scope) {
    forall i :: 0 <= i < |rows| && IsOf(rows[i], s) ==> rows[i].archived
  }

  // Executions carry the namespace of their template.
  predicate Local(rows: seq<Execution>, s: Scope) {
    forall i :: 0 <= i < |rows| && Selected(rows[i], s) ==> rows[i].namespace == s.namespace
  }

  // Calls that may fail: the nth listing, the update of a row, the deletion of an Argo workflow.
  datatype Faults = Faults(list: nat -> bool, update: set<string>, delete: set<string>,
                           deleteTemplate: set<nat>, updateTemplate: bool)

  ghost predicate NoFaults(f: Faults) {
    && (forall n: nat :: !f.list(n))
    && f.update == {} && f.delete == {} && f.deleteTemplate == {} && !f.updateTemplate
  }

  class Archive {
    var executions: seq<Execution>
    // the versions of the template that have an Argo template
    var argo: set<nat>
    var templateArchived: bool

    constructor (executions: seq<Execution>, argo: set<nat>)
      ensures this.executions == executions && this.argo == argo && !templateArchived
    {
      this.executions, this.argo, templateArchived := executions, argo, false;
    }

    method ArchiveWorkflowExecution(namespace: string, uid: string, faults: Faults) returns (ok: bool)
      modifies this`executions
      ensures ok <==> uid !in faults.update && uid !in faults.delete
      ensures executions == Mark(old(executions), namespace, if uid in faults.update then {} else {uid})
    {
      if uid in faults.update {
        return false;
      }
      executions := Mark(executions, namespace, {uid});
      return uid !in faults.delete;
    }

    // On success the executions of the version are archived, all of them and nothing else; on
    // failure some of them are. It succeeds exactly when no call for one of them fails.
    method ArchiveVersion(scope: Scope, faults: Faults) returns (ok: bool, ghost done: set<string>)
      requires Local(executions, scope)
      modifies this`executions
      ensures executions == Mark(old(executions), scope.namespace, done)
      ensures done <= Uids(Select(old(executions), scope))
      ensures ok ==> done == Uids(Select(old(executions), scope)) && Select(executions, scope) == []
      ensures ok ==> AllArchived(executions, scope)
      ensures ok ==> done !! faults.update + faults.delete
      ensures !ok ==>
        (exists n: nat :: faults.list(n)) || !(Uids(Select(old(executions), scope)) !! faults.update + faults.delete)
    {
      hide Select, Mark, Uids, FirstPage;
      ghost var before := executions;
      done := {};
      var round := 0;
      MarkNone(before, scope.namespace);
      while true
        invariant executions == Mark(before, scope.namespace, done)
        invariant done <= Uids(Select(before, scope)) && done !! faults.update + faults.delete
        decreases |Select(executions, scope)|
      {
        ghost var start, doneBefore := executions, done;
        SelectAfterMark(before, scope, done);
        if faults.list(round) {
          return false, done;
        }
        var page := FirstPage(executions, scope);
        PageUids(executions, scope);
        if |page| == 0 {
          assert page == [] && Select(executions, scope) == [];
          AllDone(Uids(Select(before, scope)), done);
          NoneLeft(executions, scope);
          return true, done;
        }
        var i := 0;
        while i < |page|
          invariant 0 <= i <= |page|
          invariant executions == Mark(before, scope.namespace, done)
          invariant done == doneBefore + Uids(page[..i]) && done !! faults.update + faults.delete
        {
          PageSoFar(page, i);
          MarkTwice(before, scope.namespace, done, {page[i].uid});
          MarkNone(executions, scope.namespace);
          var archived := ArchiveWorkflowExecution(scope.namespace, page[i].uid, faults);
          if page[i].uid !in faults.update {
            done := done + {page[i].uid};
          }
          if !archived {
            return false, done;
          }
          i := i + 1;
        }
        assert page[..i] == page;
        MarkTwice(before, scope.namespace, doneBefore, Uids(page));
        StillLocal(before, scope, doneBefore);
        RoundShrinks(start, scope);
        round := round + 1;
      }
    }

    // Version by version: the Argo templates of the first `cut` versions are deleted. A version whose
    // Argo template is gone ends the call, with success and without a trace on the versions after it
    // or on the template.
    method ArchiveWorkflowTemplate(namespace: string, template: string, versions: seq<nat>, faults: Faults)
      returns (ok: bool, ghost done: set<string>, ghost cut: nat)
      requires forall v :: v in versions ==> Local(executions, Scope(namespace, template, v))
      modifies this
      ensures executions == Mark(old(executions), namespace, done)
      ensures forall u :: u in done ==>
        exists v :: v in versions && u in Uids(Select(old(executions), Scope(namespace, template, v)))
      ensures cut <= FirstMissing(versions, old(argo)) && argo == old(argo) - Firsts(versions, cut)
      ensures NoFaults(faults) ==> ok
      ensures !ok ==> templateArchived == old(templateArchived)
      ensures ok ==> var end := FirstMissing(versions, old(argo));
        && templateArchived == (old(templateArchived) || end == |versions|)
        && cut == end
        && forall k :: 0 <= k <= end && k < |versions| ==>
          Select(executions, Scope(namespace, template, versions[k])) == []
    {
      hide Select, Mark, Uids;
      ghost var before, argoBefore := executions, argo;
      done := {};
      MarkNone(before, namespace);
      var i := 0;
      while i < |versions|
        invariant 0 <= i <= |versions|
        invariant executions == Mark(before, namespace, done)
        invariant forall u :: u in done ==>
          exists v :: v in versions && u in Uids(Select(before, Scope(namespace, template, v)))
        invariant argo == argoBefore - Firsts(versions, i)
        invariant FirstMissing(versions, argoBefore) == i + FirstMissing(versions[i..], argo)
        invariant forall k :: 0 <= k < i ==> Select(executions, Scope(namespace, template, versions[k])) == []
        invariant templateArchived == old(templateArchived)
      {
        var scope := Scope(namespace, template, versions[i]);
        assert versions[i] in versions;
        StillLocal(before, scope, done);
        SelectAfterMark(before, scope, done);
        ghost var start := executions;
        var archived, more := ArchiveVersion(scope, faults);
        MarkTwice(before, namespace, done, more);
        done := done + more;
        if !archived {
          return false, done, i;
        }
        forall k | 0 <= k < i
          ensures Select(executions, Scope(namespace, template, versions[k])) == []
        {
          MarkShrinks(start, Scope(namespace, template, versions[k]), more);
        }
        if versions[i] in faults.deleteTemplate {
          return false, done, i;
        }
        if versions[i] !in argo {
          return true, done, i;
        }
        argo := argo - {versions[i]};
        assert versions[i..][1..] == versions[i + 1..];
        i := i + 1;
      }
      if faults.updateTemplate {
        return false, done, i;
      }
      templateArchived := true;
      return true, done, i;
    }
  }

  // The position of the first version that finds no Argo template to delete, or the length.
  function FirstMissing(versions: seq<nat>, argo: set<nat>): (n: nat)
    ensures n <= |versions|
  {
    if versions == [] || versions[0] !in argo then 0
    else 1 + FirstMissing(versions[1..], argo - {versions[0]})
  }

  function Firsts(versions: seq<nat>, n: nat): set<nat>
    requires n <= |versions|
  {
    set i | 0 <= i < n :: versions[i]
  }

  // So a successful call archives the template exactly when every version still has its Argo
  // template.
  lemma {:induction false} NoneMissingExactlyWhen(versions: seq<nat>, argo: set<nat>)
    ensures FirstMissing(versions, argo) == |versions| <==>
      && (forall i, j :: 0 <= i < j < |versions| ==> versions[i] != versions[j])
      && (forall i :: 0 <= i < |versions| ==> versions[i] in argo)
  {
    if versions != [] && versions[0] in argo {
      var rest := versions[1..];
      NoneMissingExactlyWhen(rest, argo - {versions[0]});
      if FirstMissing(versions, argo) == |versions| {
        forall i, j | 0 <= i < j < |versions|
          ensures versions[i] != versions[j]
        {
          assert versions[j] == rest[j - 1] && (i > 0 ==> versions[i] == rest[i - 1]);
        }
        forall i | 0 <= i < |versions|
          ensures versions[i] in argo
        {
          if i > 0 { assert versions[i] == rest[i - 1]; }
        }
      }
    }
  }

  // ----- about Select and Mark

  lemma {:induction false} SelectMembers(rows: seq<Execution>, s: Scope)
    ensures forall r :: r in Select(rows, s) <==> r in rows && Selected(r, s)
  {
    if rows != [] {
      var n := |rows| - 1;
      SelectMembers(rows[..n], s);
      assert rows == rows[..n] + [rows[n]];
    }
  }

  lemma NoneLeft(rows: seq<Execution>, s: Scope)
    requires Select(rows, s) == []
    ensures AllArchived(rows, s)
  {
    hide Select;
    SelectMembers(rows, s);
    forall i | 0 <= i < |rows| && IsOf(rows[i], s)
      ensures rows[i].archived
    {
      assert rows[i] in rows;
    }
  }

  lemma MarkNone(rows: seq<Execution>, namespace: string)
    ensures Mark(rows, namespace, {}) == rows
  {
  }

  lemma MarkTwice(rows: seq<Execution>, namespace: string, a: set<string>, b: set<string>)
    ensures Mark(Mark(rows, namespace, a), namespace, b) == Mark(rows, namespace, a + b)
  {
  }

  lemma StillLocal(rows: seq<Execution>, s: Scope, done: set<string>)
    requires Local(rows, s)
    ensures Local(Mark(rows, s.namespace, done), s)
  {
  }

  // What is still selected after marking are the rows of the other uids.
  lemma SelectAfterMark(rows: seq<Execution>, s: Scope, done: set<string>)
    requires Local(rows, s)
    ensures Uids(Select(Mark(rows, s.namespace, done), s)) == Uids(Select(rows, s)) - done
  {
    hide Select;
    var after := Mark(rows, s.namespace, done);
    SelectMembers(rows, s);
    SelectMembers(after, s);
    forall r | r in Select(rows, s) && r.uid !in done
      ensures r in Select(after, s)
    {
      var i :| 0 <= i < |rows| && rows[i] == r;
      assert after[i] == r;
    }
    forall r | r in Select(after, s)
      ensures r in Select(rows, s) && r.uid !in done
    {
      var i :| 0 <= i < |rows| && after[i] == r;
      assert rows[i] == r;
    }
  }

  lemma AllDone(all: set<string>, done: set<string>)
    requires done <= all && all - done == {}
    ensures done == all
  {
    assert forall u :: u in all && u !in done ==> u in all - done;
  }

  lemma PageUids(rows: seq<Execution>, s: Scope)
    ensures FirstPage(rows, s) == [] <==> Select(rows, s) == []
    ensures Uids(FirstPage(rows, s)) <= Uids(Select(rows, s))
    ensures Uids([]) == {} && forall r :: r in FirstPage(rows, s) ==> r.uid in Uids(FirstPage(rows, s))
    ensures FirstPage(rows, s)[..0] == []
  {
    hide Select;
  }

  lemma PageSoFar(page: seq<Execution>, i: nat)
    requires i < |page|
    ensures Uids(page[..i + 1]) == Uids(page[..i]) + {page[i].uid}
    ensures Uids(page[..i + 1]) <= Uids(page)
  {
    assert page[..i + 1] == page[..i] + [page[i]];
  }

  // ----- one round of the loop, and when the loop ends

  function Round(rows: seq<Execution>, s: Scope): seq<Execution> {
    Mark(rows, s.namespace, Uids(FirstPage(rows, s)))
  }

  // Marking selects no row anew, and deselects the rows it marks.
  lemma {:induction false} MarkShrinks(rows: seq<Execution>, s: Scope, uids: set<string>)
    ensures |Select(Mark(rows, s.namespace, uids), s)| <= |Select(rows, s)|
    ensures (exists i ::
        0 <= i < |rows| && Selected(rows[i], s) && rows[i].namespace == s.namespace && rows[i].uid in uids) ==>
      |Select(Mark(rows, s.namespace, uids), s)| < |Select(rows, s)|
  {
    if rows != [] {
      var n := |rows| - 1;
      MarkShrinks(rows[..n], s, uids);
      assert Mark(rows, s.namespace, uids)[..n] == Mark(rows[..n], s.namespace, uids);
      if i :| 0 <= i < n && Selected(rows[i], s) && rows[i].namespace == s.namespace && rows[i].uid in uids {
        assert rows[..n][i] == rows[i];
      }
    }
  }

  // A round on a non-empty page strictly lowers the number of executions that are not archived.
  lemma RoundShrinks(rows: seq<Execution>, s: Scope)
    requires Local(rows, s) && Select(rows, s) != []
    ensures |Select(Round(rows, s), s)| < |Select(rows, s)|
  {
    hide Select, Mark;
    SelectMembers(rows, s);
    var r := Select(rows, s)[0];
    assert r in Select(rows, s) && FirstPage(rows, s)[0] == r;
    var i :| 0 <= i < |rows| && rows[i] == r;
    MarkShrinks(rows, s, Uids(FirstPage(rows, s)));
  }

  function Rounds(rows: seq<Execution>, s: Scope, n: nat): seq<Execution>
    decreases n
  {
    if n == 0 then rows else Rounds(Round(rows, s), s, n - 1)
  }

  lemma {:induction false} EndsIfLocal(rows: seq<Execution>, s: Scope) returns (n: nat)
    requires Local(rows, s)
    ensures Select(Rounds(rows, s, n), s) == []
    decreases |Select(rows, s)|
  {
    if Select(rows, s) == [] {
      n := 0;
    } else {
      RoundShrinks(rows, s);
      StillLocal(rows, s, Uids(FirstPage(rows, s)));
      var m := EndsIfLocal(Round(rows, s), s);
      n := m + 1;
    }
  }

  lemma {:induction false} ForeignRowStays(rows: seq<Execution>, s: Scope, n: nat, i: nat)
    requires i < |rows| && Selected(rows[i], s) && rows[i].namespace != s.namespace
    ensures |Rounds(rows, s, n)| == |rows| && Rounds(rows, s, n)[i] == rows[i]
    decreases n
  {
    if n > 0 {
      ForeignRowStays(Round(rows, s), s, n - 1, i);
    }
  }

  // Without faults the loop ends exactly when the executions carry the template's namespace: the
  // listing filters by the namespace of the template, the update by that of the execution.
  lemma LoopEndsExactlyWhen(rows: seq<Execution>, s: Scope)
    ensures (exists n: nat :: Select(Rounds(rows, s, n), s) == []) <==> Local(rows, s)
  {
    if Local(rows, s) {
      var n := EndsIfLocal(rows, s);
    } else {
      var i :| 0 <= i < |rows| && Selected(rows[i], s) && rows[i].namespace != s.namespace;
      forall n: nat
        ensures Select(Rounds(rows, s, n), s) != []
      {
        ForeignRowStays(rows, s, n, i);
        SelectMembers(Rounds(rows, s, n), s);
        assert rows[i] in Rounds(rows, s, n);
      }
    }
  }

  // Nothing is ever un-archived, and only executions of the version are archived, given that
  // execution uids are unique.
  lemma OthersUntouched(rows: seq<Execution>, s: Scope, done: set<string>, i: nat)
    requires done <= Uids(Select(rows, s))
    requires forall a, b :: 0 <= a < b < |rows| ==> rows[a].uid != rows[b].uid
    requires i < |rows|
    ensures var after := Mark(rows, s.namespace, done);
      && (rows[i].archived ==> after[i] == rows[i])
      && (!IsOf(rows[i], s) ==> after[i] == rows[i])
      && after[i].(archived := rows[i].archived) == rows[i]
  {
    SelectMembers(rows, s);
    if rows[i].uid in done {
      var r :| r in Select(rows, s) && r.uid == rows[i].uid;
      var j :| 0 <= j < |rows| && rows[j] == r;
      assert j == i;
    }
  }
}
