/** The parameter merges of workspaces, workflow executions and cron workflows. */
module Parameters {
  import opened Wrappers

  // value is a pointer in the source and may be nil
  datatype Parameter = Parameter(name: string, value: Option<string>)

  predicate Has(ps: seq<Parameter>, name: string) {
    exists i :: 0 <= i < |ps| && ps[i].name == name
  }

  // GetParameterValue: the first parameter of that name
  function Lookup(ps: seq<Parameter>, name: string): Option<Option<string>> {
    if ps == [] then None
    else if ps[0].name == name then Some(ps[0].value)
    else Lookup(ps[1..], name)
  }

  // the parameters whose name is not among those of `taken`
  function Without(ps: seq<Parameter>, taken: seq<Parameter>): seq<Parameter> {
    if ps == [] then []
    else
      var n := |ps| - 1;
      Without(ps[..n], taken) + if Has(taken, ps[n].name) then [] else [ps[n]]
  }

  // All new parameters, then the existing ones they do not replace.
  function Merge(existing: seq<Parameter>, added: seq<Parameter>): seq<Parameter> {
    added + Without(existing, added)
  }

  ghost predicate DistinctNames(ps: seq<Parameter>) {
    forall i, j :: 0 <= i < j < |ps| ==> ps[i].name != ps[j].name
  }

  // mergeWorkspaceParameters. The branch for a parameter that is in both lists writes to a copy
  // made by the loop, so `override` and that branch have no effect: the new value always wins.
  method MergeWorkspaceParameters(existingParameters: seq<Parameter>, newParameters: seq<Parameter>, override: bool)
    returns (parameters: seq<Parameter>)
    ensures parameters == Merge(existingParameters, newParameters)
  {
    var parameterMap: map<string, Option<string>> := map[];
    parameters := [];
    var i := 0;
    while i < |newParameters|
      invariant 0 <= i <= |newParameters|
      invariant parameters == newParameters[..i]
      invariant forall name :: name in parameterMap <==> Has(newParameters[..i], name)
    {
      var p := newParameters[i];
      HasOneMore(newParameters, i);
      parameterMap := parameterMap[p.name := p.value];
      parameters := parameters + [Parameter(p.name, p.value)];
      i := i + 1;
    }
    assert newParameters[..i] == newParameters;
    i := 0;
    while i < |existingParameters|
      invariant 0 <= i <= |existingParameters|
      invariant parameters == newParameters + Without(existingParameters[..i], newParameters)
      invariant forall name :: name in parameterMap <==> Has(newParameters, name)
    {
      var p := existingParameters[i];
      assert existingParameters[..i + 1][..i] == existingParameters[..i];
      if p.name !in parameterMap {
        parameters := parameters + [Parameter(p.name, p.value)];
      } else {
        p := p.(value := parameterMap[p.name]);
      }
      i := i + 1;
    }
    assert existingParameters[..i] == existingParameters;
  }

  lemma HasOneMore(ps: seq<Parameter>, i: nat)
    requires i < |ps|
    ensures forall name :: Has(ps[..i + 1], name) <==> Has(ps[..i], name) || name == ps[i].name
  {
    assert ps[..i + 1] == ps[..i] + [ps[i]];
    forall name
      ensures Has(ps[..i + 1], name) <==> Has(ps[..i], name) || name == ps[i].name
    {
      HasAppend(ps[..i], [ps[i]], name);
      HasOne(ps[i], name);
    }
  }

  // The override of a workflow's arguments by the options of an execution. A nil value is dereferenced.
  method OverrideArguments(arguments: seq<Parameter>, options: seq<Parameter>) returns (r: Outcome<seq<Parameter>>)
    ensures r.Ok? <==> forall p :: p in options ==> p.value.Some?
    ensures r.Ok? ==> r.value == Merge(arguments, options)
    ensures r.Failed? ==> r.failure == NilDereference
  {
    if |options| == 0 {
      WithoutNothing(arguments);
      return Ok(arguments);
    }
    var newParams: seq<Parameter> := [];
    var passed: set<string> := {};
    var i := 0;
    while i < |options|
      invariant 0 <= i <= |options|
      invariant newParams == options[..i]
      invariant forall name :: name in passed <==> Has(options[..i], name)
      invariant forall p :: p in options[..i] ==> p.value.Some?
    {
      if options[i].value.None? {
        assert options[i] in options;
        return Failed(NilDereference);
      }
      HasOneMore(options, i);
      newParams := newParams + [options[i]];
      passed := passed + {options[i].name};
      i := i + 1;
    }
    assert options[..i] == options;
    i := 0;
    while i < |arguments|
      invariant 0 <= i <= |arguments|
      invariant newParams == options + Without(arguments[..i], options)
    {
      assert arguments[..i + 1][..i] == arguments[..i];
      if arguments[i].name !in passed {
        newParams := newParams + [arguments[i]];
      }
      i := i + 1;
    }
    assert arguments[..i] == arguments;
    return Ok(newParams);
  }

  // buildCronWorkflowDefinition repeats these loops on the arguments of the cron workflow, and then
  // gives the outcome to the workflow too, whose own arguments are dropped.
  method OverrideCronArguments(cron: seq<Parameter>, workflow: seq<Parameter>, options: seq<Parameter>)
    returns (r: Outcome<(seq<Parameter>, seq<Parameter>)>)
    ensures r.Ok? <==> forall p :: p in options ==> p.value.Some?
    ensures r.Ok? ==>
      r.value == if options == [] then (cron, workflow) else (Merge(cron, options), Merge(cron, options))
    ensures r.Failed? ==> r.failure == NilDereference
  {
    if |options| == 0 {
      return Ok((cron, workflow));
    }
    var merged := OverrideArguments(cron, options);
    if merged.Failed? {
      return Failed(merged.failure);
    }
    return Ok((merged.value, merged.value));
  }

  // ----- laws of the merge

  lemma {:induction false} WithoutNothing(ps: seq<Parameter>)
    ensures Without(ps, []) == ps
  {
    if ps != [] { WithoutNothing(ps[..|ps| - 1]); }
  }

  lemma HasAppend(ps: seq<Parameter>, qs: seq<Parameter>, name: string)
    ensures Has(ps + qs, name) <==> Has(ps, name) || Has(qs, name)
  {
    var r := ps + qs;
    if i :| 0 <= i < |ps| && ps[i].name == name { assert r[i].name == name; }
    if i :| 0 <= i < |qs| && qs[i].name == name { assert r[|ps| + i].name == name; }
    if i :| 0 <= i < |r| && r[i].name == name {
      if i < |ps| { assert ps[i].name == name; } else { assert qs[i - |ps|].name == name; }
    }
  }

  lemma {:induction false} HasWithout(ps: seq<Parameter>, taken: seq<Parameter>, name: string)
    ensures Has(Without(ps, taken), name) <==> Has(ps, name) && !Has(taken, name)
  {
    hide Has;
    if ps == [] {
      assert !Has([], name) by { HasNone(name); }
    } else {
      var n := |ps| - 1;
      HasWithout(ps[..n], taken, name);
      HasAppend(Without(ps[..n], taken), if Has(taken, ps[n].name) then [] else [ps[n]], name);
      HasAppend(ps[..n], [ps[n]], name);
      assert ps == ps[..n] + [ps[n]];
      HasOne(ps[n], name);
      HasNone(name);
    }
  }

  lemma HasNone(name: string)
    ensures !Has([], name)
  {
  }

  lemma HasOne(p: Parameter, name: string)
    ensures Has([p], name) <==> p.name == name
  {
    assert [p][0] == p;
  }

  lemma {:induction false} LookupAppend(ps: seq<Parameter>, qs: seq<Parameter>, name: string)
    ensures Lookup(ps + qs, name) == if Has(ps, name) then Lookup(ps, name) else Lookup(qs, name)
  {
    if ps == [] {
      assert ps + qs == qs;
    } else {
      assert (ps + qs)[1..] == ps[1..] + qs;
      LookupAppend(ps[1..], qs, name);
      if i :| 0 <= i < |ps| && ps[i].name == name {
        if i > 0 { assert ps[1..][i - 1].name == name; }
      }
      if i :| 0 <= i < |ps[1..]| && ps[1..][i].name == name { assert ps[i + 1].name == name; }
    }
  }

  lemma {:induction false} LookupNone(ps: seq<Parameter>, name: string)
    ensures Lookup(ps, name).None? <==> !Has(ps, name)
  {
    if ps != [] {
      LookupNone(ps[1..], name);
      if i :| 0 <= i < |ps| && ps[i].name == name {
        if i > 0 { assert ps[1..][i - 1].name == name; }
      }
      if i :| 0 <= i < |ps[1..]| && ps[1..][i].name == name { assert ps[i + 1].name == name; }
    }
  }

  lemma {:induction false} LookupWithout(ps: seq<Parameter>, taken: seq<Parameter>, name: string)
    requires !Has(taken, name)
    ensures Lookup(Without(ps, taken), name) == Lookup(ps, name)
  {
    hide Has;
    if ps != [] {
      var n := |ps| - 1;
      LookupWithout(ps[..n], taken, name);
      HasWithout(ps[..n], taken, name);
      var last := if Has(taken, ps[n].name) then [] else [ps[n]];
      LookupAppend(Without(ps[..n], taken), last, name);
      LookupAppend(ps[..n], [ps[n]], name);
      assert ps == ps[..n] + [ps[n]];
    }
  }

  // A merged list answers with the new value where there is one, else with the existing one.
  lemma LookupMerge(existing: seq<Parameter>, added: seq<Parameter>, name: string)
    ensures Lookup(Merge(existing, added), name) ==
      if Has(added, name) then Lookup(added, name) else Lookup(existing, name)
  {
    LookupAppend(added, Without(existing, added), name);
    if !Has(added, name) { LookupWithout(existing, added, name); }
  }

  lemma {:induction false} WithoutAppend(ps: seq<Parameter>, qs: seq<Parameter>, taken: seq<Parameter>)
    ensures Without(ps + qs, taken) == Without(ps, taken) + Without(qs, taken)
  {
    hide Has;
    if qs == [] {
      assert ps + qs == ps;
    } else {
      assert (ps + qs)[..|ps + qs| - 1] == ps + qs[..|qs| - 1];
      WithoutAppend(ps, qs[..|qs| - 1], taken);
    }
  }

  lemma {:induction false} WithoutTwice(ps: seq<Parameter>, a: seq<Parameter>, b: seq<Parameter>, both: seq<Parameter>)
    requires forall name :: Has(both, name) <==> Has(a, name) || Has(b, name)
    ensures Without(Without(ps, a), b) == Without(ps, both)
  {
    hide Has;
    if ps != [] {
      var n := |ps| - 1;
      WithoutTwice(ps[..n], a, b, both);
      WithoutAppend(Without(ps[..n], a), if Has(a, ps[n].name) then [] else [ps[n]], b);
    }
  }

  // The order in which three lists are merged does not matter.
  lemma MergeAssociative(a: seq<Parameter>, b: seq<Parameter>, c: seq<Parameter>)
    ensures Merge(Merge(a, b), c) == Merge(a, Merge(b, c))
  {
    hide Has;
    WithoutAppend(b, Without(a, b), c);
    forall name
      ensures Has(c + Without(b, c), name) <==> Has(b, name) || Has(c, name)
    {
      HasAppend(c, Without(b, c), name);
      HasWithout(b, c, name);
    }
    WithoutTwice(a, b, c, c + Without(b, c));
  }

  lemma {:induction false} WithoutSelf(ps: seq<Parameter>, taken: seq<Parameter>)
    requires forall p :: p in ps ==> Has(taken, p.name)
    ensures Without(ps, taken) == []
  {
    hide Has;
    if ps != [] { WithoutSelf(ps[..|ps| - 1], taken); }
  }

  // Merging stored parameters over themselves, as a retried update does, changes nothing.
  lemma MergeIdempotent(ps: seq<Parameter>)
    ensures Merge(ps, ps) == ps
  {
    WithoutSelf(ps, ps);
  }

  lemma {:induction false} WithoutDistinct(ps: seq<Parameter>, taken: seq<Parameter>)
    requires DistinctNames(ps)
    ensures DistinctNames(Without(ps, taken))
  {
    if ps != [] {
      var n := |ps| - 1;
      WithoutDistinct(ps[..n], taken);
      forall k | 0 <= k < n
        ensures ps[..n][k].name != ps[n].name
      {
        assert ps[..n][k] == ps[k];
      }
      HasWithout(ps[..n], taken, ps[n].name);
      var w := Without(ps[..n], taken);
      forall i | 0 <= i < |w|
        ensures w[i].name != ps[n].name
      {
        assert Has(w, w[i].name);
      }
    }
  }

  lemma MergeDistinct(existing: seq<Parameter>, added: seq<Parameter>)
    requires DistinctNames(existing) && DistinctNames(added)
    ensures DistinctNames(Merge(existing, added))
  {
    WithoutDistinct(existing, added);
    var w, r := Without(existing, added), Merge(existing, added);
    forall i, j | 0 <= i < j < |r|
      ensures r[i].name != r[j].name
    {
      if i < |added| <= j {
        assert r[j] == w[j - |added|];
        assert Has(w, r[j].name);
        HasWithout(existing, added, r[j].name);
        assert added[i].name == r[i].name;
      }
    }
  }

  // ----- the parameters of a workspace action

  const SYS_UID: string := "sys-uid"

  function SystemParameters(action: string, resourceAction: string, host: string): seq<Parameter> {
    [ Parameter("sys-workspace-action", Some(action)),
      Parameter("sys-resource-action", Some(resourceAction)),
      Parameter("sys-host", Some(host)) ]
  }

  // what updateWorkspace writes back to the row
  function Persisted(stored: seq<Parameter>, request: seq<Parameter>): seq<Parameter> {
    if request == [] then stored else Merge(stored, request)
  }

  // what updateWorkspace hands to the workflow: sys-uid is appended, then the system parameters are injected
  function ForWorkflow(stored: seq<Parameter>, request: seq<Parameter>, uid: string,
      system: seq<Parameter>): seq<Parameter> {
    Merge(Merge(stored, request) + [Parameter(SYS_UID, Some(uid))], system)
  }

  // What a workflow finds under the three names that its guards and manifests refer to.
  ghost predicate SystemValues(ps: seq<Parameter>, action: string, resourceAction: string, host: string) {
    && Lookup(ps, "sys-workspace-action") == Some(Some(action))
    && Lookup(ps, "sys-resource-action") == Some(Some(resourceAction))
    && Lookup(ps, "sys-host") == Some(Some(host))
  }

  // Values of the one list come before those of the other.
  ghost predicate Overlays(ps: seq<Parameter>, over: seq<Parameter>, under: seq<Parameter>) {
    forall name :: Lookup(ps, name) == if Lookup(over, name).Some? then Lookup(over, name) else Lookup(under, name)
  }

  lemma SystemParametersAreFound(action: string, resourceAction: string, host: string)
    ensures SystemValues(SystemParameters(action, resourceAction, host), action, resourceAction, host)
  {
    var system := SystemParameters(action, resourceAction, host);
    assert system[1..][1..] == [system[2]];
    LookupOne(system[2], "sys-host");
  }

  lemma MergeOverlays(existing: seq<Parameter>, added: seq<Parameter>)
    ensures Overlays(Merge(existing, added), added, existing)
  {
    hide Has, Merge, Lookup;
    forall name
      ensures Lookup(Merge(existing, added), name) ==
        if Lookup(added, name).Some? then Lookup(added, name) else Lookup(existing, name)
    {
      LookupMerge(existing, added, name);
      LookupNone(added, name);
    }
  }

  lemma PersistedOverlays(stored: seq<Parameter>, request: seq<Parameter>)
    ensures Overlays(Persisted(stored, request), request, stored)
  {
    hide Merge;
    MergeOverlays(stored, request);
  }

  // Injected values win over all others, whatever else is on the list.
  lemma InjectedValues(ps: seq<Parameter>, more: seq<Parameter>, action: string, resourceAction: string, host: string)
    ensures SystemValues(Merge(ps, SystemParameters(action, resourceAction, host)) + more, action, resourceAction, host)
  {
    hide Merge, Lookup, SystemParameters;
    var system := SystemParameters(action, resourceAction, host);
    SystemParametersAreFound(action, resourceAction, host);
    MergeOverlays(ps, system);
    LookupBefore(Merge(ps, system), more, "sys-workspace-action");
    LookupBefore(Merge(ps, system), more, "sys-resource-action");
    LookupBefore(Merge(ps, system), more, "sys-host");
  }

  lemma LookupBefore(ps: seq<Parameter>, more: seq<Parameter>, name: string)
    requires Lookup(ps, name).Some?
    ensures Lookup(ps + more, name) == Lookup(ps, name)
  {
    hide Lookup;
    LookupAppend(ps, more, name);
    LookupNone(ps, name);
  }

  method PrepareParameters(stored: seq<Parameter>, request: seq<Parameter>, uid: string, action: string,
      resourceAction: string, host: string)
    returns (persisted: seq<Parameter>, parameters: seq<Parameter>)
    ensures persisted == Persisted(stored, request)
    ensures parameters == ForWorkflow(stored, request, uid, SystemParameters(action, resourceAction, host))
    ensures Overlays(persisted, request, stored)
    ensures SystemValues(parameters, action, resourceAction, host)
  {
    PersistedOverlays(stored, request);
    InjectedValues(Merge(stored, request) + [Parameter(SYS_UID, Some(uid))], [], action, resourceAction, host);
    parameters := MergeWorkspaceParameters(stored, request, true);
    if |request| != 0 {
      persisted := parameters;
    } else {
      persisted := stored;
    }
    parameters := parameters + [Parameter(SYS_UID, Some(uid))];
    parameters := MergeWorkspaceParameters(parameters, SystemParameters(action, resourceAction, host), false);
    assert parameters + [] == parameters;
  }

  // For a reader that takes the first match: system before request before stored before the template's
  // own value, for every name but sys-uid, where the injected one answers only if neither the request
  // nor the row brought one.
  lemma ActionResolution(stored: seq<Parameter>, request: seq<Parameter>, template: seq<Parameter>,
      uid: string, system: seq<Parameter>, name: string)
    requires !Has(system, SYS_UID)
    ensures Lookup(Merge(template, ForWorkflow(stored, request, uid, system)), name) ==
      if Has(system, name) then Lookup(system, name)
      else if Has(request, name) then Lookup(request, name)
      else if Has(stored, name) then Lookup(stored, name)
      else if name == SYS_UID then Some(Some(uid))
      else Lookup(template, name)
  {
    hide Has, Merge, Lookup;
    var merged := Merge(stored, request);
    var own := merged + [Parameter(SYS_UID, Some(uid))];
    LookupMerge(template, Merge(own, system), name);
    LookupMerge(own, system, name);
    LookupAppend(merged, [Parameter(SYS_UID, Some(uid))], name);
    LookupMerge(stored, request, name);
    LookupNone(Merge(own, system), name);
    LookupNone(system, name);
    LookupNone(own, name);
    LookupNone(merged, name);
    LookupNone(stored, name);
    LookupNone(request, name);
    HasAppend(merged, [Parameter(SYS_UID, Some(uid))], name);
    LookupOne(Parameter(SYS_UID, Some(uid)), name);
  }

  lemma LookupOne(p: Parameter, name: string)
    ensures Lookup([p], name) == if p.name == name then Some(p.value) else None
    ensures Has([p], name) <==> p.name == name
  {
    HasOne(p, name);
  }

  // The workflow receives each parameter once exactly when no sys-uid was stored or requested.
  lemma NoDuplicateExactlyWhen(stored: seq<Parameter>, request: seq<Parameter>, uid: string,
      system: seq<Parameter>)
    requires DistinctNames(stored) && DistinctNames(request) && DistinctNames(system) && !Has(system, SYS_UID)
    ensures DistinctNames(ForWorkflow(stored, request, uid, system)) <==>
      !Has(stored, SYS_UID) && !Has(request, SYS_UID)
  {
    var merged := Merge(stored, request);
    var own := merged + [Parameter(SYS_UID, Some(uid))];
    MergeDistinct(stored, request);
    HasAppend(request, Without(stored, request), SYS_UID);
    HasWithout(stored, request, SYS_UID);
    if !Has(merged, SYS_UID) {
      assert DistinctNames(own) by {
        forall i | 0 <= i < |merged|
          ensures own[i].name != SYS_UID
        {
          assert merged[i].name != SYS_UID;
        }
      }
      MergeDistinct(own, system);
    } else {
      TwiceInOwn(merged, uid, system);
    }
  }

  lemma WithoutOne(p: Parameter, taken: seq<Parameter>)
    requires !Has(taken, p.name)
    ensures Without([p], taken) == [p]
  {
    assert [p][..0] == [];
  }

  lemma TwiceInOwn(merged: seq<Parameter>, uid: string, system: seq<Parameter>)
    requires Has(merged, SYS_UID) && !Has(system, SYS_UID)
    ensures !DistinctNames(Merge(merged + [Parameter(SYS_UID, Some(uid))], system))
  {
    var last := Parameter(SYS_UID, Some(uid));
    WithoutAppend(merged, [last], system);
    HasWithout(merged, system, SYS_UID);
    var w := Without(merged, system);
    WithoutOne(last, system);
    var i :| 0 <= i < |w| && w[i].name == SYS_UID;
    var r := Merge(merged + [last], system);
    assert r == system + (w + [last]);
    assert r[|system| + i].name == SYS_UID && r[|system| + |w|].name == SYS_UID;
  }

  // ----- two entries of one name, and who reads which

  // a reader that goes through the whole list and keeps the last match
  function LastMatch(ps: seq<Parameter>, name: string): Option<Option<string>> {
    if ps == [] then None
    else if ps[|ps| - 1].name == name then Some(ps[|ps| - 1].value)
    else LastMatch(ps[..|ps| - 1], name)
  }

  lemma LastMatchAppend(ps: seq<Parameter>, p: Parameter, name: string)
    ensures LastMatch(ps + [p], name) == if p.name == name then Some(p.value) else LastMatch(ps, name)
  {
    assert (ps + [p])[..|ps|] == ps;
  }

  // All entries of a name arrive, so first-match and last-match readers agree on sys-uid exactly when
  // none was stored or requested, or the one that answers first is the injected value anyway.
  lemma ReadersAgreeExactlyWhen(stored: seq<Parameter>, request: seq<Parameter>, uid: string,
      system: seq<Parameter>)
    requires !Has(system, SYS_UID)
    ensures var ps := ForWorkflow(stored, request, uid, system);
      var given := Merge(stored, request);
      && LastMatch(ps, SYS_UID) == Some(Some(uid))
      && (Lookup(ps, SYS_UID) == LastMatch(ps, SYS_UID) <==>
            !Has(given, SYS_UID) || Lookup(given, SYS_UID) == Some(Some(uid)))
  {
    hide Has, Merge, Lookup, Without;
    var given, injected := Merge(stored, request), Parameter(SYS_UID, Some(uid));
    var own := given + [injected];
    UidStaysLast(given, injected, system);
    LookupMerge(own, system, SYS_UID);
    LookupAppend(given, [injected], SYS_UID);
    LookupOne(injected, SYS_UID);
    LookupNone(given, SYS_UID);
  }

  lemma UidStaysLast(given: seq<Parameter>, injected: Parameter, system: seq<Parameter>)
    requires injected.name == SYS_UID && !Has(system, SYS_UID)
    ensures LastMatch(Merge(given + [injected], system), SYS_UID) == Some(injected.value)
  {
    hide Has, Without, LastMatch;
    WithoutAppend(given, [injected], system);
    WithoutOne(injected, system);
    assert Merge(given + [injected], system) == system + Without(given, system) + [injected];
    LastMatchAppend(system + Without(given, system), injected, SYS_UID);
  }

  // ----- CreateWorkspace and StartWorkspace

  // They inject the system parameters first and append sys-uid afterwards; what is stored are the
  // parameters as given.
  function ForLaunch(given: seq<Parameter>, uid: string, system: seq<Parameter>): seq<Parameter> {
    Merge(given, system) + [Parameter(SYS_UID, Some(uid))]
  }

  // The error for a missing sys-host cannot occur.
  method PrepareLaunchParameters(given: seq<Parameter>, uid: string, host: string)
    returns (r: Outcome<(seq<Parameter>, seq<Parameter>)>)
    ensures r == Ok((given, ForLaunch(given, uid, SystemParameters("create", "apply", host))))
    ensures r.Ok? && SystemValues(r.value.1, "create", "apply", host)
  {
    InjectedValues(given, [Parameter(SYS_UID, Some(uid))], "create", "apply", host);
    var system := SystemParameters("create", "apply", host);
    var parameters := MergeWorkspaceParameters(given, system, false);
    parameters := parameters + [Parameter(SYS_UID, Some(uid))];
    var sysHost := Lookup(parameters, "sys-host");
    if sysHost.None? || sysHost.value.None? {
      return Failed(UserError("sys-host parameter not found"));
    }
    return Ok((given, parameters));
  }

  // A launch resolves parameters as an action does, with only the given ones stored.
  lemma LaunchResolution(given: seq<Parameter>, template: seq<Parameter>, uid: string,
      system: seq<Parameter>, name: string)
    requires !Has(system, SYS_UID)
    ensures Lookup(Merge(template, ForLaunch(given, uid, system)), name) ==
      if Has(system, name) then Lookup(system, name)
      else if Has(given, name) then Lookup(given, name)
      else if name == SYS_UID then Some(Some(uid))
      else Lookup(template, name)
    ensures LastMatch(ForLaunch(given, uid, system), SYS_UID) == Some(Some(uid))
  {
    hide Has, Merge, Lookup;
    var merged, injected := Merge(given, system), Parameter(SYS_UID, Some(uid));
    LookupMerge(template, merged + [injected], name);
    LookupAppend(merged, [injected], name);
    LookupMerge(given, system, name);
    LookupOne(injected, name);
    HasAppend(merged, [injected], name);
    LookupNone(merged, name);
    LookupNone(given, name);
    LookupNone(system, name);
    LastMatchAppend(merged, injected, SYS_UID);
  }

  // And it receives each parameter once exactly when no sys-uid was given.
  lemma LaunchNoDuplicateExactlyWhen(given: seq<Parameter>, uid: string, system: seq<Parameter>)
    requires DistinctNames(given) && DistinctNames(system) && !Has(system, SYS_UID)
    ensures DistinctNames(ForLaunch(given, uid, system)) <==> !Has(given, SYS_UID)
  {
    hide Merge;
    var merged := Merge(given, system);
    MergeDistinct(given, system);
    HasMerge(given, system, SYS_UID);
    DistinctAppend(merged, Parameter(SYS_UID, Some(uid)));
  }

  lemma HasMerge(existing: seq<Parameter>, added: seq<Parameter>, name: string)
    ensures Has(Merge(existing, added), name) <==> Has(existing, name) || Has(added, name)
  {
    hide Has, Without;
    HasAppend(added, Without(existing, added), name);
    HasWithout(existing, added, name);
  }

  lemma DistinctAppend(ps: seq<Parameter>, p: Parameter)
    requires DistinctNames(ps)
    ensures DistinctNames(ps + [p]) <==> !Has(ps, p.name)
  {
    var r := ps + [p];
    if i :| 0 <= i < |ps| && ps[i].name == p.name {
      assert r[i].name == r[|ps|].name;
    }
  }
}
