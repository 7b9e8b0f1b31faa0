# Verification of Onepanel core

A Dafny 4.11 model of the parts of Onepanel core that are hard to get right by reading: the rewriting of
workflows before they reach Argo, the life of a workspace across database rows and asynchronous callbacks,
and the smaller protocols and list algorithms beside them. `dafny verify dfyconfig.toml` checks everything.

## What is modelled

**The rewriting of a workflow** (`createWorkflow`). A workflow is a heap object whose templates are values
and whose DAGs are shared objects, as in Go: a template copied into the new template order still shows every
later change of its DAG. `WorkflowExecution` holds the passes as methods; each is proved to compute a
function in `WorkflowPasses` that serves as its specification, `Workflow.Prepare` their composition. `EntryGraph`
and `ExitGraph` bring the two rewritten DAGs into closed form for any number of sidecars, `PreparedWorkflow` the
template list, and `WorkflowResults` states the results: well-formedness, preservation of meaning, bracketing.
`WorkflowSidecars` states in the words of the submitted workflow which sidecars are given access and why a
preparation fails.
`CronGraph` does the same for cron runs. The theory of dependency graphs they share is in `DependencyGraph`.

**The life of a workspace.** `WorkspaceDag` gives the compiled DAG a semantics as a state machine: any
interleaving of ready tasks, any outcome for each task and for each volume claim that is deleted.
`WorkspaceStore` models the table and the handlers as a class whose methods are proved against functions, and
`WorkspaceTable` proves what every handler keeps of the table. `WorkspaceProtocol` composes the two: requests,
any number of workflows in flight, each with its own DAG and state, and the callbacks they send. A step is one
request, one event of one workflow, one attempt of a set-phase task or an exit handler to call back, or the
handling of one attempt. The statements hold for every reachable state and every run. `WorkspaceReuse` asks what
the workflows of a deleted workspace can do to a later one of the same name, `WorkspaceRequests` what each request
brings about, and shows that no row reaches a phase nobody asked for.

**Versions, logs, archiving, volumes, annotations, metrics, parameters.** Each has a module: methods with the
loops of the source, the functions they compute, and the laws of these functions. `TemplateLifecycle` puts
versions and archiving together: runs of first versions, later versions and archive calls, failing anywhere.

Conventions. Errors and panics are results (`Outcome`, or the point where a call stops). Clocks, random
identifiers (`draws`) and calls that may fail (`fault`, `faults`) are parameters; every statement holds for all
of them. A dependency list is `Absent` (nil) or `Listed`, because the passes tell the two apart. A statement
whose name ends in `ExactlyWhen` gives the condition under which the source meets the property, both ways.

What is assumed of Argo: a task starts when all its dependencies are finished and each succeeded or was
skipped by its `When` guard; if one failed or was omitted, the task is omitted; a task with items succeeds if
all of them do. A workflow is well-formed if template names are unique, templates that tasks refer to exist,
task names are unique, and dependencies name tasks and form no cycle. The hypotheses on a submitted workflow are
those, an entry template that is a non-empty DAG, and that no user task or template carries an injected name.

What is assumed of curl, which sends the callbacks with `--retry 10 --retry-all-errors --fail`: at most eleven
attempts; each is handled at most once, at any later time, in any order, or never; it stops when it hears of an
accepted call, and only then does its task succeed. The reply to a handled attempt may get lost.

Some hypotheses always hold of what reaches the code, and the model shows why they matter. Argo's
validator rejects a DAG without tasks; without one, the first sidecar would close a cycle
(`AcyclicExactlyWhenEntryNotEmpty`). A workflow is taken from its JSON form, in which Argo leaves out an empty
dependency list, so that it arrives as nil; an explicitly empty list would not be rewired, and with none of these
every user task waits for the injected one (`StatusComesFirst`, `StatusAlwaysFirst`, `InitComesFirst`,
`InitAlwaysFirst`). Likewise the metrics that `AddWorkflowExecutionMetrics` merges come from two separate lists;
were one metric to come twice, a namesake in between could change its reading (`SeparateMetricsAreUnspoilt`,
`RepeatedMetricIsSpoilt`).

## Where the code does not do what one expects

- A cron entry DAG with two roots gets two tasks of the same name (`InitUniqueExactlyWhenOneRoot`,
  `CronWellFormedExactlyWhen`, `ForkedCronIsNotWellFormed`).
- The exit handler that the sidecar loop itself would create is lost from the returned list
  (`OwnHandlerWouldBeLost`); the pass before it prevents that (`NeverASecondExitHandler`).
- Callbacks address a workspace by name. A workspace that nobody deletes can be terminated if a workflow that was
  launched to delete an earlier one of its name can still report (`UndeletedDiesExactlyWhen`): not after one
  delete that was answered (`OneDeleteLeavesTheNameSafe`), but after two of which one is still running
  (`SecondDeleteHitsTheNextWorkspace`). Such a row is terminated without `terminated_at`, which only a recorded
  delete sets (`TerminatedAtExactlyWhen`).
- The comment on `mergeWorkspaceParameters` gives `override` a meaning; the branch writes to a loop copy, so
  the new value wins either way.
- A workflow gets a `sys-uid` that was stored or requested beside the injected one (`NoDuplicateExactlyWhen`,
  `LaunchNoDuplicateExactlyWhen`). A reader that takes the first match, as `GetParameterValue` does, sees the former
  (`ActionResolution`, `LaunchResolution`); one that keeps the last match, as the reader of the node pool does, the
  injected one (`ReadersAgreeExactlyWhen`).
- "Failed to resume" is handled by the retry but never stored (`TimesAlwaysFit`).
- If labelling the old Argo template fails, two templates stay labelled latest and no further version can be
  created (`TwoLatestAreForEver`). After a failure behind that point the cluster has a latest version that the
  database does not know (`StopKeepsAgreementExactlyWhen`); archived in this state, the template leaves a label behind
  that a new template of its name inherits (`RecreatedAgreesExactlyWhen`).
- An archive call that fails after its first deletion leaves a live template without a latest Argo template: it can
  neither get a version nor be archived any more, and its name stays in use (`StuckForEver`, `StuckFromEmpty`).
- `ArchiveWorkflowTemplate` reports success without archiving the template if one of its versions has no Argo
  template left (`NoneMissingExactlyWhen`).
- A parameter list that is empty makes `GetParametersKeyString` panic: it deletes an entry whose key is a map. One
  without named entries is stored as no annotations, and loading these leaves the list of the spec as it was
  (`RoundTripsExactlyWhen`, `StoreAndLoad`).
- The comment on `Metrics.Add` says existing metrics are left unchanged without override; it also appends a
  second metric of the name (`MergeWithoutOverrideAppends`).

## Model

| member | source | states |
|---|---|---|
| WorkflowExecution.Workflow.InjectFilesyncerSidecar | pkg/workflow_execution.go:1986-2016 | every container or script template with a file syncer sidecar gets the interactive marker and port, and nothing else changes |
| WorkflowExecution.Workflow.InjectStatusCaller | pkg/workflow_execution.go:2101-2136 | the in-place pass computes StatusPass, nil dereference included |
| WorkflowExecution.Workflow.InjectExitStats | pkg/workflow_execution.go:2018-2060 | the in-place pass computes ExitStatsPass: appends to the named exit DAG, or makes an exit handler when OnExit is empty |
| WorkflowExecution.Workflow.InjectInitStats | pkg/workflow_execution.go:2062-2099 | the in-place pass appends one init task for each root it meets |
| WorkflowExecution.Workflow.AddAccess | pkg/workflow_execution.go:619-848 | one turn of the sidecar loop: four templates, the create chain, the delete chain, or the error |
| WorkflowExecution.AttachToEntry | pkg/workflow_execution.go:751-782 | task 0 of every entry DAG waits for the new virtual service, whose chain hangs off sys-send-status; an empty DAG panics |
| WorkflowExecution.DeleteOnExit | pkg/workflow_execution.go:805-840 | the delete chain joins the exit DAG and the statistics task waits for it |
| WorkflowExecution.Workflow.InjectAccessForSidecars | pkg/workflow_execution.go:599-856 | the nested loops compute the run over all interactive sidecars, which InteractiveAreMarked identifies, and the returned order is the weave of templates and access templates, seen through shared DAG pointers |
| WorkflowExecution.WeaveView | pkg/workflow_execution.go:601-606 | a list of templates copied before later DAG mutations shows those mutations |
| WorkflowExecution.Workflow.Prepare | pkg/workflow_execution.go:549-569 | the passes in the order of createWorkflow compute WorkflowPasses.Prepare, or fail as it does |
| WorkflowExecution.Workflow.PrepareCron | pkg/cron_workflow.go:376-383 | the passes for a cron workflow compute WorkflowPasses.PrepareCron |
| WorkflowPasses.RunAppend | pkg/workflow_execution.go:608-619 | working through more sidecars continues from where the loop stands, so the pass is a fold over all interactive sidecars |
| WorkflowPasses.RunFailsEarly | pkg/workflow_execution.go:619-640 | an error at one sidecar is the error of the pass |
| WorkflowPasses.SidecarsBeforeAccess | pkg/workflow_execution.go:549-565 | only the file syncer pass changes which sidecars are interactive |
| WorkflowModel.TaskNamesInjective | pkg/workflow_execution.go:751-775 | task names made from distinct identifiers never coincide |
| WorkflowModel.TemplateNamesInjective | pkg/workflow_execution.go:671-749 | template names made from distinct identifiers never coincide |
| EntryGraph.EntryShape | pkg/workflow_execution.go:751-782 | status pass and any number of access steps in closed form: user tasks, sys-send-status, one chain for each sidecar |
| EntryGraph.EntryWellFormed | pkg/workflow_execution.go:751-782 | the rewritten entry DAG is acyclic, uniquely named and resolved |
| EntryGraph.EntryBracketed | pkg/workflow_execution.go:2119-2130 | every user task depends on sys-send-status if and only if no task but a rewired task 0 has an explicitly empty list |
| EntryGraph.EntrySchedules | pkg/workflow_execution.go:751-782 | schedules of the rewritten DAG restrict to schedules of the original, and every one of those arises so |
| EntryGraph.TaskZeroWaits | pkg/workflow_execution.go:755-780 | task 0 depends on the virtual service and the service of every sidecar |
| ExitGraph.ExitShape | pkg/workflow_execution.go:783-840 | statistics pass and any number of delete steps in closed form |
| ExitGraph.ExitWellFormed | pkg/workflow_execution.go:783-840 | the rewritten exit DAG is acyclic, uniquely named and resolved |
| ExitGraph.ExitBracketed | pkg/workflow_execution.go:810-840 | the statistics task depends on every delete of every sidecar |
| ExitGraph.ExitSchedules | pkg/workflow_execution.go:783-840 | schedules of the rewritten exit DAG restrict to schedules of the original, and every one of those arises so |
| PreparedWorkflow.RunRejects | pkg/workflow_execution.go:619-640 | the first interactive sidecar without a port is the one reported |
| PreparedWorkflow.WeavePosition | pkg/workflow_execution.go:601-606 | where each template and its access templates stand in the returned list |
| PreparedWorkflow.WeaveUnique | pkg/workflow_execution.go:696-749 | the returned list has no template name twice |
| PreparedWorkflow.PreparedByPasses | pkg/workflow_execution.go:549-569 | entry and exit DAG of the prepared workflow, found by name in the returned list, are the passes applied to the user's, also for an empty entry DAG |
| PreparedWorkflow.PreparedDags | pkg/workflow_execution.go:549-569 | and both in closed form when there is a task |
| WorkflowResults.PreparedIsWellFormed | pkg/workflow_execution.go:549-569 | every well-formed workflow is turned into a well-formed workflow, for any number of templates and sidecars |
| WorkflowResults.MeaningPreserved | pkg/workflow_execution.go:751-782 | between user tasks, transitive dependence is the same before and after, in the entry and the exit DAG |
| WorkflowResults.SchedulesPreserved | pkg/workflow_execution.go:549-569 | the orders in which the user's entry tasks, and the user's exit tasks, can run are the same before and after, both directions |
| WorkflowResults.StatusComesFirst | pkg/workflow_execution.go:2117-2131 | in the prepared workflow every user entry task waits for sys-send-status, with the exact condition |
| WorkflowResults.StatusAlwaysFirst | pkg/workflow_execution.go:2117-2131 | and so it does, without exception, when no dependency list is explicitly empty |
| WorkflowResults.AccessBracketsTheRun | pkg/workflow_execution.go:755-840 | for every sidecar: created before task 0 starts, deleted before the statistics are sent |
| WorkflowResults.CreatesMatchDeletes | pkg/workflow_execution.go:671-749 | the templates of the create and the delete tasks of a sidecar exist, with identical manifests |
| WorkflowResults.NothingElseAdded | pkg/workflow_execution.go:751-782 | the tasks of the prepared entry DAG are the user's, sys-send-status and two for each sidecar |
| WorkflowResults.TemplatesInOrder | pkg/workflow_execution.go:599-606 | the list has length n plus injected plus 4k; every user template stands in order behind four new templates for each of its sidecars, unchanged but for sidecars and DAG |
| WorkflowResults.MissingPortIsReported | pkg/workflow_execution.go:619-640 | a sidecar without a port fails the whole preparation with its name |
| WorkflowResults.AcyclicExactlyWhenEntryNotEmpty | pkg/workflow_execution.go:760-761 | the whole preparation of a workflow that may have an empty entry DAG succeeds, and its entry DAG is acyclic if and only if the user's has a task or there is no sidecar |
| WorkflowResults.SidecarLoopExit | pkg/workflow_execution.go:784-803 | the loop appends an exit handler exactly when OnExit is empty and there is a sidecar |
| WorkflowResults.NeverASecondExitHandler | pkg/workflow_execution.go:2038-2057 | createWorkflow never reaches that branch |
| WorkflowResults.OwnHandlerWouldBeLost | pkg/workflow_execution.go:784-855 | without the statistics pass, OnExit would name a template of the returned list only if one of that name existed before or no sidecar was there |
| WorkflowSidecars.InteractiveAreMarked | pkg/workflow_execution.go:605-611 | the sidecars of the run are those of all templates that carry ONEPANEL_INTERACTIVE_SIDECAR=true, in order and as often as they occur |
| WorkflowSidecars.AccessIsForMarked | pkg/workflow_execution.go:605-611 | in createWorkflow these are the user's marked sidecars, and the file syncer if some container or script mounts a volume |
| WorkflowSidecars.FailsExactlyWhen | pkg/workflow_execution.go:613-616 | the preparation of an accepted workflow fails if and only if a marked sidecar of the user's has no port |
| WorkflowSidecars.NilDagPanics | pkg/workflow_execution.go:2117-2131 | an entry template without a DAG, or an exit template without one, makes the preparation panic; a cron definition only the latter |
| WorkflowSidecars.TurnFailsExactlyWhen | pkg/workflow_execution.go:613-856 | one turn of the sidecar loop on any workflow: which of the three errors, or success |
| WorkflowSidecars.TurnOnExit | pkg/workflow_execution.go:784-840 | what a successful turn makes of OnExit and of the exit DAG, with and without a statistics task |
| WorkflowSidecars.SyncersExactlyWhen | pkg/workflow_execution.go:2005-2013 | a prepared template is the user's but for the two DAGs, with a file syncer behind its sidecars if and only if it mounts a volume |
| WorkflowSidecars.InjectedTasksSend | pkg/workflow_execution.go:2101-2136 | the status and the statistics task each call a template of their name that is a plain container |
| WorkflowSidecars.PlainWorkflow | pkg/workflow_execution.go:549-569 | without marked sidecars and volumes: success, whatever the ports; the templates are the user's and the two that send (and the exit handler), tasks without a dependency list wait for the status task, the exit DAG gains the statistics task |
| CronGraph.OneInitTaskPerRoot | pkg/workflow_execution.go:2076-2094 | as many init tasks as roots, in front of them the user's tasks |
| CronGraph.InitKeepsOrder | pkg/workflow_execution.go:2076-2094 | any number of roots: no cycle, everything resolved, dependence between user tasks unchanged |
| CronGraph.InitUniqueExactlyWhenOneRoot | pkg/workflow_execution.go:2076-2094 | task names stay unique if and only if there is at most one root |
| CronGraph.InitComesFirst | pkg/workflow_execution.go:2076-2094 | every user task depends on the init task if and only if no dependency list is explicitly empty |
| CronGraph.InitAlwaysFirst | pkg/workflow_execution.go:2076-2094 | and so it does when there is no such list |
| CronGraph.CronDags | pkg/cron_workflow.go:376-383 | both DAGs of the cron definition, found by name, for every well-formed workflow |
| CronGraph.CronWellFormedExactlyWhen | pkg/cron_workflow.go:376-383 | the whole definition is well formed, template names and references included, if and only if the entry DAG has at most one root |
| CronGraph.CronInWords | pkg/workflow_execution.go:2062-2099 | the definition task by task: one init task for each task without a dependency list, which now waits for it; both senders present; other templates untouched |
| CronGraph.ForkedCronIsNotWellFormed | pkg/cron_workflow.go:376-383 | a well-formed workflow of two independent tasks whose cron definition is not well formed |
| DependencyGraph.LayeringKeepsDependence | pkg/workflow_execution.go:751-782 | system tasks that depend only on system tasks add no dependence between user tasks |
| DependencyGraph.LayeringKeepsAcyclic | pkg/workflow_execution.go:751-782 | nor a cycle |
| DependencyGraph.AllDescend | pkg/workflow_execution.go:2117-2131 | in a finite acyclic DAG where every task reaches a system task or another user task, all reach the system task |
| WorkspaceDag.LifecycleWellOrdered | pkg/workspace_template.go:560-668 | the compiled DAG names each task once and lists dependencies first |
| WorkspaceDag.RunsAreConsistent | pkg/workspace_template.go:560-668 | what every interleaving keeps: who can have run, who is omitted, when claims are deleted |
| WorkspaceDag.SetPhaseSafety | pkg/workspace_template.go:560-668 | on every run only the set-phase task of the action runs, at most one of them, after its whole guarded chain succeeded, for a delete after every claim is deleted |
| WorkspaceDag.MayPostExactly | pkg/workspace_template.go:625-667 | the phases some schedule posts are exactly the one of the action |
| WorkspaceDag.CleanRunReports | pkg/workspace_template.go:560-668 | if every task succeeds, exactly the set-phase task of the action has succeeded at the end |
| WorkspaceDag.Progress | pkg/workspace_template.go:560-668 | no run is stuck before all tasks are finished |
| WorkspaceDag.RunsAreBounded | pkg/workspace_template.go:560-668 | no run is longer than a bound fixed by the tasks and claims |
| WorkspaceDag.PostExecutionComesLast | pkg/workspace_template.go:779-789 | the user's post-execution task starts only after the phase is reported |
| WorkspaceDag.RunsExactlyWhen | pkg/workspace_template.go:560-668 | on every run to the end a task runs if and only if it belongs to the chain of the action and all before it in the chain succeeded; at any moment, only if they did |
| WorkspaceDag.CleanRunOutcome | pkg/workspace_template.go:560-668 | if every task succeeds, the tasks of the chain and the user's are done, all others skipped |
| WorkspaceDag.PostExecutionRunsExactlyWhen | pkg/workspace_template.go:779-789 | at the end the user's task has run if and only if the set-phase task of the action succeeded |
| WorkspaceDag.FailureBlocks | pkg/workspace_template.go:560-668 | once a task of the chain has failed, none behind it ever runs |
| WorkspaceDag.FailedDeletionBlocks | pkg/workspace_template.go:601-667 | once the deletion of a volume claim has failed, Terminated is not reported |
| WorkspaceDag.ClaimsAreKept | pkg/workspace_template.go:601-620 | no volume claim is touched but by a delete, after the stateful set and the workspace were deleted |
| WorkspaceStore.Service.GetWorkspace | pkg/workspace.go:602-635 | finds the live row of that name, None exactly if there is none |
| WorkspaceStore.Service.UpdateWorkspaceStatus | pkg/workspace.go:638-680 | the callback handler computes Callback: failure phases by the phase stored, nil dereference without a live row |
| WorkspaceStore.Service.UpdateWorkspace | pkg/workspace.go:777-878 | update, pause, resume, delete and archive compute Act, with the point of failure |
| WorkspaceStore.Service.CreateWorkspace | pkg/workspace.go:492-547 | refuses a name in use, else inserts a Launching row and starts a workflow |
| WorkspaceStore.Service.StartWorkspace | pkg/workspace.go:550-598 | writes by id without a phase filter and starts a workflow |
| WorkspaceStore.Service.RetryLastWorkspaceAction | server/workspace_server.go:368-426 | dispatches on the stored phase to the action that failed |
| WorkspaceStore.HandedSteers | pkg/workspace.go:855-878 | whatever is stored or requested, the launched workflow finds the action, the resource action and the host of its operation; its guards read the action |
| WorkspaceStore.RetrySteers | server/workspace_server.go:380-423 | a retry hands its workflow what the failed operation did |
| WorkspaceDag.BeginsClean | pkg/workspace_template.go:560-668 | a set-phase task begins only while no task and no claim deletion has failed |
| WorkspaceProtocol.StepKeeps | pkg/workspace.go:128-144 | every step of the composed system keeps the invariant, changes at most one row and no terminated one |
| WorkspaceProtocol.RunKeeps | pkg/workspace.go:128-144 | and so does every run |
| WorkspaceProtocol.ReportedOnlyAfterChain | pkg/workspace_template.go:560-668 | in every reachable state a Running, Paused or Terminated row has a workflow launched for its namespace and uid that reports this phase and whose whole guarded chain succeeded |
| WorkspaceProtocol.SuccessWasHeard | pkg/workspace_template.go:755-789 | in every reachable state a set-phase task has succeeded, or the user's task behind it has begun, only if the workflow heard that its callback was accepted |
| WorkspaceProtocol.TerminatedOnlyByDelete | pkg/workspace_template.go:601-667 | in every reachable state a terminated row has a workflow launched to delete its namespace and uid whose whole guarded chain succeeded, with every claim deleted |
| WorkspaceProtocol.TerminatedIsFinal | pkg/workspace.go:128-144 | no later run changes a terminated row or clears terminated_at |
| WorkspaceProtocol.TimesAlwaysFit | pkg/workspace.go:103-125 | in every reachable row: never both started_at and paused_at, and what each phase says of them; never FailedToResume |
| WorkspaceProtocol.TerminatedAtExactlyWhen | pkg/workspace.go:117-121 | after every run a row, terminated or not, has terminated_at if and only if a delete request for it was recorded on the way |
| WorkspaceProtocol.UpdateSelectsOneRow | pkg/workspace.go:128-144 | in every reachable table a status update selects at most one row |
| WorkspaceProtocol.StepsTouchOneRow | pkg/workspace.go:472-479 | also the start that writes by id changes one row only |
| WorkspaceProtocol.RetryReturnsExactlyWhen | server/workspace_server.go:380-423 | failure callback and retry lead back to the phase before if and only if that phase was in progress |
| WorkspaceReuse.UndeletedDiesExactlyWhen | pkg/workspace.go:638-680 | a live workspace nobody deletes can still be terminated if and only if a delete workflow of an earlier one of its name has a Terminated callback under way, or can still send one: not answered, attempts left, set-phase task running or ahead with nothing failed |
| WorkspaceReuse.ReuseIsSafe | pkg/workflow_execution.go:1962-1984 | so it is safe when each of them was answered, or failed before its report, and none of their callbacks is under way |
| WorkspaceReuse.OneDeleteLeavesTheNameSafe | pkg/workspace.go:870-873 | a run: created, deleted once, answered, created again, and safe |
| WorkspaceReuse.SecondDeleteHitsTheNextWorkspace | pkg/workspace.go:870-873 | a run: deleted twice, the first answered, created again; and its continuation in which the second delete terminates the new row and leaves it without terminated_at |
| WorkspaceRequests.AcceptedAct | pkg/workspace.go:777-878 | update, pause, resume and delete: when accepted, which row changes and how, timestamps and stored parameters included, and which workflow is launched, whose reported phase fits the phase written; what a rejected one leaves |
| WorkspaceRequests.AcceptedRetry | server/workspace_server.go:368-426 | the same of a retry, by the failure that is stored |
| WorkspaceRequests.AcceptedCreate | pkg/workspace.go:492-547 | the same of a create, whose row is new |
| WorkspaceRequests.StartRefusedExactlyWhen | pkg/workspace.go:550-554 | a start is refused if and only if the workspace exists and its launch has not failed |
| WorkspaceRequests.CallbackInWords | pkg/workspace.go:638-680 | every outcome of a callback: the phase stored, nothing else changed, the error without a live workspace |
| WorkspaceRequests.AcceptedCanSucceed | pkg/workspace.go:855-878 | from every reachable state an accepted request can be carried through: a run leads its row to Running, Paused or Terminated, as the request says |
| WorkspaceRequests.NothingUnasked | pkg/workspace.go:855-878 | over every run a row is Terminated only if a delete of its name was asked for, Paused only if a pause was, Running only if a create, resume or update was; no workflow is launched for an action nobody asked for |
| Parameters.MergeWorkspaceParameters | pkg/workspace.go:148-171 | computes Merge, whatever `override` says |
| Parameters.OverrideArguments | pkg/workflow_execution.go:486-505 | the merge of execution options into arguments is the same Merge; a nil value is dereferenced |
| Parameters.OverrideCronArguments | pkg/cron_workflow.go:351-371 | the same Merge for a cron workflow, whose outcome replaces the workflow's own arguments too |
| Parameters.PrepareParameters | pkg/workspace.go:791-803 | what updateWorkspace persists, the request over the stored, and what it passes on, in which the three system parameters have their values whatever was given |
| Parameters.LookupMerge | pkg/workspace.go:148-171 | a merged list answers with the new value, else with the existing one |
| Parameters.MergeAssociative | pkg/workspace.go:148-171 | merging three lists does not depend on the bracketing |
| Parameters.MergeIdempotent | pkg/workspace.go:148-171 | merging a list into itself changes nothing |
| Parameters.MergeDistinct | pkg/workspace.go:148-171 | distinct names stay distinct |
| Parameters.ActionResolution | pkg/workspace.go:777-852 | an action resolves system over request over stored over template default, but for sys-uid; no system parameter is persisted unless it was given |
| Parameters.NoDuplicateExactlyWhen | pkg/workspace.go:180-199 | the workflow gets each parameter once if and only if no sys-uid was stored or requested |
| Parameters.ReadersAgreeExactlyWhen | pkg/workspace.go:360-366 | a last-match reader always gets the injected sys-uid; a first-match reader agrees if and only if none was given, or the given one is the same |
| Parameters.PrepareLaunchParameters | pkg/workspace.go:510-527 | what CreateWorkspace stores and passes on, system parameters, with their values, before sys-uid; its sys-host error cannot occur |
| Parameters.LaunchResolution | pkg/workspace.go:558-578 | a launch resolves system over given over template default, but for sys-uid |
| Parameters.LaunchNoDuplicateExactlyWhen | pkg/workspace.go:515-522 | its workflow gets each parameter once if and only if no sys-uid was given |
| TemplateVersions.Registry.CreateWorkflowTemplateVersion | pkg/workflow_template.go:646-748 | the call in its steps, stopping at any failure: what transaction and cluster are left with |
| TemplateVersions.Registry.CreateWorkflowTemplate | pkg/workflow_template.go:214-286 | the first version, with the clean-up of the Argo template when the commit fails |
| TemplateVersions.FailureLeavesDatabase | pkg/workflow_template.go:646-748 | at every failure point the database is unchanged and a latest Argo template remains |
| TemplateVersions.StopKeepsAgreementExactlyWhen | pkg/workflow_template.go:719-744 | a stopped call leaves both sides in agreement if and only if it stops before the Argo template is created |
| TemplateVersions.SuccessAgrees | pkg/workflow_template.go:183-210 | after a success one row and one Argo template are latest, with the same version |
| TemplateVersions.OthersUntouched | pkg/workflow_template.go:1090-1115 | the labels of other templates are as before |
| TemplateVersions.TidyOverRuns | pkg/workflow_template.go:214-286 | over every run of first and later versions of any templates, with faults anywhere but at two points, each live template has one latest row and one latest Argo template |
| TemplateVersions.AgreeOverRuns | pkg/workflow_template.go:646-748 | and if the last call for a template succeeded, both carry its version |
| TemplateVersions.RunsFromEmpty | pkg/workflow_template.go:214-286 | both hold of every such run from the empty store |
| TemplateVersions.TwoLatestAreForEver | pkg/workflow_template.go:719-726 | once two Argo templates are latest, no later call succeeds and both stay |
| TemplateVersions.FaultlessRunsSucceed | pkg/workflow_template.go:646-748 | with a strictly increasing clock and no fault every call of a sequence succeeds and both sides agree on the last version |
| TemplateVersions.FirstVersionAgreesExactlyWhen | pkg/workflow_template.go:214-286 | the first version puts both sides in agreement if and only if no stray template of that uid is labelled latest |
| LogReader.Forward | pkg/workflow_execution.go:1442-1497 | the reader sends exactly the emitted lines, in non-empty chunks, for every sequence of reads; each entry shows its line, timestamp included |
| LogReader.NothingLost | pkg/workspace.go:934-989 | however the stream is cut: no newline in a line, the lines are the stream without newlines, one more than newlines and early sends |
| LogReader.EmittedIsSplitOfMarked | pkg/workflow_execution.go:1458-1485 | the lines are the split of the stream with a newline put in at each early send |
| LogReader.SplitsTheStreamExactlyWhen | pkg/workflow_execution.go:1474-1481 | the lines are the split of the stream if and only if after a read without newline the next one leaves no partial line |
| LogReader.ReceivedIsAllButTheBroken | pkg/workflow_execution.go:1449-1452 | only the data of a failing read is lost |
| LogReader.EntryKeepsTheLine | pkg/types.go:72-95 | the timestamp is what the parser makes of the first field of a line that is not empty; the content is the rest, or the line if there is no timestamp |
| TemplateArchive.Archive.ArchiveWorkflowExecution | pkg/workflow_execution.go:444-465 | marks the rows of that uid and namespace, even if the Argo deletion fails |
| TemplateArchive.Archive.ArchiveVersion | pkg/workflow_template.go:996-1021 | the re-reading loop ends, archives all executions of the version and nothing else, and fails only if a call fails |
| TemplateArchive.Archive.ArchiveWorkflowTemplate | pkg/workflow_template.go:990-1050 | which versions are cleared, and when the template itself is archived |
| TemplateArchive.NoneMissingExactlyWhen | pkg/workflow_template.go:1023-1029 | a successful call archives the template if and only if every version still had its Argo template |
| TemplateArchive.RoundShrinks | pkg/workflow_template.go:996-1021 | a round strictly lowers the number of unarchived executions |
| TemplateArchive.LoopEndsExactlyWhen | pkg/workflow_template.go:996-1021 | without faults the loop ends if and only if the executions carry the namespace of the template |
| TemplateArchive.OthersUntouched | pkg/workflow_execution.go:444-465 | nothing is un-archived and no other execution is archived |
| TemplateLifecycle.ArchiveWorkflowTemplate | pkg/workflow_template.go:940-1050 | the call on database and cluster: what is left at every point of failure; the row is marked only when all executions of all versions are archived |
| TemplateLifecycle.OrderKeptExactlyWhen | pkg/workflow_template.go:646-748 | a first version, later version or archive call leaves everything in order if and only if it does not fail once it has changed the cluster, or cleans up: for each live template both sides agree on the newest version and each version has its Argo template; else no label of the uid is left |
| TemplateLifecycle.OrderOverRuns | pkg/workflow_template.go:646-748 | so over every run of calls for any templates, both ways |
| TemplateLifecycle.OrderFromEmpty | pkg/workflow_template.go:214-286 | and for every run from the empty store |
| TemplateLifecycle.OrderlyArchivesExactlyWhen | pkg/workflow_template.go:990-1050 | in order, an archive call archives the template if and only if no call in it fails |
| TemplateLifecycle.ArchivingKeepsTidyExactlyWhen | pkg/workflow_template.go:1023-1038 | a call that archives the template leaves no label and keeps the store tidy if and only if the database knows the version labelled latest |
| TemplateLifecycle.RecreatedAgreesExactlyWhen | pkg/workflow_template.go:214-286 | only then does the first version of a new template of that name put both sides in agreement |
| TemplateLifecycle.StoredExactlyWhen | pkg/workflow_template.go:119-152 | over every run the database has a manifest under a version of a template if and only if a successful call gave it that manifest at that time |
| TemplateLifecycle.ArchiveAcceptedExactlyWhen | pkg/workflow_template.go:427-472 | an archive call is accepted if and only if a live template has a latest version in the database and one in the cluster; else nothing changes |
| TemplateLifecycle.StuckForEver | pkg/workflow_template.go:1105-1112 | a live template with no label, or more than one, stays so whatever is called for any template: no call for it is ever accepted |
| TemplateLifecycle.StuckFromEmpty | pkg/workflow_template.go:1023-1029 | three runs from the empty store that end there: relabelling fails, an archive call fails half-way, a name is used again after an uncommitted version |
| VolumeClaims.WorkspaceSpec.GenerateVolumeParameters | pkg/workspace_template.go:256-289 | the loop appends SizeParameters |
| VolumeClaims.WorkspaceSpec.CreateVolumeClaims | pkg/workspace_template.go:347-420 | the loop computes Claims and mounts the shared memory everywhere |
| VolumeClaims.WorkspaceSpec.ListDeleteItems | pkg/workspace_template.go:518-534 | the loop computes DeleteItems |
| VolumeClaims.Generate | pkg/workspace_template.go:933-990 | the three in their order, the third seeing the mounts added by the second |
| VolumeClaims.GeneratedParameters | pkg/workspace_template.go:256-289 | one parameter for each mounted, non-system volume that no claim template sizes |
| VolumeClaims.ClaimNames | pkg/workspace_template.go:347-412 | one claim for each claim template name and each other mounted, non-system volume |
| VolumeClaims.ClaimSizes | pkg/workspace_template.go:347-412 | the first claim template of a name decides on the size of its claim; any other claim takes the size parameter of its volume |
| VolumeClaims.ParameterPaths | pkg/workspace_template.go:256-289 | a size parameter is named after its volume and tells the path of its first mount |
| VolumeClaims.ParametersMatchClaimsExactlyWhen | pkg/workspace_template.go:256-412 | every generated parameter is used; every used one is generated if and only if each open claim template is mounted, non-system and not sized by a namesake |
| VolumeClaims.DeletesEveryClaimExactlyWhen | pkg/workspace_template.go:518-534 | the items are distinct, are the mounted volumes, and cover every claim if and only if every claim template is mounted |
| Annotations.GetParametersKeyString | pkg/workflow_template_types.go:80-135 | computes the map of name to YAML with order; an empty list panics |
| Annotations.Arguments.AddWorkflowTemplateParametersFromAnnotations | pkg/workflow_template_types.go:249-291 | for every order of visiting the map: each slot holds an annotation of its order, panics if and only if an order is no number |
| Annotations.RoundTripsExactlyWhen | pkg/workflow_template_types.go:249-291 | whatever the visiting order and the list found, what the decoder delivers is the encoded list if and only if entries are named, distinctly, and have no order of their own; or, when none is named, if and only if the list found was the right one |
| Annotations.StoreAndLoad | pkg/workflow_template.go:695-705 | encoder and decoder one after the other: fails if and only if the list is empty, else restores it if and only if that condition holds |
| Annotations.EncodedInWords | pkg/workflow_template_types.go:96-135 | what is stored under a name is the last entry of that name, with its place in the list as its order |
| Annotations.EncodedNeverPanics | pkg/workflow_template_types.go:122-132 | decoding what was encoded never panics |
| Metrics.Metrics.Add | pkg/types.go:179-194 | updates the shared metric objects in place or appends, aliasing allowed |
| Metrics.Metrics.Merge | pkg/types.go:199-203 | for any metrics, shared or repeated ones included: the list and what it shows, given what each input shows at its turn |
| Metrics.TurnsAreInitialExactlyWhen | pkg/types.go:179-203 | each input is read as it was at first if and only if none that is on the list at its turn has a different last namesake before it |
| Metrics.SeparateMetricsAreUnspoilt | pkg/types.go:179-203 | so it is for separately allocated metrics |
| Metrics.RepeatedMetricIsSpoilt | pkg/types.go:179-203 | and is not for a metric repeated after a namesake |
| Metrics.MergeOverrides | pkg/types.go:179-203 | entries stay in place, the last input of a name wins, others are as they were, new names are appended once |
| Metrics.MergeCovers | pkg/types.go:199-203 | the names afterwards are those of both |
| Metrics.MergeKeepsNamesDistinct | pkg/types.go:199-203 | distinct names stay distinct |
| Metrics.MergeWithoutOverrideAppends | pkg/types.go:179-203 | without override a merge is a concatenation |
| Metrics.PlainMergeAppends | pkg/types.go:199-203 | so the list a merge without override shows is what both showed at first, one after the other |

## Left out

- Kubernetes, Argo, Istio, S3 and GCS clients, SQL text and query building: a table of rows and a list of labelled templates stand for them.
- YAML and JSON, RFC 3339 parsing (section 5.6 of RFC 3339), placeholder substitution: abstract; only that encoding then decoding is the identity is used.
- Generation of UUIDs and UIDs: parameters. That a template's uid is the one its name generates is taken for granted.
- Labels, sidecar outputs, mirrored volume mounts and everything injectAutomatedFields adds: no effect on the graph.
- Argo's `depends` expressions: the model has dependency lists only, as the passes do.
- The state of a workflow after a failed pass: callers drop it.
- Authorization, namespaces' creation, inference services, files, configuration, statistics, pagination handlers.
- Interleaving inside one handler: a read followed by a write is one step.
- Phase strings a client makes up: callbacks are those the compiled DAG and its exit handler send. The exit handler may report Failed or Error of any workflow that is over, because Argo may fail one for reasons of its own.
- The system tasks that createWorkflow injects into a workspace's own workflow, and stopping, retrying or resubmitting that workflow through Argo.
- Workspace names, labels, hosts, node capture and modified_at.
- TemplateLifecycle.ArchiveWorkflowTemplate: that the versions come in the order of their creation stands for the order by created_at; the cron workflows archived before are not modelled.
- TemplateArchive.Archive.ArchiveWorkflowTemplate: the cron workflows archived before the versions are not modelled.
