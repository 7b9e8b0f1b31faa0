/** Workspace phases, actions and status, as pkg/workspace_types.go defines them. */
module WorkspaceTypes {
  // The last three are the workflow statuses Succeeded, Failed and Error: a callback may carry them,
  // and Failed and Error may end up stored.
  datatype Phase =
    | Launching | Running | Updating | Pausing | Paused | Terminating | Terminated
    | FailedToPause | FailedToResume | FailedToTerminate | FailedToLaunch | FailedToUpdate
    | WorkflowSucceeded | WorkflowFailed | WorkflowError

  // the values of sys-workspace-action
  datatype WorkspaceAction = Create | Update | Pause | Delete

  // the phase that a successful workflow for the action reports
  function PhaseFor(a: WorkspaceAction): Phase {
    match a
    case Create => Running
    case Update => Running
    case Pause => Paused
    case Delete => Terminated
  }
}
