/**
 * The kinds of failure the workflow engine reports. Every `throw` of
 * Services/WorkflowEngine.cs maps to exactly one of these; the message
 * text is not modelled, only which check failed.
 */
module Errors {

  /** Which structural rule a definition broke, one per distinct `throw` of the validator. */
  datatype Rule =
    | NoStates           // the state list is missing or empty
    | BlankStateId       // a state id is null, empty or whitespace
    | DuplicateStateId   // two states share an id
    | InitialCount       // not exactly one state is initial
    | BlankActionId      // an action id is null, empty or whitespace
    | DuplicateActionId  // two actions share an id
    | BlankToState       // an action's target is null, empty or whitespace
    | UnknownToState     // an action's target is not a state id
    | NoFromStates       // an action has no source state
    | UnknownFromState   // an action's source is not a state id

  /** The stored entity a lookup failed to find. */
  datatype Entity = DefinitionEntity | InstanceEntity | ActionEntity

  /** Why an action may not run from the instance's current state. */
  datatype IllegalReason = FromFinalState | NotASourceState

  /** A state that had to be present (and enabled) and was not. */
  datatype StateProblem = NoEnabledInitial | CurrentStateMissing | TargetMissing | TargetDisabled

  datatype Error =
    | InvalidInput
    | AlreadyExists(id: string)
    | ValidationError(rule: Rule)
    | NotFound(entity: Entity, id: string)
    | ActionDisabled(actionId: string)
    | IllegalTransition(reason: IllegalReason)
    | InvalidState(problem: StateProblem)
}
