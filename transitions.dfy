/**
 * The legality rule of `ExecuteAction` (Services/WorkflowEngine.cs:75-97):
 * the checks that follow the instance and definition lookups, in their
 * order, as one function of the definition, the current state id and the
 * action id. Its result is the target state id, or the first check that
 * failed.
 */
module Transitions {
  import opened Wrappers
  import opened Models
  import opened Errors
  import opened Lookup
  import opened Validation

  /** Checks 3 to 9 of an action execution, in the order the engine makes them. */
  function Transition(def: WorkflowDefinition, currentStateId: string, actionId: string): (r: Result<string, Error>)
    requires def.actions.Some?
    ensures r.Ok? ==> r.value in StateIds(def.states)
    ensures r.Err? && r.error.NotFound? ==> r.error == NotFound(ActionEntity, actionId)
  {
    match FindAction(def.actions.value, actionId)
    case None => Err(NotFound(ActionEntity, actionId))
    case Some(action) =>
      if !action.enabled then Err(ActionDisabled(actionId))
      else
        match FindState(def.states, currentStateId)
        case None => Err(InvalidState(CurrentStateMissing))
        case Some(current) =>
          if current.isFinal then Err(IllegalTransition(FromFinalState))
          else if current.id !in action.fromStates then Err(IllegalTransition(NotASourceState))
          else
            match FindState(def.states, action.toState)
            case None => Err(InvalidState(TargetMissing))
            case Some(target) =>
              if !target.enabled then Err(InvalidState(TargetDisabled))
              else Ok(target.id)
  }

  /**
   * Action `i` may move an instance from state `c` to state `t`: the action
   * has the requested id and is enabled, state `c` is the current state and
   * is not final, it is one of the action's sources, and state `t` is the
   * action's target and is enabled.
   */
  ghost predicate LegalAt(def: WorkflowDefinition, currentStateId: string, actionId: string, i: int, c: int, t: int) {
    var states, actions := def.states, ActionsOf(def);
    && 0 <= i < |actions| && 0 <= c < |states| && 0 <= t < |states|
    && actions[i].id == actionId && actions[i].enabled
    && states[c].id == currentStateId && !states[c].isFinal
    && currentStateId in actions[i].fromStates
    && states[t].id == actions[i].toState && states[t].enabled
  }

  /** Whenever the checks pass, the move is legal and leads to the action's target. */
  lemma TransitionOkIsLegal(def: WorkflowDefinition, currentStateId: string, actionId: string)
    requires def.actions.Some?
    ensures Transition(def, currentStateId, actionId).Ok? ==>
              exists i, c, t :: LegalAt(def, currentStateId, actionId, i, c, t)
                                && Transition(def, currentStateId, actionId).value == def.states[t].id
  {
    var states, actions := def.states, def.actions.value;
    if Transition(def, currentStateId, actionId).Ok? {
      var action := FindAction(actions, actionId).value;
      var current := FindState(states, currentStateId).value;
      var tgt := FindState(states, action.toState).value;
      var i :| 0 <= i < |actions| && actions[i] == action;
      var c :| 0 <= c < |states| && states[c] == current;
      var t :| 0 <= t < |states| && states[t] == tgt;
      assert LegalAt(def, currentStateId, actionId, i, c, t);
    }
  }

  /** For a definition with unique ids, every legal move passes the checks and reaches its target. */
  lemma LegalTransitionIsOk(def: WorkflowDefinition, currentStateId: string, actionId: string, i: int, c: int, t: int)
    requires def.actions.Some?
    requires StateIdsUnique(def.states) && ActionIdsUnique(def.actions.value)
    requires LegalAt(def, currentStateId, actionId, i, c, t)
    ensures Transition(def, currentStateId, actionId) == Ok(def.states[t].id)
  {
    FindActionUnique(def.actions.value, i);
    FindStateUnique(def.states, c);
    FindStateUnique(def.states, t);
  }

  /** A final state is a sink: for a definition with unique state ids no action leaves it. */
  lemma FinalStateIsSink(def: WorkflowDefinition, c: nat, actionId: string)
    requires def.actions.Some?
    requires StateIdsUnique(def.states)
    requires c < |def.states| && def.states[c].isFinal
    ensures Transition(def, def.states[c].id, actionId).Err?
    ensures FindAction(def.actions.value, actionId).None? ==>
              Transition(def, def.states[c].id, actionId) == Err(NotFound(ActionEntity, actionId))
    ensures FindAction(def.actions.value, actionId).Some? && !FindAction(def.actions.value, actionId).value.enabled ==>
              Transition(def, def.states[c].id, actionId) == Err(ActionDisabled(actionId))
    ensures FindAction(def.actions.value, actionId).Some? && FindAction(def.actions.value, actionId).value.enabled ==>
              Transition(def, def.states[c].id, actionId) == Err(IllegalTransition(FromFinalState))
  {
    FindStateUnique(def.states, c);
  }

  /**
   * The defensive checks of `Transition` pass whenever the current state and
   * every action's target are found by id.
   */
  lemma DefensiveChecksPass(def: WorkflowDefinition, currentStateId: string, actionId: string)
    requires def.actions.Some?
    requires FindState(def.states, currentStateId).Some?
    requires forall a :: a in def.actions.value ==> FindState(def.states, a.toState).Some?
    ensures Transition(def, currentStateId, actionId) != Err(InvalidState(CurrentStateMissing))
    ensures Transition(def, currentStateId, actionId) != Err(InvalidState(TargetMissing))
  {
    match FindAction(def.actions.value, actionId)
    case None =>
    case Some(action) =>
      var i :| 0 <= i < |def.actions.value| && def.actions.value[i] == action;
      assert FindState(def.states, action.toState).Some?;
  }

  /**
   * On a definition that passed validation, from a state of that definition,
   * the defensive checks (current state missing, target missing) never fail.
   */
  lemma DefensiveChecksHold(def: WorkflowDefinition, currentStateId: string, actionId: string)
    requires def.actions.Some?
    requires ValidDefinition(def)
    requires currentStateId in StateIds(def.states)
    ensures Transition(def, currentStateId, actionId) != Err(InvalidState(CurrentStateMissing))
    ensures Transition(def, currentStateId, actionId) != Err(InvalidState(TargetMissing))
  {
    var c :| c in def.states && c.id == currentStateId;
    var k :| 0 <= k < |def.states| && def.states[k] == c;
    FindStatePresent(def.states, k);
    assert ActionsOf(def) == def.actions.value;
    DefensiveChecksPass(def, currentStateId, actionId);
  }
}
