/**
 * The end-to-end walk through a small document workflow: draft, review,
 * done. The definition passes validation, a new instance starts on `draft`,
 * `submit` and `approve` move it to `done` with two history entries, and
 * `submit` from the final state `done` is refused.
 */
module Scenario {
  import opened Wrappers
  import opened Models
  import opened Errors
  import opened Lookup
  import opened Validation
  import opened Transitions
  import opened Engine

  function Doc(): WorkflowDefinition {
    WorkflowDefinition("doc",
      [ State("draft", true, false, true),
        State("review", false, false, true),
        State("done", false, true, true) ],
      Some([ Action("submit", true, ["draft"], "review"),
             Action("approve", true, ["review"], "done") ]))
  }

  /** A word that starts with a lower-case letter is not blank. */
  lemma LowerWordNotBlank(s: string)
    requires |s| > 0 && 'a' <= s[0] <= 'z'
    ensures !Blank(s)
  {
    assert !IsWhiteSpace(s[0]);
  }

  lemma DocStatesValid()
    ensures StateIds(Doc().states) == {"draft", "review", "done"}
    ensures StateIdsNonBlank(Doc().states) && StateIdsUnique(Doc().states) && ExactlyOneInitial(Doc().states)
  {
    var states := Doc().states;
    LowerWordNotBlank(states[0].id);
    LowerWordNotBlank(states[1].id);
    LowerWordNotBlank(states[2].id);
    assert ExactlyOneInitial(states) by {
      forall j | 0 <= j < |states| && j != 0
        ensures !states[j].isInitial
      {
        assert j == 1 || j == 2;
      }
    }
  }

  lemma DocActionsValid()
    ensures ActionIdsUnique(ActionsOf(Doc()))
    ensures forall a :: a in ActionsOf(Doc()) ==> ActionWellFormed(a, {"draft", "review", "done"})
  {
    var actions := ActionsOf(Doc());
    LowerWordNotBlank(actions[0].id);
    LowerWordNotBlank(actions[1].id);
    LowerWordNotBlank(actions[0].toState);
    LowerWordNotBlank(actions[1].toState);
  }

  /** The document workflow breaks none of the validation rules. */
  lemma DocIsValid()
    ensures ValidDefinition(Doc())
  {
    DocStatesValid();
    DocActionsValid();
  }

  /** The moves of the walk, as the legality checks judge them. */
  lemma DocMoves()
    ensures FindEnabledInitial(Doc().states) == Some(Doc().states[0])
    ensures Transition(Doc(), "draft", "submit") == Ok("review")
    ensures Transition(Doc(), "review", "approve") == Ok("done")
    ensures Transition(Doc(), "done", "submit") == Err(IllegalTransition(FromFinalState))
    ensures Transition(Doc(), "done", "archive") == Err(NotFound(ActionEntity, "archive"))
  {
    var d := Doc();
    DocStatesValid();
    DocActionsValid();
    assert LegalAt(d, "draft", "submit", 0, 0, 1);
    LegalTransitionIsOk(d, "draft", "submit", 0, 0, 1);
    assert LegalAt(d, "review", "approve", 1, 1, 2);
    LegalTransitionIsOk(d, "review", "approve", 1, 1, 2);
    FinalStateIsSink(d, 2, "submit");
    FinalStateIsSink(d, 2, "archive");
  }

  /** A fresh engine holding the document workflow and one instance of it, on `draft`. */
  method StartDoc(instanceId: string) returns (engine: WorkflowEngine, i: WorkflowInstance)
    ensures fresh(engine) && fresh(i) && engine.Valid()
    ensures engine.defs == map["doc" := Doc()] && engine.inst == map[instanceId := i]
    ensures i.workflowDefinitionId == "doc" && i.currentStateId == "draft" && i.history == []
  {
    DocIsValid();
    DocMoves();
    LowerWordNotBlank("doc");
    engine := new WorkflowEngine();
    var created := engine.CreateDefinition(Doc());
    assert engine.defs == map["doc" := Doc()];
    var instance := engine.StartInstance("doc", instanceId);
    i := instance.value;
  }

  /** A store holding one instance is framed by that instance alone. */
  lemma OneInstance(m: map<string, WorkflowInstance>, k: string, i: WorkflowInstance)
    requires m == map[k := i]
    ensures m.Values == {i}
  {
    assert m[k] == i;
  }

  /**
   * One action run on an engine that holds definition `def` under `defId`
   * and the single instance `i` of it, from state `from`; `def` is expected
   * to lead from `from` to `to` by `actionId`.
   */
  method Move(engine: WorkflowEngine, defId: string, def: WorkflowDefinition, i: WorkflowInstance, instanceId: string,
              actionId: string, from: string, to: string, now: Timestamp)
    requires def.actions.Some? && Transition(def, from, actionId) == Ok(to)
    requires engine.Valid() && engine.defs == map[defId := def] && engine.inst == map[instanceId := i]
    requires i.workflowDefinitionId == defId && i.currentStateId == from
    modifies i
    ensures engine.Valid() && engine.defs == map[defId := def] && engine.inst == map[instanceId := i]
    ensures i.workflowDefinitionId == defId && i.currentStateId == to
    ensures i.history == old(i.history) + [HistoryEntry(actionId, now)]
  {
    OneInstance(engine.inst, instanceId, i);
    var moved := engine.ExecuteAction(instanceId, actionId, now);
  }

  /** The same, for an action that `def` refuses from state `from` with `error`. */
  method Refused(engine: WorkflowEngine, defId: string, def: WorkflowDefinition, i: WorkflowInstance, instanceId: string,
                 actionId: string, from: string, error: Error, now: Timestamp) returns (r: Outcome<Error>)
    requires def.actions.Some? && Transition(def, from, actionId) == Err(error)
    requires engine.Valid() && engine.defs == map[defId := def] && engine.inst == map[instanceId := i]
    requires i.workflowDefinitionId == defId && i.currentStateId == from
    modifies i
    ensures r == Fail(error)
    ensures i.currentStateId == from && i.history == old(i.history)
  {
    OneInstance(engine.inst, instanceId, i);
    r := engine.ExecuteAction(instanceId, actionId, now);
  }

  /**
   * The walk from `draft` on a definition that leads from `draft` to
   * `review` by `submit` and on to `done` by `approve`, and refuses `submit`
   * from `done`.
   */
  method Walk(engine: WorkflowEngine, def: WorkflowDefinition, i: WorkflowInstance, instanceId: string,
              t1: Timestamp, t2: Timestamp, t3: Timestamp)
    returns (afterSubmit: string, afterApprove: string, history: seq<HistoryEntry>, last: Outcome<Error>)
    requires def.actions.Some?
    requires Transition(def, "draft", "submit") == Ok("review")
    requires Transition(def, "review", "approve") == Ok("done")
    requires Transition(def, "done", "submit") == Err(IllegalTransition(FromFinalState))
    requires engine.Valid() && engine.defs == map["doc" := def] && engine.inst == map[instanceId := i]
    requires i.workflowDefinitionId == "doc" && i.currentStateId == "draft" && i.history == []
    modifies i
    ensures afterSubmit == "review" && afterApprove == "done"
    ensures history == [HistoryEntry("submit", t1), HistoryEntry("approve", t2)]
    ensures last == Fail(IllegalTransition(FromFinalState))
  {
    Move(engine, "doc", def, i, instanceId, "submit", "draft", "review", t1);
    afterSubmit := i.currentStateId;
    Move(engine, "doc", def, i, instanceId, "approve", "review", "done", t2);
    afterApprove := i.currentStateId;
    history := i.history;
    last := Refused(engine, "doc", def, i, instanceId, "submit", "done", IllegalTransition(FromFinalState), t3);
  }

  /**
   * Runs the walk on a fresh engine with instance id `instanceId` and the
   * clock readings `t1`..`t3`, and reports the states it passes through, the
   * final history and the outcome of the last, refused action.
   */
  method DocWalkthrough(instanceId: string, t1: Timestamp, t2: Timestamp, t3: Timestamp)
    returns (started: string, afterSubmit: string, afterApprove: string, history: seq<HistoryEntry>, last: Outcome<Error>)
    ensures started == "draft" && afterSubmit == "review" && afterApprove == "done"
    ensures history == [HistoryEntry("submit", t1), HistoryEntry("approve", t2)]
    ensures last == Fail(IllegalTransition(FromFinalState))
  {
    DocMoves();
    var engine, i := StartDoc(instanceId);
    started := i.currentStateId;
    afterSubmit, afterApprove, history, last := Walk(engine, Doc(), i, instanceId, t1, t2, t3);
  }
}
