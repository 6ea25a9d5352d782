/**
 * Structural validation of a workflow definition before it is stored
 * (`ValidateDefinition`, Services/WorkflowEngine.cs:105-156).
 *
 * `ValidDefinition` states the rules declaratively. `FirstViolation` is the
 * order in which the validator meets them: the states first, one by one,
 * then the initial-state count, then the actions one by one. The method
 * `ValidateDefinition` is the validator itself, proved to report exactly
 * `FirstViolation`, and `ValidIffNoViolation` ties the two views together.
 */
module Validation {
  import opened Wrappers
  import opened Models
  import opened Errors
  import opened Lookup

  /** A null action list reads as empty. */
  function ActionsOf(def: WorkflowDefinition): seq<Action> {
    if def.actions.Some? then def.actions.value else []
  }

  /** The definition as the validator leaves it: a null action list replaced by an empty one. */
  function Normalized(def: WorkflowDefinition): (r: WorkflowDefinition)
    ensures r.id == def.id && r.states == def.states && r.actions.Some?
    ensures def.actions.Some? ==> r == def
    ensures def.actions.None? ==> r.actions.value == []
  {
    def.(actions := Some(ActionsOf(def)))
  }

  // ---------------- the rules, stated declaratively ----------------

  ghost predicate StateIdsNonBlank(states: seq<State>) {
    forall i :: 0 <= i < |states| ==> !Blank(states[i].id)
  }

  ghost predicate StateIdsUnique(states: seq<State>) {
    forall i, j :: 0 <= i < j < |states| ==> states[i].id != states[j].id
  }

  ghost predicate ExactlyOneInitial(states: seq<State>) {
    exists k :: 0 <= k < |states| && states[k].isInitial
                && forall j :: 0 <= j < |states| && j != k ==> !states[j].isInitial
  }

  ghost predicate ActionIdsUnique(actions: seq<Action>) {
    forall i, j :: 0 <= i < j < |actions| ==> actions[i].id != actions[j].id
  }

  /** One action's own rules, against the set of state ids of its definition. */
  ghost predicate ActionWellFormed(a: Action, ids: set<string>) {
    && !Blank(a.id)
    && !Blank(a.toState)
    && a.toState in ids
    && |a.fromStates| > 0
    && forall f :: f in a.fromStates ==> f in ids
  }

  /**
   * The structural rules of a definition. A valid definition passes the
   * engine's `Count(s => s.IsInitial) == 1` test, and every action's target
   * is found by id among the states.
   */
  ghost function ValidDefinition(def: WorkflowDefinition): (b: bool)
    ensures b ==> CountInitial(def.states) == 1
    ensures b ==> forall a :: a in ActionsOf(def) ==> FindState(def.states, a.toState).Some?
  {
    CountInitialOneIff(def.states);
    && |def.states| > 0
    && StateIdsNonBlank(def.states)
    && StateIdsUnique(def.states)
    && ExactlyOneInitial(def.states)
    && ActionIdsUnique(ActionsOf(def))
    && forall a :: a in ActionsOf(def) ==> ActionWellFormed(a, StateIds(def.states))
  }

  /** What it means for `def` to break `rule`: the witness each error kind stands for. */
  ghost predicate Breaks(def: WorkflowDefinition, rule: Rule) {
    var states, actions, ids := def.states, ActionsOf(def), StateIds(def.states);
    match rule
    case NoStates => |states| == 0
    case BlankStateId => exists i :: 0 <= i < |states| && Blank(states[i].id)
    case DuplicateStateId => !StateIdsUnique(states)
    case InitialCount => !ExactlyOneInitial(states)
    case BlankActionId => exists a :: a in actions && Blank(a.id)
    case DuplicateActionId => !ActionIdsUnique(actions)
    case BlankToState => exists a :: a in actions && Blank(a.toState)
    case UnknownToState => exists a :: a in actions && a.toState !in ids
    case NoFromStates => exists a :: a in actions && |a.fromStates| == 0
    case UnknownFromState => exists a, f :: a in actions && f in a.fromStates && f !in ids
  }

  // ---------------- the order the validator checks them in ----------------

  /** The first fault of the state loop, given the ids `seen` before `states`. */
  function StateFault(states: seq<State>, seen: set<string>): (r: Option<Rule>)
    ensures r.Some? ==> r.value == BlankStateId || r.value == DuplicateStateId
    ensures r.None? ==> forall i :: 0 <= i < |states| ==> !Blank(states[i].id) && states[i].id !in seen
  {
    if |states| == 0 then None
    else if Blank(states[0].id) then Some(BlankStateId)
    else if states[0].id in seen then Some(DuplicateStateId)
    else
      var r := StateFault(states[1..], seen + {states[0].id});
      assert r.None? ==> forall i :: 1 <= i < |states| ==> !Blank(states[i].id) && states[i].id !in seen by {
        assert forall i :: 1 <= i < |states| ==> states[i] == states[1..][i - 1];
      }
      r
  }

  /** The first fault of one action, given the action ids `seen` before it. */
  function ActionFault(a: Action, seen: set<string>, ids: set<string>): (r: Option<Rule>)
    ensures r.None? <==> !Blank(a.id) && a.id !in seen && ActionWellFormed(a, ids)
    ensures r.Some? ==> r.value in {BlankActionId, DuplicateActionId, BlankToState, UnknownToState, NoFromStates, UnknownFromState}
  {
    if Blank(a.id) then Some(BlankActionId)
    else if a.id in seen then Some(DuplicateActionId)
    else if Blank(a.toState) then Some(BlankToState)
    else if a.toState !in ids then Some(UnknownToState)
    else if |a.fromStates| == 0 then Some(NoFromStates)
    else if exists f :: f in a.fromStates && f !in ids then Some(UnknownFromState)
    else None
  }

  /** The first fault of the action loop, given the action ids `seen` before `actions`. */
  function ActionsFault(actions: seq<Action>, seen: set<string>, ids: set<string>): (r: Option<Rule>)
    ensures r.Some? ==> r.value in {BlankActionId, DuplicateActionId, BlankToState, UnknownToState, NoFromStates, UnknownFromState}
    ensures r.None? ==> forall i :: 0 <= i < |actions| ==> ActionWellFormed(actions[i], ids)
  {
    if |actions| == 0 then None
    else if ActionFault(actions[0], seen, ids).Some? then ActionFault(actions[0], seen, ids)
    else
      var r := ActionsFault(actions[1..], seen + {actions[0].id}, ids);
      assert r.None? ==> forall i :: 1 <= i < |actions| ==> ActionWellFormed(actions[i], ids) by {
        assert forall i :: 1 <= i < |actions| ==> actions[i] == actions[1..][i - 1];
      }
      r
  }

  /** The first rule broken, in the order the validator checks them; None when there is none. */
  function FirstViolation(def: WorkflowDefinition): (r: Option<Rule>)
    ensures r == Some(NoStates) <==> |def.states| == 0
    ensures r == Some(InitialCount) ==> CountInitial(def.states) != 1
    ensures r.None? ==> CountInitial(def.states) == 1
  {
    if |def.states| == 0 then Some(NoStates)
    else if StateFault(def.states, {}).Some? then StateFault(def.states, {})
    else if CountInitial(def.states) != 1 then Some(InitialCount)
    else ActionsFault(ActionsOf(def), {}, StateIds(def.states))
  }

  // ---------------- the validator ----------------

  /**
   * Runs the checks in the validator's order and returns the definition with
   * its action list normalised, or the first rule broken.
   */
  method ValidateDefinition(def: WorkflowDefinition) returns (r: Result<WorkflowDefinition, Rule>)
    ensures r.Ok? <==> ValidDefinition(def)
    ensures r.Ok? ==> r.value == Normalized(def)
    ensures r.Err? ==> FirstViolation(def) == Some(r.error) && Breaks(def, r.error)
  {
    label checks: {
      if |def.states| == 0 {
        r := Err(NoStates);
        break checks;
      }

      var stateIds: set<string> := {};
      var i := 0;
      while i < |def.states|
        invariant 0 <= i <= |def.states|
        invariant stateIds == StateIds(def.states[..i])
        invariant StateFault(def.states, {}) == StateFault(def.states[i..], stateIds)
      {
        var s := def.states[i];
        StateFaultStep(def.states, i, stateIds);
        StateIdsExtend(def.states, i);
        if Blank(s.id) {
          r := Err(BlankStateId);
          break checks;
        }
        if s.id in stateIds {
          r := Err(DuplicateStateId);
          break checks;
        }
        stateIds := stateIds + {s.id};
        i := i + 1;
      }
      assert def.states[..i] == def.states;

      if CountInitial(def.states) != 1 {
        r := Err(InitialCount);
        break checks;
      }

      var actions := if def.actions == None then [] else def.actions.value;
      var actionIds: set<string> := {};
      var j := 0;
      while j < |actions|
        invariant 0 <= j <= |actions|
        invariant ActionsFault(actions, {}, stateIds) == ActionsFault(actions[j..], actionIds, stateIds)
      {
        var a := actions[j];
        ActionsFaultStep(actions, j, actionIds, stateIds);
        if Blank(a.id) {
          r := Err(BlankActionId);
          break checks;
        }
        if a.id in actionIds {
          r := Err(DuplicateActionId);
          break checks;
        }
        actionIds := actionIds + {a.id};
        if Blank(a.toState) {
          r := Err(BlankToState);
          break checks;
        }
        if a.toState !in stateIds {
          r := Err(UnknownToState);
          break checks;
        }
        if |a.fromStates| == 0 {
          r := Err(NoFromStates);
          break checks;
        }
        var known := AllKnown(a.fromStates, stateIds);
        if !known {
          r := Err(UnknownFromState);
          break checks;
        }
        j := j + 1;
      }
      r := Ok(def.(actions := Some(actions)));
    }
    assert r == match FirstViolation(def)
                case None => Ok(Normalized(def))
                case Some(rule) => Err(rule);
    ValidIffNoViolation(def);
    ViolationIsReal(def);
  }

  /** The inner `foreach` over an action's sources: does every source name a known state? */
  method AllKnown(fromStates: seq<string>, stateIds: set<string>) returns (known: bool)
    ensures known <==> forall f :: f in fromStates ==> f in stateIds
  {
    var k := 0;
    while k < |fromStates|
      invariant 0 <= k <= |fromStates|
      invariant forall m :: 0 <= m < k ==> fromStates[m] in stateIds
    {
      if fromStates[k] !in stateIds {
        return false;
      }
      k := k + 1;
    }
    return true;
  }

  // ---------------- lemmas ----------------

  /** One step of the state loop. */
  lemma StateFaultStep(states: seq<State>, i: nat, seen: set<string>)
    requires i < |states|
    ensures StateFault(states[i..], seen) ==
              if Blank(states[i].id) then Some(BlankStateId)
              else if states[i].id in seen then Some(DuplicateStateId)
              else StateFault(states[i + 1..], seen + {states[i].id})
  {
    assert states[i..][1..] == states[i + 1..];
  }

  /** One step of the action loop. */
  lemma ActionsFaultStep(actions: seq<Action>, j: nat, seen: set<string>, ids: set<string>)
    requires j < |actions|
    ensures ActionsFault(actions[j..], seen, ids) ==
              if ActionFault(actions[j], seen, ids).Some? then ActionFault(actions[j], seen, ids)
              else ActionsFault(actions[j + 1..], seen + {actions[j].id}, ids)
  {
    assert actions[j..][1..] == actions[j + 1..];
  }

  /** The ids of one more state of a list. */
  lemma StateIdsExtend(states: seq<State>, i: nat)
    requires i < |states|
    ensures StateIds(states[..i + 1]) == StateIds(states[..i]) + {states[i].id}
  {
    assert states[..i + 1] == states[..i] + [states[i]];
  }

  /** The state loop finds no fault exactly when the ids are non-blank, unique and disjoint from `seen`. */
  lemma {:induction false} StateFaultNoneIff(states: seq<State>, seen: set<string>)
    ensures StateFault(states, seen).None? <==>
              StateIdsNonBlank(states) && StateIdsUnique(states)
              && forall i :: 0 <= i < |states| ==> states[i].id !in seen
  {
    if |states| > 0 && !Blank(states[0].id) && states[0].id !in seen {
      var rest := states[1..];
      StateFaultNoneIff(rest, seen + {states[0].id});
      if StateFault(states, seen).None? {
        forall i, j | 0 <= i < j < |states| ensures states[i].id != states[j].id {
          if i > 0 { assert states[i] == rest[i - 1]; }
          assert states[j] == rest[j - 1];
        }
        forall i | 0 <= i < |states| ensures !Blank(states[i].id) && states[i].id !in seen {
          if i > 0 { assert states[i] == rest[i - 1]; }
        }
      }
    } else if |states| > 0 && states[0].id in seen {
      assert !(forall i :: 0 <= i < |states| ==> states[i].id !in seen);
    }
  }

  /** A fault found by the state loop is a real one: a blank id, or an id met before. */
  lemma {:induction false} StateFaultIsReal(states: seq<State>, seen: set<string>)
    ensures StateFault(states, seen) == Some(BlankStateId) ==> exists i :: 0 <= i < |states| && Blank(states[i].id)
    ensures StateFault(states, seen) == Some(DuplicateStateId) ==>
              !StateIdsUnique(states) || exists i :: 0 <= i < |states| && states[i].id in seen
    ensures StateFault(states, seen).Some? ==> StateFault(states, seen).value in {BlankStateId, DuplicateStateId}
  {
    if |states| > 0 && !Blank(states[0].id) && states[0].id !in seen {
      var rest := states[1..];
      StateFaultIsReal(rest, seen + {states[0].id});
      if StateFault(states, seen) == Some(BlankStateId) {
        var i :| 0 <= i < |rest| && Blank(rest[i].id);
        assert states[i + 1] == rest[i];
      }
      if StateFault(states, seen) == Some(DuplicateStateId) {
        if !StateIdsUnique(rest) {
          var i, j :| 0 <= i < j < |rest| && rest[i].id == rest[j].id;
          assert states[i + 1] == rest[i] && states[j + 1] == rest[j];
        } else {
          var i :| 0 <= i < |rest| && rest[i].id in seen + {states[0].id};
          assert states[i + 1] == rest[i];
        }
      }
    }
  }

  /** `Count(s => s.IsInitial) == 1` is the same as "exactly one state is initial". */
  lemma {:induction false} CountInitialOneIff(states: seq<State>)
    ensures CountInitial(states) == 1 <==> ExactlyOneInitial(states)
  {
    if |states| > 0 {
      if states[0].isInitial {
        ExactlyOneInitialAtHead(states);
      } else {
        CountInitialOneIff(states[1..]);
        ExactlyOneInitialInTail(states);
      }
    }
  }

  /** When the first state is initial, it is the only one exactly when no later state is. */
  lemma ExactlyOneInitialAtHead(states: seq<State>)
    requires |states| > 0 && states[0].isInitial
    ensures ExactlyOneInitial(states) <==> forall i :: 1 <= i < |states| ==> !states[i].isInitial
  {
    if ExactlyOneInitial(states) {
      var k :| 0 <= k < |states| && states[k].isInitial
               && forall j :: 0 <= j < |states| && j != k ==> !states[j].isInitial;
      assert k == 0;
    }
  }

  /** When the first state is not initial, exactly one state is initial exactly when exactly one later state is. */
  lemma ExactlyOneInitialInTail(states: seq<State>)
    requires |states| > 0 && !states[0].isInitial
    ensures ExactlyOneInitial(states) <==> ExactlyOneInitial(states[1..])
  {
    var rest := states[1..];
    if ExactlyOneInitial(rest) {
      var k :| 0 <= k < |rest| && rest[k].isInitial
               && forall j :: 0 <= j < |rest| && j != k ==> !rest[j].isInitial;
      assert states[k + 1] == rest[k];
      forall j | 0 <= j < |states| && j != k + 1 ensures !states[j].isInitial {
        if j > 0 { assert states[j] == rest[j - 1]; }
      }
    }
    if ExactlyOneInitial(states) {
      var k :| 0 <= k < |states| && states[k].isInitial
               && forall j :: 0 <= j < |states| && j != k ==> !states[j].isInitial;
      assert rest[k - 1] == states[k];
      forall j | 0 <= j < |rest| && j != k - 1 ensures !rest[j].isInitial {
        assert rest[j] == states[j + 1];
      }
    }
  }

  /** The action loop finds no fault exactly when every action is well formed and the ids are unique and new. */
  lemma {:induction false} ActionsFaultNoneIff(actions: seq<Action>, seen: set<string>, ids: set<string>)
    ensures ActionsFault(actions, seen, ids).None? <==>
              ActionIdsUnique(actions)
              && forall i :: 0 <= i < |actions| ==> ActionWellFormed(actions[i], ids) && actions[i].id !in seen
  {
    if |actions| > 0 {
      var a, rest := actions[0], actions[1..];
      if ActionFault(a, seen, ids).None? {
        ActionsFaultNoneIff(rest, seen + {a.id}, ids);
        if ActionsFault(actions, seen, ids).None? {
          forall i, j | 0 <= i < j < |actions| ensures actions[i].id != actions[j].id {
            if i > 0 { assert actions[i] == rest[i - 1]; }
            assert actions[j] == rest[j - 1];
          }
          forall i | 0 <= i < |actions| ensures ActionWellFormed(actions[i], ids) && actions[i].id !in seen {
            if i > 0 { assert actions[i] == rest[i - 1]; }
          }
        }
      } else {
        assert !(ActionWellFormed(a, ids) && a.id !in seen);
      }
    }
  }

  /**
   * A fault found by the action loop is a real one: a repeated id, or a fault
   * of some single action whatever ids came before it.
   */
  lemma {:induction false} ActionsFaultIsReal(actions: seq<Action>, seen: set<string>, ids: set<string>)
    ensures var f := ActionsFault(actions, seen, ids);
      && (f == Some(DuplicateActionId) ==>
            !ActionIdsUnique(actions) || exists i :: 0 <= i < |actions| && actions[i].id in seen)
      && (f.Some? && f != Some(DuplicateActionId) ==>
            exists i :: 0 <= i < |actions| && ActionFault(actions[i], {}, ids) == f)
  {
    if |actions| > 0 {
      var a, rest := actions[0], actions[1..];
      var f := ActionsFault(actions, seen, ids);
      if ActionFault(a, seen, ids).None? {
        ActionsFaultIsReal(rest, seen + {a.id}, ids);
        if f == Some(DuplicateActionId) {
          if !ActionIdsUnique(rest) {
            var i, j :| 0 <= i < j < |rest| && rest[i].id == rest[j].id;
            assert actions[i + 1] == rest[i] && actions[j + 1] == rest[j];
          } else {
            var i :| 0 <= i < |rest| && rest[i].id in seen + {a.id};
            assert actions[i + 1] == rest[i];
          }
        } else if f.Some? {
          var i :| 0 <= i < |rest| && ActionFault(rest[i], {}, ids) == f;
          assert actions[i + 1] == rest[i];
        }
      } else if f != Some(DuplicateActionId) {
        assert ActionFault(actions[0], {}, ids) == f;
      }
    }
  }

  /** The validator finds no fault exactly when the definition satisfies every rule. */
  lemma ValidIffNoViolation(def: WorkflowDefinition)
    ensures FirstViolation(def).None? <==> ValidDefinition(def)
  {
    StateFaultNoneIff(def.states, {});
    CountInitialOneIff(def.states);
    var actions := ActionsOf(def);
    ActionsFaultNoneIff(actions, {}, StateIds(def.states));
    assert (forall i :: 0 <= i < |actions| ==> ActionWellFormed(actions[i], StateIds(def.states)))
       <==> (forall a :: a in actions ==> ActionWellFormed(a, StateIds(def.states)));
  }

  /**
   * Validation does not ask the initial state to be enabled: on a valid
   * definition, the first initial and enabled state is the one initial state
   * when it is enabled, and there is none when it is disabled.
   */
  lemma InitialOfValid(def: WorkflowDefinition, k: nat)
    requires ValidDefinition(def)
    requires k < |def.states| && def.states[k].isInitial
    ensures FindEnabledInitial(def.states) == if def.states[k].enabled then Some(def.states[k]) else None
  {
    var r := FindEnabledInitial(def.states);
    if r.Some? {
      var m :| 0 <= m < |def.states| && def.states[m] == r.value;
      var one :| 0 <= one < |def.states| && def.states[one].isInitial
                 && forall j :: 0 <= j < |def.states| && j != one ==> !def.states[j].isInitial;
      assert m == one && k == one;
    }
  }

  /**
   * Validating the stored, normalised definition gives the same verdict as
   * validating the submitted one, and normalising twice changes nothing.
   */
  lemma NormalizedKeepsVerdict(def: WorkflowDefinition)
    ensures FirstViolation(Normalized(def)) == FirstViolation(def)
    ensures ValidDefinition(Normalized(def)) <==> ValidDefinition(def)
    ensures Normalized(Normalized(def)) == Normalized(def)
  {
    assert ActionsOf(Normalized(def)) == ActionsOf(def);
  }

  /** A fault of one action of the definition, other than a repeated id, is a rule the definition breaks. */
  lemma ActionFaultBreaks(def: WorkflowDefinition, i: nat)
    requires i < |ActionsOf(def)|
    requires ActionFault(ActionsOf(def)[i], {}, StateIds(def.states)).Some?
    ensures Breaks(def, ActionFault(ActionsOf(def)[i], {}, StateIds(def.states)).value)
  {
    assert ActionsOf(def)[i] in ActionsOf(def);
  }

  /** A fault of the state loop is a rule the definition breaks. */
  lemma StateFaultBreaks(def: WorkflowDefinition)
    requires StateFault(def.states, {}).Some?
    ensures Breaks(def, StateFault(def.states, {}).value)
  {
    StateFaultIsReal(def.states, {});
  }

  /** Every fault the validator reports is a rule the definition really breaks. */
  lemma ViolationIsReal(def: WorkflowDefinition)
    ensures FirstViolation(def).Some? ==> Breaks(def, FirstViolation(def).value)
  {
    if |def.states| > 0 {
      if StateFault(def.states, {}).Some? {
        StateFaultBreaks(def);
      } else if CountInitial(def.states) != 1 {
        CountInitialOneIff(def.states);
      } else {
        var actions, ids := ActionsOf(def), StateIds(def.states);
        ActionsFaultIsReal(actions, {}, ids);
        if ActionsFault(actions, {}, ids).Some? && ActionsFault(actions, {}, ids) != Some(DuplicateActionId) {
          var i :| 0 <= i < |actions| && ActionFault(actions[i], {}, ids) == ActionsFault(actions, {}, ids);
          ActionFaultBreaks(def, i);
        }
      }
    }
  }
}
