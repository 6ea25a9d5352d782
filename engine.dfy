/**
 * The workflow engine (Services/WorkflowEngine.cs): two in-memory stores,
 * definitions by id and instances by id, and the operations that read and
 * grow them and move instances between states.
 */
module Engine {
  import opened Wrappers
  import opened Models
  import opened Errors
  import opened Lookup
  import opened Validation
  import opened Transitions

  /** The checks that should never fail once the stores are consistent. */
  predicate IsDefensive(e: Error) {
    || (e.NotFound? && e.entity == DefinitionEntity)
    || e == InvalidState(CurrentStateMissing)
    || e == InvalidState(TargetMissing)
  }

  class WorkflowEngine {
    var defs: map<string, WorkflowDefinition>
    var inst: map<string, WorkflowInstance>

    /**
     * How the engine keeps its stores: every entry sits under its own id, and
     * a stored definition's action list has been normalised (never null).
     */
    ghost predicate Valid()
      reads this
    {
      && (forall k :: k in defs ==> defs[k].id == k && defs[k].actions.Some?)
      && (forall k :: k in inst ==> inst[k].id == k)
    }

    /** Every stored definition passed validation. */
    ghost predicate DefinitionsValid()
      reads this`defs
    {
      forall k :: k in defs ==> ValidDefinition(defs[k])
    }

    /** Every instance refers to a stored definition and stands on one of its states. */
    ghost predicate InstancesPlaced()
      reads this, inst.Values
    {
      forall k :: k in inst ==>
        && inst[k].workflowDefinitionId in defs
        && inst[k].currentStateId in StateIds(defs[inst[k].workflowDefinitionId].states)
    }

    /**
     * What the engine guarantees about the stored data. For every stored
     * instance, the lookups of its definition and of its current state in
     * that definition both succeed.
     */
    ghost function Consistent(): (b: bool)
      reads this, inst.Values
      ensures b ==> forall k :: k in inst ==>
                      && inst[k].workflowDefinitionId in defs
                      && FindState(defs[inst[k].workflowDefinitionId].states, inst[k].currentStateId).Some?
    {
      var b := DefinitionsValid() && InstancesPlaced();
      assert b ==> forall k :: k in inst ==>
                     && inst[k].workflowDefinitionId in defs
                     && FindState(defs[inst[k].workflowDefinitionId].states, inst[k].currentStateId).Some? by {
        if b {
          forall k | k in inst
            ensures inst[k].workflowDefinitionId in defs
            ensures FindState(defs[inst[k].workflowDefinitionId].states, inst[k].currentStateId).Some?
          {
            var states := defs[inst[k].workflowDefinitionId].states;
            var c :| c in states && c.id == inst[k].currentStateId;
            var i :| 0 <= i < |states| && states[i] == c;
            FindStatePresent(states, i);
          }
        }
      }
      b
    }

    /** From consistent stores, the checks of `Transition` never report a defensive failure. */
    lemma NoDefensiveFailure(instanceId: string, actionId: string)
      requires Valid() && Consistent() && instanceId in inst
      ensures inst[instanceId].workflowDefinitionId in defs
      ensures var t := Transition(defs[inst[instanceId].workflowDefinitionId], inst[instanceId].currentStateId, actionId);
              t.Err? ==> !IsDefensive(t.error)
    {
      var instance := inst[instanceId];
      assert instance.workflowDefinitionId in defs;
      var def := defs[instance.workflowDefinitionId];
      assert ValidDefinition(def) && def.actions.Some?;
      DefensiveChecksHold(def, instance.currentStateId, actionId);
    }

    constructor ()
      ensures Valid() && Consistent()
      ensures defs == map[] && inst == map[]
    {
      defs := map[];
      inst := map[];
    }

    // -------------------- Definitions --------------------

    method CreateDefinition(def: WorkflowDefinition) returns (r: Result<string, Error>)
      requires Valid()
      modifies this`defs
      ensures Valid()
      ensures inst == old(inst)
      ensures Blank(def.id) ==> r == Err(InvalidInput)
      ensures !Blank(def.id) && def.id in old(defs) ==> r == Err(AlreadyExists(def.id))
      ensures !Blank(def.id) && def.id !in old(defs) && FirstViolation(def).Some? ==>
                r == Err(ValidationError(FirstViolation(def).value))
      ensures r.Ok? <==> !Blank(def.id) && def.id !in old(defs) && ValidDefinition(def)
      ensures r.Ok? ==> r.value == def.id && defs == old(defs)[def.id := Normalized(def)]
      ensures r.Err? ==> defs == old(defs)
      ensures old(DefinitionsValid()) ==> DefinitionsValid()
      ensures old(InstancesPlaced()) ==> InstancesPlaced()
    {
      if Blank(def.id) {
        return Err(InvalidInput);
      }
      if def.id in defs {
        return Err(AlreadyExists(def.id));
      }
      var checked := ValidateDefinition(def);
      if checked.Err? {
        return Err(ValidationError(checked.error));
      }
      ValidIffNoViolation(def);
      defs := defs[def.id := checked.value];
      return Ok(def.id);
    }

    method GetDefinition(id: string) returns (r: Result<WorkflowDefinition, Error>)
      ensures id in defs ==> r == Ok(defs[id])
      ensures id !in defs ==> r == Err(NotFound(DefinitionEntity, id))
    {
      if id !in defs {
        return Err(NotFound(DefinitionEntity, id));
      }
      return Ok(defs[id]);
    }

    /** `ListDefinitions`: the stored definitions, each retrievable under its own id (order is not modelled). */
    function ListDefinitions(): (r: set<WorkflowDefinition>)
      requires Valid()
      reads this
      ensures forall d :: d in r ==> d.id in defs && defs[d.id] == d
      ensures forall k :: k in defs ==> defs[k] in r
    {
      defs.Values
    }

    // -------------------- Instances --------------------

    /**
     * Starts an instance of definition `defId` on its first initial and enabled
     * state. `freshId` stands for `Guid.NewGuid()`: an id no stored instance has.
     */
    method StartInstance(defId: string, freshId: string) returns (r: Result<WorkflowInstance, Error>)
      requires Valid()
      requires freshId !in inst
      modifies this`inst
      ensures Valid()
      ensures defs == old(defs)
      ensures defId !in defs ==> r == Err(NotFound(DefinitionEntity, defId))
      ensures defId in defs && FindEnabledInitial(defs[defId].states).None? ==> r == Err(InvalidState(NoEnabledInitial))
      ensures r.Err? ==> inst == old(inst)
      ensures defId in defs && FindEnabledInitial(defs[defId].states).Some? ==>
                && r.Ok? && fresh(r.value)
                && inst == old(inst)[freshId := r.value]
                && r.value.id == freshId
                && r.value.workflowDefinitionId == defId
                && r.value.currentStateId == FindEnabledInitial(defs[defId].states).value.id
                && r.value.history == []
      ensures old(DefinitionsValid()) ==> DefinitionsValid()
      ensures old(InstancesPlaced()) ==> InstancesPlaced()
    {
      var found := GetDefinition(defId);
      if found.Err? {
        return Err(found.error);
      }
      var def := found.value;
      var initial := FindEnabledInitial(def.states);
      if initial.None? {
        return Err(InvalidState(NoEnabledInitial));
      }
      var instance := new WorkflowInstance(freshId);
      instance.workflowDefinitionId := defId;
      instance.currentStateId := initial.value.id;
      inst := inst[instance.id := instance];
      r := Ok(instance);
      if old(InstancesPlaced()) {
        forall k | k in inst
          ensures inst[k].workflowDefinitionId in defs
          ensures inst[k].currentStateId in StateIds(defs[inst[k].workflowDefinitionId].states)
        {
          if k != freshId {
            assert inst[k] == old(inst[k]) && unchanged(inst[k]);
          }
        }
      }
    }

    method GetInstance(id: string) returns (r: Result<WorkflowInstance, Error>)
      ensures id in inst ==> r == Ok(inst[id])
      ensures id !in inst ==> r == Err(NotFound(InstanceEntity, id))
    {
      if id !in inst {
        return Err(NotFound(InstanceEntity, id));
      }
      return Ok(inst[id]);
    }

    /** `ListInstances`: the stored instances, each retrievable under its own id (order is not modelled). */
    function ListInstances(): (r: set<WorkflowInstance>)
      requires Valid()
      reads this
      ensures forall i :: i in r ==> i.id in inst && inst[i.id] == i
      ensures forall k :: k in inst ==> inst[k] in r
    {
      inst.Values
    }

    // -------------------- Runtime transition --------------------

    /**
     * Runs action `actionId` on instance `instanceId` at time `now`: the
     * lookups, then the legality checks of `Transition`; the first failure
     * changes nothing, success moves the instance to the target state and
     * appends one history entry.
     */
    method ExecuteAction(instanceId: string, actionId: string, now: Timestamp) returns (r: Outcome<Error>)
      requires Valid()
      modifies inst.Values
      ensures Valid()
      ensures defs == old(defs) && inst == old(inst)
      ensures instanceId !in inst ==> r == Fail(NotFound(InstanceEntity, instanceId))
      ensures instanceId in inst && old(inst[instanceId].workflowDefinitionId) !in defs ==>
                r == Fail(NotFound(DefinitionEntity, old(inst[instanceId].workflowDefinitionId)))
      ensures instanceId in inst && old(inst[instanceId].workflowDefinitionId) in defs ==>
                var t := Transition(defs[old(inst[instanceId].workflowDefinitionId)], old(inst[instanceId].currentStateId), actionId);
                && (t.Err? ==> r == Fail(t.error))
                && (t.Ok? ==> r == Pass && inst[instanceId].currentStateId == t.value
                                && inst[instanceId].history == old(inst[instanceId].history) + [HistoryEntry(actionId, now)])
      ensures r.Fail? ==> unchanged(inst.Values)
      ensures instanceId in inst ==> inst[instanceId].workflowDefinitionId == old(inst[instanceId].workflowDefinitionId)
      ensures forall k :: k in inst && k != instanceId ==> unchanged(inst[k])
      ensures old(DefinitionsValid()) ==> DefinitionsValid()
      ensures old(InstancesPlaced()) ==> InstancesPlaced()
    {
      var foundInstance := GetInstance(instanceId);
      if foundInstance.Err? {
        return Fail(foundInstance.error);
      }
      var instance := foundInstance.value;
      var foundDef := GetDefinition(instance.workflowDefinitionId);
      if foundDef.Err? {
        return Fail(foundDef.error);
      }
      var def := foundDef.value;
      var moved := Transition(def, instance.currentStateId, actionId);
      if moved.Err? {
        return Fail(moved.error);
      }
      instance.currentStateId := moved.value;
      instance.history := instance.history + [HistoryEntry(actionId, now)];
      r := Pass;
      if old(InstancesPlaced()) {
        forall k | k in inst
          ensures inst[k].workflowDefinitionId in defs
          ensures inst[k].currentStateId in StateIds(defs[inst[k].workflowDefinitionId].states)
        {
          if k != instanceId {
            assert unchanged(inst[k]);
          }
        }
      }
    }
  }
}
