# Workflow engine: a verified Dafny model

This project models the in-memory workflow state-machine engine of the
Infonetica workflow service. The engine keeps two stores, workflow
**definitions** by id and workflow **instances** by id, and offers these
operations:

- **CreateDefinition** validates a definition and stores it. A valid
  definition has at least one state, non-blank and unique state ids, exactly
  one initial state, non-blank and unique action ids, and actions whose
  target and sources are known states.
- **GetDefinition** and **GetInstance** look an entry up by id.
- **StartInstance** creates an instance on its definition's first initial
  and enabled state.
- **ExecuteAction** runs an ordered chain of legality checks. It then moves
  the instance to the action's target state and appends one history entry.

How the pieces map:

- **Values.** States, actions and definitions are immutable datatypes
  (`Models`).
- **Instances.** An instance is a `class` with mutable `currentStateId` and
  `history` (`Models.WorkflowInstance`).
- **The engine.** The engine is a `class` whose fields `defs` and `inst` are
  the two dictionaries (`Engine.WorkflowEngine`).
- **Failures.** Every exception the engine throws becomes an `Error` value
  of one of these kinds: invalid input, already exists, validation error,
  not found, action disabled, illegal transition, invalid state (`Errors`).
  A failing operation changes nothing.

The modules:

- `Lookup` holds the LINQ queries. `FirstOrDefault` is one generic
  recursive function: its contract says that it finds nothing exactly when
  no element matches, and that what it finds is a matching element. Lemma
  `FirstOrDefaultIsFirst` adds that no earlier element matches. The three
  lookups of the engine are instances of it. `CountInitial` is
  `Count(s => s.IsInitial)`; its contract bounds it by the list length and
  says when it is zero, and lemma `Validation.CountInitialOneIff` says when
  it is one.
- `Validation` holds `ValidateDefinition`, the two `foreach` loops over
  states and actions with their growing id sets. The method is proved to
  report exactly the first rule broken, in the code's order (`FirstViolation`),
  and to succeed exactly when the declarative rules `ValidDefinition` hold.
- `Transitions` holds checks 3 to 9 of `ExecuteAction` as one function,
  `Transition`, with lemmas relating it to a declarative legality predicate
  `LegalAt`.
- `Engine` holds the stores and the public operations. The invariant
  `Consistent` has two parts: every stored definition passed validation
  (`DefinitionsValid`), and every instance stands on a state of its stored
  definition (`InstancesPlaced`). Every operation preserves each part, and
  under both the defensive checks never fail.
- `Scenario` holds the draft → review → done document workflow run end to
  end through the engine.

Choices where the model follows the code literally:

- **The stored definition.** The code stores the definition with a null
  action list replaced by an empty one (Services/WorkflowEngine.cs:126-128).
  The model stores `Normalized(def)`.
- **Target states at validation.** Validation checks only that an action's
  target state exists, not that it is enabled
  (Services/WorkflowEngine.cs:142). A disabled target is caught only when
  the action runs (`TargetDisabled`).
- **Order of the checks in `ExecuteAction`.** The action is looked up and
  its enabled flag checked (Services/WorkflowEngine.cs:75-79) before the
  current state is tested for being final (line 85). So from a final state
  an unknown action fails as not found and a disabled one as disabled; only
  an existing, enabled action fails as an illegal transition from a final
  state (`Transitions.FinalStateIsSink`).
- **Error kinds.** The code throws a plain `Exception` for every failure;
  when the current state or the target state is missing (lines 83 and 95)
  its message says "not found". The model reports these two as
  `InvalidState(CurrentStateMissing)` and `InvalidState(TargetMissing)`,
  which keeps them apart from a missing instance, definition or action.
  Lemma `Engine.WorkflowEngine.NoDefensiveFailure` shows that neither can
  happen from consistent stores.
- **Timestamps.** The code reads `DateTime.UtcNow` and promises nothing
  about the order of the readings, so timestamps are opaque parameters.

## Model

| member | source | states |
|---|---|---|
| Models.WorkflowInstance.constructor | models/WorkflowInstance.cs:3-10 | A new instance has the given fresh id, empty definition and current-state ids, and an empty history. |
| Models.IsWhiteSpace | Services/WorkflowEngine.cs:18 | `char.IsWhiteSpace`: space, tab, newline and carriage return are white space, and no ASCII letter or digit is. |
| Models.Blank | Services/WorkflowEngine.cs:18 | `string.IsNullOrWhiteSpace` as a front-to-back scan: a string is blank exactly when every character is white space, so the empty string is blank. Used for the id checks at lines 18, 115, 133 and 138. |
| Lookup.FirstOrDefault | Services/WorkflowEngine.cs:46 | LINQ `FirstOrDefault`: the result is None exactly when no element satisfies the predicate, and a found element is in the list and satisfies it. The engine's three lookups (lines 46, 75, 82 and 93) are this function with their predicates. |
| Lookup.FirstOrDefaultIsFirst | Services/WorkflowEngine.cs:75 | What `FirstOrDefault` finds sits at a position before which no element satisfies the predicate: the first match in list order. |
| Lookup.FindStatePresent | Services/WorkflowEngine.cs:82 | Looking up the id of a state of the list finds a state with that id. |
| Lookup.CountInitial | Services/WorkflowEngine.cs:122 | The number of initial states is at most the number of states, and is zero exactly when no state is initial. |
| Lookup.FindStateUnique | Services/WorkflowEngine.cs:82 | With unique state ids, looking up a state's id finds that very state. |
| Lookup.FindActionUnique | Services/WorkflowEngine.cs:75 | With unique action ids, looking up an action's id finds that very action. |
| Validation.Normalized | Services/WorkflowEngine.cs:126-127 | Replacing a null action list by an empty one keeps the id and the states, always yields an action list, leaves a present list untouched, and turns a null list into the empty list. |
| Validation.NormalizedKeepsVerdict | Services/WorkflowEngine.cs:126-127 | Normalising changes neither the first violation found nor whether the definition is valid, and normalising twice is the same as once. |
| Validation.ValidDefinition | Services/WorkflowEngine.cs:105-156 | The declarative rules for a definition. A valid definition has exactly one initial state, and every action's target is found among its states by id. |
| Validation.StateFault | Services/WorkflowEngine.cs:113-119 | The state loop, as a function of the remaining states and the ids seen so far. It reports only a blank or a duplicate state id, and when it reports nothing every id is non-blank and unseen. |
| Validation.ActionFault | Services/WorkflowEngine.cs:133-154 | The checks on one action, in the code's order. It passes exactly when the id is non-blank and new and the action has a non-blank known target and non-empty known sources; otherwise it reports one of the six action rules. |
| Validation.ActionsFault | Services/WorkflowEngine.cs:131-155 | The action loop over the remaining actions. It reports only action rules, and when it reports nothing every action is well formed. |
| Validation.FirstViolation | Services/WorkflowEngine.cs:105-155 | The whole check sequence. It reports "no states" exactly when the state list is empty. When it reports the initial-count rule, the number of initial states is not one; when it reports nothing, that number is one. |
| Validation.ValidateDefinition | Services/WorkflowEngine.cs:105-156 | Succeeds exactly when the definition satisfies every structural rule, returning it with a null action list replaced by an empty one. On failure it reports the first rule broken in the code's check order, and the definition really breaks that rule. |
| Validation.AllKnown | Services/WorkflowEngine.cs:150-154 | The inner loop over an action's sources yields true exactly when every source is a known state id. |
| Validation.StateFaultNoneIff | Services/WorkflowEngine.cs:111-119 | The state loop passes exactly when every state id is non-blank, the ids are pairwise distinct, and none was seen before. |
| Validation.StateFaultIsReal | Services/WorkflowEngine.cs:115-118 | A state-loop failure is either a blank id that exists in the list or a repeated id, and no other kind. |
| Validation.CountInitialOneIff | Services/WorkflowEngine.cs:122-123 | `Count(s => s.IsInitial) == 1` holds exactly when one state is initial and every other state is not. |
| Validation.ExactlyOneInitialAtHead | Services/WorkflowEngine.cs:122 | When the first state is initial, it is the only initial state exactly when no later state is initial. |
| Validation.ExactlyOneInitialInTail | Services/WorkflowEngine.cs:122 | When the first state is not initial, there is exactly one initial state exactly when there is exactly one among the rest. |
| Validation.ActionsFaultNoneIff | Services/WorkflowEngine.cs:129-155 | The action loop passes exactly when every action id is non-blank and new, the ids are pairwise distinct, and every action has a non-blank known target and a non-empty list of known sources. |
| Validation.ActionsFaultIsReal | Services/WorkflowEngine.cs:131-155 | An action-loop failure is a repeated action id, or a fault of a single action that holds whatever ids came before it. |
| Validation.ValidIffNoViolation | Services/WorkflowEngine.cs:105-156 | The check sequence finds no violation exactly when the definition satisfies every declarative rule. |
| Validation.ViolationIsReal | Services/WorkflowEngine.cs:105-156 | Whatever rule the check sequence reports, the definition breaks it, with a witness of the kind the rule names. |
| Validation.StateFaultBreaks | Services/WorkflowEngine.cs:111-119 | A fault of the state loop is a rule the definition breaks. |
| Validation.ActionFaultBreaks | Services/WorkflowEngine.cs:133-154 | A fault of one action, other than a repeated id, is a rule the definition breaks. |
| Validation.InitialOfValid | Services/WorkflowEngine.cs:46-48 | On a valid definition, the first initial and enabled state is the single initial state if that state is enabled, and there is none if it is disabled: validation accepts definitions that can never be started. |
| Transitions.Transition | Services/WorkflowEngine.cs:75-97 | A successful transition always names a state of the definition, and the only not-found failure is that of the requested action. |
| Transitions.TransitionOkIsLegal | Services/WorkflowEngine.cs:75-100 | When all checks pass, some enabled action with that id leads from the current, non-final state, which is one of its sources, to an enabled target. The result is that target's id. |
| Transitions.LegalTransitionIsOk | Services/WorkflowEngine.cs:75-100 | Conversely, with unique ids every such legal move passes all checks and yields the action's target. |
| Transitions.FinalStateIsSink | Services/WorkflowEngine.cs:75-86 | No action leaves a final state. There an unknown action fails as not found, a disabled one as disabled, and an existing, enabled one as an illegal transition from a final state. |
| Transitions.DefensiveChecksPass | Services/WorkflowEngine.cs:82-95 | When the current state and every action's target are found by id, the "current state not found" and "target state not found" failures never occur. |
| Transitions.DefensiveChecksHold | Services/WorkflowEngine.cs:82-95 | For a valid definition and a current state that belongs to it, the "current state not found" and "target state not found" failures never occur. |
| Engine.WorkflowEngine.Consistent | Services/WorkflowEngine.cs:72-82 | Under the engine's invariant, every stored instance's definition is stored and its current state is found in that definition by id. |
| Engine.WorkflowEngine.constructor | Services/WorkflowEngine.cs:8-9 | The engine starts with both stores empty and consistent. |
| Engine.WorkflowEngine.NoDefensiveFailure | Services/WorkflowEngine.cs:72-97 | From consistent stores, a stored instance's definition is present and `Transition` never reports a defensive failure. |
| Engine.WorkflowEngine.CreateDefinition | Services/WorkflowEngine.cs:12-30 | Blank id gives InvalidInput, an existing id gives AlreadyExists, and a broken rule gives ValidationError with the first rule broken; each leaves the stores unchanged. Success happens exactly when the id is new and non-blank and the definition is valid; it adds exactly `id -> normalised def`, returns the id, leaves instances alone and keeps both parts of consistency. |
| Engine.WorkflowEngine.GetDefinition | Services/WorkflowEngine.cs:32-37 | Returns the stored definition, or NotFound for a missing id. |
| Engine.WorkflowEngine.ListDefinitions | Services/WorkflowEngine.cs:39 | Every listed definition is the one stored under its own id, and every stored definition is listed. |
| Engine.WorkflowEngine.StartInstance | Services/WorkflowEngine.cs:42-58 | A missing definition gives NotFound, and no initial and enabled state gives InvalidState; neither changes anything. Otherwise a fresh instance is stored under the fresh id. It points at the definition, stands on the first initial and enabled state, and has an empty history. Definitions are unchanged and both parts of consistency are kept. |
| Engine.WorkflowEngine.GetInstance | Services/WorkflowEngine.cs:60-65 | Returns the stored instance, or NotFound for a missing id. |
| Engine.WorkflowEngine.ListInstances | Services/WorkflowEngine.cs:67 | Every listed instance is the one stored under its own id, and every stored instance is listed. |
| Engine.WorkflowEngine.ExecuteAction | Services/WorkflowEngine.cs:70-102 | A missing instance or definition gives NotFound. Otherwise the outcome is that of the ordered checks of `Transition`. A failure changes no instance. Success sets the current state to the target and appends exactly `(actionId, now)` to the history. The stores, other instances and the instance's definition id are unchanged, and both parts of consistency are kept. |
| Scenario.DocIsValid | Services/WorkflowEngine.cs:105-156 | The draft/review/done document workflow satisfies every validation rule. |
| Scenario.DocMoves | Services/WorkflowEngine.cs:42-97 | In that workflow an instance starts on draft; submit leads from draft to review and approve from review to done; submit from done is refused as an illegal transition from a final state, and the unknown action archive from done fails as not found. |
| Scenario.StartDoc | Services/WorkflowEngine.cs:12-58 | Creating the document workflow and starting an instance on a fresh engine gives a valid engine holding just that definition and that instance, on draft with an empty history. |
| Scenario.Move | Services/WorkflowEngine.cs:70-101 | On an engine holding one definition and one instance, an action the definition allows moves the instance to the target and appends one history entry; the stores keep the same entries, each under its own id. |
| Scenario.Refused | Services/WorkflowEngine.cs:70-97 | An action the definition refuses fails with that error and leaves the instance's state and history unchanged. |
| Scenario.Walk | Services/WorkflowEngine.cs:70-101 | On any definition with the draft → review → done moves, submit then approve reach review and done with two history entries, and a further submit fails as illegal from a final state. |
| Scenario.DocWalkthrough | Services/WorkflowEngine.cs:12-102 | End to end on a fresh engine, the instance goes draft → review → done with exactly the two history entries, and a further submit fails as an illegal transition. |

## Left out

- Exception message text. Only the kind of failure, and the rule or entity it concerns, is modelled.
- Null plumbing. A null payload (line 15) and null ids, state lists or source lists are read as empty strings or lists. Null elements of the state or action lists (which make the code throw a `NullReferenceException` at Services/WorkflowEngine.cs:115 and 133) cannot be expressed, because list elements are values. Only a null action list is kept apart, as `None`, because validation replaces it.
- Aliasing of the caller's definition. The code stores the caller's object and mutates its `Actions` in place; the model stores an immutable value, so later changes to the caller's object are not modelled.
- `Guid.NewGuid()`. It is a caller-supplied `freshId` with the precondition `freshId !in inst`; GUID randomness and uniqueness are assumed, not modelled.
- `DateTime.UtcNow`. It is the parameter `now`; nothing is claimed about the order of timestamps.
- Engine.WorkflowEngine.ListDefinitions: returns a set. The enumeration order of `Dictionary.Values` is not defined by .NET and is not modelled.
- Engine.WorkflowEngine.ListInstances: returns a set, for the same reason.
- Models.WorkflowInstance.constructor: the instance id is a `const` because nothing reassigns it, although the C# property has a setter.
- Program.cs. HTTP routing and startup only forward to the engine and are not part of this model.
- Concurrency. The engine has no locking, and the model is sequential.
- Character classes. `string.IsNullOrWhiteSpace` is modelled by `Models.Blank` over the `char.IsWhiteSpace` set of characters, without the surrogate handling of UTF-16.
