/**
 * The data the workflow engine works on: states, actions and definitions
 * (immutable values), the history entries of an instance, and the instance
 * itself, a mutable object that the engine creates and then moves from
 * state to state (models/WorkflowInstance.cs).
 */
module Models {
  import opened Wrappers

  /** `DateTime.UtcNow` as an opaque tick count, supplied by the caller. */
  type Timestamp = int

  /** `char.IsWhiteSpace`: the Unicode separator categories plus U+0009..U+000D and U+0085. */
  function IsWhiteSpace(c: char): (b: bool)
    ensures b ==> !('0' <= c <= '9' || 'A' <= c <= 'Z' || 'a' <= c <= 'z')
    ensures c == ' ' || c == '\t' || c == '\n' || c == '\r' ==> b
  {
    || c == ' '
    || ('\t' <= c <= '\r')
    || c == '\U{85}' || c == '\U{A0}' || c == '\U{1680}'
    || ('\U{2000}' <= c <= '\U{200A}')
    || c == '\U{2028}' || c == '\U{2029}' || c == '\U{202F}' || c == '\U{205F}' || c == '\U{3000}'
  }

  /**
   * `string.IsNullOrWhiteSpace`, which scans the characters from the front
   * and stops at the first one that is not white space; a null string is
   * modelled as the empty one.
   */
  function Blank(s: string): (b: bool)
    ensures b <==> forall i :: 0 <= i < |s| ==> IsWhiteSpace(s[i])
  {
    if |s| == 0 then true
    else if !IsWhiteSpace(s[0]) then false
    else
      var rest := Blank(s[1..]);
      assert rest <==> forall i :: 1 <= i < |s| ==> IsWhiteSpace(s[i]) by {
        assert forall i :: 1 <= i < |s| ==> s[i] == s[1..][i - 1];
      }
      rest
  }

  datatype State = State(id: string, isInitial: bool, isFinal: bool, enabled: bool)

  datatype Action = Action(id: string, enabled: bool, fromStates: seq<string>, toState: string)

  /** `actions` is `None` when the payload left the list null. */
  datatype WorkflowDefinition = WorkflowDefinition(id: string, states: seq<State>, actions: Option<seq<Action>>)

  /** One executed action: its id and the time it ran. */
  datatype HistoryEntry = HistoryEntry(actionId: string, timestamp: Timestamp)

  /** The ids of a list of states. */
  function StateIds(states: seq<State>): set<string> {
    set s | s in states :: s.id
  }

  /**
   * A running instance of a definition. `id` is fixed when the object is
   * built (from a fresh GUID, here a parameter); the engine assigns the
   * other fields and appends to `history`.
   */
  class WorkflowInstance {
    const id: string
    var workflowDefinitionId: string
    var currentStateId: string
    var history: seq<HistoryEntry>

    constructor (id: string)
      ensures this.id == id
      ensures workflowDefinitionId == "" && currentStateId == ""
      ensures history == []
    {
      this.id := id;
      workflowDefinitionId := "";
      currentStateId := "";
      history := [];
    }
  }
}
