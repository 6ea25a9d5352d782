/**
 * The LINQ queries of Services/WorkflowEngine.cs: `FirstOrDefault` over the
 * states and actions of a definition, and `Count` of initial states.
 * Each finds the FIRST match in list order, as LINQ does.
 */
module Lookup {
  import opened Wrappers
  import opened Models

  /**
   * `xs.FirstOrDefault(p)`: an element of `xs` that satisfies `p`, or None
   * when no element does. `FirstOrDefaultIsFirst` adds that it is the first
   * such element in list order.
   */
  function FirstOrDefault<T>(xs: seq<T>, p: T -> bool): (r: Option<T>)
    ensures r.None? <==> forall i :: 0 <= i < |xs| ==> !p(xs[i])
    ensures r.Some? ==> r.value in xs && p(r.value)
  {
    if |xs| == 0 then None
    else if p(xs[0]) then Some(xs[0])
    else
      var r := FirstOrDefault(xs[1..], p);
      assert r.None? ==> forall i :: 1 <= i < |xs| ==> !p(xs[i]) by {
        assert forall i :: 1 <= i < |xs| ==> xs[i] == xs[1..][i - 1];
      }
      r
  }

  /** The element `FirstOrDefault` returns comes before every other element that satisfies `p`. */
  lemma {:induction false} FirstOrDefaultIsFirst<T>(xs: seq<T>, p: T -> bool)
    ensures FirstOrDefault(xs, p).Some? ==>
              exists k :: 0 <= k < |xs| && xs[k] == FirstOrDefault(xs, p).value
                          && forall j :: 0 <= j < k ==> !p(xs[j])
  {
    if |xs| > 0 && !p(xs[0]) && FirstOrDefault(xs, p).Some? {
      FirstOrDefaultIsFirst(xs[1..], p);
      var k :| 0 <= k < |xs[1..]| && xs[1..][k] == FirstOrDefault(xs[1..], p).value
               && forall j :: 0 <= j < k ==> !p(xs[1..][j]);
      assert xs[k + 1] == FirstOrDefault(xs, p).value;
      forall j | 0 <= j < k + 1 ensures !p(xs[j]) {
        if j > 0 { assert xs[j] == xs[1..][j - 1]; }
      }
    }
  }

  /** `states.FirstOrDefault(s => s.Id == id)`. */
  function FindState(states: seq<State>, id: string): Option<State> {
    FirstOrDefault(states, (s: State) => s.id == id)
  }

  /** `actions.FirstOrDefault(a => a.Id == id)`. */
  function FindAction(actions: seq<Action>, id: string): Option<Action> {
    FirstOrDefault(actions, (a: Action) => a.id == id)
  }

  /** `states.FirstOrDefault(s => s.IsInitial && s.Enabled)`. */
  function FindEnabledInitial(states: seq<State>): Option<State> {
    FirstOrDefault(states, (s: State) => s.isInitial && s.enabled)
  }

  /** `states.Count(s => s.IsInitial)`. */
  function CountInitial(states: seq<State>): (n: nat)
    ensures n <= |states|
    ensures n == 0 <==> forall i :: 0 <= i < |states| ==> !states[i].isInitial
  {
    if |states| == 0 then 0
    else (if states[0].isInitial then 1 else 0) + CountInitial(states[1..])
  }

  /** The lookup by id finds a state whenever some state has that id. */
  lemma FindStatePresent(states: seq<State>, k: nat)
    requires k < |states|
    ensures FindState(states, states[k].id).Some?
    ensures FindState(states, states[k].id).value.id == states[k].id
  {
    var p := (s: State) => s.id == states[k].id;
    assert p(states[k]);
  }

  /** With unique state ids, the state found by id is the only state with that id. */
  lemma FindStateUnique(states: seq<State>, k: nat)
    requires k < |states|
    requires forall i, j :: 0 <= i < j < |states| ==> states[i].id != states[j].id
    ensures FindState(states, states[k].id) == Some(states[k])
  {
    var r := FindState(states, states[k].id);
    var m :| 0 <= m < |states| && states[m] == r.value;
    assert m == k;
  }

  /** With unique action ids, the action found by id is the only action with that id. */
  lemma FindActionUnique(actions: seq<Action>, k: nat)
    requires k < |actions|
    requires forall i, j :: 0 <= i < j < |actions| ==> actions[i].id != actions[j].id
    ensures FindAction(actions, actions[k].id) == Some(actions[k])
  {
    var r := FindAction(actions, actions[k].id);
    var m :| 0 <= m < |actions| && actions[m] == r.value;
    assert m == k;
  }
}
