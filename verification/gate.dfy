/**
 * The password modal: one slot `passwordModalAction` holding the action to
 * run once the configured password is typed. Opening the modal arms the
 * slot, a wrong password keeps it armed and shows the error line, the right
 * password clears the slot, closes the modal and runs the action.
 */
module Gate {

  import opened Wrappers

  /** The configured password the form compares against. */
  const Password: string := "03082020"

  /** The argument given to `showPasswordModal`: a function, or anything else. */
  datatype Callback<A> = Fn(action: A) | NotFn

  /** The modal's state: the armed action, whether the modal and its error line are visible. */
  datatype GateState<A> = GateState(pending: Option<A>, open: bool, errorShown: bool)

  /** The result of one form submission: the new state and the action it invoked, if any. */
  datatype Submission<A> = Submission(state: GateState<A>, invoked: Option<A>)

  /** `showPasswordModal(actionFn)`: arm the slot (or clear it for a non-function), hide the error, open. */
  function Show<A>(g: GateState<A>, cb: Callback<A>): (r: GateState<A>)
    ensures r.open && !r.errorShown
    ensures cb.Fn? ==> r.pending == Some(cb.action)
    ensures cb.NotFn? ==> r.pending.None?
  {
    GateState(if cb.Fn? then Some(cb.action) else None, true, false)
  }

  /** The form's submit handler with the typed text `input`. */
  function Submit<A>(g: GateState<A>, input: string): (r: Submission<A>)
    ensures input != Password ==> r.invoked.None? && r.state == g.(errorShown := true)
    ensures input == Password ==> r.invoked == g.pending && r.state.pending.None? && !r.state.open
  {
    if input != Password then Submission(g.(errorShown := true), None)
    else Submission(g.(pending := None, open := false), g.pending)
  }

  /** Several submissions in a row, collecting every action they invoke. */
  function Run<A>(g: GateState<A>, inputs: seq<string>): (r: (GateState<A>, seq<A>))
    decreases |inputs|
  {
    if |inputs| == 0 then (g, [])
    else
      var s := Submit(g, inputs[0]);
      var rest := Run(s.state, inputs[1..]);
      (rest.0, (if s.invoked.Some? then [s.invoked.value] else []) + rest.1)
  }

  /** A gate with nothing armed invokes nothing, whatever is typed. */
  lemma {:induction false} RunDisarmed<A>(g: GateState<A>, inputs: seq<string>)
    requires g.pending.None?
    ensures Run(g, inputs).1 == [] && Run(g, inputs).0.pending.None?
    decreases |inputs|
  {
    if |inputs| > 0 {
      RunDisarmed(Submit(g, inputs[0]).state, inputs[1..]);
    }
  }

  /**
   * After arming action `a`, any sequence of attempts invokes `a` exactly once
   * if the password is among them and never otherwise; the slot stays armed
   * until then and is empty afterwards.
   */
  lemma {:induction false} ArmedRunsOnce<A>(g: GateState<A>, a: A, inputs: seq<string>)
    requires g.pending == Some(a)
    ensures Password in inputs ==> Run(g, inputs).1 == [a] && Run(g, inputs).0.pending.None?
    ensures Password !in inputs ==> Run(g, inputs).1 == [] && Run(g, inputs).0.pending == Some(a)
    decreases |inputs|
  {
    if |inputs| > 0 {
      var s := Submit(g, inputs[0]);
      if inputs[0] == Password {
        RunDisarmed(s.state, inputs[1..]);
      } else {
        ArmedRunsOnce(s.state, a, inputs[1..]);
        assert Password in inputs <==> Password in inputs[1..];
      }
    }
  }

  /** Opening the modal again before the password is typed replaces the armed action. */
  lemma ShowReplaces<A>(g: GateState<A>, first: A, second: A, inputs: seq<string>)
    requires Password in inputs
    ensures Run(Show(Show(g, Fn(first)), Fn(second)), inputs).1 == [second]
  {
    ArmedRunsOnce(Show(Show(g, Fn(first)), Fn(second)), second, inputs);
  }
}
