/** A `while (pending(s)) s = step(s);` loop, given a bound on its turns,
    and the states it passes through. A turn may throw instead of returning
    the next state. */
module Iteration {
  import opened Wrappers

  /** How the bounded loop stops: at a state where nothing is pending, where
      a turn throws (with the state that turn started from), or with the
      turns used up. */
  datatype Ending<S, E> =
    | Done(state: S)
    | Raised(error: E, state: S)
    | Exhausted(state: S)

  /** `t` is reached from `s` by `n` turns, each taken from a pending state
      and each returning normally. */
  ghost predicate Reaches<S(!new), E>(step: S --> Result<S, E>, pending: S -> bool, s: S, t: S, n: nat)
    decreases n
  {
    if n == 0 then t == s
    else pending(s) && step.requires(s) && step(s).Ok? && Reaches(step, pending, step(s).value, t, n - 1)
  }

  /** The loop run for at most `fuel` turns. It stops at a state `n` turns
      away with nothing pending, at a pending state whose turn throws, or,
      after all `fuel` turns, at a state that is still pending. */
  function Run<S(!new), E>(step: S --> Result<S, E>, pending: S -> bool, s: S, fuel: nat): (r: Ending<S, E>)
    requires forall x :: pending(x) ==> step.requires(x)
    ensures r.Done? ==> !pending(r.state) && exists n: nat :: n <= fuel && Reaches(step, pending, s, r.state, n)
    ensures r.Raised? ==> && pending(r.state) && step(r.state) == Err(r.error)
                          && exists n: nat :: n < fuel && Reaches(step, pending, s, r.state, n)
    ensures r.Exhausted? ==> pending(r.state) && Reaches(step, pending, s, r.state, fuel)
    decreases fuel
  {
    if !pending(s) then
      assert Reaches(step, pending, s, s, 0);
      Done(s)
    else if fuel == 0 then
      assert Reaches(step, pending, s, s, 0);
      Exhausted(s)
    else
      match step(s)
      case Err(e) =>
        assert Reaches(step, pending, s, s, 0);
        Raised(e, s)
      case Ok(next) =>
        var r := Run(step, pending, next, fuel - 1);
        ReachesThroughFirstTurn(step, pending, s);
        r
  }

  /** Whatever the state after the first turn reaches, the start reaches in
      one more turn. */
  lemma ReachesThroughFirstTurn<S(!new), E>(step: S --> Result<S, E>, pending: S -> bool, s: S)
    requires pending(s) && step.requires(s) && step(s).Ok?
    ensures forall t, n: nat :: Reaches(step, pending, step(s).value, t, n) ==> Reaches(step, pending, s, t, n + 1)
  {
  }

  /** The turns are deterministic: `n` turns from `s` lead to one state. */
  lemma {:induction false} ReachesDeterministic<S(!new), E>(step: S --> Result<S, E>, pending: S -> bool, s: S, t: S, u: S, n: nat)
    requires Reaches(step, pending, s, t, n) && Reaches(step, pending, s, u, n)
    ensures t == u
    decreases n
  {
    if n > 0 {
      ReachesDeterministic(step, pending, step(s).value, t, u, n - 1);
    }
  }

  /** The states before the last one of a run are all pending: a state with
      nothing pending is reached in no turns or ends every longer run. */
  lemma {:induction false} ReachesOnlyThroughPending<S(!new), E>(step: S --> Result<S, E>, pending: S -> bool, s: S, t: S, n: nat, m: nat)
    requires Reaches(step, pending, s, t, n) && !pending(t) && n < m
    ensures forall u :: !Reaches(step, pending, s, u, m)
    decreases n
  {
    if n == 0 {
      assert !pending(s);
    } else {
      ReachesOnlyThroughPending(step, pending, step(s).value, t, n - 1, m - 1);
    }
  }

  /** Conversely, once `n` turns from `s` reach a state with nothing
      pending and the fuel covers them, the loop stops there. */
  lemma {:induction false} RunStopsWhereNothingPending<S(!new), E>(step: S --> Result<S, E>, pending: S -> bool, s: S, t: S, n: nat, fuel: nat)
    requires forall x :: pending(x) ==> step.requires(x)
    requires Reaches(step, pending, s, t, n) && !pending(t) && n <= fuel
    ensures Run(step, pending, s, fuel) == Done(t)
    decreases n
  {
    if n > 0 {
      RunStopsWhereNothingPending(step, pending, step(s).value, t, n - 1, fuel - 1);
    }
  }

  /** Conversely, once `n` turns from `s` reach a pending state whose turn
      throws and the fuel covers them, the loop throws there. */
  lemma {:induction false} RunRaisesWhereTurnThrows<S(!new), E>(step: S --> Result<S, E>, pending: S -> bool, s: S, t: S, n: nat, fuel: nat)
    requires forall x :: pending(x) ==> step.requires(x)
    requires Reaches(step, pending, s, t, n) && pending(t) && step(t).Err? && n < fuel
    ensures Run(step, pending, s, fuel) == Raised(step(t).error, t)
    decreases n
  {
    if n > 0 {
      RunRaisesWhereTurnThrows(step, pending, step(s).value, t, n - 1, fuel - 1);
    }
  }
}
