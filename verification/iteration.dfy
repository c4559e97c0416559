/** The serial iterator (`asyncSerial`): visit the entries of a collection
    one at a time, in order, each step waiting for the previous one, and stop
    at the first step that reports an error.

    The JavaScript threads its state through closures and clears the stack
    with a timer between steps; here the state is an explicit accumulator
    and the iteration is a terminating left fold with early exit. An
    object's keys are read once, before the first step, so the fold runs
    over a sequence fixed at the start. */
module Iteration {
  import opened Results

  /** The outcome `finished` receives: the first error, or the final state. */
  function Serial<T, S>(items: seq<T>, step: (S, T) -> Result<S>, s: S): Result<S>
    decreases |items|
  {
    if |items| == 0 then Success(s)
    else
      match step(s, items[0])
      case Failure(e) => Failure(e)
      case Success(s') => Serial(items[1..], step, s')
  }

  /** The positions 0, 1, ..., n - 1: what the iterator visits for an
      array of length n, or for an object's n snapshotted keys. */
  function Indices(n: nat): (r: seq<nat>)
    ensures |r| == n
    ensures forall i :: 0 <= i < n ==> r[i] == i
    ensures forall x: nat :: x in r <==> x < n
  {
    var r := seq(n, i requires 0 <= i => i);
    forall x: nat | x < n ensures x in r {
      assert r[x] == x;
    }
    r
  }

  /** How many times `process` is invoked: every entry up to and including
      the first one whose step fails. */
  function Visited<T, S>(items: seq<T>, step: (S, T) -> Result<S>, s: S): (n: nat)
    ensures n <= |items|
    ensures |items| > 0 ==> n > 0
    decreases |items|
  {
    if |items| == 0 then 0
    else
      match step(s, items[0])
      case Failure(_) => 1
      case Success(s') => 1 + Visited(items[1..], step, s')
  }

  /** What the iterator's callbacks do, in the order they happen. */
  datatype Event<T> = Visit(index: nat, item: T) | Finished(error: Option<Error>)

  /** The iterator as a loop that records each `process` call and the one
      `finished` call. */
  method RunSerial<T, S>(items: seq<T>, step: (S, T) -> Result<S>, init: S)
    returns (trace: seq<Event<T>>, outcome: Result<S>)
    ensures outcome == Serial(items, step, init)
    ensures |trace| == Visited(items, step, init) + 1
    ensures forall k :: 0 <= k < |trace| - 1 ==> trace[k] == Visit(k, items[k])
    ensures trace[|trace| - 1] == Finished(if outcome.Failure? then Some(outcome.error) else None)
  {
    var i := 0;
    var state := init;
    var err: Option<Error> := None;
    trace := [];
    while i < |items| && err.None?
      invariant 0 <= i <= |items|
      invariant |trace| == i
      invariant forall k :: 0 <= k < i ==> trace[k] == Visit(k, items[k])
      invariant err.None? ==> Serial(items, step, init) == Serial(items[i..], step, state)
      invariant err.None? ==> Visited(items, step, init) == i + Visited(items[i..], step, state)
      invariant err.Some? ==> Serial(items, step, init) == Failure(err.value)
      invariant err.Some? ==> Visited(items, step, init) == i
    {
      assert items[i..][1..] == items[i + 1..];
      trace := trace + [Visit(i, items[i])];
      match step(state, items[i]) {
        case Failure(e) =>
          err := Some(e);
        case Success(t) =>
          state := t;
      }
      i := i + 1;
    }
    if err.Some? {
      outcome := Failure(err.value);
    } else {
      outcome := Success(state);
    }
    trace := trace + [Finished(err)];
  }

  /** Iterating `a + b` is iterating `a`, then, only if that succeeded,
      iterating `b` from the state `a` left. */
  lemma {:induction false} SerialAppend<T, S>(a: seq<T>, b: seq<T>, step: (S, T) -> Result<S>, s: S)
    ensures Serial(a + b, step, s) ==
      match Serial(a, step, s)
      case Failure(e) => Failure(e)
      case Success(t) => Serial(b, step, t)
    decreases |a|
  {
    if |a| > 0 {
      assert (a + b)[1..] == a[1..] + b;
      match step(s, a[0]) {
        case Failure(e) =>
        case Success(t) =>
          SerialAppend(a[1..], b, step, t);
      }
    } else {
      assert a + b == b;
    }
  }

  /** Short-circuit: once a step has failed, entries after it are never
      processed, so any collection that agrees on the visited prefix gives
      the same error after the same number of visits. */
  lemma {:induction false} SerialStopsAtFirstError<T, S>(items: seq<T>, other: seq<T>, step: (S, T) -> Result<S>, s: S)
    requires Serial(items, step, s).Failure?
    requires Visited(items, step, s) <= |other|
    requires other[..Visited(items, step, s)] == items[..Visited(items, step, s)]
    ensures Serial(other, step, s) == Serial(items, step, s)
    ensures Visited(other, step, s) == Visited(items, step, s)
    decreases |items|
  {
    var n := Visited(items, step, s);
    assert other[0] == other[..n][0] == items[..n][0] == items[0];
    match step(s, items[0]) {
      case Failure(e) =>
      case Success(t) =>
        assert other[1..][..n - 1] == other[..n][1..];
        assert items[1..][..n - 1] == items[..n][1..];
        SerialStopsAtFirstError(items[1..], other[1..], step, t);
    }
  }

  /** The iterator succeeds only after visiting every entry; when it fails,
      every entry before the last one visited was processed successfully
      and the step at that last entry is the one that failed, with the
      iterator's error. */
  lemma {:induction false} SerialOutcomeAtLastVisit<T, S>(items: seq<T>, step: (S, T) -> Result<S>, s: S)
    ensures Serial(items, step, s).Success? ==> Visited(items, step, s) == |items|
    ensures Serial(items, step, s).Failure? ==>
      var n := Visited(items, step, s);
      && 0 < n <= |items|
      && Serial(items[..n - 1], step, s).Success?
      && step(Serial(items[..n - 1], step, s).value, items[n - 1]) == Serial(items, step, s)
    decreases |items|
  {
    if |items| > 0 {
      match step(s, items[0]) {
        case Failure(e) =>
          assert items[..0] == [];
        case Success(t) =>
          SerialOutcomeAtLastVisit(items[1..], step, t);
          if Serial(items, step, s).Failure? {
            var n := Visited(items, step, s);
            assert items[..n - 1] == [items[0]] + items[1..][..n - 2] by {
              assert n >= 2;
            }
            assert items[..n - 1][1..] == items[1..][..n - 2];
            assert items[n - 1] == items[1..][n - 2];
          }
      }
    }
  }

  /** A property of the state that every successful step preserves holds
      of the state the iterator finishes with. */
  lemma {:induction false} SerialInvariant<T, S>(items: seq<T>, step: (S, T) -> Result<S>, s: S, P: S -> bool)
    requires P(s)
    requires forall t, x :: x in items && P(t) && step(t, x).Success? ==> P(step(t, x).value)
    ensures Serial(items, step, s).Success? ==> P(Serial(items, step, s).value)
    decreases |items|
  {
    if |items| > 0 {
      assert items[0] in items;
      assert forall x :: x in items[1..] ==> x in items;
      match step(s, items[0]) {
        case Failure(e) =>
        case Success(t) =>
          SerialInvariant(items[1..], step, t, P);
      }
    }
  }

  /** When every step leaves the state as it is, so does the iterator. */
  lemma {:induction false} SerialIdentity<T, S>(items: seq<T>, step: (S, T) -> Result<S>, s: S)
    requires forall x :: x in items ==> step(s, x) == Success(s)
    ensures Serial(items, step, s) == Success(s)
    decreases |items|
  {
    if |items| > 0 {
      assert items[0] in items;
      assert forall x :: x in items[1..] ==> x in items;
      SerialIdentity(items[1..], step, s);
    }
  }

  /** Two steps that agree wherever the first succeeds give the same
      successful iteration. */
  lemma {:induction false} SerialAgree<T, S>(items: seq<T>, step: (S, T) -> Result<S>, other: (S, T) -> Result<S>, s: S)
    requires Serial(items, step, s).Success?
    requires forall t, x :: x in items && step(t, x).Success? ==> other(t, x) == step(t, x)
    ensures Serial(items, other, s) == Serial(items, step, s)
    decreases |items|
  {
    if |items| > 0 {
      assert items[0] in items;
      assert forall x :: x in items[1..] ==> x in items;
      match step(s, items[0]) {
        case Failure(e) =>
        case Success(t) =>
          SerialAgree(items[1..], step, other, t);
      }
    }
  }

  /** Two steps that agree wherever the first does not fail with `e` give
      the same iteration, whenever the first iteration does not end with
      `e`: an error is passed on as it is, so a step failing with another
      error ends both iterations alike. */
  lemma {:induction false} SerialAgreeUnless<T, S>(items: seq<T>, step: (S, T) -> Result<S>, other: (S, T) -> Result<S>,
                                                   s: S, e: Error)
    requires Serial(items, step, s) != Failure(e)
    requires forall t, x :: x in items && step(t, x) != Failure(e) ==> other(t, x) == step(t, x)
    ensures Serial(items, other, s) == Serial(items, step, s)
    decreases |items|
  {
    if |items| > 0 {
      assert items[0] in items;
      assert forall x :: x in items[1..] ==> x in items;
      match step(s, items[0]) {
        case Failure(d) =>
        case Success(t) =>
          SerialAgreeUnless(items[1..], step, other, t, e);
      }
    }
  }
}
