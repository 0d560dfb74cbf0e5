/**
 The circuit breaker of pkg/cache/circuitbreaker.go, with each guarded operation as one atomic
 step. The clock is read once to admit the operation and once more to record its failure.
 */
module CircuitBreaker {
  import opened Wrappers

  datatype State = Closed | Open | HalfOpen

  datatype Breaker = Breaker(state: State, failures: int, openedAt: int)

  const NEW := Breaker(Closed, 0, 0)

  /** One guarded operation: admitted at `at`, and its inner outcome recorded at `done`. */
  datatype Op = Op(at: int, done: int, fails: bool)

  /** `allow`: whether the inner cache is called, and the breaker as the call leaves it. */
  function Allow(timeout: int, b: Breaker, now: int): (bool, Breaker) {
    match b.state
    case Closed => (true, b)
    case Open => if now - b.openedAt >= timeout then (true, b.(state := HalfOpen)) else (false, b)
    case HalfOpen => (true, b)
  }

  function RecordFailure(threshold: int, b: Breaker, now: int): Breaker {
    var b1 := b.(failures := b.failures + 1);
    if b1.failures >= threshold && (b1.state.Closed? || b1.state.HalfOpen?)
    then b1.(state := Open, openedAt := now) else b1
  }

  function Step(threshold: int, timeout: int, b: Breaker, op: Op): (bool, Breaker) {
    var (called, b1) := Allow(timeout, b, op.at);
    if !called then (false, b1)
    else if op.fails then (true, RecordFailure(threshold, b1, op.done))
    else (true, b1.(failures := 0, state := Closed))
  }

  /** The guard of `allow`: an open breaker whose timeout has not passed. */
  predicate Refuses(timeout: int, b: Breaker, now: int) {
    b.state.Open? && now - b.openedAt < timeout
  }

  datatype Outcome = Skipped | Succeeded | Failed

  class Guard {
    const threshold: int
    const timeout: int
    var state: State
    var failures: int
    var openedAt: int

    constructor (threshold: int, timeout: int)
      ensures this.threshold == threshold && this.timeout == timeout && Now() == NEW
    {
      this.threshold, this.timeout := threshold, timeout;
      state, failures, openedAt := Closed, 0, 0;
    }

    ghost function Now(): Breaker
      reads this
    {
      Breaker(state, failures, openedAt)
    }

    /** The frame shared by Get, Set, SetTTL and Delete around the inner call. */
    method Operate(op: Op) returns (r: Outcome)
      modifies this
      ensures var (called, b) := Step(threshold, timeout, old(Now()), op);
        && Now() == b
        && r == (if !called then Skipped else if op.fails then Failed else Succeeded)
        && (called <==> !Refuses(timeout, old(Now()), op.at))
    {
      if state.Open? {
        if op.at - openedAt < timeout {
          return Skipped;
        }
        state := HalfOpen;
      }
      if op.fails {
        failures := failures + 1;
        if failures >= threshold {
          if state.Closed? || state.HalfOpen? {
            state := Open;
            openedAt := op.done;
          }
        }
        return Failed;
      }
      failures := 0;
      state := Closed;
      return Succeeded;
    }
  }

  // ----- runs

  function After(threshold: int, timeout: int, b: Breaker, ops: seq<Op>): Breaker {
    if ops == [] then b
    else Step(threshold, timeout, After(threshold, timeout, b, ops[..|ops| - 1]), ops[|ops| - 1]).1
  }

  /** The outcomes of the inner calls actually made, in order; true is a failure. */
  function InnerCalls(threshold: int, timeout: int, b: Breaker, ops: seq<Op>): seq<bool> {
    if ops == [] then []
    else
      var init := ops[..|ops| - 1];
      InnerCalls(threshold, timeout, b, init)
      + if Step(threshold, timeout, After(threshold, timeout, b, init), ops[|ops| - 1]).0
        then [ops[|ops| - 1].fails] else []
  }

  /** How many failures the log ends with. */
  function Trailing(log: seq<bool>): nat {
    if log == [] || !log[|log| - 1] then 0 else 1 + Trailing(log[..|log| - 1])
  }

  function Needed(threshold: int): int {
    if threshold < 1 then 1 else threshold
  }

  /** Between operations the breaker is closed below the threshold and open from it on. */
  predicate Settled(threshold: int, b: Breaker) {
    b.failures >= 0 && b.state == if b.failures < Needed(threshold) then Closed else Open
  }

  lemma StepSettled(threshold: int, timeout: int, b: Breaker, op: Op)
    requires Settled(threshold, b)
    ensures Settled(threshold, Step(threshold, timeout, b, op).1)
  {
  }

  /** In every run the counter is the number of inner failures since the last inner success. */
  lemma {:induction false} FailuresAreTrailing(threshold: int, timeout: int, ops: seq<Op>)
    ensures
      var b := After(threshold, timeout, NEW, ops);
      Settled(threshold, b) && b.failures == Trailing(InnerCalls(threshold, timeout, NEW, ops))
    decreases |ops|
  {
    if ops != [] {
      var init, op := ops[..|ops| - 1], ops[|ops| - 1];
      FailuresAreTrailing(threshold, timeout, init);
      StepSettled(threshold, timeout, After(threshold, timeout, NEW, init), op);
      TrailingSnoc(InnerCalls(threshold, timeout, NEW, init), op.fails);
    }
  }

  /** The last operation that reached the inner cache. */
  function LastCall(threshold: int, timeout: int, b: Breaker, ops: seq<Op>): Option<Op> {
    if ops == [] then None
    else
      var init, op := ops[..|ops| - 1], ops[|ops| - 1];
      if Step(threshold, timeout, After(threshold, timeout, b, init), op).0 then Some(op)
      else LastCall(threshold, timeout, b, init)
  }

  /** An open breaker opened at the very moment its last inner failure was recorded. */
  lemma {:induction false} OpenSinceLastFailure(threshold: int, timeout: int, ops: seq<Op>)
    ensures
      var b, last := After(threshold, timeout, NEW, ops), LastCall(threshold, timeout, NEW, ops);
      b.state.Open? ==> last.Some? && last.value.fails && b.openedAt == last.value.done
    decreases |ops|
  {
    if ops != [] {
      var init := ops[..|ops| - 1];
      OpenSinceLastFailure(threshold, timeout, init);
      FailuresAreTrailing(threshold, timeout, init);
    }
  }

  /**
   Admission, over whole runs and without the breaker's state: the next operation reaches the
   inner cache exactly if the last inner calls in a row that failed are fewer than the threshold,
   or the timeout has passed since the last of them was recorded.
   */
  lemma AdmittedExactly(threshold: int, timeout: int, ops: seq<Op>, op: Op)
    ensures
      var last := LastCall(threshold, timeout, NEW, ops);
      Step(threshold, timeout, After(threshold, timeout, NEW, ops), op).0 <==>
        || Trailing(InnerCalls(threshold, timeout, NEW, ops)) < Needed(threshold)
        || (last.Some? && op.at >= last.value.done + timeout)
  {
    FailuresAreTrailing(threshold, timeout, ops);
    OpenSinceLastFailure(threshold, timeout, ops);
  }

  lemma TrailingSnoc(log: seq<bool>, fails: bool)
    ensures Trailing(log + [fails]) == if fails then 1 + Trailing(log) else 0
    ensures log + [] == log
  {
    assert (log + [fails])[..|log|] == log;
  }

  // ----- the bound on calls to a failing backend

  /** Operations one after the other between two times, all of whose inner calls fail. */
  predicate FailingStretch(from: int, to: int, ops: seq<Op>)
    decreases |ops|
  {
    if ops == [] then from <= to
    else from <= ops[0].at <= ops[0].done && ops[0].fails && FailingStretch(ops[0].done, to, ops[1..])
  }

  function Calls(threshold: int, timeout: int, b: Breaker, ops: seq<Op>): nat
    decreases |ops|
  {
    if ops == [] then 0
    else
      var (called, b') := Step(threshold, timeout, b, ops[0]);
      (if called then 1 else 0) + Calls(threshold, timeout, b', ops[1..])
  }

  /** When an open breaker next lets a call through. */
  function NextProbe(timeout: int, b: Breaker, now: int): int {
    if b.openedAt + timeout < now then now else b.openedAt + timeout
  }

  /** The time that `calls` failing calls take at least, seen from a settled breaker. */
  predicate Fits(threshold: int, timeout: int, b: Breaker, now: int, to: int, calls: nat) {
    if b.state.Closed? then calls * timeout <= (Needed(threshold) - b.failures) * timeout + (to - now)
    else calls == 0 || (calls - 1) * timeout <= to - NextProbe(timeout, b, now)
  }

  lemma {:induction false} CallsFit(threshold: int, timeout: int, b: Breaker, from: int, to: int, ops: seq<Op>)
    requires timeout > 0 && Settled(threshold, b) && FailingStretch(from, to, ops)
    ensures Fits(threshold, timeout, b, from, to, Calls(threshold, timeout, b, ops))
    decreases |ops|
  {
    if ops == [] {
      Nonnegative(Needed(threshold) - b.failures, timeout);
    } else {
      var op, rest := ops[0], ops[1..];
      var (called, b') := Step(threshold, timeout, b, op);
      StepSettled(threshold, timeout, b, op);
      CallsFit(threshold, timeout, b', op.done, to, rest);
      var n: int := Calls(threshold, timeout, b', rest);
      OneMore(n, timeout);
      OneMore(n - 1, timeout);
      OneMore(Needed(threshold) - b.failures - 1, timeout);
      StretchLength(op.done, to, rest);
    }
  }

  lemma Nonnegative(a: int, t: int)
    requires t > 0
    ensures a >= 0 ==> a * t >= 0
  {
  }

  lemma OneMore(a: int, t: int)
    ensures (a + 1) * t == a * t + t
  {
  }

  lemma {:induction false} StretchLength(from: int, to: int, ops: seq<Op>)
    requires FailingStretch(from, to, ops)
    ensures from <= to
    decreases |ops|
  {
    if ops != [] {
      StretchLength(ops[0].done, to, ops[1..]);
    }
  }

  /**
   While the backend keeps failing, a stretch of length L from any settled state makes at most
   threshold + L / timeout inner calls.
   */
  lemma FailingBackendBound(threshold: int, timeout: int, b: Breaker, from: int, to: int, ops: seq<Op>)
    requires timeout > 0 && Settled(threshold, b) && FailingStretch(from, to, ops)
    ensures Calls(threshold, timeout, b, ops) <= Needed(threshold) + (to - from) / timeout
  {
    CallsFit(threshold, timeout, b, from, to, ops);
    var n: int := Calls(threshold, timeout, b, ops);
    OneMore(n - 1, timeout);
    ProductMonotone(1, Needed(threshold), timeout);
    ProductMonotone(Needed(threshold) - b.failures, Needed(threshold), timeout);
    if n > 0 {
      assert n * timeout <= Needed(threshold) * timeout + (to - from);
      DivideBound(n, Needed(threshold), to - from, timeout);
    } else {
      StretchLength(from, to, ops);
    }
  }

  lemma ProductMonotone(a: int, b: int, t: int)
    requires t > 0
    ensures a <= b ==> a * t <= b * t
  {
  }

  lemma DivideBound(n: int, k: int, l: int, t: int)
    requires t > 0 && n * t <= k * t + l
    ensures n <= k + l / t
  {
    var q, r := l / t, l % t;
    assert l == q * t + r;
    assert (n - k - q) * t == n * t - k * t - q * t;
    LessThanOne(n - k - q, t);
  }

  lemma LessThanOne(d: int, t: int)
    requires t > 0 && d * t < t
    ensures d < 1
  {
  }
}
