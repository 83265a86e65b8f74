/** `timer`: one cancellable countdown. It takes a deadline from a monotonic
    clock, then, while the clock is before the deadline and the shared flag
    still reads "running", prints the whole seconds left and sleeps one
    second. It reports whether the flag read "stopped" afterwards.

    The clock and the flag belong to the environment. They are modelled as
    oracles: the instants the loop reads, and the values the flag has at each
    load. Instants are in nanoseconds, the resolution of `Duration`. */
module Countdown {
  import opened Units
  import opened Rendering

  const NanosPerSecond: nat := 1_000_000_000

  /** What one call of `timer` observes of the world. */
  datatype Environment = Environment(
    start: nat,             // `Instant::now()` on entry, from which the deadline is taken
    test: nat -> nat,       // instant read by the k-th evaluation of the loop test
    body: nat -> nat,       // instant read by the k-th pass to compute what is left
    running: nat -> bool)   // value of the flag at its k-th load within this call

  /** What a real environment guarantees: the clock never goes back, each
      pass sleeps for at least one second before the next test reads the
      clock, and the flag, once cleared by the Ctrl-C handler, stays cleared. */
  ghost predicate Plausible(env: Environment) {
    && env.start <= env.test(0)
    && (forall k: nat :: Tick(env, k))
    && (forall i: nat, j: nat :: i <= j && !env.running(i) ==> !env.running(j))
  }

  /** Within the k-th pass the clock is read after the test's reading, and the
      one-second sleep separates it from the next test's reading. */
  ghost predicate Tick(env: Environment, k: nat) {
    env.test(k) <= env.body(k) && env.body(k) + NanosPerSecond <= env.test(k + 1)
  }

  /** The deadline `now + Duration::from_secs(duration)`. */
  function Deadline(env: Environment, duration: uint64): nat {
    env.start + duration * NanosPerSecond
  }

  /** `(end - now).as_secs()`: whole seconds to the deadline; the subtraction
      of instants saturates at zero when `now` is already past `end`. */
  function SecondsLeft(deadline: nat, now: nat): (secs: nat)
    ensures now >= deadline ==> secs == 0
    ensures now < deadline ==>
              secs * NanosPerSecond <= deadline - now < (secs + 1) * NanosPerSecond
  {
    (if now < deadline then deadline - now else 0) / NanosPerSecond
  }

  /** The seconds shown by each pass, and the value `timer` returns. */
  datatype Outcome = Outcome(shown: seq<nat>, interrupted: bool)

  /** The countdown from its k-th loop test on. A pass runs when the clock is
      before the deadline and the flag reads "running"; the flag is loaded by
      the test only if the clock check passed, so the final load is the k-th
      or the (k+1)-th. */
  function Passes(env: Environment, deadline: nat, k: nat): Outcome
    requires Plausible(env)
    decreases if env.test(k) < deadline then deadline - env.test(k) else 0
  {
    if env.test(k) < deadline && env.running(k) then
      assert Tick(env, k);
      var rest := Passes(env, deadline, k + 1);
      Outcome([SecondsLeft(deadline, env.body(k))] + rest.shown, rest.interrupted)
    else if env.test(k) < deadline then
      Outcome([], !env.running(k + 1))
    else
      Outcome([], !env.running(k))
  }

  /** What a whole call of `timer` shows and returns. */
  function Run(env: Environment, duration: uint64): Outcome
    requires Plausible(env)
  {
    Passes(env, Deadline(env, duration), 0)
  }

  /** `timer(duration, &running)`: returns `!running` as loaded after the loop,
      together with the lines printed: one per pass of the loop, each the
      rendering of the whole seconds left at that pass. */
  method Timer(duration: uint64, env: Environment) returns (interrupted: bool, screen: seq<string>)
    requires Plausible(env)
    ensures interrupted == Run(env, duration).interrupted
    ensures |screen| == |Run(env, duration).shown|
    ensures forall i :: 0 <= i < |screen| ==> screen[i] == Render(Run(env, duration).shown[i])
  {
    var deadline: nat := env.start + duration * NanosPerSecond;
    var k: nat := 0;
    ghost var shown: seq<nat> := [];
    screen := [];
    while env.test(k) < deadline && env.running(k)
      invariant Passes(env, deadline, 0).shown == shown + Passes(env, deadline, k).shown
      invariant Passes(env, deadline, 0).interrupted == Passes(env, deadline, k).interrupted
      invariant |screen| == |shown|
      invariant forall i :: 0 <= i < |shown| ==> screen[i] == Render(shown[i])
      decreases deadline - env.test(k)
    {
      PassStep(env, deadline, k);
      var remaining := if env.body(k) < deadline then deadline - env.body(k) else 0;
      var secs := remaining / NanosPerSecond;
      assert secs == SecondsLeft(deadline, env.body(k));
      assert shown + Passes(env, deadline, k).shown == (shown + [secs]) + Passes(env, deadline, k + 1).shown;
      screen := screen + [Render(secs)];
      shown := shown + [secs];
      k := k + 1;
    }
    PassesEnd(env, deadline, k);
    assert shown + [] == shown;
    var loads := if env.test(k) < deadline then k + 1 else k;
    interrupted := !env.running(loads);
  }

  /** No pass: nothing more is shown, and the result is the negation of
      the flag at the load after the loop. That load is the (k+1)-th when the test loaded the flag
      (its clock check passed) and the k-th when the clock check failed and
      the test made no load. */
  lemma PassesEnd(env: Environment, deadline: nat, k: nat)
    requires Plausible(env) && !(env.test(k) < deadline && env.running(k))
    ensures Passes(env, deadline, k).shown == []
    ensures Passes(env, deadline, k).interrupted ==
            !env.running(if env.test(k) < deadline then k + 1 else k)
  {
  }

  /** One pass: it shows the seconds left at its clock reading, and the next
      test reads the clock at least a second later. */
  lemma PassStep(env: Environment, deadline: nat, k: nat)
    requires Plausible(env) && env.test(k) < deadline && env.running(k)
    ensures env.test(k) + NanosPerSecond <= env.test(k + 1)
    ensures Passes(env, deadline, k).shown ==
            [SecondsLeft(deadline, env.body(k))] + Passes(env, deadline, k + 1).shown
    ensures Passes(env, deadline, k).interrupted == Passes(env, deadline, k + 1).interrupted
  {
    assert Tick(env, k);
  }

  // ---------------------------------------------------------------------------
  // Properties of a countdown

  /** After k sleeps of one second the clock has moved at least k seconds. */
  lemma {:induction false} ClockAdvances(env: Environment, k: nat)
    requires Plausible(env)
    ensures env.test(k) >= env.start + k * NanosPerSecond
  {
    if k > 0 {
      ClockAdvances(env, k - 1);
      assert Tick(env, k - 1);
    }
  }

  /** Each pass saw the clock before the deadline and the flag set: nothing
      is shown once the flag has been seen cleared. */
  lemma {:induction false} PassesSawFlagSet(env: Environment, deadline: nat, k: nat)
    requires Plausible(env)
    ensures forall j :: k <= j < k + |Passes(env, deadline, k).shown| ==>
              env.test(j) < deadline && env.running(j)
    decreases if env.test(k) < deadline then deadline - env.test(k) else 0
  {
    if env.test(k) < deadline && env.running(k) {
      assert Tick(env, k);
      PassesSawFlagSet(env, deadline, k + 1);
    }
  }

  /** The result is the negation of the flag at the load after the last pass:
      `timer` reports an interruption exactly when the flag reads cleared. */
  lemma {:induction false} PassesOutcome(env: Environment, deadline: nat, k: nat)
    requires Plausible(env)
    ensures Passes(env, deadline, k).interrupted == !env.running(k + |Passes(env, deadline, k).shown|)
    ensures !Passes(env, deadline, k).interrupted ==>
              env.test(k + |Passes(env, deadline, k).shown|) >= deadline
    decreases if env.test(k) < deadline then deadline - env.test(k) else 0
  {
    if env.test(k) < deadline && env.running(k) {
      assert Tick(env, k);
      PassesOutcome(env, deadline, k + 1);
    }
  }

  /** `timer` returns true exactly when the flag reads cleared at the first
      load after the last printing pass (the load after the loop, or the
      final test's load when that test saw the flag cleared; the two agree
      because the flag is never set again), and every pass that printed a
      line had seen the flag set. */
  lemma OutcomeIsFlag(env: Environment, duration: uint64)
    requires Plausible(env)
    ensures Run(env, duration).interrupted == !env.running(|Run(env, duration).shown|)
    ensures forall i :: 0 <= i < |Run(env, duration).shown| ==> env.running(i)
  {
    PassesOutcome(env, Deadline(env, duration), 0);
    PassesSawFlagSet(env, Deadline(env, duration), 0);
  }

  /** A countdown that reports completion has let the whole duration pass on
      the clock. */
  lemma CompletionTakesDuration(env: Environment, duration: uint64)
    requires Plausible(env)
    ensures !Run(env, duration).interrupted ==>
              env.test(|Run(env, duration).shown|) >= env.start + duration * NanosPerSecond
  {
    PassesOutcome(env, Deadline(env, duration), 0);
  }

  /** A flag already cleared on entry: no pass, nothing printed, interruption reported. */
  lemma ClearedOnEntry(env: Environment, duration: uint64)
    requires Plausible(env) && !env.running(0)
    ensures Run(env, duration).shown == [] && Run(env, duration).interrupted
  {
  }

  /** A zero duration: no pass, no sleep, and the result is the negation of
      the flag at entry, so with the flag set it is false and the caller goes
      on to play a cue. */
  lemma ZeroDuration(env: Environment)
    requires Plausible(env)
    ensures Run(env, 0).shown == []
    ensures Run(env, 0).interrupted == !env.running(0)
  {
  }

  /** The number of passes is at most the duration in seconds. */
  lemma {:induction false} PassesCount(env: Environment, duration: uint64, k: nat)
    requires Plausible(env) && k <= duration
    ensures k + |Passes(env, Deadline(env, duration), k).shown| <= duration
    decreases duration - k
  {
    var deadline := Deadline(env, duration);
    if env.test(k) < deadline && env.running(k) {
      ClockAdvances(env, k);
      assert k < duration;
      PassesCount(env, duration, k + 1);
    }
  }

  /** No shown value exceeds the duration. */
  lemma {:induction false} PassesBounded(env: Environment, duration: uint64, k: nat)
    requires Plausible(env)
    ensures forall i :: 0 <= i < |Passes(env, Deadline(env, duration), k).shown| ==>
              Passes(env, Deadline(env, duration), k).shown[i] <= duration
    decreases if env.test(k) < Deadline(env, duration) then Deadline(env, duration) - env.test(k) else 0
  {
    var deadline := Deadline(env, duration);
    if env.test(k) < deadline && env.running(k) {
      assert Tick(env, k);
      ClockAdvances(env, k);
      assert deadline - env.body(k) <= duration * NanosPerSecond;
      PassesBounded(env, duration, k + 1);
    }
  }

  /** One second later, strictly fewer whole seconds are left. */
  lemma FewerSecondsLeft(deadline: nat, a: nat, b: nat)
    requires a + NanosPerSecond <= deadline && a + NanosPerSecond <= b
    ensures SecondsLeft(deadline, b) < SecondsLeft(deadline, a)
  {
    assert SecondsLeft(deadline, a) >= 1;
    if b < deadline {
      assert deadline - b <= (deadline - a) - NanosPerSecond;
    }
  }

  /** Successive shown values strictly decrease. */
  lemma {:induction false} PassesDecrease(env: Environment, deadline: nat, k: nat)
    requires Plausible(env)
    ensures forall i :: 0 < i < |Passes(env, deadline, k).shown| ==>
              Passes(env, deadline, k).shown[i] < Passes(env, deadline, k).shown[i - 1]
    decreases if env.test(k) < deadline then deadline - env.test(k) else 0
  {
    if env.test(k) < deadline && env.running(k) {
      assert Tick(env, k);
      PassesDecrease(env, deadline, k + 1);
      var rest := Passes(env, deadline, k + 1).shown;
      if rest != [] {
        PassesSawFlagSet(env, deadline, k + 1);
        assert env.test(k + 1) < deadline && Tick(env, k + 1);
        FewerSecondsLeft(deadline, env.body(k), env.body(k + 1));
      }
    }
  }

  /** Every value shown lies within the duration, there are at most `duration`
      of them, and each is smaller than the one before. */
  lemma ShownCountsDown(env: Environment, duration: uint64)
    requires Plausible(env)
    ensures |Run(env, duration).shown| <= duration
    ensures forall i :: 0 <= i < |Run(env, duration).shown| ==> Run(env, duration).shown[i] <= duration
    ensures forall i :: 0 < i < |Run(env, duration).shown| ==>
              Run(env, duration).shown[i] < Run(env, duration).shown[i - 1]
  {
    PassesCount(env, duration, 0);
    PassesBounded(env, duration, 0);
    PassesDecrease(env, Deadline(env, duration), 0);
  }
}
