/** The session controller in `main`: while the flag reads "running", announce
    and run a work countdown; if it was not interrupted, play the cue, announce
    and run a rest countdown, and if that was not interrupted either, play the
    cue again.

    Each `timer` call is abstracted to the value it returns, which is the
    negation of the flag as loaded at its end: true exactly when that load
    reads "stopped" (Countdown.OutcomeIsFlag). The controller therefore
    sees the flag through a sequence of loads: the `while` test, then the
    final load of each countdown. The flag is only ever cleared, by the Ctrl-C
    handler, so these loads read "running" up to some point and "stopped"
    from then on: `ctrlC` is the number of the first load that reads
    "stopped". A cue played by `play_sound` is logged as an event; every
    failure branch after the audio device is opened is non-fatal, and the
    panic at a missing device is not modelled. */
module Session {
  import opened Units

  datatype Phase = Work | Rest

  /** What the controller does, in order. */
  datatype Event =
    | Announce(phase: Phase, minutes: nat)                 // "Starting a Pomodoro ..." / "Taking a ... break"
    | Timed(phase: Phase, seconds: nat, interrupted: bool) // a `timer` call and what it returned
    | Cue                                                  // a `play_sound` call

  /** The value of the flag at the controller's k-th load. */
  function Load(ctrlC: nat, k: nat): bool {
    k < ctrlC
  }

  /** The `while running.load(...)` loop of `main`, from the parsed arguments
      (in minutes) to the log of what it does. */
  method Pomodoro(work: uint64, rest: uint64, ctrlC: nat) returns (log: seq<Event>)
    ensures log == Expected(MinutesToSeconds(work), MinutesToSeconds(rest), ctrlC)
  {
    var workDuration := MinutesToSeconds(work);
    var restDuration := MinutesToSeconds(rest);
    var loads := 0;
    ghost var rounds := 0;
    log := [];
    var running := Load(ctrlC, loads);
    loads := loads + 1;
    while running
      invariant running ==> loads == 3 * rounds + 1 && loads <= ctrlC
      invariant running ==> log == Rounds(workDuration, restDuration, rounds)
      invariant !running ==> log == Expected(workDuration, restDuration, ctrlC)
      decreases ctrlC - loads, running
    {
      // What this cycle does, in order.
      var cycle := [Announce(Work, SecondsToMinutes(workDuration))];
      var end := !Load(ctrlC, loads);
      loads := loads + 1;
      cycle := cycle + [Timed(Work, workDuration, end)];
      if !end {
        cycle := cycle + [Cue];
        cycle := cycle + [Announce(Rest, SecondsToMinutes(restDuration))];
        end := !Load(ctrlC, loads);
        loads := loads + 1;
        cycle := cycle + [Timed(Rest, restDuration, end)];
        if !end {
          cycle := cycle + [Cue];
        }
      }
      log := log + cycle;
      running := Load(ctrlC, loads);
      loads := loads + 1;
      if end || !running {
        ExpectedAfterRounds(workDuration, restDuration, ctrlC, rounds);
      }
      rounds := rounds + 1;
    }
  }

  // ---------------------------------------------------------------------------
  // Reference: the whole log in closed form

  /** One uninterrupted work/rest cycle. */
  function FullRound(work: uint64, rest: uint64): seq<Event> {
    [Announce(Work, SecondsToMinutes(work)), Timed(Work, work, false), Cue,
     Announce(Rest, SecondsToMinutes(rest)), Timed(Rest, rest, false), Cue]
  }

  function Rounds(work: uint64, rest: uint64, n: nat): seq<Event> {
    if n == 0 then [] else Rounds(work, rest, n - 1) + FullRound(work, rest)
  }

  /** The partial cycle in which the stop is seen, by where it falls:
      at a `while` test (nothing), at the end of work, or at the end of rest. */
  function LastRound(work: uint64, rest: uint64, at: nat): seq<Event>
    requires at < 3
  {
    if at == 0 then []
    else if at == 1 then [Announce(Work, SecondsToMinutes(work)), Timed(Work, work, true)]
    else [Announce(Work, SecondsToMinutes(work)), Timed(Work, work, false), Cue,
          Announce(Rest, SecondsToMinutes(rest)), Timed(Rest, rest, true)]
  }

  /** Every cycle takes three loads (the test and two countdown ends), so the
      stop seen at load `ctrlC` falls in cycle `ctrlC / 3`, at position `ctrlC % 3`. */
  function Expected(work: uint64, rest: uint64, ctrlC: nat): seq<Event> {
    Rounds(work, rest, ctrlC / 3) + LastRound(work, rest, ctrlC % 3)
  }

  lemma ExpectedAfterRounds(work: uint64, rest: uint64, ctrlC: nat, n: nat)
    requires 3 * n < ctrlC <= 3 * n + 3
    ensures Expected(work, rest, ctrlC) ==
            Rounds(work, rest, n) +
            (if ctrlC == 3 * n + 1 then LastRound(work, rest, 1)
             else if ctrlC == 3 * n + 2 then LastRound(work, rest, 2)
             else FullRound(work, rest))
  {
    if ctrlC == 3 * n + 3 {
      assert ctrlC / 3 == n + 1 && ctrlC % 3 == 0;
    } else {
      assert ctrlC / 3 == n;
    }
  }

  // ---------------------------------------------------------------------------
  // Properties of a session

  /** Position i of the reference log: inside the full cycles, the event at
      the same place of a cycle; after them, the partial cycle. */
  lemma {:induction false} RoundsAt(work: uint64, rest: uint64, n: nat)
    ensures |Rounds(work, rest, n)| == 6 * n
    ensures forall i :: 0 <= i < 6 * n ==> Rounds(work, rest, n)[i] == FullRound(work, rest)[i % 6]
  {
    if n > 0 {
      RoundsAt(work, rest, n - 1);
      var r := Rounds(work, rest, n);
      forall i | 6 * (n - 1) <= i < 6 * n
        ensures r[i] == FullRound(work, rest)[i % 6]
      {
        assert i % 6 == i - 6 * (n - 1);
      }
    }
  }

  lemma ExpectedAt(work: uint64, rest: uint64, ctrlC: nat)
    ensures |Expected(work, rest, ctrlC)| == 6 * (ctrlC / 3) + |LastRound(work, rest, ctrlC % 3)|
    ensures forall i :: 0 <= i < |Expected(work, rest, ctrlC)| ==>
              Expected(work, rest, ctrlC)[i] ==
                if i < 6 * (ctrlC / 3) then FullRound(work, rest)[i % 6]
                else LastRound(work, rest, ctrlC % 3)[i - 6 * (ctrlC / 3)]
  {
    RoundsAt(work, rest, ctrlC / 3);
  }

  /** A cue is played only right after a countdown that returned false, and
      every countdown that returned false is followed right away by a cue. */
  lemma CueExactlyAfterCompletion(work: uint64, rest: uint64, ctrlC: nat)
    ensures var log := Expected(work, rest, ctrlC);
      forall i :: 0 <= i < |log| ==>
        (log[i] == Cue ==> 0 < i && log[i - 1].Timed? && !log[i - 1].interrupted)
    ensures var log := Expected(work, rest, ctrlC);
      forall i :: 0 <= i < |log| ==>
        (log[i].Timed? && !log[i].interrupted ==> i + 1 < |log| && log[i + 1] == Cue)
  {
    var log := Expected(work, rest, ctrlC);
    var full := 6 * (ctrlC / 3);
    ExpectedAt(work, rest, ctrlC);
    forall i | 0 <= i < |log| && log[i] == Cue
      ensures 0 < i && log[i - 1].Timed? && !log[i - 1].interrupted
    {
      assert i % 6 == 2 || i % 6 == 5 || (i >= full && i - full == 2);
    }
    forall i | 0 <= i < |log| && log[i].Timed? && !log[i].interrupted
      ensures i + 1 < |log| && log[i + 1] == Cue
    {
      assert i % 6 == 1 || i % 6 == 4 || (i >= full && i - full == 1);
    }
  }

  /** A rest countdown starts only after a work countdown that completed,
      its cue, and the rest announcement. */
  lemma RestOnlyAfterCompletedWork(work: uint64, rest: uint64, ctrlC: nat)
    ensures var log := Expected(work, rest, ctrlC);
      forall i :: 0 <= i < |log| && log[i].Timed? && log[i].phase == Rest ==>
        3 <= i && log[i - 3] == Timed(Work, work, false) && log[i - 2] == Cue
        && log[i - 1] == Announce(Rest, SecondsToMinutes(rest))
  {
    var log := Expected(work, rest, ctrlC);
    var full := 6 * (ctrlC / 3);
    ExpectedAt(work, rest, ctrlC);
    forall i | 0 <= i < |log| && log[i].Timed? && log[i].phase == Rest
      ensures 3 <= i && log[i - 3] == Timed(Work, work, false) && log[i - 2] == Cue
              && log[i - 1] == Announce(Rest, SecondsToMinutes(rest))
    {
      assert i % 6 == 4 || (i >= full && i - full == 4);
    }
  }

  /** A countdown that reports an interruption is the last thing the session
      does: no further countdown and no further cue. */
  lemma InterruptionEndsSession(work: uint64, rest: uint64, ctrlC: nat)
    ensures var log := Expected(work, rest, ctrlC);
      forall i :: 0 <= i < |log| && log[i].Timed? && log[i].interrupted ==> i == |log| - 1
  {
    var log := Expected(work, rest, ctrlC);
    ExpectedAt(work, rest, ctrlC);
  }

  /** Number of cues played. */
  function Cues(log: seq<Event>): nat {
    if log == [] then 0 else (if log[0] == Cue then 1 else 0) + Cues(log[1..])
  }

  /** What each countdown returned, in order. */
  function Outcomes(log: seq<Event>): seq<bool> {
    if log == [] then [] else (if log[0].Timed? then [log[0].interrupted] else []) + Outcomes(log[1..])
  }

  /** Number of countdowns that returned false. */
  function Completions(outcomes: seq<bool>): nat {
    if outcomes == [] then 0 else (if outcomes[0] then 0 else 1) + Completions(outcomes[1..])
  }

  lemma {:induction false} LogSplit(a: seq<Event>, b: seq<Event>)
    ensures Cues(a + b) == Cues(a) + Cues(b)
    ensures Outcomes(a + b) == Outcomes(a) + Outcomes(b)
    decreases |a|
  {
    if a != [] {
      LogSplit(a[1..], b);
      assert (a + b)[1..] == a[1..] + b;
    } else {
      assert a + b == b;
    }
  }

  lemma {:induction false} CompletionsSplit(a: seq<bool>, b: seq<bool>)
    ensures Completions(a + b) == Completions(a) + Completions(b)
    decreases |a|
  {
    if a != [] {
      CompletionsSplit(a[1..], b);
      assert (a + b)[1..] == a[1..] + b;
    } else {
      assert a + b == b;
    }
  }

  lemma FullRoundCounts(work: uint64, rest: uint64)
    ensures Cues(FullRound(work, rest)) == 2
    ensures Outcomes(FullRound(work, rest)) == [false, false]
  {
    var r := FullRound(work, rest);
    assert r[6..] == [];
    assert Cues(r[5..]) == 1 && Outcomes(r[5..]) == [];
    assert Cues(r[4..]) == 1 && Outcomes(r[4..]) == [false];
    assert Cues(r[3..]) == 1 && Outcomes(r[3..]) == [false];
    assert Cues(r[2..]) == 2 && Outcomes(r[2..]) == [false];
    assert Cues(r[1..]) == 2 && Outcomes(r[1..]) == [false, false];
  }

  lemma LastRoundCounts(work: uint64, rest: uint64, at: nat)
    requires at < 3
    ensures Cues(LastRound(work, rest, at)) == if at == 2 then 1 else 0
    ensures Outcomes(LastRound(work, rest, at)) ==
              if at == 0 then [] else if at == 1 then [true] else [false, true]
  {
    var r := LastRound(work, rest, at);
    if at == 2 {
      assert r[5..] == [];
      assert Cues(r[4..]) == 0 && Outcomes(r[4..]) == [true];
      assert Cues(r[3..]) == 0 && Outcomes(r[3..]) == [true];
      assert Cues(r[2..]) == 1 && Outcomes(r[2..]) == [true];
      assert Cues(r[1..]) == 1 && Outcomes(r[1..]) == [false, true];
    } else if at == 1 {
      assert r[2..] == [];
      assert Cues(r[1..]) == 0 && Outcomes(r[1..]) == [true];
    }
  }

  /** Each full cycle plays two cues after two countdowns that returned false. */
  lemma {:induction false} RoundsCounts(work: uint64, rest: uint64, n: nat)
    ensures Cues(Rounds(work, rest, n)) == 2 * n
    ensures Outcomes(Rounds(work, rest, n)) == seq(2 * n, _ => false)
  {
    if n > 0 {
      RoundsCounts(work, rest, n - 1);
      LogSplit(Rounds(work, rest, n - 1), FullRound(work, rest));
      FullRoundCounts(work, rest);
    }
  }

  /** Every countdown but the last returned false, and there are as many cues
      as countdowns that returned false. */
  lemma CuesMatchCompletions(work: uint64, rest: uint64, ctrlC: nat)
    ensures var outcomes := Outcomes(Expected(work, rest, ctrlC));
      forall i :: 0 <= i < |outcomes| - 1 ==> !outcomes[i]
    ensures Cues(Expected(work, rest, ctrlC)) == Completions(Outcomes(Expected(work, rest, ctrlC)))
  {
    var n := ctrlC / 3;
    var falses: seq<bool> := seq(2 * n, _ => false);
    LogSplit(Rounds(work, rest, n), LastRound(work, rest, ctrlC % 3));
    RoundsCounts(work, rest, n);
    LastRoundCounts(work, rest, ctrlC % 3);
    var tail := Outcomes(LastRound(work, rest, ctrlC % 3));
    CompletionsSplit(falses, tail);
    AllFalseCompletions(2 * n);
    assert Completions(tail) == if ctrlC % 3 == 2 then 1 else 0 by {
      assert Completions([true]) == 0;
      assert [false, true][1..] == [true];
    }
  }

  lemma {:induction false} AllFalseCompletions(m: nat)
    ensures Completions(seq(m, _ => false)) == m
  {
    if m > 0 {
      AllFalseCompletions(m - 1);
      assert seq(m, _ => false)[1..] == seq(m - 1, _ => false);
    }
  }

  /** Countdown results false, false, false, true: three cues, then the loop
      stops. The same holds for every length of work and rest. */
  lemma StopDuringSecondRest(work: uint64, rest: uint64)
    ensures Outcomes(Expected(work, rest, 5)) == [false, false, false, true]
    ensures Cues(Expected(work, rest, 5)) == 3
  {
    LogSplit(Rounds(work, rest, 1), LastRound(work, rest, 2));
    RoundsCounts(work, rest, 1);
    LastRoundCounts(work, rest, 2);
  }

  /** One-minute work and rest, with the stop first seen by the controller's
      third load (`ctrlC == 2`), the one that ends the first rest countdown:
      one cue after work, the rest countdown reports the interruption, no
      second cue. */
  lemma StopDuringFirstRest()
    ensures Expected(60, 60, 2) ==
            [Announce(Work, 1), Timed(Work, 60, false), Cue, Announce(Rest, 1), Timed(Rest, 60, true)]
    ensures Cues(Expected(60, 60, 2)) == 1
  {
    LogSplit(Rounds(60, 60, 0), LastRound(60, 60, 2));
    LastRoundCounts(60, 60, 2);
  }

  /** When neither argument overflows, every announcement repeats the number
      of minutes given on the command line, and every countdown lasts that
      many minutes. */
  lemma AnnouncesArguments(work: uint64, rest: uint64, ctrlC: nat)
    requires work * SecondsPerMinute < U64Limit && rest * SecondsPerMinute < U64Limit
    ensures var log := Expected(MinutesToSeconds(work), MinutesToSeconds(rest), ctrlC);
      forall i :: 0 <= i < |log| && log[i].Announce? ==>
        log[i].minutes == if log[i].phase == Work then work else rest
    ensures var log := Expected(MinutesToSeconds(work), MinutesToSeconds(rest), ctrlC);
      forall i :: 0 <= i < |log| && log[i].Timed? ==>
        log[i].seconds == (if log[i].phase == Work then work else rest) * SecondsPerMinute
  {
    var w, r := MinutesToSeconds(work), MinutesToSeconds(rest);
    AnnouncementRoundTrip(work);
    AnnouncementRoundTrip(rest);
    ExpectedAt(w, r, ctrlC);
  }
}
