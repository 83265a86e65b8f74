# pomodoro-rs, modelled in Dafny

pomodoro-rs is a command-line interval timer. It runs a work countdown,
plays an audio cue, runs a rest countdown, plays the cue again, and repeats
until the user presses Ctrl-C. All of its logic is in `src/main.rs`. This
project models the three parts of that file that make decisions:

- **Units** (`units.dfy`): the `--work` and `--rest` arguments are minutes
  in `u64`. They become seconds by `* 60`, and the announcements divide by
  60 again.
- **Rendering** (`rendering.dfy`): the countdown line
  `\rMM:SS remaining`. Minutes are `secs / 60` and seconds are `secs % 60`.
  Each field is written with `{:02}`, which zero-pads it to at least two
  digits. A parser, `ParseRemaining`, reads a line back; it serves as the
  partner of `Render`.
- **Countdown** (`countdown.dfy`): `timer`, the polling loop. The clock and
  the shared `running` flag are modelled as oracles in an `Environment`:
  - `test(k)`: the instant read by the k-th loop test;
  - `body(k)`: the instant read by the k-th pass to compute what is left;
  - `running(k)`: the flag at its k-th load.

  `Plausible` states what a real environment guarantees. The clock never
  goes back. The one-second sleep separates a pass's reading from the next
  test's reading. The flag, once cleared, stays cleared. `Timer` is the
  loop itself, proved equal to the recursive specification `Run`/`Passes`.
- **Session** (`session.dfy`): the `while running.load()` loop of `main`.
  Each `timer` call is abstracted to its return value, which is the negation
  of the flag at the load that ends it: true exactly when that load reads
  cleared (`Countdown.OutcomeIsFlag`). The controller thus sees
  the flag through a sequence of loads: the `while` test, then the end of
  each countdown. Because the flag is only ever cleared, that sequence is
  described by `ctrlC`, the number of the first load that reads "stopped".
  `Pomodoro` is the loop. It is proved equal to `Expected`, a closed-form
  log: `ctrlC / 3` full cycles, then a partial cycle chosen by `ctrlC % 3`.

Instants are natural numbers of nanoseconds, the resolution of `Duration`.
`end - Instant::now()` is modelled as saturating at zero, as the Rust
standard library does.

Three behaviours of the code are worth knowing:

- Countdown results false, false, false, true play three cues, one after
  each completed countdown, and then the session stops
  (`Session.StopDuringSecondRest`).
- The countdown line is never cleared. Lines are 16 characters wide only
  while less than 100 minutes remain (`Rendering.LineWidth`). A line shorter
  than the one before leaves that line's last characters on screen, which
  happens whenever the minute field loses a digit: after
  `\r100:00 remaining`, the 16-character line for 99:59 leaves one stale
  character.
- A duration of 0 is accepted and completes at once
  (`Countdown.ZeroDuration`).

## Model

| member | source | states |
|---|---|---|
| `Units.MinutesToSeconds` | src/main.rs:49-50 | `minutes * 60` in `u64`: exact whenever the product fits; when it does not, the result is whatever `u64` value the wrap leaves (the range is all the type says) |
| `Units.SecondsToMinutes` | src/main.rs:60-71 | the announced minute count `m` satisfies `m * 60 <= seconds < (m + 1) * 60` |
| `Units.AnnouncementRoundTrip` | src/main.rs:49-71 | the announcement repeats the argument if and only if `minutes * 60` fits in `u64` |
| `Units.OverflowingArgument` | src/main.rs:49 | 307445734561825861 minutes wraps to 44 seconds and is announced as 0 minutes; one less still fits |
| `Rendering.Decimal` | src/main.rs:88-92 | decimal text of a number: at least one character, digits only, no leading zero, a single digit exactly below 10 |
| `Rendering.DecimalRoundTrip` | src/main.rs:88-92 | reading the decimal text back gives the number |
| `Rendering.Field` | src/main.rs:89-91 | a `{:02}` field is at least two characters, and begins with '0' only for numbers below 10 (padding or the number zero) |
| `Rendering.FieldDenotes` | src/main.rs:89-92 | a `{:02}` field is all digits, at least two of them, exactly two below 100, reads back as its number, and from 10 on is exactly the decimal text |
| `Rendering.TwoDigitField` | src/main.rs:89-91 | below 100 a field is exactly the tens digit followed by the units digit |
| `Rendering.FieldHundred` | src/main.rs:90 | 100 minutes give the unpadded three-digit field `100` |
| `Rendering.Clock` | src/main.rs:89-91 | `MM:SS`; specified by `ParseClockRoundTrip` and `RenderFields` |
| `Rendering.ParseClockRoundTrip` | src/main.rs:89-91 | the `MM:SS` text reads back as the seconds it was made from |
| `Rendering.Render` | src/main.rs:88-92 | the printed line; specified by `ParseRender` (it parses back to its seconds), `RenderFields`, `LineWidth` and the three examples |
| `Rendering.RenderFields` | src/main.rs:89-91 | the seconds field is two digits with a value in 0..59, the minutes field has at least two digits, and minutes * 60 + seconds is the whole seconds remaining |
| `Rendering.ParseRender` | src/main.rs:88-92 | every rendered line parses back to the seconds it was made from |
| `Rendering.RenderInjective` | src/main.rs:88-92 | two different second counts never render the same line |
| `Rendering.LineWidth` | src/main.rs:88-92 | every line is at least 16 characters, and exactly 16 if and only if fewer than 6000 seconds remain |
| `Rendering.RenderExample125` | src/main.rs:88-92 | 125 seconds render as `\r02:05 remaining` |
| `Rendering.RenderExample3599` | src/main.rs:88-92 | 3599 seconds render as `\r59:59 remaining` |
| `Rendering.ClockHundredMinutes` | src/main.rs:89-91 | 6000 seconds give the clock text `100:00` |
| `Rendering.RenderExample6000` | src/main.rs:88-92 | 6000 seconds render as `\r100:00 remaining` |
| `Countdown.Deadline` | src/main.rs:82-83 | `now + Duration::from_secs(duration)` in nanoseconds; `CompletionTakesDuration` and `ZeroDuration` state what it means for a countdown |
| `Countdown.SecondsLeft` | src/main.rs:87-91 | `(end - now).as_secs()`: zero once `now` has reached the deadline, otherwise the time left rounded down to whole seconds: `s` seconds is at most the time left and `s + 1` seconds exceeds it |
| `Countdown.Passes` | src/main.rs:86-96 | the loop from its k-th test on, as a recursive reference; specified by `PassStep`, `PassesEnd`, `PassesSawFlagSet`, `PassesOutcome`, `PassesCount`, `PassesBounded` and `PassesDecrease` |
| `Countdown.Run` | src/main.rs:81-97 | a whole `timer` call; specified by `OutcomeIsFlag`, `CompletionTakesDuration`, `ClearedOnEntry`, `ZeroDuration` and `ShownCountsDown` |
| `Countdown.Timer` | src/main.rs:81-97 | the loop returns the negation of the flag at the load after the loop, and prints one line per pass: the rendering of the whole seconds left at that pass, as the specification `Run` gives them |
| `Countdown.PassStep` | src/main.rs:86-94 | a pass that runs shows the seconds left at its clock reading, and the next test reads the clock at least one second later |
| `Countdown.PassesEnd` | src/main.rs:86-96 | a failing test ends the loop with nothing more shown; the result is the negated flag at the load after the loop, the (k+1)-th if the test loaded the flag and the k-th if its clock check failed first |
| `Countdown.ClockAdvances` | src/main.rs:86-94 | after k passes the clock has moved at least k seconds |
| `Countdown.PassesSawFlagSet` | src/main.rs:86-92 | every pass that printed saw the clock before the deadline and the flag set |
| `Countdown.PassesOutcome` | src/main.rs:86-96 | from any pass on, the result is the negated flag at the load after the last pass, and a false result means the clock reached the deadline |
| `Countdown.OutcomeIsFlag` | src/main.rs:86-96 | `timer` returns true exactly when the flag reads cleared at the first load after the last printing pass (the final load, or the final test's load when that test saw the flag cleared; they agree because the flag stays cleared); every printing pass had seen the flag set |
| `Countdown.CompletionTakesDuration` | src/main.rs:82-86 | a countdown that returns false has let the whole duration pass on the clock |
| `Countdown.ClearedOnEntry` | src/main.rs:86-96 | with the flag already cleared on entry, nothing is printed and the result is true |
| `Countdown.ZeroDuration` | src/main.rs:83-86 | with duration 0 there is no pass and no sleep, and the result is the negated flag at entry |
| `Countdown.PassesCount` | src/main.rs:82-94 | a countdown of d seconds makes at most d passes |
| `Countdown.PassesBounded` | src/main.rs:82-92 | no value shown exceeds the duration |
| `Countdown.FewerSecondsLeft` | src/main.rs:87-94 | one second later, strictly fewer whole seconds are left, while at least one second was left |
| `Countdown.PassesDecrease` | src/main.rs:86-94 | successive values shown strictly decrease |
| `Countdown.ShownCountsDown` | src/main.rs:82-94 | a whole countdown shows at most d values, each at most d, each smaller than the one before |
| `Session.Load` | src/main.rs:59-96 | the flag at the controller's k-th load (the `while` tests and each `timer`'s final load): set exactly before load `ctrlC`; used by `Pomodoro` |
| `Session.Pomodoro` | src/main.rs:59-78 | the controller's log equals the closed-form reference `Expected` for the converted durations and the load at which Ctrl-C is seen |
| `Session.ExpectedAfterRounds` | src/main.rs:59-78 | the reference log after n full cycles, split by where the stop is seen |
| `Session.RoundsAt` | src/main.rs:59-78 | n full cycles are 6n events, and event i is event i mod 6 of one cycle |
| `Session.ExpectedAt` | src/main.rs:59-78 | the event at each position of the reference log |
| `Session.CueExactlyAfterCompletion` | src/main.rs:64-77 | a cue comes only right after a countdown that returned false, and every such countdown is followed right away by a cue |
| `Session.RestOnlyAfterCompletedWork` | src/main.rs:64-72 | a rest countdown comes only after a completed work countdown, its cue and the rest announcement |
| `Session.InterruptionEndsSession` | src/main.rs:59-78 | a countdown that returns true is the last event of the session |
| `Session.CuesMatchCompletions` | src/main.rs:64-77 | every countdown result but the last is false, and the number of cues equals the number of false results |
| `Session.StopDuringSecondRest` | src/main.rs:59-78 | results false, false, false, true give exactly three cues, and the session then stops |
| `Session.StopDuringFirstRest` | src/main.rs:59-78 | one-minute phases stopped during the first rest: one cue, then an interrupted rest, and no second cue |
| `Session.AnnouncesArguments` | src/main.rs:49-72 | without overflow, every announcement prints the argument's minutes and every countdown lasts that many minutes |
| `Session.LogSplit` | src/main.rs:59-78 | cue counts and countdown results of a concatenated log are those of its parts |
| `Session.RoundsCounts` | src/main.rs:64-77 | n full cycles play 2n cues after 2n countdowns that all returned false |

## Left out

- `play_sound` (src/main.rs:99-148): opening the file, decoding it and driving the audio device are foreign library calls. A cue is logged as one event. A missing audio device makes `unwrap` panic at src/main.rs:101, and that panic is not modelled. Every other failure branch prints a bell and a message and returns. Its sleep for the playback length, or 3 seconds when the length is unknown, is not modelled.
- Registering the Ctrl-C handler (src/main.rs:40-46) is asynchronous signal delivery. The model keeps only its effect: the flag, seen through its loads, goes from set to cleared once and never back.
- Argument parsing and its defaults (src/main.rs:11-37, 48), the welcome text and the wait for Enter (src/main.rs:53-57), and the `Args` record are library and I/O plumbing. The model starts from the parsed `u64` arguments.
- Real time: `Instant::now`, `sleep` and `Duration` become clock readings in the `Environment`. How accurately `sleep` sleeps is not modelled, beyond its lower bound of one second. So no upper bound on a countdown's wall-clock length is stated.
- `stdout().flush()` calls and the newline `println!` writes before a cue are not modelled. The printed output of a countdown is its sequence of lines.
- `Units.MinutesToSeconds`: models a release build, where `u64 * 60` wraps around. A debug build panics at src/main.rs:49 instead.
- Adding a duration to an `Instant` (src/main.rs:83) panics in Rust when the result is out of range. In the model, instants are unbounded, so this cannot happen.
- `Session.Pomodoro`: covers only sessions in which Ctrl-C is eventually seen. A session that is never interrupted runs forever, and its logs are the prefixes of `Expected` for ever larger `ctrlC`. The session is also modelled apart from `Timer`: each countdown is its result, and its printed lines are not part of the session log.
