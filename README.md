# Study timer engine

A Dafny model of the timer and routine engine of a study-timer web page
(js/script.js). The page runs a stopwatch, or a routine of study and break
segments counted down one after another, and keeps a newest-first log of
finished segments, pauses with a category, and whole sessions.

Files and modules:

- `options.dfy` — `Options.Option`, used for an unparsable minute input (NaN)
  and for the status line left unchanged.
- `clock.dfy` — `Clock`: `padNumber` and `formatTime` (`hh:mm:ss`, with an
  unbounded hour field), and a parser that reads clock text back. It is used
  to prove that the text loses nothing.
- `routine.dfy` — `Routine`: segments, log records `{label, tag,
  durationSeconds}`, the label and tag texts, the status-line texts, and the
  log a complete run produces.
- `engine_spec.dfy` — `EngineSpec`: the engine state as a value `Engine`.
  Every command is a function from the old state to the new state. The
  invariant `Valid` says:
  - an active routine points at a real segment with time left;
  - an inactive routine has no index and no time;
  - a completed routine is stopped.

  This module also holds the status-line and control-enabling rules.
- `timer.dfy` — `Timer.TimerEngine`: a class whose fields are the page's
  module-level variables. Its methods update those fields as the handlers do.
  Every method's ensures gives the whole new state. The command handlers
  give it through the matching `EngineSpec` function. The command handlers (constructor, add,
  remove, clear, start, tick, pause, pause category, reset, toggle, session
  log) keep `Valid`. `HandleSegmentCompletion` is called only on a segment
  whose time has just run out, and it restores `Valid`. The helpers
  `ResetRoutineState`, `CreateLogEntry`, `LogRoutineSegment` and
  `ClosePauseModal` promise only their effect on the fields.
- `run.dfy` — `Runs`: repeated firings of the 1-second interval. A routine
  started and left alone for its total length logs one entry per segment, in
  order, and ends with the elapsed count equal to that length.
- `events.dfy` — `Events`: the page's event wiring as a replay of events from
  the loaded page. Every reachable state keeps `Valid`, and no logged
  duration is negative.

The interval is scheduled exactly while the timer runs, so a tick is an
explicit command that requires `isRunning`. The pause prompt is a flag. A
chosen category is an explicit command.

The timer display is stored as the count it shows: the display text is
`Clock.FormatTime(displaySeconds)`. `Clock.FormatTime` is proved to lose
nothing, so this text determines the count.

These quirks of the source are modelled as written:

- Adding a segment has no running guard; only the disabled form prevents it.
- Finishing a routine zeroes the display but keeps the elapsed count.
- A confirmed pause category logs the whole elapsed count.
- Reset clears routine progress only when the routine is non-empty.
- Logging the current session does nothing at zero seconds.

Two defensive branches of the source are kept in the class's methods as
`assert false`:

- the reload of a used-up segment on start (js/script.js:336-338);
- the completion of a segment found with no time left on a tick
  (js/script.js:361-362).

`Valid` makes both unreachable.

## Model

| member | source | states |
|---|---|---|
| `Clock.PadNumber` | js/script.js:62-64 | the result is at least two digits long and never truncated: the full decimal text is its suffix, and its digits still denote the number; a result longer than two digits has no leading zero |
| `Clock.ClockFields` | js/script.js:66-70 | the hours, minutes and seconds recombine to the input, and minutes and seconds are below 60 |
| `Clock.ClockFieldsUnique` | js/script.js:66-70 | any split with minutes and seconds below 60 is the one `formatTime` computes |
| `Clock.FormatTime` | js/script.js:66-71 | the text is three ':'-separated digit fields. The hours field is exactly two digits, or longer with no leading zero. Minutes and seconds have exactly two digits each and are below 60. Reading the text back with an independent parser gives the original seconds, for every count, with hours above 99 too. With `Clock.ClockFieldsUnique` and the uniqueness of unpadded decimal text, this fixes the text to what `formatTime` writes |
| `Clock.FormatTimeShape` | js/script.js:66-71 | the text is at least 8 characters with separators 6 and 3 from the end; from 100 hours on, it is longer than 8 |
| `Clock.FormatTimeZero` | js/script.js:312 | zero seconds is the text `00:00:00` that completion and reset write directly |
| `Routine.SegmentLabel` | js/script.js:125-127 | a study segment is labelled `공부`, and a break segment `휴식` |
| `Routine.SegmentLabelDistinguishesKind` | js/script.js:125-127 | two segments get the same label exactly when they are of the same kind |
| `Routine.CompletionTitle` | js/script.js:525 | the finished-segment label is the segment label followed by ` 구간 완료` |
| `Routine.MinutesTagRoundTrip` | js/script.js:526 | the tag `<minutes>분` ends in `분`, and its digits read back as the minute count |
| `Routine.SegmentEntry` | js/script.js:520-532 | a finished segment is logged with the label by kind, the tag `<minutes>분` and a positive duration of minutes·60 |
| `Routine.PauseEntry` | js/script.js:403-407 | the pause record renders with label `일시정지`, the category as its tag, and the given elapsed count as its duration |
| `Routine.SessionEntry` | js/script.js:513-517 | the session record renders with label `루틴 전체 기록` when a routine exists and `학습 세션` otherwise, with no tag, and the given elapsed count as its duration |
| `Routine.DurationText` | js/script.js:485 | a non-negative duration shows as its clock text; a negative one shows as `00:00:00` |
| `Routine.TotalSeconds` | js/script.js:319 | the reference sum of the per-segment `minutes * 60` that start (line 334) and completion (line 319) load one at a time; the source never computes it. It is not negative, and is at least a minute for a non-empty routine. `Runs.FullRun` is stated against it |
| `Routine.CompletionLogOrder` | js/script.js:297-310 | a full run's log has one entry per segment; the last segment's entry is newest |
| `Routine.CompletionLogDurations` | js/script.js:297-310 | the durations a full run logs add up to the routine's length |
| `Routine.CeilMinutes` | js/script.js:157 | `Math.ceil(seconds/60)`: the smallest m with seconds ≤ 60·m |
| `EngineSpec.Initial` | js/script.js:49-57 | the loaded page is stopped, at zero, with no routine and an empty log, and is `Valid` |
| `EngineSpec.ClearProgress` | js/script.js:232-236 | `resetRoutineState`: inactive, not completed, index -1, no time left; nothing else changes |
| `EngineSpec.AddSegment` | js/script.js:241-258 | a NaN or non-positive input changes nothing. Otherwise exactly one segment is appended and the old ones are kept. Progress is cleared only when stopped, and kept while running. `completed` ends false. `Valid` is kept |
| `EngineSpec.RemoveSegment` | js/script.js:268-285 | a no-op while running or for a position outside the list. Otherwise exactly that segment is removed, the rest keep their order, and progress is cleared. `Valid` is kept |
| `EngineSpec.ClearRoutine` | js/script.js:287-295 | a no-op while running or when empty; otherwise the list is emptied and progress is cleared |
| `EngineSpec.Start` | js/script.js:324-347 | a no-op when running. A routine not under way begins at segment 0, with its time loaded and the elapsed count reset to 0. A paused routine resumes with index, time and elapsed count unchanged. Afterwards the timer runs |
| `EngineSpec.CompleteSegment` | js/script.js:297-321 | exactly one entry is logged for the finished segment and the index advances. After the last segment the timer stops, the routine is completed, index is -1 and no time is left. Otherwise the next segment's time is loaded. The elapsed count is unchanged. A completing state stays `Valid` |
| `EngineSpec.Tick` | js/script.js:351-368 | a tick of a `Valid` running state keeps `Valid` and adds exactly one second to the elapsed count |
| `EngineSpec.TickNeverFindsSegmentEmpty` | js/script.js:361-362 | in a `Valid` running routine, the current segment always has time left |
| `EngineSpec.TickCountsDown` | js/script.js:353-357 | a tick in a routine lowers the remaining time by exactly one second and logs nothing, while the time stays positive |
| `EngineSpec.TickEndsSegment` | js/script.js:358-360 | the tick that reaches zero completes the segment in the same tick |
| `EngineSpec.TickStopwatch` | js/script.js:364-367 | outside an active routine a tick only advances the elapsed count and the display |
| `EngineSpec.Pause` | js/script.js:411-426 | a no-op when stopped; otherwise only the running flag changes, and the prompt opens on request |
| `EngineSpec.SubmitPauseCategory` | js/script.js:399-408 | an empty category changes nothing. Otherwise one entry with the whole elapsed count is prepended and the prompt closes. Nothing else changes |
| `EngineSpec.CancelPauseCategory` | js/script.js:385-397 | closing the prompt changes nothing else |
| `EngineSpec.Reset` | js/script.js:428-445 | afterwards the timer is stopped, at zero, with the prompt closed and no routine progress. The segments and the log are kept |
| `EngineSpec.Toggle` | js/script.js:447-453 | pauses with the prompt when running, starts otherwise; it flips the running flag |
| `EngineSpec.LogCurrentSession` | js/script.js:508-518 | nothing is logged at zero. Otherwise one entry of the elapsed count is prepended, with a label chosen only by whether a routine exists |
| `EngineSpec.RoutineStatus` | js/script.js:137-163 | the no-routine and completed lines are chosen exactly in their cases. Ready names the first segment and is only shown when inactive. In-progress names the current segment, the running state, and the remaining time rounded up to minutes |
| `EngineSpec.StatusAlwaysShown` | js/script.js:137-163 | in a `Valid` state one of the four lines is always written. Ready is shown exactly when inactive. The in-progress line shows at least one minute |
| `EngineSpec.StatusWrittenOnStart` | js/script.js:340-347 | the line `startTimer` writes, before it sets the running flag, is the paused in-progress line for the current segment. The state after the start selects the running line |
| `EngineSpec.RoutineControls` | js/script.js:165-178 | editing is enabled exactly when stopped; clear is enabled exactly when stopped with a non-empty routine |
| `EngineSpec.ClearEnabledIffEffective` | js/script.js:173 | the clear button is enabled exactly when clearing would change the state |
| `EngineSpec.RemoveEffectiveIffEditable` | js/script.js:268-270 | removing changes the state exactly when editing is enabled and the position exists |
| `EngineSpec.AddNotGuardedWhileRunning` | js/script.js:241-258 | while running, the form is disabled, yet a valid add still appends |
| `EngineSpec.ResetIdempotent` | js/script.js:428-445 | a second reset changes nothing |
| `EngineSpec.PauseThenCategoryLogsElapsed` | js/script.js:399-426 | pausing and confirming a category logs the whole elapsed count, not the time since the last pause |
| `Runs.Run` | js/script.js:351-368 | repeated ticks keep `Valid`, the segments and the prompt |
| `Runs.RunAdditive` | js/script.js:351-368 | a+b ticks are a ticks followed by b ticks |
| `Runs.RunThroughSegment` | js/script.js:353-360 | ticking out the current segment's remaining time ends in its completion, with that time added to the elapsed count |
| `Runs.FinishMiddleSegment` | js/script.js:316-320 | running out a segment that is not the last leaves the next one running, with one entry logged |
| `Runs.FinishLastSegment` | js/script.js:304-314 | running out the last segment finishes the routine |
| `Runs.RunToEnd` | js/script.js:297-321 | from any running routine state, the remaining time ends the routine. The elapsed count grows by that time, and the log gains one entry per remaining segment, in order |
| `Runs.FullRun` | js/script.js:324-368 | starting a routine and ticking for its total length stops and completes it. The elapsed count is the total. Exactly one entry per segment is logged, and their durations sum to the total |
| `Runs.StopwatchRun` | js/script.js:364-367 | without a routine, n ticks add n seconds, log nothing and keep the timer running |
| `Timer.TimerEngine.constructor` | js/script.js:49-57 | the fields start as the loaded page's variables |
| `Timer.TimerEngine.CreateLogEntry` | js/script.js:455-506 | the entry is put on top of the log; nothing else changes |
| `Timer.TimerEngine.ResetRoutineState` | js/script.js:232-239 | the fields follow `EngineSpec.ClearProgress` |
| `Timer.TimerEngine.AddRoutineSegment` | js/script.js:241-266 | the fields follow `EngineSpec.AddSegment`, and `Valid` is kept |
| `Timer.TimerEngine.RemoveRoutineSegment` | js/script.js:268-285 | the fields follow `EngineSpec.RemoveSegment`, and `Valid` is kept |
| `Timer.TimerEngine.ClearRoutine` | js/script.js:287-295 | the fields follow `EngineSpec.ClearRoutine`, and `Valid` is kept |
| `Timer.TimerEngine.LogRoutineSegment` | js/script.js:520-532 | the segment's entry is put on top of the log; nothing else changes |
| `Timer.TimerEngine.HandleSegmentCompletion` | js/script.js:297-322 | called on a running segment whose time has reached zero, as the interval body does. The fields follow `EngineSpec.CompleteSegment`, and `Valid` holds again |
| `Timer.TimerEngine.StartTimer` | js/script.js:324-349 | the fields follow `EngineSpec.Start`, and `Valid` is kept |
| `Timer.TimerEngine.Tick` | js/script.js:351-368 | one run of the interval body: the fields follow `EngineSpec.Tick`, and `Valid` is kept |
| `Timer.TimerEngine.PauseTimer` | js/script.js:411-426 | the fields follow `EngineSpec.Pause`, and `Valid` is kept |
| `Timer.TimerEngine.ClosePauseModal` | js/script.js:385-397 | the fields follow `EngineSpec.CancelPauseCategory` |
| `Timer.TimerEngine.LogPauseCategory` | js/script.js:399-409 | the fields follow `EngineSpec.SubmitPauseCategory`, and `Valid` is kept |
| `Timer.TimerEngine.ResetTimer` | js/script.js:428-445 | the fields follow `EngineSpec.Reset`, and `Valid` is kept |
| `Timer.TimerEngine.ToggleTimer` | js/script.js:447-453 | the fields follow `EngineSpec.Toggle`, and `Valid` is kept |
| `Timer.TimerEngine.LogCurrentSession` | js/script.js:508-518 | the fields follow `EngineSpec.LogCurrentSession`, and `Valid` is kept |
| `Events.CompleteSegmentLogGrows` | js/script.js:297-310 | completing a segment adds at most one entry, on top, with a duration that is not negative |
| `Events.TickLogGrows` | js/script.js:351-368 | a tick adds at most one entry, on top, with a duration that is not negative |
| `Events.Apply` | js/script.js:544-584 | every event keeps `Valid`. The log only ever gains one entry on top, with a duration that is not negative |
| `Events.Replay` | js/script.js:544-584 | any sequence of events keeps `Valid` |
| `Events.ReplayKeepsDurations` | js/script.js:485 | replaying events never logs a negative duration |
| `Events.Reachable` | js/script.js:485 | every state reachable from the loaded page is `Valid`, and every logged duration is shown unclamped |

## Left out

- Calendar rendering and `formatTimestamp` (js/script.js:73-123) depend on `Date`, the local time zone and the DOM. A log entry's timestamp is left out for the same reason.
- All DOM work is left out: building the routine list and the log items, highlighting the active segment, focus handling in the pause modal, logo and navigation wiring, and button captions. The log is kept as a newest-first sequence of `{label, tag, durationSeconds}` records.
- The log items' delete buttons (js/script.js:494-501) remove rendered items from the page and are not modelled.
- `setInterval`/`clearInterval` and real time are left out. The interval is "scheduled exactly while running", and each firing is an explicit tick.
- `Number.parseInt` of the minute field is left out: the add command takes the parsed result, with `None` for NaN.
- The form defaults written after an add (50 or 10 minutes) and the placeholder texts are UI only.
- The custom pause form trims its text and ignores an empty result (js/script.js:561-567). The model takes the category as passed to `logPauseCategory`.
- Any segment type other than study reads as a break, as `getSegmentLabel` and `logRoutineSegment` do. The model has the two kinds only.
- `EngineSpec.RoutineStatus` is the line selected for the current state; the page stores the line and rewrites it only where `updateRoutineStatus` is called. After every start or resume of a routine the page shows the paused wording (`일시정지됨`) for the first second, until the first tick rewrites it. `EngineSpec.StatusWrittenOnStart` states what is written then.
- `Routine.StatusText` renders the status-line text. It carries no contract of its own; the choice of line is stated by `EngineSpec.RoutineStatus`.
- `EngineSpec.Start` omits the reload of a segment with no time left (js/script.js:336-338), because `Valid` rules that state out. `Timer.TimerEngine.StartTimer` shows it dead with `assert false`.
- `EngineSpec.Tick` completes a segment found with no time left, as the source does. Under `Valid` this never happens (`EngineSpec.TickNeverFindsSegmentEmpty`), and `Timer.TimerEngine.Tick` shows it dead with `assert false`.
- JavaScript numbers are unbounded integers here. The model does not capture a minute field so long that `Number.parseInt` gives a number beyond exact double precision, or `Infinity`. Then `minutes * 60` is inexact or infinite, and with `Infinity` the countdown never reaches zero.
