/**
 * The page's event wiring (js/script.js:544-584) as a sequence of events
 * replayed from the freshly loaded page. Every state reached this way keeps
 * `Valid`, and every logged duration is non-negative, so the `max(0, d)`
 * guard applied when an entry is shown never changes anything.
 */
module Events {
  import opened Options
  import opened Routine
  import opened EngineSpec

  /** What the user or the interval can do. */
  datatype Event =
    | StartPauseClicked                      // startPauseBtn → toggleTimer
    | ResetClicked                           // resetBtn → resetTimer
    | LogClicked                             // logBtn → logCurrentSession
    | RoutineSubmitted(kind: Kind, minutes: Option<int>)  // routineForm → addRoutineSegment
    | RemoveClicked(position: int)           // a remove button → removeRoutineSegment
    | ClearClicked                           // clearRoutineBtn → clearRoutine
    | CategoryChosen(category: string)       // a pause option or the custom form → logPauseCategory
    | PromptDismissed                        // close button, backdrop or Escape → closePauseModal
    | IntervalFired                          // the 1-second interval

  /** A log only ever gains one entry on top, with a duration that is not negative. */
  predicate LogGrows(before: seq<LogEntry>, after: seq<LogEntry>) {
    || after == before
    || (after != [] && after[1..] == before && after[0].durationSeconds >= 0)
  }

  /** Completing a segment logs at most one entry, and its duration is not negative. */
  lemma CompleteSegmentLogGrows(e: Engine)
    ensures LogGrows(e.log, CompleteSegment(e).log)
  {
    var r := CompleteSegment(e);
    if 0 <= e.index < |e.segments| {
      assert r.log[1..] == e.log;
    }
  }

  /** A tick logs at most what the completion it may run logs. */
  lemma TickLogGrows(e: Engine)
    requires Valid(e) && e.running
    ensures LogGrows(e.log, Tick(e).log)
  {
    if e.segments != [] && e.active && e.remaining == 1 {
      CompleteSegmentLogGrows(e.(remaining := 0, elapsed := e.elapsed + 1, shown := 0));
    }
  }

  /** One event; the interval only fires while the timer runs. */
  function Apply(e: Engine, ev: Event): (r: Engine)
    requires Valid(e)
    ensures Valid(r) && LogGrows(e.log, r.log)
  {
    match ev
    case StartPauseClicked => Toggle(e)
    case ResetClicked => Reset(e)
    case LogClicked =>
      var r := LogCurrentSession(e);
      assert e.elapsed > 0 ==> r.log[1..] == e.log;
      r
    case RoutineSubmitted(kind, minutes) => AddSegment(e, kind, minutes)
    case RemoveClicked(i) => RemoveSegment(e, i)
    case ClearClicked => EngineSpec.ClearRoutine(e)
    case CategoryChosen(c) =>
      var r := SubmitPauseCategory(e, c);
      assert c != "" ==> r.log[1..] == e.log;
      r
    case PromptDismissed => CancelPauseCategory(e)
    case IntervalFired =>
      if e.running then TickLogGrows(e); EngineSpec.Tick(e) else e
  }

  /** The events in order, from `e`. */
  function Replay(e: Engine, events: seq<Event>): (r: Engine)
    requires Valid(e)
    ensures Valid(r)
    decreases |events|
  {
    if events == [] then e else Replay(Apply(e, events[0]), events[1..])
  }

  /** Every logged duration is at least zero. */
  predicate DurationsNonNegative(log: seq<LogEntry>) {
    forall k :: 0 <= k < |log| ==> log[k].durationSeconds >= 0
  }

  lemma LogGrowsKeepsDurations(before: seq<LogEntry>, after: seq<LogEntry>)
    requires DurationsNonNegative(before) && LogGrows(before, after)
    ensures DurationsNonNegative(after)
  {
    if after != before {
      forall k | 0 < k < |after|
        ensures after[k].durationSeconds >= 0
      {
        assert after[k] == after[1..][k - 1];
      }
    }
  }

  /** Replaying events never logs a negative duration. */
  lemma {:induction false} ReplayKeepsDurations(e: Engine, events: seq<Event>)
    requires Valid(e) && DurationsNonNegative(e.log)
    ensures DurationsNonNegative(Replay(e, events).log)
    decreases |events|
  {
    if events != [] {
      var next := Apply(e, events[0]);
      LogGrowsKeepsDurations(e.log, next.log);
      ReplayKeepsDurations(next, events[1..]);
    }
  }

  /**
   * Whatever happens on the page, the state keeps `Valid` and each entry's
   * duration text is the formatted duration itself: the clamp to zero never
   * applies.
   */
  lemma Reachable(events: seq<Event>)
    ensures Valid(Replay(Initial(), events))
    ensures var log := Replay(Initial(), events).log;
            forall k :: 0 <= k < |log| ==>
              log[k].durationSeconds >= 0 && DurationText(log[k]) == Clock.FormatTime(log[k].durationSeconds)
  {
    ReplayKeepsDurations(Initial(), events);
  }
}
