/**
 * The study/break timer engine of js/script.js as a state machine on values.
 * `Engine` is a snapshot of the module-level variables (js/script.js:49-57)
 * together with the pause prompt's open flag, the count on the timer display
 * and the newest-first log. The display is kept as the number it shows:
 * `Clock.FormatTime` is proved to lose nothing, so the text determines that number.
 * Each command is a function from the old snapshot to the
 * new one; the class in timer.dfy is proved to follow these functions.
 */
module EngineSpec {
  import opened Options
  import opened Routine

  type SegmentIndex = i: int | i >= -1

  datatype Engine = Engine(
    running: bool,           // isRunning; the 1-second interval is scheduled exactly when this holds
    elapsed: nat,            // elapsedSeconds
    segments: seq<Segment>,  // routineSegments
    active: bool,            // routineActive
    completed: bool,         // routineCompleted
    index: SegmentIndex,     // currentSegmentIndex, -1 for none
    remaining: int,          // segmentRemainingSeconds
    promptOpen: bool,        // the pause-category overlay is shown
    shown: nat,              // the timer display reads Clock.FormatTime(shown)
    log: seq<LogEntry>)      // the log list, newest entry first

  /**
   * The invariant every reachable state keeps: an active routine points at a
   * real segment with time left, an inactive one has no index and no time,
   * and a completed routine is stopped. (Stored segments are positive by
   * their type.)
   */
  predicate Valid(e: Engine) {
    && (e.active ==> 0 <= e.index < |e.segments| && e.remaining > 0)
    && (!e.active ==> e.index == -1 && e.remaining == 0)
    && (e.completed ==> !e.active && !e.running && |e.segments| > 0)
  }

  /** The state after the page has loaded. */
  function Initial(): (e: Engine)
    ensures Valid(e) && !e.running && e.elapsed == 0 && e.segments == [] && e.log == []
  {
    Engine(false, 0, [], false, false, -1, 0, false, 0, [])
  }

  /** `resetRoutineState`: forget the routine's progress. */
  function ClearProgress(e: Engine): (r: Engine)
    ensures !r.active && !r.completed && r.index == -1 && r.remaining == 0
    ensures r.(active := e.active, completed := e.completed, index := e.index, remaining := e.remaining) == e
  {
    e.(active := false, completed := false, index := -1, remaining := 0)
  }

  /**
   * `addRoutineSegment`, with the parsed minute count (`None` for NaN). There
   * is no running guard: only the disabled form keeps it from being used
   * while the timer runs, and then the progress is kept.
   */
  function AddSegment(e: Engine, kind: Kind, minutes: Option<int>): (r: Engine)
    requires Valid(e)
    ensures Valid(r)
    ensures minutes.None? || minutes.value <= 0 ==> r == e
    ensures minutes.Some? && minutes.value > 0 ==>
              && r.segments == e.segments + [Segment(kind, minutes.value)]
              && !r.completed
              && (!e.running ==> !r.active && r.index == -1 && r.remaining == 0)
              && (e.running ==> r.active == e.active && r.index == e.index && r.remaining == e.remaining)
    ensures r.running == e.running && r.elapsed == e.elapsed && r.log == e.log
    ensures r.shown == e.shown && r.promptOpen == e.promptOpen
  {
    if minutes.None? || minutes.value <= 0 then e
    else
      var pushed := e.(segments := e.segments + [Segment(kind, minutes.value)]);
      var restarted := if !e.running then ClearProgress(pushed) else pushed;
      restarted.(completed := false)
  }

  /** `removeRoutineSegment`: drop one segment and restart the routine from the top. */
  function RemoveSegment(e: Engine, i: int): (r: Engine)
    requires Valid(e)
    ensures Valid(r)
    ensures e.running || i < 0 || i >= |e.segments| ==> r == e
    ensures !e.running && 0 <= i < |e.segments| ==>
              && |r.segments| == |e.segments| - 1
              && (forall j :: 0 <= j < i ==> r.segments[j] == e.segments[j])
              && (forall j :: i <= j < |r.segments| ==> r.segments[j] == e.segments[j + 1])
              && !r.active && !r.completed && r.index == -1 && r.remaining == 0
    ensures r.running == e.running && r.elapsed == e.elapsed && r.log == e.log
    ensures r.shown == e.shown && r.promptOpen == e.promptOpen
  {
    if e.running || i < 0 || i >= |e.segments| then e
    else ClearProgress(e.(segments := e.segments[..i] + e.segments[i + 1..]))
  }

  /** `clearRoutine`: empty the routine unless running or already empty. */
  function ClearRoutine(e: Engine): (r: Engine)
    requires Valid(e)
    ensures Valid(r)
    ensures e.running || e.segments == [] ==> r == e
    ensures !e.running && e.segments != [] ==>
              r.segments == [] && !r.active && !r.completed && r.index == -1 && r.remaining == 0
    ensures r.running == e.running && r.elapsed == e.elapsed && r.log == e.log
    ensures r.shown == e.shown && r.promptOpen == e.promptOpen
  {
    if e.running || e.segments == [] then e
    else ClearProgress(e.(segments := []))
  }

  /**
   * `startTimer`. A routine that is not under way begins at its first
   * segment with the elapsed count reset; a paused one resumes where it was.
   * The source's reload of a segment whose remaining time is not positive
   * (js/script.js:336-338) is left out: `Valid` rules that state out.
   */
  function Start(e: Engine): (r: Engine)
    requires Valid(e)
    ensures Valid(r) && r.running
    ensures e.running ==> r == e
    ensures !e.running && e.segments != [] && !e.active ==>
              && r.active && !r.completed && r.index == 0
              && r.remaining == e.segments[0].minutes * 60 && r.elapsed == 0
              && r.shown == r.remaining
    ensures !e.running && e.active ==>
              && r.active && r.index == e.index && r.remaining == e.remaining
              && r.elapsed == e.elapsed && r.completed == e.completed
              && r.shown == e.remaining
    ensures !e.running && e.segments == [] ==>
              && r.elapsed == e.elapsed && r.active == e.active && r.index == e.index
              && r.remaining == e.remaining && r.completed == e.completed
              && r.shown == e.elapsed
    ensures r.segments == e.segments && r.log == e.log && r.promptOpen == e.promptOpen
  {
    if e.running then e
    else if e.segments != [] then
      var begun :=
        if !e.active || e.completed || e.index == -1 then
          e.(active := true, completed := false, index := 0,
             remaining := e.segments[0].minutes * 60, elapsed := 0)
        else e;
      begun.(shown := begun.remaining, running := true)
    else
      e.(shown := e.elapsed, running := true)
  }

  /** A running state whose current segment has just run out. */
  predicate Completing(e: Engine) {
    && e.running && e.active && !e.completed
    && 0 <= e.index < |e.segments| && e.remaining == 0
  }

  /**
   * `handleSegmentCompletion`: log the finished segment, then move to the
   * next one, or stop the timer after the last. The elapsed count is kept.
   * With no segment at the index, `logRoutineSegment` logs nothing.
   */
  function CompleteSegment(e: Engine): (r: Engine)
    ensures Completing(e) ==> Valid(r)
    ensures 0 <= e.index < |e.segments| ==> r.log == [SegmentEntry(e.segments[e.index])] + e.log
    ensures e.index + 1 < |e.segments| ==>
              && r.running == e.running && r.active == e.active && r.completed == e.completed
              && r.index == e.index + 1 && r.remaining == e.segments[e.index + 1].minutes * 60
              && r.shown == e.shown
    ensures e.index + 1 >= |e.segments| ==>
              && !r.running && !r.active && r.completed && r.index == -1 && r.remaining == 0
              && r.shown == 0
    ensures r.elapsed == e.elapsed && r.segments == e.segments && r.promptOpen == e.promptOpen
  {
    var logged :=
      if 0 <= e.index < |e.segments| then e.(log := [SegmentEntry(e.segments[e.index])] + e.log)
      else e;
    var advanced := logged.(index := e.index + 1);
    if advanced.index >= |e.segments| then
      advanced.(running := false, active := false, completed := true, index := -1,
                remaining := 0, shown := 0)
    else
      advanced.(remaining := e.segments[advanced.index].minutes * 60)
  }

  /**
   * One firing of the 1-second interval that `startTimer` schedules, so it
   * only happens while the timer runs. In a routine the segment counts down
   * and completes in the same tick when it reaches zero; otherwise the
   * stopwatch counts up.
   */
  function Tick(e: Engine): (r: Engine)
    ensures Valid(e) && e.running ==> Valid(r) && r.elapsed == e.elapsed + 1
    ensures r.segments == e.segments && r.promptOpen == e.promptOpen
  {
    if e.segments != [] && e.active then
      if e.remaining > 0 then
        var counted := e.(remaining := e.remaining - 1, elapsed := e.elapsed + 1,
                          shown := e.remaining - 1);
        if counted.remaining == 0 then CompleteSegment(counted) else counted
      else
        CompleteSegment(e)
    else
      e.(elapsed := e.elapsed + 1, shown := e.elapsed + 1)
  }

  /** Under `Valid` the source's completion of a segment with no time left (js/script.js:361-362) never runs. */
  lemma TickNeverFindsSegmentEmpty(e: Engine)
    requires Valid(e) && e.running && e.segments != [] && e.active
    ensures e.remaining > 0
  {
  }

  /** In a routine, a tick that does not end the segment counts its time down by one second. */
  lemma TickCountsDown(e: Engine)
    requires Valid(e) && e.running && e.active && e.remaining > 1
    ensures var r := Tick(e);
            && r.running && r.active && r.index == e.index && r.remaining == e.remaining - 1
            && r.remaining > 0 && r.log == e.log && r.shown == r.remaining
  {
  }

  /** The tick that brings the remaining time to zero completes the segment at once. */
  lemma TickEndsSegment(e: Engine)
    requires Valid(e) && e.running && e.active && e.remaining == 1
    ensures Completing(e.(remaining := 0, elapsed := e.elapsed + 1, shown := 0))
    ensures Tick(e) == CompleteSegment(e.(remaining := 0, elapsed := e.elapsed + 1,
                                            shown := 0))
  {
  }

  /** Outside an active routine a tick only advances the stopwatch. */
  lemma TickStopwatch(e: Engine)
    requires Valid(e) && e.running && !e.active
    ensures Tick(e) == e.(elapsed := e.elapsed + 1, shown := e.elapsed + 1)
  {
  }

  /** `pauseTimer`: stop the interval; optionally open the category prompt. */
  function Pause(e: Engine, triggerCategoryPrompt: bool): (r: Engine)
    requires Valid(e)
    ensures Valid(r) && !r.running
    ensures !e.running ==> r == e
    ensures e.running ==> r.promptOpen == (e.promptOpen || triggerCategoryPrompt)
    ensures r.(running := e.running, promptOpen := e.promptOpen) == e
  {
    if !e.running then e
    else e.(running := false, promptOpen := e.promptOpen || triggerCategoryPrompt)
  }

  /**
   * `logPauseCategory`: a chosen category logs the whole elapsed count (not
   * the time since the last pause) and closes the prompt.
   */
  function SubmitPauseCategory(e: Engine, category: string): (r: Engine)
    requires Valid(e)
    ensures Valid(r)
    ensures category == "" ==> r == e
    ensures category != "" ==>
              r.log == [PauseEntry(category, e.elapsed)] + e.log && !r.promptOpen
    ensures r.(log := e.log, promptOpen := e.promptOpen) == e
  {
    if category == "" then e
    else e.(log := [PauseEntry(category, e.elapsed)] + e.log, promptOpen := false)
  }

  /** `closePauseModal` on its own: the prompt is dismissed, nothing is logged. */
  function CancelPauseCategory(e: Engine): (r: Engine)
    ensures !r.promptOpen && r.(promptOpen := e.promptOpen) == e
  {
    e.(promptOpen := false)
  }

  /**
   * `resetTimer`. The source clears the routine progress only when the
   * routine is non-empty; `Valid` makes the progress of an empty routine
   * already clear, so the result is always fully reset.
   */
  function Reset(e: Engine): (r: Engine)
    requires Valid(e)
    ensures Valid(r)
    ensures !r.running && r.elapsed == 0 && !r.promptOpen && r.shown == 0
    ensures !r.active && !r.completed && r.index == -1 && r.remaining == 0
    ensures r.segments == e.segments && r.log == e.log
  {
    var paused := Pause(e, false);
    var zeroed := paused.(elapsed := 0, shown := 0, promptOpen := false);
    if zeroed.segments != [] then ClearProgress(zeroed) else zeroed
  }

  /** `toggleTimer`: the start/pause button. */
  function Toggle(e: Engine): (r: Engine)
    requires Valid(e)
    ensures Valid(r) && r.running == !e.running
    ensures e.running ==> r == Pause(e, true)
    ensures !e.running ==> r == Start(e)
  {
    if e.running then Pause(e, true) else Start(e)
  }

  /** `logCurrentSession`: log the elapsed count, unless it is zero. */
  function LogCurrentSession(e: Engine): (r: Engine)
    requires Valid(e)
    ensures Valid(r)
    ensures e.elapsed == 0 ==> r == e
    ensures e.elapsed > 0 ==> r.log == [SessionEntry(e.segments != [], e.elapsed)] + e.log
    ensures r.(log := e.log) == e
  {
    if e.elapsed == 0 then e
    else e.(log := [SessionEntry(e.segments != [], e.elapsed)] + e.log)
  }

  /** The status line `updateRoutineStatus` writes; `None` where it leaves the line as it was. */
  function RoutineStatus(e: Engine): (r: Option<Status>)
    ensures r == Some(NoRoutine) <==> e.segments == []
    ensures r == Some(RoutineDone) <==> e.segments != [] && e.completed
    ensures r.Some? && r.value.Ready? ==> r.value.next == e.segments[0] && !e.active
    ensures r.Some? && r.value.InProgress? ==>
              && 0 <= e.index < |e.segments| && r.value.current == e.segments[e.index]
              && r.value.running == e.running
              && 60 * r.value.minutesLeft - 60 < e.remaining <= 60 * r.value.minutesLeft
  {
    if e.segments == [] then Some(NoRoutine)
    else if e.completed then Some(RoutineDone)
    else if !e.active then Some(Ready(e.segments[0]))
    else if 0 <= e.index < |e.segments| then
      Some(InProgress(e.segments[e.index], e.running, CeilMinutes(e.remaining)))
    else None
  }

  /**
   * In a `Valid` state `updateRoutineStatus` always selects one of its four
   * lines, so each call rewrites the line. Between calls the line can lag
   * behind the state: see `StatusWrittenOnStart`.
   */
  lemma StatusAlwaysShown(e: Engine)
    requires Valid(e)
    ensures RoutineStatus(e).Some?
    ensures e.segments != [] && !e.completed ==>
              (RoutineStatus(e).value.Ready? <==> !e.active)
    ensures RoutineStatus(e).Some? && RoutineStatus(e).value.InProgress? ==>
              RoutineStatus(e).value.minutesLeft >= 1
  {
  }

  /**
   * `startTimer` writes the status line before it sets `isRunning`, so a
   * started or resumed routine shows the paused wording until the first tick
   * rewrites the line.
   */
  lemma StatusWrittenOnStart(e: Engine)
    requires Valid(e) && !e.running && e.segments != []
    ensures var s := Start(e);
            RoutineStatus(s.(running := false))
            == Some(InProgress(s.segments[s.index], false, CeilMinutes(s.remaining)))
    ensures RoutineStatus(Start(e)).value.running
  {
  }

  /** Which routine controls `syncRoutineControls` leaves enabled. */
  datatype Controls = Controls(editingEnabled: bool, clearEnabled: bool)

  function RoutineControls(e: Engine): (c: Controls)
    ensures c.editingEnabled <==> !e.running
    ensures c.clearEnabled <==> c.editingEnabled && e.segments != []
  {
    Controls(!e.running, !(e.segments == [] || e.running))
  }

  /** The clear button is enabled exactly when clearing would change something. */
  lemma ClearEnabledIffEffective(e: Engine)
    requires Valid(e)
    ensures RoutineControls(e).clearEnabled <==> ClearRoutine(e) != e
  {
  }

  /** A remove button does something exactly when editing is enabled and the position exists. */
  lemma RemoveEffectiveIffEditable(e: Engine, i: int)
    requires Valid(e)
    ensures RemoveSegment(e, i) != e <==> RoutineControls(e).editingEnabled && 0 <= i < |e.segments|
  {
    if RoutineControls(e).editingEnabled && 0 <= i < |e.segments| {
      assert |RemoveSegment(e, i).segments| != |e.segments|;
    }
  }

  /** Adding has no guard of its own: with the form disabled, a valid add still appends. */
  lemma AddNotGuardedWhileRunning(e: Engine, kind: Kind, minutes: int)
    requires Valid(e) && e.running && minutes > 0
    ensures !RoutineControls(e).editingEnabled
    ensures AddSegment(e, kind, Some(minutes)).segments == e.segments + [Segment(kind, minutes)]
  {
  }

  /** Reset leaves nothing further to reset. */
  lemma ResetIdempotent(e: Engine)
    requires Valid(e)
    ensures Reset(Reset(e)) == Reset(e)
  {
  }

  /** Pausing and then confirming a category logs the full elapsed count. */
  lemma PauseThenCategoryLogsElapsed(e: Engine, category: string)
    requires Valid(e) && e.running && category != ""
    ensures var r := SubmitPauseCategory(Pause(e, true), category);
            && r.log == [PauseEntry(category, e.elapsed)] + e.log
            && !r.running && !r.promptOpen && r.elapsed == e.elapsed
  {
  }
}
