/**
 * The timer engine as js/script.js keeps it: module-level variables updated
 * in place by the command handlers and by the body of the 1-second
 * interval. Every method's ensures gives the whole new state; the command
 * handlers give it through the matching function of `EngineSpec`. They and
 * the interval body keep `Valid`; the helpers they call may pass through
 * states outside it.
 */
module Timer {
  import opened Options
  import opened Routine
  import opened EngineSpec

  class TimerEngine {
    var isRunning: bool
    var elapsedSeconds: nat
    var routineSegments: seq<Segment>
    var routineActive: bool
    var routineCompleted: bool
    var currentSegmentIndex: SegmentIndex
    var segmentRemainingSeconds: int
    /** The pause-category overlay is shown. */
    var promptOpen: bool
    /** The timer display reads `Clock.FormatTime(displaySeconds)`. */
    var displaySeconds: nat
    /** The log list, newest entry first. */
    var log: seq<LogEntry>

    /** The fields as one snapshot. */
    function State(): Engine
      reads this
    {
      Engine(isRunning, elapsedSeconds, routineSegments, routineActive, routineCompleted,
             currentSegmentIndex, segmentRemainingSeconds, promptOpen, displaySeconds, log)
    }

    ghost predicate Valid()
      reads this
    {
      EngineSpec.Valid(State())
    }

    /** The page after loading: stopped, nothing counted, no routine, an empty log. */
    constructor()
      ensures Valid() && State() == Initial()
    {
      isRunning := false;
      elapsedSeconds := 0;
      routineSegments := [];
      routineActive := false;
      routineCompleted := false;
      currentSegmentIndex := -1;
      segmentRemainingSeconds := 0;
      promptOpen := false;
      displaySeconds := 0;
      log := [];
    }

    /** `createLogEntry`: the new entry goes on top of the list. */
    method CreateLogEntry(entry: LogEntry)
      modifies this
      ensures State() == old(State()).(log := [entry] + old(log))
    {
      log := [entry] + log;
    }

    /** `resetRoutineState`. */
    method ResetRoutineState()
      modifies this
      ensures State() == ClearProgress(old(State()))
    {
      routineActive := false;
      routineCompleted := false;
      currentSegmentIndex := -1;
      segmentRemainingSeconds := 0;
    }

    /** `addRoutineSegment`, given the parsed minute count (`None` for NaN). */
    method AddRoutineSegment(kind: Kind, minutes: Option<int>)
      requires Valid()
      modifies this
      ensures Valid()
      ensures State() == AddSegment(old(State()), kind, minutes)
    {
      if minutes.None? || minutes.value <= 0 {
        return;
      }
      routineSegments := routineSegments + [Segment(kind, minutes.value)];
      if !isRunning {
        ResetRoutineState();
      }
      routineCompleted := false;
    }

    /** `removeRoutineSegment`. */
    method RemoveRoutineSegment(index: int)
      requires Valid()
      modifies this
      ensures Valid()
      ensures State() == RemoveSegment(old(State()), index)
    {
      if isRunning || index < 0 || index >= |routineSegments| {
        return;
      }
      routineSegments := routineSegments[..index] + routineSegments[index + 1..];
      if |routineSegments| == 0 {
        ResetRoutineState();
      } else {
        routineCompleted := false;
        routineActive := false;
        currentSegmentIndex := -1;
        segmentRemainingSeconds := 0;
      }
    }

    /** `clearRoutine`. */
    method ClearRoutine()
      requires Valid()
      modifies this
      ensures Valid()
      ensures State() == EngineSpec.ClearRoutine(old(State()))
    {
      if isRunning || |routineSegments| == 0 {
        return;
      }
      routineSegments := [];
      ResetRoutineState();
    }

    /** `logRoutineSegment`. */
    method LogRoutineSegment(segment: Segment)
      modifies this
      ensures State() == old(State()).(log := [SegmentEntry(segment)] + old(log))
    {
      CreateLogEntry(SegmentEntry(segment));
    }

    /** `handleSegmentCompletion`, called once the running segment's time has reached zero. */
    method HandleSegmentCompletion()
      requires Completing(State())
      modifies this
      ensures Valid()
      ensures State() == CompleteSegment(old(State()))
    {
      if 0 <= currentSegmentIndex < |routineSegments| {
        LogRoutineSegment(routineSegments[currentSegmentIndex]);
      }
      currentSegmentIndex := currentSegmentIndex + 1;
      if currentSegmentIndex >= |routineSegments| {
        isRunning := false;
        routineActive := false;
        routineCompleted := true;
        currentSegmentIndex := -1;
        segmentRemainingSeconds := 0;
        displaySeconds := 0;
        return;
      }
      segmentRemainingSeconds := routineSegments[currentSegmentIndex].minutes * 60;
    }

    /** `startTimer`, without scheduling: `Tick` stands for the interval it starts. */
    method StartTimer()
      requires Valid()
      modifies this
      ensures Valid()
      ensures State() == Start(old(State()))
    {
      if isRunning {
        return;
      }
      if |routineSegments| > 0 {
        if !routineActive || routineCompleted || currentSegmentIndex == -1 {
          routineActive := true;
          routineCompleted := false;
          currentSegmentIndex := 0;
          segmentRemainingSeconds := routineSegments[0].minutes * 60;
          elapsedSeconds := 0;
        } else if segmentRemainingSeconds <= 0 && currentSegmentIndex >= 0 {
          // The reload of a used-up segment: `Valid` leaves an active segment time to run.
          assert false;
        }
        displaySeconds := segmentRemainingSeconds;
      } else {
        displaySeconds := elapsedSeconds;
      }
      isRunning := true;
    }

    /** One firing of the interval, which is scheduled exactly while the timer runs. */
    method Tick()
      requires Valid() && isRunning
      modifies this
      ensures Valid()
      ensures State() == EngineSpec.Tick(old(State()))
    {
      if |routineSegments| > 0 && routineActive {
        if segmentRemainingSeconds > 0 {
          segmentRemainingSeconds := segmentRemainingSeconds - 1;
          elapsedSeconds := elapsedSeconds + 1;
          displaySeconds := segmentRemainingSeconds;
          if segmentRemainingSeconds == 0 {
            HandleSegmentCompletion();
          }
        } else {
          // Completing a segment found with no time left: `Valid` rules it out.
          assert false;
        }
      } else {
        elapsedSeconds := elapsedSeconds + 1;
        displaySeconds := elapsedSeconds;
      }
    }

    /** `pauseTimer`. */
    method PauseTimer(triggerCategoryPrompt: bool)
      requires Valid()
      modifies this
      ensures Valid()
      ensures State() == Pause(old(State()), triggerCategoryPrompt)
    {
      if !isRunning {
        return;
      }
      isRunning := false;
      if triggerCategoryPrompt {
        promptOpen := true;
      }
    }

    /** `closePauseModal`. */
    method ClosePauseModal()
      modifies this
      ensures State() == CancelPauseCategory(old(State()))
    {
      promptOpen := false;
    }

    /** `logPauseCategory`: a category picked or typed in the pause prompt. */
    method LogPauseCategory(category: string)
      requires Valid()
      modifies this
      ensures Valid()
      ensures State() == SubmitPauseCategory(old(State()), category)
    {
      if category == "" {
        return;
      }
      CreateLogEntry(PauseEntry(category, elapsedSeconds));
      ClosePauseModal();
    }

    /** `resetTimer`. */
    method ResetTimer()
      requires Valid()
      modifies this
      ensures Valid()
      ensures State() == Reset(old(State()))
    {
      if isRunning {
        PauseTimer(false);
      }
      elapsedSeconds := 0;
      displaySeconds := 0;
      ClosePauseModal();
      if |routineSegments| > 0 {
        ResetRoutineState();
      }
    }

    /** `toggleTimer`: the start/pause button. */
    method ToggleTimer()
      requires Valid()
      modifies this
      ensures Valid()
      ensures State() == Toggle(old(State()))
    {
      if isRunning {
        PauseTimer(true);
      } else {
        StartTimer();
      }
    }

    /** `logCurrentSession`: the log button. */
    method LogCurrentSession()
      requires Valid()
      modifies this
      ensures Valid()
      ensures State() == EngineSpec.LogCurrentSession(old(State()))
    {
      if elapsedSeconds == 0 {
        return;
      }
      CreateLogEntry(SessionEntry(|routineSegments| > 0, elapsedSeconds));
    }
  }
}
