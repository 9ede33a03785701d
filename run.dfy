/**
 * Uninterrupted runs: the 1-second interval firing again and again with no
 * other command in between, until it is cancelled by the routine finishing.
 */
module Runs {
  import opened Routine
  import opened EngineSpec

  /** `n` firings of the interval, which stop once the timer is no longer running. */
  function Run(e: Engine, n: nat): (r: Engine)
    ensures Valid(e) ==> Valid(r)
    ensures r.segments == e.segments && r.promptOpen == e.promptOpen
    decreases n
  {
    if n == 0 || !e.running then e else Run(Tick(e), n - 1)
  }

  lemma {:induction false} RunAdditive(e: Engine, a: nat, b: nat)
    ensures Run(e, a + b) == Run(Run(e, a), b)
    decreases a
  {
    if a > 0 && e.running {
      RunAdditive(Tick(e), a - 1, b);
    }
  }

  /** Ticking through the rest of the current segment ends with its completion. */
  lemma {:induction false} RunThroughSegment(e: Engine)
    requires Valid(e) && e.running && e.active
    ensures Completing(e.(remaining := 0, elapsed := e.elapsed + e.remaining, shown := 0))
    ensures Run(e, e.remaining)
            == CompleteSegment(e.(remaining := 0, elapsed := e.elapsed + e.remaining,
                                  shown := 0))
    decreases e.remaining
  {
    if e.remaining == 1 {
      TickEndsSegment(e);
    } else {
      TickCountsDown(e);
      var t := Tick(e);
      RunThroughSegment(t);
      assert t.(remaining := 0, elapsed := t.elapsed + t.remaining, shown := 0)
          == e.(remaining := 0, elapsed := e.elapsed + e.remaining, shown := 0);
    }
  }

  /** The state an uninterrupted run leaves behind once the routine is done. */
  predicate Finished(r: Engine) {
    !r.running && !r.active && r.completed && r.index == -1 && r.remaining == 0
  }

  /** Seconds left in an active routine: the current segment's rest and every later segment. */
  function SecondsToEnd(e: Engine): (n: nat)
    requires Valid(e) && e.active
    ensures n >= e.remaining
  {
    e.remaining + TotalSeconds(e.segments[e.index + 1..])
  }

  /**
   * Running out the routine from `e`: the remaining time of the current
   * segment plus the length of the later ones brings the routine to its end,
   * logging each of those segments once, in order.
   */
  predicate RunsToEnd(e: Engine)
    requires Valid(e) && e.active
  {
    var r := Run(e, SecondsToEnd(e));
    && Finished(r)
    && r.elapsed == e.elapsed + SecondsToEnd(e)
    && r.log == CompletionLog(e.segments[e.index..]) + e.log
  }

  /** Every state inside a running routine runs to its end. */
  lemma {:induction false} RunToEnd(e: Engine)
    requires Valid(e) && e.running && e.active
    ensures RunsToEnd(e)
    decreases |e.segments| - e.index
  {
    if e.index + 1 < |e.segments| {
      var c := FinishMiddleSegment(e);
      RunToEnd(c);
      assert c.segments[c.index..] == e.segments[e.index + 1..];
      EndsAfterNext(e.segments, e.index, e.log);
    } else {
      FinishLastSegment(e);
    }
  }

  /** Running out a segment that is not the last moves on to the next one. */
  lemma FinishMiddleSegment(e: Engine) returns (c: Engine)
    requires Valid(e) && e.running && e.active && e.index + 1 < |e.segments|
    ensures Valid(c) && c.running && c.active && c.index == e.index + 1
    ensures c.log == [SegmentEntry(e.segments[e.index])] + e.log
    ensures c.elapsed == e.elapsed + e.remaining && c.segments == e.segments
    ensures SecondsToEnd(e) == e.remaining + SecondsToEnd(c)
    ensures Run(e, SecondsToEnd(e)) == Run(c, SecondsToEnd(c))
  {
    RunThroughSegment(e);
    c := CompleteSegment(e.(remaining := 0, elapsed := e.elapsed + e.remaining, shown := 0));
    SecondsToNextSegment(e, c);
    RunAdditive(e, e.remaining, SecondsToEnd(c));
  }

  /** The time left before moving on is the current rest plus the time left after it. */
  lemma SecondsToNextSegment(e: Engine, c: Engine)
    requires Valid(e) && e.active && Valid(c) && c.active
    requires c.segments == e.segments && c.index == e.index + 1
    requires c.remaining == e.segments[c.index].minutes * 60
    ensures SecondsToEnd(e) == e.remaining + SecondsToEnd(c)
  {
    TotalSecondsStep(e.segments, c.index);
  }

  /** The log of the run from the next segment, on top of the current segment's entry, is the log of the run from the current one. */
  lemma EndsAfterNext(segs: seq<Segment>, i: int, log: seq<LogEntry>)
    requires 0 <= i < |segs|
    ensures CompletionLog(segs[i + 1..]) + ([SegmentEntry(segs[i])] + log)
            == CompletionLog(segs[i..]) + log
  {
    CompletionLogStep(segs, i);
    Regroup(CompletionLog(segs[i + 1..]), [SegmentEntry(segs[i])], log);
  }

  lemma Regroup<T>(a: seq<T>, b: seq<T>, c: seq<T>)
    ensures a + (b + c) == (a + b) + c
  {
  }

  /** Running out the last segment finishes the routine. */
  lemma FinishLastSegment(e: Engine)
    requires Valid(e) && e.running && e.active && e.index + 1 == |e.segments|
    ensures RunsToEnd(e)
  {
    assert e.segments[e.index + 1..] == [];
    assert e.segments[e.index..] == [e.segments[e.index]];
    RunThroughSegment(e);
  }

  /**
   * A full uninterrupted run: starting a routine that is not under way and
   * letting it tick for the routine's total length logs exactly one entry
   * per segment, oldest first at the bottom, and leaves the elapsed count at
   * that total.
   */
  lemma FullRun(e: Engine)
    requires Valid(e) && !e.running && !e.active && e.segments != []
    ensures var r := Run(Start(e), TotalSeconds(e.segments));
            && Finished(r)
            && r.elapsed == TotalSeconds(e.segments)
            && r.log == CompletionLog(e.segments) + e.log
            && |r.log| == |e.log| + |e.segments|
            && SumDurations(r.log[..|e.segments|]) == TotalSeconds(e.segments)
  {
    var s := Start(e);
    assert s.running && s.active && s.index == 0 && s.elapsed == 0;
    assert s.segments == e.segments && s.log == e.log && s.remaining == e.segments[0].minutes * 60;
    assert e.segments[0..] == e.segments;
    TotalSecondsStep(e.segments, 0);
    assert SecondsToEnd(s) == TotalSeconds(e.segments);
    RunToEnd(s);
    CompletionLogLength(e.segments);
    CompletionLogDurations(e.segments);
    var r := Run(s, TotalSeconds(e.segments));
    assert r.log[..|e.segments|] == CompletionLog(e.segments);
  }

  /** Without a routine the timer is a stopwatch: each tick adds one second and nothing is logged. */
  lemma {:induction false} StopwatchRun(e: Engine, n: nat)
    requires Valid(e) && e.running && e.segments == []
    ensures var r := Run(e, n);
            && r.running && r.elapsed == e.elapsed + n && r.log == e.log
            && r.index == -1 && !r.active
    decreases n
  {
    if n > 0 {
      TickStopwatch(e);
      StopwatchRun(Tick(e), n - 1);
    }
  }
}
