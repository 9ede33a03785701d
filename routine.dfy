/**
 * The values the timer engine works with: routine segments, log entries and
 * the texts derived from them (`getSegmentLabel`, `logRoutineSegment`,
 * `logPauseCategory`, `logCurrentSession`, `createLogEntry` in js/script.js).
 */
module Routine {
  import opened Options
  import Clock

  /** The segment type chosen in the form; every value other than study reads as a break. */
  datatype Kind = Study | Break

  /** A minute count the routine form accepts. */
  type Minutes = m: int | m > 0 witness 1

  /** One routine segment. */
  datatype Segment = Segment(kind: Kind, minutes: Minutes)

  /** The label a log entry carries; `TitleText` gives its text. */
  datatype Title = StudyDone | BreakDone | Paused | RoutineTotal | StudySession

  /** The tag a log entry carries; `TagText` gives its text. */
  datatype Tag = NoTag | MinutesTag(minutes: int) | CategoryTag(category: string)

  /**
   * One record `{label, tag, durationSeconds}` as `createLogEntry` receives
   * it (the label is called `title` here, `label` being a Dafny keyword); the
   * timestamp and the list item's markup are left out.
   */
  datatype LogEntry = LogEntry(title: Title, tag: Tag, durationSeconds: int)

  function TitleText(t: Title): string {
    match t
    case StudyDone => "공부 구간 완료"
    case BreakDone => "휴식 구간 완료"
    case Paused => "일시정지"
    case RoutineTotal => "루틴 전체 기록"
    case StudySession => "학습 세션"
  }

  /** The tag text; an entry without a tag shows none. */
  function TagText(t: Tag): Option<string> {
    match t
    case NoTag => None
    case MinutesTag(m) => Some(Clock.IntToString(m) + "분")
    case CategoryTag(c) => Some(c)
  }

  /** `getSegmentLabel`: the short name shown for a segment. */
  function SegmentLabel(seg: Segment): (l: string)
    ensures seg.kind == Study ==> l == "공부"
    ensures seg.kind == Break ==> l == "휴식"
  {
    if seg.kind == Study then "공부" else "휴식"
  }

  /** The two kinds are told apart by their labels. */
  lemma SegmentLabelDistinguishesKind(a: Segment, b: Segment)
    ensures SegmentLabel(a) == SegmentLabel(b) <==> a.kind == b.kind
  {
    if a.kind != b.kind {
      assert SegmentLabel(a)[0] != SegmentLabel(b)[0];
    }
  }

  /** The label `logRoutineSegment` chooses for a finished segment. */
  function CompletionTitle(seg: Segment): (t: Title)
    ensures TitleText(t) == SegmentLabel(seg) + " 구간 완료"
  {
    if seg.kind == Study then StudyDone else BreakDone
  }

  /** A segment's tag text gives its minute count back. */
  lemma MinutesTagRoundTrip(minutes: int)
    requires minutes >= 0
    ensures var t := TagText(MinutesTag(minutes)).value;
            t[|t| - 1] == '분' && Clock.AllDigits(t[..|t| - 1]) && Clock.Value(t[..|t| - 1]) == minutes
  {
    var t := TagText(MinutesTag(minutes)).value;
    assert t[..|t| - 1] == Clock.NatToString(minutes);
    Clock.ValueOfNatToString(minutes);
  }

  /** `logRoutineSegment`: the entry for a finished segment. */
  function SegmentEntry(seg: Segment): (e: LogEntry)
    ensures TitleText(e.title) == SegmentLabel(seg) + " 구간 완료"
    ensures TagText(e.tag) == Some(Clock.IntToString(seg.minutes) + "분")
    ensures e.durationSeconds == seg.minutes * 60 > 0
  {
    LogEntry(CompletionTitle(seg), MinutesTag(seg.minutes), seg.minutes * 60)
  }

  /** `logPauseCategory`: the entry for a confirmed pause category. */
  function PauseEntry(category: string, elapsedSeconds: int): (e: LogEntry)
    ensures TitleText(e.title) == "일시정지" && TagText(e.tag) == Some(category)
    ensures e.durationSeconds == elapsedSeconds
  {
    LogEntry(Paused, CategoryTag(category), elapsedSeconds)
  }

  /** `logCurrentSession`: the label depends only on whether a routine exists. */
  function SessionEntry(hasRoutine: bool, elapsedSeconds: int): (e: LogEntry)
    ensures TitleText(e.title) == if hasRoutine then "루틴 전체 기록" else "학습 세션"
    ensures TagText(e.tag) == None && e.durationSeconds == elapsedSeconds
  {
    LogEntry(if hasRoutine then RoutineTotal else StudySession, NoTag, elapsedSeconds)
  }

  /** The duration text of a rendered entry; a negative duration shows as zero. */
  function DurationText(e: LogEntry): (t: string)
    ensures e.durationSeconds >= 0 ==> t == Clock.FormatTime(e.durationSeconds)
    ensures e.durationSeconds < 0 ==> t == "00:00:00"
  {
    Clock.FormatTimeZero();
    Clock.FormatTime(if e.durationSeconds < 0 then 0 else e.durationSeconds)
  }

  /** Seconds a routine takes from start to finish. */
  function TotalSeconds(segs: seq<Segment>): (t: int)
    ensures t >= 0
    ensures segs != [] ==> t >= 60
  {
    if segs == [] then 0 else segs[0].minutes * 60 + TotalSeconds(segs[1..])
  }

  /** The entries an uninterrupted run through `segs` adds to the newest-first log. */
  function CompletionLog(segs: seq<Segment>): seq<LogEntry> {
    if segs == [] then [] else CompletionLog(segs[1..]) + [SegmentEntry(segs[0])]
  }

  function SumDurations(log: seq<LogEntry>): int {
    if log == [] then 0 else log[0].durationSeconds + SumDurations(log[1..])
  }

  lemma TotalSecondsStep(segs: seq<Segment>, i: int)
    requires 0 <= i < |segs|
    ensures TotalSeconds(segs[i..]) == segs[i].minutes * 60 + TotalSeconds(segs[i + 1..])
  {
    assert segs[i..][1..] == segs[i + 1..];
  }

  /** Finishing one more segment puts its entry under the later segments' entries. */
  lemma CompletionLogStep(segs: seq<Segment>, i: int)
    requires 0 <= i < |segs|
    ensures CompletionLog(segs[i..]) == CompletionLog(segs[i + 1..]) + [SegmentEntry(segs[i])]
  {
    assert segs[i..][1..] == segs[i + 1..];
  }

  /** One entry per segment, the last segment's newest. */
  lemma {:induction false} CompletionLogOrder(segs: seq<Segment>, k: int)
    requires 0 <= k < |segs|
    ensures |CompletionLog(segs)| == |segs|
    ensures CompletionLog(segs)[k] == SegmentEntry(segs[|segs| - 1 - k])
    decreases |segs|
  {
    CompletionLogLength(segs);
    if k < |segs| - 1 {
      CompletionLogOrder(segs[1..], k);
    }
  }

  lemma {:induction false} CompletionLogLength(segs: seq<Segment>)
    ensures |CompletionLog(segs)| == |segs|
    decreases |segs|
  {
    if segs != [] {
      CompletionLogLength(segs[1..]);
    }
  }

  lemma {:induction false} SumDurationsAppend(a: seq<LogEntry>, b: seq<LogEntry>)
    ensures SumDurations(a + b) == SumDurations(a) + SumDurations(b)
    decreases |a|
  {
    if a == [] {
      assert a + b == b;
    } else {
      assert (a + b)[1..] == a[1..] + b;
      SumDurationsAppend(a[1..], b);
    }
  }

  /** The logged durations of a full run add up to the routine's length. */
  lemma {:induction false} CompletionLogDurations(segs: seq<Segment>)
    ensures SumDurations(CompletionLog(segs)) == TotalSeconds(segs)
    decreases |segs|
  {
    if segs != [] {
      SumDurationsAppend(CompletionLog(segs[1..]), [SegmentEntry(segs[0])]);
      CompletionLogDurations(segs[1..]);
    }
  }

  /** The status line chosen by `updateRoutineStatus`. */
  datatype Status =
    | NoRoutine
    | RoutineDone
    | Ready(next: Segment)
    | InProgress(current: Segment, running: bool, minutesLeft: int)

  /** `Math.ceil(seconds / 60)`, i.e. minutes rounded up. */
  function CeilMinutes(seconds: int): (m: int)
    ensures 60 * m - 60 < seconds <= 60 * m
  {
    (seconds + 59) / 60
  }

  /** The Korean status text for a status. */
  function StatusText(s: Status): string {
    match s
    case NoRoutine => "루틴이 설정되어 있지 않습니다."
    case RoutineDone => "루틴이 모두 완료되었습니다. 다시 시작하려면 시작 버튼을 눌러주세요."
    case Ready(next) => SegmentLabel(next) + " 준비 완료"
    case InProgress(seg, running, left) =>
      SegmentLabel(seg) + " " + (if running then "진행 중" else "일시정지됨")
      + " · 남은 " + Clock.IntToString(left) + "분"
  }
}
