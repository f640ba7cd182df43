/**
 * The practice session of the `TextTyping` component as a state machine.
 *
 * Every event handler is a pure function from the state before the event to
 * the state after it, and reads only the state before the event: React state
 * setters take effect once the handler has returned, so a handler that first
 * clears a field and then reads it still sees the old value. After a handler,
 * the effect that watches `remainingTime` runs when that field changed, and
 * submits when it is 0.
 *
 * Time stamps are integer milliseconds supplied with each event; the sample
 * passage arrives as the text of a `SampleLoaded` event.
 */
module TypingSession {
  import opened Options
  import opened TextMetrics
  import TimeFormat

  /** The countdown length, in seconds, armed when a practice starts or is reset. */
  const PracticeSeconds: int := 300

  /** The component's nine pieces of state. */
  datatype State = State(
    paragraphs: string,          // the sample passage
    inputText: string,           // what the user has typed
    startTime: Option<int>,      // ms; set when a practice starts
    endTime: Option<int>,        // ms; set by a submit
    wordCount: nat,
    accuracy: Accuracy,
    remainingTime: int,          // seconds left on the countdown
    practiceStarted: bool,
    timeTaken: Option<int>       // ms between start and end, when computed
  )

  /** The initial values of the component's `useState` calls. */
  function Initial(): (s: State)
    ensures s.paragraphs == [] && s.inputText == []
    ensures s.startTime == None && s.endTime == None && s.timeTaken == None
    ensures s.remainingTime == 0 && !s.practiceStarted
    ensures s.wordCount == 0 && s.accuracy == NoAccuracy
  {
    State([], [], None, None, 0, NoAccuracy, 0, false, None)
  }

  /** A successful fetch stores the passage; nothing else changes. */
  function SampleLoaded(s: State, text: string): (r: State)
    ensures r.paragraphs == text
    ensures r.(paragraphs := s.paragraphs) == s
  {
    s.(paragraphs := text)
  }

  /** `resetTypingPractice` (and `handleReset`, which only calls it). */
  function Reset(s: State): (r: State)
    ensures r.paragraphs == s.paragraphs && r.practiceStarted == s.practiceStarted
    ensures r.inputText == [] && r.remainingTime == PracticeSeconds
    ensures r.startTime == None && r.endTime == None && r.timeTaken == None
    ensures r.accuracy == NoAccuracy && r.wordCount == 0
  {
    s.(inputText := [], startTime := None, endTime := None, accuracy := NoAccuracy,
       wordCount := 0, remainingTime := PracticeSeconds, timeTaken := None)
  }

  /**
   * `handleInputChange(value)` at time `now`: a first change starts the
   * practice; a change while started resets it instead (leaving it started,
   * because the reset never touches `practiceStarted`). Either way the new
   * text is stored last and wins over the reset's empty text.
   */
  function InputChange(s: State, value: string, now: int): (r: State)
    ensures r.inputText == value && r.paragraphs == s.paragraphs
    ensures r.practiceStarted && r.remainingTime == PracticeSeconds
    ensures r.endTime == None && r.timeTaken == None
    ensures r.accuracy == NoAccuracy && r.wordCount == 0
    ensures r.startTime == if s.practiceStarted then None else Some(now)
  {
    if s.practiceStarted then
      Reset(s).(inputText := value)
    else
      s.(startTime := Some(now), endTime := None, accuracy := NoAccuracy, wordCount := 0,
         practiceStarted := true, remainingTime := PracticeSeconds, timeTaken := None,
         inputText := value)
  }

  /**
   * `calculateTimeTaken` as `handleSubmit` runs it: with the start and end
   * of the state before the submit, so the end just stamped is not yet
   * visible. The stored value changes only when both were already set.
   */
  function TimeTakenAfterSubmit(s: State): (t: Option<int>)
    ensures t != s.timeTaken ==> s.startTime.Some? && s.endTime.Some?
    ensures s.startTime.Some? && s.endTime.Some? ==> t == Some(s.endTime.value - s.startTime.value)
  {
    match (s.startTime, s.endTime)
    case (Some(start), Some(end)) => Some(end - start)
    case _ => s.timeTaken
  }

  /** `handleSubmit` at time `now`: stamps the end and scores the text typed so far. */
  function Submit(s: State, now: int): (r: State)
    ensures !r.practiceStarted && r.endTime == Some(now)
    ensures r.accuracy == AccuracyOf(s.paragraphs, s.inputText)
    ensures r.wordCount == WordCount(s.inputText)
    ensures r.timeTaken == TimeTakenAfterSubmit(s)
    ensures r.paragraphs == s.paragraphs && r.inputText == s.inputText
    ensures r.startTime == s.startTime && r.remainingTime == s.remainingTime
  {
    s.(endTime := Some(now), accuracy := AccuracyOf(s.paragraphs, s.inputText),
       wordCount := WordCount(s.inputText), practiceStarted := false,
       timeTaken := TimeTakenAfterSubmit(s))
  }

  /** The part of the state that `handleSubmit` reads. */
  datatype Snapshot = Snapshot(paragraphs: string, inputText: string, startTime: Option<int>, endTime: Option<int>)

  function SnapshotOf(s: State): Snapshot {
    Snapshot(s.paragraphs, s.inputText, s.startTime, s.endTime)
  }

  /**
   * The five-minute timeout that a starting edit arms: it runs the
   * `handleSubmit` of the render that armed it, so it scores the state
   * `captured` that the starting edit saw, while its setters write into the
   * current state `s`. Nothing cancels it (`clearTimeout()` is called
   * without a timer), so it fires even after a reset or an earlier submit.
   */
  function DeadlineSubmit(captured: Snapshot, s: State, now: int): (r: State)
    ensures !r.practiceStarted && r.endTime == Some(now)
    ensures r.accuracy == AccuracyOf(captured.paragraphs, captured.inputText)
    ensures r.wordCount == WordCount(captured.inputText)
    ensures r.paragraphs == s.paragraphs && r.inputText == s.inputText
    ensures r.startTime == s.startTime && r.remainingTime == s.remainingTime
    ensures captured.startTime.Some? && captured.endTime.Some? ==>
      r.timeTaken == Some(captured.endTime.value - captured.startTime.value)
    ensures !(captured.startTime.Some? && captured.endTime.Some?) ==> r.timeTaken == s.timeTaken
  {
    s.(endTime := Some(now), accuracy := AccuracyOf(captured.paragraphs, captured.inputText),
       wordCount := WordCount(captured.inputText), practiceStarted := false,
       timeTaken := if captured.startTime.Some? && captured.endTime.Some?
         then Some(captured.endTime.value - captured.startTime.value) else s.timeTaken)
  }

  /** A deadline that sees the current state is an ordinary submit. */
  lemma DeadlineOfCurrentIsSubmit(s: State, now: int)
    ensures DeadlineSubmit(SnapshotOf(s), s, now) == Submit(s, now)
  {
    assert DeadlineSubmit(SnapshotOf(s), s, now) ==
      s.(endTime := Some(now), accuracy := AccuracyOf(s.paragraphs, s.inputText),
         wordCount := WordCount(s.inputText), practiceStarted := false,
         timeTaken := TimeTakenAfterSubmit(s));
  }

  /**
   * The one-second timer: armed only while time remains and a practice is
   * running, it decrements the countdown by one.
   */
  function Tick(s: State): (r: State)
    ensures s.remainingTime > 0 && s.practiceStarted ==> r == s.(remainingTime := s.remainingTime - 1)
    ensures !(s.remainingTime > 0 && s.practiceStarted) ==> r == s
    ensures s.remainingTime >= 0 ==> r.remainingTime >= 0
  {
    if s.remainingTime > 0 && s.practiceStarted then s.(remainingTime := s.remainingTime - 1) else s
  }

  /** The effect on `remainingTime`: when it is 0 the practice is submitted. */
  function ZeroTimeEffect(s: State, now: int): (r: State)
    ensures s.remainingTime == 0 ==> r == Submit(s, now)
    ensures s.remainingTime != 0 ==> r == s
  {
    if s.remainingTime == 0 then Submit(s, now) else s
  }

  /** The events the component reacts to. */
  datatype Event =
    | Loaded(text: string)     // the sample fetch succeeded
    | Change(value: string)    // the text area's onChange
    | Focus                    // the text area's onFocus, with its current value
    | SubmitForm               // the form's onSubmit
    | ResetClick               // the Reset button's onClick
    | TimerTick                // the one-second timeout fired
    | Deadline(captured: Snapshot)  // the five-minute timeout fired; `captured` is what its starting edit saw

  /** The handler for one event. */
  function Handle(s: State, e: Event, now: int): State {
    match e
    case Loaded(text) => SampleLoaded(s, text)
    case Change(value) => InputChange(s, value, now)
    case Focus => InputChange(s, s.inputText, now)
    case SubmitForm => Submit(s, now)
    case ResetClick => Reset(s)
    case TimerTick => Tick(s)
    case Deadline(captured) => DeadlineSubmit(captured, s, now)
  }

  /**
   * React's rule for the effect on `remainingTime`: after a handler has
   * turned `before` into `after`, the effect runs if the field changed.
   */
  function AfterEffect(before: State, after: State, now: int): State {
    if after.remainingTime != before.remainingTime then ZeroTimeEffect(after, now) else after
  }

  /**
   * What one event does, event by event. The effect adds a submit only after
   * the tick that takes a running practice's last second: every other
   * handler either leaves the countdown alone or sets it to 300.
   */
  function Step(s: State, e: Event, now: int): State {
    match e
    case Loaded(text) => SampleLoaded(s, text)
    case Change(value) => InputChange(s, value, now)
    case Focus => InputChange(s, s.inputText, now)
    case SubmitForm => Submit(s, now)
    case ResetClick => Reset(s)
    case TimerTick =>
      if s.remainingTime == 1 && s.practiceStarted then Submit(s.(remainingTime := 0), now) else Tick(s)
    case Deadline(captured) => DeadlineSubmit(captured, s, now)
  }

  /** Each event is its handler followed by the `remainingTime` effect. */
  lemma StepIsHandlerThenEffect(s: State, e: Event, now: int)
    ensures Step(s, e, now) == AfterEffect(s, Handle(s, e, now), now)
  {
    match e
    case Loaded(text) =>
    case Change(value) =>
      assert InputChange(s, value, now).remainingTime == PracticeSeconds;
    case Focus =>
      assert InputChange(s, s.inputText, now).remainingTime == PracticeSeconds;
    case SubmitForm =>
      assert Submit(s, now).remainingTime == s.remainingTime;
    case ResetClick =>
    case TimerTick =>
    case Deadline(captured) =>
      assert DeadlineSubmit(captured, s, now).remainingTime == s.remainingTime;
  }

  /** The state after mounting: the `remainingTime` effect runs once on mount, with the initial 0. */
  function Mount(now: int): (s: State)
    ensures s.endTime == Some(now) && !s.practiceStarted
    ensures s.accuracy == NaN && s.wordCount == 1
    ensures s.timeTaken == None && s.remainingTime == 0
    ensures s.paragraphs == [] && s.inputText == [] && s.startTime == None
  {
    ZeroTimeEffect(Initial(), now)
  }

  /** An event stamped with the time it happened, in milliseconds. */
  datatype Timed = At(time: int, event: Event)

  /** The state after a sequence of events. */
  function Run(s: State, events: seq<Timed>): State
    decreases |events|
  {
    if events == [] then s else Run(Step(s, events[0].event, events[0].time), events[1..])
  }

  /**
   * What holds in every state the component reaches: the countdown stays
   * within 0..300, and a running practice has time left, no end stamp and
   * no recorded duration.
   */
  predicate Inv(s: State) {
    && 0 <= s.remainingTime <= PracticeSeconds
    && (s.practiceStarted ==> s.remainingTime > 0 && s.endTime == None && s.timeTaken == None)
  }

  /** Every event keeps the invariant. */
  lemma StepKeepsInv(s: State, e: Event, now: int)
    requires Inv(s)
    ensures Inv(Step(s, e, now))
  {
  }

  /** Every sequence of events keeps the invariant. */
  lemma {:induction false} RunKeepsInv(s: State, events: seq<Timed>)
    requires Inv(s)
    ensures Inv(Run(s, events))
    decreases |events|
  {
    if events != [] {
      StepKeepsInv(s, events[0].event, events[0].time);
      RunKeepsInv(Step(s, events[0].event, events[0].time), events[1..]);
    }
  }

  /** Every state reachable from mounting satisfies the invariant. */
  lemma ReachableInv(now: int, events: seq<Timed>)
    ensures Inv(Run(Mount(now), events))
  {
    RunKeepsInv(Mount(now), events);
  }

  /** Running two sequences of events one after the other. */
  lemma {:induction false} RunAppend(s: State, a: seq<Timed>, b: seq<Timed>)
    ensures Run(s, a + b) == Run(Run(s, a), b)
    decreases |a|
  {
    if a == [] {
      assert a + b == b;
    } else {
      assert (a + b)[0] == a[0];
      assert (a + b)[1..] == a[1..] + b;
      RunAppend(Step(s, a[0].event, a[0].time), a[1..], b);
    }
  }

  /** `n` timer ticks, all at time `now`. */
  function Ticks(n: nat, now: int): (es: seq<Timed>)
    ensures |es| == n
    ensures forall i :: 0 <= i < n ==> es[i] == At(now, TimerTick)
  {
    seq(n, _ => At(now, TimerTick))
  }

  /** While time remains, each tick of a running practice takes exactly one second off and changes nothing else. */
  lemma {:induction false} Countdown(s: State, n: nat, now: int)
    requires s.practiceStarted && n < s.remainingTime
    ensures Run(s, Ticks(n, now)) == s.(remainingTime := s.remainingTime - n)
    decreases n
  {
    if n > 0 {
      var es := Ticks(n, now);
      assert es[0] == At(now, TimerTick);
      assert es[1..] == Ticks(n - 1, now);
      var s' := s.(remainingTime := s.remainingTime - 1);
      assert Run(s, es) == Run(s', es[1..]);
      Countdown(s', n - 1, now);
    }
  }

  /**
   * Once the countdown of a running practice runs out, the practice has been
   * submitted with the text typed at that moment.
   */
  lemma CountdownExpires(s: State, now: int)
    requires Inv(s) && s.practiceStarted
    ensures var r := Run(s, Ticks(s.remainingTime, now));
      && !r.practiceStarted && r.remainingTime == 0 && r.endTime == Some(now)
      && r.accuracy == AccuracyOf(s.paragraphs, s.inputText)
      && r.wordCount == WordCount(s.inputText)
  {
    var n := s.remainingTime - 1;
    var tick := [At(now, TimerTick)];
    assert Ticks(s.remainingTime, now) == Ticks(n, now) + tick;
    RunAppend(s, Ticks(n, now), tick);
    Countdown(s, n, now);
    var last := s.(remainingTime := 1);
    assert Run(s, Ticks(s.remainingTime, now)) == Run(last, tick);
    assert Run(last, tick) == Step(last, TimerTick, now);
    var zero := last.(remainingTime := 0);
    assert zero.paragraphs == s.paragraphs && zero.inputText == s.inputText && zero.remainingTime == 0;
    assert Step(last, TimerTick, now) == Submit(zero, now);
  }

  /** After a submit, ticks do nothing: the automatic submit happens at most once. */
  lemma {:induction false} TicksAfterSubmit(s: State, n: nat, now: int)
    requires !s.practiceStarted
    ensures Run(s, Ticks(n, now)) == s
    decreases n
  {
    if n > 0 {
      assert Ticks(n, now)[1..] == Ticks(n - 1, now);
      TicksAfterSubmit(s, n - 1, now);
    }
  }

  /**
   * Submitting a running practice never records how long it took: the
   * duration is computed from the end stamp before the submit, which a
   * running practice does not have.
   */
  lemma SubmitRunningRecordsNoTime(s: State, now: int)
    requires Inv(s) && s.practiceStarted
    ensures Step(s, SubmitForm, now).timeTaken == None
    ensures Step(s, SubmitForm, now).endTime == Some(now)
  {
  }

  /**
   * A practice started by an edit and then submitted records no duration:
   * the submit sees the end stamp the start cleared.
   */
  lemma FirstSubmitRecordsNoTime(s: State, value: string, start: int, end1: int)
    requires !s.practiceStarted
    ensures var first := Step(Step(s, Change(value), start), SubmitForm, end1);
      && first.timeTaken == None
      && first.startTime == Some(start) && first.endTime == Some(end1)
  {
    var started := Step(s, Change(value), start);
    assert started.startTime == Some(start) && started.endTime == None && started.timeTaken == None;
  }

  /**
   * Submitting once more after such a practice records the time from its
   * start to the first submit.
   */
  lemma SecondSubmitRecordsTime(s: State, value: string, start: int, end1: int, end2: int)
    requires !s.practiceStarted
    ensures var first := Step(Step(s, Change(value), start), SubmitForm, end1);
      Step(first, SubmitForm, end2).timeTaken == Some(end1 - start)
  {
    FirstSubmitRecordsNoTime(s, value, start, end1);
    SubmitAfterStamps(Step(Step(s, Change(value), start), SubmitForm, end1), end2);
  }

  /** A submit of a state with both stamps set records the time between them. */
  lemma SubmitAfterStamps(s: State, now: int)
    requires s.startTime.Some? && s.endTime.Some?
    ensures Step(s, SubmitForm, now).timeTaken == Some(s.endTime.value - s.startTime.value)
  {
    assert Submit(s, now).timeTaken == TimeTakenAfterSubmit(s);
  }

  /**
   * An edit (or a focus) while a practice runs restarts it rather than
   * continuing it: the countdown goes back to 300 seconds and the start time
   * is cleared, while the practice stays started and keeps the new text.
   */
  lemma EditWhileRunningRestarts(s: State, e: Event, now: int)
    requires Inv(s) && s.practiceStarted
    requires e.Change? || e.Focus?
    ensures var r := Step(s, e, now);
      && r.practiceStarted && r.startTime == None && r.remainingTime == PracticeSeconds
      && r.inputText == (if e.Change? then e.value else s.inputText)
      && r.paragraphs == s.paragraphs
  {
  }

  /**
   * After an edit mid-practice has cleared the start time, no later submit
   * can record a duration until a new practice starts: the start stays unset
   * through resets, ticks and submits, and the recorded duration can only be
   * cleared. (A pending five-minute deadline is the exception: it computes the
   * duration from the state its starting edit saw.)
   */
  lemma {:induction false} StartStaysCleared(s: State, events: seq<Timed>)
    requires s.startTime == None
    requires forall i :: 0 <= i < |events| ==> !events[i].event.Change? && !events[i].event.Focus?
    ensures Run(s, events).startTime == None
    ensures (forall i :: 0 <= i < |events| ==> !events[i].event.Deadline?) ==>
      Run(s, events).timeTaken == None || Run(s, events).timeTaken == s.timeTaken
    decreases |events|
  {
    if events != [] {
      var next := Step(s, events[0].event, events[0].time);
      assert next.startTime == None;
      assert !events[0].event.Deadline? ==> next.timeTaken == None || next.timeTaken == s.timeTaken;
      StartStaysCleared(next, events[1..]);
      assert Run(s, events) == Run(next, events[1..]);
      assert (forall i :: 0 <= i < |events| ==> !events[i].event.Deadline?) ==>
        (forall i :: 0 <= i < |events[1..]| ==> !events[1..][i].event.Deadline?);
    }
  }

  /**
   * The five-minute deadline armed by the first keystroke after the sample
   * loads scores the empty text that keystroke replaced, whatever has been
   * typed since: accuracy 0% of the sample (or `NaN` for a blank sample),
   * one word, and no recorded duration.
   */
  lemma DeadlineScoresEmptyText(sample: string, t0: int, current: State, now: int)
    ensures var loaded := Step(Mount(t0), Loaded(sample), t0);
      var r := Step(current, Deadline(SnapshotOf(loaded)), now);
      && r.wordCount == 1
      && r.accuracy == (if AllSpace(sample) then NaN else Ratio(0, NonSpaceCount(sample)))
      && r.timeTaken == current.timeTaken
      && r.inputText == current.inputText && !r.practiceStarted
  {
    var m := Mount(t0);
    assert m == Submit(Initial(), t0);
    var loaded := Step(m, Loaded(sample), t0);
    assert loaded == m.(paragraphs := sample);
    var r := Step(current, Deadline(SnapshotOf(loaded)), now);
    assert r == DeadlineSubmit(SnapshotOf(loaded), current, now);
    WordCountIsRunCount([]);
    AccuracyMeaning(sample, []);
    RunCountZero([]);
  }

  /**
   * The Reset button sits inside the form without `type="button"`, so a
   * click runs `handleReset` and then submits the form, with the handler of
   * the re-rendered component: the practice ends, scoring the empty text.
   */
  function ResetButton(now: int): seq<Timed> {
    [At(now, ResetClick), At(now, SubmitForm)]
  }

  /** Two events in a row are two steps. */
  lemma RunPair(s: State, a: Timed, b: Timed)
    ensures Run(s, [a, b]) == Step(Step(s, a.event, a.time), b.event, b.time)
  {
    var t := Step(s, a.event, a.time);
    assert [a, b][1..] == [b];
    assert Run(s, [a, b]) == Run(t, [b]);
    assert [b][1..] == [];
    assert Run(t, [b]) == Run(Step(t, b.event, b.time), []);
  }

  /** The Reset button amounts to a submit of the reset state. */
  lemma ResetButtonSubmitsReset(s: State, now: int)
    ensures Run(s, ResetButton(now)) == Submit(Reset(s), now)
  {
    RunPair(s, At(now, ResetClick), At(now, SubmitForm));
  }

  /** After the Reset button the text is empty, the practice stopped, and the empty text scored. */
  lemma ResetButtonEndsPractice(s: State, now: int)
    ensures var r := Run(s, ResetButton(now));
      && r.inputText == [] && !r.practiceStarted && r.remainingTime == PracticeSeconds
      && r.startTime == None && r.endTime == Some(now) && r.timeTaken == None
      && r.wordCount == 1 && r.accuracy == AccuracyOf(s.paragraphs, [])
  {
    ResetButtonSubmitsReset(s, now);
    var reset := Reset(s);
    assert reset.startTime == None && reset.timeTaken == None && reset.inputText == [];
    WordCountIsRunCount([]);
  }

  /**
   * A whole practice: mount, load a sample, type a text and submit. The
   * submit scores the typed text against the sample and records no duration.
   */
  lemma PracticeScores(sample: string, text: string, t0: int, t1: int, t2: int)
    ensures var loaded := Step(Mount(t0), Loaded(sample), t0);
      var typed := Step(loaded, Change(text), t1);
      var r := Step(typed, SubmitForm, t2);
      && r.accuracy == AccuracyOf(sample, text) && r.wordCount == WordCount(text)
      && r.timeTaken == None && r.endTime == Some(t2) && !r.practiceStarted
  {
    var loaded := Step(Mount(t0), Loaded(sample), t0);
    assert loaded.paragraphs == sample && !loaded.practiceStarted;
    var typed := Step(loaded, Change(text), t1);
    assert typed.paragraphs == sample && typed.inputText == text;
    assert typed.endTime == None && typed.timeTaken == None;
  }

  /**
   * The sample "Bacon ipsum dolor amet" typed as "Bacon ipsum" and submitted
   * scores 1000/19 (about 52.63%) accuracy and two words, with no recorded
   * duration.
   */
  lemma BaconPractice(t0: int, t1: int, t2: int)
    ensures var loaded := Step(Mount(t0), Loaded("Bacon ipsum dolor amet"), t0);
      var typed := Step(loaded, Change("Bacon ipsum"), t1);
      var r := Step(typed, SubmitForm, t2);
      && r.accuracy == Ratio(1000, 19) && r.wordCount == 2 && r.timeTaken == None
  {
    PracticeScores("Bacon ipsum dolor amet", "Bacon ipsum", t0, t1, t2);
    BaconTyped();
    BaconAccuracy();
  }

  /** The countdown the component displays while a practice runs. */
  function TimerDisplay(s: State): (d: Option<string>)
    ensures d.Some? <==> s.practiceStarted
  {
    if s.practiceStarted then Some(TimeFormat.FormatTime(s.remainingTime)) else None
  }

  /**
   * In every reachable state the displayed countdown is a five-character
   * clock `0M:SS` that reads back as the seconds remaining.
   */
  lemma DisplayedClock(s: State)
    requires Inv(s) && s.practiceStarted
    ensures var d := TimerDisplay(s).value;
      && |d| == 5 && d[0] == '0' && d[2] == ':'
      && TimeFormat.ParseClock(d) == Some(s.remainingTime)
  {
    var d := TimeFormat.FormatTime(s.remainingTime);
    assert TimerDisplay(s).value == d;
    TimeFormat.ParseFormatRoundTrip(s.remainingTime);
    assert TimeFormat.Field(d[0], d[1]) * 60 <= 300;
    assert TimeFormat.DigitValue(d[0]) == 0;
    assert d[0] == TimeFormat.DigitChar(0);
  }
}
