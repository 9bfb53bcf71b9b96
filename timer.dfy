/**
 * The countdown of startTimer and tick (app.js:158-169): the remaining
 * time, its h:m:s display, the last-five-minutes warning and the expiry
 * test, all on integer milliseconds.  The progress-bar fraction is a
 * floating-point value and is not modelled.
 */
module Timer {
  import opened Wrappers
  import opened Text

  /** DEFAULT_DURATION_MS (app.js:4): two hours. */
  const DefaultDurationMs: int := 2 * 60 * 60 * 1000

  /** Below this many milliseconds left the clock is highlighted. */
  const WarningMs: int := 5 * 60 * 1000

  /**
   * The exam length: the `mins` override (an integer, possibly zero or
   * negative, when parseInt found one) in milliseconds, else two hours.
   */
  function Duration(overrideMinutes: Option<int>): int
  {
    match overrideMinutes
    case Some(m) => m * 60 * 1000
    case None => DefaultDurationMs
  }

  /** What one tick computes. */
  datatype TimerView = TimerView(
    left: nat, hours: nat, minutes: nat, seconds: nat,
    clock: string, warning: bool, expired: bool)

  /** `Math.max(deadline - now, 0)`. */
  function Remaining(deadline: int, now: int): nat
  {
    if deadline - now > 0 then deadline - now else 0
  }

  lemma MulBound(x: int, d: int)
    requires d > 0
    ensures x >= 1 ==> x * d >= d
    ensures x <= -1 ==> x * d <= -d
  {
    assert x * d == (x - 1) * d + d;
    assert x * d == (x + 1) * d - d;
  }
  lemma DivUnique(a: int, d: int, q: int, r: int)
    requires d > 0 && 0 <= r < d && a == q * d + r
    ensures a / d == q
  {
    var q0, r0 := a / d, a % d;
    assert a == q0 * d + r0;
    assert (q - q0) * d == r0 - r;
    MulBound(q - q0, d);
  }
  /** Seconds, minutes and hours of `left` milliseconds, as tick computes them. */
  lemma ClockDecomposition(left: nat)
    ensures var t := left / 1000;
      (left / 3600000) * 3600 + ((left / 60000) % 60) * 60 + t % 60 == t
  {
    var t := left / 1000;
    var u := t / 60;
    DivUnique(left, 60000, u, (t % 60) * 1000 + left % 1000);
    DivUnique(left, 3600000, u / 60, (u % 60) * 60000 + (t % 60) * 1000 + left % 1000);
  }

  /** One tick at time `now`. */
  function TickView(deadline: int, now: int): (v: TimerView)
    ensures now < deadline ==> v.left == deadline - now
    ensures now >= deadline ==> v.left == 0
    ensures v.warning <==> deadline - now < WarningMs
    ensures v.expired <==> now >= deadline
  {
    var left := Remaining(deadline, now);
    var s := (left / 1000) % 60;
    var m := (left / (60 * 1000)) % 60;
    var h := left / (60 * 60 * 1000);
    TimerView(left, h, m, s, Pad(h) + ":" + Pad(m) + ":" + Pad(s), left < WarningMs, left <= 0)
  }

  /** The displayed hours, minutes and seconds are the whole seconds left, split. */
  lemma TickClockParts(deadline: int, now: int)
    ensures var v := TickView(deadline, now);
      && v.seconds < 60 && v.minutes < 60
      && v.hours * 3600 + v.minutes * 60 + v.seconds == v.left / 1000
  {
    ClockDecomposition(Remaining(deadline, now));
  }

  /** Below 100 hours the clock reads hh:mm:ss, and each part reads back as its number. */
  lemma ClockText(deadline: int, now: int)
    requires TickView(deadline, now).hours < 100
    ensures var v := TickView(deadline, now);
      && |v.clock| == 8 && v.clock[2] == ':' && v.clock[5] == ':'
      && DecimalValue(v.clock[..2]) == v.hours
      && DecimalValue(v.clock[3..5]) == v.minutes
      && DecimalValue(v.clock[6..]) == v.seconds
  {
    var v := TickView(deadline, now);
    PadFacts(v.hours);
    PadFacts(v.minutes);
    PadFacts(v.seconds);
    assert v.clock[..2] == Pad(v.hours);
    assert v.clock[3..5] == Pad(v.minutes);
    assert v.clock[6..] == Pad(v.seconds);
  }

  // ---------------------------------------------------------------------
  // startTimer: the first tick and the periodic one
  // ---------------------------------------------------------------------

  /** After startTimer: whether finalize has run, and whether a periodic tick is still scheduled. */
  datatype TimerSetup = TimerSetup(finalized: bool, armed: bool)

  /**
   * startTimer as written (app.js:158-161): the first tick runs before
   * setInterval, so when it finalizes, finalize's clearInterval finds no
   * timer yet, and setInterval then schedules a tick after the exam ended.
   */
  function StartTimerAsWritten(deadline: int, now: int): (r: TimerSetup)
    ensures r.finalized <==> now >= deadline
    ensures r.armed
  {
    TimerSetup(TickView(deadline, now).expired, true)
  }

  /** The panel on screen: the welcome page, the exam or the results. */
  datatype Panel = WelcomePanel | ExamPanel | ResultsPanel

  /** The state a click leaves: how often finalize has run, whether a tick is scheduled, the panel shown. */
  datatype ClickOutcome = ClickOutcome(finalizeRuns: nat, armed: bool, panel: Panel)

  /**
   * The Start click as written (app.js:101-105): startTimer, then the exam
   * panel is shown whatever the first tick did.
   */
  function StartClickAsWritten(deadline: int, now: int): (r: ClickOutcome)
    ensures r.finalizeRuns == (if now >= deadline then 1 else 0)
    ensures r.armed && r.panel == ExamPanel
  {
    var t := StartTimerAsWritten(deadline, now);
    ClickOutcome(if t.finalized then 1 else 0, t.armed, ExamPanel)
  }

  /**
   * A later run of the scheduled tick (app.js:163-168): once no time is
   * left it calls finalize, which clears `EXAM.timerId` (app.js:173) and
   * shows the results (app.js:218-219).  With nothing scheduled, nothing
   * happens.
   */
  function LaterTick(o: ClickOutcome, deadline: int, now: int): (r: ClickOutcome)
    ensures !o.armed ==> r == o
    ensures o.armed && now >= deadline ==> !r.armed && r.panel == ResultsPanel && r.finalizeRuns == o.finalizeRuns + 1
  {
    if o.armed && TickView(deadline, now).expired then ClickOutcome(o.finalizeRuns + 1, false, ResultsPanel) else o
  }

  /**
   * With the deadline already reached (`mins=0` or negative), the click
   * finalizes and then shows question 1 again with a tick still scheduled;
   * the next tick finalizes a second time and only then stops the timer.
   */
  lemma ExpiredStartFinalizesTwice(deadline: int, now: int, later: int)
    requires now >= deadline && later >= now
    ensures StartClickAsWritten(deadline, now) == ClickOutcome(1, true, ExamPanel)
    ensures LaterTick(StartClickAsWritten(deadline, now), deadline, later) == ClickOutcome(2, false, ResultsPanel)
  {
  }

  /**
   * startTimer as intended: a finalize during the first tick cancels the
   * periodic tick, so a tick is scheduled exactly while the exam runs.
   */
  function StartTimer(deadline: int, now: int): (r: TimerSetup)
    ensures r.finalized <==> now >= deadline
    ensures r.armed <==> !r.finalized
  {
    var expired := TickView(deadline, now).expired;
    TimerSetup(expired, !expired)
  }

  /**
   * The Start click as intended: the results stay on screen when the first
   * tick finished the exam, and the exam panel is shown otherwise.
   */
  function StartClick(deadline: int, now: int): (r: ClickOutcome)
    ensures r.finalizeRuns == (if now >= deadline then 1 else 0)
    ensures r.panel == (if now >= deadline then ResultsPanel else ExamPanel)
    ensures r.armed <==> r.panel == ExamPanel
  {
    var t := StartTimer(deadline, now);
    ClickOutcome(if t.finalized then 1 else 0, t.armed, if t.finalized then ResultsPanel else ExamPanel)
  }

  /** Corrected, an expired start finalizes once, shows the results, and no later tick changes that. */
  lemma ExpiredStartFinalizesOnce(deadline: int, now: int, later: int)
    requires now >= deadline && later >= now
    ensures StartClick(deadline, now) == ClickOutcome(1, false, ResultsPanel)
    ensures LaterTick(StartClick(deadline, now), deadline, later) == StartClick(deadline, now)
  {
  }
}
