/**
 * The count-up timer screen: elapsed seconds since a start instant, two
 * keypad-edited thresholds and the stage they select.
 */
module CountUpTimer {
  import opened Wrappers
  import opened NumberButton
  import opened StageValueCodec
  import opened Stages

  const DefaultWarningValue: StageValue := [0, 0, 4]
  const DefaultAlertValue: StageValue := [0, 0, 5]

  /** JavaScript truthiness of the animation loop's value (`number | null`). */
  predicate Truthy(loop: Option<real>) {
    loop.Some? && loop.value != 0.0
  }

  /**
   * `useTimerDuration`: whole seconds since `startedAt` (milliseconds), or
   * None before the timer is started. `now` stands for `Date.now()`; the loop
   * value only forces re-evaluation. Dafny's `/` by a positive divisor rounds
   * down, as `Math.floor` of the quotient does.
   */
  function TimerDuration(startedAt: Option<int>, now: int, loop: Option<real>): (r: Option<int>)
    ensures r.None? <==> startedAt.None?
    ensures r.Some? ==> r.value * 1000 <= now - startedAt.value < (r.value + 1) * 1000
  {
    if startedAt.None? then None
    else
      var secondsElapsed := (now - startedAt.value) / 1000;
      if Truthy(loop) then Some(secondsElapsed) else Some(secondsElapsed)
  }

  /** A threshold is reached once the duration is at least its value; a missing side never reaches. */
  predicate PastThreshold(duration: Option<int>, threshold: Option<int>) {
    if duration.None? || threshold.None? then false else duration.value >= threshold.value
  }

  /** The stage for a duration: alert first, then warning, else okay; reaching a threshold counts. */
  function StageFor(duration: Option<int>, warning: Option<int>, alert: Option<int>): (r: Stage)
    ensures r == Alert <==> duration.Some? && alert.Some? && duration.value >= alert.value
    ensures r == Warning <==>
      && duration.Some? && warning.Some? && duration.value >= warning.value
      && !(alert.Some? && duration.value >= alert.value)
  {
    var isAlertPastDate := PastThreshold(duration, alert);
    var isWarningPastDate := PastThreshold(duration, warning);
    if isAlertPastDate then Alert else if isWarningPastDate then Warning else Okay
  }

  /** The screen's state: the stage being edited, both thresholds, and the start instant. */
  datatype CountUpScreen = CountUpScreen(
    selectedStage: Stage,
    warningValue: StageValue,
    alertValue: StageValue,
    startedAt: Option<int>)

  const InitialScreen := CountUpScreen(Warning, DefaultWarningValue, DefaultAlertValue, None)

  /** A keypad action edits the warning value when warning is selected, otherwise the alert value. */
  function OnNumberPadAction(s: CountUpScreen, action: NumberButtonValue): (r: CountUpScreen)
    ensures r.selectedStage == s.selectedStage && r.startedAt == s.startedAt
    ensures s.selectedStage == Warning ==>
      r.warningValue == GetActionValue(s.warningValue, action) && r.alertValue == s.alertValue
    ensures s.selectedStage != Warning ==>
      r.alertValue == GetActionValue(s.alertValue, action) && r.warningValue == s.warningValue
  {
    if s.selectedStage == Warning then s.(warningValue := GetActionValue(s.warningValue, action))
    else s.(alertValue := GetActionValue(s.alertValue, action))
  }

  /** `onStart`: remember the current instant. */
  function OnStart(s: CountUpScreen, now: int): (r: CountUpScreen)
    ensures r.startedAt == Some(now)
    ensures r.(startedAt := s.startedAt) == s
  {
    s.(startedAt := Some(now))
  }

  /** The stage the screen shows at `now`. */
  function ScreenStage(s: CountUpScreen, now: int, loop: Option<real>): Stage {
    StageFor(TimerDuration(s.startedAt, now, loop),
             StageValueToDuration(Some(s.warningValue)),
             StageValueToDuration(Some(s.alertValue)))
  }

  /** The loop value never changes the duration. */
  lemma LoopIsIrrelevant(startedAt: Option<int>, now: int, a: Option<real>, b: Option<real>)
    ensures TimerDuration(startedAt, now, a) == TimerDuration(startedAt, now, b)
  {
  }

  /** Elapsed seconds never decrease as the clock advances. */
  lemma ElapsedIsMonotone(startedAt: int, now1: int, now2: int, loop: Option<real>)
    requires now1 <= now2
    ensures TimerDuration(Some(startedAt), now1, loop).value <= TimerDuration(Some(startedAt), now2, loop).value
  {
    var r1 := TimerDuration(Some(startedAt), now1, loop).value;
    var r2 := TimerDuration(Some(startedAt), now2, loop).value;
    assert r1 * 1000 < (r2 + 1) * 1000;
  }

  /** A longer duration never selects a less severe stage. */
  lemma StageIsMonotone(d1: int, d2: int, warning: Option<int>, alert: Option<int>)
    requires d1 <= d2
    ensures Severity(StageFor(Some(d1), warning, alert)) <= Severity(StageFor(Some(d2), warning, alert))
  {
  }

  /** As time passes a running timer's stage only escalates. */
  lemma {:induction false} ScreenStageOnlyEscalates(s: CountUpScreen, now1: int, now2: int, loop: Option<real>)
    requires now1 <= now2
    ensures Severity(ScreenStage(s, now1, loop)) <= Severity(ScreenStage(s, now2, loop))
  {
    if s.startedAt.Some? {
      ElapsedIsMonotone(s.startedAt.value, now1, now2, loop);
      StageIsMonotone(TimerDuration(s.startedAt, now1, loop).value, TimerDuration(s.startedAt, now2, loop).value,
                      StageValueToDuration(Some(s.warningValue)), StageValueToDuration(Some(s.alertValue)));
    }
  }

  /** Exactly reaching the warning threshold (below alert) is warning, not okay. */
  lemma WarningBoundaryIsInclusive(w: int, alert: Option<int>)
    requires alert.None? || w < alert.value
    ensures StageFor(Some(w), Some(w), alert) == Warning
  {
  }

  /**
   * With the default thresholds (4 and 5 minutes) a started timer is okay
   * for its first 240 seconds, warning until 300 seconds and alert from then on.
   */
  lemma DefaultThresholds(startedAt: int, now: int, loop: Option<real>)
    ensures StageValueToDuration(Some(DefaultWarningValue)) == Some(240)
    ensures StageValueToDuration(Some(DefaultAlertValue)) == Some(300)
    ensures var s := OnStart(InitialScreen, startedAt);
      && (now - startedAt < 240000 ==> ScreenStage(s, now, loop) == Okay)
      && (240000 <= now - startedAt < 300000 ==> ScreenStage(s, now, loop) == Warning)
      && (300000 <= now - startedAt ==> ScreenStage(s, now, loop) == Alert)
  {
  }

  /** Before the start there is no duration, so the stage is okay whatever the thresholds. */
  lemma NotStartedIsOkay(s: CountUpScreen, now: int, loop: Option<real>)
    requires s.startedAt.None?
    ensures ScreenStage(s, now, loop) == Okay
  {
  }
}
