/**
 * The clock screen: the current time of day shown as a duration, keypad
 * editing of two target times with length-gated keys, and the display press.
 */
module ClockTimer {
  import opened Wrappers
  import opened Decimal
  import opened NumberButton
  import opened StageValueCodec
  import opened Stages
  import CountUpTimer

  type Hour = h: int | 0 <= h < 24
  type Minute = m: int | 0 <= m < 60
  type Second = s: int | 0 <= s < 60

  /** The local time of day `new Date()` reports through `getHours`, `getMinutes` and `getSeconds`. */
  datatype LocalTime = LocalTime(hours: Hour, minutes: Minute, seconds: Second)

  /**
   * `useClockDuration`: the time of day as seconds since midnight. Read back
   * as hours, minutes and seconds (what the display does) it gives the same
   * time, and the loop value plays no part.
   */
  function ClockDuration(now: LocalTime, loop: Option<real>): (r: int)
    ensures 0 <= r <= 86399
    ensures r / 3600 == now.hours && r % 3600 / 60 == now.minutes && r % 60 == now.seconds
  {
    var value := now.hours * 3600 + now.minutes * 60 + now.seconds;
    DivModUnique(value, 3600, now.hours, now.minutes * 60 + now.seconds);
    DivModUnique(now.minutes * 60 + now.seconds, 60, now.minutes, now.seconds);
    DivModUnique(value, 60, now.hours * 60 + now.minutes, now.seconds);
    if CountUpTimer.Truthy(loop) then value else value
  }

  /** Different times of day give different durations. */
  lemma ClockDurationIsInjective(a: LocalTime, b: LocalTime, la: Option<real>, lb: Option<real>)
    requires ClockDuration(a, la) == ClockDuration(b, lb)
    ensures a == b
  {
  }

  datatype ClockScreen = ClockScreen(selectedStage: Stage, warningValue: StageValue, alertValue: StageValue)

  /** Both target times start unset. */
  const InitialScreen := ClockScreen(Warning, NullValue, NullValue)

  /** The value the keypad is editing. */
  function ActiveValue(s: ClockScreen): StageValue {
    if s.selectedStage == Warning then s.warningValue else s.alertValue
  }

  /** A keypad action edits only the selected target time. */
  function OnNumberPadAction(s: ClockScreen, action: NumberButtonValue): (r: ClockScreen)
    ensures r.selectedStage == s.selectedStage
    ensures ActiveValue(r) == GetActionValue(ActiveValue(s), action)
    ensures s.selectedStage == Warning ==> r.alertValue == s.alertValue
    ensures s.selectedStage != Warning ==> r.warningValue == s.warningValue
  {
    if s.selectedStage == Warning then s.(warningValue := GetActionValue(s.warningValue, action))
    else s.(alertValue := GetActionValue(s.alertValue, action))
  }

  /**
   * The keys disabled for a value of the given length; an undefined list
   * (nothing disabled) is the empty set.
   */
  function DisabledButtons(length: nat): (r: set<NumberButtonKey>)
    ensures length == 0 ==> forall k :: k in r <==> k == BackspaceKey || (k.DigitKey? && k.digit >= 3)
    ensures length in {1, 2, 4} ==> forall k :: k in r <==> k.DigitKey? && k.digit >= 6
    ensures length == 6 ==> forall k :: k in r <==> k != BackspaceKey
    ensures length !in {0, 1, 2, 4, 6} ==> r == {}
  {
    if length == 0 then
      (set d: Digit | 3 <= d <= 9 :: DigitKey(d)) + {BackspaceKey}
    else if length == 1 || length == 2 || length == 4 then
      set d: Digit | 6 <= d <= 9 :: DigitKey(d)
    else if length == 6 then
      var all := (set d: Digit | 0 <= d <= 9 :: DigitKey(d)) + {DoubleZeroKey};
      assert forall k: NumberButtonKey :: k in all <==> k != BackspaceKey by {
        forall k: NumberButtonKey | k.DigitKey? ensures k in all {
          assert k == DigitKey(k.digit);
        }
      }
      all
    else
      {}
  }

  /**
   * Six digit keys pressed from an unset value, each one enabled when it is
   * pressed, give a time whose minutes and seconds are below 60 and whose
   * hours are at most 25.
   */
  lemma {:induction false} DigitOnlyEntryIsClockLike(ds: seq<Digit>)
    requires |ds| == 6
    requires forall i :: 0 <= i < 6 ==> DigitKey(ds[i]) !in DisabledButtons(|Typed(ds[..i])|)
    ensures var v := Typed(ds);
      && |v| == 6
      && 10 * (v[5] as int) + v[4] <= 25
      && 10 * (v[3] as int) + v[2] <= 59
      && 10 * (v[1] as int) + v[0] <= 59
  {
    TypedKeepsNewestSix(ds);
    var v := Typed(ds);
    assert v[5] == ds[0] && v[4] == ds[1] && v[3] == ds[2] && v[1] == ds[4];
    assert ds[0] <= 2 by {
      assert |Typed(ds[..0])| == 0;
    }
    assert ds[1] <= 5 && ds[2] <= 5 && ds[4] <= 5 by {
      assert |Typed(ds[..1])| == 1 && |Typed(ds[..2])| == 2 && |Typed(ds[..4])| == 4;
    }
  }

  /**
   * The gating looks only at the length, so double-zero escapes it: 2, 5, 5, 9, 5
   * are each enabled when pressed, nothing is disabled at length five, and
   * double-zero then gives 55 hours and 95 minutes.
   */
  lemma DoubleZeroEscapesGate(ds: seq<Digit>)
    requires ds == [2, 5, 5, 9, 5]
    ensures forall i :: 0 <= i < 5 ==> DigitKey(ds[i]) !in DisabledButtons(i)
    ensures DoubleZeroKey !in DisabledButtons(|Typed(ds)|)
    ensures GetActionValue(Typed(ds), DoubleZero) == [0, 0, 5, 9, 5, 5]
    ensures StageValueToDuration(Some(GetActionValue(Typed(ds), DoubleZero))) == Some(203700)
  {
    TypedKeepsNewestSix(ds);
    assert Reverse(Newest6(ds)) == [5, 9, 5, 5, 2];
  }

  /** Hour 25 gets through the gating: 2, 5, 0, 0, 0, 0 is accepted and reads as 90000 seconds. */
  lemma GatingAdmitsHourTwentyFive()
    ensures forall i :: 0 <= i < 6 ==> DigitKey([2, 5, 0, 0, 0, 0][i]) !in DisabledButtons(i)
    ensures StageValueToDuration(Some(Reverse([2, 5, 0, 0, 0, 0]))) == Some(90000)
  {
  }

  /** With six digits held, backspace is the only enabled key. */
  lemma FullValueOnlyShrinks(v: StageValue, key: NumberButtonKey)
    requires |v| == 6 && key !in DisabledButtons(|v|)
    ensures key == BackspaceKey
    ensures |GetActionValue(v, OnPress(key, true).value)| == 5
  {
  }

  /** What a display press reports, and the full-screen amount it animates to (if any). */
  datatype PressResult = PressResult(handled: bool, target: Option<real>)

  /** `onPressDisplay`: only a press while not full-screen is handled, and it goes full-screen. */
  function OnPressDisplay(fullScreenAmount: real): (r: PressResult)
    ensures r.handled <==> fullScreenAmount == 0.0
    ensures r.handled ==> r.target == Some(1.0)
    ensures !r.handled ==> r.target.None?
  {
    if fullScreenAmount == 0.0 then PressResult(true, Some(1.0)) else PressResult(false, None)
  }

  /** What the screen hands to its layout. */
  datatype LayoutProps = LayoutProps(duration: int, stage: Stage, disabledButtons: set<NumberButtonKey>)

  /** The layout always gets the okay stage, the clock duration and the gating of the edited value. */
  function Layout(s: ClockScreen, now: LocalTime, loop: Option<real>): (r: LayoutProps)
    ensures r.stage == Okay
    ensures 0 <= r.duration <= 86399
    ensures |ActiveValue(s)| == 6 ==> DoubleZeroKey in r.disabledButtons && BackspaceKey !in r.disabledButtons
  {
    LayoutProps(ClockDuration(now, loop), Okay, DisabledButtons(|ActiveValue(s)|))
  }
}
