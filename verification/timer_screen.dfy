/**
 * The newer timer screen: green, yellow and red durations edited one at a
 * time through the duration picker, the selected stage, and the seconds the
 * timer counts from, which come from the green durations alone.
 */
module TimerScreen {
  import opened Wrappers
  import opened DurationPicker
  import opened Colours
  import opened TwoDigit
  import opened Decimal
  import opened StageSelector

  /** `durationsToSeconds`: nothing when every field is undefined, else the total with missing fields as 0. */
  function DurationsToSeconds(d: Durations): (r: Option<int>)
    ensures r.None? <==> d.hours.None? && d.minutes.None? && d.seconds.None?
    ensures r.Some? ==> r.value == d.hours.GetOr(0) * 3600 + d.minutes.GetOr(0) * 60 + d.seconds.GetOr(0)
  {
    if d.hours.None? && d.minutes.None? && d.seconds.None? then None
    else Some(d.hours.GetOr(0) * 3600 + d.minutes.GetOr(0) * 60 + d.seconds.GetOr(0))
  }

  datatype Screen = Screen(green: Durations, yellow: Durations, red: Durations, stage: Colour)

  const NoDurations := Durations(None, None, None)

  /** Five minutes on green, nothing on yellow or red, green selected. */
  const InitialScreen := Screen(Durations(None, Some(5), Some(0)), NoDurations, NoDurations, Green)

  /** The durations the picker edits: the selected stage's, with red as the fallback. */
  function SelectedDurations(s: Screen): (d: Durations)
    ensures s.stage == Green ==> d == s.green
    ensures s.stage == Yellow ==> d == s.yellow
    ensures s.stage == Red ==> d == s.red
  {
    if s.stage == Green then s.green
    else if s.stage == Yellow then s.yellow
    else s.red
  }

  /** The picker's `onChange`: the setter of the selected stage. */
  function SetDurations(s: Screen, d: Durations): (r: Screen)
    ensures r.stage == s.stage
    ensures SelectedDurations(r) == d
    ensures s.stage != Green ==> r.green == s.green
    ensures s.stage != Yellow ==> r.yellow == s.yellow
    ensures s.stage != Red ==> r.red == s.red
  {
    if s.stage == Green then s.(green := d)
    else if s.stage == Yellow then s.(yellow := d)
    else s.(red := d)
  }

  /** The stage selector's `onChange`. */
  function SelectStage(s: Screen, c: Colour): (r: Screen)
    ensures r.stage == c
    ensures r.green == s.green && r.yellow == s.yellow && r.red == s.red
  {
    s.(stage := c)
  }

  /** The seconds handed to the timer controls. */
  function BaselineSeconds(s: Screen): Option<int> {
    DurationsToSeconds(s.green)
  }

  /** Writing back what the picker shows changes nothing. */
  lemma SetSelectedIsIdentity(s: Screen)
    ensures SetDurations(s, SelectedDurations(s)) == s
  {
  }

  /** A second edit replaces the first. */
  lemma LastEditWins(s: Screen, d1: Durations, d2: Durations)
    ensures SetDurations(SetDurations(s, d1), d2) == SetDurations(s, d2)
  {
  }

  /** Only editing green moves the timer's baseline. */
  lemma BaselineFollowsGreenOnly(s: Screen, d: Durations)
    ensures s.stage != Green ==> BaselineSeconds(SetDurations(s, d)) == BaselineSeconds(s)
    ensures s.stage == Green ==> BaselineSeconds(SetDurations(s, d)) == DurationsToSeconds(d)
  {
  }

  /** The first screen counts from five minutes. */
  lemma InitialBaseline()
    ensures BaselineSeconds(InitialScreen) == Some(300)
    ensures SelectedDurations(InitialScreen) == InitialScreen.green
  {
  }

  /** Pressing a stage button selects that stage's durations for editing and moves the indicator to it. */
  lemma PressSelectsStage(s: Screen, button: Colour)
    ensures var r := SelectStage(s, ButtonAction(button));
      && IndicatorIndex(Name(r.stage)) == Rank(button)
      && SelectedDurations(r) == (match button case Green => s.green case Yellow => s.yellow case Red => s.red)
      && BaselineSeconds(r) == BaselineSeconds(s)
  {
    PressMovesIndicator(button);
  }

  /**
   * For the fields the picker produces, the seconds agree with its HHMMSS
   * text read as hours, minutes and seconds; an all-zero text means no time.
   */
  lemma SecondsOfPickerText(d: Durations)
    requires Normalized(d)
    ensures DurationsToSeconds(d).None? <==> Packed(d) == 0
    ensures DurationsToSeconds(d).Some? ==>
      DurationsToSeconds(d).value == Packed(d) / 10000 * 3600 + Packed(d) / 100 % 100 * 60 + Packed(d) % 100
  {
    var h, m, sec := d.hours.GetOr(0), d.minutes.GetOr(0), d.seconds.GetOr(0);
    assert Shown(h) == h && Shown(m) == m && Shown(sec) == sec;
    Unpack(h, m, sec);
  }

  /** The three base-100 digits of an HHMMSS value. */
  lemma Unpack(h: int, m: int, sec: int)
    requires 0 <= h <= 99 && 0 <= m <= 99 && 0 <= sec <= 99
    ensures var p := 10000 * h + 100 * m + sec;
      p / 10000 == h && p / 100 % 100 == m && p % 100 == sec
  {
    var p := 10000 * h + 100 * m + sec;
    DivModUnique(p, 10000, h, 100 * m + sec);
    DivModUnique(p, 100, 100 * h + m, sec);
    DivModUnique(100 * h + m, 100, h, m);
  }
}
