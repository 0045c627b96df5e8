/**
 * The stage selector of the newer timer screen: three buttons (green,
 * yellow, red) in that order, an indicator under the active one, and the
 * short text of a duration in seconds.
 */
module StageSelector {
  import opened Wrappers
  import opened Decimal
  import opened ColonTime
  import opened Colours

  /**
   * `durationToString`: "0", "H:MM:SS" from an hour up, otherwise "M:SS".
   * Division rounds down (`Math.floor`) and `%` truncates, as in JavaScript,
   * so negative inputs give the same text the code would.
   */
  function DurationToString(duration: int): (r: string)
    ensures |r| >= 1
    ensures duration == 0 ==> r == "0"
  {
    if duration == 0 then "0"
    else
      var hours := duration / 3600;
      var minutes := JsRem(duration, 3600) / 60;
      var seconds := JsRem(duration, 60);
      if hours > 0 then
        IntToString(hours) + ":" + PadStart2(IntToString(minutes)) + ":" + PadStart2(IntToString(seconds))
      else
        IntToString(minutes) + ":" + PadStart2(IntToString(seconds))
  }

  /** For a positive duration the text is built from non-negative parts, as the text of those parts. */
  lemma PositiveText(duration: nat)
    requires duration > 0
    ensures duration >= 3600 ==> (DurationToString(duration) ==
      NatToString(duration / 3600) + ":" + Padded((duration % 3600) / 60) + ":" + Padded(duration % 60))
    ensures duration < 3600 ==> (DurationToString(duration) ==
      NatToString(duration / 60) + ":" + Padded(duration % 60))
  {
    var minutes := JsRem(duration, 3600) / 60;
    var seconds := JsRem(duration, 60);
    assert minutes == (duration % 3600) / 60 && minutes >= 0;
    assert seconds == duration % 60;
    assert PadStart2(IntToString(minutes)) == Padded(minutes);
    assert PadStart2(IntToString(seconds)) == Padded(seconds);
    if duration < 3600 {
      assert duration / 3600 == 0;
      assert (duration % 3600) / 60 == duration / 60;
      assert IntToString(minutes) == NatToString(duration / 60);
    } else {
      assert IntToString(duration / 3600) == NatToString(duration / 3600);
    }
  }

  /** For a non-negative duration the minutes and seconds parts are within 0..59 and give the duration back. */
  lemma DurationParts(duration: nat)
    ensures 0 <= JsRem(duration, 3600) / 60 < 60
    ensures 0 <= JsRem(duration, 60) < 60
    ensures duration / 3600 * 3600 + JsRem(duration, 3600) / 60 * 60 + JsRem(duration, 60) == duration
  {
    SplitHms(duration);
  }

  /** The groups of the text: the hours unpadded, then padded minutes and seconds; or unpadded minutes and padded seconds. */
  lemma DurationToStringGroups(duration: nat)
    requires duration > 0
    ensures duration >= 3600 ==> (SplitColon(DurationToString(duration)) ==
      [NatToString(duration / 3600), Padded((duration % 3600) / 60), Padded(duration % 60)])
    ensures duration < 3600 ==> (SplitColon(DurationToString(duration)) ==
      [NatToString(duration / 60), Padded(duration % 60)])
  {
    if duration >= 3600 {
      var h, m, s := NatToString(duration / 3600), Padded((duration % 3600) / 60), Padded(duration % 60);
      PositiveText(duration);
      SplitThree(h, m, s);
    } else {
      var m, s := NatToString(duration / 60), Padded(duration % 60);
      PositiveText(duration);
      ParseTwo(m, s);
    }
  }

  /** Reading the text of a non-negative duration gives the duration back. */
  lemma DurationToStringRoundTrip(duration: nat)
    ensures Parse(DurationToString(duration)) == Some(duration)
  {
    if duration == 0 {
      ParseOne("0");
    } else if duration >= 3600 {
      RoundTripWithHours(duration);
    } else {
      RoundTripWithoutHours(duration);
    }
  }

  lemma RoundTripWithHours(duration: nat)
    requires duration >= 3600
    ensures Parse(DurationToString(duration)) == Some(duration)
  {
    var h, m, s := NatToString(duration / 3600), Padded((duration % 3600) / 60), Padded(duration % 60);
    PositiveText(duration);
    assert Base60([h, m, s]) == duration by {
      NatToStringRoundTrip(duration / 3600);
      Base60Three(h, m, s);
      SplitHms(duration);
    }
    ParseThree(h, m, s);
  }

  lemma RoundTripWithoutHours(duration: nat)
    requires 0 < duration < 3600
    ensures Parse(DurationToString(duration)) == Some(duration)
  {
    var m, s := NatToString(duration / 60), Padded(duration % 60);
    PositiveText(duration);
    assert Base60([m, s]) == duration by {
      NatToStringRoundTrip(duration / 60);
      Base60Two(m, s);
      SplitHms(duration);
    }
    ParseTwo(m, s);
  }

  /** The indicator's position for the `active` prop; an unrecognised value falls back to green's. */
  function IndicatorIndex(active: string): (r: nat)
    ensures r <= 2
    ensures r == 1 <==> active == "yellow"
    ensures r == 2 <==> active == "red"
  {
    if active == "green" then 0
    else if active == "yellow" then 1
    else if active == "red" then 2
    else 0
  }

  /** The stage each button's action reports to `onChange`. */
  function ButtonAction(button: Colour): (stage: Colour)
    ensures Name(stage) == Name(button)
  {
    match button
    case Green => Green
    case Yellow => Yellow
    case Red => Red
  }

  /** The indicator sits under the column of the active stage's button. */
  lemma IndicatorMatchesColumn(c: Colour)
    ensures IndicatorIndex(Name(c)) == Rank(c)
  {
  }

  /** Pressing a button, once the screen feeds the stage back as `active`, moves the indicator under that button. */
  lemma PressMovesIndicator(button: Colour)
    ensures ButtonAction(button) == button
    ensures IndicatorIndex(Name(ButtonAction(button))) == Rank(button)
  {
  }
}
