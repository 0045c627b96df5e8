/**
 * The countdown display's decomposition of a duration in seconds: clamp to
 * the displayable range, sign, then days, hours, minutes and seconds with
 * the flags that decide which units and colons are shown.
 */
module Countdown {
  import opened Wrappers
  import Decimal

  /** `type` of the display: a time of day or a duration. */
  datatype DisplayType = TimeType | DurationType

  datatype SecondsVariant = Default | Small

  /** 9 days, 23 hours, 59 minutes and 59 seconds. */
  const Cap: int := 9 * 60 * 60 * 24 + 23 * 60 * 60 + 59 * 60 + 59

  function Min(a: int, b: int): int { if a < b then a else b }
  function Max(a: int, b: int): int { if a < b then b else a }

  /** The duration after clamping to [-cap, cap]; null stays null. */
  function Clamp(raw: Option<int>): (r: Option<int>)
    ensures r.None? <==> raw.None?
    ensures r.Some? ==> -863999 <= r.value <= 863999
    ensures r.Some? && -Cap <= raw.value <= Cap ==> r.value == raw.value
    ensures r.Some? && raw.value > Cap ==> r.value == Cap
    ensures r.Some? && raw.value < -Cap ==> r.value == -Cap
  {
    if raw.None? then None else Some(Max(-Cap, Min(Cap, raw.value)))
  }

  /** The minus sign is shown exactly for a negative input: clamping keeps the sign. */
  function IsNegative(raw: Option<int>): (r: bool)
    ensures r <==> raw.Some? && raw.value < 0
  {
    var duration := Clamp(raw);
    if duration.None? then false else duration.value < 0
  }

  /** `durationAbs`: the magnitude of the clamped duration. */
  function DurationAbs(raw: Option<int>): (r: Option<nat>)
    ensures r.None? <==> raw.None?
    ensures r.Some? ==> r.value <= Cap
    ensures r.Some? && -Cap <= raw.value <= Cap ==> r.value == if raw.value < 0 then -raw.value else raw.value
  {
    var duration := Clamp(raw);
    if duration.None? then None
    else Some(if duration.value < 0 then -duration.value else duration.value)
  }

  /** Whole days: shown only for durations of at least a day. */
  function Days(t: DisplayType, raw: Option<int>): (r: Option<int>)
    ensures r.None? <==> t == TimeType || raw.None? || DurationAbs(raw).value < 86400
    ensures r.Some? ==> 1 <= r.value <= 9
    ensures r.Some? ==> r.value * 86400 <= DurationAbs(raw).value < (r.value + 1) * 86400
  {
    if t == TimeType then None
    else
      var abs := DurationAbs(raw);
      if abs.None? then None
      else
        var days := abs.value / 86400;
        if days == 0 then None else Some(days)
  }

  /** Whole hours, not reduced modulo 24; hidden in duration mode below an hour. */
  function Hours(t: DisplayType, raw: Option<int>): (r: Option<int>)
    ensures r.None? <==> raw.None? || (t == DurationType && DurationAbs(raw).value < 3600)
    ensures r.Some? ==> 0 <= r.value <= 239
    ensures r.Some? ==> r.value * 3600 <= DurationAbs(raw).value < (r.value + 1) * 3600
  {
    var abs := DurationAbs(raw);
    if abs.None? then None
    else
      var hours := abs.value / 3600;
      if hours == 0 && t != TimeType && Days(t, raw).None? then None else Some(hours)
  }

  /** Minutes within the hour; hidden in duration mode below a minute. */
  function Minutes(t: DisplayType, raw: Option<int>): (r: Option<int>)
    ensures r.None? <==> raw.None? || (t == DurationType && DurationAbs(raw).value < 60)
    ensures r.Some? ==> 0 <= r.value <= 59
  {
    var abs := DurationAbs(raw);
    if abs.None? then None
    else
      var minutes := (abs.value % 3600) / 60;
      if minutes == 0 && t != TimeType && Hours(t, raw).None? then None else Some(minutes)
  }

  /** Seconds within the minute; null only for a null duration. */
  function Seconds(raw: Option<int>): (r: Option<int>)
    ensures r.None? <==> raw.None?
    ensures r.Some? ==> 0 <= r.value <= 59 && (DurationAbs(raw).value - r.value) % 60 == 0
  {
    var abs := DurationAbs(raw);
    if abs.None? then None else Some(abs.value % 60)
  }

  /** Hours are zero-padded exactly when days are shown (always for a time of day). */
  function LeadingZeroesHours(t: DisplayType, raw: Option<int>): (r: bool)
    ensures r <==> t == TimeType || (raw.Some? && DurationAbs(raw).value >= 86400)
  {
    if t == TimeType then true else Days(t, raw).Some?
  }

  /** Minutes are zero-padded exactly when a larger unit is shown. */
  function LeadingZeroesMinutes(t: DisplayType, raw: Option<int>): (r: bool)
    ensures r <==> t == TimeType || (raw.Some? && DurationAbs(raw).value >= 3600)
  {
    if t == TimeType then true
    else if Hours(t, raw).Some? then true
    else Days(t, raw).Some?
  }

  /** Seconds are zero-padded exactly when a larger unit is shown. */
  function LeadingZeroesSeconds(t: DisplayType, raw: Option<int>): (r: bool)
    ensures r <==> t == TimeType || (raw.Some? && DurationAbs(raw).value >= 60)
  {
    if t == TimeType then true
    else if Minutes(t, raw).Some? then true
    else if Hours(t, raw).Some? then true
    else Days(t, raw).Some?
  }

  /** The requested "small" seconds apply only when some larger unit is shown. */
  function SecondsVariantOf(prop: SecondsVariant, t: DisplayType, raw: Option<int>): (r: SecondsVariant)
    ensures r == Small <==> prop == Small && raw.Some? && (t == TimeType || DurationAbs(raw).value >= 60)
  {
    if prop == Default then Default
    else if Minutes(t, raw).None? && Hours(t, raw).None? && Days(t, raw).None? then Default
    else
      assert prop == Small && raw.Some? && (t == TimeType || DurationAbs(raw).value >= 60);
      Small
  }

  /** The colon before the seconds: only with default-size seconds, and then when they are padded. */
  function ShowSecondsColon(prop: SecondsVariant, t: DisplayType, raw: Option<int>): (r: bool)
    ensures r ==> SecondsVariantOf(prop, t, raw) == Default
    ensures r <==> (prop == Default && LeadingZeroesSeconds(t, raw)) || (prop == Small && t == TimeType && raw.None?)
  {
    if SecondsVariantOf(prop, t, raw) == Default then LeadingZeroesSeconds(t, raw) else false
  }

  /** Clamping twice is clamping once. */
  lemma ClampIsIdempotent(raw: Option<int>)
    ensures Clamp(Clamp(raw)) == Clamp(raw)
  {
  }

  /** The shown units add back up to the clamped magnitude. */
  lemma UnitsReassemble(t: DisplayType, raw: Option<int>)
    requires raw.Some?
    ensures var abs := DurationAbs(raw).value;
      && Seconds(raw).Some?
      && (Hours(t, raw).Some? ==>
            && Minutes(t, raw).Some?
            && Hours(t, raw).value * 3600 + Minutes(t, raw).value * 60 + Seconds(raw).value == abs)
      && (Hours(t, raw).None? && Minutes(t, raw).Some? ==> Minutes(t, raw).value * 60 + Seconds(raw).value == abs)
      && (Hours(t, raw).None? && Minutes(t, raw).None? ==> Seconds(raw).value == abs)
  {
    var abs := DurationAbs(raw).value;
    assert abs == abs / 3600 * 3600 + abs % 3600;
    assert abs % 3600 == abs % 3600 / 60 * 60 + abs % 3600 % 60;
    Decimal.DivModUnique(abs, 60, abs / 3600 * 60 + abs % 3600 / 60, abs % 3600 % 60);
  }

  /** Days and hours agree: shown days come with at least 24 hours. */
  lemma DaysWithinHours(t: DisplayType, raw: Option<int>)
    requires Days(t, raw).Some?
    ensures Hours(t, raw).Some? && Hours(t, raw).value >= 24 * Days(t, raw).value
  {
  }
}
