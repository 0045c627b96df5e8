/**
 * The first, stand-alone border timer: a twenty-minute countdown from a
 * start instant kept in device storage, shown as "[-][HH:][MM:]SS" inside
 * a border that turns yellow and then red.
 *
 * Time is in milliseconds and passed in as `now`; the stored start time is
 * passed in already parsed (None when nothing is stored).
 */
module LegacyTimer {
  import opened Wrappers
  import opened Decimal
  import opened ColonTime
  import opened Colours

  /** Twenty minutes. */
  const InitialDuration: int := 20 * 60

  function Abs(t: int): nat {
    if t < 0 then -t else t
  }

  /** The text of a non-negative number of seconds: hours and minutes appear only when needed. */
  function FormatUnsigned(n: nat): (s: string)
    ensures |s| >= 2 && IsDigitChar(s[0])
    ensures s[|s| - 2..] == Padded(n % 60)
  {
    HmsTextEnds(n / 3600, (n % 3600) / 60, n % 60);
    PaddedBelowHundred(n % 60);
    HmsText(n / 3600, (n % 3600) / 60, n % 60)
  }

  /** The formatting once hours, minutes and seconds are known. */
  function HmsText(hours: nat, minutes: nat, seconds: nat): string {
    var formattedHours := if hours != 0 then Padded(hours) + ":" else "";
    var formattedMinutes := if hours != 0 || minutes != 0 then Padded(minutes) + ":" else "";
    formattedHours + formattedMinutes + Padded(seconds)
  }

  /** The three shapes the text takes. */
  lemma HmsTextCases(hours: nat, minutes: nat, seconds: nat)
    ensures HmsText(hours, minutes, seconds) ==
      if hours != 0 then Padded(hours) + ":" + Padded(minutes) + ":" + Padded(seconds)
      else if minutes != 0 then Padded(minutes) + ":" + Padded(seconds)
      else Padded(seconds)
  {
    if hours != 0 {
      Associative(Padded(hours) + ":", Padded(minutes), ":");
    } else if minutes != 0 {
      EmptyLeft(Padded(minutes) + ":");
    } else {
      EmptyLeft("");
      EmptyLeft(Padded(seconds));
    }
  }

  /** Concatenation regroups freely. */
  lemma Associative(a: string, b: string, c: string)
    ensures a + (b + c) == a + b + c
  {
  }

  /** The empty prefix adds nothing. */
  lemma EmptyLeft(a: string)
    ensures "" + a == a
  {
  }

  /** The text starts with a digit and ends with the padded seconds. */
  lemma HmsTextEnds(hours: nat, minutes: nat, seconds: nat)
    ensures var s := HmsText(hours, minutes, seconds);
      |s| >= |Padded(seconds)| && IsDigitChar(s[0]) && s[|s| - |Padded(seconds)|..] == Padded(seconds)
  {
    HmsTextCases(hours, minutes, seconds);
    var s := HmsText(hours, minutes, seconds);
    if hours != 0 {
      assert s[0] == Padded(hours)[0];
    } else if minutes != 0 {
      assert s[0] == Padded(minutes)[0];
    }
  }

  /** `formatTime`: a minus sign for negative values, then the text of the magnitude. */
  function FormatTime(totalSeconds: int): (r: string)
    ensures |r| >= 2
    ensures r[0] == '-' <==> totalSeconds < 0
    ensures r[if totalSeconds < 0 then 1 else 0..] == FormatUnsigned(Abs(totalSeconds))
    ensures r[|r| - 2..] == Padded(Abs(totalSeconds) % 60)
  {
    var formattedTime := FormatUnsigned(Abs(totalSeconds));
    if totalSeconds < 0 then "-" + formattedTime else formattedTime
  }

  /** The groups of the text: hours only when non-zero, minutes when either is. */
  lemma HmsGroups(hours: nat, minutes: nat, seconds: nat)
    ensures SplitColon(HmsText(hours, minutes, seconds)) ==
      if hours != 0 then [Padded(hours), Padded(minutes), Padded(seconds)]
      else if minutes != 0 then [Padded(minutes), Padded(seconds)]
      else [Padded(seconds)]
  {
    var h, m, s := Padded(hours), Padded(minutes), Padded(seconds);
    HmsTextCases(hours, minutes, seconds);
    if hours != 0 {
      SplitThree(h, m, s);
    } else if minutes != 0 {
      ParseTwo(m, s);
    } else {
      SplitNoColon(s);
    }
  }

  /** Which groups the text of `n` has: hours only when non-zero, minutes when either is. */
  lemma FormatUnsignedGroups(n: nat)
    ensures var hours, minutes := n / 3600, (n % 3600) / 60;
      SplitColon(FormatUnsigned(n)) ==
        if hours != 0 then [Padded(hours), Padded(minutes), Padded(n % 60)]
        else if minutes != 0 then [Padded(minutes), Padded(n % 60)]
        else [Padded(n % 60)]
  {
    HmsGroups(n / 3600, (n % 3600) / 60, n % 60);
  }

  /** The number of colon-separated groups, and that each is padded to two places. */
  lemma FormatTimeSegments(totalSeconds: int)
    ensures var n := Abs(totalSeconds);
      var groups := SplitColon(FormatUnsigned(n));
      && (|groups| == 3 <==> n / 3600 != 0)
      && (|groups| >= 2 <==> n / 3600 != 0 || (n % 3600) / 60 != 0)
      && (forall i :: 0 <= i < |groups| ==> |groups[i]| >= 2)
  {
    var n := Abs(totalSeconds);
    HmsSegments(n / 3600, (n % 3600) / 60, n % 60);
  }

  /** The group count and group widths for known hours, minutes and seconds. */
  lemma HmsSegments(hours: nat, minutes: nat, seconds: nat)
    ensures var groups := SplitColon(HmsText(hours, minutes, seconds));
      && (|groups| == 3 <==> hours != 0)
      && (|groups| >= 2 <==> hours != 0 || minutes != 0)
      && (forall i :: 0 <= i < |groups| ==> |groups[i]| >= 2)
  {
    HmsGroups(hours, minutes, seconds);
  }

  /** The text reads back, in base 60, as hours, minutes and seconds together. */
  lemma HmsRoundTrip(hours: nat, minutes: nat, seconds: nat)
    ensures Parse(HmsText(hours, minutes, seconds)).Some?
    ensures Parse(HmsText(hours, minutes, seconds)).value == hours * 3600 + minutes * 60 + seconds
  {
    HmsTextCases(hours, minutes, seconds);
    if hours != 0 {
      ThreeGroupsRead(Padded(hours), Padded(minutes), Padded(seconds));
    } else if minutes != 0 {
      TwoGroupsRead(Padded(minutes), Padded(seconds));
    } else {
      ParseOne(Padded(seconds));
    }
  }

  /** "h:m:s" reads as h hours, m minutes and s seconds. */
  lemma ThreeGroupsRead(h: string, m: string, s: string)
    requires |h| >= 1 && |m| >= 1 && |s| >= 1 && AllDigits(h) && AllDigits(m) && AllDigits(s)
    ensures Parse(h + ":" + m + ":" + s).Some?
    ensures Parse(h + ":" + m + ":" + s).value == DigitsValue(h) * 3600 + DigitsValue(m) * 60 + DigitsValue(s)
  {
    ParseThree(h, m, s);
    Base60Three(h, m, s);
  }

  /** "m:s" reads as m minutes and s seconds. */
  lemma TwoGroupsRead(m: string, s: string)
    requires |m| >= 1 && |s| >= 1 && AllDigits(m) && AllDigits(s)
    ensures Parse(m + ":" + s).Some?
    ensures Parse(m + ":" + s).value == DigitsValue(m) * 60 + DigitsValue(s)
  {
    ParseTwo(m, s);
    Base60Two(m, s);
  }

  /** Reading the text of a non-negative number of seconds gives the number back. */
  lemma FormatUnsignedRoundTrip(n: nat)
    ensures Parse(FormatUnsigned(n)) == Some(n)
  {
    var h, m, sec := n / 3600, (n % 3600) / 60, n % 60;
    assert h * 3600 + m * 60 + sec == n by {
      SplitHms(n);
    }
    HmsRoundTrip(h, m, sec);
    var p := Parse(FormatUnsigned(n));
    assert p.Some? && p.value == n;
  }

  /** `formatTime` loses nothing: its text reads back as the signed number of seconds. */
  lemma FormatTimeRoundTrip(totalSeconds: int)
    ensures Parse(FormatTime(totalSeconds)) == Some(totalSeconds)
  {
    var u := FormatUnsigned(Abs(totalSeconds));
    FormatUnsignedRoundTrip(Abs(totalSeconds));
    if totalSeconds < 0 {
      ParseNegative(u);
    }
  }

  /** Whole seconds since `startTime`, rounded down. */
  function Elapsed(startTime: int, now: int): (e: int)
    ensures e * 1000 <= now - startTime < (e + 1) * 1000
  {
    (now - startTime) / 1000
  }

  /** The remaining time shown, twenty minutes less the whole seconds elapsed. */
  function RemainingTime(startTime: int, now: int): (r: int)
    ensures (InitialDuration - r) * 1000 <= now - startTime < (InitialDuration - r + 1) * 1000
  {
    InitialDuration - Elapsed(startTime, now)
  }

  /** Red from 19:00 remaining down, yellow for the 30 seconds before that, green otherwise. */
  function BorderColour(remainingTime: int): (c: Colour)
    ensures c == Red <==> remainingTime <= 1140
    ensures c == Yellow <==> 1140 < remainingTime <= 1170
    ensures c == Green <==> remainingTime > 1170
  {
    if remainingTime <= 19 * 60 then Red
    else if remainingTime <= 19 * 60 + 30 then Yellow
    else Green
  }

  /** What starting up leaves behind: the time to show and, when nothing was stored, the start time to store. */
  datatype Startup = Startup(remainingTime: int, store: Option<int>)

  /** `initializeTimer`: resume from the stored start time, or start now and store it. */
  function Initialize(storedStartTime: Option<int>, now: int): (r: Startup)
    ensures r.store.Some? <==> storedStartTime.None?
    ensures r.store.Some? ==> r.store.value == now && r.remainingTime == InitialDuration
    ensures storedStartTime.Some? ==> r.remainingTime == RemainingTime(storedStartTime.value, now)
  {
    var startTime := if storedStartTime.Some? then storedStartTime.value else now;
    var remaining := InitialDuration - Elapsed(startTime, now);
    if storedStartTime.None? then Startup(remaining, Some(startTime)) else Startup(remaining, None)
  }

  /** Coming back to the foreground recomputes from the stored start time, if there is one. */
  function OnAppActive(previous: int, storedStartTime: Option<int>, now: int): (r: int)
    ensures storedStartTime.None? ==> r == previous
    ensures storedStartTime.Some? ==> r == RemainingTime(storedStartTime.value, now)
  {
    match storedStartTime
    case None => previous
    case Some(startTime) => InitialDuration - Elapsed(startTime, now)
  }

  /** The one-second interval. */
  function Tick(previous: int): (r: int)
    ensures r < previous && previous - r == 1
  {
    previous - 1
  }

  /** `k` interval ticks in a row. */
  function Ticks(previous: int, k: nat): (r: int)
    ensures r <= previous
  {
    if k == 0 then previous else Tick(Ticks(previous, k - 1))
  }

  /** Pressing the border: back to twenty minutes, with `now` stored as the start. */
  function Reset(now: int): (r: Startup)
    ensures r.remainingTime == InitialDuration && r.store == Some(now)
  {
    Startup(InitialDuration, Some(now))
  }

  /** The border colour as a function of the time since the start. */
  lemma BorderByElapsed(startTime: int, now: int)
    ensures BorderColour(RemainingTime(startTime, now)) == Red <==> now - startTime >= 60000
    ensures BorderColour(RemainingTime(startTime, now)) == Yellow <==> 30000 <= now - startTime < 60000
    ensures BorderColour(RemainingTime(startTime, now)) == Green <==> now - startTime < 30000
  {
  }

  /** As time passes the border only moves from green towards red. */
  lemma BorderOnlyEscalates(startTime: int, now: int, later: int)
    requires now <= later
    ensures Rank(BorderColour(RemainingTime(startTime, now))) <= Rank(BorderColour(RemainingTime(startTime, later)))
  {
    BorderByElapsed(startTime, now);
    BorderByElapsed(startTime, later);
  }

  /** Ticking once a second keeps step with the stored start time. */
  lemma {:induction false} TicksKeepStep(startTime: int, now: int, k: nat)
    ensures Ticks(RemainingTime(startTime, now), k) == RemainingTime(startTime, now + 1000 * k)
  {
    if k > 0 {
      TicksKeepStep(startTime, now, k - 1);
      var e := Elapsed(startTime, now + 1000 * (k - 1));
      DivModUnique(now + 1000 * k - startTime, 1000, e + 1, (now + 1000 * (k - 1) - startTime) % 1000);
    }
  }

  /** After a first launch, later launches and foreground returns agree with it. */
  lemma FirstLaunchIsRemembered(now: int, later: int, shown: int)
    ensures var first := Initialize(None, now);
      && Initialize(first.store, later).remainingTime == RemainingTime(now, later)
      && OnAppActive(shown, first.store, later) == RemainingTime(now, later)
      && Initialize(first.store, now).remainingTime == first.remainingTime
  {
  }
}
