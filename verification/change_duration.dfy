/**
 * The string encoding of keypad input used by the duration picker: the
 * hours, minutes and seconds are written as a fixed six-character "HHMMSS"
 * text, edited by shifting, and read back with zero fields left undefined.
 */
module DurationPicker {
  import opened Wrappers
  import opened Decimal
  import opened NumberButton
  import opened TwoDigit

  /** `Partial<Durations>`: every field may be undefined. */
  datatype Durations = Durations(hours: Option<int>, minutes: Option<int>, seconds: Option<int>)

  /** The HHMMSS text as a six-digit number: what the picker's text shows. */
  function Packed(d: Durations): nat {
    10000 * Shown(d.hours.GetOr(0)) + 100 * Shown(d.minutes.GetOr(0)) + Shown(d.seconds.GetOr(0))
  }

  /** The shape `changeDuration` always produces: each field undefined or in 1..99. */
  predicate Normalized(d: Durations) {
    && (d.hours.Some? ==> 1 <= d.hours.value <= 99)
    && (d.minutes.Some? ==> 1 <= d.minutes.value <= 99)
    && (d.seconds.Some? ==> 1 <= d.seconds.value <= 99)
  }

  /** True when the picker refuses further digits: a defined, non-zero hours of 10 or more. */
  predicate HoursFull(d: Durations) {
    d.hours.Some? && d.hours.value != 0 && d.hours.value >= 10
  }

  /** The six-character text built from the current fields, missing ones as 0. */
  function DurationString(d: Durations): (s: string)
    ensures |s| == 6 && AllDigits(s)
    ensures DigitsValue(s) == Packed(d)
  {
    var h := FormatTwoDigitNumber(d.hours.GetOr(0));
    var m := FormatTwoDigitNumber(d.minutes.GetOr(0));
    var sec := FormatTwoDigitNumber(d.seconds.GetOr(0));
    JoinGroups(h, m, sec);
    h + m + sec
  }

  /** Three two-digit groups side by side read as one six-digit number. */
  lemma JoinGroups(a: string, b: string, c: string)
    requires |a| == 2 && |b| == 2 && |c| == 2 && AllDigits(a) && AllDigits(b) && AllDigits(c)
    ensures |a + b + c| == 6 && AllDigits(a + b + c)
    ensures DigitsValue(a + b + c) == 10000 * DigitsValue(a) + 100 * DigitsValue(b) + DigitsValue(c)
  {
    assert Pow10(2) == 100;
    DigitsValueAppend(a, b);
    DigitsValueAppend(a + b, c);
    var va, vb, vc := DigitsValue(a), DigitsValue(b), DigitsValue(c);
    assert DigitsValue(a + b) == va * 100 + vb;
    assert DigitsValue(a + b + c) == (va * 100 + vb) * 100 + vc;
  }

  /** `parseInt` of a two-digit group, with 0 turned into undefined. */
  function NonZero(n: nat): (r: Option<int>)
    requires n <= 99
    ensures r.None? <==> n == 0
    ensures Shown(r.GetOr(0)) == n
  {
    if n == 0 then None else Some(n)
  }

  /** Reads the three two-digit groups back into fields. */
  function FromDurationString(s: string): (d: Durations)
    requires |s| == 6 && AllDigits(s)
    ensures Normalized(d)
    ensures Packed(d) == DigitsValue(s)
  {
    var hh := DigitsValue(s[..2]);
    var mm := DigitsValue(s[2..4]);
    var ss := DigitsValue(s[4..6]);
    SplitGroups(s);
    Durations(NonZero(hh), NonZero(mm), NonZero(ss))
  }

  lemma SplitGroups(s: string)
    requires |s| == 6 && AllDigits(s)
    ensures DigitsValue(s[..2]) <= 99 && DigitsValue(s[2..4]) <= 99 && DigitsValue(s[4..6]) <= 99
    ensures DigitsValue(s) == 10000 * DigitsValue(s[..2]) + 100 * DigitsValue(s[2..4]) + DigitsValue(s[4..6])
  {
    TwoDigitValue(s[..2]);
    TwoDigitValue(s[2..4]);
    TwoDigitValue(s[4..6]);
    DropTwo(s);
    DropTwo(s[..4]);
    assert s[..4][..2] == s[..2] && s[..4][2..] == s[2..4] && s[4..] == s[4..6];
  }

  /** `text.slice(-6)` for a text of at least six characters. */
  function Last6(s: string): (r: string)
    requires |s| >= 6
    ensures |r| == 6
  {
    s[|s| - 6..]
  }

  /** Digit entry is refused while the hours are 10 or more. */
  predicate Refuses(d: Durations, action: NumberButtonValue) {
    (action.Number? || action.DoubleZero?) && HoursFull(d)
  }

  /**
   * `changeDuration`. Digits enter at the seconds end and push the others
   * towards the hours; backspace pushes them back and brings in a 0; clear
   * empties every field. While the hours are 10 or more, digit entry is
   * refused and the input is returned as it was. What each action does to
   * the HHMMSS value is stated by the lemmas that follow.
   */
  function ChangeDuration(d: Durations, action: NumberButtonValue): (r: Durations)
    ensures Refuses(d, action) ==> r == d
    ensures !Refuses(d, action) ==> Normalized(r)
  {
    match action
    case Number(v) => if HoursFull(d) then d else TypeDigit(d, v)
    case DoubleZero =>
      if HoursFull(d) then d
      else if d.hours.None? || d.hours.value == 0 then TypeTwoZeros(d)
      else TypeDigit(d, 0)
    case Backspace => DeleteDigit(d)
    case Clear => ReadZeros("000000")
  }

  /** A digit shifts the HHMMSS value one place up, dropping its top digit, and fills the units. */
  lemma NumberShiftsIn(d: Durations, v: Digit)
    requires !HoursFull(d)
    ensures Packed(ChangeDuration(d, Number(v))) == Packed(d) % 100000 * 10 + v
  {
  }

  /** Double zero shifts in two zeros while the hours are undefined or 0, one zero otherwise. */
  lemma DoubleZeroShiftsIn(d: Durations)
    requires !HoursFull(d)
    ensures Packed(ChangeDuration(d, DoubleZero)) ==
      if d.hours.None? || d.hours.value == 0 then Packed(d) % 10000 * 100 else Packed(d) % 100000 * 10
  {
  }

  /** Backspace shifts the HHMMSS value one place down. */
  lemma BackspaceShiftsOut(d: Durations)
    ensures Packed(ChangeDuration(d, Backspace)) == Packed(d) / 10
  {
  }

  /** Clear leaves every field undefined. */
  lemma ClearEmpties(d: Durations)
    ensures ChangeDuration(d, Clear) == Durations(None, None, None)
  {
  }

  /** An all-zero text read back: every field undefined. */
  function ReadZeros(z: string): (r: Durations)
    requires |z| == 6 && forall i :: 0 <= i < |z| ==> z[i] == '0'
    ensures r == Durations(None, None, None)
  {
    ZerosValue(z);
    var r := FromDurationString(z);
    PackedDetermines(r, Durations(None, None, None));
    r
  }

  /** The text with one more digit at the seconds end, read back. */
  function TypeDigit(d: Durations, v: Digit): (r: Durations)
    ensures Normalized(r) && Packed(r) == Packed(d) % 100000 * 10 + v
  {
    var s := DurationString(d);
    assert NatToString(v) == [DigitChar(v)];
    ShiftInOne(s, DigitChar(v));
    FromDurationString(Last6(s + NatToString(v)))
  }

  /** The text with "00" at the seconds end, read back. */
  function TypeTwoZeros(d: Durations): (r: Durations)
    ensures Normalized(r) && Packed(r) == Packed(d) % 10000 * 100
  {
    var s := DurationString(d);
    ShiftInTwoZeros(s);
    FromDurationString(Last6(s + "00"))
  }

  /** The text with its last digit dropped and a 0 brought in at the hours end, read back. */
  function DeleteDigit(d: Durations): (r: Durations)
    ensures Normalized(r) && Packed(r) == Packed(d) / 10
  {
    var s := DurationString(d);
    ShiftOutValue(s);
    FromDurationString(Last6("0" + s[..5]))
  }

  /** A six-digit text read digit by digit. */
  lemma SixDigits(s: string)
    requires |s| == 6 && AllDigits(s)
    ensures DigitsValue(s) == 100000 * CharValue(s[0]) + 10000 * CharValue(s[1]) + 1000 * CharValue(s[2])
                            + 100 * CharValue(s[3]) + 10 * CharValue(s[4]) + CharValue(s[5])
  {
    SplitGroups(s);
    TwoDigitValue(s[..2]);
    TwoDigitValue(s[2..4]);
    TwoDigitValue(s[4..6]);
  }

  /** Appending one digit to a six-digit text and keeping the last six. */
  lemma ShiftInOne(s: string, c: char)
    requires |s| == 6 && AllDigits(s) && IsDigitChar(c)
    ensures AllDigits(Last6(s + [c]))
    ensures DigitsValue(Last6(s + [c])) == DigitsValue(s) % 100000 * 10 + CharValue(c)
  {
    var u := Last6(s + [c]);
    assert u[0] == s[1] && u[1] == s[2] && u[2] == s[3] && u[3] == s[4] && u[4] == s[5] && u[5] == c;
    SixDigits(s);
    SixDigits(u);
    var rest := 10000 * CharValue(s[1]) + 1000 * CharValue(s[2]) + 100 * CharValue(s[3]) + 10 * CharValue(s[4]) + CharValue(s[5]);
    DivModUnique(DigitsValue(s), 100000, CharValue(s[0]), rest);
  }

  /** Appending "00" to a six-digit text and keeping the last six. */
  lemma ShiftInTwoZeros(s: string)
    requires |s| == 6 && AllDigits(s)
    ensures AllDigits(Last6(s + "00"))
    ensures DigitsValue(Last6(s + "00")) == DigitsValue(s) % 10000 * 100
  {
    var u := Last6(s + "00");
    assert u[0] == s[2] && u[1] == s[3] && u[2] == s[4] && u[3] == s[5] && u[4] == '0' && u[5] == '0';
    SixDigits(s);
    SixDigits(u);
    var rest := 1000 * CharValue(s[2]) + 100 * CharValue(s[3]) + 10 * CharValue(s[4]) + CharValue(s[5]);
    DivModUnique(DigitsValue(s), 10000, 10 * CharValue(s[0]) + CharValue(s[1]), rest);
  }

  /** Dropping the last digit of a six-digit text and putting a 0 in front. */
  lemma ShiftOutValue(s: string)
    requires |s| == 6 && AllDigits(s)
    ensures AllDigits(Last6("0" + s[..5]))
    ensures DigitsValue(Last6("0" + s[..5])) == DigitsValue(s) / 10
  {
    var u := Last6("0" + s[..5]);
    assert u[0] == '0' && u[1] == s[0] && u[2] == s[1] && u[3] == s[2] && u[4] == s[3] && u[5] == s[4];
    SixDigits(s);
    SixDigits(u);
    var high := 10000 * CharValue(s[0]) + 1000 * CharValue(s[1]) + 100 * CharValue(s[2]) + 10 * CharValue(s[3]) + CharValue(s[4]);
    DivModUnique(DigitsValue(s), 10, high, CharValue(s[5]));
  }

  /** Replaces defined zero fields by undefined, the way `changeDuration` reports them. */
  function Normalize(d: Durations): (r: Durations)
    requires InRange(d)
    ensures Normalized(r) && Packed(r) == Packed(d)
  {
    Durations(NonZero(d.hours.GetOr(0)), NonZero(d.minutes.GetOr(0)), NonZero(d.seconds.GetOr(0)))
  }

  predicate InRange(d: Durations) {
    && (d.hours.Some? ==> 0 <= d.hours.value <= 99)
    && (d.minutes.Some? ==> 0 <= d.minutes.value <= 99)
    && (d.seconds.Some? ==> 0 <= d.seconds.value <= 99)
  }

  /** A normalized value is determined by its HHMMSS text. */
  lemma PackedDetermines(a: Durations, b: Durations)
    requires Normalized(a) && Normalized(b) && Packed(a) == Packed(b)
    ensures a == b
  {
    GroupsDetermine(Shown(a.hours.GetOr(0)), Shown(a.minutes.GetOr(0)), Shown(a.seconds.GetOr(0)),
                    Shown(b.hours.GetOr(0)), Shown(b.minutes.GetOr(0)), Shown(b.seconds.GetOr(0)));
    assert a.hours == b.hours by {
      FieldDetermined(a.hours, b.hours);
    }
    assert a.minutes == b.minutes by {
      FieldDetermined(a.minutes, b.minutes);
    }
    assert a.seconds == b.seconds by {
      FieldDetermined(a.seconds, b.seconds);
    }
  }

  /** An undefined-or-1..99 field is determined by the two digits it shows. */
  lemma FieldDetermined(x: Option<int>, y: Option<int>)
    requires x.Some? ==> 1 <= x.value <= 99
    requires y.Some? ==> 1 <= y.value <= 99
    requires Shown(x.GetOr(0)) == Shown(y.GetOr(0))
    ensures x == y
  {
  }

  /** Two-digit groups in base 100 are determined by the number they make. */
  lemma GroupsDetermine(h1: int, m1: int, s1: int, h2: int, m2: int, s2: int)
    requires 0 <= m1 <= 99 && 0 <= s1 <= 99 && 0 <= m2 <= 99 && 0 <= s2 <= 99
    requires 10000 * h1 + 100 * m1 + s1 == 10000 * h2 + 100 * m2 + s2
    ensures h1 == h2 && m1 == m2 && s1 == s2
  {
    var n := 10000 * h1 + 100 * m1 + s1;
    DivModUnique(n, 100, 100 * h1 + m1, s1);
    DivModUnique(n, 100, 100 * h2 + m2, s2);
    DivModUnique(100 * h1 + m1, 100, h1, m1);
    DivModUnique(100 * h2 + m2, 100, h2, m2);
  }

  /** Backspace undoes a digit, up to writing zero fields as undefined. */
  lemma BackspaceUndoesNumber(d: Durations, v: Digit)
    requires InRange(d)
    requires d.hours.None? || d.hours.value < 10
    ensures ChangeDuration(ChangeDuration(d, Number(v)), Backspace) == Normalize(d)
  {
    var once := ChangeDuration(d, Number(v));
    NumberAppends(d, v);
    var r := ChangeDuration(once, Backspace);
    DivModUnique(Packed(d) * 10 + v, 10, Packed(d), v);
    PackedDetermines(r, Normalize(d));
  }

  /** Below ten hours a digit is appended to the whole HHMMSS value. */
  lemma NumberAppends(d: Durations, v: Digit)
    requires InRange(d)
    requires d.hours.None? || d.hours.value < 10
    ensures Packed(ChangeDuration(d, Number(v))) == Packed(d) * 10 + v
  {
    var p := Packed(d);
    assert p < 100000;
    DivModUnique(p, 100000, 0, p);
  }

  /** Clearing and then typing a digit leaves only that many seconds. */
  lemma DigitAfterClear(d: Durations, v: Digit)
    ensures ChangeDuration(ChangeDuration(d, Clear), Number(v))
         == Durations(None, None, if v == 0 then None else Some(v))
  {
    DigitIntoEmpty(ChangeDuration(d, Clear), v);
  }

  lemma DigitIntoEmpty(e: Durations, v: Digit)
    requires Packed(e) == 0 && !HoursFull(e)
    ensures ChangeDuration(e, Number(v)) == Durations(None, None, if v == 0 then None else Some(v))
  {
    var r := ChangeDuration(e, Number(v));
    assert Packed(r) == v;
    PackedDetermines(r, Durations(None, None, if v == 0 then None else Some(v)));
  }
}
