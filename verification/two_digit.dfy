/** Two-character display of a number of hours, minutes or seconds. */
module TwoDigit {
  import opened Decimal

  /** The number the two characters stand for: 0 for negatives, the last two digits above 99. */
  function Shown(num: int): (r: nat)
    ensures r <= 99
  {
    if num < 0 then 0 else if num > 99 then num % 100 else num
  }

  /**
   * `formatTwoDigitNumber`: always two digit characters. A negative input
   * gives "00", an input above 99 its last two digits, anything else its
   * decimal form padded with a leading "0". The error log is left out.
   */
  function FormatTwoDigitNumber(num: int): (r: string)
    ensures |r| == 2 && AllDigits(r)
    ensures DigitsValue(r) == Shown(num)
    ensures num < 0 ==> r == "00"
    ensures 0 <= num <= 99 ==> DigitsValue(r) == num
  {
    if num < 0 then
      "00"
    else if num > 99 then
      var s := NatToString(num);
      LastTwoDigits(num);
      s[|s| - 2..]
    else
      PaddedRoundTrip(num);
      PadStart2(NatToString(num))
  }

  /** Two digit strings of length two with the same value are the same string. */
  lemma {:induction false} TwoDigitsDetermined(a: string, b: string)
    requires |a| == 2 && |b| == 2 && AllDigits(a) && AllDigits(b)
    requires DigitsValue(a) == DigitsValue(b)
    ensures a == b
  {
    TwoDigitValue(a);
    TwoDigitValue(b);
    assert CharValue(a[0]) == CharValue(b[0]);
    assert CharValue(a[1]) == CharValue(b[1]);
  }

  /** Inputs with the same last two displayed digits format identically, whatever their size. */
  lemma SameShownSameText(x: int, y: int)
    requires Shown(x) == Shown(y)
    ensures FormatTwoDigitNumber(x) == FormatTwoDigitNumber(y)
  {
    TwoDigitsDetermined(FormatTwoDigitNumber(x), FormatTwoDigitNumber(y));
  }
}
