/**
 * One digit column of the animated number display: which digit (or none)
 * to show at a given position counted from the right.
 */
module AnimatedNumber {
  import opened Wrappers
  import opened Decimal

  /**
   * The scan for a leading zero: true when no character at position `i` or
   * above (counted from the right), that is none of the first `|cs| - i`
   * characters, reads as a number other than 0. A character that is not a
   * digit reads as NaN, which is not 0.
   */
  function IsLeadingZeroFrom(cs: string, i: nat): (r: bool)
    ensures r <==> forall k :: 0 <= k < |cs| - i ==> cs[k] == '0'
    decreases |cs| - i
  {
    if i >= |cs| then true
    else
      var c := cs[|cs| - 1 - i];
      if !(IsDigitChar(c) && CharValue(c) == 0) then false
      else IsLeadingZeroFrom(cs, i + 1)
  }

  /**
   * `zeroToNineIndex` for an integer value (the `rounded` option is left
   * out): the digit `reversedDigitIndex` places from the right of the
   * value's decimal text, 0 or nothing past the text's end depending on
   * `leadingZeroes`, and nothing for a zero that is a leading zero.
   */
  function ZeroToNineIndex(value: Option<int>, reversedDigitIndex: nat, leadingZeroes: bool): (r: Option<int>)
    ensures value.None? ==> r.None?
    ensures r.Some? ==> 0 <= r.value <= 9
    ensures value.Some? && reversedDigitIndex >= |IntToString(value.value)| ==>
      r == if leadingZeroes then Some(0) else None
    ensures value.Some? && reversedDigitIndex == 0 && value.value >= 0 ==> r == Some(value.value % 10)
  {
    if value.None? then None
    else
      var countdownString := IntToString(value.value);
      if reversedDigitIndex >= |countdownString| then
        if leadingZeroes then Some(0) else None
      else
        var digitString := countdownString[|countdownString| - 1 - reversedDigitIndex];
        if !IsDigitChar(digitString) then
          if leadingZeroes then Some(0) else None
        else
          var digit := CharValue(digitString);
          if digit != 0 then Some(digit)
          else if reversedDigitIndex == 0 then Some(0)
          else if leadingZeroes then Some(0)
          else if IsLeadingZeroFrom(countdownString, reversedDigitIndex + 1) then None
          else Some(digit)
  }

  /** For a non-negative value, a position inside its digits shows the decimal digit there. */
  lemma {:induction false} DigitSelection(v: nat, i: nat, leadingZeroes: bool)
    requires i < |NatToString(v)|
    ensures ZeroToNineIndex(Some(v), i, leadingZeroes) == Some(v / Pow10(i) % 10)
  {
    var s := NatToString(v);
    DigitAt(v, i);
    if i > 0 && s[|s| - 1 - i] == '0' {
      assert v >= 10;
      assert s[0] != '0';
      assert !IsLeadingZeroFrom(s, i + 1) by {
        assert 0 < |s| - (i + 1);
      }
    }
  }

  /** A value below 10^k has no digit at position k or above. */
  lemma {:induction false} NoDigitBeyondLength(v: nat, i: nat)
    requires i >= |NatToString(v)|
    ensures v / Pow10(i) % 10 == 0
  {
    var s := NatToString(v);
    NatToStringRoundTrip(v);
    DigitsValueBound(s);
    PowMonotone(|s|, i);
    assert v < Pow10(i);
    DivModUnique(v, Pow10(i), 0, v);
  }

  lemma {:induction false} PowMonotone(a: nat, b: nat)
    requires a <= b
    ensures Pow10(a) <= Pow10(b)
    decreases b
  {
    if a < b {
      PowMonotone(a, b - 1);
    }
  }

  /** With leading zeros on, every position of a non-negative value shows its decimal digit. */
  lemma PaddedDigitSelection(v: nat, i: nat)
    ensures ZeroToNineIndex(Some(v), i, true) == Some(v / Pow10(i) % 10)
  {
    if i < |NatToString(v)| {
      DigitSelection(v, i, true);
    } else {
      NoDigitBeyondLength(v, i);
    }
  }
}
