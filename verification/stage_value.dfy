/**
 * The array encoding of keypad input: a StageValue holds the entered digits
 * newest first, so index 0 is the units-of-seconds digit of an HHMMSS value.
 */
module StageValueCodec {
  import opened Wrappers
  import opened Decimal
  import opened NumberButton

  type StageValue = seq<Digit>

  /** The "unset" value. */
  const NullValue: StageValue := []

  /** At most the first six elements of `s`. */
  function Take6(s: StageValue): (r: StageValue)
    ensures |r| == if |s| > 6 then 6 else |s|
    ensures r == s[..|r|]
  {
    if |s| > 6 then s[..6] else s
  }

  /** The value after one keypad action. */
  function GetActionValue(prev: StageValue, action: NumberButtonValue): (r: StageValue)
    ensures action.Clear? ==> r == []
    ensures action.Backspace? && |prev| == 0 ==> r == []
    ensures action.Backspace? && |prev| > 0 ==> |r| == |prev| - 1 && prev == r + [prev[|prev| - 1]]
    ensures action.Number? ==>
      && |r| == (if |prev| < 6 then |prev| + 1 else 6)
      && r[0] == action.value && r[1..] == prev[..|r| - 1]
    ensures action.Number? && |prev| < 6 ==> r[1..] == prev
    ensures action.DoubleZero? ==>
      && |r| == (if |prev| < 4 then |prev| + 2 else 6)
      && r[0] == 0 && r[1] == 0 && r[2..] == prev[..|r| - 2]
    ensures (action.Number? || action.DoubleZero?) ==> |r| <= 6
    ensures |prev| <= 6 ==> |r| <= 6
  {
    match action
    case Clear => NullValue
    case Backspace => if |prev| == 0 then NullValue else prev[..|prev| - 1]
    case Number(d) => Take6([d] + prev)
    case DoubleZero => Take6([0, 0] + prev)
  }

  /** The digit at index `i`, with absent positions counted as 0. */
  function At(v: StageValue, i: nat): Digit {
    if i < |v| then v[i] else 0
  }

  /** `parseInt(`${a}${b}`, 10)` for two digits. */
  function TwoDigitText(a: Digit, b: Digit): (r: nat)
    ensures r == 10 * a + b
  {
    var s := [DigitChar(a), DigitChar(b)];
    TwoDigitValue(s);
    DigitsValue(s)
  }

  /**
   * Seconds encoded by a stage value, or None for a missing, empty or
   * over-long value. Positions are read through the length switch of the
   * source, each pair of digits joined as text and parsed.
   */
  function StageValueToDuration(value: Option<StageValue>): (r: Option<nat>)
    ensures r.None? <==> value.None? || |value.value| == 0 || |value.value| > 6
    ensures r.Some? ==> var v := value.value;
      r.value == 3600 * (10 * At(v, 5) + At(v, 4)) + 60 * (10 * At(v, 3) + At(v, 2)) + 10 * At(v, 1) + At(v, 0)
    ensures r.Some? ==> r.value <= 362439
  {
    if value.None? || |value.value| == 0 then None
    else
      var v := value.value;
      if |v| > 6 then None
      else
        var hour1 := if |v| == 6 then v[5] else 0;
        var hour2 := if |v| >= 5 then v[4] else 0;
        var minute1 := if |v| >= 4 then v[3] else 0;
        var minute2 := if |v| >= 3 then v[2] else 0;
        var second1 := if |v| >= 2 then v[1] else 0;
        var second2 := v[0];
        var hours := TwoDigitText(hour1, hour2);
        var minutes := TwoDigitText(minute1, minute2);
        var seconds := TwoDigitText(second1, second2);
        assert hour1 == At(v, 5) && hour2 == At(v, 4) && minute1 == At(v, 3) && minute2 == At(v, 2) && second1 == At(v, 1);
        Some(hours * 3600 + minutes * 60 + seconds)
  }

  /** The digits pressed one after another, starting from the unset value. */
  function Typed(ds: seq<Digit>): (r: StageValue)
    ensures |r| == if |ds| > 6 then 6 else |ds|
    ensures |ds| > 0 ==> r[0] == ds[|ds| - 1]
    decreases |ds|
  {
    if |ds| == 0 then NullValue else GetActionValue(Typed(ds[..|ds| - 1]), Number(ds[|ds| - 1]))
  }

  function Reverse(s: seq<Digit>): (r: seq<Digit>)
    ensures |r| == |s|
    ensures forall i :: 0 <= i < |s| ==> r[i] == s[|s| - 1 - i]
  {
    if |s| == 0 then [] else [s[|s| - 1]] + Reverse(s[..|s| - 1])
  }

  /** The last (newest) up to six entries of `ds`. */
  function Newest6(ds: seq<Digit>): (r: seq<Digit>)
    ensures |r| == if |ds| > 6 then 6 else |ds|
  {
    if |ds| > 6 then ds[|ds| - 6..] else ds
  }

  /**
   * Typing digits keeps the six newest, newest first: once six are held,
   * each further digit drops the oldest.
   */
  lemma {:induction false} TypedKeepsNewestSix(ds: seq<Digit>)
    ensures Typed(ds) == Reverse(Newest6(ds))
    decreases |ds|
  {
    if |ds| > 0 {
      var init := ds[..|ds| - 1];
      var d := ds[|ds| - 1];
      TypedKeepsNewestSix(init);
      var prev := Reverse(Newest6(init));
      var full := Reverse(Newest6(ds));
      assert Typed(ds) == Take6([d] + prev);
      assert |Take6([d] + prev)| == |full|;
      forall i | 0 <= i < |full|
        ensures Take6([d] + prev)[i] == full[i]
      {
        if i > 0 {
          assert Take6([d] + prev)[i] == prev[i - 1];
        }
      }
    }
  }

  /** Example of the decoder's comment: 5, 0, 0 typed in order is five minutes. */
  lemma FiveZeroZeroIsFiveMinutes()
    ensures Typed([5, 0, 0]) == [0, 0, 5]
    ensures StageValueToDuration(Some(Typed([5, 0, 0]))) == Some(300)
  {
    assert Typed([5]) == [5];
    assert [5, 0, 0][..2] == [5, 0];
    assert Typed([5, 0]) == [0, 5];
    assert [5, 0, 0][..2] == [5, 0];
  }

  /** The worked examples in the decoder's documentation. */
  lemma DocumentedExamples()
    ensures StageValueToDuration(Some([0])) == Some(0)
    ensures StageValueToDuration(Some([1])) == Some(1)
    ensures StageValueToDuration(Some([2, 1])) == Some(12)
    ensures StageValueToDuration(Some([4, 3, 2, 1])) == Some(754)
    ensures StageValueToDuration(Some([6, 5, 4, 3, 2, 1])) == Some(45296)
  {
  }

  /** A zero added at the most significant end changes nothing. */
  lemma HighZeroIsNeutral(v: StageValue)
    requires 1 <= |v| < 6
    ensures StageValueToDuration(Some(v + [0])) == StageValueToDuration(Some(v))
  {
    var w := v + [0];
    forall i: nat ensures At(w, i) == At(v, i) {
      if i < |v| {
        assert w[i] == v[i];
      }
    }
  }

  /** `double-zero` is the same as two `number(0)` presses. */
  lemma DoubleZeroIsTwoZeros(prev: StageValue)
    ensures GetActionValue(prev, DoubleZero)
         == GetActionValue(GetActionValue(prev, Number(0)), Number(0))
  {
    var once := GetActionValue(prev, Number(0));
    var a := GetActionValue(prev, DoubleZero);
    var b := GetActionValue(once, Number(0));
    assert |a| == |b|;
    forall i | 0 <= i < |a| ensures a[i] == b[i] {
      if i >= 2 {
        assert b[i] == once[i - 1];
      }
    }
  }
}
