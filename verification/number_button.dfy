/**
 * The number-pad button: which action a press or a long press emits, and the
 * text a button shows.
 */
module NumberButton {
  import opened Wrappers
  import opened Decimal

  /** What the pad emits; a `number` action only ever carries a digit key's value. */
  datatype NumberButtonValue =
    | Number(value: Digit)
    | Backspace
    | Clear
    | DoubleZero

  /** A physical key of the pad. */
  datatype NumberButtonKey =
    | DigitKey(digit: Digit)
    | BackspaceKey
    | DoubleZeroKey

  /**
   * The action emitted by a press, or None when the button has no press
   * handler (no `onAction` was given).
   */
  function OnPress(key: NumberButtonKey, hasOnAction: bool): (r: Option<NumberButtonValue>)
    ensures r.None? <==> !hasOnAction
    ensures r.Some? ==> !r.value.Clear?
    ensures r.Some? ==> (r.value.Number? <==> key.DigitKey?)
    ensures r.Some? && key.DigitKey? ==> r.value.value == key.digit
    ensures r.Some? ==> (r.value.Backspace? <==> key.BackspaceKey?)
  {
    if !hasOnAction then None
    else match key
      case BackspaceKey => Some(Backspace)
      case DoubleZeroKey => Some(DoubleZero)
      case DigitKey(d) => Some(Number(d))
  }

  /** The action emitted by a long press: only backspace has one, and it clears. */
  function OnLongPress(key: NumberButtonKey, hasOnAction: bool): (r: Option<NumberButtonValue>)
    ensures r.Some? <==> key.BackspaceKey? && hasOnAction
    ensures r.Some? ==> r.value == Clear
  {
    if !key.BackspaceKey? then None
    else if !hasOnAction then None
    else Some(Clear)
  }

  /** The text on the button. */
  function Label(key: NumberButtonKey): (r: string)
    ensures key.DigitKey? ==> |r| == 1 && IsDigitChar(r[0]) && CharValue(r[0]) == key.digit
    ensures key.DoubleZeroKey? ==> r == "00"
    ensures key.BackspaceKey? ==> r == "<-"
  {
    match key
    case DoubleZeroKey => "00"
    case BackspaceKey => "<-"
    case DigitKey(d) => NatToString(d)
  }

  /** Different keys emit different actions on press, so the press mapping loses nothing. */
  lemma PressIsInjective(a: NumberButtonKey, b: NumberButtonKey)
    requires OnPress(a, true) == OnPress(b, true)
    ensures a == b
  {
  }

  /** Different keys carry different labels. */
  lemma {:induction false} LabelIsInjective(a: NumberButtonKey, b: NumberButtonKey)
    requires Label(a) == Label(b)
    ensures a == b
  {
    if a.DigitKey? && b.DigitKey? {
      assert CharValue(Label(a)[0]) == CharValue(Label(b)[0]);
    }
  }
}
