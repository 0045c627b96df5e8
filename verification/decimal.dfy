/**
 * Decimal text of integers as JavaScript writes and reads it: `toString`
 * on an integer, `parseInt(_, 10)` on a string of digits, `padStart(2, "0")`,
 * and the truncating `%` operator.
 */
module Decimal {

  type Digit = d: int | 0 <= d <= 9

  predicate IsDigitChar(c: char) {
    '0' <= c <= '9'
  }

  predicate AllDigits(s: string) {
    forall i :: 0 <= i < |s| ==> IsDigitChar(s[i])
  }

  function DigitChar(d: Digit): (c: char)
    ensures IsDigitChar(c)
    ensures CharValue(c) == d
  {
    (48 + d) as char
  }

  function CharValue(c: char): Digit
    requires IsDigitChar(c)
  {
    c as int - 48
  }

  function Pow10(k: nat): (p: nat)
    ensures p >= 1
  {
    if k == 0 then 1 else 10 * Pow10(k - 1)
  }

  /** `n.toString()` for a non-negative integer. */
  function NatToString(n: nat): (s: string)
    ensures |s| >= 1 && AllDigits(s)
    ensures s[|s| - 1] == DigitChar(n % 10)
    ensures s[0] == '0' <==> n == 0
    ensures |s| == 1 <==> n < 10
    ensures |s| == 2 <==> 10 <= n < 100
    decreases n
  {
    if n < 10 then [DigitChar(n)] else NatToString(n / 10) + [DigitChar(n % 10)]
  }

  /** `i.toString()` for any integer: a minus sign, then the magnitude. */
  function IntToString(i: int): (s: string)
    ensures |s| >= 1
    ensures (s[0] == '-') <==> i < 0
    ensures i >= 0 ==> s == NatToString(i)
  {
    if i < 0 then "-" + NatToString(-i) else NatToString(i)
  }

  /** `parseInt(s, 10)` for a non-empty string of decimal digits (0 for the empty string). */
  function DigitsValue(s: string): nat
    requires AllDigits(s)
  {
    if |s| == 0 then 0 else DigitsValue(s[..|s| - 1]) * 10 + CharValue(s[|s| - 1])
  }

  /** `k` digits read as less than 10^k. */
  lemma {:induction false} DigitsValueBound(s: string)
    requires AllDigits(s)
    ensures DigitsValue(s) < Pow10(|s|)
    decreases |s|
  {
    if |s| > 0 {
      DigitsValueBound(s[..|s| - 1]);
    }
  }

  /** `s.padStart(2, "0")`. */
  function PadStart2(s: string): (r: string)
    ensures |r| == if |s| >= 2 then |s| else 2
    ensures r[|r| - |s|..] == s
    ensures forall i :: 0 <= i < |r| - |s| ==> r[i] == '0'
  {
    if |s| >= 2 then s else if |s| == 1 then "0" + s else "00"
  }

  /** JavaScript's `a % b` for a positive divisor: the remainder takes the sign of `a`. */
  function JsRem(a: int, b: int): (r: int)
    requires b > 0
    ensures a >= 0 ==> 0 <= r < b
    ensures a < 0 ==> -b < r <= 0
  {
    if a >= 0 then a % b else -((-a) % b)
  }

  /** Quotient and remainder are unique: the facts Euclidean division is usually cited for. */
  lemma DivModUnique(n: int, d: int, q: int, r: int)
    requires d > 0 && 0 <= r < d && n == q * d + r
    ensures n / d == q && n % d == r
  {
    var q', r' := n / d, n % d;
    assert q' * d + r' == q * d + r;
    if q' > q {
      MulDistrib(q' - q, q, d);
      MulAtLeast(q' - q, d);
    } else if q' < q {
      MulDistrib(q - q', q', d);
      MulAtLeast(q - q', d);
    }
  }

  lemma MulDistrib(k: int, q: int, d: int)
    ensures (k + q) * d == k * d + q * d
  {
  }

  lemma MulAtLeast(k: int, d: int)
    requires k >= 1 && d > 0
    ensures k * d >= d
  {
  }

  /** Division by 10 and then by 10^k is division by 10^(k+1). */
  lemma DivDiv10(n: nat, k: nat)
    ensures (n / 10) / Pow10(k) == n / Pow10(k + 1)
    ensures (n / 10) / Pow10(k) % 10 == n / Pow10(k + 1) % 10
  {
    var p := Pow10(k);
    var q := (n / 10) / p;
    var r := (n / 10) % p;
    assert n / 10 == q * p + r;
    assert n == q * (10 * p) + (10 * r + n % 10);
    DivModUnique(n, 10 * p, q, 10 * r + n % 10);
  }

  lemma {:induction false} NatToStringRoundTrip(n: nat)
    ensures DigitsValue(NatToString(n)) == n
    decreases n
  {
    var s := NatToString(n);
    if n >= 10 {
      NatToStringRoundTrip(n / 10);
      assert s[..|s| - 1] == NatToString(n / 10);
    }
  }

  /** Concatenating digit strings is a shift in base ten. */
  lemma {:induction false} DigitsValueAppend(a: string, b: string)
    requires AllDigits(a) && AllDigits(b)
    ensures AllDigits(a + b)
    ensures DigitsValue(a + b) == DigitsValue(a) * Pow10(|b|) + DigitsValue(b)
    decreases |b|
  {
    if |b| == 0 {
      assert a + b == a;
    } else {
      var b' := b[..|b| - 1];
      DigitsValueAppend(a, b');
      assert (a + b)[..|a + b| - 1] == a + b';
      assert (a + b)[|a + b| - 1] == b[|b| - 1];
      assert Pow10(|b|) == Pow10(|b'|) * 10;
      Regroup(DigitsValue(a), Pow10(|b'|), DigitsValue(b'), CharValue(b[|b| - 1]));
    }
  }

  /** The last two digits of a digit string are its value modulo 100, the rest its hundreds. */
  lemma DropTwo(s: string)
    requires AllDigits(s) && |s| >= 2
    ensures DigitsValue(s) == DigitsValue(s[..|s| - 2]) * 100 + DigitsValue(s[|s| - 2..])
  {
    var q, t := s[..|s| - 2], s[|s| - 2..];
    assert s == q + t;
    DigitsValueAppend(q, t);
    assert Pow10(|t|) == 100;
  }

  /** Two digits read as tens and units. */
  lemma TwoDigitValue(t: string)
    requires |t| == 2 && AllDigits(t)
    ensures DigitsValue(t) == 10 * CharValue(t[0]) + CharValue(t[1])
    ensures DigitsValue(t) <= 99
  {
    var u := t[..1];
    assert u[..0] == [] && u[0] == t[0];
    assert DigitsValue(u) == CharValue(t[0]);
    assert DigitsValue(t) == DigitsValue(u) * 10 + CharValue(t[1]);
  }

  lemma Regroup(x: int, p: int, y: int, d: int)
    ensures (x * p + y) * 10 + d == x * (p * 10) + (y * 10 + d)
  {
  }

  /** Leading zeros do not change what `parseInt` reads. */
  lemma LeadingZerosIgnored(z: string, s: string)
    requires AllDigits(s)
    requires forall i :: 0 <= i < |z| ==> z[i] == '0'
    ensures AllDigits(z + s)
    ensures DigitsValue(z + s) == DigitsValue(s)
  {
    ZerosValue(z);
    DigitsValueAppend(z, s);
  }

  lemma {:induction false} ZerosValue(z: string)
    requires forall i :: 0 <= i < |z| ==> z[i] == '0'
    ensures AllDigits(z) && DigitsValue(z) == 0
    decreases |z|
  {
    if |z| > 0 {
      ZerosValue(z[..|z| - 1]);
    }
  }

  /** A number written with `toString` and padded to two places still reads back as itself. */
  lemma PaddedRoundTrip(n: nat)
    ensures AllDigits(PadStart2(NatToString(n)))
    ensures DigitsValue(PadStart2(NatToString(n))) == n
  {
    var s := NatToString(n);
    var r := PadStart2(s);
    NatToStringRoundTrip(n);
    if |s| < 2 {
      LeadingZerosIgnored(r[..|r| - |s|], s);
      assert r == r[..|r| - |s|] + s;
    }
  }

  /** A unit padded to two places, as `String(x).padStart(2, "0")` writes it; it reads back as `x`. */
  function Padded(x: nat): (s: string)
    ensures |s| >= 2 && AllDigits(s) && DigitsValue(s) == x
  {
    PaddedRoundTrip(x);
    PadStart2(NatToString(x))
  }

  /** Below 100 the padded text has exactly two characters. */
  lemma PaddedBelowHundred(x: nat)
    requires x < 100
    ensures |Padded(x)| == 2
  {
  }

  /** The digit `i` places from the right of `n.toString()` is `(n / 10^i) % 10`. */
  lemma {:induction false} DigitAt(n: nat, i: nat)
    requires i < |NatToString(n)|
    ensures NatToString(n)[|NatToString(n)| - 1 - i] == DigitChar(n / Pow10(i) % 10)
    decreases n
  {
    if i > 0 {
      assert n >= 10;
      var s' := NatToString(n / 10);
      DigitAt(n / 10, i - 1);
      DivDiv10(n, i - 1);
      assert NatToString(n)[|NatToString(n)| - 1 - i] == s'[|s'| - 1 - (i - 1)];
    }
  }

  /** The last two characters of `n.toString()`, for n >= 10, read as `n % 100`. */
  lemma LastTwoDigits(n: nat)
    requires n >= 10
    ensures |NatToString(n)| >= 2
    ensures AllDigits(NatToString(n)[|NatToString(n)| - 2..])
    ensures DigitsValue(NatToString(n)[|NatToString(n)| - 2..]) == n % 100
  {
    var s := NatToString(n);
    var t := s[|s| - 2..];
    DigitAt(n, 0);
    DigitAt(n, 1);
    TwoDigitValue(t);
    var q := n / 10;
    assert n == 10 * q + n % 10;
    assert q == 10 * (q / 10) + q % 10;
    DivModUnique(n, 100, q / 10, 10 * (q % 10) + n % 10);
  }
}
