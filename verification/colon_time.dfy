/**
 * Reading "H:MM:SS"-style text back into seconds: the reference the
 * formatting functions are checked against. Colon-separated groups of
 * decimal digits are read in base 60, after an optional minus sign.
 */
module ColonTime {
  import opened Wrappers
  import opened Decimal

  /** The text split at every ':'. */
  function SplitColon(s: string): (parts: seq<string>)
    ensures |parts| >= 1
    decreases |s|
  {
    if |s| == 0 then [""]
    else
      var rest := SplitColon(s[1..]);
      if s[0] == ':' then [""] + rest else [[s[0]] + rest[0]] + rest[1..]
  }

  /** Every group is a non-empty run of digits. */
  predicate ValidGroups(gs: seq<string>) {
    forall i :: 0 <= i < |gs| ==> |gs[i]| >= 1 && AllDigits(gs[i])
  }

  /** Groups read in base 60, the last group being the units. */
  function Base60(gs: seq<string>): nat
    requires ValidGroups(gs)
    decreases |gs|
  {
    if |gs| == 0 then 0 else Base60(gs[..|gs| - 1]) * 60 + DigitsValue(gs[|gs| - 1])
  }

  function ParseUnsigned(s: string): Option<nat> {
    var gs := SplitColon(s);
    if ValidGroups(gs) then Some(Base60(gs)) else None
  }

  /** The number of seconds a text stands for, or None if it is not of this shape. */
  function Parse(s: string): Option<int> {
    if |s| > 0 && s[0] == '-' then
      match ParseUnsigned(s[1..])
      case Some(v) => var n: int := v; Some(-n)
      case None => None
    else ParseUnsigned(s)
  }

  lemma {:induction false} SplitNoColon(a: string)
    requires AllDigits(a) && |a| >= 1
    ensures SplitColon(a) == [a]
    decreases |a|
  {
    assert a[0] != ':';
    if |a| > 1 {
      SplitNoColon(a[1..]);
      assert a == [a[0]] + a[1..];
    } else {
      assert a[1..] == "";
      assert SplitColon(a[1..]) == [""];
      assert [a[0]] + "" == a;
      assert SplitColon(a) == [[a[0]] + ""] + [""][1..];
    }
  }

  lemma {:induction false} SplitAtColon(a: string, b: string)
    requires AllDigits(a)
    ensures SplitColon(a + ":" + b) == [a] + SplitColon(b)
    decreases |a|
  {
    if |a| > 0 {
      assert (a + ":" + b)[0] == a[0] != ':';
      assert (a + ":" + b)[1..] == a[1..] + ":" + b;
      SplitAtColon(a[1..], b);
      assert a == [a[0]] + a[1..];
    } else {
      assert a + ":" + b == ":" + b;
      assert (":" + b)[1..] == b;
    }
  }

  lemma Base60One(a: string)
    requires |a| >= 1 && AllDigits(a)
    ensures ValidGroups([a]) && Base60([a]) == DigitsValue(a)
  {
    assert [a][..0] == [];
  }

  lemma Base60Two(a: string, b: string)
    requires |a| >= 1 && |b| >= 1 && AllDigits(a) && AllDigits(b)
    ensures ValidGroups([a, b]) && Base60([a, b]) == DigitsValue(a) * 60 + DigitsValue(b)
  {
    Base60One(a);
    assert [a, b][..1] == [a];
  }

  lemma Base60Three(a: string, b: string, c: string)
    requires |a| >= 1 && |b| >= 1 && |c| >= 1 && AllDigits(a) && AllDigits(b) && AllDigits(c)
    ensures ValidGroups([a, b, c]) && Base60([a, b, c]) == DigitsValue(a) * 3600 + DigitsValue(b) * 60 + DigitsValue(c)
  {
    Base60Two(a, b);
    assert [a, b, c][..2] == [a, b];
  }

  /** Text whose groups are all digit runs, not starting with '-', reads as those groups in base 60. */
  lemma ParseGroups(s: string, gs: seq<string>, v: nat)
    requires SplitColon(s) == gs && ValidGroups(gs) && Base60(gs) == v
    requires |s| >= 1 && IsDigitChar(s[0])
    ensures Parse(s) == Some(v)
  {
  }

  /** "a:b:c" splits into its three groups. */
  lemma SplitThree(a: string, b: string, c: string)
    requires |a| >= 1 && |b| >= 1 && |c| >= 1 && AllDigits(a) && AllDigits(b) && AllDigits(c)
    ensures SplitColon(a + ":" + b + ":" + c) == [a, b, c]
  {
    var bc := b + ":" + c;
    assert a + ":" + b + ":" + c == a + ":" + bc;
    SplitNoColon(c);
    SplitAtColon(b, c);
    SplitAtColon(a, bc);
  }

  /** Three groups read as hours, minutes and seconds (see Base60Three for the value). */
  lemma ParseThree(a: string, b: string, c: string)
    requires |a| >= 1 && |b| >= 1 && |c| >= 1 && AllDigits(a) && AllDigits(b) && AllDigits(c)
    ensures ValidGroups([a, b, c])
    ensures Parse(a + ":" + b + ":" + c) == Some(Base60([a, b, c]))
  {
    var t := a + ":" + b + ":" + c;
    SplitThree(a, b, c);
    Base60Three(a, b, c);
    assert IsDigitChar(t[0]) by {
      assert t[0] == a[0];
    }
    ParseGroups(t, [a, b, c], Base60([a, b, c]));
  }

  /** Two groups read as minutes and seconds (see Base60Two for the value). */
  lemma ParseTwo(a: string, b: string)
    requires |a| >= 1 && |b| >= 1 && AllDigits(a) && AllDigits(b)
    ensures ValidGroups([a, b])
    ensures SplitColon(a + ":" + b) == [a, b]
    ensures Parse(a + ":" + b) == Some(Base60([a, b]))
  {
    var t := a + ":" + b;
    SplitNoColon(b);
    SplitAtColon(a, b);
    Base60Two(a, b);
    assert IsDigitChar(t[0]) by {
      assert t[0] == a[0];
    }
    ParseGroups(t, [a, b], Base60([a, b]));
  }

  /** One group reads as seconds. */
  lemma ParseOne(a: string)
    requires |a| >= 1 && AllDigits(a)
    ensures SplitColon(a) == [a]
    ensures Parse(a) == Some(DigitsValue(a))
  {
    SplitNoColon(a);
    Base60One(a);
    ParseGroups(a, [a], DigitsValue(a));
  }

  /** A leading minus sign negates. */
  lemma ParseNegative(s: string)
    requires |s| >= 1 && IsDigitChar(s[0])
    ensures Parse("-" + s) == match Parse(s) case Some(v) => Some(-v) case None => None
  {
    assert ("-" + s)[1..] == s;
  }

  /**
   * Hours, minutes and seconds as the formatters compute them
   * (`floor(n / 3600)`, `floor((n % 3600) / 60)`, `n % 60`) put `n` back together.
   */
  lemma SplitHms(n: nat)
    ensures (n % 3600) / 60 < 60
    ensures n / 3600 * 3600 + (n % 3600) / 60 * 60 + n % 60 == n
  {
    var h, r := n / 3600, n % 3600;
    var m, s := r / 60, r % 60;
    assert n == h * 3600 + r;
    assert r == m * 60 + s;
    assert n == (h * 60 + m) * 60 + s;
    DivModUnique(n, 60, h * 60 + m, s);
  }
}
