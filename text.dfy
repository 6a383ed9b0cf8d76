/**
 * The pieces of Python string handling the block-state catalog relies on:
 * formatting an integer as in an f-string, `str.split(" ")`, and `int()`
 * applied to a plain decimal numeral.
 */
module Text {
  import opened Wrappers

  predicate IsDigit(c: char) {
    '0' as int <= c as int <= '9' as int
  }

  predicate IsNumeral(s: string) {
    |s| > 0 && forall i | 0 <= i < |s| :: IsDigit(s[i])
  }

  function DigitChar(d: nat): (c: char)
    requires d < 10
    ensures IsDigit(c) && c as int - '0' as int == d
  {
    ('0' as int + d) as char
  }

  /** Decimal digits of `n`, most significant first, without leading zeros (as `f"{n}"`). */
  function NatToString(n: nat): (s: string)
    ensures IsNumeral(s)
    ensures (s[0] == '0') == (n == 0)
    decreases n
  {
    if n < 10 then [DigitChar(n)] else NatToString(n / 10) + [DigitChar(n % 10)]
  }

  /** `f"{i}"` for any integer: a minus sign precedes the digits of a negative number. */
  function IntToString(i: int): (s: string)
    ensures ' ' !in s
  {
    if i < 0 then "-" + NatToString(-i) else NatToString(i)
  }

  /** The value of a string of decimal digits (empty string: 0). */
  function DigitsValue(s: string): (v: nat)
    requires forall i | 0 <= i < |s| :: IsDigit(s[i])
    ensures |s| > 0 && (|s| == 1 || s[0] != '0') ==> NatToString(v) == s
  {
    if s == [] then 0
    else
      assert IsDigit(s[|s| - 1]);
      var prefix := s[..|s| - 1];
      var d := s[|s| - 1] as int - '0' as int;
      var v := 10 * DigitsValue(prefix) + d;
      assert |s| > 1 && s[0] != '0' ==> prefix[0] == s[0] && v >= 10;
      assert s == prefix + [DigitChar(d)];
      v
  }

  /** `int(s)` restricted to plain decimal numerals; anything else is the ValueError case. */
  function ParseNat(s: string): (r: Option<nat>)
    ensures r.Some? <==> IsNumeral(s)
  {
    if IsNumeral(s) then Some(DigitsValue(s)) else None
  }

  lemma {:induction false} ParseNatToString(n: nat)
    ensures ParseNat(NatToString(n)) == Some(n)
    decreases n
  {
    var s := NatToString(n);
    if n >= 10 {
      ParseNatToString(n / 10);
      assert s[..|s| - 1] == NatToString(n / 10);
      assert s[|s| - 1] == DigitChar(n % 10);
      assert DigitsValue(s) == 10 * (n / 10) + n % 10;
    }
  }

  lemma NatToStringInjective(m: nat, n: nat)
    requires NatToString(m) == NatToString(n)
    ensures m == n
  {
    ParseNatToString(m);
    ParseNatToString(n);
  }

  lemma IntToStringInjective(i: int, j: int)
    requires IntToString(i) == IntToString(j)
    ensures i == j
  {
    if i < 0 && j < 0 {
      assert NatToString(-i) == IntToString(i)[1..];
      NatToStringInjective(-i, -j);
    } else if i >= 0 && j >= 0 {
      NatToStringInjective(i, j);
    }
  }

  /** Python's `s.split(" ")`: the pieces between consecutive spaces, always at least one. */
  function Split(s: string): (parts: seq<string>)
    ensures |parts| >= 1
    ensures ' ' !in s ==> parts == [s]
  {
    if s == [] then [""]
    else
      var rest := Split(s[1..]);
      assert s == [s[0]] + s[1..];
      if s[0] == ' ' then [""] + rest else [[s[0]] + rest[0]] + rest[1..]
  }

  lemma {:induction false} SplitAtFirstSpace(a: string, b: string)
    requires ' ' !in a
    ensures Split(a + " " + b) == [a] + Split(b)
  {
    if a != [] {
      assert (a + " " + b)[1..] == a[1..] + " " + b;
      SplitAtFirstSpace(a[1..], b);
      assert [a[0]] + a[1..] == a;
    } else {
      assert a + " " + b == " " + b;
      assert (" " + b)[1..] == b;
    }
  }

  lemma SpaceFreeTailIsShorter(a: string, d: string, b: string, e: string)
    requires ' ' !in e
    requires a + " " + d == b + " " + e
    ensures |e| <= |d|
  {
    var s := a + " " + d;
    assert s[|a|] == ' ';
  }

  /** A string of the form `head + " " + tail` with a space-free tail determines both parts. */
  lemma {:induction false} LastSpaceUnique(a: string, d: string, b: string, e: string)
    requires ' ' !in d && ' ' !in e
    requires a + " " + d == b + " " + e
    ensures a == b && d == e
  {
    var s := a + " " + d;
    SpaceFreeTailIsShorter(a, d, b, e);
    SpaceFreeTailIsShorter(b, e, a, d);
    assert a == s[..|a|] == b;
    assert d == s[|a| + 1..] == e;
  }
}
