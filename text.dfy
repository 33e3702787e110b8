/** The few string operations the monitor's messages are built from. */
module Text {

  /** The character for a decimal digit. */
  function DigitChar(d: nat): (c: char)
    requires d < 10
    ensures '0' <= c <= '9'
  {
    (48 + d) as char
  }

  /** The value of a decimal digit character. */
  function DigitValue(c: char): (d: nat)
    requires '0' <= c <= '9'
    ensures d < 10 && DigitChar(d) == c
  {
    c as nat - 48
  }

  predicate IsDigits(s: string) {
    |s| > 0 && forall i :: 0 <= i < |s| ==> '0' <= s[i] <= '9'
  }

  /** Python's `str(n)` for a non-negative integer. */
  function NatToString(n: nat): (s: string)
    ensures IsDigits(s)
    ensures n < 10 <==> |s| == 1
    ensures s[0] == '0' <==> n == 0
    ensures |s| > 1 ==> s[0] != '0'
    decreases n
  {
    if n < 10 then [DigitChar(n)] else NatToString(n / 10) + [DigitChar(n % 10)]
  }

  /** Python's `str(i)` for any integer: a minus sign before the digits of a negative one. */
  function IntToString(i: int): (s: string)
    ensures IsCanonicalIntText(s)
    ensures s[0] == '-' <==> i < 0
  {
    if i < 0 then "-" + NatToString(-i) else NatToString(i)
  }

  /** The value of a string of decimal digits. */
  function ParseNat(s: string): nat
    requires IsDigits(s)
    decreases |s|
  {
    if |s| == 1 then DigitValue(s[0])
    else ParseNat(s[..|s| - 1]) * 10 + DigitValue(s[|s| - 1])
  }

  /** Decimal digits, with a leading minus sign or without. */
  predicate IsIntText(s: string) {
    |s| > 0 && (s[0] == '-' ==> IsDigits(s[1..])) && (s[0] != '-' ==> IsDigits(s))
  }

  /** The only form `str` gives an integer: no leading zero, and no minus sign before
      a zero. */
  predicate IsCanonicalIntText(s: string) {
    && IsIntText(s)
    && (s[0] == '-' ==> s[1] != '0')
    && (s[0] != '-' && |s| > 1 ==> s[0] != '0')
  }

  /** Python's `int(s)` on the strings `IntToString` produces. */
  function ParseInt(s: string): int
    requires IsIntText(s)
  {
    if s[0] == '-' then 0 - ParseNat(s[1..]) else ParseNat(s)
  }

  lemma {:induction false} ParseNatToString(n: nat)
    ensures ParseNat(NatToString(n)) == n
    decreases n
  {
    if n >= 10 {
      var s := NatToString(n);
      assert s[..|s| - 1] == NatToString(n / 10);
      ParseNatToString(n / 10);
    }
  }

  /** Rendering an integer loses nothing: it can be read back. */
  lemma {:induction false} ParseIntToString(i: int)
    ensures IsIntText(IntToString(i)) && ParseInt(IntToString(i)) == i
  {
    var s := IntToString(i);
    if i < 0 {
      assert s == "-" + NatToString(-i);
      assert s[1..] == NatToString(-i);
      ParseNatToString(-i);
    } else {
      assert s == NatToString(i);
      assert '0' <= s[0] <= '9';
      ParseNatToString(i);
    }
  }

  /** Digits that do not start with a zero stand for a positive number. */
  lemma {:induction false} ParseNatPositive(t: string)
    requires IsDigits(t) && t[0] != '0'
    ensures ParseNat(t) > 0
    decreases |t|
  {
    if |t| > 1 {
      var u := t[..|t| - 1];
      assert u[0] == t[0];
      ParseNatPositive(u);
    }
  }

  /** Digits without a leading zero are the rendering of their own value. */
  lemma {:induction false} NatToStringParseNat(t: string)
    requires IsDigits(t) && (|t| > 1 ==> t[0] != '0')
    ensures NatToString(ParseNat(t)) == t
    decreases |t|
  {
    if |t| == 1 {
      assert t == [t[0]];
    } else {
      var u := t[..|t| - 1];
      var c := t[|t| - 1];
      assert u[0] == t[0];
      ParseNatPositive(u);
      NatToStringParseNat(u);
      var n := ParseNat(t);
      assert n == ParseNat(u) * 10 + DigitValue(c);
      assert n / 10 == ParseNat(u) && n % 10 == DigitValue(c);
      assert t == u + [c];
    }
  }

  /** Canonical integer text is unique: the only canonical text with value `i` is
      `str(i)`. */
  lemma IntToStringParseInt(s: string)
    requires IsCanonicalIntText(s)
    ensures IntToString(ParseInt(s)) == s
  {
    if s[0] == '-' {
      var t := s[1..];
      ParseNatPositive(t);
      NatToStringParseNat(t);
      assert s == "-" + t;
    } else {
      NatToStringParseNat(s);
    }
  }

  /** Python's slice `s[:n]`: the first `n` characters, or all of `s` when it is shorter. */
  function Take(s: string, n: nat): (r: string)
    ensures r <= s
    ensures |r| == if |s| <= n then |s| else n
  {
    if |s| <= n then s else s[..n]
  }

  /** `sub` stands in `s` from position `i` on. */
  predicate OccursAt(s: string, sub: string, i: nat) {
    i + |sub| <= |s| && s[i..i + |sub|] == sub
  }

  /** Python's `sub in s`. */
  predicate Contains(s: string, sub: string) {
    exists i: nat | i <= |s| :: OccursAt(s, sub, i)
  }

  /** A string contains any piece it is built around. */
  lemma ContainsMiddle(a: string, b: string, c: string)
    ensures Contains(a + b + c, b)
  {
    var s := a + b + c;
    assert OccursAt(s, b, |a|);
  }
}
