/**
 * Decimal rendering of integers, as Python's f-string `{n}` does it, and
 * readers for a leading number, with or without a sign, that undo it.
 */
module Text {
  import opened Wrappers

  predicate IsDigit(c: char) {
    '0' <= c <= '9'
  }

  predicate AllDigits(s: string) {
    forall i :: 0 <= i < |s| ==> IsDigit(s[i])
  }

  function DigitChar(d: nat): (c: char)
    requires d < 10
    ensures IsDigit(c) && c as int - '0' as int == d
  {
    ('0' as int + d) as char
  }

  /** Decimal digits of `n`, most significant first, no leading zeros. */
  function NatToString(n: nat): (s: string)
    ensures |s| >= 1 && AllDigits(s)
    ensures |s| > 1 ==> s[0] != '0'
  {
    if n < 10 then [DigitChar(n)] else NatToString(n / 10) + [DigitChar(n % 10)]
  }

  /** `str(n)` for a Python int: a minus sign, then the digits of the magnitude. */
  function IntToString(n: int): (s: string)
    ensures |s| >= 1
    ensures s[0] == '-' <==> n < 0
  {
    if n < 0 then "-" + NatToString(-n) else NatToString(n)
  }

  /** The number a run of decimal digits denotes. */
  function DigitsValue(s: string): nat
    requires AllDigits(s)
  {
    if s == [] then 0
    else DigitsValue(s[..|s| - 1]) * 10 + (s[|s| - 1] as int - '0' as int)
  }

  /** Length of the run of digits that `s` starts with. */
  function DigitRun(s: string): (k: nat)
    ensures k <= |s| && AllDigits(s[..k])
    ensures k < |s| ==> !IsDigit(s[k])
  {
    if s == [] || !IsDigit(s[0]) then 0
    else
      var k := 1 + DigitRun(s[1..]);
      assert forall i :: 1 <= i < k ==> s[..k][i] == s[1..][..k - 1][i - 1];
      k
  }

  /**
   * Reads the non-empty run of digits `s` starts with: its value and what
   * follows. A run with a leading zero is refused, since no rendering has one.
   */
  function ReadNat(s: string): Option<(nat, string)> {
    var k := DigitRun(s);
    if k == 0 || (k > 1 && s[0] == '0') then None else Some((DigitsValue(s[..k]), s[k..]))
  }

  /** Reads a number with an optional minus sign: its value and what follows. */
  function ReadInt(s: string): Option<(int, string)> {
    if s != [] && s[0] == '-' then
      match ReadNat(s[1..])
      case None => None
      case Some((n, rest)) => if n == 0 then None else Some((0 - n as int, rest))
    else
      match ReadNat(s)
      case None => None
      case Some((n, rest)) => Some((n as int, rest))
  }

  /** Reading back the rendering of `n` yields `n`. */
  lemma {:induction false} DigitsValueOfNatToString(n: nat)
    ensures DigitsValue(NatToString(n)) == n
  {
    if n >= 10 {
      var s := NatToString(n);
      DigitsValueOfNatToString(n / 10);
      assert s[..|s| - 1] == NatToString(n / 10);
    }
  }

  lemma {:induction false} DigitRunOfDigits(d: string, t: string)
    requires AllDigits(d)
    requires t == [] || !IsDigit(t[0])
    ensures DigitRun(d + t) == |d|
  {
    if d != [] {
      assert (d + t)[1..] == d[1..] + t;
      DigitRunOfDigits(d[1..], t);
    }
  }

  /**
   * A rendered number followed by anything that does not start with a digit
   * reads back as that number and that remainder.
   */
  lemma ReadNatOfNatToString(n: nat, t: string)
    requires t == [] || !IsDigit(t[0])
    ensures ReadNat(NatToString(n) + t) == Some((n, t))
  {
    var d := NatToString(n);
    DigitRunOfDigits(d, t);
    assert (d + t)[..|d|] == d && (d + t)[|d|..] == t;
    assert (d + t)[0] == d[0];
    DigitsValueOfNatToString(n);
  }

  /**
   * A rendered integer, negative or not, followed by anything that does not
   * start with a digit reads back as that integer and that remainder.
   */
  lemma ReadIntOfIntToString(n: int, t: string)
    requires t == [] || !IsDigit(t[0])
    ensures ReadInt(IntToString(n) + t) == Some((n, t))
  {
    if n < 0 {
      ReadIntOfNegative(n, t);
    } else {
      ReadIntOfNonNegative(n, t);
    }
  }

  lemma ReadIntOfNegative(n: int, t: string)
    requires n < 0
    requires t == [] || !IsDigit(t[0])
    ensures ReadInt(IntToString(n) + t) == Some((n, t))
  {
    var m: nat := -n;
    ReadNatOfNatToString(m, t);
    ReadIntOfMinus(NatToString(m) + t, m, t);
    assert IntToString(n) + t == "-" + (NatToString(m) + t);
  }

  lemma ReadIntOfMinus(rest: string, m: nat, t: string)
    requires m != 0 && ReadNat(rest) == Some((m, t))
    ensures ReadInt("-" + rest) == Some((0 - m, t))
  {
    var s := "-" + rest;
    assert s[0] == '-' && s[1..] == rest;
  }

  lemma ReadIntOfNonNegative(n: int, t: string)
    requires 0 <= n
    requires t == [] || !IsDigit(t[0])
    ensures ReadInt(IntToString(n) + t) == Some((n, t))
  {
    var d := NatToString(n);
    assert (d + t)[0] == d[0];
    ReadNatOfNatToString(n, t);
  }
}
