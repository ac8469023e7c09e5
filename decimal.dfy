/**
 * Decimal rendering of integers (`int.ToString()` in the invariant culture),
 * with the parser that inverts it. Used for the default display name of a
 * dialogue node.
 */
module Decimal {

  import opened Targets

  predicate IsDigit(c: char) { '0' <= c <= '9' }

  function DigitChar(d: nat): (c: char)
    requires d < 10
    ensures IsDigit(c)
  {
    "0123456789"[d]
  }

  function DigitValue(c: char): (d: nat)
    requires IsDigit(c)
    ensures d < 10
  {
    (c as int - '0' as int) as nat
  }

  /** The decimal digits of `n`, most significant first, without leading zeros. */
  function NatToString(n: nat): (s: string)
    ensures |s| > 0 && (forall i :: 0 <= i < |s| ==> IsDigit(s[i]))
    ensures |s| > 1 ==> s[0] != '0'
    decreases n
  {
    if n < 10 then [DigitChar(n)] else NatToString(n / 10) + [DigitChar(n % 10)]
  }

  /** The value of a string of decimal digits. */
  function ParseNat(s: string): nat
    requires forall i :: 0 <= i < |s| ==> IsDigit(s[i])
  {
    if s == [] then 0 else ParseNat(s[..|s| - 1]) * 10 + DigitValue(s[|s| - 1])
  }

  lemma {:induction false} ParseNatToString(n: nat)
    ensures ParseNat(NatToString(n)) == n
    decreases n
  {
    var s := NatToString(n);
    if n < 10 {
      assert s[..|s| - 1] == [];
    } else {
      ParseNatToString(n / 10);
      assert s[..|s| - 1] == NatToString(n / 10);
    }
  }

  /** `int.ToString()`: an optional minus sign followed by the digits of |i|. */
  function IntToString(i: int): (s: string)
    ensures ParseInt(s) == Some(i)
  {
    ParseNatToString(if i < 0 then -i else i);
    if i < 0 then
      var digits := NatToString(-i);
      var s := "-" + digits;
      assert s[0] == '-' && !IsDigit(s[0]) && s[1..] == digits;
      assert forall j :: 1 <= j < |s| ==> s[j] == digits[j - 1];
      s
    else NatToString(i)
  }

  /** The integer a rendering stands for, if it is one. */
  function ParseInt(s: string): Maybe<int> {
    if |s| > 0 && forall i :: 0 <= i < |s| ==> IsDigit(s[i]) then Some(ParseNat(s))
    else if |s| > 1 && s[0] == '-' && forall i :: 1 <= i < |s| ==> IsDigit(s[i]) then
      Some(-(ParseNat(s[1..]) as int))
    else None
  }
}
