/** Decimal rendering of natural numbers, as Python's `str(int)` and the
    `{i}` placeholders of an f-string produce it: the shortest digit string,
    most significant digit first, no sign and no leading zero. */
module Decimal {

  predicate IsDigit(c: char) {
    '0' <= c <= '9'
  }

  predicate AllDigits(s: string) {
    forall k :: 0 <= k < |s| ==> IsDigit(s[k])
  }

  function DigitChar(d: nat): (c: char)
    requires d < 10
    ensures IsDigit(c) && c as int - '0' as int == d
  {
    (('0' as int) + d) as char
  }

  function DigitValue(c: char): nat
    requires IsDigit(c)
  {
    c as int - '0' as int
  }

  /** The decimal text of `n`: non-empty, digits only, and its first digit is
      `'0'` only for zero itself. */
  function NatToString(n: nat): (s: string)
    ensures |s| > 0 && AllDigits(s)
    ensures s[0] == '0' ==> n == 0
    decreases n
  {
    if n < 10 then [DigitChar(n)] else NatToString(n / 10) + [DigitChar(n % 10)]
  }

  /** Reads a digit string back as a number (the inverse of `NatToString`). */
  function ParseDecimal(s: string): nat
    requires AllDigits(s)
  {
    if s == [] then 0 else 10 * ParseDecimal(s[..|s| - 1]) + DigitValue(s[|s| - 1])
  }

  /** Parsing the rendered text gives the number back. */
  lemma {:induction false} ParseNatToString(n: nat)
    ensures ParseDecimal(NatToString(n)) == n
    decreases n
  {
    var s := NatToString(n);
    if n < 10 {
      assert s[..|s| - 1] == [];
    } else {
      ParseNatToString(n / 10);
      assert s[..|s| - 1] == NatToString(n / 10);
    }
  }

  /** Distinct numbers render as distinct strings. */
  lemma NatToStringInjective(m: nat, n: nat)
    requires NatToString(m) == NatToString(n)
    ensures m == n
  {
    ParseNatToString(m);
    ParseNatToString(n);
  }

  /** A digit string followed by a separator that begins with a non-digit can
      be cut apart again: the separator's first character marks where the
      number ends, so the two sides agree part by part. */
  lemma DigitsThenSeparator(a: string, b: string, a': string, b': string, sep: string)
    requires AllDigits(a) && AllDigits(a')
    requires |sep| > 0 && !IsDigit(sep[0])
    requires a + sep + b == a' + sep + b'
    ensures a == a' && b == b'
  {
    var w, w' := a + sep + b, a' + sep + b';
    // Both texts are digits up to their number's length and a non-digit there.
    assert !IsDigit(w[|a|]) && !IsDigit(w'[|a'|]);
    assert forall k :: 0 <= k < |a| ==> IsDigit(w[k]);
    assert forall k :: 0 <= k < |a'| ==> IsDigit(w'[k]);
    assert |a| == |a'|;
    assert a == w[..|a|] == w'[..|a|] == a';
    assert b == w[|a| + |sep|..] == w'[|a| + |sep|..] == b';
  }
}
