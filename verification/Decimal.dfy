/** Decimal printing of natural numbers, as `str(n)` and f-strings do it. */
module Decimal {
  function Digit(d: nat): (c: char)
    requires d < 10
    ensures '0' <= c <= '9' && c as int - '0' as int == d
  {
    ('0' as int + d) as char
  }

  predicate AllDigits(s: string) {
    forall i | 0 <= i < |s| :: '0' <= s[i] <= '9'
  }

  function Text(n: nat): (s: string)
    ensures s != [] && AllDigits(s)
  {
    if n < 10 then [Digit(n)] else Text(n / 10) + [Digit(n % 10)]
  }

  /** `str` of any integer. */
  function IntText(n: int): string {
    if n < 0 then "-" + Text(-n) else Text(n)
  }

  /** Reading digits. */
  function Value(s: string): nat
    requires AllDigits(s)
  {
    if s == [] then 0 else 10 * Value(s[..|s| - 1]) + (s[|s| - 1] as int - '0' as int) as nat
  }

  lemma ValueOfNothing()
    ensures Value([]) == 0
  {
  }

  lemma LastDigit(s: string)
    requires s != [] && AllDigits(s)
    ensures var n := |s| - 1;
            && '0' <= s[n] <= '9' && AllDigits(s[..n])
            && Value(s) == 10 * Value(s[..n]) + (s[n] as int - '0' as int)
  {
  }

  lemma {:induction false} ValueOfText(n: nat)
    ensures Value(Text(n)) == n
  {
    if n < 10 {
      assert Text(n)[..0] == [];
    } else {
      ValueOfText(n / 10);
      assert Text(n)[..|Text(n)| - 1] == Text(n / 10);
    }
  }

  /** The printed integer: a sign exactly for the negative ones, then the digits of the magnitude. */
  lemma IntTextReads(n: int)
    ensures IntText(n)[0] == '-' <==> n < 0
    ensures var digits := if n < 0 then IntText(n)[1..] else IntText(n);
            AllDigits(digits) && Value(digits) == if n < 0 then -n else n
  {
    ValueOfText(if n < 0 then -n else n);
  }

  /** Different numbers print differently. */
  lemma TextInjective(m: nat, n: nat)
    requires Text(m) == Text(n)
    ensures m == n
  {
    ValueOfText(m);
    ValueOfText(n);
  }
}
