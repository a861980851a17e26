/** Decimal numerals, as `str(int)` writes them and as a digit scanner reads them. */
module Numerals {

  predicate IsDigit(c: char) { '0' <= c <= '9' }

  predicate AllDigits(s: string) { forall c | c in s :: IsDigit(c) }

  function DigitText(d: nat): char
    requires d < 10
  {
    ('0' as int + d) as char
  }

  function DigitValue(c: char): nat
    requires IsDigit(c)
  {
    c as int - '0' as int
  }

  function NatText(n: nat): string {
    if n < 10 then [DigitText(n)] else NatText(n / 10) + [DigitText(n % 10)]
  }

  function NatValue(s: string): nat
    requires AllDigits(s)
  {
    if s == [] then 0 else NatValue(s[..|s| - 1]) * 10 + DigitValue(s[|s| - 1])
  }

  /** How many digits `s` starts with. */
  function DigitRun(s: string): (k: nat)
    ensures k <= |s| && AllDigits(s[..k])
  {
    if s == [] || !IsDigit(s[0]) then 0 else
    assert s[..1 + DigitRun(s[1..])] == [s[0]] + s[1..][..DigitRun(s[1..])];
    1 + DigitRun(s[1..])
  }

  /** A numeral is all digits, names its number, and carries no leading zero. */
  lemma {:induction false} NatTextProperties(n: nat)
    ensures AllDigits(NatText(n)) && NatValue(NatText(n)) == n
    ensures NatText(n) != [] && (NatText(n)[0] == '0' ==> NatText(n) == "0")
  {
    if n < 10 {
      assert NatText(n)[..0] == [];
    } else {
      NatTextProperties(n / 10);
      var s := NatText(n);
      assert s[..|s| - 1] == NatText(n / 10);
      assert n / 10 > 0;
      assert NatValue("0") == 0 by { assert "0"[..0] == []; }
    }
  }

  lemma {:induction false} DigitRunOfPrefix(s: string, rest: string)
    requires AllDigits(s) && (rest == [] || !IsDigit(rest[0]))
    ensures DigitRun(s + rest) == |s|
  {
    if s == [] {
      assert s + rest == rest;
    } else {
      assert (s + rest)[1..] == s[1..] + rest;
      DigitRunOfPrefix(s[1..], rest);
    }
  }
}
