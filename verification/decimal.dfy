/**
 Decimal rendering of a non-negative counter, the `%d` verb used by Add to
 build automatic titles "Topic n".
 */
module Decimal {

  /** The decimal digit character of `d`. */
  function Digit(d: nat): (c: char)
    requires d < 10
    ensures '0' <= c <= '9'
    ensures c as int - '0' as int == d
  {
    ('0' as int + d) as char
  }

  /** The number a string of decimal digits denotes, most significant first:
      the reading `%d` output is meant for. */
  function Value(s: string): nat
    requires forall i | 0 <= i < |s| :: '0' <= s[i] <= '9'
  {
    if |s| == 0 then 0 else 10 * Value(s[..|s| - 1]) + (s[|s| - 1] as int - '0' as int)
  }

  /** Decimal digits of `n`, most significant first, without leading zeros. */
  function Show(n: nat): (s: string)
    ensures 1 <= |s|
    ensures n < 10 <==> |s| == 1
    ensures forall i | 0 <= i < |s| :: '0' <= s[i] <= '9'
    ensures s[|s| - 1] == Digit(n % 10)
    ensures s[0] == '0' <==> n == 0
    decreases n
  {
    if n < 10 then [Digit(n)] else Show(n / 10) + [Digit(n % 10)]
  }

  /** Reading the rendering back gives the number: `%d` is exact. */
  lemma {:induction false} ShowValue(n: nat)
    ensures Value(Show(n)) == n
    decreases n
  {
    var s := Show(n);
    if n >= 10 {
      assert s[..|s| - 1] == Show(n / 10);
      ShowValue(n / 10);
    } else {
      assert s[..|s| - 1] == [];
    }
  }

  lemma DigitInjective(a: nat, b: nat)
    requires a < 10 && b < 10 && Digit(a) == Digit(b)
    ensures a == b
  {
  }

  /** Different counters render differently, so automatic titles never repeat. */
  lemma {:induction false} ShowInjective(a: nat, b: nat)
    requires Show(a) == Show(b)
    ensures a == b
    decreases a
  {
    DigitInjective(a % 10, b % 10);
    if a >= 10 {
      var sa := Show(a);
      assert sa[..|sa| - 1] == Show(a / 10);
      assert Show(b)[..|sa| - 1] == Show(b / 10);
      ShowInjective(a / 10, b / 10);
    }
  }

  /** Digits render at their own value: a mechanical cross-check of Show. */
  lemma ShowSamples()
    ensures Show(0) == "0" && Show(7) == "7" && Show(42) == "42" && Show(305) == "305"
  {
    assert Show(4) == "4";
    assert Show(30) == Show(3) + "0";
  }
}
