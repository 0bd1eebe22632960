/** Decimal printing of natural numbers. */
module Decimal {
  function Digit(n: nat): (c: char)
    requires n < 10
    ensures '0' <= c <= '9'
  {
    ('0' as int + n) as char
  }

  function Print(n: nat): (s: string)
    ensures s != "" && forall i | 0 <= i < |s| :: '0' <= s[i] <= '9'
  {
    if n < 10 then [Digit(n)] else Print(n / 10) + [Digit(n % 10)]
  }

  /** Different numbers are printed differently. */
  lemma {:induction false} PrintInjective(a: nat, b: nat)
    requires Print(a) == Print(b)
    ensures a == b
    decreases a
  {
    var s := Print(a);
    assert a >= 10 ==> |s| == |Print(a / 10)| + 1 > 1;
    assert b >= 10 ==> |s| == |Print(b / 10)| + 1 > 1;
    if a < 10 && b < 10 {
      assert s[0] == Digit(a) == Digit(b);
    } else if a >= 10 && b >= 10 {
      var n := |s| - 1;
      assert Print(a / 10) == s[..n] == Print(b / 10);
      assert Digit(a % 10) == s[n] == Digit(b % 10);
      PrintInjective(a / 10, b / 10);
    }
  }

  /** The number that a string of decimal digits denotes. */
  function Number(s: string): nat
    requires forall i | 0 <= i < |s| :: '0' <= s[i] <= '9'
  {
    if s == "" then 0 else 10 * Number(s[..|s| - 1]) + (s[|s| - 1] as int - '0' as int)
  }

  /** A printed number reads as itself, and starts with a zero only if it is zero. */
  lemma {:induction false} PrintReads(n: nat)
    ensures Number(Print(n)) == n && (Print(n)[0] == '0' <==> n == 0)
  {
    if n >= 10 {
      PrintReads(n / 10);
      assert Print(n)[..|Print(n)| - 1] == Print(n / 10);
    }
  }
}
