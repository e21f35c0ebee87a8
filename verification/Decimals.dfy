/** Natural numbers in decimal. */
module Decimals {
  function Digit(d: nat): char
    requires d < 10
  {
    ['0', '1', '2', '3', '4', '5', '6', '7', '8', '9'][d]
  }

  function Decimal(i: nat): string {
    if i < 10 then [Digit(i)] else Decimal(i / 10) + [Digit(i % 10)]
  }

  predicate IsDigits(s: string) {
    s != "" && forall k :: 0 <= k < |s| ==> '0' <= s[k] <= '9'
  }

  function Parse(s: string): nat
    requires IsDigits(s)
  {
    var d := (s[|s| - 1] as int - '0' as int) as nat;
    if |s| == 1 then d else 10 * Parse(s[..|s| - 1]) + d
  }

  lemma {:induction false} DecimalParses(i: nat)
    ensures IsDigits(Decimal(i)) && Parse(Decimal(i)) == i
  {
    if i >= 10 {
      DecimalParses(i / 10);
      assert Decimal(i)[..|Decimal(i)| - 1] == Decimal(i / 10);
    }
  }

  lemma DecimalInjective(i: nat, k: nat)
    requires Decimal(i) == Decimal(k)
    ensures i == k
  {
    DecimalParses(i);
    DecimalParses(k);
  }
}
