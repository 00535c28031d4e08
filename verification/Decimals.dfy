/** Decimal text of natural numbers. */
module Decimals {

  function Decimal(n: nat): (s: string)
    ensures s != ""
  {
    var last := ['0' as char + (n % 10) as char];
    if n < 10 then last else Decimal(n / 10) + last
  }

  /** The number a text of digits stands for. */
  function NumberOf(s: string): int {
    if s == "" then 0 else 10 * NumberOf(s[..|s| - 1]) + (s[|s| - 1] as int - '0' as int)
  }

  predicate IsDigits(s: string) {
    forall i :: 0 <= i < |s| ==> '0' <= s[i] <= '9'
  }

  /** The text consists of digits, stands for the number, and has no leading zero but for zero itself. */
  lemma {:induction false} DecimalText(n: nat)
    ensures IsDigits(Decimal(n)) && NumberOf(Decimal(n)) == n && (Decimal(n)[0] == '0' ==> Decimal(n) == "0")
  {
    var s := Decimal(n);
    if n < 10 {
      assert s == ['0' as char + n as char];
      assert s[..0] == "";
    } else {
      DecimalText(n / 10);
      assert s[..|s| - 1] == Decimal(n / 10);
      LeadingDigit(n / 10);
    }
  }

  lemma {:induction false} LeadingDigit(n: nat)
    requires n > 0
    ensures Decimal(n)[0] != '0'
  {
    if n >= 10 {
      LeadingDigit(n / 10);
    }
  }

  lemma {:induction false} DecimalInjective(m: nat, n: nat)
    requires Decimal(m) == Decimal(n)
    ensures m == n
  {
    var s, t := Decimal(m), Decimal(n);
    assert s[|s| - 1] == '0' as char + (m % 10) as char;
    assert t[|t| - 1] == '0' as char + (n % 10) as char;
    assert m % 10 == n % 10;
    if m >= 10 && n >= 10 {
      assert s[..|s| - 1] == Decimal(m / 10) && t[..|t| - 1] == Decimal(n / 10);
      DecimalInjective(m / 10, n / 10);
    }
  }
}
