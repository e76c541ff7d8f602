/** Numbers in decimal, as printf writes and scanf reads them. */
module Decimals {

  predicate Digit(c: char) { '0' <= c <= '9' }

  function DigitChar(k: nat): (c: char)
    requires k < 10
    ensures Digit(c) && c as int - '0' as int == k
  {
    ('0' as int + k) as char
  }

  /** printf ("%u") */
  function Print(n: nat): (s: string)
    ensures s != "" && forall i :: 0 <= i < |s| ==> Digit(s[i])
  {
    (if n >= 10 then Print(n / 10) else "") + [DigitChar(n % 10)]
  }

  /** printf ("%d") */
  function PrintInt(n: int): string { if n < 0 then "-" + Print(-n) else Print(n) }

  /** sscanf ("%d") on a string of digits. */
  function Decimal(s: string): int {
    if s == "" then 0 else 10 * Decimal(s[..|s| - 1]) + (s[|s| - 1] as int - '0' as int)
  }

  lemma {:induction false} PrintedScansBack(n: nat)
    ensures Decimal(Print(n)) == n
  {
    var s := Print(n);
    if n >= 10 {
      PrintedScansBack(n / 10);
      assert s[..|s| - 1] == Print(n / 10);
    } else {
      assert s[..|s| - 1] == "";
    }
  }

  /** sscanf ("%d") on a string of digits with an optional minus sign. */
  function DecimalInt(s: string): int {
    if s != "" && s[0] == '-' then -Decimal(s[1..]) else Decimal(s)
  }

  lemma {:induction false} MinusSign(s: string)
    ensures DecimalInt("-" + s) == -Decimal(s)
  {
    assert ("-" + s)[1..] == s;
  }

  lemma {:induction false} NoSign(s: string)
    requires s != "" && Digit(s[0])
    ensures DecimalInt(s) == Decimal(s)
  {
  }

  lemma {:induction false} PrintedIntScansBack(n: int)
    ensures DecimalInt(PrintInt(n)) == n
  {
    var s := Print(if n < 0 then -n else n);
    PrintedScansBack(if n < 0 then -n else n);
    MinusSign(s);
    NoSign(s);
  }
}
