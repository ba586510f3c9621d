// Decimal rendering of numbers and the string facts the name generators rely on.
module Text {

  function Digit(d: nat): char
    requires d < 10
  {
    "0123456789"[d]
  }

  /** The decimal rendering of n, as the verb %d prints it. */
  function Decimal(n: nat): (s: string)
    ensures |s| > 0
    ensures n >= 10 ==> |s| > 1
  {
    if n < 10 then [Digit(n)] else Decimal(n / 10) + [Digit(n % 10)]
  }

  lemma DigitInjective(a: nat, b: nat)
    requires a < 10 && b < 10 && Digit(a) == Digit(b)
    ensures a == b
  {
  }

  /** Two numbers never print alike. */
  lemma {:induction false} DecimalInjective(m: nat, n: nat)
    requires Decimal(m) == Decimal(n)
    ensures m == n
  {
    var s := Decimal(m);
    if m < 10 || n < 10 {
      DigitInjective(m % 10, n % 10);
    } else {
      var p, q := Decimal(m / 10), Decimal(n / 10);
      assert s[..|s| - 1] == p && s[..|s| - 1] == q;
      assert s[|s| - 1] == Digit(m % 10) == Digit(n % 10);
      DecimalInjective(m / 10, n / 10);
      DigitInjective(m % 10, n % 10);
    }
  }

  /** What a string of digits reads as. */
  function Reads(s: string): nat {
    if s == "" then 0 else 10 * Reads(s[..|s| - 1]) + DigitReads(s[|s| - 1])
  }

  function DigitReads(c: char): nat {
    if '0' <= c <= '9' then (c - '0') as nat else 0
  }

  lemma ReadsNext(s: string, d: nat)
    requires d < 10
    ensures Reads(s + [Digit(d)]) == 10 * Reads(s) + d && '0' <= Digit(d) <= '9'
  {
    assert (s + [Digit(d)])[..|s|] == s;
  }

  /** The rendering has only digits, no leading zero but for zero itself, and reads as the number. */
  lemma {:induction false} DecimalReads(n: nat)
    ensures (forall c <- Decimal(n) :: '0' <= c <= '9') && (n > 0 ==> Decimal(n)[0] != '0')
    ensures Reads(Decimal(n)) == n
  {
    if n < 10 {
      assert Decimal(n)[..0] == "";
    } else {
      DecimalReads(n / 10);
      ReadsNext(Decimal(n / 10), n % 10);
    }
  }

  lemma CancelPrefix(p: string, a: string, b: string)
    requires p + a == p + b
    ensures a == b
  {
    assert (p + a)[|p|..] == a && (p + b)[|p|..] == b;
  }
}
