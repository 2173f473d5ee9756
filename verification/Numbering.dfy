/** Names made different by a number: `name#2`, `name#3`. */
module Numbering {
  const DIGITS := "0123456789"

  function Decimal(n: nat): string {
    if n < 10 then [DIGITS[n]] else Decimal(n / 10) + [DIGITS[n % 10]]
  }

  function Numbered(name: string, n: nat): string {
    name + "#" + Decimal(n)
  }

  lemma {:induction false} DecimalIsNoHash(n: nat)
    ensures '#' !in Decimal(n) && Decimal(n) != ""
  {
    if n >= 10 {
      DecimalIsNoHash(n / 10);
    }
  }

  lemma {:induction false} DecimalTells(m: nat, n: nat)
    requires Decimal(m) == Decimal(n)
    ensures m == n
    decreases m + n
  {
    var a, b := Decimal(m), Decimal(n);
    DecimalIsNoHash(m / 10);
    DecimalIsNoHash(n / 10);
    assert DIGITS[m % 10] == a[|a| - 1] == b[|b| - 1] == DIGITS[n % 10];
    DigitTells(m % 10, n % 10);
    if m >= 10 && n >= 10 {
      assert a[..|a| - 1] == Decimal(m / 10) && b[..|b| - 1] == Decimal(n / 10);
      DecimalTells(m / 10, n / 10);
    } else {
      assert |a| == |b|;
    }
  }

  lemma DigitTells(a: nat, b: nat)
    requires a < 10 && b < 10 && DIGITS[a] == DIGITS[b]
    ensures a == b
  {
  }

  lemma LongerDiffers(a: string, m: nat, b: string, n: nat)
    requires |a| < |b|
    ensures Numbered(a, m) != Numbered(b, n)
  {
    DecimalIsNoHash(m);
    var x, y := Numbered(a, m), Numbered(b, n);
    assert y[|b|] == '#';
    if |x| > |b| {
      assert x[|b|] == Decimal(m)[|b| - |a| - 1];
    }
  }

  /** A numbered name tells the name and the number, whatever the name is. */
  lemma NumberedTells(a: string, m: nat, b: string, n: nat)
    requires Numbered(a, m) == Numbered(b, n)
    ensures a == b && m == n
  {
    var x, y := Numbered(a, m), Numbered(b, n);
    if |a| < |b| {
      LongerDiffers(a, m, b, n);
    } else if |b| < |a| {
      LongerDiffers(b, n, a, m);
    } else {
      assert a == x[..|a|] && b == y[..|b|];
      assert Decimal(m) == x[|a| + 1..] && Decimal(n) == y[|b| + 1..];
      DecimalTells(m, n);
    }
  }
}
