/** Facts about quotients, remainders and powers. */
module Arithmetic {

  lemma MultipleBelow(k: int, d: int, r: int)
    requires -d < r < d
    ensures k * d == r ==> k == 0
  {
    if k >= 1 {
      assert k * d == (k - 1) * d + d && (k - 1) * d >= 0;
    } else if k <= -1 {
      assert k * d == (k + 1) * d - d && (k + 1) * d <= 0;
    }
  }

  lemma QuotientUnique(x: nat, d: nat, q: nat, r: nat)
    requires x == q * d + r && r < d
    ensures x / d == q && x % d == r
  {
    var q', r' := x / d, x % d;
    assert x == q' * d + r';
    MultipleBelow(q - q', d, r' - r);
  }

  /** Division by the length of a cycle moves on exactly when the remainder starts again. */
  lemma DivisionStep(h: nat, d: nat)
    requires 0 < d
    ensures if (h + 1) % d == 0 then (h + 1) / d == h / d + 1 && h % d == d - 1
            else (h + 1) / d == h / d && (h + 1) % d == h % d + 1
  {
    var q, r := h / d, h % d;
    assert h == q * d + r;
    if r == d - 1 {
      assert h + 1 == (q + 1) * d;
      QuotientUnique(h + 1, d, q + 1, 0);
    } else {
      QuotientUnique(h + 1, d, q, r + 1);
    }
  }

  /** Two numbers less than a modulus apart that leave the same remainder are the same. */
  lemma SameResidue(x: nat, y: nat, d: nat)
    requires 0 < d && x % d == y % d && x < y + d && y < x + d
    ensures x == y
  {
    assert x == x / d * d + x % d && y == y / d * d + y % d;
    MultipleBelow(x / d - y / d, d, x - y);
  }

  function Pow(b: nat, n: nat): nat {
    if n == 0 then 1 else b * Pow(b, n - 1)
  }

  lemma {:induction false} PowPositive(b: nat, n: nat)
    requires 0 < b
    ensures 0 < Pow(b, n)
  {
    if n > 0 {
      PowPositive(b, n - 1);
      assert b * Pow(b, n - 1) > 0;
    }
  }

  lemma {:induction false} PowAdd(b: nat, m: nat, n: nat)
    ensures Pow(b, m + n) == Pow(b, m) * Pow(b, n)
  {
    if m > 0 {
      PowAdd(b, m - 1, n);
      assert Pow(b, m + n) == b * Pow(b, m - 1 + n);
      assert b * (Pow(b, m - 1) * Pow(b, n)) == b * Pow(b, m - 1) * Pow(b, n);
    }
  }

  lemma Assoc(a: int, b: int, c: int)
    ensures a * b * c == a * (b * c)
  {
  }

  lemma Swap(a: int, b: int, c: int)
    ensures a * (b * c) == b * (a * c)
  {
  }

  lemma MulStrict(a: int, b: int, c: int)
    requires 0 < c && a < b
    ensures c * a < c * b
  {
  }

  lemma MulMono(a: nat, b: nat, c: nat)
    requires a <= b
    ensures a * c <= b * c
  {
  }
}
