/** Facts about division with remainder, where the quotient and the remainder are supplied by the caller. */
module Arithmetic {

  lemma NonzeroMultiple(k: int, m: nat)
    requires k != 0
    ensures k * m >= m || k * m <= -(m as int)
  {
    if k >= 1 {
      assert (k - 1) * m >= 0;
    } else {
      assert (-1 - k) * m >= 0;
    }
  }

  lemma MulMonotone(a: int, b: int, c: nat)
    requires a <= b
    ensures a * c <= b * c
  {
    assert (b - a) * c >= 0;
  }

  lemma DivModUnique(x: int, q: int, r: int, m: nat)
    requires 0 <= r < m && x == q * m + r
    ensures x / m == q && x % m == r
  {
    var d, s := x / m, x % m;
    assert (q - d) * m == s - r by {
      assert (q - d) * m == q * m - d * m;
      assert x == m * d + s;
    }
    if q != d {
      NonzeroMultiple(q - d, m);
    }
  }

  /** Adding multiples of m does not change the remainder. */
  lemma ModShift(x: int, k: int, m: nat)
    requires m > 0
    ensures (x + k * m) % m == x % m
    ensures (x + k * m) / m == x / m + k
  {
    assert x + k * m == (x / m + k) * m + x % m;
    DivModUnique(x + k * m, x / m + k, x % m, m);
  }

  /** Reducing a summand modulo m first makes no difference. */
  lemma ModAbsorbs(x: int, y: int, m: nat)
    requires m > 0
    ensures (x % m + y) % m == (x + y) % m
  {
    ModShift(x % m + y, x / m, m);
    assert x % m + y + x / m * m == x + y;
  }

  /** Reducing modulo a multiple of m first makes no difference. */
  lemma ModOfMod(x: int, k: nat, m: nat)
    requires m > 0 && k > 0 && k * m > 0
    ensures x % (k * m) % m == x % m
  {
    var q := x / (k * m);
    DivModSplit(x, k * m);
    MulAssociates(q, k, m);
    ModShift(x % (k * m), q * k, m);
  }

  lemma MulAssociates(x: int, y: int, z: int)
    ensures x * (y * z) == x * y * z
  {
  }

  lemma ProductOfSplit(q: int, r: int, m: int)
    ensures (q * m + r) * m == q * (m * m) + r * m
  {
  }

  lemma PairBelowSquare(x: int, y: int, m: int)
    requires 0 <= x < m && 0 <= y < m
    ensures 0 <= x * m + y < m * m
  {
    MulMonotone(0, x, m);
    MulMonotone(x + 1, m, m);
    assert (x + 1) * m == x * m + m;
  }

  /** x * m + y with y below m, reduced modulo m * m. */
  lemma ModOfPair(x: int, y: nat, m: nat)
    requires y < m < m * m
    ensures (x * m + y) % (m * m) == x % m * m + y
    ensures (x * m + y) % (m * m) / m == x % m
    ensures (x * m + y) % (m * m) % m == y
  {
    var q, r := x / m, x % m;
    assert x == q * m + r;
    ProductOfSplit(q, r, m);
    PairBelowSquare(r, y, m);
    DivModUnique(x * m + y, q, r * m + y, m * m);
    DivModUnique(r * m + y, r, y, m);
  }

  /** Congruent factors have congruent products. */
  lemma CongruentFactor(x: int, a: int, j: int, b: int, m: nat)
    requires m > 0 && x == a + j * m
    ensures x * b % m == a * b % m
  {
    assert (a + j * m) * b == a * b + j * b * m;
    ModShift(a * b, j * b, m);
  }

  lemma ProductBelowSquare(a: nat, b: nat, m: nat)
    requires a < m && b < m
    ensures a * b < m * m
  {
    MulMonotone(a, m, b);
    MulMonotone(b + 1, m, m);
    assert (b + 1) * m == m * b + m;
  }

  lemma DivModSplit(x: int, m: nat)
    requires m > 0
    ensures x == x / m * m + x % m && 0 <= x % m < m
  {
  }

  lemma DifferenceOfMultiples(p: int, q: int, b: int)
    ensures (p - q) * b == p * b - q * b
    ensures (q - p) * -b == p * b - q * b
  {
  }

  lemma QuotientIsSmaller(x: nat, y: nat)
    requires y > 0
    ensures x / y <= x && (y >= 2 ==> 2 * (x / y) <= x)
  {
    var q := x / y;
    DivModSplit(x, y);
    MulMonotone(1, y, q);
    if y >= 2 {
      MulMonotone(2, y, q);
    }
  }
}
