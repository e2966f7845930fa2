/** Polynomials over GF(2): a word is the polynomial whose coefficient of x^i is bit i. The product is
    defined by its coefficients, without any shift-and-xor loop, and is proved to be a commutative ring product. */
module Gf2 {
  import opened Words

  /** f(0) + ... + f(n-1) in GF(2). */
  ghost function Parity(n: nat, f: int -> bool): bool {
    if n == 0 then false else Parity(n - 1, f) != f(n - 1)
  }

  /** The summands of the coefficient of x^k in a * b. */
  ghost function Terms(a: Word, b: Word, k: int): int -> bool {
    i => Bit(b, i) && Bit(a, k - i)
  }

  /** The coefficient of x^k in a * b. */
  ghost function Coefficient(a: Word, b: Word, k: int): bool {
    Parity(|b|, Terms(a, b, k))
  }

  /** The full product, with room for every coefficient. */
  ghost function Product(a: Word, b: Word): Word {
    seq(|a| + |b|, k => Coefficient(a, b, k))
  }

  // ----- finite sums in GF(2)

  lemma {:induction false} ParityCongruence(n: nat, f: int -> bool, g: int -> bool)
    requires forall i | 0 <= i < n :: f(i) == g(i)
    ensures Parity(n, f) == Parity(n, g)
  {
    if n == 0 {
    } else {
      ParityCongruence(n - 1, f, g);
    }
  }

  lemma {:induction false} ParityOfZeros(n: nat, f: int -> bool)
    requires forall i | 0 <= i < n :: !f(i)
    ensures !Parity(n, f)
  {
    if n == 0 {
    } else {
      ParityOfZeros(n - 1, f);
    }
  }

  lemma {:induction false} ParityOfSum(n: nat, f: int -> bool, g: int -> bool, h: int -> bool)
    requires forall i | 0 <= i < n :: h(i) == (f(i) != g(i))
    ensures Parity(n, h) == (Parity(n, f) != Parity(n, g))
  {
    if n == 0 {
    } else {
      ParityOfSum(n - 1, f, g, h);
    }
  }

  lemma {:induction false} ParityOfMultiple(n: nat, c: bool, f: int -> bool, g: int -> bool)
    requires forall i | 0 <= i < n :: g(i) == (c && f(i))
    ensures Parity(n, g) == (c && Parity(n, f))
  {
    if n == 0 {
    } else {
      ParityOfMultiple(n - 1, c, f, g);
    }
  }

  /** Summing g over [0, m + n), where f is zero outside [0, n), g(i) = f(i - m). */
  lemma {:induction false} ParityShifted(m: nat, n: nat, f: int -> bool, g: int -> bool)
    requires forall i | 0 <= i < m + n :: g(i) == (i >= m && f(i - m))
    ensures Parity(m + n, g) == Parity(n, f)
  {
    if n == 0 {
      ParityOfZeros(m, g);
    } else {
      ParityShifted(m, n - 1, f, g);
      assert m + n - 1 == m + (n - 1);
    }
  }

  /** A sum may be extended over indices where every summand is zero. */
  lemma {:induction false} ParityExtended(m: nat, n: nat, f: int -> bool)
    requires m <= n && forall i | m <= i < n :: !f(i)
    ensures Parity(n, f) == Parity(m, f)
  {
    if m == n {
    } else {
      ParityExtended(m, n - 1, f);
    }
  }

  lemma {:induction false} ParityReversed(n: nat, f: int -> bool, g: int -> bool)
    requires forall i | 0 <= i < n :: g(i) == f(n - 1 - i)
    ensures Parity(n, g) == Parity(n, f)
  {
    if n == 0 {
    } else {
      var f' := (i: int) => f(i + 1);
      ParityReversed(n - 1, f', g);
      ParityPeeled(n, f, f');
    }
  }

  lemma {:induction false} ParityPeeled(n: nat, f: int -> bool, f': int -> bool)
    requires n > 0 && forall i | 0 <= i < n - 1 :: f'(i) == f(i + 1)
    ensures Parity(n, f) == (f(0) != Parity(n - 1, f'))
  {
    if n == 1 {
    } else {
      ParityPeeled(n - 1, f, f');
    }
  }

  /** Interchanging two sums; rows(i) is the i-th row sum and columns(j) the j-th column sum of t. */
  lemma {:induction false} ParityInterchanged(
    m: nat, n: nat, t: (int, int) -> bool, rows: int -> bool, columns: int -> bool)
    requires forall i | 0 <= i < m :: rows(i) == Parity(n, j => t(i, j))
    requires forall j | 0 <= j < n :: columns(j) == Parity(m, i => t(i, j))
    ensures Parity(m, rows) == Parity(n, columns)
  {
    if m == 0 {
      ParityOfZeros(n, columns);
    } else {
      var columns' := (j: int) => Parity(m - 1, i => t(i, j));
      forall j | 0 <= j < n
        ensures columns(j) == (columns'(j) != t(m - 1, j))
      {
        ParityCongruence(m - 1, i => t(i, j), i => t(i, j));
      }
      ParityInterchanged(m - 1, n, t, rows, columns');
      ParityOfSum(n, columns', j => t(m - 1, j), columns);
    }
  }

  // ----- the product

  lemma {:induction false} CoefficientInWindow(a: Word, b: Word, k: int, n: nat)
    requires k < n
    ensures Coefficient(a, b, k) == Parity(n, Terms(a, b, k))
  {
    if n <= |b| {
      ParityExtended(n, |b|, Terms(a, b, k));
    } else {
      ParityExtended(|b|, n, Terms(a, b, k));
    }
  }

  /** Every coefficient of a * b is a bit of the full product: no coefficient falls outside it. */
  lemma {:induction false} ProductHoldsEveryCoefficient(a: Word, b: Word, k: int)
    ensures Bit(Product(a, b), k) == Coefficient(a, b, k)
    ensures k >= |a| + |b| - 1 ==> !Coefficient(a, b, k)
  {
    if k < 0 || k >= |a| + |b| - 1 {
      ParityOfZeros(|b|, Terms(a, b, k));
    }
  }

  /** Coefficients below x^n depend only on the coefficients of the operands below x^n. */
  lemma {:induction false} CoefficientIsLocal(a: Word, b: Word, a': Word, b': Word, k: int)
    requires forall i | 0 <= i <= k :: Bit(a, i) == Bit(a', i) && Bit(b, i) == Bit(b', i)
    ensures Coefficient(a, b, k) == Coefficient(a', b', k)
  {
    var n := if k < 0 then 0 else k + 1;
    CoefficientInWindow(a, b, k, n);
    CoefficientInWindow(a', b', k, n);
    ParityCongruence(n, Terms(a, b, k), Terms(a', b', k));
  }

  lemma {:induction false} CoefficientCommutes(a: Word, b: Word, k: int)
    ensures Coefficient(a, b, k) == Coefficient(b, a, k)
  {
    var n := if k < 0 then 0 else k + 1;
    CoefficientInWindow(a, b, k, n);
    CoefficientInWindow(b, a, k, n);
    ParityReversed(n, Terms(b, a, k), Terms(a, b, k));
  }

  lemma {:induction false} CoefficientDistributes(a: Word, b: Word, c: Word, k: int)
    requires |b| == |c|
    ensures Coefficient(a, Xor(b, c), k) == (Coefficient(a, b, k) != Coefficient(a, c, k))
  {
    ParityOfSum(|b|, Terms(a, b, k), Terms(a, c, k), Terms(a, Xor(b, c), k));
  }

  lemma {:induction false} CoefficientOfOne(a: Word, n: nat, k: int)
    requires n > 0
    ensures Coefficient(a, One(n), k) == Bit(a, k)
  {
    ParityExtended(1, n, Terms(a, One(n), k));
    assert Parity(0, Terms(a, One(n), k)) == false;
  }

  lemma {:induction false} AssociatesRow(a: Word, b: Word, c: Word, k: int, i: nat, row: int -> bool)
    requires i < |c| && forall j :: row(j) == (Bit(c, i) && Bit(b, j - i) && Bit(a, k - j))
    ensures Terms(Product(a, b), c, k)(i) == Parity(|b| + |c|, row)
  {
    ProductHoldsEveryCoefficient(a, b, k - i);
    var terms := Terms(a, b, k - i);
    var inner := (j: int) => Bit(c, i) && terms(j);
    ParityOfMultiple(|b|, Bit(c, i), terms, inner);
    ParityShifted(i, |b|, inner, row);
    ParityExtended(i + |b|, |b| + |c|, row);
  }

  lemma {:induction false} CoefficientAssociates(a: Word, b: Word, c: Word, k: int)
    ensures Coefficient(Product(a, b), c, k) == Coefficient(a, Product(b, c), k)
  {
    var m, n := |c|, |b| + |c|;
    // t(i, j) is the product of coefficient i of c, j - i of b and k - j of a.
    var t := (i: int, j: int) => Bit(c, i) && Bit(b, j - i) && Bit(a, k - j);
    var left, right := Terms(Product(a, b), c, k), Terms(a, Product(b, c), k);
    forall i | 0 <= i < m
      ensures left(i) == Parity(n, j => t(i, j))
    {
      AssociatesRow(a, b, c, k, i, j => t(i, j));
    }
    forall j | 0 <= j < n
      ensures right(j) == Parity(m, i => t(i, j))
    {
      ProductHoldsEveryCoefficient(b, c, j);
      ParityOfMultiple(m, Bit(a, k - j), Terms(b, c, j), i => t(i, j));
    }
    ParityInterchanged(m, n, t, left, right);
    assert |Product(b, c)| == n;
  }

  /** The full product is commutative, associative and distributive, and 1 is neutral. */
  lemma {:induction false} ProductRingLaws(a: Word, b: Word, c: Word)
    ensures Product(a, b) == Product(b, a)
    ensures Product(Product(a, b), c) == Product(a, Product(b, c))
    ensures |b| == |c| ==> Product(a, Xor(b, c)) == Xor(Product(a, b), Product(a, c))
    ensures |b| > 0 ==> Product(a, One(|b|)) == a + Zero(|b|)
  {
    forall k | 0 <= k < |a| + |b| ensures Product(a, b)[k] == Product(b, a)[k] {
      CoefficientCommutes(a, b, k);
    }
    forall k | 0 <= k < |a| + |b| + |c|
      ensures Product(Product(a, b), c)[k] == Product(a, Product(b, c))[k]
    {
      CoefficientAssociates(a, b, c, k);
    }
    if |b| == |c| {
      forall k | 0 <= k < |a| + |b|
        ensures Product(a, Xor(b, c))[k] == Xor(Product(a, b), Product(a, c))[k]
      {
        CoefficientDistributes(a, b, c, k);
      }
    }
    if |b| > 0 {
      forall k | 0 <= k < |a| + |b| ensures Product(a, One(|b|))[k] == (a + Zero(|b|))[k] {
        CoefficientOfOne(a, |b|, k);
      }
    }
  }
}
