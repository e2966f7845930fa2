/** The carry-less multiply instructions of Zbc, for any register width n (the source has n = 32 and n = 64). */
module CarrylessMultiply {
  import opened Words
  import opened Gf2

  // ----- what the three instructions return, as parts of the full product

  ghost function LowProduct(a: Word, b: Word): (r: Word)
    requires |a| == |b|
  {
    Product(a, b)[..|a|]
  }

  ghost function HighProduct(a: Word, b: Word): (r: Word)
    requires |a| == |b|
  {
    Product(a, b)[|a|..]
  }

  /** Bits n-1 to 2n-2 of the full product. */
  ghost function MiddleProduct(a: Word, b: Word): (r: Word)
    requires |a| == |b| > 0
  {
    Product(a, b)[|a| - 1..2 * |a| - 1]
  }

  /** b with its most significant bit cleared. */
  function ClearTop(b: Word): (r: Word)
    requires |b| > 0
  {
    b[|b| - 1 := false]
  }

  // ----- the loops

  /** Terms(a, b, k) summed over the iterations done so far is bit k - offset of the running result. */
  ghost predicate Accumulated(a: Word, b: Word, offset: int, i: nat, result: Word) {
    && |result| == |a| == |b|
    && forall k | 0 <= k < |a| :: result[k] == Parity(i, Terms(a, b, k + offset))
  }

  method Clmul(a: Word, b: Word) returns (result: Word)
    requires |a| == |b|
    ensures result == LowProduct(a, b)
  {
    result := Zero(|a|);
    var i := 0;
    while i < |a|
      invariant 0 <= i <= |a|
      invariant Accumulated(a, b, 0, i, result)
    {
      result := if Bit(Shr(b, i), 0) then Xor(result, Shl(a, i)) else result;
      i := i + 1;
    }
  }

  /** Iteration 0 contributes nothing to the high half, so the clmulh loop may start at 1. */
  lemma FirstTermIsNotHigh(a: Word, b: Word, result: Word)
    requires |a| == |b| && result == Zero(|a|)
    ensures Accumulated(a, b, |a|, 1, result)
  {
  }

  method Clmulh(a: Word, b: Word) returns (result: Word)
    requires |a| == |b| > 0
    ensures result == HighProduct(a, b)
  {
    result := Zero(|a|);
    var i := 1;
    FirstTermIsNotHigh(a, b, result);
    while i < |a|
      invariant 1 <= i <= |a|
      invariant Accumulated(a, b, |a|, i, result)
    {
      result := if Bit(Shr(b, i), 0) then Xor(result, Shr(a, |a| - i)) else result;
      i := i + 1;
    }
  }

  /** The loop of the 64-bit instruction. */
  method ClmulrRv64(a: Word, b: Word) returns (result: Word)
    requires |a| == |b| > 0
    ensures result == MiddleProduct(a, b)
  {
    result := Zero(|a|);
    var i := 0;
    while i < |a|
      invariant 0 <= i <= |a|
      invariant Accumulated(a, b, |a| - 1, i, result)
    {
      result := if Bit(Shr(b, i), 0) then Xor(result, Shr(a, |a| - i - 1)) else result;
      i := i + 1;
    }
  }

  lemma LastTermVanishes(a: Word, b: Word, result: Word)
    requires |a| == |b| > 0 && !b[|b| - 1]
    requires Accumulated(a, b, |a| - 1, |a| - 1, result)
    ensures result == MiddleProduct(a, b)
  {
  }

  lemma MiddleBit(a: Word, b: Word, k: nat)
    requires k < |a| == |b|
    ensures MiddleProduct(a, b)[k] == Parity(|a|, Terms(a, b, k + (|a| - 1)))
    ensures MiddleProduct(a, b)[k] == (Parity(|a| - 1, Terms(a, b, k + (|a| - 1))) != (b[|b| - 1] && a[k]))
  {
    var n, t := |a|, Terms(a, b, k + (|a| - 1));
    assert MiddleProduct(a, b)[k] == Product(a, b)[n - 1 + k];
    assert Parity(n, t) == (Parity(n - 1, t) != t(n - 1));
    assert t(n - 1) == (Bit(b, n - 1) && Bit(a, k));
  }

  /** The loop of the 32-bit instruction, which ends one iteration earlier. */
  method ClmulrRv32(a: Word, b: Word) returns (result: Word)
    requires |a| == |b| > 0
    ensures result == MiddleProduct(a, ClearTop(b))
  {
    result := Zero(|a|);
    var i := 0;
    ghost var b' := ClearTop(b);
    while i < |a| - 1
      invariant 0 <= i <= |a| - 1
      invariant Accumulated(a, b', |a| - 1, i, result)
    {
      assert Bit(b, i) == Bit(b', i);
      result := if Bit(Shr(b, i), 0) then Xor(result, Shr(a, |a| - i - 1)) else result;
      i := i + 1;
    }
    LastTermVanishes(a, b', result);
  }

  // ----- clmul is multiplication of polynomials modulo x^n

  lemma {:induction false} ClmulIsRingMultiplication(a: Word, b: Word, c: Word)
    requires |a| == |b| == |c|
    ensures LowProduct(a, b) == LowProduct(b, a)
    ensures LowProduct(LowProduct(a, b), c) == LowProduct(a, LowProduct(b, c))
    ensures LowProduct(a, Xor(b, c)) == Xor(LowProduct(a, b), LowProduct(a, c))
    ensures LowProduct(a, One(|a|)) == a
  {
    var n := |a|;
    ProductRingLaws(a, b, c);
    forall k | 0 <= k < n
      ensures LowProduct(LowProduct(a, b), c)[k] == LowProduct(a, LowProduct(b, c))[k]
    {
      CoefficientIsLocal(LowProduct(a, b), c, Product(a, b), c, k);
      CoefficientAssociates(a, b, c, k);
      CoefficientIsLocal(a, Product(b, c), a, LowProduct(b, c), k);
    }
    forall k | 0 <= k < n
      ensures LowProduct(a, One(n))[k] == a[k]
    {
      CoefficientOfOne(a, n, k);
    }
  }

  // ----- the three instructions fit together

  lemma {:induction false} HighAndLowAreTheFullProduct(a: Word, b: Word)
    requires |a| == |b|
    ensures LowProduct(a, b) + HighProduct(a, b) == Product(a, b)
    ensures Value(HighProduct(a, b)) * Pow2(|a|) + Value(LowProduct(a, b)) == Value(Product(a, b))
    ensures HighProduct(a, b) == HighProduct(b, a)
  {
    ProductRingLaws(a, b, []);
    var lo, hi := LowProduct(a, b), HighProduct(a, b);
    assert lo + hi == Product(a, b);
    ValueOfConcatenation(lo, hi);
  }

  /** Shifting clmulr right by one gives clmulh, because the top bit of the full product is always 0. */
  lemma {:induction false} ClmulrShiftedIsClmulh(a: Word, b: Word)
    requires |a| == |b| > 0
    ensures Shr(MiddleProduct(a, b), 1) == HighProduct(a, b)
  {
    var n, full, shifted := |a|, Product(a, b), Shr(MiddleProduct(a, b), 1);
    assert |full| == 2 * n && |shifted| == n;
    ProductHoldsEveryCoefficient(a, b, 2 * n - 1);
    assert !Bit(full, 2 * n - 1);
    forall k | 0 <= k < n ensures shifted[k] == full[n + k] {
      assert shifted[k] == Bit(MiddleProduct(a, b), k + 1);
    }
  }

  lemma ReverseBits(a: Word)
    ensures forall i: int :: Bit(Reverse(a), i) == Bit(a, |a| - 1 - i)
  {
  }

  lemma {:induction false} ClmulrIsReversedClmul(a: Word, b: Word)
    requires |a| == |b| > 0
    ensures MiddleProduct(a, b) == Reverse(LowProduct(Reverse(a), Reverse(b)))
  {
    var n, ra, rb := |a|, Reverse(a), Reverse(b);
    assert |ra| == |rb| == n;
    ReverseBits(a);
    ReverseBits(b);
    var low := LowProduct(ra, rb);
    ReverseBits(low);
    forall k | 0 <= k < n
      ensures MiddleProduct(a, b)[k] == Bit(low, n - 1 - k)
    {
      MiddleBit(a, b, k);
      ParityReversed(n, Terms(ra, rb, n - 1 - k), Terms(a, b, k + (n - 1)));
      assert low[n - 1 - k] == Coefficient(ra, rb, n - 1 - k);
    }
    assert MiddleProduct(a, b) == Reverse(low);
  }

  /** The 32-bit loop computes what the 64-bit one does exactly when it loses nothing: b's top bit is clear or a is 0. */
  lemma {:induction false} ClmulrRv32IsExactIff(a: Word, b: Word)
    requires |a| == |b| > 0
    ensures MiddleProduct(a, ClearTop(b)) == MiddleProduct(a, b) <==> !b[|b| - 1] || a == Zero(|a|)
  {
    var n := |a|;
    forall k | 0 <= k < n
      ensures MiddleProduct(a, b)[k] == (MiddleProduct(a, ClearTop(b))[k] != (b[n - 1] && a[k]))
    {
      MiddleBit(a, b, k);
      MiddleBit(a, ClearTop(b), k);
      ParityCongruence(n - 1, Terms(a, b, k + (n - 1)), Terms(a, ClearTop(b), k + (n - 1)));
    }
    if b[n - 1] && MiddleProduct(a, ClearTop(b)) == MiddleProduct(a, b) {
      forall k | 0 <= k < n ensures !a[k] {
        assert MiddleProduct(a, ClearTop(b))[k] == MiddleProduct(a, b)[k];
      }
      assert a == Zero(n);
    }
  }

  /** 1 times x^31: the 32-bit loop returns 0 where bits 31 to 62 of the product are 1. */
  lemma {:induction false} ClmulrRv32LosesTheTopBit()
    ensures var a, b := One(32), Reverse(One(32));
      MiddleProduct(a, ClearTop(b)) == Zero(32) && MiddleProduct(a, b) == One(32)
  {
    var a, b := One(32), Reverse(One(32));
    assert |a| == 32 && |b| == 32;
    ReverseBits(a);
    assert forall k | 0 <= k < 32 :: a[k] == (k == 0);
    assert forall k | 0 <= k < 32 :: b[k] == Bit(b, k);
    assert forall k | 0 <= k < 32 :: b[k] == (k == 31);
    assert ClearTop(b) == Zero(32);
    forall k | 0 <= k < 32
      ensures MiddleProduct(a, Zero(32))[k] == false && MiddleProduct(a, b)[k] == (k == 0)
    {
      MiddleBit(a, Zero(32), k);
      MiddleBit(a, b, k);
      ParityOfZeros(32, Terms(a, Zero(32), k + 31));
      CoefficientCommutes(a, b, k + 31);
      CoefficientOfOne(b, 32, k + 31);
    }
    assert MiddleProduct(a, Zero(32)) == Zero(32);
    assert MiddleProduct(a, b) == One(32);
  }
}
