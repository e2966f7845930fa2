/** rev8, orc.b and the rotates, each in the two implementations the source has, on words of any whole number of bytes. */
module BitPermutations {
  import opened Arithmetic
  import opened Words

  ghost predicate WholeBytes(a: Word) {
    |a| % 8 == 0
  }

  // ----- rev8

  /** Where bit k goes when the bytes of an n-bit word are reversed: the same place in the opposite byte. */
  function Mirror(n: nat, k: int): int {
    n - 8 - 8 * (k / 8) + k % 8
  }

  lemma MirrorTwice(n: nat, k: nat)
    requires n % 8 == 0 && k < n
    ensures 0 <= Mirror(n, k) < n && Mirror(n, Mirror(n, k)) == k
  {
    var q, r := k / 8, k % 8;
    var m := n / 8 - 1 - q;
    DivModUnique(Mirror(n, k), m, r, 8);
  }

  /** a with its bytes in the opposite order. */
  function BytesReversed(a: Word): Word {
    seq(|a|, k => Bit(a, Mirror(|a|, k)))
  }

  /** The word whose low byte is all ones. */
  function ByteMask(n: nat): Word {
    seq(n, k => k < 8)
  }

  /** The bytes below byte i of a have been moved, in the opposite order, to the bottom of result. */
  ghost predicate MovedBelow(a: Word, i: nat, result: Word) {
    && |result| == |a|
    && forall k | 0 <= k < |a| :: result[k] == (k < 8 * i && Bit(a, 8 * i - 8 - 8 * (k / 8) + k % 8))
  }

  /** x is a shifted right by i bytes. */
  ghost predicate Remaining(a: Word, i: nat, x: Word) {
    && |x| == |a|
    && forall k | 0 <= k < |a| :: x[k] == Bit(a, k + 8 * i)
  }

  lemma OneByteLessRemaining(a: Word, i: nat, x: Word)
    requires Remaining(a, i, x)
    ensures Remaining(a, i + 1, Shr(x, 8))
  {
    var y := Shr(x, 8);
    forall k | 0 <= k < |a| ensures y[k] == Bit(a, k + 8 * (i + 1)) {
      assert y[k] == Bit(x, k + 8);
    }
  }

  lemma MoveOneByte(a: Word, i: nat, x: Word, result: Word)
    requires MovedBelow(a, i, result) && Remaining(a, i, x)
    ensures MovedBelow(a, i + 1, Or(Shl(result, 8), And(x, ByteMask(|a|))))
  {
    var moved := Or(Shl(result, 8), And(x, ByteMask(|a|)));
    forall k | 0 <= k < |a|
      ensures moved[k] == (k < 8 * (i + 1) && Bit(a, 8 * (i + 1) - 8 - 8 * (k / 8) + k % 8))
    {
      assert moved[k] == (Bit(result, k - 8) || (x[k] && k < 8));
      if k >= 8 {
        DivModUnique(k - 8, k / 8 - 1, k % 8, 8);
      } else {
        DivModUnique(k, 0, k, 8);
      }
    }
  }

  method Rev8Shift(a: Word) returns (result: Word)
    requires WholeBytes(a)
    ensures result == BytesReversed(a)
  {
    result := Zero(|a|);
    var x := a;
    var i := 0;
    while i < |a| / 8
      invariant 0 <= i <= |a| / 8
      invariant Remaining(a, i, x)
      invariant MovedBelow(a, i, result)
    {
      MoveOneByte(a, i, x, result);
      OneByteLessRemaining(a, i, x);
      result := Shl(result, 8);
      result := Or(result, And(x, ByteMask(|a|)));
      x := Shr(x, 8);
      i := i + 1;
    }
    AllMoved(a, result);
  }

  lemma AllMoved(a: Word, result: Word)
    requires WholeBytes(a) && MovedBelow(a, |a| / 8, result)
    ensures result == BytesReversed(a)
  {
  }

  /** The word made of the given bytes, lowest first. */
  function Joined(bytes: seq<Word>): Word
    requires forall b | b in bytes :: |b| == 8
  {
    seq(8 * |bytes|, k requires 0 <= k < 8 * |bytes| => bytes[k / 8][k % 8])
  }

  method Rev8Span(a: Word) returns (result: Word)
    requires WholeBytes(a)
    ensures result == BytesReversed(a)
  {
    var m := |a| / 8;
    var output := new Word[m](_ => Zero(8));
    var i := 0;
    while i < m
      invariant 0 <= i <= m
      invariant forall q | 0 <= q < m :: |output[q]| == 8
      invariant forall q | m - i <= q < m :: output[q] == a[8 * (m - 1 - q)..8 * (m - 1 - q) + 8]
    {
      output[m - 1 - i] := a[8 * i..8 * i + 8];
      i := i + 1;
    }
    result := Joined(output[..]);
  }

  /** Byte q of the result is byte q of the operand, counted from the other end. */
  lemma Rev8MovesBytes(a: Word, q: nat)
    requires WholeBytes(a) && 8 * q < |a|
    ensures |BytesReversed(a)| == |a|
    ensures BytesReversed(a)[8 * q..8 * q + 8] == a[|a| - 8 * q - 8..|a| - 8 * q]
  {
    var moved, original := BytesReversed(a)[8 * q..8 * q + 8], a[|a| - 8 * q - 8..|a| - 8 * q];
    forall i | 0 <= i < 8 ensures moved[i] == original[i] {
      ReversedBit(a, q, i);
    }
  }

  // ----- orc.b

  ghost predicate ByteIsNonzero(a: Word, q: nat) {
    exists j :: 8 * q <= j < 8 * q + 8 && Bit(a, j)
  }

  /** Every nonzero byte becomes all ones. */
  ghost function NonzeroBytesFilled(a: Word): Word {
    seq(|a|, k requires 0 <= k => ByteIsNonzero(a, k / 8))
  }

  /** The bytes below byte i are filled, the others still zero. */
  ghost predicate FilledBelow(a: Word, i: nat, result: Word) {
    && |result| == |a|
    && forall k | 0 <= k < |a| :: result[k] == (k < 8 * i && ByteIsNonzero(a, k / 8))
  }

  lemma MaskedTest(a: Word, mask: Word, i: nat)
    requires |mask| == |a| && forall k | 0 <= k < |a| :: mask[k] == (8 * i <= k < 8 * i + 8)
    ensures And(a, mask) != Zero(|a|) <==> ByteIsNonzero(a, i)
  {
    if ByteIsNonzero(a, i) {
      var j :| 8 * i <= j < 8 * i + 8 && Bit(a, j);
      assert And(a, mask)[j] && !Zero(|a|)[j];
    } else {
      forall k | 0 <= k < |a| ensures !And(a, mask)[k] {
        assert 8 * i <= k < 8 * i + 8 ==> !Bit(a, k);
      }
      assert And(a, mask) == Zero(|a|);
    }
  }

  method OrcbRunningMask(a: Word) returns (result: Word)
    requires WholeBytes(a)
    ensures result == NonzeroBytesFilled(a)
  {
    var mask := ByteMask(|a|);
    result := Zero(|a|);
    var i := 0;
    while i < |a| / 8
      invariant 0 <= i <= |a| / 8
      invariant |mask| == |a| && forall k | 0 <= k < |a| :: mask[k] == (8 * i <= k < 8 * i + 8)
      invariant FilledBelow(a, i, result)
    {
      MaskedTest(a, mask, i);
      if And(a, mask) != Zero(|a|) {
        result := Or(result, mask);
      }
      mask := Shl(mask, 8);
      i := i + 1;
    }
  }

  lemma IndexedMask(n: nat, i: nat)
    ensures var mask := Shl(ByteMask(n), 8 * i);
      |mask| == n && forall k | 0 <= k < n :: mask[k] == (8 * i <= k < 8 * i + 8)
  {
    var ones := ByteMask(n);
    assert |ones| == n && forall k: int :: Bit(ones, k) == (0 <= k < n && k < 8);
    var mask := Shl(ones, 8 * i);
    forall k | 0 <= k < n ensures mask[k] == (8 * i <= k < 8 * i + 8) {
      assert mask[k] == Bit(ones, k - 8 * i);
    }
  }

  method OrcbIndexedMask(a: Word) returns (result: Word)
    requires WholeBytes(a)
    ensures result == NonzeroBytesFilled(a)
  {
    result := Zero(|a|);
    var i := 0;
    while i < |a| / 8
      invariant 0 <= i <= |a| / 8
      invariant FilledBelow(a, i, result)
    {
      var mask := Shl(ByteMask(|a|), 8 * i);
      IndexedMask(|a|, i);
      MaskedTest(a, mask, i);
      if And(a, mask) != Zero(|a|) {
        result := Or(result, mask);
      }
      i := i + 1;
    }
  }

  lemma Rev8IsAnInvolution(a: Word)
    requires WholeBytes(a)
    ensures BytesReversed(BytesReversed(a)) == a
  {
    var r := BytesReversed(a);
    forall k | 0 <= k < |a| ensures BytesReversed(r)[k] == a[k] {
      MirrorTwice(|a|, k);
      assert r[Mirror(|a|, k)] == Bit(a, k);
    }
  }

  /** Every byte of the result is all ones where the operand's byte differs from 0, and 0 where it does not. */
  lemma OrcbFillsBytes(a: Word, q: nat)
    requires WholeBytes(a) && 8 * q < |a|
    ensures |NonzeroBytesFilled(a)| == |a|
    ensures NonzeroBytesFilled(a)[8 * q..8 * q + 8]
         == if a[8 * q..8 * q + 8] != Zero(8) then seq(8, _ => true) else Zero(8)
  {
    var filled, b := NonzeroBytesFilled(a)[8 * q..8 * q + 8], a[8 * q..8 * q + 8];
    forall i | 0 <= i < 8 ensures filled[i] == ByteIsNonzero(a, q) {
      DivModUnique(8 * q + i, q, i, 8);
    }
    if ByteIsNonzero(a, q) {
      var j :| 8 * q <= j < 8 * q + 8 && Bit(a, j);
      assert b[j - 8 * q] && !Zero(8)[j - 8 * q];
    } else {
      forall i | 0 <= i < 8 ensures !b[i] {
        assert b[i] == Bit(a, 8 * q + i);
      }
      assert b == Zero(8);
    }
  }

  lemma OrcbIsIdempotent(a: Word)
    requires WholeBytes(a)
    ensures NonzeroBytesFilled(NonzeroBytesFilled(a)) == NonzeroBytesFilled(a)
  {
    var r := NonzeroBytesFilled(a);
    forall k | 0 <= k < |a| ensures ByteIsNonzero(r, k / 8) == ByteIsNonzero(a, k / 8) {
      assert r[k] == Bit(r, k);
    }
  }

  lemma OrcbCommutesWithRev8(a: Word)
    requires WholeBytes(a)
    ensures NonzeroBytesFilled(BytesReversed(a)) == BytesReversed(NonzeroBytesFilled(a))
  {
    var r, m := BytesReversed(a), |a| / 8;
    var left, right := NonzeroBytesFilled(r), BytesReversed(NonzeroBytesFilled(a));
    assert |r| == |left| == |right| == |a|;
    forall k | 0 <= k < |a| ensures left[k] == right[k] {
      ReversedByteIsNonzero(a, k / 8);
    }
  }

  lemma ReversedByteIsNonzero(a: Word, q: nat)
    requires WholeBytes(a) && q < |a| / 8
    ensures ByteIsNonzero(BytesReversed(a), q) == ByteIsNonzero(a, |a| / 8 - 1 - q)
  {
    var r, p := BytesReversed(a), |a| / 8 - 1 - q;
    if ByteIsNonzero(r, q) {
      var j :| 8 * q <= j < 8 * q + 8 && Bit(r, j);
      ReversedBit(a, q, j - 8 * q);
      assert Bit(a, 8 * p + (j - 8 * q));
    }
    if ByteIsNonzero(a, p) {
      var j :| 8 * p <= j < 8 * p + 8 && Bit(a, j);
      ReversedBit(a, q, j - 8 * p);
      assert Bit(r, 8 * q + (j - 8 * p));
    }
  }

  lemma ReversedBit(a: Word, q: nat, i: nat)
    requires WholeBytes(a) && q < |a| / 8 && i < 8
    ensures Bit(BytesReversed(a), 8 * q + i) == Bit(a, 8 * (|a| / 8 - 1 - q) + i)
  {
    var k := 8 * q + i;
    assert k / 8 == q && k % 8 == i;
    assert BytesReversed(a)[k] == Bit(a, Mirror(|a|, k));
  }

  // ----- rotates

  /** a rotated left by s places: bit k moves to place k + s modulo the width. */
  function RotatedLeft(a: Word, s: nat): (r: Word)
    requires s < |a|
    ensures |r| == |a|
  {
    seq(|a|, k requires 0 <= k < |a| => a[if k >= s then k - s else k - s + |a|])
  }

  function RotatedRight(a: Word, s: nat): (r: Word)
    requires s < |a|
    ensures |r| == |a|
  {
    seq(|a|, k requires 0 <= k < |a| => a[if k + s < |a| then k + s else k + s - |a|])
  }

  /** The rotate amount `b & (2^j - 1)`; a word of width 32 has j = 5 and one of width 64 has j = 6. */
  function Shamt(b: Word, j: nat): (s: nat)
    requires j <= |b|
    ensures s < Pow2(j)
  {
    Value(b[..j])
  }

  function RolBy(a: Word, shamt: nat): (r: Word)
    requires shamt < |a|
    ensures |r| == |a|
  {
    if shamt == 0 then a else Or(Shl(a, shamt), Shr(a, |a| - shamt))
  }

  function RorBy(a: Word, shamt: nat): (r: Word)
    requires shamt < |a|
    ensures |r| == |a|
  {
    if shamt == 0 then a else Or(Shr(a, shamt), Shl(a, |a| - shamt))
  }

  function RolTwoShifts(a: Word, b: Word, j: nat): (r: Word)
    requires j <= |b| && |a| == Pow2(j)
    ensures |r| == |a|
  {
    RolBy(a, Shamt(b, j))
  }

  function RorTwoShifts(a: Word, b: Word, j: nat): (r: Word)
    requires j <= |b| && |a| == Pow2(j)
    ensures |r| == |a|
  {
    RorBy(a, Shamt(b, j))
  }

  lemma TwoShiftsRotate(a: Word, b: Word, j: nat)
    requires j <= |b| && |a| == Pow2(j)
    ensures RolTwoShifts(a, b, j) == RotatedLeft(a, Shamt(b, j))
    ensures RorTwoShifts(a, b, j) == RotatedRight(a, Shamt(b, j))
  {
    var s, n := Shamt(b, j), |a|;
    var l, r := RolBy(a, s), RorBy(a, s);
    assert |Shl(a, s)| == |Shr(a, n - s)| == |Shr(a, s)| == |Shl(a, n - s)| == n;
    assert |l| == |r| == n;
    forall k | 0 <= k < n ensures l[k] == RotatedLeft(a, s)[k] && r[k] == RotatedRight(a, s)[k] {
      assert s > 0 ==> l[k] == (Bit(a, k - s) || Bit(a, k + (n - s)));
      assert s > 0 ==> r[k] == (Bit(a, k + s) || Bit(a, k - (n - s)));
    }
    assert l == RotatedLeft(a, s) && r == RotatedRight(a, s);
  }

  lemma RotatedBit(a: Word, s: nat, k: nat)
    requires s < |a| && k < |a|
    ensures RotatedLeft(a, s)[(k + s) % |a|] == a[k]
    ensures RotatedRight(a, s)[(k - s) % |a|] == a[k]
  {
    var n := |a|;
    SumModuloWidth(k, s, n);
    if k >= s {
      DivModUnique(k - s, 0, k - s, n);
    } else {
      DivModUnique(k - s, -1, k - s + n, n);
    }
  }

  /** rol moves every bit up, and ror down, by the number in the second register, modulo the width. */
  lemma RotatesMoveBits(a: Word, b: Word, j: nat, k: nat)
    requires j <= |b| && |a| == Pow2(j) && k < |a|
    ensures RolTwoShifts(a, b, j)[(k + Value(b)) % |a|] == a[k]
    ensures RorTwoShifts(a, b, j)[(k - Value(b)) % |a|] == a[k]
  {
    hide RotatedLeft, RotatedRight, RolTwoShifts, RorTwoShifts, Value;
    CutIsDivision(b, j);
    TwoShiftsRotate(a, b, j);
    RotatedBit(a, Shamt(b, j), k);
    AmountModuloWidth(k, Value(b), |a|);
  }

  lemma AmountModuloWidth(k: nat, v: nat, n: nat)
    requires n > 0
    ensures (k + v % n) % n == (k + v) % n && (k - v % n) % n == (k - v) % n
  {
    DivModSplit(v, n);
    ModShift(k + v % n, v / n, n);
    ModShift(k - v, v / n, n);
  }

  /** Rotates compose by adding amounts modulo the width, and ror undoes rol. */
  lemma RotatesCompose(a: Word, b: Word, c: Word, j: nat)
    requires j <= |b| && j <= |c| && |a| == Pow2(j)
    ensures var sum := (Shamt(b, j) + Shamt(c, j)) % |a|;
      && RolTwoShifts(RolTwoShifts(a, b, j), c, j) == RotatedLeft(a, sum)
      && RorTwoShifts(RorTwoShifts(a, b, j), c, j) == RotatedRight(a, sum)
    ensures RorTwoShifts(RolTwoShifts(a, b, j), b, j) == a
    ensures RolTwoShifts(RorTwoShifts(a, b, j), b, j) == a
  {
    hide RotatedLeft, RotatedRight, RolTwoShifts, RorTwoShifts, Shamt;
    var s, t := Shamt(b, j), Shamt(c, j);
    var l, r := RolTwoShifts(a, b, j), RorTwoShifts(a, b, j);
    TwoShiftsRotate(a, b, j);
    TwoShiftsRotate(l, c, j);
    TwoShiftsRotate(r, c, j);
    TwoShiftsRotate(l, b, j);
    TwoShiftsRotate(r, b, j);
    RotationsCompose(a, s, t);
    RotationsCancel(a, s);
  }

  lemma RotationsCompose(a: Word, s: nat, t: nat)
    requires s < |a| && t < |a|
    ensures RotatedLeft(RotatedLeft(a, s), t) == RotatedLeft(a, (s + t) % |a|)
    ensures RotatedRight(RotatedRight(a, s), t) == RotatedRight(a, (s + t) % |a|)
  {
    SumModuloWidth(s, t, |a|);
  }

  lemma RotationsCancel(a: Word, s: nat)
    requires s < |a|
    ensures RotatedRight(RotatedLeft(a, s), s) == a
    ensures RotatedLeft(RotatedRight(a, s), s) == a
  {
  }

  lemma SumModuloWidth(s: nat, t: nat, n: nat)
    requires s < n && t < n
    ensures (s + t) % n == if s + t < n then s + t else s + t - n
  {
    if s + t >= n {
      assert s + t == n + (s + t - n);
      assert (s + t) / n == 1 by {
        assert 1 * n <= s + t < 2 * n;
      }
    }
  }

  // ----- the 32-bit rotates of RV64

  function SignExtended(c: Word): Word
    requires |c| > 0
  {
    c + seq(|c|, _ => c[|c| - 1])
  }

  /** A rotate of the low half, widened by a conversion from the signed 32-bit type. */
  function RolwConverted(a: Word, b: Word): Word
    requires |a| == |b| == 64
  {
    SignExtended(RolTwoShifts(a[..32], b[..32], 5))
  }

  function RorwConverted(a: Word, b: Word): Word
    requires |a| == |b| == 64
  {
    SignExtended(RorTwoShifts(a[..32], b[..32], 5))
  }

  /** A library rotate of the low half, zero-extended and then or-ed with the high mask when bit 31 is set. */
  function WidenedByMask(value: Word): Word
    requires |value| == 32
  {
    var wide := value + Zero(32);
    if And(value, seq(32, k => k == 31)) != Zero(32) then Or(wide, Zero(32) + seq(32, _ => true)) else wide
  }

  function RolwMasked(a: Word, b: Word): Word
    requires |a| == |b| == 64
  {
    assert Pow2(5) == 32;
    WidenedByMask(RotatedLeft(a[..32], Shamt(b, 5)))
  }

  function RorwMasked(a: Word, b: Word): Word
    requires |a| == |b| == 64
  {
    assert Pow2(5) == 32;
    WidenedByMask(RotatedRight(a[..32], Shamt(b, 5)))
  }

  lemma WideningsAgree(value: Word)
    requires |value| == 32
    ensures WidenedByMask(value) == SignExtended(value)
  {
    var mask := seq(32, k => k == 31);
    if value[31] {
      assert And(value, mask)[31] && !Zero(32)[31];
    } else {
      assert And(value, mask) == Zero(32);
    }
  }

  lemma WordRotatesAgree(a: Word, b: Word)
    requires |a| == |b| == 64
    ensures RolwConverted(a, b) == RolwMasked(a, b)
    ensures RorwConverted(a, b) == RorwMasked(a, b)
  {
    assert Pow2(5) == 32;
    assert b[..32][..5] == b[..5];
    TwoShiftsRotate(a[..32], b[..32], 5);
    WideningsAgree(RotatedLeft(a[..32], Shamt(b, 5)));
    WideningsAgree(RotatedRight(a[..32], Shamt(b, 5)));
  }

  /** The w forms move every bit of the low half by the number in the second register, modulo 32, and fill the high
      half with copies of bit 31. */
  lemma WordRotatesMoveBits(a: Word, b: Word, k: nat)
    requires |a| == |b| == 64 && k < 32
    ensures var l, r := RolwConverted(a, b), RorwConverted(a, b);
      && |l| == |r| == 64
      && l[(k + Value(b)) % 32] == a[k] && r[(k - Value(b)) % 32] == a[k]
      && l[32 + k] == l[31] && r[32 + k] == r[31]
  {
    hide RotatedLeft, RotatedRight, RolTwoShifts, RorTwoShifts, Value;
    assert Pow2(5) == 32;
    CutIsDivision(b, 5);
    assert b[..32][..5] == b[..5];
    TwoShiftsRotate(a[..32], b[..32], 5);
    RotatedBit(a[..32], Shamt(b, 5), k);
    AmountModuloWidth(k, Value(b), 32);
  }
}
