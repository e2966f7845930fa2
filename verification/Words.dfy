/** Machine words of a fixed width, as bit sequences: index 0 is the least significant bit.
    A C++ `uint32_t` is a Word of length 32 and a `uint64_t` one of length 64. */
module Words {
  import opened Arithmetic

  type Word = seq<bool>

  /** Bit i of w, reading zeros outside the word. */
  function Bit(w: Word, i: int): bool {
    0 <= i < |w| && w[i]
  }

  function Zero(n: nat): Word {
    seq(n, _ => false)
  }

  function One(n: nat): Word {
    seq(n, k => k == 0)
  }

  function Xor(a: Word, b: Word): Word
    requires |a| == |b|
  {
    seq(|a|, k requires 0 <= k < |a| => a[k] != b[k])
  }

  function And(a: Word, b: Word): Word
    requires |a| == |b|
  {
    seq(|a|, k requires 0 <= k < |a| => a[k] && b[k])
  }

  function Or(a: Word, b: Word): Word
    requires |a| == |b|
  {
    seq(|a|, k requires 0 <= k < |a| => a[k] || b[k])
  }

  /** `a << s`: bits shifted past the width are lost. */
  function Shl(a: Word, s: nat): Word {
    seq(|a|, k => Bit(a, k - s))
  }

  /** `a >> s` on an unsigned word. */
  function Shr(a: Word, s: nat): Word {
    seq(|a|, k => Bit(a, k + s))
  }

  function Reverse(a: Word): Word {
    seq(|a|, k => Bit(a, |a| - 1 - k))
  }

  function Pow2(n: nat): (p: nat)
    ensures p > 0
  {
    if n == 0 then 1 else 2 * Pow2(n - 1)
  }

  /** The unsigned number a word stands for. */
  function Value(w: Word): (v: nat)
    ensures v < Pow2(|w|)
  {
    if w == [] then 0 else (if w[0] then 1 else 0) + 2 * Value(w[1..])
  }

  lemma {:induction false} ValueOfConcatenation(lo: Word, hi: Word)
    ensures Value(lo + hi) == Value(hi) * Pow2(|lo|) + Value(lo)
  {
    if lo == [] {
      assert lo + hi == hi;
    } else {
      ValueOfConcatenation(lo[1..], hi);
      assert (lo + hi)[1..] == lo[1..] + hi;
      Doubled(Value(hi), Pow2(|lo| - 1));
    }
  }

  lemma Doubled(v: nat, p: nat)
    ensures v * (2 * p) == 2 * (v * p)
  {
  }

  lemma {:induction false} PowersAdd(m: nat, n: nat)
    ensures Pow2(0) == 1 && Pow2(1) == 2
    ensures Pow2(m + n) == Pow2(m) * Pow2(n)
  {
    if m == 0 {
    } else {
      PowersAdd(m - 1, n);
      assert Pow2(m + n) == 2 * Pow2(m - 1 + n);
    }
  }

  lemma {:induction false} ValueOfZero(n: nat)
    ensures Value(Zero(n)) == 0
  {
    if n == 0 {
    } else {
      ValueOfZero(n - 1);
      assert Zero(n)[1..] == Zero(n - 1);
    }
  }

  /** Cutting a word in two is division with remainder by a power of two. */
  lemma CutIsDivision(a: Word, s: nat)
    requires s <= |a|
    ensures Value(a[..s]) == Value(a) % Pow2(s)
    ensures Value(a[s..]) == Value(a) / Pow2(s)
  {
    hide Value, Pow2;
    assert a == a[..s] + a[s..];
    ValueOfConcatenation(a[..s], a[s..]);
    DivModUnique(Value(a), Value(a[s..]), Value(a[..s]), Pow2(s));
  }

  lemma LowBit(w: Word)
    requires w != []
    ensures Value(w) % 2 == if w[0] then 1 else 0
  {
    hide Pow2;
    DivModUnique(Value(w), Value(w[1..]), if w[0] then 1 else 0, 2);
  }

  /** Bit k of a word is binary digit k of its number. */
  lemma BitsAreDigits(w: Word, k: nat)
    requires k < |w|
    ensures w[k] <==> Value(w) / Pow2(k) % 2 == 1
  {
    hide Pow2;
    CutIsDivision(w, k);
    LowBit(w[k..]);
  }

  /** The shifts of bit sequences are the shifts of the unsigned numbers they stand for. */
  lemma ShiftsAreArithmetic(a: Word, s: nat)
    requires s <= |a|
    ensures Value(Shl(a, s)) == Value(a) * Pow2(s) % Pow2(|a|)
    ensures Value(Shr(a, s)) == Value(a) / Pow2(s)
  {
    hide *;
    ShlMultiplies(a, s);
    ShrDivides(a, s);
  }

  lemma ShrDivides(a: Word, s: nat)
    requires s <= |a|
    ensures Value(Shr(a, s)) == Value(a) / Pow2(s)
  {
    hide Value, Pow2, Shr;
    ShiftsAreCuts(a, s);
    ValueOfZero(s);
    ValueOfConcatenation(a[s..], Zero(s));
    CutIsDivision(a, s);
    assert 0 * Pow2(|a| - s) == 0;
  }

  lemma ShlMultiplies(a: Word, s: nat)
    requires s <= |a|
    ensures Value(Shl(a, s)) == Value(a) * Pow2(s) % Pow2(|a|)
  {
    hide Value, Pow2, Shl;
    var n := |a|;
    var lo, hi := a[..n - s], a[n - s..];
    ShiftsAreCuts(a, s);
    ValueOfZero(s);
    ValueOfConcatenation(Zero(s), lo);
    CutIsDivision(a, n - s);
    PowersAdd(n - s, s);
    DivModSplit(Value(a), Pow2(n - s));
    ShiftedOut(Value(lo), Value(hi), Pow2(n - s), Pow2(s));
    assert Value(Zero(s) + lo) == Value(lo) * Pow2(s);
  }

  lemma ShiftsAreCuts(a: Word, s: nat)
    requires s <= |a|
    ensures Shl(a, s) == Zero(s) + a[..|a| - s]
    ensures Shr(a, s) == a[s..] + Zero(s)
  {
    var l, r := Shl(a, s), Shr(a, s);
    forall k | 0 <= k < |a| ensures l[k] == (Zero(s) + a[..|a| - s])[k] && r[k] == (a[s..] + Zero(s))[k] {
      assert l[k] == Bit(a, k - s) && r[k] == Bit(a, k + s);
    }
  }

  lemma ShiftedOut(lo: nat, hi: nat, p: nat, q: nat)
    requires lo < p && q > 0 && p * q > 0
    ensures (hi * p + lo) * q % (p * q) == lo * q
  {
    MulMonotone(lo + 1, p, q);
    assert (lo + 1) * q == lo * q + q;
    assert (hi * p + lo) * q == hi * (p * q) + lo * q;
    DivModUnique((hi * p + lo) * q, hi, lo * q, p * q);
  }
}
