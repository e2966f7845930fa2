/** The multiply and divide instructions of the M extension. A register of n bits is described by h = 2^(n-1): its
    unsigned values are below 2 * h and its signed values lie in [-h, h). The wide type of twice the width has
    half-modulus 2 * h * h. The source has h = 2^31 and h = 2^63. */
module MultiplyDivide {
  import opened Arithmetic

  const HALF32: nat := 0x8000_0000
  const HALF64: nat := 0x8000_0000_0000_0000

  predicate IsSigned(h: nat, v: int) {
    -(h as int) <= v < h
  }

  /** Conversion to the signed type: the remainder modulo 2 * h, in two's complement. */
  function ToSigned(h: nat, v: int): int
    requires h > 0
  {
    var r := v % (2 * h);
    if r < h then r else r - 2 * h
  }

  function ToUnsigned(h: nat, v: int): nat
    requires h > 0
  {
    v % (2 * h)
  }

  function WideHalf(h: nat): (w: nat)
    requires h > 0
    ensures w > 0
  {
    MulMonotone(1, h, h);
    2 * h * h
  }

  // ----- multiplication; operands are unsigned register contents, read as signed where the instruction does

  function Mul(h: nat, a: nat, b: nat): nat
    requires h > 0
  {
    var cWide := ToSigned(WideHalf(h), ToSigned(h, a) * ToSigned(h, b));
    ToUnsigned(h, cWide)
  }

  function Mulh(h: nat, a: nat, b: nat): int
    requires h > 0
  {
    var cWide := ToSigned(WideHalf(h), ToSigned(h, a) * ToSigned(h, b));
    ToSigned(h, cWide / (2 * h))
  }

  function Mulhu(h: nat, a: nat, b: nat): nat
    requires h > 0
  {
    var cWide := ToUnsigned(WideHalf(h), a * b);
    ToUnsigned(h, cWide / (2 * h))
  }

  /** The 32-bit route: a signed and an unsigned wide operand are multiplied as unsigned and read back as signed. */
  function MulhsuWrapped(h: nat, a: nat, b: nat): int
    requires h > 0
  {
    var cWide := ToSigned(WideHalf(h), ToUnsigned(WideHalf(h), ToUnsigned(WideHalf(h), ToSigned(h, a)) * b));
    ToSigned(h, cWide / (2 * h))
  }

  /** The 64-bit route: negate, multiply unsigned, negate back. */
  method MulhsuNegated(h: nat, a: nat, b: nat) returns (c: int)
    requires h > 0 && b < 2 * h
    ensures c == ToSigned(h, a) * b / (2 * h)
  {
    var negate := false;
    var aWide := ToSigned(h, a);
    ToSignedRange(h, a);
    if aWide < 0 {
      negate := true;
      aWide := -aWide;
    }
    var aU: nat := aWide;
    var cUWide := ToUnsigned(WideHalf(h), aU * b);
    var cWide := ToSigned(WideHalf(h), cUWide);
    MagnitudeFits(h, aU, b);
    if negate {
      cWide := -cWide;
    }
    c := ToSigned(h, cWide / (2 * h));
    assert cWide == ToSigned(h, a) * b;
    ProductsFit(h, ToSigned(h, a), 0, b);
    WideValue(h, ToSigned(h, a) * b);
  }

  lemma MagnitudeFits(h: nat, aU: nat, b: nat)
    requires 0 < h && aU <= h && b < 2 * h
    ensures ToUnsigned(WideHalf(h), aU * b) == aU * b
    ensures ToSigned(WideHalf(h), aU * b) == aU * b
  {
    MagnitudeBound(aU, b, h, 2 * h - 1);
    assert h * (2 * h - 1) == 2 * h * h - h;
    DivModUnique(aU * b, 0, aU * b, 2 * WideHalf(h));
    ToSignedId(WideHalf(h), aU * b);
  }

  // ----- facts about the conversions

  lemma ToSignedRange(h: nat, v: int)
    requires h > 0
    ensures IsSigned(h, ToSigned(h, v))
  {
  }

  lemma ToSignedId(h: nat, v: int)
    requires h > 0 && IsSigned(h, v)
    ensures ToSigned(h, v) == v
  {
    if v >= 0 {
      DivModUnique(v, 0, v, 2 * h);
    } else {
      DivModUnique(v, -1, v + 2 * h, 2 * h);
    }
  }

  lemma ToSignedIsCongruent(h: nat, v: int) returns (k: int)
    requires h > 0
    ensures ToSigned(h, v) == v + k * (2 * h)
  {
    var q := v / (2 * h);
    k := if v % (2 * h) < h then -q else -q - 1;
    assert v == q * (2 * h) + v % (2 * h);
  }

  lemma ToSignedIgnoresMultiples(h: nat, v: int, k: int)
    requires h > 0
    ensures ToSigned(h, v + k * (2 * h)) == ToSigned(h, v)
  {
    ModShift(v, k, 2 * h);
  }

  /** Everything between the least and the greatest mixed product is representable in the wide type, and its high
      part in the narrow one. */
  lemma WideValue(h: nat, p: int)
    requires h > 0 && IsSigned(WideHalf(h), p)
    ensures ToSigned(WideHalf(h), p) == p
    ensures ToSigned(h, p / (2 * h)) == p / (2 * h)
    ensures p == p / (2 * h) * (2 * h) + p % (2 * h)
  {
    ToSignedId(WideHalf(h), p);
    QuotientBounds(p, 2 * h, h);
    ToSignedId(h, p / (2 * h));
  }

  lemma OneBelow(k: nat, m: nat)
    ensures (-(k as int) - 1) * m == -(m * k) - m
  {
  }

  lemma QuotientBounds(p: int, m: nat, k: nat)
    requires m > 0 && -(m * k) <= p < m * k
    ensures -(k as int) <= p / m < k
  {
    var q := p / m;
    assert p == m * q + p % m;
    OneBelow(k, m);
    if q >= k {
      MulMonotone(k, q, m);
    } else if q < -(k as int) {
      MulMonotone(q, -(k as int) - 1, m);
    }
  }

  lemma ProductsFit(h: nat, x: int, y: int, z: int)
    requires h > 0 && IsSigned(h, x) && IsSigned(h, y) && 0 <= z < 2 * h
    ensures IsSigned(WideHalf(h), x * y) && IsSigned(WideHalf(h), x * z)
  {
    MagnitudeBound(x, y, h, h);
    MagnitudeBound(x, z, h, 2 * h - 1);
    MulMonotone(1, h, h);
    assert h * (2 * h - 1) == 2 * h * h - h;
    assert 2 * h * h == h * h + h * h;
  }

  lemma MagnitudeBound(x: int, y: int, boundX: nat, boundY: nat)
    requires -(boundX as int) <= x <= boundX && -(boundY as int) <= y <= boundY
    ensures -(boundX * boundY) <= x * y <= boundX * boundY
  {
  }

  // ----- the high and low halves are the whole product

  /** Signed high half over the low half is the exact signed product. */
  lemma SignedHalves(h: nat, a: nat, b: nat)
    requires h > 0 && a < 2 * h && b < 2 * h
    ensures Mulh(h, a, b) * (2 * h) + Mul(h, a, b) == ToSigned(h, a) * ToSigned(h, b)
    ensures IsSigned(h, Mulh(h, a, b)) && Mul(h, a, b) < 2 * h
  {
    var x, y := ToSigned(h, a), ToSigned(h, b);
    ProductsFit(h, x, y, 0);
    WideValue(h, x * y);
    ToSignedRange(h, x * y / (2 * h));
  }

  lemma UnsignedHalves(h: nat, a: nat, b: nat)
    requires h > 0 && a < 2 * h && b < 2 * h
    ensures Mulhu(h, a, b) * (2 * h) + Mul(h, a, b) == a * b
    ensures Mulhu(h, a, b) < 2 * h
  {
    MulIsLowHalf(h, a, b);
    var p, m := a * b, 2 * h;
    ProductBelowSquare(a, b, m);
    WideModulus(h);
    HalvesOfWide(p, m);
    assert Mulhu(h, a, b) == p % (m * m) / m % m;
  }

  lemma HalvesOfWide(p: nat, m: nat)
    requires m > 0 && p < m * m
    ensures p % (m * m) / m % m == p / m < m
    ensures p / m * m + p % m == p
  {
    DivModUnique(p, 0, p, m * m);
    QuotientBounds(p, m, m);
    DivModUnique(p / m, 0, p / m, m);
  }

  lemma WideModulus(h: nat)
    requires h > 0
    ensures 2 * WideHalf(h) == 2 * h * (2 * h)
  {
  }

  /** The low half does not depend on how the operands are read. */
  lemma MulIsLowHalf(h: nat, a: nat, b: nat)
    requires h > 0 && a < 2 * h && b < 2 * h
    ensures Mul(h, a, b) == a * b % (2 * h)
    ensures Mul(h, a, b) == ToSigned(h, a) * b % (2 * h)
  {
    var x, y := ToSigned(h, a), ToSigned(h, b);
    ProductsFit(h, x, y, 0);
    WideValue(h, x * y);
    var j := ToSignedIsCongruent(h, a);
    var k := ToSignedIsCongruent(h, b);
    CongruentFactor(x, a, j, b, 2 * h);
    CongruentFactor(y, b, k, x, 2 * h);
  }

  /** Both mulhsu routes are the floor of the mixed product over 2^n, so high over low is the exact mixed product. */
  lemma MixedHalves(h: nat, a: nat, b: nat)
    requires h > 0 && a < 2 * h && b < 2 * h
    ensures MulhsuWrapped(h, a, b) == ToSigned(h, a) * b / (2 * h)
    ensures MulhsuWrapped(h, a, b) * (2 * h) + Mul(h, a, b) == ToSigned(h, a) * b
    ensures IsSigned(h, MulhsuWrapped(h, a, b))
  {
    var w, x := WideHalf(h), ToSigned(h, a);
    var k := x / (2 * w);
    assert ToUnsigned(w, x) == x - k * (2 * w);
    assert ToUnsigned(w, x) * b == x * b + (-k * b) * (2 * w);
    ModShift(x * b, -k * b, 2 * w);
    var q := x * b / (2 * w);
    assert x * b % (2 * w) == x * b + (-q) * (2 * w);
    ToSignedIgnoresMultiples(w, x * b, -q);
    ProductsFit(h, x, 0, b);
    WideValue(h, x * b);
    MulIsLowHalf(h, a, b);
    ToSignedRange(h, x * b / (2 * h));
  }

  // ----- division; operands are signed or unsigned values

  function Abs(x: int): nat {
    if x < 0 then -x else x
  }

  /** C++ division truncates towards zero. */
  function Quotient(a: int, b: int): int
    requires b != 0
  {
    if (a < 0) == (b < 0) then Abs(a) / Abs(b) else -(Abs(a) / Abs(b))
  }

  function Remainder(a: int, b: int): int
    requires b != 0
  {
    if a < 0 then -(Abs(a) % Abs(b)) else Abs(a) % Abs(b)
  }

  function Div(h: nat, a: int, b: int): int {
    if b == 0 then -1
    else if b == -1 && a == -(h as int) then -(h as int)
    else Quotient(a, b)
  }

  function Rem(h: nat, a: int, b: int): int {
    if b == 0 then a
    else if b == -1 && a == -(h as int) then 0
    else Remainder(a, b)
  }

  function Divu(h: nat, a: nat, b: nat): int {
    if b == 0 then 2 * h - 1 else a / b
  }

  function Remu(a: nat, b: nat): nat {
    if b == 0 then a else a % b
  }

  /** r is what is left of a after taking q times b: smaller than b, and not of the opposite sign to a. */
  predicate Divides(a: int, b: int, q: int, r: int) {
    && a == q * b + r
    && Abs(r) < Abs(b)
    && (r > 0 ==> a > 0)
    && (r < 0 ==> a < 0)
  }

  lemma TruncatedDivides(a: int, b: int)
    requires b != 0
    ensures Divides(a, b, Quotient(a, b), Remainder(a, b))
  {
  }

  lemma DividesIsUnique(a: int, b: int, q: int, r: int, q': int, r': int)
    requires Divides(a, b, q, r) && Divides(a, b, q', r')
    ensures q == q' && r == r'
  {
    var k := if b < 0 then q' - q else q - q';
    DifferenceOfMultiples(q, q', b);
    assert k * Abs(b) == r' - r;
    if k != 0 {
      NonzeroMultiple(k, Abs(b));
    }
  }

  /** The one case in which the quotient is not representable. */
  predicate Overflows(h: nat, a: int, b: int) {
    a == -(h as int) && b == -1
  }

  /** Signed division in all cases: the results are representable, and a = div * b + rem modulo 2^n, exactly so
      unless the least value is divided by -1. */
  lemma SignedDivision(h: nat, a: int, b: int)
    requires h > 0 && IsSigned(h, a) && IsSigned(h, b)
    ensures var q, r := Div(h, a, b), Rem(h, a, b);
      && IsSigned(h, q) && IsSigned(h, r)
      && (q * b + r - a) % (2 * h) == 0
      && (q * b + r == a <==> !Overflows(h, a, b))
  {
    if b == 0 {
      assert Div(h, a, b) * b == 0;
      DivModUnique(0, 0, 0, 2 * h);
    } else if Overflows(h, a, b) {
      DivModUnique(2 * h, 1, 0, 2 * h);
    } else {
      DivisionIsTheOnlyPair(h, a, b);
      QuotientInRange(h, a, b);
      DivModUnique(0, 0, 0, 2 * h);
    }
  }

  /** Outside division by zero and overflow, div and rem are the only pair with |rem| < |b| and a remainder not of the
      opposite sign to a. */
  lemma DivisionIsTheOnlyPair(h: nat, a: int, b: int)
    requires b != 0 && !Overflows(h, a, b)
    ensures Divides(a, b, Div(h, a, b), Rem(h, a, b))
    ensures forall q: int, r: int :: Divides(a, b, q, r) ==> q == Div(h, a, b) && r == Rem(h, a, b)
  {
    TruncatedDivides(a, b);
    OnlyPair(a, b);
  }

  lemma OnlyPair(a: int, b: int)
    requires b != 0
    ensures forall q: int, r: int :: Divides(a, b, q, r) ==> q == Quotient(a, b) && r == Remainder(a, b)
  {
    TruncatedDivides(a, b);
    forall q: int, r: int | Divides(a, b, q, r) ensures q == Quotient(a, b) && r == Remainder(a, b) {
      DividesIsUnique(a, b, q, r, Quotient(a, b), Remainder(a, b));
    }
  }

  lemma QuotientInRange(h: nat, a: int, b: int)
    requires IsSigned(h, a) && IsSigned(h, b) && b != 0 && !(a == -(h as int) && b == -1)
    ensures IsSigned(h, Quotient(a, b)) && IsSigned(h, Remainder(a, b))
  {
    var x, y := Abs(a), Abs(b);
    hide IsSigned;
    DivModSplit(x, y);
    QuotientIsSmaller(x, y);
    PartsInRange(h, a, b, x / y, x % y);
  }

  lemma PartsInRange(h: nat, a: int, b: int, q: int, r: int)
    requires IsSigned(h, a) && IsSigned(h, b) && b != 0 && !(a == -(h as int) && b == -1)
    requires 0 <= q <= Abs(a) && (Abs(b) >= 2 ==> 2 * q <= Abs(a)) && 0 <= r < Abs(b)
    ensures IsSigned(h, if (a < 0) == (b < 0) then q else -q)
    ensures IsSigned(h, if a < 0 then -r else r)
  {
  }

  /** Division by zero sets every bit of the quotient and leaves the dividend as the remainder; the least value divided
      by -1 is itself, with remainder 0. */
  lemma SpecialDivisions(h: nat, a: int, b: nat)
    requires h > 0
    ensures ToUnsigned(h, Div(h, a, 0)) == 2 * h - 1 == Divu(h, b, 0)
    ensures Rem(h, a, 0) == a && Remu(b, 0) == b
    ensures Div(h, -(h as int), -1) == -(h as int) && Rem(h, -(h as int), -1) == 0
  {
    DivModUnique(-1, -1, 2 * h - 1, 2 * h);
  }

  lemma UnsignedDivision(h: nat, a: nat, b: nat)
    requires h > 0 && a < 2 * h && b < 2 * h
    ensures var q, r := Divu(h, a, b), Remu(a, b);
      && 0 <= q < 2 * h && r < 2 * h
      && q * b + r == a
      && (b != 0 ==> r < b)
  {
    if b != 0 {
      DivModSplit(a, b);
      QuotientIsSmaller(a, b);
    }
  }

  // ----- the w forms of RV64: 64-bit register contents in, a signed 64-bit value out

  function MulW(a: nat, b: nat): int {
    ToSigned(HALF32, ToSigned(HALF32, a) * ToSigned(HALF32, b))
  }

  function DivW(a: nat, b: nat): int {
    var x, y := ToSigned(HALF32, a), ToSigned(HALF32, b);
    if y == 0 then -1
    else if y == -1 && x == -(HALF32 as int) then -(HALF32 as int)
    else Quotient(x, y)
  }

  /** Division by zero returns the greatest unsigned 64-bit value, converted to the signed 64-bit type. */
  function DivuW(a: nat, b: nat): int {
    var x, y := ToUnsigned(HALF32, a), ToUnsigned(HALF32, b);
    if y == 0 then ToSigned(HALF64, 2 * HALF64 - 1) else ToSigned(HALF32, x / y)
  }

  function RemW(a: nat, b: nat): int {
    var x, y := ToSigned(HALF32, a), ToSigned(HALF32, b);
    if y == 0 then x
    else if y == -1 && x == -(HALF32 as int) then 0
    else Remainder(x, y)
  }

  function RemuW(a: nat, b: nat): int {
    var x, y := ToUnsigned(HALF32, a), ToUnsigned(HALF32, b);
    if y == 0 then ToSigned(HALF32, x) else ToSigned(HALF32, x % y)
  }

  /** Every w form is the 32-bit instruction on the low halves, with its result sign-extended. */
  lemma WordForms(a: nat, b: nat)
    ensures var al, bl := ToUnsigned(HALF32, a), ToUnsigned(HALF32, b);
      && MulW(a, b) == ToSigned(HALF32, Mul(HALF32, al, bl))
      && DivW(a, b) == Div(HALF32, ToSigned(HALF32, al), ToSigned(HALF32, bl))
      && RemW(a, b) == Rem(HALF32, ToSigned(HALF32, al), ToSigned(HALF32, bl))
      && DivuW(a, b) == ToSigned(HALF32, Divu(HALF32, al, bl))
      && RemuW(a, b) == ToSigned(HALF32, Remu(al, bl))
  {
    LowHalfIsRead(a);
    LowHalfIsRead(b);
    WordMultiply(a, b);
    assert ToSigned(HALF64, 2 * HALF64 - 1) == -1 == ToSigned(HALF32, 2 * HALF32 - 1);
  }

  lemma WordMultiply(a: nat, b: nat)
    ensures MulW(a, b) == ToSigned(HALF32, Mul(HALF32, ToUnsigned(HALF32, a), ToUnsigned(HALF32, b)))
  {
    var al, bl := ToUnsigned(HALF32, a), ToUnsigned(HALF32, b);
    LowHalfIsRead(a);
    LowHalfIsRead(b);
    MulIsLowHalf(HALF32, al, bl);
    var x, y := ToSigned(HALF32, al), ToSigned(HALF32, bl);
    var k := ToSignedIsCongruent(HALF32, bl);
    CongruentFactor(y, bl, k, x, 2 * HALF32);
    ReducedFirst(x * y);
  }

  lemma LowHalfIsRead(a: nat)
    ensures ToSigned(HALF32, ToUnsigned(HALF32, a)) == ToSigned(HALF32, a)
  {
  }

  lemma ReducedFirst(v: int)
    ensures ToSigned(HALF32, v % (2 * HALF32)) == ToSigned(HALF32, v)
  {
  }

  /** The same cases of the w forms, with the low halves as numbers. */
  lemma SpecialWordDivisions(a: nat, b: nat)
    ensures var al, bl := a % 0x1_0000_0000, b % 0x1_0000_0000;
      var x := if al < 0x8000_0000 then al else al - 0x1_0000_0000;
      && (bl == 0 ==> DivW(a, b) == DivuW(a, b) == -1 && RemW(a, b) == RemuW(a, b) == x)
      && (al == 0x8000_0000 && bl == 0xffff_ffff ==> DivW(a, b) == -0x8000_0000 && RemW(a, b) == 0)
  {
  }
}
