/** The counter CSRs: a counter that nobody may write is made to look like a writable register by adding offsets
    to it. On a 32-bit core the 64-bit register is split over two CSRs with an offset each. */
module CounterCsrs {
  import opened Arithmetic
  import opened Halves

  /** The counter, the 32-bit offset of the low CSR and the 64-bit offset of the high CSR. */
  datatype Raw = Raw(count: nat, low: nat, high: nat)

  type State = s: Raw | s.count < TWO64 && s.low < TWO32 && s.high < TWO64 witness Raw(0, 0, 0)

  function Indicator(b: bool): int {
    if b then 1 else 0
  }

  // ----- what the two CSRs return and store

  /** A CSR as wide as `limit` reads the counter plus its offset. */
  function ReadValue(limit: nat, count: nat, offset: nat): nat
    requires limit > 0
  {
    (count % limit + offset) % limit
  }

  function WrittenOffset(limit: nat, count: nat, value: nat): nat
    requires limit > 0
  {
    (value % limit - count % limit) % limit
  }

  function LowRead(s: State): Half {
    ReadValue(TWO32, s.count, s.low)
  }

  /** `(offset_ << 32) | low_offset` is the 64-bit offset. */
  function HighRead(s: State): Half {
    var offset := s.high * TWO32 % TWO64 + s.low;
    (s.count + offset) % TWO64 / TWO32
  }

  function LowSet(s: State, value: nat): State
    requires value < TWO32
  {
    s.(low := WrittenOffset(TWO32, s.count, value))
  }

  function Carry(s: State): bool {
    s.count % TWO32 + s.low >= TWO32
  }

  function HighSet(s: State, value: nat): State
    requires value < TWO32
  {
    s.(high := (value - s.count / TWO32 - Indicator(Carry(s))) % TWO64)
  }

  function LowSetPerformance(s: State, value: nat): State
    requires value < TWO32
  {
    var t := LowSet(s, value);
    t.(low := (t.low - 1) % TWO32)
  }

  function HighSetPerformance(s: State, value: nat): State
    requires value < TWO32
  {
    var t := HighSet(s, value);
    var u := if t.low == 0 then t.(high := (t.high - 1) % TWO64) else t;
    u.(low := (u.low - 1) % TWO32)
  }

  function Advance(s: State, k: nat): State {
    s.(count := (s.count + k) % TWO64)
  }

  // ----- the objects

  class SimpleCounter {
    var value: nat

    ghost predicate Valid()
      reads this
    {
      value < TWO64
    }

    constructor ()
      ensures Valid() && value == 0
    {
      value := 0;
    }

    method Increment(k: nat)
      requires Valid()
      modifies this
      ensures Valid() && value == (old(value) + k) % TWO64
    {
      value := (value + k) % TWO64;
    }
  }

  /** The low half on a 32-bit core (limit 2^32), or the whole register on a 64-bit core (limit 2^64). */
  class CounterCsr {
    const limit: nat
    var offset: nat
    var counter: SimpleCounter?

    ghost predicate Valid()
      reads this, counter
    {
      && (limit == TWO32 || limit == TWO64)
      && offset < limit
      && (counter != null ==> counter.Valid())
    }

    constructor (limit: nat)
      requires limit == TWO32 || limit == TWO64
      ensures Valid() && this.limit == limit && offset == 0 && counter == null && Count() == 0
    {
      this.limit := limit;
      offset := 0;
      counter := null;
    }

    method SetCounter(counter: SimpleCounter)
      requires Valid() && counter.Valid()
      modifies this
      ensures Valid() && this.counter == counter && offset == old(offset) && Count() == counter.value
    {
      this.counter := counter;
    }

    /** Until it is tied to a counter a CSR counts from 0. */
    function Count(): nat
      reads this, counter
    {
      if counter == null then 0 else counter.value
    }

    method Get() returns (value: nat)
      requires Valid()
      ensures value == ReadValue(limit, Count(), offset)
    {
      value := (Count() % limit + offset) % limit;
    }

    method Set(value: nat)
      requires Valid()
      modifies this`offset
      ensures Valid() && offset == WrittenOffset(limit, Count(), value)
      ensures ReadValue(limit, Count(), offset) == value % limit
    {
      offset := (value % limit - Count() % limit) % limit;
      SingleCsrIsARegister(limit, Count(), value, Count());
    }

    /** The override of the performance counter CSRs. */
    method SetPerformance(value: nat)
      requires Valid()
      modifies this`offset
      ensures Valid() && offset == (WrittenOffset(limit, Count(), value) - 1) % limit
      ensures ReadValue(limit, Count() + 1, offset) == value % limit
    {
      SingleCsrIsARegister(limit, Count(), value, Count() + 1);
      Set(value);
      offset := (offset - 1) % limit;
    }
  }

  /** The high half on a 32-bit core. */
  class CounterCsrHigh {
    var offset: nat
    var counter: SimpleCounter?
    const lowCsr: CounterCsr

    ghost predicate Valid()
      reads this, counter, lowCsr, lowCsr.counter
    {
      && lowCsr.Valid() && lowCsr.limit == TWO32
      && offset < TWO64
      && (counter != null ==> counter.Valid())
    }

    ghost function View(): State
      requires Valid()
      reads this, counter, lowCsr, lowCsr.counter
    {
      Raw(Count(), lowCsr.offset, offset)
    }

    /** Both halves count from the same counter. */
    ghost predicate Bound()
      reads this, lowCsr
    {
      lowCsr.counter == counter
    }

    /** The low CSR is the low half of the view: it reads LowRead, and what its two write methods store is what LowSet
        and LowSetPerformance store. */
    lemma LowCsrIsTheLowHalf(value: Half)
      requires Valid() && Bound()
      ensures ReadValue(lowCsr.limit, lowCsr.Count(), lowCsr.offset) == LowRead(View())
      ensures View().(low := WrittenOffset(lowCsr.limit, lowCsr.Count(), value)) == LowSet(View(), value)
      ensures View().(low := (WrittenOffset(lowCsr.limit, lowCsr.Count(), value) - 1) % lowCsr.limit)
           == LowSetPerformance(View(), value)
    {
    }

    constructor (lowCsr: CounterCsr)
      requires lowCsr.Valid() && lowCsr.limit == TWO32
      ensures Valid() && this.lowCsr == lowCsr && View() == Raw(0, lowCsr.offset, 0) && counter == null
    {
      this.lowCsr := lowCsr;
      offset := 0;
      counter := null;
    }

    method SetCounter(counter: SimpleCounter)
      requires Valid() && counter.Valid()
      modifies this
      ensures Valid() && this.counter == counter && View() == old(View()).(count := counter.value)
    {
      this.counter := counter;
    }

    /** A count of the counter both CSRs are tied to, with nothing written, advances the view. */
    twostate lemma CountAdvances(k: nat)
      requires old(Valid()) && Valid() && old(Bound()) && Bound()
      requires counter == old(counter) && counter != null && counter.value == (old(counter.value) + k) % TWO64
      requires offset == old(offset) && lowCsr.offset == old(lowCsr.offset)
      ensures View() == Advance(old(View()), k)
      ensures Read64(View()) == (old(Read64(View())) + k) % TWO64
      ensures ReadValue(lowCsr.limit, lowCsr.Count(), lowCsr.offset) == Read64(View()) % TWO32
    {
      AdvanceAdds(old(View()), k);
      LowCsrIsTheLowHalf(0);
      ReadHalves(View());
    }

    function Count(): nat
      reads this, counter
    {
      if counter == null then 0 else counter.value
    }

    method Get() returns (value: nat)
      requires Valid()
      ensures value == HighRead(View())
    {
      var wide := offset * TWO32 % TWO64 + lowCsr.offset;
      var value64 := (Count() + wide) % TWO64;
      value := value64 / TWO32;
    }

    /** A 64-bit value is truncated to its low half. */
    method Set(value64: nat)
      requires Valid()
      modifies this`offset
      ensures Valid() && View() == HighSet(old(View()), value64 % TWO32)
      ensures HighRead(View()) == value64 % TWO32 && LowRead(View()) == old(LowRead(View()))
    {
      var value := value64 % TWO32;
      HighWriteReplacesTheTopHalf(View(), value);
      var counterVal := Count();
      var counterLow := counterVal % TWO32;
      var carry := counterLow + lowCsr.offset >= TWO32;
      offset := (value - counterVal / TWO32 - Indicator(carry)) % TWO64;
    }

    /** The override of the performance counter CSRs: it also decrements the low CSR's offset. */
    method SetPerformance(value64: nat)
      requires Valid()
      modifies this`offset, lowCsr`offset
      ensures Valid() && View() == HighSetPerformance(old(View()), value64 % TWO32)
      ensures Read64(Advance(View(), 1)) == value64 % TWO32 * TWO32 + old(LowRead(View()))
    {
      var value := value64 % TWO32;
      PerformanceHighWriteTakesEffect(View(), value);
      var counterVal := Count();
      var counterLow := counterVal % TWO32;
      var carry := counterLow + lowCsr.offset >= TWO32;
      offset := (value - counterVal / TWO32 - Indicator(carry)) % TWO64;
      if lowCsr.offset == 0 {
        offset := (offset - 1) % TWO64;
      }
      lowCsr.offset := (lowCsr.offset - 1) % TWO32;
    }
  }

  // ----- one step against a 64-bit register

  /** The register software sees: high half over low half. */
  function Read64(s: State): (r: nat)
    ensures r < TWO64
  {
    HighRead(s) * TWO32 + LowRead(s)
  }

  /** The two reads are the two halves of one 64-bit sum, whatever the offsets are. */
  lemma ReadsAreOneSum(s: State)
    ensures Read64(s) == (s.count + s.high * TWO32 + s.low) % TWO64
    ensures HighRead(s) == (s.count / TWO32 + s.high + Indicator(Carry(s))) % TWO32
  {
    var h := s.count / TWO32 + s.high + Indicator(Carry(s));
    LowSumSplit(s);
    ModOfPair(h, LowRead(s), TWO32);
    ModAbsorbs(s.high * TWO32, s.low + s.count, TWO64);
    assert HighRead(s) == (h * TWO32 + LowRead(s)) % TWO64 / TWO32;
  }

  lemma LowSumSplit(s: State)
    ensures s.count + s.high * TWO32 + s.low
         == (s.count / TWO32 + s.high + Indicator(Carry(s))) * TWO32 + LowRead(s)
  {
  }

  /** A CSR read is determined by the low read and the counter: this is when the low sum carried. */
  lemma CarryIsVisible(s: State)
    ensures Carry(s) <==> LowRead(s) < s.count % TWO32
  {
  }

  /** Before any write the CSRs read the counter itself. */
  lemma UnwrittenReadsTheCounter(limit: nat, count: nat)
    requires limit > 0 && count < TWO64
    ensures ReadValue(limit, count, 0) == count % limit
    ensures Read64(Raw(count, 0, 0)) == count
  {
    DivModUnique(count % limit, 0, count % limit, limit);
    ReadsAreOneSum(Raw(count, 0, 0));
    DivModUnique(count, 0, count, TWO64);
  }

  lemma AdvanceAdds(s: State, k: nat)
    ensures Read64(Advance(s, k)) == (Read64(s) + k) % TWO64
  {
    var offset := s.high * TWO32 + s.low;
    ReadsAreOneSum(s);
    ReadsAreOneSum(Advance(s, k));
    ModAbsorbs(s.count + k, offset, TWO64);
    ModAbsorbs(s.count + offset, k, TWO64);
  }

  lemma HighWriteReplacesTheTopHalf(s: State, value: nat)
    requires value < TWO32
    ensures LowRead(HighSet(s, value)) == LowRead(s)
    ensures HighRead(HighSet(s, value)) == value
  {
    hide HighRead;
    var t := HighSet(s, value);
    ReadsAreOneSum(t);
    WrittenBack(value, s.count / TWO32 + Indicator(Carry(s)), TWO32);
  }

  /** Subtracting the rest modulo m * m and adding it again modulo m gives the value back. */
  lemma WrittenBack(value: nat, rest: int, m: nat)
    requires value < m && m * m > 0
    ensures (rest + (value - rest) % (m * m)) % m == value
  {
    ModOfMod(value - rest, m, m);
    ModAbsorbs((value - rest) % (m * m), rest, m);
    ModAbsorbs(value - rest, rest, m);
    DivModUnique(value, 0, value, m);
  }

  lemma LowWriteIsRead(s: State, value: nat)
    requires value < TWO32
    ensures LowRead(LowSet(s, value)) == value
  {
    ModAbsorbs(value - s.count % TWO32, s.count % TWO32, TWO32);
  }

  lemma LowWriteMovesTheTopHalf(s: State, value: nat)
    requires value < TWO32
    ensures LowRead(LowSet(s, value)) == value
    ensures HighRead(LowSet(s, value)) == (HighRead(s) + Indicator(value < s.count % TWO32) - Indicator(Carry(s))) % TWO32
  {
    hide HighRead, LowRead, WrittenOffset;
    var t := LowSet(s, value);
    LowWriteIsRead(s, value);
    CarryIsVisible(t);
    ReadsAreOneSum(s);
    ReadsAreOneSum(t);
    ModAbsorbs(s.count / TWO32 + s.high + Indicator(Carry(s)), Indicator(Carry(t)) - Indicator(Carry(s)), TWO32);
  }

  /** Low half first, then high half, with no count in between: any value is loaded exactly. */
  lemma LowThenHighLoads(s: State, value: nat)
    requires value < TWO64
    ensures Read64(HighSet(LowSet(s, value % TWO32), value / TWO32)) == value
  {
    LowWriteMovesTheTopHalf(s, value % TWO32);
    HighWriteReplacesTheTopHalf(LowSet(s, value % TWO32), value / TWO32);
  }

  /** In the other order the value is loaded exactly when the low write does not change whether the low sum carries. */
  lemma HighThenLowLoadsIff(s: State, value: nat)
    requires value < TWO64
    ensures Read64(LowSet(HighSet(s, value / TWO32), value % TWO32)) == value
      <==> (value % TWO32 < s.count % TWO32 <==> LowRead(s) < s.count % TWO32)
  {
    var lo, hi := value % TWO32, value / TWO32;
    var t := HighSet(s, hi);
    HighWriteReplacesTheTopHalf(s, hi);
    LowWriteMovesTheTopHalf(t, lo);
    CarryIsVisible(s);
    assert Carry(t) == Carry(s);
    HalfMoves(hi, Indicator(lo < s.count % TWO32), Indicator(Carry(s)));
  }

  lemma HalfMoves(half: nat, up: int, down: int)
    requires half < TWO32 && 0 <= up <= 1 && 0 <= down <= 1
    ensures (half + up - down) % TWO32 == half <==> up == down
  {
  }

  lemma HighThenLowCanMiss()
    ensures var s := Raw(1, 0, 0);
      Read64(LowSet(HighSet(s, 5), 0)) == 6 * TWO32
  {
  }

  // ----- performance writes take effect one count later

  lemma PerformanceLowWriteIsEarly(s: State, value: nat)
    requires value < TWO32
    ensures LowSetPerformance(s, value) == LowSet(s, (value - 1) % TWO32)
  {
    EarlyOffset(value, s.count % TWO32, TWO32);
  }

  lemma EarlyOffset(value: nat, c: int, m: nat)
    requires value < m
    ensures ((value % m - c) % m - 1) % m == ((value - 1) % m % m - c) % m
  {
    var early := (value - 1) % m;
    assert value % m == value by {
      DivModUnique(value, 0, value, m);
    }
    assert early % m == early by {
      DivModUnique(early, 0, early, m);
    }
    assert ((value - c) % m - 1) % m == (value - c - 1) % m by {
      ModAbsorbs(value - c, -1, m);
    }
    assert (early - c) % m == (value - 1 - c) % m by {
      ModAbsorbs(value - 1, -c, m);
    }
  }

  /** The decrements of the two offsets are one 64-bit decrement with borrow. */
  lemma PerformanceHighWriteIsEarly(s: State, value: nat)
    requires value < TWO32
    ensures Read64(HighSetPerformance(s, value)) == (value * TWO32 + LowRead(s) - 1) % TWO64
  {
    var t, u := HighSet(s, value), HighSetPerformance(s, value);
    HighWriteReplacesTheTopHalf(s, value);
    ReadsAreOneSum(t);
    ReadsAreOneSum(u);
    var wraps := BorrowIsOneDecrement(t, u);
    var sum := t.count + t.high * TWO32 + t.low;
    ModShift(sum - 1, wraps, TWO64);
    ModAbsorbs(sum, -1, TWO64);
  }

  lemma BorrowIsOneDecrement(t: State, u: State) returns (wraps: nat)
    requires u.count == t.count
    requires u.high == if t.low == 0 then (t.high - 1) % TWO64 else t.high
    requires u.low == (t.low - 1) % TWO32
    ensures u.count + u.high * TWO32 + u.low == t.count + t.high * TWO32 + t.low - 1 + wraps * TWO64
  {
    wraps := if t.low == 0 && t.high == 0 then TWO32 else 0;
    if t.low != 0 {
      assert u.low == t.low - 1;
    } else {
      assert u.low == TWO32 - 1;
      assert u.high == if t.high == 0 then TWO64 - 1 else t.high - 1;
    }
  }

  /** After a high performance write and one count, the register reads the new top half over the old bottom half. */
  lemma PerformanceHighWriteTakesEffect(s: State, value: nat)
    requires value < TWO32
    ensures Read64(Advance(HighSetPerformance(s, value), 1)) == value * TWO32 + LowRead(s)
  {
    PerformanceHighWriteIsEarly(s, value);
    AdvanceAdds(HighSetPerformance(s, value), 1);
    var target := value * TWO32 + LowRead(s);
    ModAbsorbs(target - 1, 1, TWO64);
    DivModUnique(target, 0, target, TWO64);
  }

  /** After a low performance write and one count, the low half reads the value; the top half moves as stated. */
  lemma PerformanceLowWriteTakesEffect(s: State, value: nat)
    requires value < TWO32
    ensures var t := Advance(LowSetPerformance(s, value), 1);
      && LowRead(t) == value
      && HighRead(t) == (HighRead(s) + Indicator(value <= s.count % TWO32) - Indicator(Carry(s))) % TWO32
  {
    var early := (value - 1) % TWO32;
    PerformanceLowWriteIsEarly(s, value);
    LowWriteMovesTheTopHalf(s, early);
    var u := LowSet(s, early);
    AdvanceAdds(u, 1);
    PairPlusOne(HighRead(s), Indicator(early < s.count % TWO32) - Indicator(Carry(s)), value);
    var t := Advance(u, 1);
    MovesAgree(early, value, s.count % TWO32);
    var high := (HighRead(s) + Indicator(value <= s.count % TWO32) - Indicator(Carry(s))) % TWO32;
    SameHalves(HighRead(t), LowRead(t), high, value);
  }

  lemma MovesAgree(early: nat, value: Half, c: Half)
    requires early == (value - 1) % TWO32
    ensures Indicator(early < c) + Indicator(value == 0) == Indicator(value <= c)
  {
  }

  /** Adding 1 to a register whose low half is one below value. */
  lemma PairPlusOne(half: nat, move: int, value: nat)
    requires value < TWO32
    ensures ((half + move) % TWO32 * TWO32 + (value - 1) % TWO32 + 1) % TWO64
         == (half + move + Indicator(value == 0)) % TWO32 * TWO32 + value
  {
    var hi := (half + move) % TWO32;
    assert hi * TWO32 + (value - 1) % TWO32 + 1 == (hi + Indicator(value == 0)) * TWO32 + value;
    ModOfPair(hi + Indicator(value == 0), value, TWO32);
    ModAbsorbs(half + move, Indicator(value == 0), TWO32);
  }

  lemma SameHalves(hi: nat, lo: nat, hi': nat, lo': nat)
    requires lo < TWO32 && lo' < TWO32 && hi * TWO32 + lo == hi' * TWO32 + lo'
    ensures hi == hi' && lo == lo'
  {
  }

  /** Low performance write, one count, high performance write, one count: any value is loaded exactly. */
  lemma PerformanceWritesLoad(s: State, value: nat)
    requires value < TWO64
    ensures var t := Advance(LowSetPerformance(s, value % TWO32), 1);
      Read64(Advance(HighSetPerformance(t, value / TWO32), 1)) == value
  {
    PerformanceLowWriteTakesEffect(s, value % TWO32);
    PerformanceHighWriteTakesEffect(Advance(LowSetPerformance(s, value % TWO32), 1), value / TWO32);
  }

  // ----- whole runs against a 64-bit register

  datatype Event =
    | Count(k: nat)
    | WriteLow(v: Half)
    | WriteHigh(v: Half)
    | PerformanceWriteLow(v: Half)
    | PerformanceWriteHigh(v: Half)

  function Step(s: State, e: Event): State {
    match e
    case Count(k) => Advance(s, k)
    case WriteLow(v) => LowSet(s, v)
    case WriteHigh(v) => HighSet(s, v)
    case PerformanceWriteLow(v) => LowSetPerformance(s, v)
    case PerformanceWriteHigh(v) => HighSetPerformance(s, v)
  }

  function Run(s: State, es: seq<Event>): State {
    if es == [] then s else Step(Run(s, es[..|es| - 1]), es[|es| - 1])
  }

  function CountAfter(count: nat, es: seq<Event>): nat {
    if es == [] then count
    else
      var before := CountAfter(count, es[..|es| - 1]);
      if es[|es| - 1].Count? then (before + es[|es| - 1].k) % TWO64 else before
  }

  /** The register whose low writes disturb the top half, as a function of the register and the counter alone. */
  function DisturbedStep(reg: nat, count: nat, e: Event): nat {
    var hi, lo, c := reg / TWO32, reg % TWO32, count % TWO32;
    match e
    case Count(k) => (reg + k) % TWO64
    case WriteHigh(v) => v * TWO32 + lo
    case PerformanceWriteHigh(v) => (v * TWO32 + lo - 1) % TWO64
    case WriteLow(v) => (hi + Indicator(v < c) - Indicator(lo < c)) % TWO32 * TWO32 + v
    case PerformanceWriteLow(v) =>
      var early := (v - 1) % TWO32;
      (hi + Indicator(early < c) - Indicator(lo < c)) % TWO32 * TWO32 + early
  }

  function DisturbedRun(reg: nat, count: nat, es: seq<Event>): nat {
    if es == [] then reg
    else
      var before := es[..|es| - 1];
      DisturbedStep(DisturbedRun(reg, count, before), CountAfter(count, before), es[|es| - 1])
  }

  /** The plain 64-bit register: a low write keeps the top half, and a performance write lands one count later. */
  function PlainStep(reg: nat, e: Event): nat {
    var hi, lo := reg / TWO32, reg % TWO32;
    match e
    case Count(k) => (reg + k) % TWO64
    case WriteHigh(v) => v * TWO32 + lo
    case PerformanceWriteHigh(v) => (v * TWO32 + lo - 1) % TWO64
    case WriteLow(v) => hi * TWO32 + v
    case PerformanceWriteLow(v) => (hi * TWO32 + v - 1) % TWO64
  }

  function PlainRun(reg: nat, es: seq<Event>): nat {
    if es == [] then reg else PlainStep(PlainRun(reg, es[..|es| - 1]), es[|es| - 1])
  }

  /** A low write that does not change whether the counter's low half c has passed the register's low half lo. */
  predicate KeepsTopHalf(lo: nat, c: nat, e: Event) {
    match e
    case WriteLow(v) => v < c <==> lo < c
    case PerformanceWriteLow(v) => v <= c <==> lo < c
    case _ => true
  }

  lemma ReadHalves(s: State)
    ensures Read64(s) / TWO32 == HighRead(s) && Read64(s) % TWO32 == LowRead(s)
  {
    DivModUnique(Read64(s), HighRead(s), LowRead(s), TWO32);
  }

  lemma StepRefinesDisturbed(s: State, e: Event)
    ensures Read64(Step(s, e)) == DisturbedStep(Read64(s), s.count, e)
  {
    hide HighRead, LowRead, Carry, LowSet, HighSet, LowSetPerformance, HighSetPerformance, Advance;
    ReadHalves(s);
    match e
    case Count(k) => AdvanceAdds(s, k);
    case WriteHigh(v) => HighWriteReplacesTheTopHalf(s, v);
    case PerformanceWriteHigh(v) => PerformanceHighWriteIsEarly(s, v);
    case WriteLow(v) => LowWriteIsDisturbed(s, v);
    case PerformanceWriteLow(v) =>
      PerformanceLowWriteIsEarly(s, v);
      LowWriteIsDisturbed(s, (v - 1) % TWO32);
  }

  lemma LowWriteIsDisturbed(s: State, v: Half)
    ensures Read64(LowSet(s, v))
         == (HighRead(s) + Indicator(v < s.count % TWO32) - Indicator(LowRead(s) < s.count % TWO32)) % TWO32 * TWO32 + v
  {
    hide HighRead, LowRead, Carry, LowSet;
    CarryIsVisible(s);
    LowWriteMovesTheTopHalf(s, v);
  }

  /** Over every run the two CSRs read exactly the disturbed register. */
  lemma {:induction false} RunRefinesDisturbed(s: State, es: seq<Event>)
    ensures Run(s, es).count == CountAfter(s.count, es)
    ensures Read64(Run(s, es)) == DisturbedRun(Read64(s), s.count, es)
  {
    hide Step, DisturbedStep, Read64;
    if es == [] {
    } else {
      var before := es[..|es| - 1];
      RunRefinesDisturbed(s, before);
      StepRefinesDisturbed(Run(s, before), es[|es| - 1]);
      StepCount(Run(s, before), es[|es| - 1]);
    }
  }

  lemma StepCount(s: State, e: Event)
    ensures Step(s, e).count == if e.Count? then (s.count + e.k) % TWO64 else s.count
  {
  }

  lemma DisturbedIsPlainIff(s: State, e: Event)
    ensures Read64(Step(s, e)) == PlainStep(Read64(s), e) <==> KeepsTopHalf(LowRead(s), s.count % TWO32, e)
  {
    StepRefinesDisturbed(s, e);
    match e
    case WriteLow(v) => LowIsPlainIff(s, v);
    case PerformanceWriteLow(v) => EarlyLowIsPlainIff(s, v);
    case _ =>
  }

  lemma LowIsPlainIff(s: State, v: Half)
    ensures Read64(LowSet(s, v)) == PlainStep(Read64(s), WriteLow(v))
      <==> KeepsTopHalf(LowRead(s), s.count % TWO32, WriteLow(v))
  {
    hide HighRead, LowRead, Carry, LowSet;
    LowWriteMovesTheTopHalf(s, v);
    CarryIsVisible(s);
    ReadHalves(s);
    HalfMoves(HighRead(s), Indicator(v < s.count % TWO32), Indicator(Carry(s)));
  }

  lemma EarlyLowIsPlainIff(s: State, v: Half)
    ensures Read64(LowSetPerformance(s, v)) == PlainStep(Read64(s), PerformanceWriteLow(v))
      <==> KeepsTopHalf(LowRead(s), s.count % TWO32, PerformanceWriteLow(v))
  {
    hide HighRead, LowRead, Carry, LowSetPerformance, Advance;
    var t := LowSetPerformance(s, v);
    PerformanceLowWriteTakesEffect(s, v);
    CarryIsVisible(s);
    HalfMoves(HighRead(s), Indicator(v <= s.count % TWO32), Indicator(Carry(s)));
    AdvanceAdds(t, 1);
    ReadHalves(s);
    ReadHalves(Advance(t, 1));
    DelayedByOne(Read64(t), HighRead(s) * TWO32 + v, Read64(Advance(t, 1)));
  }

  /** Two registers agree exactly when they agree after one more count. */
  lemma DelayedByOne(reg: nat, target: nat, later: nat)
    requires reg < TWO64 && target < TWO64 && later == (reg + 1) % TWO64
    ensures reg == (target - 1) % TWO64 <==> later == target
  {
  }

  /** The low half is never disturbed: it is the plain register's low half after every step. */
  lemma StepLowIsPlain(s: State, reg: nat, e: Event)
    requires LowRead(s) == reg % TWO32
    ensures LowRead(Step(s, e)) == PlainStep(reg, e) % TWO32
  {
    hide HighRead, LowRead, Carry, LowSet, HighSet, LowSetPerformance, HighSetPerformance, Advance, PlainStep;
    StepRefinesDisturbed(s, e);
    ReadHalves(s);
    ReadHalves(Step(s, e));
    DisturbedLowIsPlain(Read64(s), reg, s.count, e);
  }

  lemma DisturbedLowIsPlain(reg: nat, plain: nat, count: nat, e: Event)
    requires reg % TWO32 == plain % TWO32
    ensures DisturbedStep(reg, count, e) % TWO32 == PlainStep(plain, e) % TWO32
  {
    match e
    case Count(k) => LowOfSum(reg, plain, k);
    case WriteLow(v) => LowWriteLow(reg, plain, count, v);
    case WriteHigh(v) =>
    case PerformanceWriteLow(v) => LowWriteLow(reg, plain, count, (v - 1) % TWO32);
      LowOfPair(plain / TWO32, v - 1);
      LowOfPair(plain / TWO32, (v - 1) % TWO32);
    case PerformanceWriteHigh(v) =>
  }

  lemma LowOfSum(x: int, y: int, k: int)
    requires x % TWO32 == y % TWO32
    ensures (x + k) % TWO64 % TWO32 == (y + k) % TWO64 % TWO32
  {
    ModOfMod(x + k, TWO32, TWO32);
    ModOfMod(y + k, TWO32, TWO32);
    ModAbsorbs(x, k, TWO32);
    ModAbsorbs(y, k, TWO32);
  }

  lemma LowOfPair(h: int, z: int)
    ensures (h * TWO32 + z) % TWO32 == z % TWO32
    ensures (h * TWO32 + z) % TWO64 % TWO32 == z % TWO32
  {
    ModShift(z, h, TWO32);
    ModOfMod(h * TWO32 + z, TWO32, TWO32);
  }

  lemma LowWriteLow(reg: nat, plain: nat, count: nat, v: Half)
    ensures DisturbedStep(reg, count, WriteLow(v)) % TWO32 == v == PlainStep(plain, WriteLow(v)) % TWO32
  {
    var c := count % TWO32;
    LowOfPair((reg / TWO32 + Indicator(v < c) - Indicator(reg % TWO32 < c)) % TWO32, v);
    LowOfPair(plain / TWO32, v);
    DivModUnique(v, 0, v, TWO32);
  }

  lemma {:induction false} RunLowIsPlain(s: State, es: seq<Event>)
    ensures LowRead(Run(s, es)) == PlainRun(Read64(s), es) % TWO32
  {
    if es == [] {
      ReadHalves(s);
    } else {
      var before := es[..|es| - 1];
      RunLowIsPlain(s, before);
      StepLowIsPlain(Run(s, before), PlainRun(Read64(s), before), es[|es| - 1]);
    }
  }

  /** The condition of KeepsTopHalf before event i, in terms of the plain register and the counter at the start. */
  predicate KeptAt(reg: nat, count: nat, es: seq<Event>, i: nat)
    requires i < |es|
  {
    KeepsTopHalf(PlainRun(reg, es[..i]) % TWO32, CountAfter(count, es[..i]) % TWO32, es[i])
  }

  /** A run is, at every step, a run of the plain 64-bit register exactly when no low write disturbs the top half. The
      condition is about the plain register, the counter and the events alone. */
  lemma RunIsPlainIff(s: State, es: seq<Event>)
    ensures (forall i | 0 <= i <= |es| :: Read64(Run(s, es[..i])) == PlainRun(Read64(s), es[..i]))
       <==> (forall i | 0 <= i < |es| :: KeptAt(Read64(s), s.count, es, i))
  {
    if forall i | 0 <= i <= |es| :: Read64(Run(s, es[..i])) == PlainRun(Read64(s), es[..i]) {
      forall i | 0 <= i < |es| ensures KeptAt(Read64(s), s.count, es, i) {
        assert Read64(Run(s, es[..i + 1])) == PlainRun(Read64(s), es[..i + 1]);
        assert Read64(Run(s, es[..i])) == PlainRun(Read64(s), es[..i]);
        PlainAtIff(s, es, i);
      }
    }
    if forall i | 0 <= i < |es| :: KeptAt(Read64(s), s.count, es, i) {
      forall i | 0 <= i <= |es| ensures Read64(Run(s, es[..i])) == PlainRun(Read64(s), es[..i]) {
        UndisturbedPrefixIsPlain(s, es, i);
      }
    }
  }

  lemma PlainAtIff(s: State, es: seq<Event>, i: nat)
    requires i < |es| && Read64(Run(s, es[..i])) == PlainRun(Read64(s), es[..i])
    ensures Read64(Run(s, es[..i + 1])) == PlainRun(Read64(s), es[..i + 1]) <==> KeptAt(Read64(s), s.count, es, i)
  {
    hide Step, Read64, PlainStep, KeepsTopHalf;
    RunExtends(s, es, i);
    RunLowIsPlain(s, es[..i]);
    RunRefinesDisturbed(s, es[..i]);
    DisturbedIsPlainIff(Run(s, es[..i]), es[i]);
  }

  lemma RunExtends(s: State, es: seq<Event>, i: nat)
    requires i < |es|
    ensures Run(s, es[..i + 1]) == Step(Run(s, es[..i]), es[i])
    ensures PlainRun(Read64(s), es[..i + 1]) == PlainStep(PlainRun(Read64(s), es[..i]), es[i])
  {
    assert es[..i + 1][..i] == es[..i];
  }

  lemma {:induction false} UndisturbedPrefixIsPlain(s: State, es: seq<Event>, i: nat)
    requires i <= |es| && forall j | 0 <= j < |es| :: KeptAt(Read64(s), s.count, es, j)
    ensures Read64(Run(s, es[..i])) == PlainRun(Read64(s), es[..i])
  {
    if i == 0 {
    } else {
      UndisturbedPrefixIsPlain(s, es, i - 1);
      PlainAtIff(s, es, i - 1);
      assert KeptAt(Read64(s), s.count, es, i - 1);
    }
  }

  // ----- the 64-bit core

  /** One CSR of any width is an exact register: it reads a written value plus the counts since, and a performance
      write one count later. */
  lemma SingleCsrIsARegister(limit: nat, count: nat, value: nat, later: nat)
    requires limit > 0 && later >= count
    ensures ReadValue(limit, later, WrittenOffset(limit, count, value)) == (value + later - count) % limit
    ensures ReadValue(limit, later, (WrittenOffset(limit, count, value) - 1) % limit) == (value + later - count - 1) % limit
  {
    var x := value % limit - count % limit;
    RegisterValue(x, later, limit);
    ModAbsorbs(x, -1, limit);
    RegisterValue(x - 1, later, limit);
    RemaindersCombine(value, count, later, limit);
  }

  lemma RegisterValue(x: int, later: nat, m: nat)
    requires m > 0
    ensures (later % m + x % m) % m == (x + later % m) % m
  {
    ModAbsorbs(x, later % m, m);
  }

  lemma RemaindersCombine(value: int, count: int, later: int, m: nat)
    requires m > 0
    ensures (value % m - count % m + later % m) % m == (value + later - count) % m
    ensures (value % m - count % m - 1 + later % m) % m == (value + later - count - 1) % m
  {
    DivModSplit(value, m);
    DivModSplit(count, m);
    DivModSplit(later, m);
    var x := value % m - count % m + later % m;
    var k := value / m - count / m + later / m;
    Distribute(value / m, count / m, later / m, m);
    ModShift(x, k, m);
    ModShift(x - 1, k, m);
  }

  lemma Distribute(p: int, q: int, r: int, m: int)
    ensures (p - q + r) * m == p * m - q * m + r * m
  {
  }
}
