/** The core-local interrupt controller: a prescaled timer, a compare register and an interrupt line that is driven
    only when its level changes. */
module Clint {
  import opened Arithmetic
  import opened Halves

  const MSIP: nat := 0x0000
  const MTIMECMP: nat := 0x4000
  const MTIME: nat := 0xbff8

  /** One call on the interface of the mip register. */
  datatype MipCall = SetMtip(level: bool) | SetMsip(level: bool)

  datatype Raw = Raw(msip: nat, mtime: nat, mtimecmp: nat, mtip: bool, updateCounter: nat, mipCalls: seq<MipCall>)

  type State = s: Raw | s.msip < 2 && s.mtime < TWO64 && s.mtimecmp < TWO64 witness Raw(0, 0, 0, false, 0, [])

  // ----- the operations on values

  /** Compare, and drive the line if the level is a new one. */
  function Notified(s: State): State {
    var bit := s.mtime >= s.mtimecmp;
    if bit == s.mtip then s
    else s.(mtip := bit, mipCalls := s.mipCalls + [SetMtip(bit)])
  }

  /** One call of SetValue. */
  function Ticked(p: nat, s: State): State {
    var t := s.(updateCounter := s.updateCounter + 1);
    if t.updateCounter >= p
    then Notified(t.(updateCounter := 0, mtime := (t.mtime + 1) % TWO64))
    else t
  }

  function WithLow(reg: nat, value: nat): nat {
    reg / TWO32 * TWO32 + value
  }

  function WithHigh(reg: nat, value: nat): nat {
    value * TWO32 + reg % TWO32
  }

  function MSipWritten(s: State, value: Half): State {
    s.(msip := value % 2, mipCalls := s.mipCalls + [SetMsip(value % 2 == 1)])
  }

  /** A 4-byte store at an offset. */
  function Written(s: State, offset: nat, value: Half): State {
    if offset == MSIP then MSipWritten(s, value)
    else if offset == MTIMECMP then Notified(s.(mtimecmp := WithLow(s.mtimecmp, value)))
    else if offset == MTIMECMP + 4 then Notified(s.(mtimecmp := WithHigh(s.mtimecmp, value)))
    else if offset == MTIME then s.(mtime := WithLow(s.mtime, value), updateCounter := 0)
    else if offset == MTIME + 4 then s.(mtime := WithHigh(s.mtime, value))
    else s
  }

  function ReadAt(s: State, offset: nat): Half {
    if offset == MSIP then s.msip
    else if offset == MTIMECMP then s.mtimecmp % TWO32
    else if offset == MTIMECMP + 4 then s.mtimecmp / TWO32
    else if offset == MTIME then s.mtime % TWO32
    else if offset == MTIME + 4 then s.mtime / TWO32
    else 0
  }

  /** Reset writes 0 to both halves of mtime and to msip; the prescaler and mtip are left alone. */
  function WasReset(s: State): State {
    MSipWritten(s.(mtime := WithHigh(WithLow(s.mtime, 0), 0)), 0)
  }

  /** What the constructor leaves: one SetValue, both lines driven, one comparison. */
  function Constructed(p: nat): State {
    var s := Ticked(p, Raw(0, 0, 0, false, 0, []));
    Notified(s.(mipCalls := s.mipCalls + [SetMtip(s.mtip), SetMsip(false)]))
  }

  /** A store of 1, 2, 4 or 8 bytes; lo is the (zero-extended) first word and hi the second. Of an 8-byte store only
      the first word is written. */
  function Stored(s: State, address: nat, size: nat, lo: Half, hi: Half): State {
    var offset := address % 0x1_0000;
    if size == 1 || size == 2 || size == 4 then Written(s, offset, lo)
    else if size == 8 then Written(s, offset, lo)
    else s
  }

  /** A load of 1, 2, 4 or 8 bytes: a narrow load truncates the register read, an 8-byte load reads two registers. */
  function Loaded(s: State, address: nat, size: nat): (Half, Half) {
    var offset := address % 0x1_0000;
    if size == 1 then (ReadAt(s, offset) % 0x100, 0)
    else if size == 2 then (ReadAt(s, offset) % 0x1_0000, 0)
    else if size == 4 then (ReadAt(s, offset), 0)
    else if size == 8 then (ReadAt(s, offset), ReadAt(s, offset + 4))
    else (0, 0)
  }

  // ----- the objects

  /** The mip register as the controller sees it: it records what is driven. */
  class MipInterface {
    var calls: seq<MipCall>

    constructor ()
      ensures calls == []
    {
      calls := [];
    }

    method SetMtip(level: bool)
      modifies this
      ensures calls == old(calls) + [MipCall.SetMtip(level)]
    {
      calls := calls + [MipCall.SetMtip(level)];
    }

    method SetMsip(level: bool)
      modifies this
      ensures calls == old(calls) + [MipCall.SetMsip(level)]
    {
      calls := calls + [MipCall.SetMsip(level)];
    }
  }

  class RiscVClint {
    var msip: nat
    var mtime: nat
    var mtimecmp: nat
    var mtip: bool
    var updateCounter: nat
    const period: nat
    const mipInterface: MipInterface

    ghost predicate Valid()
      reads this
    {
      msip < 2 && mtime < TWO64 && mtimecmp < TWO64
    }

    ghost function View(): State
      requires Valid()
      reads this, mipInterface
    {
      Raw(msip, mtime, mtimecmp, mtip, updateCounter, mipInterface.calls)
    }

    constructor (period: nat, mipInterface: MipInterface)
      requires mipInterface.calls == []
      modifies mipInterface
      ensures Valid() && this.period == period && this.mipInterface == mipInterface
      ensures View() == Constructed(period)
    {
      this.period := period;
      this.mipInterface := mipInterface;
      msip, mtime, mtimecmp, mtip, updateCounter := 0, 0, 0, false, 0;
      new;
      SetValue();
      mipInterface.SetMtip(mtip);
      mipInterface.SetMsip(msip == 1);
      Notify();
    }

    /** The comparison that ends SetValue, the compare register writes and the constructor. */
    method Notify()
      requires Valid()
      modifies this`mtip, mipInterface
      ensures Valid() && View() == Notified(old(View()))
    {
      var bit := mtime >= mtimecmp;
      if bit == mtip {
        return;
      }
      mipInterface.SetMtip(bit);
      mtip := bit;
    }

    method SetValue()
      requires Valid()
      modifies this, mipInterface
      ensures Valid() && View() == Ticked(period, old(View()))
    {
      updateCounter := updateCounter + 1;
      if updateCounter >= period {
        updateCounter := 0;
        mtime := (mtime + 1) % TWO64;
        Notify();
      }
    }

    method Reset()
      requires Valid()
      modifies this, mipInterface
      ensures Valid() && View() == WasReset(old(View()))
    {
      WriteMTimeLow(0);
      WriteMTimeHigh(0);
      WriteMSip(0);
    }

    method Read(offset: nat) returns (value: nat)
      requires Valid()
      ensures value == ReadAt(View(), offset)
    {
      if offset == MSIP {
        value := msip;
      } else if offset == MTIMECMP {
        value := mtimecmp % TWO32;
      } else if offset == MTIMECMP + 4 {
        value := mtimecmp / TWO32;
      } else if offset == MTIME {
        value := mtime % TWO32;
      } else if offset == MTIME + 4 {
        value := mtime / TWO32;
      } else {
        value := 0;
      }
    }

    method Write(offset: nat, value: Half)
      requires Valid()
      modifies this, mipInterface
      ensures Valid() && View() == Written(old(View()), offset, value)
    {
      if offset == MSIP {
        WriteMSip(value);
      } else if offset == MTIMECMP {
        WriteMTimeCmpLow(value);
      } else if offset == MTIMECMP + 4 {
        WriteMTimeCmpHigh(value);
      } else if offset == MTIME {
        WriteMTimeLow(value);
        updateCounter := 0;
      } else if offset == MTIME + 4 {
        WriteMTimeHigh(value);
      }
    }

    method Store(address: nat, size: nat, lo: Half, hi: Half)
      requires Valid()
      modifies this, mipInterface
      ensures Valid() && View() == Stored(old(View()), address, size, lo, hi)
    {
      var offset := address % 0x1_0000;
      if size == 1 || size == 2 || size == 4 || size == 8 {
        Write(offset, lo);
      }
    }

    method Load(address: nat, size: nat) returns (lo: nat, hi: nat)
      requires Valid()
      ensures (lo, hi) == Loaded(View(), address, size)
    {
      var offset := address % 0x1_0000;
      lo, hi := 0, 0;
      if size == 1 {
        lo := Read(offset);
        lo := lo % 0x100;
      } else if size == 2 {
        lo := Read(offset);
        lo := lo % 0x1_0000;
      } else if size == 4 {
        lo := Read(offset);
      } else if size == 8 {
        lo := Read(offset);
        hi := Read(offset + 4);
      }
    }

    method WriteMSip(value: Half)
      requires Valid()
      modifies this`msip, mipInterface
      ensures Valid() && View() == MSipWritten(old(View()), value)
    {
      msip := value % 2;
      mipInterface.SetMsip(msip == 1);
    }

    method WriteMTimeCmpLow(value: Half)
      requires Valid()
      modifies this`mtimecmp, this`mtip, mipInterface
      ensures Valid() && View() == Notified(old(View()).(mtimecmp := WithLow(old(mtimecmp), value)))
    {
      mtimecmp := mtimecmp / TWO32 * TWO32 + value;
      Notify();
    }

    method WriteMTimeCmpHigh(value: Half)
      requires Valid()
      modifies this`mtimecmp, this`mtip, mipInterface
      ensures Valid() && View() == Notified(old(View()).(mtimecmp := WithHigh(old(mtimecmp), value)))
    {
      mtimecmp := value * TWO32 + mtimecmp % TWO32;
      Notify();
    }

    method WriteMTimeLow(value: Half)
      requires Valid()
      modifies this`mtime
      ensures Valid() && mtime == WithLow(old(mtime), value)
    {
      mtime := mtime / TWO32 * TWO32 + value;
    }

    method WriteMTimeHigh(value: Half)
      requires Valid()
      modifies this`mtime
      ensures Valid() && mtime == WithHigh(old(mtime), value)
    {
      mtime := value * TWO32 + mtime % TWO32;
    }
  }

  // ----- time

  function TickedTimes(p: nat, s: State, k: nat): State {
    if k == 0 then s else Ticked(p, TickedTimes(p, s, k - 1))
  }

  /** mtime * p + updateCounter grows by exactly 1, modulo 2^64 * p. */
  lemma TickAddsOne(p: nat, s: State)
    requires s.updateCounter < p
    ensures var t := Ticked(p, s);
      && t.updateCounter < p
      && t.mtime * p + t.updateCounter == (s.mtime * p + s.updateCounter + 1) % (TWO64 * p)
  {
    PrescaledBound(s.mtime, s.updateCounter, p);
    var next := s.mtime * p + s.updateCounter + 1;
    if next == TWO64 * p {
      LastPrescaledValue(s.mtime, s.updateCounter, p);
      DivModUnique(next, 1, 0, TWO64 * p);
    } else {
      DivModUnique(next, 0, next, TWO64 * p);
      if s.updateCounter + 1 >= p {
        PeriodEnds(s.mtime, p);
      }
    }
  }

  lemma PeriodEnds(mtime: nat, p: nat)
    ensures mtime * p + p == (mtime + 1) * p
  {
  }

  lemma PrescaledBound(mtime: nat, counter: nat, p: nat)
    requires mtime < TWO64 && counter < p
    ensures mtime * p + counter < TWO64 * p
  {
    MulMonotone(mtime + 1, TWO64, p);
    assert (mtime + 1) * p == mtime * p + p;
  }

  lemma LastPrescaledValue(mtime: nat, counter: nat, p: nat)
    requires mtime < TWO64 && counter < p && mtime * p + counter + 1 == TWO64 * p
    ensures mtime == TWO64 - 1 && counter == p - 1
  {
    if mtime < TWO64 - 1 {
      BeforeLastPeriod(mtime, counter, p);
    } else {
      assert (mtime + 1) * p == mtime * p + p;
    }
  }

  lemma BeforeLastPeriod(mtime: nat, counter: nat, p: nat)
    requires mtime < TWO64 - 1 && counter < p
    ensures mtime * p + counter + 1 < TWO64 * p
  {
    MulMonotone(mtime + 2, TWO64, p);
    assert (mtime + 2) * p == mtime * p + p + p;
  }

  function Position(p: nat, s: State): nat {
    s.mtime * p + s.updateCounter
  }

  lemma BelowInPosition(p: nat, s: State, deadline: nat)
    requires s.updateCounter < p
    ensures s.mtime < deadline <==> Position(p, s) < deadline * p
  {
    if s.mtime < deadline {
      MulMonotone(s.mtime + 1, deadline, p);
      assert (s.mtime + 1) * p == s.mtime * p + p;
    } else {
      MulMonotone(deadline, s.mtime, p);
    }
  }

  /** k calls of SetValue add one to mtime for every full period, counted from where the prescaler stands. */
  lemma {:induction false} MtimeAfter(p: nat, s: State, k: nat)
    requires s.updateCounter < p
    ensures var t := TickedTimes(p, s, k);
      && t.updateCounter == (s.updateCounter + k) % p
      && t.mtime == (s.mtime + (s.updateCounter + k) / p) % TWO64
  {
    if k == 0 {
      DivModUnique(s.updateCounter, 0, s.updateCounter, p);
    } else {
      hide Ticked;
      MtimeAfter(p, s, k - 1);
      TickCounts(p, TickedTimes(p, s, k - 1), s.mtime, s.updateCounter + k - 1);
    }
  }

  /** One more call, when x calls in all have been counted since mtime was start and the prescaler 0. */
  lemma TickCounts(p: nat, s: State, start: nat, x: nat)
    requires p > 0 && s.updateCounter == x % p && s.mtime == (start + x / p) % TWO64
    ensures var t := Ticked(p, s);
      t.updateCounter == (x + 1) % p && t.mtime == (start + (x + 1) / p) % TWO64
  {
    hide Ticked;
    OneMoreCount(x, p);
    ModAbsorbs(start + x / p, 1, TWO64);
    TickOnce(p, s);
  }

  lemma TickOnce(p: nat, s: State)
    requires s.updateCounter < p
    ensures var t, wraps := Ticked(p, s), s.updateCounter + 1 == p;
      && t.updateCounter == (if wraps then 0 else s.updateCounter + 1)
      && t.mtime == if wraps then (s.mtime + 1) % TWO64 else s.mtime
  {
  }

  lemma OneMoreCount(x: nat, p: nat)
    requires p > 0
    ensures (x + 1) % p == (if x % p + 1 == p then 0 else x % p + 1)
    ensures (x + 1) / p == x / p + (if x % p + 1 == p then 1 else 0)
  {
    DivModSplit(x, p);
    if x % p + 1 == p {
      PeriodEnds(x / p, p);
      DivModUnique(x + 1, x / p + 1, 0, p);
    } else {
      DivModUnique(x + 1, x / p, x % p + 1, p);
    }
  }

  lemma StoreAndPrescaler(s: State, offset: nat, value: Half)
    ensures Written(s, offset, value).updateCounter == if offset == MTIME then 0 else s.updateCounter
    ensures offset == MTIME ==> Written(s, offset, value).mtime == WithLow(s.mtime, value)
  {
  }

  /** A write of the low half of mtime restarts the prescaler, so the next increment comes p calls of SetValue later;
      every other store, and Reset, leave it running. */
  lemma MtimeAfterStore(p: nat, s: State, offset: nat, value: Half, k: nat)
    requires s.updateCounter < p
    ensures TickedTimes(p, Written(s, MTIME, value), k).mtime == (WithLow(s.mtime, value) + k / p) % TWO64
    ensures offset != MTIME ==>
      var t := Written(s, offset, value);
      TickedTimes(p, t, k).mtime == (t.mtime + (s.updateCounter + k) / p) % TWO64
    ensures TickedTimes(p, WasReset(s), k).mtime == (s.updateCounter + k) / p % TWO64
  {
    hide TickedTimes, WithLow;
    StoreAndPrescaler(s, offset, value);
    StoreAndPrescaler(s, MTIME, value);
    MtimeAfter(p, Written(s, MTIME, value), k);
    MtimeAfter(p, Written(s, offset, value), k);
    hide Written, WasReset;
    ResetClearsTimeAndMsip(s);
    MtimeAfter(p, WasReset(s), k);
  }

  /** Before mtime wraps, k calls of SetValue advance the position by k; from a low and exact line the line stays
      exact, and is driven once if it has risen. */
  lemma {:induction false} TimerRuns(p: nat, s: State, k: nat)
    requires s.updateCounter < p && !s.mtip && s.mtime < s.mtimecmp
    requires Position(p, s) + k < TWO64 * p
    ensures var t := TickedTimes(p, s, k);
      && Position(p, t) == Position(p, s) + k
      && t.updateCounter < p
      && (t.mtip <==> t.mtime >= t.mtimecmp)
      && s.mtime <= t.mtime
      && t == s.(mtime := t.mtime, updateCounter := t.updateCounter, mtip := t.mtip, mipCalls := t.mipCalls)
      && t.mipCalls == s.mipCalls + if t.mtip then [SetMtip(true)] else []
  {
    if k == 0 {
    } else {
      var t := TickedTimes(p, s, k - 1);
      TimerRuns(p, s, k - 1);
      TickMovesOn(p, t);
      TickIsExact(p, t);
    }
  }

  lemma TickMovesOn(p: nat, s: State)
    requires s.updateCounter < p && Position(p, s) + 1 < TWO64 * p
    ensures var t := Ticked(p, s);
      t.updateCounter < p && Position(p, t) == Position(p, s) + 1 && s.mtime <= t.mtime
  {
    TickAddsOne(p, s);
    var next := Position(p, s) + 1;
    DivModUnique(next, 0, next, TWO64 * p);
    BelowInPosition(p, Ticked(p, s), s.mtime);
  }

  /** From a low line and mtime below mtimecmp, at every later time before mtime wraps the line is high exactly from
      SetValue number (mtimecmp - mtime) * p - updateCounter on, and it has been driven exactly once if it is high
      and not at all if it is low. */
  lemma TimerFiresOnTime(p: nat, s: State, k: nat)
    requires s.updateCounter < p && !s.mtip && s.mtime < s.mtimecmp
    requires Position(p, s) + k < TWO64 * p
    ensures var t := TickedTimes(p, s, k);
      && (t.mtip <==> k >= (s.mtimecmp - s.mtime) * p - s.updateCounter)
      && t.mipCalls == s.mipCalls + if t.mtip then [SetMtip(true)] else []
  {
    TimerRuns(p, s, k);
    BelowInPosition(p, TickedTimes(p, s, k), s.mtimecmp);
    DeadlineInTicks(s.mtime, s.updateCounter, s.mtimecmp, k, p);
  }

  lemma DeadlineInTicks(mtime: nat, counter: nat, deadline: nat, k: nat, p: nat)
    ensures mtime * p + counter + k >= deadline * p <==> k >= (deadline - mtime) * p - counter
  {
    assert (deadline - mtime) * p == deadline * p - mtime * p;
  }

  lemma TickIsExact(p: nat, s: State)
    requires s.mtip <==> s.mtime >= s.mtimecmp
    ensures var t := Ticked(p, s);
      && (t.mtip <==> t.mtime >= t.mtimecmp)
      && t == s.(mtime := t.mtime, updateCounter := t.updateCounter, mtip := t.mtip, mipCalls := t.mipCalls)
      && t.mipCalls == s.mipCalls + if t.mtip == s.mtip then [] else [SetMtip(t.mtip)]
  {
  }

  // ----- every reachable state

  datatype Event = Tick | Store(offset: nat, value: Half) | Reset

  function Step(p: nat, s: State, e: Event): State {
    match e
    case Tick => Ticked(p, s)
    case Store(offset, value) => Written(s, offset, value)
    case Reset => WasReset(s)
  }

  function Run(p: nat, s: State, es: seq<Event>): State {
    if es == [] then s else Step(p, Run(p, s, es[..|es| - 1]), es[|es| - 1])
  }

  /** Whether mtime has been written, or Reset called, since the last increment of mtime or write of mtimecmp. */
  function Stale(p: nat, s: State, es: seq<Event>): bool {
    if es == [] then false
    else
      var before, e := es[..|es| - 1], es[|es| - 1];
      match e
      case Tick => Stale(p, s, before) && Run(p, s, before).updateCounter + 1 < p
      case Reset => true
      case Store(offset, _) =>
        if offset == MTIME || offset == MTIME + 4 then true
        else if offset == MTIMECMP || offset == MTIMECMP + 4 then false
        else Stale(p, s, before)
  }

  /** mtime as it was at the last increment or compare write: the time mtip was last compared with. */
  function ComparedTime(p: nat, s: State, es: seq<Event>): nat {
    if es == [] then s.mtime
    else
      var before, e := es[..|es| - 1], es[|es| - 1];
      if Compares(p, Run(p, s, before), e) then Run(p, s, es).mtime else ComparedTime(p, s, before)
  }

  /** Whether an event ends in a comparison: an increment of mtime or a write of mtimecmp. */
  predicate Compares(p: nat, s: State, e: Event) {
    match e
    case Tick => s.updateCounter + 1 >= p
    case Store(offset, _) => offset == MTIMECMP || offset == MTIMECMP + 4
    case Reset => false
  }

  predicate Exact(s: State) {
    s.mtip <==> s.mtime >= s.mtimecmp
  }

  /** The level of the timer line after some calls, given the level before them. */
  function LineAfter(level: bool, calls: seq<MipCall>): bool {
    if calls == [] then level
    else
      match calls[|calls| - 1]
      case SetMtip(l) => l
      case SetMsip(_) => LineAfter(level, calls[..|calls| - 1])
  }

  /** The level of the software interrupt line after some calls. */
  function MsipLineAfter(calls: seq<MipCall>): bool {
    if calls == [] then false
    else
      match calls[|calls| - 1]
      case SetMsip(l) => l
      case SetMtip(_) => MsipLineAfter(calls[..|calls| - 1])
  }

  /** Every SetMtip call changes the level. */
  predicate EdgesOnly(level: bool, calls: seq<MipCall>) {
    if calls == [] then true
    else
      var before := calls[..|calls| - 1];
      EdgesOnly(level, before) && (calls[|calls| - 1].SetMtip? ==> calls[|calls| - 1].level != LineAfter(level, before))
  }

  /** The calls made since s, with the line level they leave. */
  predicate DrivenSince(s: State, t: State) {
    && s.mipCalls <= t.mipCalls
    && EdgesOnly(s.mtip, t.mipCalls[|s.mipCalls|..])
    && LineAfter(s.mtip, t.mipCalls[|s.mipCalls|..]) == t.mtip
  }

  lemma StepCalls(p: nat, s: State, e: Event)
    ensures var t := Step(p, s, e);
      || (t.mipCalls == s.mipCalls && t.mtip == s.mtip)
      || (t.mipCalls == s.mipCalls + [SetMtip(t.mtip)] && t.mtip != s.mtip)
      || (t.mipCalls == s.mipCalls + [SetMsip(t.msip == 1)] && t.mtip == s.mtip)
    ensures var t := Step(p, s, e);
      t.msip == s.msip || t.mipCalls == s.mipCalls + [SetMsip(t.msip == 1)]
  {
  }

  lemma OneMoreCall(s: State, t: State, c: MipCall, t': State)
    requires DrivenSince(s, t) && t'.mipCalls == t.mipCalls + [c]
    requires if c.SetMtip? then c.level == t'.mtip && t'.mtip != t.mtip else t'.mtip == t.mtip
    ensures DrivenSince(s, t')
  {
    var before, after := t.mipCalls[|s.mipCalls|..], t'.mipCalls[|s.mipCalls|..];
    assert after == before + [c];
    assert after[..|after| - 1] == before;
  }

  /** Over every run the line is driven at changes of level only, and carries mtip. */
  lemma {:induction false} LineIsDrivenAtEdges(p: nat, s: State, es: seq<Event>)
    ensures DrivenSince(s, Run(p, s, es))
  {
    if es == [] {
    } else {
      var before, e := es[..|es| - 1], es[|es| - 1];
      LineIsDrivenAtEdges(p, s, before);
      var t := Run(p, s, before);
      var t' := Step(p, t, e);
      StepCalls(p, t, e);
      if t'.mipCalls == t.mipCalls {
      } else {
        OneMoreCall(s, t, t'.mipCalls[|t.mipCalls|], t');
      }
    }
  }

  /** In every reachable state the prescaler is in range, the lines equal mtip and msip, mtip is exact unless stale, and
      it is exact exactly when the compared time and mtime lie on the same side of mtimecmp. */
  lemma ReachableStates(p: nat, es: seq<Event>)
    requires p >= 1
    ensures var s, compared := Run(p, Constructed(p), es), ComparedTime(p, Constructed(p), es);
      && s.updateCounter < p
      && LineAfter(false, s.mipCalls) == s.mtip
      && MsipLineAfter(s.mipCalls) == (s.msip == 1)
      && (!Stale(p, Constructed(p), es) ==> Exact(s))
      && (s.mtip <==> compared >= s.mtimecmp)
      && (Exact(s) <==> (compared >= s.mtimecmp <==> s.mtime >= s.mtimecmp))
  {
    ConstructedLine(p);
    LinesAndStaleness(p, es);
    ExactIffSameSide(p, Constructed(p), es);
  }

  lemma {:induction false} LinesAndStaleness(p: nat, es: seq<Event>)
    requires p >= 1
    ensures var s := Run(p, Constructed(p), es);
      && s.updateCounter < p
      && LineAfter(false, s.mipCalls) == s.mtip
      && MsipLineAfter(s.mipCalls) == (s.msip == 1)
      && (!Stale(p, Constructed(p), es) ==> Exact(s))
  {
    hide Constructed, Exact;
    if es == [] {
      ConstructedLine(p);
    } else {
      var before, e := es[..|es| - 1], es[|es| - 1];
      hide Step;
      LinesAndStaleness(p, before);
      var s := Run(p, Constructed(p), before);
      StepKeepsLine(p, s, e);
      StepKeepsExact(p, s, e);
    }
  }

  lemma StepKeepsLine(p: nat, s: State, e: Event)
    requires s.updateCounter < p && LineAfter(false, s.mipCalls) == s.mtip && MsipLineAfter(s.mipCalls) == (s.msip == 1)
    ensures Step(p, s, e).updateCounter < p
    ensures MsipLineAfter(Step(p, s, e).mipCalls) == (Step(p, s, e).msip == 1)
    ensures LineAfter(false, Step(p, s, e).mipCalls) == Step(p, s, e).mtip
  {
    StepKeepsCounter(p, s, e);
    StepCalls(p, s, e);
    hide Step;
    var t := Step(p, s, e);
    if t.mipCalls != s.mipCalls {
      assert t.mipCalls[..|t.mipCalls| - 1] == s.mipCalls;
    }
  }

  lemma StepKeepsCounter(p: nat, s: State, e: Event)
    requires s.updateCounter < p
    ensures Step(p, s, e).updateCounter < p
  {
  }

  /** What the last event alone does to exactness. */
  lemma StepKeepsExact(p: nat, s: State, e: Event)
    ensures e.Tick? && s.updateCounter + 1 >= p ==> Exact(Step(p, s, e))
    ensures e.Store? && (e.offset == MTIMECMP || e.offset == MTIMECMP + 4) ==> Exact(Step(p, s, e))
    ensures Exact(s) && !e.Reset? && !(e.Store? && (e.offset == MTIME || e.offset == MTIME + 4)) ==> Exact(Step(p, s, e))
  {
  }

  /** After construction one SetValue has been counted and the line is high, as mtimecmp is 0; both lines have been
      driven, and the timer line once more if it has risen since. */
  lemma ConstructedLine(p: nat)
    requires p >= 1
    ensures var s := Constructed(p);
      && s.updateCounter < p && Position(p, s) == 1 && s.mtimecmp == 0 && s.mtip && Exact(s)
      && LineAfter(false, s.mipCalls) == s.mtip && MsipLineAfter(s.mipCalls) == (s.msip == 1)
      && s.mipCalls == if p == 1 then [SetMtip(true), SetMtip(true), SetMsip(false)]
                       else [SetMtip(false), SetMsip(false), SetMtip(true)]
  {
  }

  /** Reset clears mtime and msip, drives the software line low and touches nothing else. */
  lemma ResetClearsTimeAndMsip(s: State)
    ensures WasReset(s) == s.(mtime := 0, msip := 0, mipCalls := s.mipCalls + [SetMsip(false)])
  {
  }

  /** From any state, however stale, mtip is exact from SetValue number p - updateCounter on. */
  lemma {:induction false} ExactWithinOnePeriod(p: nat, s: State, k: nat)
    requires s.updateCounter < p
    ensures k >= p - s.updateCounter ==> Exact(TickedTimes(p, s, k))
    ensures k < p - s.updateCounter ==> TickedTimes(p, s, k) == s.(updateCounter := s.updateCounter + k)
  {
    if k == 0 {
    } else {
      ExactWithinOnePeriod(p, s, k - 1);
    }
  }

  lemma StepCompares(p: nat, s: State, e: Event)
    ensures Compares(p, s, e) ==> Exact(Step(p, s, e))
    ensures !Compares(p, s, e) ==> Step(p, s, e).mtip == s.mtip && Step(p, s, e).mtimecmp == s.mtimecmp
  {
  }

  /** Over every run from an exact state mtip is the comparison of mtimecmp with the compared time, so mtip is exact
      exactly when the compared time and mtime lie on the same side of mtimecmp. */
  lemma {:induction false} ExactIffSameSide(p: nat, s: State, es: seq<Event>)
    requires Exact(s)
    ensures var t, compared := Run(p, s, es), ComparedTime(p, s, es);
      && (t.mtip <==> compared >= t.mtimecmp)
      && (Exact(t) <==> (compared >= t.mtimecmp <==> t.mtime >= t.mtimecmp))
  {
    if es == [] {
    } else {
      var before, e := es[..|es| - 1], es[|es| - 1];
      ExactIffSameSide(p, s, before);
      StepCompares(p, Run(p, s, before), e);
    }
  }

  /** A write of half of mtime, or a reset, keeps an exact state exact exactly when it does not carry mtime across
      mtimecmp. */
  lemma MtimeWriteKeepsExactIff(s: State, value: Half)
    requires Exact(s)
    ensures var late := s.mtime >= s.mtimecmp;
      && (Exact(Written(s, MTIME, value)) <==> (late <==> WithLow(s.mtime, value) >= s.mtimecmp))
      && (Exact(Written(s, MTIME + 4, value)) <==> (late <==> WithHigh(s.mtime, value) >= s.mtimecmp))
      && (Exact(WasReset(s)) <==> (late <==> s.mtimecmp == 0))
  {
  }

  /** A write of mtime alone can leave mtip low past the deadline. */
  lemma StaleCanBeInexact()
    ensures var es := [Store(MTIMECMP, 10), Store(MTIME, 20)];
      var s := Run(100, Constructed(100), es);
      !s.mtip && s.mtime == 20 && s.mtimecmp == 10
  {
    var s := Constructed(100);
    RunTwo(100, s, Store(MTIMECMP, 10), Store(MTIME, 20));
    assert s.mtime == 0 && s.mtimecmp == 0 && s.mtip;
  }

  lemma RunTwo(p: nat, s: State, e1: Event, e2: Event)
    ensures Run(p, s, [e1, e2]) == Step(p, Step(p, s, e1), e2)
  {
    assert [e1, e2][..1] == [e1];
    assert Run(p, s, [e1]) == Step(p, s, e1);
  }

  // ----- the three-store update of mtimecmp

  function StoresOf(es: seq<Event>): seq<Event> {
    if es == [] then []
    else StoresOf(es[..|es| - 1]) + if es[|es| - 1].Tick? then [] else [es[|es| - 1]]
  }

  function TicksOf(es: seq<Event>): nat {
    if es == [] then 0 else TicksOf(es[..|es| - 1]) + if es[|es| - 1].Tick? then 1 else 0
  }

  function UpdateSequence(compare: nat): seq<Event>
    requires compare < TWO64
  {
    [Store(MTIMECMP, TWO32 - 1), Store(MTIMECMP + 4, compare / TWO32), Store(MTIMECMP, compare % TWO32)]
  }

  /** mtimecmp after the first j stores. */
  function CompareAfter(s: State, compare: nat, j: nat): nat
    requires compare < TWO64 && j <= 3
  {
    if j == 0 then s.mtimecmp
    else if j == 1 then WithLow(s.mtimecmp, TWO32 - 1)
    else if j == 2 then compare / TWO32 * TWO32 + (TWO32 - 1)
    else compare
  }

  lemma {:induction false} PrefixCounts(es: seq<Event>, i: nat)
    requires i <= |es|
    ensures StoresOf(es[..i]) <= StoresOf(es) && TicksOf(es[..i]) <= TicksOf(es)
  {
    if i == |es| {
      assert es[..i] == es;
    } else {
      var shorter := es[..|es| - 1];
      PrefixCounts(shorter, i);
      assert shorter[..i] == es[..i];
    }
  }

  /** However ticks are interleaved with the three stores, as long as mtime stays below both the old and the new
      compare value the line is never driven, and the new value is in place at the end. */
  lemma ThreeStoreUpdateIsQuiet(p: nat, s: State, compare: nat, es: seq<Event>)
    requires compare < TWO64 && StoresOf(es) == UpdateSequence(compare)
    requires s.updateCounter < p && !s.mtip
    requires Position(p, s) + TicksOf(es) < s.mtimecmp * p && Position(p, s) + TicksOf(es) < compare * p
    ensures forall i | 0 <= i <= |es| ::
      var t := Run(p, s, es[..i]);
      !t.mtip && t.mipCalls == s.mipCalls
    ensures Run(p, s, es).mtimecmp == compare
  {
    forall i | 0 <= i <= |es|
      ensures var t := Run(p, s, es[..i]); !t.mtip && t.mipCalls == s.mipCalls
    {
      QuietPrefix(p, s, compare, es, i);
    }
    QuietPrefix(p, s, compare, es, |es|);
    assert es[..|es|] == es;
  }

  lemma {:induction false} QuietPrefix(p: nat, s: State, compare: nat, es: seq<Event>, i: nat)
    requires compare < TWO64 && StoresOf(es) == UpdateSequence(compare)
    requires s.updateCounter < p && !s.mtip && i <= |es|
    requires Position(p, s) + TicksOf(es) < s.mtimecmp * p && Position(p, s) + TicksOf(es) < compare * p
    ensures |StoresOf(es[..i])| <= 3
    ensures var t := Run(p, s, es[..i]);
      && !t.mtip && t.mipCalls == s.mipCalls && t.updateCounter < p
      && Position(p, t) == Position(p, s) + TicksOf(es[..i])
      && t.mtimecmp == CompareAfter(s, compare, |StoresOf(es[..i])|)
  {
    hide Ticked, Written, WasReset, Notified, WithLow;
    PrefixCounts(es, i);
    if i == 0 {
    } else {
      QuietPrefix(p, s, compare, es, i - 1);
      PrefixCounts(es, i - 1);
      assert es[..i][..i - 1] == es[..i - 1];
      var t, e := Run(p, s, es[..i - 1]), es[i - 1];
      var j := |StoresOf(es[..i - 1])|;
      BelowInPosition(p, t, s.mtimecmp);
      BelowInPosition(p, t, compare);
      if e.Tick? {
        assert TicksOf(es[..i]) == TicksOf(es[..i - 1]) + 1;
        QuietTick(p, s, t, compare, j);
      } else {
        assert StoresOf(es[..i]) == StoresOf(es[..i - 1]) + [e];
        assert e == UpdateSequence(compare)[j];
        QuietStore(p, s, t, compare, j);
      }
    }
  }

  lemma QuietStore(p: nat, s: State, t: State, compare: nat, j: nat)
    requires compare < TWO64 && j < 3
    requires !t.mtip && t.mtimecmp == CompareAfter(s, compare, j)
    requires t.mtime < s.mtimecmp && t.mtime < compare
    ensures var u := Step(p, t, UpdateSequence(compare)[j]);
      u == t.(mtimecmp := CompareAfter(s, compare, j + 1))
  {
    if j == 1 {
      assert WithHigh(WithLow(s.mtimecmp, TWO32 - 1), compare / TWO32) == compare / TWO32 * TWO32 + (TWO32 - 1);
    }
  }

  lemma QuietTick(p: nat, s: State, t: State, compare: nat, j: nat)
    requires compare < TWO64 && j <= 3
    requires t.updateCounter < p && !t.mtip && t.mtimecmp == CompareAfter(s, compare, j)
    requires Position(p, t) + 1 < s.mtimecmp * p && Position(p, t) + 1 < compare * p
    ensures var u := Ticked(p, t);
      && !u.mtip && u.mipCalls == t.mipCalls && u.updateCounter < p && u.mtimecmp == t.mtimecmp
      && Position(p, u) == Position(p, t) + 1
  {
    MulMonotone(s.mtimecmp, TWO64, p);
    TickMovesOn(p, t);
    BelowInPosition(p, Ticked(p, t), s.mtimecmp);
    BelowInPosition(p, Ticked(p, t), compare);
  }

  /** Two stores, in either order, keep a low line low exactly when mtime is below the intermediate compare value as
      well as the new one. */
  lemma TwoStoreUpdateIsQuietIff(s: State, lo: Half, hi: Half)
    requires !s.mtip
    ensures var t := Written(s, MTIMECMP, lo);
      var u := Written(t, MTIMECMP + 4, hi);
      !t.mtip && !u.mtip <==> s.mtime < WithLow(s.mtimecmp, lo) && s.mtime < hi * TWO32 + lo
    ensures var t := Written(s, MTIMECMP + 4, hi);
      var u := Written(t, MTIMECMP, lo);
      !t.mtip && !u.mtip <==> s.mtime < WithHigh(s.mtimecmp, hi) && s.mtime < hi * TWO32 + lo
  {
    hide Written, WithLow, WithHigh;
    CompareStore(s, lo);
    CompareStore(s, hi);
    CompareStore(Written(s, MTIMECMP, lo), hi);
    CompareStore(Written(s, MTIMECMP + 4, hi), lo);
    BothHalves(s.mtimecmp, lo, hi);
  }

  lemma BothHalves(reg: nat, lo: Half, hi: Half)
    ensures WithHigh(WithLow(reg, lo), hi) == WithLow(WithHigh(reg, hi), lo) == hi * TWO32 + lo
  {
    DivModUnique(reg / TWO32 * TWO32 + lo, reg / TWO32, lo, TWO32);
    DivModUnique(hi * TWO32 + reg % TWO32, hi, reg % TWO32, TWO32);
  }

  lemma CompareStore(s: State, value: Half)
    ensures var t := Written(s, MTIMECMP, value);
      t.mtime == s.mtime && t.mtimecmp == WithLow(s.mtimecmp, value) && (t.mtip <==> t.mtime >= t.mtimecmp)
    ensures var t := Written(s, MTIMECMP + 4, value);
      t.mtime == s.mtime && t.mtimecmp == WithHigh(s.mtimecmp, value) && (t.mtip <==> t.mtime >= t.mtimecmp)
  {
  }

  /** On the way from 10 to 2^32 the compare value passes through 0: from a reachable quiet state, with mtime below
      both values, the first of the two stores raises mtip and the second lowers it again. */
  lemma TwoStoreUpdateCanFire()
    ensures var s := Run(100, Constructed(100), [Store(MTIMECMP, 10), Store(MTIME, 5)]);
      var t := Written(s, MTIMECMP, 0);
      !s.mtip && s.mtime == 5 && s.mtimecmp == 10 && t.mtip && !Written(t, MTIMECMP + 4, 1).mtip
  {
    var s := Constructed(100);
    RunTwo(100, s, Store(MTIMECMP, 10), Store(MTIME, 5));
    assert s.mtime == 0 && s.mtimecmp == 0 && s.mtip;
  }

  // ----- loads and stores

  lemma FourByteStoreIsRead(s: State, offset: nat, value: Half)
    ensures ReadAt(Written(s, offset, value), offset) ==
      if offset == MSIP then value % 2
      else if offset in {MTIMECMP, MTIMECMP + 4, MTIME, MTIME + 4} then value
      else 0
  {
  }

  lemma OtherRegistersAreKept(s: State, offset: nat, value: Half, other: nat)
    requires other != offset
    ensures ReadAt(Written(s, offset, value), other) == ReadAt(s, other)
  {
  }

  /** A store of 1, 2 or 4 bytes is the store event of a run, an 8-byte one that of its first word; other sizes are
      ignored. */
  lemma StoreIsAStep(p: nat, s: State, address: nat, size: nat, lo: Half, hi: Half)
    ensures Stored(s, address, size, lo, hi)
         == if size in {1, 2, 4, 8} then Step(p, s, Store(address % 0x1_0000, lo)) else s
  {
  }

  /** A 4-byte store to a half of mtimecmp or mtime is loaded back whole, one to msip as its low bit. A narrower store
      writes the whole half too, so the register then holds the value zero-extended. */
  lemma NarrowStoreIsLoaded(s: State, address: nat, size: nat, lo: Half, hi: Half)
    requires size in {1, 2, 4}
    requires size == 1 ==> lo < 0x100
    requires size == 2 ==> lo < 0x1_0000
    ensures var offset, t := address % 0x1_0000, Stored(s, address, size, lo, hi);
      && (offset in {0x4000, 0x4004, 0xbff8, 0xbffc} ==> Loaded(t, address, 4) == Loaded(t, address, size) == (lo, 0))
      && (offset == 0 ==> Loaded(t, address, 4) == Loaded(t, address, size) == (lo % 2, 0))
      && (offset !in {0, 0x4000, 0x4004, 0xbff8, 0xbffc} ==> t == s && Loaded(t, address, size) == (0, 0))
  {
    hide Written, ReadAt, Loaded, Stored;
    var offset, t := address % 0x1_0000, Stored(s, address, size, lo, hi);
    StoreIsAStep(1, s, address, size, lo, hi);
    FourByteStoreIsRead(s, offset, lo);
    NarrowLoad(t, address, size);
    NarrowLoad(t, address, 4);
    if offset !in {0, 0x4000, 0x4004, 0xbff8, 0xbffc} {
      OtherOffsets(s, offset, lo);
    }
  }

  lemma NarrowLoad(s: State, address: nat, size: nat)
    requires size in {1, 2, 4}
    ensures var value := ReadAt(s, address % 0x1_0000);
      (size == 1 ==> value < 0x100) && (size == 2 ==> value < 0x1_0000) ==> Loaded(s, address, size) == (value, 0)
  {
    hide ReadAt;
  }

  lemma OtherOffsets(s: State, offset: nat, value: Half)
    requires offset !in {MSIP, MTIMECMP, MTIMECMP + 4, MTIME, MTIME + 4}
    ensures Written(s, offset, value) == s && ReadAt(s, offset) == 0
  {
  }

  /** A load of 1 or 2 bytes is the low part of the 4-byte load; an 8-byte load is two 4-byte loads, the second of
      which does not wrap around the end of the device. */
  lemma LoadsAreParts(s: State, address: nat)
    ensures Loaded(s, address, 1) == (Loaded(s, address, 4).0 % 0x100, 0)
    ensures Loaded(s, address, 2) == (Loaded(s, address, 4).0 % 0x1_0000, 0)
    ensures Loaded(s, address, 8)
         == (Loaded(s, address, 4).0, if address % 0x1_0000 < 0xfffc then Loaded(s, address + 4, 4).0 else 0)
  {
    if address % 0x1_0000 < 0xfffc {
      DivModUnique(address + 4, address / 0x1_0000, address % 0x1_0000 + 4, 0x1_0000);
    }
  }

  /** An 8-byte store is read back by an 8-byte load exactly when the high word already held its value. */
  lemma EightByteStoreIsReadIff(s: State, address: nat, lo: Half, hi: Half)
    ensures address % 0x1_0000 == MTIMECMP ==>
      (Loaded(Stored(s, address, 8, lo, hi), address, 8) == (lo, hi) <==> s.mtimecmp / TWO32 == hi)
    ensures address % 0x1_0000 == MTIME ==>
      (Loaded(Stored(s, address, 8, lo, hi), address, 8) == (lo, hi) <==> s.mtime / TWO32 == hi)
  {
  }
}
