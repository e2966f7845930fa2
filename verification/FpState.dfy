/** The fcsr, frm and fflags CSRs and the rounding mode held beside them. The three CSRs are views of one stored
    value and of the live flags in the host interface; their writes call each other. */
module FpState {
  import opened HostFp

  /** The stored fcsr, the host's copy of the status, the rounding mode in force and whether it may be used. */
  datatype State = State(fcsr: bv32, host: Regs, held: bv32, valid: bool)

  predicate LegalMode(mode: bv32) {
    mode <= 4
  }

  // ----- reads

  /** fcsr: the stored rounding mode over the host's live flags. */
  function FcsrRead(s: State): bv32 {
    ((s.fcsr & 0xffff_ffe0) | (GetRiscVFcsr(s.host) & 0x1f)) & 0xff
  }

  function FflagsRead(s: State): bv32 {
    FcsrRead(s) & 0x1f
  }

  function FrmRead(s: State): bv32 {
    (FcsrRead(s) >> 5) & 0x7
  }

  // ----- where the mutually recursive writes end up

  function FcsrWritten(s: State, value: bv32): State {
    var w := value & 0xff;
    var rm := (w >> 5) & 0x7;
    var host := SetRiscVFcsr(s.host, w);
    if rm == s.held then State(w, host, s.held, s.valid)
    else if LegalMode(rm) then State(w, host, rm, true)
    else State(w, host, s.held, false)
  }

  function FrmWritten(s: State, value: bv32): State {
    FcsrWritten(s, (FcsrRead(s) & 0x1f) | ((value & 0x7) << 5))
  }

  function FflagsWritten(s: State, value: bv32): State {
    var w := (FcsrRead(s) & 0xffff_ffe0) | (value & 0x1f);
    if w == FcsrRead(s) then s else FcsrWritten(s, w)
  }

  function RoundingModeSet(s: State, mode: bv32): State {
    if mode == s.held then s
    else if LegalMode(mode) then FrmWritten(s.(held := mode), mode).(valid := true)
    else s.(valid := false)
  }

  // SetBits and ClearBits of the base class write back what GetUint32 returns: for fcsr the stored value, for the
  // other two the live reads.

  function FcsrBitsSet(s: State, value: bv32): State {
    FcsrWritten(s, s.fcsr | value)
  }

  function FcsrBitsCleared(s: State, value: bv32): State {
    FcsrWritten(s, s.fcsr & !value)
  }

  function FflagsBitsSet(s: State, value: bv32): State {
    FflagsWritten(s, FflagsRead(s) | value)
  }

  function FflagsBitsCleared(s: State, value: bv32): State {
    FflagsWritten(s, FflagsRead(s) & !value)
  }

  function FrmBitsSet(s: State, value: bv32): State {
    FrmWritten(s, FrmRead(s) | value)
  }

  function FrmBitsCleared(s: State, value: bv32): State {
    FrmWritten(s, FrmRead(s) & !value)
  }

  // ----- the object

  class RiscVFPState {
    var fcsrValue: bv32
    var roundingMode: bv32
    var roundingModeValid: bool
    const host: HostInterface

    ghost function View(): State
      reads this, host
    {
      State(fcsrValue, host.regs, roundingMode, roundingModeValid)
    }

    constructor (host: HostInterface)
      ensures this.host == host && View() == State(0, host.regs, 0, true)
    {
      this.host := host;
      fcsrValue, roundingMode, roundingModeValid := 0, 0, true;
    }

    method FcsrAsUint32() returns (value: bv32)
      ensures value == FcsrRead(View())
    {
      var status := host.Get();
      value := ((fcsrValue & 0xffff_ffe0) | (status & 0x1f)) & 0xff;
    }

    method FcsrWrite(value: bv32)
      modifies this, host
      ensures View() == FcsrWritten(old(View()), value)
      decreases (value >> 5) & 0x7 != roundingMode, 2
    {
      var wrValue := value & 0xff;
      ghost var before := View();
      ByteFields(value);
      WrittenAgain(before, wrValue);
      fcsrValue := wrValue;
      host.Set(wrValue);
      SetRoundingMode((wrValue >> 5) & 0x7);
    }

    method SetRoundingMode(mode: bv32)
      modifies this, host
      ensures View() == RoundingModeSet(old(View()), mode)
      decreases mode != roundingMode, 1
    {
      if roundingMode != mode {
        match mode {
          case 4 | 0 =>
          case 1 =>
          case 2 =>
          case 3 =>
          case _ =>
            roundingModeValid := false;
            return;
        }
        roundingMode := mode;
        FrmWrite(mode);
        roundingModeValid := true;
      }
    }

    method FcsrSetBits(value: bv32)
      modifies this, host
      ensures View() == FcsrBitsSet(old(View()), value)
    {
      FcsrWrite(fcsrValue | value);
    }

    method FcsrClearBits(value: bv32)
      modifies this, host
      ensures View() == FcsrBitsCleared(old(View()), value)
    {
      FcsrWrite(fcsrValue & !value);
    }

    method FflagsAsUint32() returns (value: bv32)
      ensures value == FflagsRead(View())
    {
      value := FcsrAsUint32();
      value := value & 0x1f;
    }

    method FrmAsUint32() returns (value: bv32)
      ensures value == FrmRead(View())
    {
      value := FcsrAsUint32();
      value := (value >> 5) & 0x7;
    }

    method FflagsSetBits(value: bv32)
      modifies this, host
      ensures View() == FflagsBitsSet(old(View()), value)
    {
      var current := FflagsAsUint32();
      FflagsWrite(current | value);
    }

    method FflagsClearBits(value: bv32)
      modifies this, host
      ensures View() == FflagsBitsCleared(old(View()), value)
    {
      var current := FflagsAsUint32();
      FflagsWrite(current & !value);
    }

    method FrmSetBits(value: bv32)
      modifies this, host
      ensures View() == FrmBitsSet(old(View()), value)
    {
      var current := FrmAsUint32();
      FrmWrite(current | value);
    }

    method FrmClearBits(value: bv32)
      modifies this, host
      ensures View() == FrmBitsCleared(old(View()), value)
    {
      var current := FrmAsUint32();
      FrmWrite(current & !value);
    }

    method FflagsWrite(value: bv32)
      modifies this, host
      ensures View() == FflagsWritten(old(View()), value)
    {
      var current := FcsrAsUint32();
      var newValue := (current & 0xffff_ffe0) | (value & 0x1f);
      if newValue == current {
        return;
      }
      FcsrWrite(newValue);
    }

    method FrmWrite(value: bv32)
      modifies this, host
      ensures View() == FrmWritten(old(View()), value)
      decreases value & 0x7 != roundingMode, 3
    {
      var wrValue := value & 0x7;
      var fcsr := FcsrAsUint32();
      var newFcsr := (fcsr & 0x1f) | (wrValue << 5);
      JoinedFields(fcsr, wrValue);
      FcsrWrite(newFcsr);
    }
  }

  /** Once stored in both places, a value is read back whole. */
  lemma WrittenIsRead(s: State, w: bv32, host: Regs)
    requires w <= 0xff && s.fcsr == w && s.host == SetRiscVFcsr(host, w)
    ensures FcsrRead(s) == w
  {
    hide GetRiscVFcsr, SetRiscVFcsr;
    FlagsRoundTrip(host, w);
    HalvesOfFcsr(w, GetRiscVFcsr(s.host));
  }

  lemma HalvesOfFcsr(w: bv32, status: bv32)
    requires w <= 0xff && status & 0x1f == w & 0x1f
    ensures ((w & 0xffff_ffe0) | (status & 0x1f)) & 0xff == w
  {
  }

  /** Writing the mode that has just been stored changes nothing but the held mode and its validity. */
  lemma WrittenAgain(s: State, w: bv32)
    requires w <= 0xff
    ensures var t := s.(fcsr := w, host := SetRiscVFcsr(s.host, w));
      RoundingModeSet(t, (w >> 5) & 0x7) == FcsrWritten(s, w)
  {
    hide GetRiscVFcsr, SetRiscVFcsr;
    var rm := (w >> 5) & 0x7;
    var t := s.(fcsr := w, host := SetRiscVFcsr(s.host, w), held := rm);
    SetTwice(s.host, w);
    WrittenIsRead(t, w, s.host);
    Rejoined(w);
  }

  lemma SetTwice(host: Regs, w: bv32)
    ensures SetRiscVFcsr(SetRiscVFcsr(host, w), w) == SetRiscVFcsr(host, w)
  {
  }

  lemma Rejoined(w: bv32)
    requires w <= 0xff
    ensures (w & 0x1f) | ((((w >> 5) & 0x7) & 0x7) << 5) == w
    ensures w & 0xff == w
  {
  }

  // ----- what each write is read back as

  lemma FcsrWriteIsRead(s: State, value: bv32)
    ensures var t := FcsrWritten(s, value);
      && FcsrRead(t) == value & 0xff
      && FflagsRead(t) == value & 0x1f
      && FrmRead(t) == (value >> 5) & 0x7
  {
    hide GetRiscVFcsr, SetRiscVFcsr;
    var w := value & 0xff;
    WrittenIsRead(FcsrWritten(s, value), w, s.host);
    ByteFields(value);
  }

  lemma ByteFields(value: bv32)
    ensures value & 0xff <= 0xff && (value & 0xff) & 0xff == value & 0xff
    ensures (value & 0xff) & 0x1f == value & 0x1f
    ensures ((value & 0xff) >> 5) & 0x7 == (value >> 5) & 0x7
  {
  }

  /** A read of fcsr is its two fields. */
  lemma ReadFields(s: State)
    ensures FcsrRead(s) <= 0xff
    ensures FflagsRead(s) == Flags(s.host)
    ensures FrmRead(s) == (s.fcsr >> 5) & 0x7
    ensures FcsrRead(s) == (FrmRead(s) << 5) | FflagsRead(s)
  {
  }

  lemma FieldsOfRead(fcsr: bv32, status: bv32)
    ensures var r := ((fcsr & 0xffff_ffe0) | (status & 0x1f)) & 0xff;
      r <= 0xff && r & 0x1f == status & 0x1f && (r >> 5) & 0x7 == (fcsr >> 5) & 0x7
      && r == (((r >> 5) & 0x7) << 5) | (r & 0x1f)
  {
  }

  lemma FrmWriteKeepsFlags(s: State, value: bv32)
    ensures var t := FrmWritten(s, value);
      FrmRead(t) == value & 0x7 && FflagsRead(t) == FflagsRead(s)
  {
    hide GetRiscVFcsr, SetRiscVFcsr;
    var r := FcsrRead(s);
    FcsrWriteIsRead(s, (r & 0x1f) | ((value & 0x7) << 5));
    JoinedFields(r, value & 0x7);
  }

  lemma JoinedFields(flags: bv32, rm: bv32)
    requires rm <= 7
    ensures ((flags & 0x1f) | (rm << 5)) & 0x1f == flags & 0x1f
    ensures (((flags & 0x1f) | (rm << 5)) >> 5) & 0x7 == rm
  {
  }

  lemma FflagsWriteIsRead(s: State, value: bv32)
    ensures var t := FflagsWritten(s, value);
      FflagsRead(t) == value & 0x1f && FrmRead(t) == FrmRead(s)
  {
    hide GetRiscVFcsr, SetRiscVFcsr;
    var r := FcsrRead(s);
    var w := (r & 0xffff_ffe0) | (value & 0x1f);
    FcsrWriteIsRead(s, w);
    FieldsOfRead(r, value);
    FlagsReplaced(r, value);
  }

  lemma FlagsReplaced(r: bv32, value: bv32)
    ensures ((r & 0xffff_ffe0) | (value & 0x1f)) & 0x1f == value & 0x1f
    ensures (((r & 0xffff_ffe0) | (value & 0x1f)) >> 5) & 0x7 == (r >> 5) & 0x7
  {
  }

  // ----- the invariant

  /** The held mode is legal, is frm whenever frm is legal, and is frm whenever it may be used; and every stored flag
      is live. */
  ghost predicate Inv(s: State) {
    && LegalMode(s.held)
    && (LegalMode(FrmRead(s)) ==> s.held == FrmRead(s))
    && (s.valid ==> s.held == FrmRead(s))
    && StoredFlagsAreLive(s)
  }

  ghost predicate StoredFlagsAreLive(s: State) {
    s.fcsr & 0x1f & !FflagsRead(s) == 0
  }

  type Rm = rm: bv32 | rm < 8

  datatype Event =
    | FcsrWrite(v: bv32) | FcsrSet(v: bv32) | FcsrClear(v: bv32)
    | FrmWrite(v: bv32) | FrmSet(v: bv32) | FrmClear(v: bv32)
    | FflagsWrite(v: bv32) | FflagsSet(v: bv32) | FflagsClear(v: bv32)
    | SetMode(mode: bv32)
    | Scope(rm: Rm, raised: bv32)

  function Step(s: State, e: Event): State {
    match e
    case FcsrWrite(v) => FcsrWritten(s, v)
    case FcsrSet(v) => FcsrBitsSet(s, v)
    case FcsrClear(v) => FcsrBitsCleared(s, v)
    case FrmWrite(v) => FrmWritten(s, v)
    case FrmSet(v) => FrmBitsSet(s, v)
    case FrmClear(v) => FrmBitsCleared(s, v)
    case FflagsWrite(v) => FflagsWritten(s, v)
    case FflagsSet(v) => FflagsBitsSet(s, v)
    case FflagsClear(v) => FflagsBitsCleared(s, v)
    case SetMode(mode) => RoundingModeSet(s, mode)
    case Scope(rm, raised) => s.(host := AfterScope(s.host, rm, raised))
  }

  function Run(s: State, es: seq<Event>): State {
    if es == [] then s else Step(Run(s, es[..|es| - 1]), es[|es| - 1])
  }

  lemma FcsrWriteKeepsInv(s: State, value: bv32)
    requires Inv(s)
    ensures Inv(FcsrWritten(s, value))
  {
    hide GetRiscVFcsr, SetRiscVFcsr, FcsrRead;
    FcsrWriteIsRead(s, value);
    ByteFields(value);
    NothingOutside(value & 0xff);
  }

  lemma FrmWriteKeepsInv(s: State, value: bv32)
    requires Inv(s)
    ensures Inv(FrmWritten(s, value))
  {
    hide Inv, FcsrRead, FcsrWritten;
    FcsrWriteKeepsInv(s, (FcsrRead(s) & 0x1f) | ((value & 0x7) << 5));
  }

  lemma NothingOutside(w: bv32)
    ensures w & 0x1f & !(w & 0x1f) == 0
  {
  }

  /** A write of fflags reaches the mode logic with frm itself, so it changes neither the held mode nor its validity. */
  lemma FflagsWriteKeepsMode(s: State, value: bv32)
    requires Inv(s)
    ensures var t := FflagsWritten(s, value);
      Inv(t) && t.held == s.held && t.valid == s.valid
  {
    hide GetRiscVFcsr, SetRiscVFcsr;
    var r := FcsrRead(s);
    var w := (r & 0xffff_ffe0) | (value & 0x1f);
    FcsrWriteKeepsInv(s, w);
    FlagsReplaced(r, value);
    ByteFields(w);
  }

  /** Changing to a legal mode stores it in frm, with the flags that are live. */
  lemma LegalModeIsStored(s: State, mode: bv32)
    requires LegalMode(mode) && mode != s.held
    ensures var t := RoundingModeSet(s, mode);
      t.held == mode && t.valid && FrmRead(t) == mode && FflagsRead(t) == FflagsRead(s) && t.fcsr & 0x1f == FflagsRead(s)
  {
    hide GetRiscVFcsr, SetRiscVFcsr;
    var u, w := s.(held := mode), (FcsrRead(s) & 0x1f) | (mode << 5);
    LegalFitsInThree(mode);
    JoinedFields(FcsrRead(s), mode);
    ByteFields(w);
    FcsrWriteIsRead(u, w);
    assert RoundingModeSet(s, mode) == FcsrWritten(u, w).(valid := true);
    assert FcsrWritten(u, w).fcsr == w & 0xff;
  }

  lemma SetModeKeepsInv(s: State, mode: bv32)
    requires Inv(s)
    ensures var t := RoundingModeSet(s, mode);
      Inv(t) && FflagsRead(t) == FflagsRead(s)
  {
    if mode != s.held && LegalMode(mode) {
      AfterLegalMode(s, mode);
    }
  }

  lemma AfterLegalMode(s: State, mode: bv32)
    requires LegalMode(mode) && mode != s.held
    ensures Inv(RoundingModeSet(s, mode)) && FflagsRead(RoundingModeSet(s, mode)) == FflagsRead(s)
  {
    hide FcsrRead, FrmRead, RoundingModeSet;
    LegalModeIsStored(s, mode);
    NothingOutside(FcsrRead(s));
  }

  lemma LegalFitsInThree(mode: bv32)
    requires LegalMode(mode)
    ensures mode & 0x7 == mode && mode <= 7
  {
  }

  lemma ScopeKeepsInv(s: State, rm: Rm, raised: bv32)
    requires Inv(s)
    ensures Inv(Step(s, Scope(rm, raised)))
    ensures FflagsRead(Step(s, Scope(rm, raised))) == FflagsRead(s) | RaisedFlags(s.host, raised)
  {
    hide GetRiscVFcsr, SetRiscVFcsr;
    var t := Step(s, Scope(rm, raised));
    ReadFields(s);
    ReadFields(t);
    ScopeAddsRaisedFlags(s.host, rm, raised);
    StillLive(s.fcsr & 0x1f, Flags(s.host), RaisedFlags(s.host, raised));
  }

  lemma StillLive(stored: bv32, live: bv32, more: bv32)
    requires stored & !live == 0
    ensures stored & !(live | more) == 0
  {
  }

  lemma FcsrSetKeepsInv(s: State, value: bv32)
    requires Inv(s)
    ensures Inv(FcsrBitsSet(s, value))
  {
    hide FcsrWritten;
    FcsrWriteKeepsInv(s, s.fcsr | value);
  }

  lemma FcsrClearKeepsInv(s: State, value: bv32)
    requires Inv(s)
    ensures Inv(FcsrBitsCleared(s, value))
  {
    hide FcsrWritten;
    FcsrWriteKeepsInv(s, s.fcsr & !value);
  }

  lemma FrmBitsKeepInv(s: State, value: bv32)
    requires Inv(s)
    ensures Inv(FrmBitsSet(s, value)) && Inv(FrmBitsCleared(s, value))
  {
    FrmWriteKeepsInv(s, FrmRead(s) | value);
    FrmWriteKeepsInv(s, FrmRead(s) & !value);
  }

  lemma FflagsBitsKeepInv(s: State, value: bv32)
    requires Inv(s)
    ensures Inv(FflagsBitsSet(s, value)) && Inv(FflagsBitsCleared(s, value))
  {
    FflagsWriteKeepsMode(s, FflagsRead(s) | value);
    FflagsWriteKeepsMode(s, FflagsRead(s) & !value);
  }

  lemma StepKeepsInv(s: State, e: Event)
    requires Inv(s)
    ensures Inv(Step(s, e))
  {
    hide FcsrRead, FrmRead, FflagsRead, LegalMode, StoredFlagsAreLive, FcsrWritten, FrmWritten, FflagsWritten, RoundingModeSet;
    hide FcsrBitsSet, FcsrBitsCleared, FrmBitsSet, FrmBitsCleared, FflagsBitsSet, FflagsBitsCleared;
    match e
    case FcsrWrite(v) => FcsrWriteKeepsInv(s, v);
    case FcsrSet(v) => FcsrSetKeepsInv(s, v);
    case FcsrClear(v) => FcsrClearKeepsInv(s, v);
    case FrmWrite(v) => FrmWriteKeepsInv(s, v);
    case FrmSet(v) => FrmBitsKeepInv(s, v);
    case FrmClear(v) => FrmBitsKeepInv(s, v);
    case FflagsWrite(v) => FflagsWriteKeepsMode(s, v);
    case FflagsSet(v) => FflagsBitsKeepInv(s, v);
    case FflagsClear(v) => FflagsBitsKeepInv(s, v);
    case SetMode(mode) => SetModeKeepsInv(s, mode);
    case Scope(rm, raised) => ScopeKeepsInv(s, rm, raised);
  }

  /** Over every run of accesses, mode changes and scopes from the initial state. */
  lemma {:induction false} RunKeepsInv(host: Regs, es: seq<Event>)
    ensures Inv(Run(State(0, host, 0, true), es))
  {
    if es == [] {
      var s := State(0, host, 0, true);
      ReadFields(s);
      NothingStored(Flags(host));
    } else {
      RunKeepsInv(host, es[..|es| - 1]);
      StepKeepsInv(Run(State(0, host, 0, true), es[..|es| - 1]), es[|es| - 1]);
    }
  }

  lemma NothingStored(live: bv32)
    ensures (0 as bv32 >> 5) & 0x7 == 0
    ensures 0 as bv32 & 0x1f & !live == 0
  {
  }

  // ----- validity

  /** Naming a legal mode, by a write of fcsr or frm or directly, leaves the mode marked invalid exactly when it is the
      mode already held while that is marked invalid. */
  lemma LegalWriteStaysInvalidIff(s: State, value: bv32)
    ensures LegalMode((value >> 5) & 0x7) ==>
      (!FcsrWritten(s, value).valid <==> (value >> 5) & 0x7 == s.held && !s.valid)
    ensures LegalMode(value & 0x7) ==>
      (!FrmWritten(s, value).valid <==> value & 0x7 == s.held && !s.valid)
    ensures LegalMode(value) ==>
      (!RoundingModeSet(s, value).valid <==> value == s.held && !s.valid)
  {
    hide FcsrRead;
    ByteFields(value);
    FrmWrittenField(s, value);
  }

  lemma FrmWrittenField(s: State, value: bv32)
    ensures FrmWritten(s, value).valid ==
      if value & 0x7 == s.held then s.valid else LegalMode(value & 0x7)
  {
    hide FcsrRead, GetRiscVFcsr, SetRiscVFcsr;
    var w := (FcsrRead(s) & 0x1f) | ((value & 0x7) << 5);
    JoinedFields(FcsrRead(s), value & 0x7);
    ByteFields(w);
  }

  /** An illegal mode, then the mode held all along: frm is legal and equals the held mode, and is still refused. */
  lemma RewriteStaysInvalid(host: Regs)
    ensures var s := Run(State(0, host, 0, true), [FrmWrite(5), FrmWrite(0)]);
      FrmRead(s) == 0 && s.held == 0 && !s.valid
  {
  }

  /** From the initial state a write of frm is accepted exactly for the modes 0 to 4. */
  lemma FiveModesAreLegal(host: Regs, value: bv32)
    ensures var t := Run(State(0, host, 0, true), [FrmWrite(value)]);
      FrmRead(t) == value & 0x7 && (t.valid <==> value & 0x7 <= 4) && t.held == if value & 0x7 <= 4 then value & 0x7 else 0
  {
    hide FcsrRead, FrmRead;
    var s := State(0, host, 0, true);
    assert Run(s, []) == s;
    assert [FrmWrite(value)][..0] == [];
    FrmWriteKeepsFlags(s, value);
    FrmWrittenField(s, value);
    FrmWrittenMode(s, value);
  }

  lemma FrmWrittenMode(s: State, value: bv32)
    ensures FrmWritten(s, value).held == if LegalMode(value & 0x7) then value & 0x7 else s.held
  {
    hide FcsrRead, GetRiscVFcsr, SetRiscVFcsr;
    var w := (FcsrRead(s) & 0x1f) | ((value & 0x7) << 5);
    JoinedFields(FcsrRead(s), value & 0x7);
    ByteFields(w);
  }

  /** A direct change to an illegal mode only marks the mode invalid. */
  lemma IllegalModeIsRefused(s: State, mode: bv32)
    requires Inv(s) && mode > 4
    ensures RoundingModeSet(s, mode) == s.(valid := false)
  {
  }

  /** The last legal mode that frm held after some event, or 0. */
  function LastLegalMode(s: State, es: seq<Event>): bv32 {
    if es == [] then 0
    else if LegalMode(FrmRead(Run(s, es))) then FrmRead(Run(s, es))
    else LastLegalMode(s, es[..|es| - 1])
  }

  /** Over every run the held mode is the last legal one. */
  lemma {:induction false} HeldIsTheLastLegalMode(host: Regs, es: seq<Event>)
    ensures var s := State(0, host, 0, true);
      Run(s, es).held == LastLegalMode(s, es)
  {
    hide Step, LegalMode, FrmRead;
    var s := State(0, host, 0, true);
    if es == [] {
    } else {
      var before, e := es[..|es| - 1], es[|es| - 1];
      HeldIsTheLastLegalMode(host, before);
      RunKeepsInv(host, before);
      RunKeepsInv(host, es);
      StepHoldsLegalMode(Run(s, before), e);
    }
  }

  /** t holds the mode s did, unless frm is legal in t. */
  ghost predicate HoldsLegalMode(s: State, t: State) {
    LegalMode(FrmRead(t)) || t.held == s.held
  }

  lemma StepHoldsLegalMode(s: State, e: Event)
    ensures HoldsLegalMode(s, Step(s, e))
  {
    hide HoldsLegalMode, FcsrWritten, FrmWritten, FflagsWritten, RoundingModeSet, AfterScope;
    hide FcsrBitsSet, FcsrBitsCleared, FrmBitsSet, FrmBitsCleared, FflagsBitsSet, FflagsBitsCleared;
    match e
    case FcsrWrite(v) => FcsrWriteHolds(s, v);
    case FcsrSet(v) => FcsrBitsHold(s, v);
    case FcsrClear(v) => FcsrBitsHold(s, v);
    case FrmWrite(v) => FrmWriteHolds(s, v);
    case FrmSet(v) => FrmBitsHold(s, v);
    case FrmClear(v) => FrmBitsHold(s, v);
    case FflagsWrite(v) => FflagsWriteHolds(s, v);
    case FflagsSet(v) => FflagsBitsHold(s, v);
    case FflagsClear(v) => FflagsBitsHold(s, v);
    case SetMode(mode) => SetModeHolds(s, mode);
    case Scope(rm, raised) => ScopeHolds(s, rm, raised);
  }

  lemma FcsrWriteHolds(s: State, value: bv32)
    ensures HoldsLegalMode(s, FcsrWritten(s, value))
  {
    hide FcsrRead, GetRiscVFcsr, SetRiscVFcsr;
    FcsrWriteIsRead(s, value);
    ByteFields(value);
  }

  lemma FcsrBitsHold(s: State, value: bv32)
    ensures HoldsLegalMode(s, FcsrBitsSet(s, value)) && HoldsLegalMode(s, FcsrBitsCleared(s, value))
  {
    hide HoldsLegalMode, FcsrWritten;
    FcsrWriteHolds(s, s.fcsr | value);
    FcsrWriteHolds(s, s.fcsr & !value);
  }

  lemma FrmWriteHolds(s: State, value: bv32)
    ensures HoldsLegalMode(s, FrmWritten(s, value))
  {
    hide HoldsLegalMode, FcsrRead, FcsrWritten;
    FcsrWriteHolds(s, (FcsrRead(s) & 0x1f) | ((value & 0x7) << 5));
  }

  lemma FrmBitsHold(s: State, value: bv32)
    ensures HoldsLegalMode(s, FrmBitsSet(s, value)) && HoldsLegalMode(s, FrmBitsCleared(s, value))
  {
    hide HoldsLegalMode, FrmRead, FrmWritten;
    FrmWriteHolds(s, FrmRead(s) | value);
    FrmWriteHolds(s, FrmRead(s) & !value);
  }

  lemma FflagsWriteHolds(s: State, value: bv32)
    ensures HoldsLegalMode(s, FflagsWritten(s, value))
  {
    hide FcsrRead, FrmRead, FcsrWritten, LegalMode;
    FcsrWriteHolds(s, (FcsrRead(s) & 0xffff_ffe0) | (value & 0x1f));
  }

  lemma FflagsBitsHold(s: State, value: bv32)
    ensures HoldsLegalMode(s, FflagsBitsSet(s, value)) && HoldsLegalMode(s, FflagsBitsCleared(s, value))
  {
    hide HoldsLegalMode, FflagsRead, FflagsWritten;
    FflagsWriteHolds(s, FflagsRead(s) | value);
    FflagsWriteHolds(s, FflagsRead(s) & !value);
  }

  lemma SetModeHolds(s: State, mode: bv32)
    ensures HoldsLegalMode(s, RoundingModeSet(s, mode))
  {
    hide FcsrRead, FrmRead, FrmWritten;
    if mode != s.held && LegalMode(mode) {
      LegalModeIsStored(s, mode);
    }
  }

  lemma ScopeHolds(s: State, rm: Rm, raised: bv32)
    ensures HoldsLegalMode(s, Step(s, Scope(rm, raised)))
  {
    hide FrmRead, LegalMode, AfterScope;
  }

  // ----- sticky flags

  predicate Sticky(e: Event) {
    e.FflagsSet? || e.FrmWrite? || e.FrmSet? || e.FrmClear? || e.SetMode? || e.Scope?
  }

  /** The flags an event raises by itself. */
  function Raised(host: Regs, e: Event): bv32 {
    match e
    case FflagsSet(v) => v & 0x1f
    case Scope(_, raised) => RaisedFlags(host, raised)
    case _ => 0
  }

  function RaisedBy(host: Regs, es: seq<Event>): bv32 {
    if es == [] then 0 else RaisedBy(host, es[..|es| - 1]) | Raised(host, es[|es| - 1])
  }

  /** Only the kind of host matters for the flags raised. */
  lemma StickyRunExtends(s: State, t: State, before: seq<Event>, e: Event)
    requires SameHost(s.host, t.host) && FflagsRead(t) == FflagsRead(s) | RaisedBy(s.host, before)
    requires FflagsRead(Step(t, e)) == FflagsRead(t) | Raised(t.host, e)
    ensures FflagsRead(Step(t, e)) == FflagsRead(s) | RaisedBy(s.host, before + [e])
  {
    hide Step, FflagsRead, Flags;
    assert Raised(t.host, e) == Raised(s.host, e);
    assert (before + [e])[..|before|] == before;
    OrAssociates(FflagsRead(s), RaisedBy(s.host, before), Raised(s.host, e));
  }

  lemma OrAssociates(a: bv32, b: bv32, c: bv32)
    ensures (a | b) | c == a | (b | c)
  {
  }

  lemma StepKeepsHost(s: State, e: Event)
    ensures SameHost(s.host, Step(s, e).host)
  {
    hide FcsrRead, FrmRead, FflagsRead, FcsrWritten, AfterScope;
    HostKindIsFixed();
    WritesKeepHost();
  }

  lemma WritesKeepHost()
    ensures forall s: State, v: bv32 :: SameHost(s.host, FcsrWritten(s, v).host)
  {
  }

  lemma HostKindIsFixed()
    ensures forall r: Regs, fcsr: bv32 :: SameHost(r, SetRiscVFcsr(r, fcsr))
    ensures forall r: Regs, rm: Rm, raised: bv32 :: SameHost(r, AfterScope(r, rm, raised))
  {
  }

  /** Over a run without a write that clears flags, fflags is what it was or-ed with exactly what was raised. */
  lemma {:induction false} FlagsAreSticky(s: State, es: seq<Event>)
    requires Inv(s) && forall e | e in es :: Sticky(e)
    ensures Inv(Run(s, es)) && SameHost(s.host, Run(s, es).host)
    ensures FflagsRead(Run(s, es)) == FflagsRead(s) | RaisedBy(s.host, es)
  {
    hide Inv, FflagsRead, Step, Raised;
    if es == [] {
      OrNothing(FflagsRead(s));
    } else {
      var before, e := es[..|es| - 1], es[|es| - 1];
      assert es == before + [e];
      assert forall d | d in before :: d in es;
      FlagsAreSticky(s, before);
      var t := Run(s, before);
      StepKeepsInv(t, e);
      StepKeepsHost(t, e);
      StickyStep(t, e);
      StickyRunExtends(s, t, before, e);
    }
  }

  lemma OrNothing(a: bv32)
    ensures a | 0 == a
  {
  }

  lemma StickyStep(t: State, e: Event)
    requires Inv(t) && Sticky(e)
    ensures FflagsRead(Step(t, e)) == FflagsRead(t) | Raised(t.host, e)
  {
    hide Inv, FflagsRead, FcsrWritten, FrmWritten, FflagsBitsSet, FrmBitsSet, FrmBitsCleared, RoundingModeSet, AfterScope, RaisedFlags;
    if e.FflagsSet? {
      FflagsSetAddsFlags(t, e.v);
    } else if e.Scope? {
      ScopeKeepsInv(t, e.rm, e.raised);
    } else {
      QuietStep(t, e);
      OrNothing(FflagsRead(t));
    }
  }

  lemma QuietStep(t: State, e: Event)
    requires Inv(t) && (e.FrmWrite? || e.FrmSet? || e.FrmClear? || e.SetMode?)
    ensures FflagsRead(Step(t, e)) == FflagsRead(t)
  {
    hide Inv, FflagsRead, FrmWritten, RoundingModeSet, FrmBitsSet, FrmBitsCleared;
    match e
    case FrmWrite(v) => FrmWriteKeepsFlags(t, v);
    case FrmSet(v) => FrmBitsKeepFlags(t, v);
    case FrmClear(v) => FrmBitsKeepFlags(t, v);
    case SetMode(mode) => SetModeKeepsInv(t, mode);
  }

  lemma FrmBitsKeepFlags(s: State, value: bv32)
    ensures FflagsRead(FrmBitsSet(s, value)) == FflagsRead(FrmBitsCleared(s, value)) == FflagsRead(s)
  {
    hide FflagsRead, FrmRead, FrmWritten;
    FrmWriteKeepsFlags(s, FrmRead(s) | value);
    FrmWriteKeepsFlags(s, FrmRead(s) & !value);
  }

  lemma FflagsSetAddsFlags(s: State, value: bv32)
    ensures FflagsRead(FflagsBitsSet(s, value)) == FflagsRead(s) | (value & 0x1f)
  {
    hide FflagsRead, FflagsBitsSet;
    FflagsSetIsRead(s, value);
    FlagsUnion(s, value);
  }

  lemma FflagsSetIsRead(s: State, value: bv32)
    ensures FflagsRead(FflagsBitsSet(s, value)) == (FflagsRead(s) | value) & 0x1f
  {
    hide FcsrRead, FflagsWritten;
    FflagsWriteIsRead(s, FflagsRead(s) | value);
  }

  lemma FlagsUnion(s: State, v: bv32)
    ensures (FflagsRead(s) | v) & 0x1f == FflagsRead(s) | (v & 0x1f)
  {
  }

  /** SetBits and ClearBits on fflags and frm or the argument into the field, or take its bits out, and leave the other
      field alone. */
  lemma FieldBitAccessIsRead(s: State, value: bv32)
    ensures FflagsRead(FflagsBitsSet(s, value)) == FflagsRead(s) | (value & 0x1f)
    ensures FflagsRead(FflagsBitsCleared(s, value)) == FflagsRead(s) & !value
    ensures FrmRead(FflagsBitsSet(s, value)) == FrmRead(FflagsBitsCleared(s, value)) == FrmRead(s)
    ensures FrmRead(FrmBitsSet(s, value)) == FrmRead(s) | (value & 0x7)
    ensures FrmRead(FrmBitsCleared(s, value)) == FrmRead(s) & !value
    ensures FflagsRead(FrmBitsSet(s, value)) == FflagsRead(FrmBitsCleared(s, value)) == FflagsRead(s)
  {
    hide FflagsRead, FrmRead, FflagsBitsSet, FflagsBitsCleared, FrmBitsSet, FrmBitsCleared;
    FflagsSetAddsFlags(s, value);
    FflagsClearTakesFlags(s, value);
    FflagsBitsKeepFrm(s, value);
    FrmBitsAreRead(s, value);
    FrmBitsKeepFlags(s, value);
  }

  lemma FflagsClearTakesFlags(s: State, value: bv32)
    ensures FflagsRead(FflagsBitsCleared(s, value)) == FflagsRead(s) & !value
  {
    hide FflagsRead, FflagsWritten;
    FflagsWriteIsRead(s, FflagsRead(s) & !value);
    FlagsInFive(s);
    StillInMask(FflagsRead(s), value, 0x1f);
  }

  lemma StillInMask(field: bv32, value: bv32, mask: bv32)
    requires field & mask == field
    ensures field & !value & mask == field & !value
    ensures (field | value) & mask == field | (value & mask)
  {
  }

  lemma FflagsBitsKeepFrm(s: State, value: bv32)
    ensures FrmRead(FflagsBitsSet(s, value)) == FrmRead(FflagsBitsCleared(s, value)) == FrmRead(s)
  {
    hide FflagsRead, FrmRead, FflagsWritten;
    FflagsWriteIsRead(s, FflagsRead(s) | value);
    FflagsWriteIsRead(s, FflagsRead(s) & !value);
  }

  lemma FrmBitsAreRead(s: State, value: bv32)
    ensures FrmRead(FrmBitsSet(s, value)) == FrmRead(s) | (value & 0x7)
    ensures FrmRead(FrmBitsCleared(s, value)) == FrmRead(s) & !value
  {
    hide FrmRead, FrmWritten;
    FrmWriteKeepsFlags(s, FrmRead(s) | value);
    FrmWriteKeepsFlags(s, FrmRead(s) & !value);
    FrmInThree(s);
    StillInMask(FrmRead(s), value, 0x7);
  }

  lemma FrmInThree(s: State)
    ensures FrmRead(s) & 0x7 == FrmRead(s)
  {
  }

  /** SetBits and ClearBits on fcsr act on frm as on a stored field; what they do to the flags is stated below. */
  lemma FcsrBitAccessOnFrm(s: State, value: bv32)
    ensures FrmRead(FcsrBitsSet(s, value)) == FrmRead(s) | ((value >> 5) & 0x7)
    ensures FrmRead(FcsrBitsCleared(s, value)) == FrmRead(s) & !(value >> 5)
  {
    hide FrmRead, FcsrBitsSet, FcsrBitsCleared;
    FcsrBitsInFrm(s, value);
    StoredFrm(s);
    FieldOfBits(s.fcsr, value);
  }

  lemma FcsrBitsInFrm(s: State, value: bv32)
    ensures FrmRead(FcsrBitsSet(s, value)) == ((s.fcsr | value) >> 5) & 0x7
    ensures FrmRead(FcsrBitsCleared(s, value)) == ((s.fcsr & !value) >> 5) & 0x7
  {
    hide FrmRead, FcsrWritten;
    FcsrWriteIsRead(s, s.fcsr | value);
    FcsrWriteIsRead(s, s.fcsr & !value);
  }

  lemma StoredFrm(s: State)
    ensures FrmRead(s) == (s.fcsr >> 5) & 0x7
  {
  }

  lemma FieldOfBits(fcsr: bv32, value: bv32)
    ensures ((fcsr | value) >> 5) & 0x7 == ((fcsr >> 5) & 0x7) | ((value >> 5) & 0x7)
    ensures ((fcsr & !value) >> 5) & 0x7 == ((fcsr >> 5) & 0x7) & !(value >> 5)
  {
  }

  /** SetBits and ClearBits on fcsr itself start from the stored flags: they do to the live flags what was asked
      exactly when no live flag outside the argument is missing from the stored value. */
  lemma FcsrBitAccessKeepsFlagsIff(s: State, value: bv32)
    requires Inv(s)
    ensures FflagsRead(FcsrBitsSet(s, value)) == (FflagsRead(s) | value) & 0x1f
      <==> FflagsRead(s) & !s.fcsr & !value == 0
    ensures FflagsRead(FcsrBitsCleared(s, value)) == FflagsRead(s) & !value
      <==> FflagsRead(s) & !s.fcsr & !value == 0
  {
    hide FflagsRead, FcsrBitsSet, FcsrBitsCleared;
    FcsrBitAccessIsRead(s, value);
    FlagsInFive(s);
    SetLossIff(s.fcsr, FflagsRead(s), value);
    ClearLossIff(s.fcsr, FflagsRead(s), value);
  }

  lemma FcsrBitAccessIsRead(s: State, value: bv32)
    ensures FflagsRead(FcsrBitsSet(s, value)) == (s.fcsr | value) & 0x1f
    ensures FflagsRead(FcsrBitsCleared(s, value)) == s.fcsr & !value & 0x1f
  {
    hide FflagsRead, FcsrWritten;
    FcsrWriteIsRead(s, s.fcsr | value);
    FcsrWriteIsRead(s, s.fcsr & !value);
  }

  lemma FlagsInFive(s: State)
    ensures FflagsRead(s) & 0x1f == FflagsRead(s)
  {
  }

  lemma SetLossIff(stored: bv32, live: bv32, v: bv32)
    requires live & 0x1f == live && stored & 0x1f & !live == 0
    ensures (stored | v) & 0x1f == (live | v) & 0x1f <==> live & !stored & !v == 0
  {
  }

  lemma ClearLossIff(stored: bv32, live: bv32, v: bv32)
    requires live & 0x1f == live && stored & 0x1f & !live == 0
    ensures stored & !v & 0x1f == live & !v <==> live & !stored & !v == 0
  {
  }

  /** A host operation raises the inexact flag, and setting no bits at all in fcsr loses it. */
  lemma SettingNoBitsLosesAFlag()
    ensures var s := Run(State(0, X86(X86_EXCEPTION_FLAGS), 0, true), [Scope(7, 32)]);
      FflagsRead(s) == 1 && FflagsRead(FcsrBitsSet(s, 0)) == 0
  {
  }

  // ----- the rounding mode a scope without an override runs in

  /** Whether an event stores a new status in the host interface. */
  predicate WritesStatus(s: State, e: Event) {
    match e
    case FflagsWrite(v) => ChangesFlags(s, v)
    case FflagsSet(v) => ChangesFlags(s, FflagsRead(s) | v)
    case FflagsClear(v) => ChangesFlags(s, FflagsRead(s) & !v)
    case SetMode(mode) => mode != s.held && LegalMode(mode)
    case Scope(_, _) => false
    case _ => true
  }

  predicate ChangesFlags(s: State, flags: bv32) {
    flags & 0x1f != FflagsRead(s)
  }

  datatype Override = NoOverride | Override(rm: Rm)

  /** The rounding override of the last scope that had one since the last status write. */
  function LastOverride(s: State, es: seq<Event>): Override {
    if es == [] then NoOverride
    else
      var before, e := es[..|es| - 1], es[|es| - 1];
      NextOverride(Run(s, before), e, LastOverride(s, before))
  }

  function NextOverride(s: State, e: Event, last: Override): Override {
    if WritesStatus(s, e) then NoOverride
    else if e.Scope? && e.rm != 7 then Override(e.rm)
    else last
  }

  /** The rounding field left in the host interface: on x86 the last override's, or else frm's; on ARM always 0. */
  ghost predicate CachedMode(s: State, last: Override) {
    HostMode(s.host) ==
      if s.host.Arm? then 0
      else ModeFor(s.host, if last.NoOverride? then FrmRead(s) else last.rm)
  }

  lemma FcsrWriteCachesMode(s: State, value: bv32)
    ensures CachedMode(FcsrWritten(s, value), NoOverride)
  {
    hide GetRiscVFcsr, SetRiscVFcsr, HostMode, ModeFor;
    var t := FcsrWritten(s, value);
    FcsrWriteIsRead(s, value);
    ByteFields(value);
    StatusWriteSetsMode(s.host, value & 0xff);
    ModeDependsOnKind(s.host, t.host, FrmRead(t));
  }

  lemma FrmWriteCachesMode(s: State, value: bv32)
    ensures CachedMode(FrmWritten(s, value), NoOverride)
  {
    hide CachedMode, FcsrRead, FcsrWritten;
    FcsrWriteCachesMode(s, (FcsrRead(s) & 0x1f) | ((value & 0x7) << 5));
  }

  lemma FcsrBitsCacheMode(s: State, value: bv32)
    ensures CachedMode(FcsrBitsSet(s, value), NoOverride) && CachedMode(FcsrBitsCleared(s, value), NoOverride)
  {
    hide CachedMode, FcsrWritten;
    FcsrWriteCachesMode(s, s.fcsr | value);
    FcsrWriteCachesMode(s, s.fcsr & !value);
  }

  lemma FrmBitsCacheMode(s: State, value: bv32)
    ensures CachedMode(FrmBitsSet(s, value), NoOverride) && CachedMode(FrmBitsCleared(s, value), NoOverride)
  {
    hide CachedMode, FrmRead, FrmWritten;
    FrmWriteCachesMode(s, FrmRead(s) | value);
    FrmWriteCachesMode(s, FrmRead(s) & !value);
  }

  /** A write of fflags that changes no flag is not passed on. */
  lemma FflagsWriteCachesMode(s: State, value: bv32)
    ensures var t := FflagsWritten(s, value);
      if ChangesFlags(s, value) then CachedMode(t, NoOverride) else t == s
  {
    hide CachedMode, FcsrRead, FcsrWritten;
    var r := FcsrRead(s);
    UnchangedFlags(r, value);
    FcsrWriteCachesMode(s, (r & 0xffff_ffe0) | (value & 0x1f));
  }

  lemma UnchangedFlags(r: bv32, value: bv32)
    ensures (r & 0xffff_ffe0) | (value & 0x1f) == r <==> value & 0x1f == r & 0x1f
  {
  }

  lemma FflagsWriteStepCachesMode(s: State, value: bv32, last: Override)
    requires CachedMode(s, last)
    ensures CachedMode(Step(s, FflagsWrite(value)), NextOverride(s, FflagsWrite(value), last))
  {
    hide CachedMode, FcsrRead, FcsrWritten, FflagsWritten, ChangesFlags;
    FflagsWriteCachesMode(s, value);
  }

  lemma FflagsSetCachesMode(s: State, value: bv32)
    ensures var t := FflagsBitsSet(s, value);
      if ChangesFlags(s, FflagsRead(s) | value) then CachedMode(t, NoOverride) else t == s
  {
    hide CachedMode, ChangesFlags, FflagsRead, FflagsWritten;
    FflagsWriteCachesMode(s, FflagsRead(s) | value);
  }

  lemma FflagsSetStepCachesMode(s: State, value: bv32, last: Override)
    requires CachedMode(s, last)
    ensures CachedMode(Step(s, FflagsSet(value)), NextOverride(s, FflagsSet(value), last))
  {
    hide CachedMode, ChangesFlags, FflagsRead, FflagsBitsSet, HostMode, ModeFor;
    FflagsSetCachesMode(s, value);
  }

  lemma FflagsClearCachesMode(s: State, value: bv32)
    ensures var t := FflagsBitsCleared(s, value);
      if ChangesFlags(s, FflagsRead(s) & !value) then CachedMode(t, NoOverride) else t == s
  {
    hide CachedMode, ChangesFlags, FflagsRead, FflagsWritten;
    FflagsWriteCachesMode(s, FflagsRead(s) & !value);
  }

  lemma FflagsClearStepCachesMode(s: State, value: bv32, last: Override)
    requires CachedMode(s, last)
    ensures CachedMode(Step(s, FflagsClear(value)), NextOverride(s, FflagsClear(value), last))
  {
    hide CachedMode, ChangesFlags, FflagsRead, FflagsBitsCleared, HostMode, ModeFor;
    FflagsClearCachesMode(s, value);
  }

  lemma SetModeCachesMode(s: State, mode: bv32)
    ensures var t := RoundingModeSet(s, mode);
      if mode != s.held && LegalMode(mode) then CachedMode(t, NoOverride) else SameStatus(s, t)
  {
    hide FrmWritten;
    if mode != s.held && LegalMode(mode) {
      var u := FrmWritten(s.(held := mode), mode);
      FrmWriteCachesMode(s.(held := mode), mode);
      CachedModeIsOfStatus(u, u.(valid := true), NoOverride);
    }
  }

  predicate SameStatus(s: State, t: State) {
    s.fcsr == t.fcsr && s.host == t.host
  }

  /** The held mode and its validity play no part in it. */
  lemma CachedModeIsOfStatus(s: State, t: State, last: Override)
    requires SameStatus(s, t) && CachedMode(s, last)
    ensures CachedMode(t, last)
  {
    hide GetRiscVFcsr, HostMode, ModeFor;
  }

  lemma ScopeStepCachesMode(s: State, rm: Rm, raised: bv32, last: Override)
    requires CachedMode(s, last)
    ensures CachedMode(Step(s, Scope(rm, raised)), NextOverride(s, Scope(rm, raised), last))
  {
    hide FcsrRead, HostMode, ModeFor, AfterScope;
    var t := Step(s, Scope(rm, raised));
    HostKindIsFixed();
    ReadFields(s);
    ReadFields(t);
    ScopeSetsMode(s.host, rm, raised);
    ModeDependsOnKind(s.host, t.host, FrmRead(s));
    ModeDependsOnKind(s.host, t.host, rm);
    if last.Override? {
      ModeDependsOnKind(s.host, t.host, last.rm);
    }
  }

  lemma FieldWriteStepCachesMode(s: State, e: Event, last: Override)
    requires !e.FflagsWrite? && !e.FflagsSet? && !e.FflagsClear? && !e.SetMode? && !e.Scope?
    ensures CachedMode(Step(s, e), NextOverride(s, e, last))
  {
    hide CachedMode, FcsrWritten, FrmWritten, FcsrBitsSet, FcsrBitsCleared, FrmBitsSet, FrmBitsCleared;
    match e
    case FcsrWrite(v) => FcsrWriteCachesMode(s, v);
    case FcsrSet(v) => FcsrBitsCacheMode(s, v);
    case FcsrClear(v) => FcsrBitsCacheMode(s, v);
    case FrmWrite(v) => FrmWriteCachesMode(s, v);
    case FrmSet(v) => FrmBitsCacheMode(s, v);
    case FrmClear(v) => FrmBitsCacheMode(s, v);
  }

  lemma StepCachesMode(s: State, e: Event, last: Override)
    requires CachedMode(s, last)
    ensures CachedMode(Step(s, e), NextOverride(s, e, last))
  {
    hide CachedMode, RoundingModeSet, AfterScope, Step, NextOverride;
    match e
    case FflagsWrite(v) => FflagsWriteStepCachesMode(s, v, last);
    case FflagsSet(v) => FflagsSetStepCachesMode(s, v, last);
    case FflagsClear(v) => FflagsClearStepCachesMode(s, v, last);
    case SetMode(mode) => SetModeStepCachesMode(s, mode, last);
    case Scope(rm, raised) => ScopeStepCachesMode(s, rm, raised, last);
    case _ => FieldWriteStepCachesMode(s, e, last);
  }

  lemma SetModeStepCachesMode(s: State, mode: bv32, last: Override)
    requires CachedMode(s, last)
    ensures CachedMode(Step(s, SetMode(mode)), NextOverride(s, SetMode(mode), last))
  {
    hide CachedMode, RoundingModeSet, FflagsRead;
    SetModeCachesMode(s, mode);
    if !WritesStatus(s, SetMode(mode)) {
      CachedModeIsOfStatus(s, RoundingModeSet(s, mode), last);
    }
  }

  lemma {:induction false} RunCachesMode(host: Regs, es: seq<Event>)
    requires HostMode(host) == 0
    ensures var s := State(0, host, 0, true);
      CachedMode(Run(s, es), LastOverride(s, es)) && SameHost(host, Run(s, es).host)
  {
    hide CachedMode, Step, NextOverride, HostMode;
    var s := State(0, host, 0, true);
    if es == [] {
      InitiallyCached(host);
    } else {
      var before, e := es[..|es| - 1], es[|es| - 1];
      RunCachesMode(host, before);
      StepCachesMode(Run(s, before), e, LastOverride(s, before));
      StepKeepsHost(Run(s, before), e);
    }
  }

  lemma InitiallyCached(host: Regs)
    requires HostMode(host) == 0
    ensures CachedMode(State(0, host, 0, true), NoOverride)
  {
    hide FcsrRead, HostMode;
    ReadFields(State(0, host, 0, true));
    NothingStored(0);
  }

  /** Over every run, a scope without an override runs in the mode of frm exactly when, on x86, the last override since
      the last status write, if any, named the same host mode; and on ARM when frm stands for host mode 0. */
  lemma DynamicScopeModeIff(host: Regs, es: seq<Event>)
    requires HostMode(host) == 0
    ensures var start := State(0, host, 0, true);
      var s, last := Run(start, es), LastOverride(start, es);
      HostMode(Lent(s.host, 7)) == ModeFor(host, FrmRead(s)) <==>
        if host.Arm? then ModeFor(host, FrmRead(s)) == 0
        else last.NoOverride? || ModeFor(host, last.rm) == ModeFor(host, FrmRead(s))
  {
    hide FcsrRead, FrmRead, HostMode, ModeFor, Run, LastOverride;
    var start := State(0, host, 0, true);
    var s, last := Run(start, es), LastOverride(start, es);
    RunCachesMode(host, es);
    ScopeMode(s.host, 7);
    ModeDependsOnKind(host, s.host, FrmRead(s));
    if last.Override? {
      ModeDependsOnKind(host, s.host, last.rm);
    }
  }

  /** Rounding towards zero in one instruction leaves frm at 0 and the next scope without an override at that mode. */
  lemma StaticModeLeaks()
    ensures var s := Run(State(0, X86(X86_EXCEPTION_FLAGS), 0, true), [Scope(1, 0)]);
      FrmRead(s) == 0 && HostMode(Lent(s.host, 7)) == 0x6000 == ModeFor(s.host, 1)
  {
  }

  // ----- what a scope may load

  /** Over every run the cached status has nothing set but flags and rounding field, with every x86 exception masked;
      so has whatever a scope lends. */
  lemma {:induction false} RunStaysLoadable(host: Regs, es: seq<Event>, rm: Rm)
    requires Loadable(host)
    ensures var s := Run(State(0, host, 0, true), es);
      Loadable(s.host) && Loadable(Lent(s.host, rm))
  {
    hide Step, Loadable, Lent;
    var start := State(0, host, 0, true);
    if es == [] {
    } else {
      var before := es[..|es| - 1];
      RunStaysLoadable(host, before, rm);
      StepStaysLoadable(Run(start, before), es[|es| - 1]);
    }
    ScopeIsLoadable(Run(start, es).host, rm, 0);
  }

  lemma StepStaysLoadable(s: State, e: Event)
    requires Loadable(s.host)
    ensures Loadable(Step(s, e).host)
  {
    hide FcsrRead, FrmRead, FflagsRead, FcsrWritten, AfterScope, Loadable;
    FcsrWritesAreLoadable();
    if e.Scope? {
      ScopeIsLoadable(s.host, e.rm, e.raised);
    }
  }

  lemma FcsrWritesAreLoadable()
    ensures forall s: State, v: bv32 :: Loadable(FcsrWritten(s, v).host)
  {
    hide SetRiscVFcsr, Loadable;
    forall s: State, v: bv32 ensures Loadable(FcsrWritten(s, v).host) {
      WritesAreLoadable(s.host, v & 0xff);
    }
  }
}
