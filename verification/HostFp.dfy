/** The host floating-point interface: the simulated status kept in the host's own format between operations, and
    the scope that lends it to the host while one simulated operation runs. A build has one of the two hosts. */
module HostFp {

  // ----- flags

  const NV: bv8 := 16
  const DZ: bv8 := 8
  const OF: bv8 := 4
  const UF: bv8 := 2
  const NX: bv8 := 1

  const X86_PE: bv8 := 32
  const X86_UE: bv8 := 16
  const X86_OE: bv8 := 8
  const X86_ZE: bv8 := 4
  const X86_IE: bv8 := 1

  const ARM_IX: bv8 := 16
  const ARM_UF: bv8 := 8
  const ARM_OF: bv8 := 4
  const ARM_DZ: bv8 := 2
  const ARM_IO: bv8 := 1

  /** Indexed by PE UE OE ZE DE IE; DE has no RISC-V counterpart. */
  function X86FlagsToRiscV(i: bv8): bv8 {
    match i
    case 0 => 0
    case 1 => NV
    case 2 => 0
    case 3 => NV
    case 4 => DZ
    case 5 => DZ | NV
    case 6 => DZ
    case 7 => NV | DZ
    case 8 => OF
    case 9 => OF | NV
    case 10 => OF
    case 11 => OF | NV
    case 12 => OF | DZ
    case 13 => OF | DZ | NV
    case 14 => OF | DZ
    case 15 => OF | DZ | NV
    case 16 => UF
    case 17 => UF | NV
    case 18 => UF
    case 19 => UF | NV
    case 20 => UF | DZ
    case 21 => UF | DZ | NV
    case 22 => UF | DZ
    case 23 => UF | DZ | NV
    case 24 => UF | OF
    case 25 => UF | OF | NV
    case 26 => UF | OF
    case 27 => UF | OF | NV
    case 28 => UF | OF | DZ
    case 29 => UF | OF | DZ | NV
    case 30 => UF | OF | DZ
    case 31 => UF | OF | DZ | NV
    case 32 => NX
    case 33 => NX | NV
    case 34 => NX
    case 35 => NX | NV
    case 36 => NX | DZ
    case 37 => NX | DZ | NV
    case 38 => NX | DZ
    case 39 => NX | NV | DZ
    case 40 => NX | OF
    case 41 => NX | OF | NV
    case 42 => NX | OF
    case 43 => NX | OF | NV
    case 44 => NX | OF | DZ
    case 45 => NX | OF | DZ | NV
    case 46 => NX | OF | DZ
    case 47 => NX | OF | DZ | NV
    case 48 => NX | UF
    case 49 => NX | UF | NV
    case 50 => NX | UF
    case 51 => NX | UF | NV
    case 52 => NX | UF | DZ
    case 53 => NX | UF | DZ | NV
    case 54 => NX | UF | DZ
    case 55 => NX | UF | DZ | NV
    case 56 => NX | UF | OF
    case 57 => NX | UF | OF | NV
    case 58 => NX | UF | OF
    case 59 => NX | UF | OF | NV
    case 60 => NX | UF | OF | DZ
    case 61 => NX | UF | OF | DZ | NV
    case 62 => NX | UF | OF | DZ
    case _ => NX | UF | OF | DZ | NV
  }

  /** Indexed by NV DZ OF UF NX. */
  function RiscVFlagsToX86(i: bv8): bv8 {
    match i
    case 0 => 0
    case 1 => X86_PE
    case 2 => X86_UE
    case 3 => X86_UE | X86_PE
    case 4 => X86_OE
    case 5 => X86_OE | X86_PE
    case 6 => X86_OE | X86_UE
    case 7 => X86_OE | X86_UE | X86_PE
    case 8 => X86_ZE
    case 9 => X86_ZE | X86_PE
    case 10 => X86_ZE | X86_UE
    case 11 => X86_ZE | X86_UE | X86_PE
    case 12 => X86_ZE | X86_OE
    case 13 => X86_ZE | X86_OE | X86_PE
    case 14 => X86_ZE | X86_OE | X86_UE
    case 15 => X86_ZE | X86_OE | X86_UE | X86_PE
    case 16 => X86_IE
    case 17 => X86_IE | X86_PE
    case 18 => X86_IE | X86_UE
    case 19 => X86_IE | X86_UE | X86_PE
    case 20 => X86_IE | X86_OE
    case 21 => X86_IE | X86_OE | X86_PE
    case 22 => X86_IE | X86_OE | X86_UE
    case 23 => X86_IE | X86_OE | X86_UE | X86_PE
    case 24 => X86_IE | X86_ZE
    case 25 => X86_IE | X86_ZE | X86_PE
    case 26 => X86_IE | X86_ZE | X86_UE
    case 27 => X86_IE | X86_ZE | X86_UE | X86_PE
    case 28 => X86_IE | X86_ZE | X86_OE
    case 29 => X86_IE | X86_ZE | X86_OE | X86_PE
    case 30 => X86_IE | X86_ZE | X86_OE | X86_UE
    case _ => X86_IE | X86_ZE | X86_OE | X86_UE | X86_PE
  }

  /** Indexed by IX UF OF DZ IO. */
  function ArmFlagsToRiscV(i: bv8): bv8 {
    match i
    case 0 => 0
    case 1 => NV
    case 2 => DZ
    case 3 => DZ | NV
    case 4 => OF
    case 5 => OF | NV
    case 6 => OF | DZ
    case 7 => OF | DZ | NV
    case 8 => UF
    case 9 => UF | NV
    case 10 => UF | DZ
    case 11 => UF | DZ | NV
    case 12 => UF | OF
    case 13 => UF | OF | NV
    case 14 => UF | OF | DZ
    case 15 => UF | OF | DZ | NV
    case 16 => NX
    case 17 => NX | NV
    case 18 => NX | DZ
    case 19 => NX | DZ | NV
    case 20 => NX | OF
    case 21 => NX | OF | NV
    case 22 => NX | OF | DZ
    case 23 => NX | OF | DZ | NV
    case 24 => NX | UF
    case 25 => NX | UF | NV
    case 26 => NX | UF | DZ
    case 27 => NX | UF | DZ | NV
    case 28 => NX | UF | OF
    case 29 => NX | UF | OF | NV
    case 30 => NX | UF | OF | DZ
    case _ => NX | UF | OF | DZ | NV
  }

  /** Indexed by NV DZ OF UF NX. */
  function RiscVFlagsToArm(i: bv8): bv8 {
    match i
    case 0 => 0
    case 1 => ARM_IX
    case 2 => ARM_UF
    case 3 => ARM_UF | ARM_IX
    case 4 => ARM_OF
    case 5 => ARM_OF | ARM_IX
    case 6 => ARM_OF | ARM_UF
    case 7 => ARM_OF | ARM_UF | ARM_IX
    case 8 => ARM_DZ
    case 9 => ARM_DZ | ARM_IX
    case 10 => ARM_DZ | ARM_UF
    case 11 => ARM_DZ | ARM_UF | ARM_IX
    case 12 => ARM_DZ | ARM_OF
    case 13 => ARM_DZ | ARM_OF | ARM_IX
    case 14 => ARM_DZ | ARM_OF | ARM_UF
    case 15 => ARM_DZ | ARM_OF | ARM_UF | ARM_IX
    case 16 => ARM_IO
    case 17 => ARM_IO | ARM_IX
    case 18 => ARM_IO | ARM_UF
    case 19 => ARM_IO | ARM_UF | ARM_IX
    case 20 => ARM_IO | ARM_OF
    case 21 => ARM_IO | ARM_OF | ARM_IX
    case 22 => ARM_IO | ARM_OF | ARM_UF
    case 23 => ARM_IO | ARM_OF | ARM_UF | ARM_IX
    case 24 => ARM_IO | ARM_DZ
    case 25 => ARM_IO | ARM_DZ | ARM_IX
    case 26 => ARM_IO | ARM_DZ | ARM_UF
    case 27 => ARM_IO | ARM_DZ | ARM_UF | ARM_IX
    case 28 => ARM_IO | ARM_DZ | ARM_OF
    case 29 => ARM_IO | ARM_DZ | ARM_OF | ARM_IX
    case 30 => ARM_IO | ARM_DZ | ARM_OF | ARM_UF
    case _ => ARM_IO | ARM_DZ | ARM_OF | ARM_UF | ARM_IX
  }

  ghost predicate X86EntryIsBitwise(i: bv8) {
    X86FlagsToRiscV(i) == ((i & 1) << 4) | ((i & 4) << 1) | ((i & 8) >> 1) | ((i & 16) >> 3) | ((i & 32) >> 5)
  }

  lemma X86FirstHalf(i: bv8)
    requires 0 <= i < 32
    ensures X86EntryIsBitwise(i)
  {
  }

  lemma X86ThirdQuarter(i: bv8)
    requires 32 <= i < 48
    ensures X86EntryIsBitwise(i)
  {
  }

  lemma X86SeventhEighth(i: bv8)
    requires 48 <= i < 56
    ensures X86EntryIsBitwise(i)
  {
  }

  lemma X86LastEighth(i: bv8)
    requires 56 <= i < 64
    ensures X86EntryIsBitwise(i)
  {
  }

  lemma X86TableIsBitwise(i: bv8)
    requires i < 64
    ensures X86EntryIsBitwise(i)
  {
    if i < 32 {
      X86FirstHalf(i);
    } else if i < 48 {
      X86ThirdQuarter(i);
    } else if i < 56 {
      X86SeventhEighth(i);
    } else {
      X86LastEighth(i);
    }
  }

  lemma ArmTableIsBitwise(i: bv8)
    requires i < 32
    ensures ArmFlagsToRiscV(i)
         == ((i & 1) << 4) | ((i & 2) << 2) | (i & 4) | ((i & 8) >> 2) | ((i & 16) >> 4)
  {
  }

  lemma ToX86IsBitwise(i: bv8)
    requires i < 32
    ensures RiscVFlagsToX86(i)
         == ((i & 16) >> 4) | ((i & 8) >> 1) | ((i & 4) << 1) | ((i & 2) << 3) | ((i & 1) << 5)
  {
  }

  lemma ToArmIsBitwise(i: bv8)
    requires i < 32
    ensures RiscVFlagsToArm(i)
         == ((i & 16) >> 4) | ((i & 8) >> 2) | (i & 4) | ((i & 2) << 2) | ((i & 1) << 4)
  {
  }

  // ----- rounding modes

  function RiscVToX86RoundingMode(rm: bv32): bv32 {
    match rm
    case 1 => 0x6000
    case 2 => 0x2000
    case 3 => 0x4000
    case _ => 0x0000
  }

  function X86ToRiscVRoundingMode(i: bv32): bv32 {
    match i
    case 0 => 0
    case 1 => 2
    case 2 => 3
    case _ => 1
  }

  /** The entries are already in the place the rounding mode has in FPCR, bits 22 and 23. */
  function RiscVToArmRoundingMode(rm: bv32): bv32 {
    match rm
    case 1 => 0xc0_0000
    case 2 => 0x80_0000
    case 3 => 0x40_0000
    case _ => 0x00_0000
  }

  function ArmToRiscVRoundingMode(i: bv64): bv32 {
    match i
    case 0 => 0
    case 1 => 3
    case 2 => 2
    case _ => 1
  }

  // ----- the cached simulated status

  /** Host registers: MXCSR, or FPCR and FPSR. The interface caches the simulated program's copy, the processor holds
      the live one. */
  datatype Regs = X86(status: bv32) | Arm(fpcr: bv64, fpsr: bv64)

  const X86_EXCEPTION_FLAGS: bv32 := 0x1f80

  function GetRiscVFcsr(r: Regs): bv32 {
    match r
    case X86(status) =>
      var rm := X86ToRiscVRoundingMode((status >> 13) & 0x3);
      var flags := X86FlagsToRiscV((status & 0x3f) as bv8) as bv32;
      (rm << 5) | (flags & 0x1f)
    case Arm(fpcr, fpsr) =>
      var rm := ArmToRiscVRoundingMode((fpcr >> 22) & 0x3);
      var flags := ArmFlagsToRiscV((fpsr & 0x1f) as bv8) as bv32;
      (rm << 5) | (flags & 0x1f)
  }

  /** Only the kind of host matters in r. On ARM the 32-bit table entry is shifted by 22 a second time. */
  function SetRiscVFcsr(r: Regs, fcsr: bv32): Regs {
    var rm := (fcsr >> 5) & 0x7;
    var flags := (fcsr & 0x1f) as bv8;
    match r
    case X86(_) => X86(X86_EXCEPTION_FLAGS | RiscVToX86RoundingMode(rm) | (RiscVFlagsToX86(flags) as bv32))
    case Arm(_, _) => Arm((RiscVToArmRoundingMode(rm) << 22) as bv64, RiscVFlagsToArm(flags) as bv64)
  }

  /** The five RISC-V flags of a status. */
  function Flags(r: Regs): bv32 {
    GetRiscVFcsr(r) & 0x1f
  }

  /** The rounding field of a status, in the host's format. */
  function HostMode(r: Regs): bv64 {
    match r
    case X86(status) => (status & 0x6000) as bv64
    case Arm(fpcr, _) => fpcr & 0xc0_0000
  }

  /** The rounding field that stands for a RISC-V rounding mode. */
  function ModeFor(r: Regs, rm: bv32): bv64 {
    match r
    case X86(_) => RiscVToX86RoundingMode(rm) as bv64
    case Arm(_, _) => RiscVToArmRoundingMode(rm) as bv64
  }

  // ----- what the interface keeps

  /** The flags of a status, without the table. */
  function FlagsByBit(r: Regs): bv32 {
    match r
    case X86(s) => ((s & 1) << 4) | ((s & 4) << 1) | ((s & 8) >> 1) | ((s & 16) >> 3) | ((s & 32) >> 5)
    case Arm(_, s) => (((s & 1) << 4) | ((s & 2) << 2) | (s & 4) | ((s & 8) >> 2) | ((s & 16) >> 4)) as bv32
  }

  lemma FlagsAreBitwise(r: Regs)
    ensures Flags(r) == FlagsByBit(r)
  {
    match r
    case X86(status) => X86TableIsBitwise((status & 0x3f) as bv8);
    case Arm(fpcr, fpsr) => ArmTableIsBitwise((fpsr & 0x1f) as bv8);
  }

  /** Flags written through the interface are read back, on both hosts. */
  lemma FlagsRoundTrip(r: Regs, fcsr: bv32)
    ensures Flags(SetRiscVFcsr(r, fcsr)) == fcsr & 0x1f
  {
    var flags := (fcsr & 0x1f) as bv8;
    FlagsAreBitwise(SetRiscVFcsr(r, fcsr));
    match r
    case X86(_) => ToX86IsBitwise(flags);
    case Arm(_, _) => ToArmIsBitwise(flags);
  }

  /** The rounding field survives a write exactly for modes 0 to 3 on x86 (4 is kept as 0), and only for mode 0 on
      ARM, where the second shift moves every mode out of the 32-bit word. */
  lemma RoundingModeRoundTripIff(r: Regs, fcsr: bv32)
    ensures var rm := (fcsr >> 5) & 0x7;
      (GetRiscVFcsr(SetRiscVFcsr(r, fcsr)) >> 5) & 0x7 == rm <==> if r.X86? then rm <= 3 else rm == 0
    ensures HostMode(SetRiscVFcsr(r, fcsr)) == ModeFor(r, (fcsr >> 5) & 0x7)
      <==> r.X86? || ModeFor(r, (fcsr >> 5) & 0x7) == 0
  {
  }

  /** On x86 a status write stores the field of the mode written, on ARM field 0. */
  lemma StatusWriteSetsMode(r: Regs, fcsr: bv32)
    ensures var t := SetRiscVFcsr(r, fcsr);
      && (t.X86? <==> r.X86?)
      && HostMode(t) == if r.X86? then ModeFor(r, (fcsr >> 5) & 0x7) else 0
  {
    hide RiscVFlagsToX86, RiscVFlagsToArm;
    X86FlagsAreLow((fcsr & 0x1f) as bv8);
  }

  lemma X86FlagsAreLow(i: bv8)
    requires i < 32
    ensures RiscVFlagsToX86(i) < 64
  {
    hide RiscVFlagsToX86;
    ToX86IsBitwise(i);
  }

  lemma ModeDependsOnKind(a: Regs, b: Regs, rm: bv32)
    requires a.X86? <==> b.X86?
    ensures ModeFor(a, rm) == ModeFor(b, rm)
  {
  }

  // ----- lending the status to the host

  predicate SameHost(a: Regs, b: Regs) {
    a.X86? <==> b.X86?
  }

  /** What the scope loads into the processor; rm 7 keeps the cached rounding field, any other mode overrides it. */
  function Lent(cached: Regs, rm: bv32): (r: Regs)
    requires rm < 8
    ensures SameHost(r, cached)
  {
    match cached
    case X86(status) => X86(if rm != 7 then RiscVToX86RoundingMode(rm) | (status & 0x1fff) else status)
    case Arm(fpcr, fpsr) => Arm(if rm != 7 then RiscVToArmRoundingMode(rm) as bv64 else fpcr, fpsr)
  }

  /** One host operation: it can only set status flags. */
  function Operated(cpu: Regs, raised: bv32): (r: Regs)
    ensures SameHost(r, cpu)
  {
    match cpu
    case X86(status) => X86(status | (raised & 0x3f))
    case Arm(fpcr, fpsr) => Arm(fpcr, fpsr | raised as bv64)
  }

  /** What the end of the scope stores in the cache, given the rounding field saved at its start. On x86 the whole
      status is stored, with the rounding field the scope ran in; on ARM the saved field is put back. */
  function TakenBack(cpu: Regs, hostRm: bv32): Regs {
    match cpu
    case X86(status) => X86(X86_EXCEPTION_FLAGS | status)
    case Arm(fpcr, fpsr) => Arm(hostRm as bv64, fpsr)
  }

  /** The processor's own status, packed into 64 bits for the length of the scope. */
  function Packed(cpu: Regs): bv64 {
    match cpu
    case X86(status) => status as bv64
    case Arm(fpcr, fpsr) => (fpsr << 32) | (fpcr & 0xffff_ffff)
  }

  function Unpacked(cpu: Regs, packed: bv64): Regs {
    match cpu
    case X86(_) => X86((packed & 0xffff_ffff) as bv32)
    case Arm(_, _) => Arm(packed & 0xffff_ffff, packed >> 32)
  }

  /** FPCR and FPSR define no bits above bit 31. */
  predicate Architectural(cpu: Regs) {
    cpu.Arm? ==> cpu.fpcr <= 0xffff_ffff && cpu.fpsr <= 0xffff_ffff
  }

  /** The cache after a whole scope. */
  function AfterScope(cached: Regs, rm: bv32, raised: bv32): Regs
    requires rm < 8
  {
    TakenBack(Operated(Lent(cached, rm), raised), HostMode(cached) as bv32)
  }

  /** The RISC-V flags among the host flags an operation raised. */
  function RaisedFlags(host: Regs, raised: bv32): bv32 {
    match host
    case X86(_) => Flags(X86(raised))
    case Arm(_, _) => Flags(Arm(0, raised as bv64))
  }

  class HostInterface {
    var regs: Regs

    constructor (host: Regs)
      ensures regs == if host.X86? then X86(X86_EXCEPTION_FLAGS) else Arm(0, 0)
    {
      regs := if host.X86? then X86(X86_EXCEPTION_FLAGS) else Arm(0, 0);
    }

    method Get() returns (fcsr: bv32)
      ensures fcsr == GetRiscVFcsr(regs)
    {
      fcsr := GetRiscVFcsr(regs);
    }

    method Set(fcsr: bv32)
      modifies this
      ensures regs == SetRiscVFcsr(old(regs), fcsr)
    {
      regs := SetRiscVFcsr(regs, fcsr);
    }
  }

  class Processor {
    var regs: Regs

    constructor (regs: Regs)
      ensures this.regs == regs
    {
      this.regs := regs;
    }

    method Operate(raised: bv32)
      modifies this
      ensures regs == Operated(old(regs), raised)
    {
      regs := Operated(regs, raised);
    }
  }

  class ScopedFPStatus {
    const fpInterface: HostInterface
    const cpu: Processor
    var hostRm: bv32
    var cpuFpStatus: bv64

    constructor (fpInterface: HostInterface, cpu: Processor, rm: bv32)
      requires SameHost(fpInterface.regs, cpu.regs) && rm < 8
      modifies cpu
      ensures this.fpInterface == fpInterface && this.cpu == cpu
      ensures hostRm == HostMode(fpInterface.regs) as bv32 && cpuFpStatus == Packed(old(cpu.regs))
      ensures cpu.regs == Lent(fpInterface.regs, rm)
    {
      this.fpInterface := fpInterface;
      this.cpu := cpu;
      cpuFpStatus := Packed(cpu.regs);
      hostRm := HostMode(fpInterface.regs) as bv32;
      new;
      cpu.regs := Lent(fpInterface.regs, rm);
    }

    /** The destructor. */
    method Close()
      requires SameHost(fpInterface.regs, cpu.regs)
      modifies fpInterface, cpu
      ensures fpInterface.regs == TakenBack(old(cpu.regs), hostRm)
      ensures cpu.regs == Unpacked(old(cpu.regs), cpuFpStatus)
    {
      fpInterface.regs := TakenBack(cpu.regs, hostRm);
      cpu.regs := Unpacked(cpu.regs, cpuFpStatus);
    }
  }

  /** A simulated operation in a scope: the cache gets the raised flags and the processor its own status back, if that
      has no bits the packing drops. */
  method RunInScope(fpInterface: HostInterface, cpu: Processor, rm: bv32, raised: bv32)
    requires SameHost(fpInterface.regs, cpu.regs) && rm < 8
    modifies fpInterface, cpu
    ensures fpInterface.regs == AfterScope(old(fpInterface.regs), rm, raised)
    ensures cpu.regs == old(cpu.regs) <==> Architectural(old(cpu.regs))
  {
    hide Lent, Operated, TakenBack, Packed, Unpacked, HostMode, Architectural;
    ghost var own := cpu.regs;
    PackingRestores(own);
    UnpackingKeepsKind(own);
    var scope := new ScopedFPStatus(fpInterface, cpu, rm);
    cpu.Operate(raised);
    scope.Close();
  }

  /** Unpacking depends on the host only through its kind. */
  lemma UnpackingKeepsKind(cpu: Regs)
    ensures forall other: Regs, p: bv64 :: SameHost(other, cpu) ==> Unpacked(other, p) == Unpacked(cpu, p)
  {
  }

  /** The processor's status survives the packing exactly when it has no bits the architecture does not define. */
  lemma PackingRestores(cpu: Regs)
    ensures Unpacked(cpu, Packed(cpu)) == cpu <==> Architectural(cpu)
  {
    hide Packed, Unpacked;
    match cpu
    case X86(status) => X86Unpacked(status);
    case Arm(fpcr, fpsr) =>
      ArmUnpacked(fpcr, fpsr);
      LowMask(fpcr);
      LowMask(fpsr);
  }

  lemma X86Unpacked(status: bv32)
    ensures Unpacked(X86(status), Packed(X86(status))) == X86(status)
  {
    WideningRestores(status);
  }

  lemma ArmUnpacked(fpcr: bv64, fpsr: bv64)
    ensures Unpacked(Arm(fpcr, fpsr), Packed(Arm(fpcr, fpsr))) == Arm(fpcr & 0xffff_ffff, fpsr & 0xffff_ffff)
  {
    PackedHalves(fpcr, fpsr);
  }

  lemma WideningRestores(x: bv32)
    ensures ((x as bv64) & 0xffff_ffff) as bv32 == x
  {
  }

  lemma PackedHalves(c: bv64, s: bv64)
    ensures ((s << 32) | (c & 0xffff_ffff)) & 0xffff_ffff == c & 0xffff_ffff
    ensures ((s << 32) | (c & 0xffff_ffff)) >> 32 == s & 0xffff_ffff
  {
  }

  lemma LowMask(x: bv64)
    ensures x & 0xffff_ffff == x <==> x <= 0xffff_ffff
  {
  }

  /** Flags are sticky across a scope, on both hosts and under any rounding override. */
  lemma ScopeAddsRaisedFlags(cached: Regs, rm: bv32, raised: bv32)
    requires rm < 8
    ensures Flags(AfterScope(cached, rm, raised)) == Flags(cached) | RaisedFlags(cached, raised)
  {
    FlagsAreBitwise(cached);
    FlagsAreBitwise(AfterScope(cached, rm, raised));
    match cached
    case X86(status) =>
      FlagsAreBitwise(X86(raised));
      X86FlagBitsAdd(status, rm, raised);
    case Arm(fpcr, fpsr) =>
      FlagsAreBitwise(Arm(0, raised as bv64));
      ArmFlagBitsAdd(fpcr, fpsr, rm, raised);
  }

  lemma X86FlagBitsAdd(status: bv32, rm: bv32, raised: bv32)
    requires rm < 8
    ensures FlagsByBit(AfterScope(X86(status), rm, raised)) == FlagsByBit(X86(status)) | FlagsByBit(X86(raised))
  {
  }

  lemma ArmFlagBitsAdd(fpcr: bv64, fpsr: bv64, rm: bv32, raised: bv32)
    requires rm < 8
    ensures FlagsByBit(AfterScope(Arm(fpcr, fpsr), rm, raised))
         == FlagsByBit(Arm(fpcr, fpsr)) | FlagsByBit(Arm(0, raised as bv64))
  {
  }

  /** A scope runs in the overriding mode, or in the cached one. */
  lemma ScopeMode(cached: Regs, rm: bv32)
    requires rm < 8
    ensures HostMode(Lent(cached, rm)) == if rm == 7 then HostMode(cached) else ModeFor(cached, rm)
  {
  }

  /** The field each override lends, whatever is cached: towards zero, down, up, and to nearest for the other modes. */
  lemma LentModes(cached: Regs, rm: bv32)
    requires rm < 7
    ensures HostMode(Lent(cached, rm)) ==
      if rm == 1 then if cached.X86? then 0x6000 else 0xc0_0000
      else if rm == 2 then if cached.X86? then 0x2000 else 0x80_0000
      else if rm == 3 then if cached.X86? then 0x4000 else 0x40_0000
      else 0
  {
  }

  /** An override is read back from what is lent, except that 4 to 6 are read as 0; and the flags are lent as they
      are. */
  lemma LentIsRead(cached: Regs, rm: bv32)
    requires rm < 8
    ensures (GetRiscVFcsr(Lent(cached, rm)) >> 5) & 0x7 ==
      if rm == 7 then (GetRiscVFcsr(cached) >> 5) & 0x7 else if rm <= 3 then rm else 0
    ensures Flags(Lent(cached, rm)) == Flags(cached)
  {
    LentModeIsRead(cached, rm);
    FlagsAreBitwise(cached);
    FlagsAreBitwise(Lent(cached, rm));
  }

  lemma LentModeIsRead(cached: Regs, rm: bv32)
    requires rm < 8
    ensures (GetRiscVFcsr(Lent(cached, rm)) >> 5) & 0x7 ==
      if rm == 7 then (GetRiscVFcsr(cached) >> 5) & 0x7 else if rm <= 3 then rm else 0
  {
    hide X86FlagsToRiscV, ArmFlagsToRiscV;
  }

  /** The host flag that raises each RISC-V flag: inexact, underflow, overflow, division by zero, invalid. */
  lemma RaisedFlagsByBit(host: Regs, raised: bv32)
    ensures var f := RaisedFlags(host, raised);
      && f < 32
      && (f & 1 != 0 <==> raised & (if host.X86? then 0x20 else 0x10) != 0)
      && (f & 2 != 0 <==> raised & (if host.X86? then 0x10 else 0x08) != 0)
      && (f & 4 != 0 <==> raised & (if host.X86? then 0x08 else 0x04) != 0)
      && (f & 8 != 0 <==> raised & (if host.X86? then 0x04 else 0x02) != 0)
      && (f & 16 != 0 <==> raised & 0x01 != 0)
  {
    FlagsAreBitwise(if host.X86? then X86(raised) else Arm(0, raised as bv64));
  }

  // ----- what may be loaded into the processor

  /** Nothing but status flags and the rounding field is set, and on x86 every exception is masked. */
  predicate Loadable(r: Regs) {
    match r
    case X86(status) => status & 0xffff_9fc0 == 0x1f80
    case Arm(fpcr, _) => fpcr & 0xffff_ffff_ff3f_ffff == 0
  }

  lemma WritesAreLoadable(r: Regs, fcsr: bv32)
    ensures Loadable(SetRiscVFcsr(r, fcsr))
  {
    hide RiscVFlagsToX86;
    X86FlagsAreLow((fcsr & 0x1f) as bv8);
  }

  lemma ScopeIsLoadable(cached: Regs, rm: bv32, raised: bv32)
    requires Loadable(cached) && rm < 8
    ensures Loadable(Lent(cached, rm)) && Loadable(AfterScope(cached, rm, raised))
  {
  }

  /** Whatever was cached, at the end of a scope the x86 status masks every exception and FPCR holds nothing but the
      rounding field. */
  lemma ScopeCleansStatus(cached: Regs, rm: bv32, raised: bv32)
    requires rm < 8
    ensures var r := AfterScope(cached, rm, raised);
      if r.X86? then r.status & 0x1f80 == 0x1f80 else r.fpcr & 0xffff_ffff_ff3f_ffff == 0
  {
  }

  /** The rounding field of any status is the one that stands for the RISC-V mode read from it. */
  lemma HostModeIsRead(r: Regs)
    ensures HostMode(r) == ModeFor(r, (GetRiscVFcsr(r) >> 5) & 0x7)
  {
    hide X86FlagsToRiscV, ArmFlagsToRiscV;
  }

  /** After a scope the cached rounding mode is the one before it, except on x86 when the override named another. */
  lemma ScopeKeepsDynamicModeIff(cached: Regs, rm: bv32, raised: bv32)
    requires rm < 8
    ensures HostMode(AfterScope(cached, rm, raised)) == HostMode(cached)
      <==> cached.Arm? || rm == 7 || ModeFor(cached, rm) == HostMode(cached)
  {
  }

  /** On x86 the override stays in the cache; on ARM the cached mode is put back. */
  lemma ScopeSetsMode(cached: Regs, rm: bv32, raised: bv32)
    requires rm < 8
    ensures HostMode(AfterScope(cached, rm, raised))
         == if cached.Arm? || rm == 7 then HostMode(cached) else ModeFor(cached, rm)
  {
  }
}
