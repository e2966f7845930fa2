/** Software breakpoints: ebreak instructions stored over the program, with the overwritten instruction words kept
    aside so that they can be put back. */
module ActionPoints {
  import opened Arithmetic

  type byte = b: nat | b < 256

  /** Memory contents; a byte never stored reads as 0. */
  type Image = map<nat, byte>

  function ByteAt(m: Image, x: nat): byte {
    if x in m then m[x] else 0
  }

  const EBREAK32: nat := 0x0010_0073
  const EBREAK16: nat := 0x9002

  const MAX16 := 0x1_0000

  /** Byte i of a little-endian word. */
  function ByteOf(word: nat, i: nat): byte {
    if i == 0 then word % 256
    else if i == 1 then word / 256 % 256
    else if i == 2 then word / 256 / 256 % 256
    else word / 256 / 256 / 256 % 256
  }

  function Word(b0: byte, b1: byte, b2: byte, b3: byte): nat {
    b0 + 256 * (b1 + 256 * (b2 + 256 * b3))
  }

  function Load32(m: Image, address: nat): nat {
    Word(ByteAt(m, address), ByteAt(m, address + 1), ByteAt(m, address + 2), ByteAt(m, address + 3))
  }

  lemma LowByte(b: byte, rest: nat)
    ensures (b + 256 * rest) % 256 == b && (b + 256 * rest) / 256 == rest
  {
  }

  lemma BytesOfWord(b0: byte, b1: byte, b2: byte, b3: byte)
    ensures var w := Word(b0, b1, b2, b3);
      ByteOf(w, 0) == b0 && ByteOf(w, 1) == b1 && ByteOf(w, 2) == b2 && ByteOf(w, 3) == b3
  {
    var w2 := b2 + 256 * b3;
    LowByte(b0, b1 + 256 * w2);
    LowByte(b1, w2);
    LowByte(b2, b3);
    LowByte(b3, 0);
  }

  lemma BytesOfHalf(b0: byte, b1: byte, b2: byte, b3: byte)
    ensures var h := Word(b0, b1, b2, b3) % MAX16;
      ByteOf(h, 0) == b0 && ByteOf(h, 1) == b1
  {
    DivModUnique(Word(b0, b1, b2, b3), b2 + 256 * b3, b0 + 256 * b1, MAX16);
    LowByte(b0, b1);
    LowByte(b1, 0);
  }

  /** Storing what was loaded, in either size, stores the bytes that were there. */
  lemma LoadedBytes(m: Image, address: nat)
    ensures var w := Load32(m, address);
      && (forall i | 0 <= i < 4 :: ByteOf(w, i) == ByteAt(m, address + i))
      && (forall i | 0 <= i < 2 :: ByteOf(w % MAX16, i) == ByteAt(m, address + i))
  {
    var b0, b1, b2, b3 := ByteAt(m, address), ByteAt(m, address + 1), ByteAt(m, address + 2), ByteAt(m, address + 3);
    BytesOfWord(b0, b1, b2, b3);
    BytesOfHalf(b0, b1, b2, b3);
  }

  function Store16(m: Image, address: nat, word: nat): Image {
    m[address := ByteOf(word, 0)][address + 1 := ByteOf(word, 1)]
  }

  function Store32(m: Image, address: nat, word: nat): Image {
    m[address := ByteOf(word, 0)][address + 1 := ByteOf(word, 1)][address + 2 := ByteOf(word, 2)][address + 3 := ByteOf(word, 3)]
  }

  /** 2 or 4, or 0 for an encoding longer than 32 bits. */
  function GetInstructionSize(word: nat): (size: nat)
    ensures size == 0 || size == 2 || size == 4
  {
    if word % 4 != 3 then 2
    else if word % 32 != 31 then 4
    else 0
  }

  /** The size is a function of the first byte alone. */
  lemma SizeIsInTheFirstByte(word: nat)
    ensures GetInstructionSize(word) == GetInstructionSize(word % 256)
  {
    ModShift(word % 256, 64 * (word / 256), 4);
    ModShift(word % 256, 8 * (word / 256), 32);
  }

  /** The size of an encoding, by how its low bits are chosen. */
  lemma SizeOfEncoding(q: nat, r: nat)
    ensures r < 3 ==> GetInstructionSize(4 * q + r) == 2
    ensures r < 7 ==> GetInstructionSize(32 * q + 4 * r + 3) == 4
    ensures GetInstructionSize(32 * q + 31) == 0
  {
    if r < 3 {
      DivModUnique(4 * q + r, q, r, 4);
    }
    if r < 7 {
      DivModUnique(32 * q + 4 * r + 3, q, 4 * r + 3, 32);
      DivModUnique(32 * q + 4 * r + 3, 8 * q + r, 3, 4);
    }
    DivModUnique(32 * q + 31, q, 31, 32);
    DivModUnique(32 * q + 31, 8 * q + 7, 3, 4);
  }

  function SizeAt(m: Image, address: nat): nat {
    GetInstructionSize(Load32(m, address))
  }

  lemma SizeAtDependsOnOneByte(m: Image, m': Image, address: nat)
    requires ByteAt(m, address) == ByteAt(m', address)
    ensures SizeAt(m, address) == SizeAt(m', address)
  {
    LoadedBytes(m, address);
    LoadedBytes(m', address);
    SizeIsInTheFirstByte(Load32(m, address));
    SizeIsInTheFirstByte(Load32(m', address));
    assert ByteOf(Load32(m, address), 0) == ByteOf(Load32(m', address), 0);
  }

  // ----- the operations on values

  datatype InstructionInfo = InstructionInfo(size: nat, ogInstructionWord: nat)

  datatype Status = Ok | NotFound | InvalidArgument

  /** Program memory and the saved instructions. */
  datatype State = State(memory: Image, saved: map<nat, InstructionInfo>)

  function StoreSized(m: Image, address: nat, size: nat, word16: nat, word32: nat): Image {
    if size == 2 then Store16(m, address, word16)
    else if size == 4 then Store32(m, address, word32)
    else m
  }

  function OriginalWritten(s: State, address: nat): (State, Status) {
    if address !in s.saved then (s, NotFound)
    else
      var info := s.saved[address];
      (s.(memory := StoreSized(s.memory, address, info.size, info.ogInstructionWord % MAX16, info.ogInstructionWord)), Ok)
  }

  function BreakpointWritten(s: State, address: nat): (State, Status) {
    var word := Load32(s.memory, address);
    var size := GetInstructionSize(word);
    if address !in s.saved && size == 0 then (s, InvalidArgument)
    else
      var info := if address in s.saved then s.saved[address]
                  else InstructionInfo(size, if size == 2 then word % MAX16 else word);
      (State(StoreSized(s.memory, address, info.size, EBREAK16, EBREAK32), s.saved[address := info]), Ok)
  }

  // ----- the objects

  class Memory {
    var bytes: Image

    constructor (image: Image)
      ensures bytes == image
    {
      bytes := image;
    }

    method Load(address: nat) returns (word: nat)
      ensures word == Load32(bytes, address)
    {
      word := Load32(bytes, address);
    }

    method StoreHalf(address: nat, word: nat)
      modifies this
      ensures bytes == Store16(old(bytes), address, word)
    {
      bytes := Store16(bytes, address, word);
    }

    method StoreWord(address: nat, word: nat)
      modifies this
      ensures bytes == Store32(old(bytes), address, word)
    {
      bytes := Store32(bytes, address, word);
    }
  }

  class ActionPointMemoryInterface {
    const memory: Memory
    var instructionMap: map<nat, InstructionInfo>
    /** The calls made to the callback that invalidates decoded instructions, in order. */
    var invalidated: seq<nat>

    ghost function View(): State
      reads this, memory
    {
      State(memory.bytes, instructionMap)
    }

    constructor (memory: Memory)
      ensures this.memory == memory && View() == State(memory.bytes, map[]) && invalidated == []
    {
      this.memory := memory;
      instructionMap := map[];
      invalidated := [];
    }

    method WriteOriginalInstruction(address: nat) returns (status: Status)
      modifies this, memory
      ensures (View(), status) == OriginalWritten(old(View()), address)
      ensures invalidated == if status.Ok? then old(invalidated) + [address] else old(invalidated)
    {
      if address !in instructionMap {
        return NotFound;
      }
      var info := instructionMap[address];
      if info.size == 2 {
        memory.StoreHalf(address, info.ogInstructionWord % MAX16);
      } else if info.size == 4 {
        memory.StoreWord(address, info.ogInstructionWord);
      }
      invalidated := invalidated + [address];
      return Ok;
    }

    method WriteBreakpointInstruction(address: nat) returns (status: Status)
      modifies this, memory
      ensures (View(), status) == BreakpointWritten(old(View()), address)
      ensures invalidated == if status.Ok? then old(invalidated) + [address] else old(invalidated)
    {
      if address !in instructionMap {
        var instructionWord := memory.Load(address);
        var size := GetInstructionSize(instructionWord);
        if size == 0 {
          return InvalidArgument;
        }
        if size == 2 {
          instructionWord := instructionWord % MAX16;
        }
        instructionMap := instructionMap[address := InstructionInfo(size, instructionWord)];
      }
      var info := instructionMap[address];
      if info.size == 2 {
        memory.StoreHalf(address, EBREAK16);
      } else if info.size == 4 {
        memory.StoreWord(address, EBREAK32);
      }
      invalidated := invalidated + [address];
      assert instructionMap == instructionMap[address := info];
      return Ok;
    }
  }

  // ----- what memory should look like

  /** The bytes of the original instruction at a. */
  ghost predicate Covers(orig: Image, a: nat, x: nat) {
    a <= x < a + SizeAt(orig, a)
  }

  function EbreakByte(size: nat, i: nat): byte {
    ByteOf(if size == 2 then EBREAK16 else EBREAK32, i)
  }

  /** m is the original image with ebreak laid over exactly the active instructions. */
  ghost predicate IsOverlay(m: Image, orig: Image, active: set<nat>) {
    && (forall a: nat, x: nat | a in active && Covers(orig, a, x) :: ByteAt(m, x) == EbreakByte(SizeAt(orig, a), x - a))
    && (forall x: nat | Uncovered(orig, active, x) :: ByteAt(m, x) == ByteAt(orig, x))
  }

  ghost predicate Uncovered(orig: Image, active: set<nat>, x: nat) {
    forall a | a in active :: !Covers(orig, a, x)
  }

  function InfoAt(orig: Image, a: nat): InstructionInfo {
    InstructionInfo(SizeAt(orig, a), if SizeAt(orig, a) == 2 then Load32(orig, a) % MAX16 else Load32(orig, a))
  }

  /** The instructions at a and b do not overlap; an instruction of unknown size claims its first byte. */
  ghost predicate Disjoint(orig: Image, a: nat, b: nat) {
    var sizeA := if SizeAt(orig, a) == 0 then 1 else SizeAt(orig, a);
    var sizeB := if SizeAt(orig, b) == 0 then 1 else SizeAt(orig, b);
    a + sizeA <= b || b + sizeB <= a
  }

  ghost predicate NonOverlapping(orig: Image, addresses: set<nat>) {
    forall a, b | a in addresses && b in addresses && a != b :: Disjoint(orig, a, b)
  }

  ghost predicate Inv(s: State, orig: Image, active: set<nat>) {
    && active <= s.saved.Keys
    && (forall a | a in s.saved :: SizeAt(orig, a) != 0 && s.saved[a] == InfoAt(orig, a))
    && IsOverlay(s.memory, orig, active)
  }

  // ----- one call

  lemma OutsideOthers(orig: Image, active: set<nat>, a: nat, x: nat)
    requires NonOverlapping(orig, active + {a})
    requires x == a || Covers(orig, a, x)
    ensures Uncovered(orig, active - {a}, x)
  {
  }

  /** At an address that is not patched the right size and word are read, even where the 4-byte load runs into a
      patched neighbour. */
  lemma FreshReadIsOriginal(m: Image, orig: Image, active: set<nat>, a: nat)
    requires IsOverlay(m, orig, active) && a !in active && NonOverlapping(orig, active + {a})
    ensures SizeAt(m, a) == SizeAt(orig, a)
    ensures SizeAt(orig, a) == 2 ==> Load32(m, a) % MAX16 == Load32(orig, a) % MAX16
    ensures SizeAt(orig, a) == 4 ==> Load32(m, a) == Load32(orig, a)
  {
    assert active - {a} == active;
    OutsideOthers(orig, active, a, a);
    SizeAtDependsOnOneByte(m, orig, a);
    forall x: nat | Covers(orig, a, x) ensures ByteAt(m, x) == ByteAt(orig, x) {
      OutsideOthers(orig, active, a, x);
    }
    SameBytesSameWord(m, orig, a, SizeAt(orig, a));
  }

  lemma SameBytesSameWord(m: Image, m': Image, a: nat, size: nat)
    requires forall x: nat | a <= x < a + size :: ByteAt(m, x) == ByteAt(m', x)
    ensures size == 2 ==> Load32(m, a) % MAX16 == Load32(m', a) % MAX16
    ensures size == 4 ==> Load32(m, a) == Load32(m', a)
  {
  }

  lemma StoredBytes(m: Image, address: nat, size: nat, word16: nat, word32: nat, x: nat)
    requires size == 2 || size == 4
    ensures ByteAt(StoreSized(m, address, size, word16, word32), x) ==
      if address <= x < address + size then ByteOf(if size == 2 then word16 else word32, x - address) else ByteAt(m, x)
  {
  }

  lemma OverlayAdded(m: Image, m': Image, orig: Image, active: set<nat>, a: nat)
    requires IsOverlay(m, orig, active) && NonOverlapping(orig, active + {a}) && SizeAt(orig, a) != 0
    requires forall x: nat ::
      ByteAt(m', x) == if Covers(orig, a, x) then EbreakByte(SizeAt(orig, a), x - a) else ByteAt(m, x)
    ensures IsOverlay(m', orig, active + {a})
  {
    forall b: nat, x: nat | b in active + {a} && Covers(orig, b, x)
      ensures ByteAt(m', x) == EbreakByte(SizeAt(orig, b), x - b)
    {
      if b != a {
        assert Disjoint(orig, a, b);
      }
    }
    forall x: nat | Uncovered(orig, active + {a}, x) ensures ByteAt(m', x) == ByteAt(orig, x) {
      assert a in active + {a};
      assert Uncovered(orig, active, x);
    }
  }

  lemma OverlayRemoved(m: Image, m': Image, orig: Image, active: set<nat>, a: nat)
    requires IsOverlay(m, orig, active) && NonOverlapping(orig, active + {a}) && SizeAt(orig, a) != 0
    requires forall x: nat :: ByteAt(m', x) == if Covers(orig, a, x) then ByteAt(orig, x) else ByteAt(m, x)
    ensures IsOverlay(m', orig, active - {a})
  {
    forall b: nat, x: nat | b in active - {a} && Covers(orig, b, x)
      ensures ByteAt(m', x) == EbreakByte(SizeAt(orig, b), x - b)
    {
      assert Disjoint(orig, a, b);
    }
    forall x: nat | Uncovered(orig, active - {a}, x) ensures ByteAt(m', x) == ByteAt(orig, x) {
      if !Covers(orig, a, x) {
        assert forall b | b in active :: b == a || b in active - {a};
        assert Uncovered(orig, active, x);
      }
    }
  }

  lemma NonOverlappingSubset(orig: Image, large: set<nat>, small: set<nat>)
    requires NonOverlapping(orig, large) && small <= large
    ensures NonOverlapping(orig, small)
  {
  }

  lemma FreshInfo(s: State, orig: Image, active: set<nat>, a: nat)
    requires Inv(s, orig, active) && NonOverlapping(orig, s.saved.Keys + {a}) && a !in s.saved
    ensures SizeAt(s.memory, a) == SizeAt(orig, a)
    ensures SizeAt(orig, a) != 0 ==> InfoAt(s.memory, a) == InfoAt(orig, a)
  {
    NonOverlappingSubset(orig, s.saved.Keys + {a}, active + {a});
    FreshReadIsOriginal(s.memory, orig, active, a);
    if SizeAt(orig, a) != 0 {
      InfoFromRead(s.memory, orig, a);
    }
  }

  lemma InfoFromRead(m: Image, m': Image, a: nat)
    requires SizeAt(m, a) == SizeAt(m', a)
    requires SizeAt(m', a) == 2 ==> Load32(m, a) % MAX16 == Load32(m', a) % MAX16
    requires SizeAt(m', a) == 4 ==> Load32(m, a) == Load32(m', a)
    requires SizeAt(m', a) != 0
    ensures InfoAt(m, a) == InfoAt(m', a)
  {
  }

  lemma SizeCases(m: Image, a: nat)
    ensures SizeAt(m, a) == 0 || SizeAt(m, a) == 2 || SizeAt(m, a) == 4
  {
  }

  lemma BreakpointCall(s: State, orig: Image, active: set<nat>, a: nat)
    requires Inv(s, orig, active) && NonOverlapping(orig, s.saved.Keys + {a})
    ensures SizeAt(orig, a) == 0 ==> BreakpointWritten(s, a) == (s, InvalidArgument)
    ensures SizeAt(orig, a) != 0 ==>
      var (t, status) := BreakpointWritten(s, a);
      status == Ok && t.saved == s.saved[a := InfoAt(orig, a)] && Inv(t, orig, active + {a})
  {
    hide BreakpointWritten, SizeAt, Disjoint, IsOverlay;
    if a !in s.saved {
      FreshInfo(s, orig, active, a);
    }
    BreakpointStore(s, a, if a in s.saved then s.saved[a] else InfoAt(s.memory, a));
    if SizeAt(orig, a) != 0 {
      var t := BreakpointWritten(s, a).0;
      PatchedBytes(s.memory, orig, a);
      NonOverlappingSubset(orig, s.saved.Keys + {a}, active + {a});
      OverlayAdded(s.memory, t.memory, orig, active, a);
    }
  }

  lemma PatchedBytes(m: Image, orig: Image, a: nat)
    requires SizeAt(orig, a) != 0
    ensures var m' := StoreSized(m, a, SizeAt(orig, a), EBREAK16, EBREAK32);
      forall x: nat :: ByteAt(m', x) == if Covers(orig, a, x) then EbreakByte(SizeAt(orig, a), x - a) else ByteAt(m, x)
  {
    hide SizeAt;
    SizeCases(orig, a);
    var m' := StoreSized(m, a, SizeAt(orig, a), EBREAK16, EBREAK32);
    forall x: nat
      ensures ByteAt(m', x) == if Covers(orig, a, x) then EbreakByte(SizeAt(orig, a), x - a) else ByteAt(m, x)
    {
      StoredBytes(m, a, SizeAt(orig, a), EBREAK16, EBREAK32, x);
    }
  }

  lemma BreakpointStore(s: State, a: nat, info: InstructionInfo)
    requires info == if a in s.saved then s.saved[a] else InfoAt(s.memory, a)
    ensures BreakpointWritten(s, a) ==
      if a !in s.saved && info.size == 0 then (s, InvalidArgument)
      else (State(StoreSized(s.memory, a, info.size, EBREAK16, EBREAK32), s.saved[a := info]), Ok)
  {
  }

  lemma OriginalCall(s: State, orig: Image, active: set<nat>, a: nat)
    requires Inv(s, orig, active) && NonOverlapping(orig, s.saved.Keys + {a})
    ensures a !in s.saved ==> OriginalWritten(s, a) == (s, NotFound)
    ensures a in s.saved ==>
      var (t, status) := OriginalWritten(s, a);
      status == Ok && t.saved == s.saved && Inv(t, orig, active - {a})
  {
    if a in s.saved {
      var t := OriginalWritten(s, a).0;
      forall x: nat ensures ByteAt(t.memory, x) == if Covers(orig, a, x) then ByteAt(orig, x) else ByteAt(s.memory, x) {
        OriginalStore(s.memory, orig, a, InfoAt(orig, a), x);
      }
      NonOverlappingSubset(orig, s.saved.Keys + {a}, active + {a});
      OverlayRemoved(s.memory, t.memory, orig, active, a);
    }
  }

  lemma OriginalStore(m: Image, orig: Image, a: nat, info: InstructionInfo, x: nat)
    requires info == InfoAt(orig, a) && info.size != 0
    ensures ByteAt(StoreSized(m, a, info.size, info.ogInstructionWord % MAX16, info.ogInstructionWord), x)
         == if Covers(orig, a, x) then ByteAt(orig, x) else ByteAt(m, x)
  {
    var w := info.ogInstructionWord;
    SizeCases(orig, a);
    StoredBytes(m, a, info.size, w % MAX16, w, x);
    if Covers(orig, a, x) {
      SavedBytes(orig, a, x);
    }
  }

  lemma SavedBytes(orig: Image, a: nat, x: nat)
    requires Covers(orig, a, x)
    ensures var w := InfoAt(orig, a).ogInstructionWord;
      ByteOf(if SizeAt(orig, a) == 2 then w % MAX16 else w, x - a) == ByteAt(orig, x)
  {
    LoadedBytes(orig, a);
    SizeCases(orig, a);
    var i := x - a;
    assert a + i == x;
    assert Load32(orig, a) % MAX16 % MAX16 == Load32(orig, a) % MAX16;
  }

  // ----- whole runs

  datatype Call = Insert(address: nat) | Restore(address: nat)

  function Apply(s: State, c: Call): (State, Status) {
    match c
    case Insert(a) => BreakpointWritten(s, a)
    case Restore(a) => OriginalWritten(s, a)
  }

  function Run(s: State, calls: seq<Call>): State {
    if calls == [] then s else Apply(Run(s, calls[..|calls| - 1]), calls[|calls| - 1]).0
  }

  function Start(orig: Image): State {
    State(orig, map[])
  }

  ghost function Addresses(calls: seq<Call>): set<nat> {
    set c | c in calls :: c.address
  }

  ghost function ActiveAfter(orig: Image, active: set<nat>, c: Call): set<nat> {
    match c
    case Insert(a) => if SizeAt(orig, a) == 0 then active else active + {a}
    case Restore(a) => active - {a}
  }

  /** The patched addresses, read off the calls alone: those whose last call is an insertion that can succeed. */
  ghost function Active(orig: Image, calls: seq<Call>): set<nat> {
    if calls == [] then {} else ActiveAfter(orig, Active(orig, calls[..|calls| - 1]), calls[|calls| - 1])
  }

  /** The saved instructions, read off the calls and the original image alone. */
  ghost function SavedBy(orig: Image, calls: seq<Call>): map<nat, InstructionInfo> {
    map a | a in Addresses(calls) && Insert(a) in calls && SizeAt(orig, a) != 0 :: InfoAt(orig, a)
  }

  ghost function ExpectedStatus(orig: Image, earlier: seq<Call>, c: Call): Status {
    match c
    case Insert(a) => if SizeAt(orig, a) == 0 then InvalidArgument else Ok
    case Restore(a) => if Insert(a) in earlier && SizeAt(orig, a) != 0 then Ok else NotFound
  }

  lemma FailedCallsChangeNothing(s: State, c: Call)
    ensures Apply(s, c).1 != Ok ==> Apply(s, c).0 == s
  {
  }

  /** The instruction size is read off the first byte in memory. */
  lemma SizeFromFirstByte(m: Image, a: nat)
    ensures var b := ByteAt(m, a);
      SizeAt(m, a) == if b % 4 != 3 then 2 else if b % 32 != 31 then 4 else 0
  {
    var b := ByteAt(m, a);
    LoadedBytes(m, a);
    SizeIsInTheFirstByte(Load32(m, a));
    assert ByteOf(Load32(m, a), 0) == ByteAt(m, a + 0);
  }

  /** The status of a call, from the saved addresses and the first byte found in memory. */
  lemma StatusOfCall(s: State, a: nat)
    ensures OriginalWritten(s, a).1 == if a in s.saved then Ok else NotFound
    ensures BreakpointWritten(s, a).1
         == if a !in s.saved && ByteAt(s.memory, a) % 32 == 31 then InvalidArgument else Ok
  {
    SizeFromFirstByte(s.memory, a);
  }

  /** A new breakpoint: the bytes of ebreak or c.ebreak in memory, no other byte changed, and the little-endian
      instruction with its size in the map. */
  lemma NewBreakpoint(s: State, a: nat)
    requires a !in s.saved && ByteAt(s.memory, a) % 32 != 31
    ensures var m, t := s.memory, BreakpointWritten(s, a).0;
      var b0, b1, b2, b3 := ByteAt(m, a), ByteAt(m, a + 1), ByteAt(m, a + 2), ByteAt(m, a + 3);
      if b0 % 4 != 3 then
        && t.memory == m[a := 0x02][a + 1 := 0x90]
        && t.saved == s.saved[a := InstructionInfo(2, b0 + 0x100 * b1)]
      else
        && t.memory == m[a := 0x73][a + 1 := 0x00][a + 2 := 0x10][a + 3 := 0x00]
        && t.saved == s.saved[a := InstructionInfo(4, b0 + 0x100 * b1 + 0x1_0000 * b2 + 0x100_0000 * b3)]
  {
    hide GetInstructionSize;
    SizeFromFirstByte(s.memory, a);
  }

  /** The two words stored are ebreak and c.ebreak, field by field. */
  lemma EbreakFields()
    ensures var opcode, rd, funct3 := EBREAK32 % 0x80, EBREAK32 / 0x80 % 0x20, EBREAK32 / 0x1000 % 8;
      var rs1, immediate := EBREAK32 / 0x8000 % 0x20, EBREAK32 / 0x10_0000;
      opcode == 0x73 && rd == funct3 == rs1 == 0 && immediate == 1
    ensures var op, rs2, rs1 := EBREAK16 % 4, EBREAK16 / 4 % 0x20, EBREAK16 / 0x80 % 0x20;
      op == 2 && rs2 == rs1 == 0 && EBREAK16 / 0x1000 == 9
  {
  }

  /** A breakpoint call for an address that is not an action point yet takes no action exactly when the instruction
      found there has no known size. */
  lemma UnknownAddressIsLeftAloneIff(s: State, a: nat)
    requires a !in s.saved
    ensures BreakpointWritten(s, a).0 == s <==> SizeAt(s.memory, a) == 0
  {
  }

  /** At the 2-byte instruction 0 of an empty image, no action point, the call stores an ebreak. */
  lemma UnknownAddressIsPatched()
    ensures var (s, status) := BreakpointWritten(Start(map[]), 0);
      status == Ok && s.memory == map[0 := 0x02, 1 := 0x90] && s.saved == map[0 := InstructionInfo(2, 0)]
  {
  }

  /** For any calls at all, overlapping or not: a saved entry is written once. */
  lemma {:induction false} SavedEntriesNeverChange(s: State, calls: seq<Call>)
    ensures forall a | a in s.saved :: a in Run(s, calls).saved && Run(s, calls).saved[a] == s.saved[a]
  {
    if calls == [] {
    } else {
      SavedEntriesNeverChange(s, calls[..|calls| - 1]);
    }
  }

  lemma CallKeepsInv(s: State, orig: Image, active: set<nat>, c: Call)
    requires Inv(s, orig, active) && NonOverlapping(orig, s.saved.Keys + {c.address})
    ensures Inv(Apply(s, c).0, orig, ActiveAfter(orig, active, c))
    ensures Apply(s, c).0.saved ==
      if c.Insert? && SizeAt(orig, c.address) != 0 then s.saved[c.address := InfoAt(orig, c.address)] else s.saved
  {
    match c
    case Insert(a) => BreakpointCall(s, orig, active, a);
    case Restore(a) =>
      OriginalCall(s, orig, active, a);
      if a !in s.saved {
        assert active - {a} == active;
      }
  }

  /** The overlay theorem: after any calls at non-overlapping instructions memory is the original image with ebreak
      over exactly the active ones, and the saved words are the original ones. */
  lemma {:induction false} RunIsOverlay(orig: Image, calls: seq<Call>)
    requires NonOverlapping(orig, Addresses(calls))
    ensures Inv(Run(Start(orig), calls), orig, Active(orig, calls))
    ensures Run(Start(orig), calls).saved == SavedBy(orig, calls)
  {
    if calls == [] {
    } else {
      var before, c := calls[..|calls| - 1], calls[|calls| - 1];
      assert calls == before + [c];
      AddressesExtend(before, c);
      NonOverlappingSubset(orig, Addresses(calls), Addresses(before));
      RunIsOverlay(orig, before);
      var s := Run(Start(orig), before);
      NonOverlappingSubset(orig, Addresses(calls), s.saved.Keys + {c.address});
      CallKeepsInv(s, orig, Active(orig, before), c);
      SavedByExtends(orig, before, c);
    }
  }

  lemma AddressesExtend(before: seq<Call>, c: Call)
    ensures Addresses(before + [c]) == Addresses(before) + {c.address}
  {
  }

  lemma SavedByExtends(orig: Image, before: seq<Call>, c: Call)
    ensures SavedBy(orig, before + [c]) ==
      if c.Insert? && SizeAt(orig, c.address) != 0
      then SavedBy(orig, before)[c.address := InfoAt(orig, c.address)]
      else SavedBy(orig, before)
  {
    var after := SavedBy(orig, before + [c]);
    forall a: nat ensures a in after <==> a in SavedBy(orig, before) || (c == Insert(a) && SizeAt(orig, a) != 0) {
      assert Insert(a) in before + [c] <==> Insert(a) in before || c == Insert(a);
      assert Insert(a) in before ==> a in Addresses(before);
      assert Insert(a) in before + [c] ==> a in Addresses(before + [c]);
    }
  }

  /** Every call of the run returns what the calls before it and the original image determine. */
  lemma CallStatus(orig: Image, calls: seq<Call>, c: Call)
    requires NonOverlapping(orig, Addresses(calls + [c]))
    ensures Apply(Run(Start(orig), calls), c).1 == ExpectedStatus(orig, calls, c)
  {
    AddressesExtend(calls, c);
    NonOverlappingSubset(orig, Addresses(calls + [c]), Addresses(calls));
    RunIsOverlay(orig, calls);
    var s := Run(Start(orig), calls);
    NonOverlappingSubset(orig, Addresses(calls + [c]), s.saved.Keys + {c.address});
    match c
    case Insert(a) => BreakpointCall(s, orig, Active(orig, calls), a);
    case Restore(a) =>
      OriginalCall(s, orig, Active(orig, calls), a);
      assert Insert(a) in calls ==> a in Addresses(calls);
  }

  function Restores(order: seq<nat>): seq<Call> {
    seq(|order|, i requires 0 <= i < |order| => Restore(order[i]))
  }

  lemma {:induction false} ActiveAfterRestores(orig: Image, calls: seq<Call>, order: seq<nat>)
    ensures Active(orig, calls + Restores(order)) == set a | a in Active(orig, calls) && a !in order
  {
    if order == [] {
      assert calls + Restores(order) == calls;
    } else {
      var n := |order| - 1;
      var all := calls + Restores(order);
      ActiveAfterRestores(orig, calls, order[..n]);
      assert all[..|all| - 1] == calls + Restores(order[..n]);
      assert all[|all| - 1] == Restore(order[n]);
      assert order == order[..n] + [order[n]];
    }
  }

  /** Restoring the active instructions, in any order, gives the original image back byte for byte. */
  lemma RestoringAllBringsTheImageBack(orig: Image, calls: seq<Call>, order: seq<nat>)
    requires NonOverlapping(orig, Addresses(calls + Restores(order)))
    requires forall a | a in Active(orig, calls) :: a in order
    ensures forall x: nat :: ByteAt(Run(Start(orig), calls + Restores(order)).memory, x) == ByteAt(orig, x)
  {
    var all := calls + Restores(order);
    RunIsOverlay(orig, all);
    ActiveAfterRestores(orig, calls, order);
    assert Active(orig, all) == {};
    forall x: nat ensures ByteAt(Run(Start(orig), all).memory, x) == ByteAt(orig, x) {
      assert Uncovered(orig, {}, x);
    }
  }

  lemma RunOneMore(s: State, calls: seq<Call>, c: Call)
    ensures Run(s, calls + [c]) == Apply(Run(s, calls), c).0
  {
  }

  // ----- overlapping instructions

  /** The size found at d while a breakpoint stands at c: inside an ebreak every byte starts a 2-byte instruction. */
  function SizeBeside(orig: Image, c: nat, d: nat): nat {
    if c < d < c + SizeAt(orig, c) then 2 else SizeAt(orig, d)
  }

  ghost predicate SameBytes(m: Image, m': Image) {
    forall x: nat :: ByteAt(m, x) == ByteAt(m', x)
  }

  /** Breakpoints are set at c and then at d, and restored in the same order or in the opposite one. */
  function RestoredInOrder(orig: Image, c: nat, d: nat): Image {
    Run(Start(orig), [Insert(c), Insert(d), Restore(c), Restore(d)]).memory
  }

  function RestoredInReverse(orig: Image, c: nat, d: nat): Image {
    Run(Start(orig), [Insert(c), Insert(d), Restore(d), Restore(c)]).memory
  }

  /** A first breakpoint at a: the bytes of the instruction found there are patched and saved. */
  lemma PatchOf(s: State, a: nat)
    requires a !in s.saved
    ensures var m, t := s.memory, BreakpointWritten(s, a).0;
      && (forall x: nat ::
            ByteAt(t.memory, x) == if Covers(m, a, x) then EbreakByte(SizeAt(m, a), x - a) else ByteAt(m, x))
      && t.saved == if SizeAt(m, a) == 0 then s.saved else s.saved[a := InfoAt(m, a)]
  {
    hide SizeAt;
    BreakpointStore(s, a, InfoAt(s.memory, a));
    SizeCases(s.memory, a);
    if SizeAt(s.memory, a) != 0 {
      PatchedBytes(s.memory, s.memory, a);
    }
  }

  /** Restoring a puts back the bytes of the image it was saved from. */
  lemma RestoreOf(s: State, image: Image, a: nat)
    requires a in s.saved <==> SizeAt(image, a) != 0
    requires a in s.saved ==> s.saved[a] == InfoAt(image, a)
    ensures var t := OriginalWritten(s, a).0;
      && (forall x: nat :: ByteAt(t.memory, x) == if Covers(image, a, x) then ByteAt(image, x) else ByteAt(s.memory, x))
      && t.saved == s.saved
  {
    if a in s.saved {
      forall x: nat {
        OriginalStore(s.memory, image, a, InfoAt(image, a), x);
      }
    }
  }

  lemma SizeBesideIsRead(orig: Image, patched: Image, c: nat, d: nat)
    requires c != d
    requires forall x: nat ::
      ByteAt(patched, x) == if Covers(orig, c, x) then EbreakByte(SizeAt(orig, c), x - c) else ByteAt(orig, x)
    ensures SizeAt(patched, d) == SizeBeside(orig, c, d)
  {
    if Covers(orig, c, d) {
      SizeCases(orig, c);
      assert ByteAt(patched, d) in {0x90, 0x00, 0x10};
      LoadedBytes(patched, d);
      assert ByteOf(Load32(patched, d), 0) == ByteAt(patched, d + 0);
      SizeIsInTheFirstByte(Load32(patched, d));
    } else {
      SizeAtDependsOnOneByte(patched, orig, d);
    }
  }

  /** The second breakpoint saves the patch where it overlaps the first one. So restoring in the opposite order always
      gives the image back, and restoring in the same order does exactly when every byte that both cover is in the
      image already what the first ebreak puts there. */
  lemma OverlapRestoresIff(orig: Image, c: nat, d: nat)
    requires c != d
    ensures SameBytes(RestoredInReverse(orig, c, d), orig)
    ensures SameBytes(RestoredInOrder(orig, c, d), orig)
      <==> forall x: nat | d <= x < d + SizeBeside(orig, c, d) && Covers(orig, c, x) ::
             ByteAt(orig, x) == EbreakByte(SizeAt(orig, c), x - c)
  {
    hide SizeAt, BreakpointWritten, OriginalWritten, InfoAt;
    var s1 := BreakpointWritten(Start(orig), c).0;
    var s2 := BreakpointWritten(s1, d).0;
    PatchOf(Start(orig), c);
    SizeBesideIsRead(orig, s1.memory, c, d);
    PatchOf(s1, d);
    RestoreOf(s2, orig, c);
    RestoreOf(OriginalWritten(s2, c).0, s1.memory, d);
    RestoreOf(s2, s1.memory, d);
    RestoreOf(OriginalWritten(s2, d).0, orig, c);
    RunFour(Start(orig), Insert(c), Insert(d), Restore(c), Restore(d));
    RunFour(Start(orig), Insert(c), Insert(d), Restore(d), Restore(c));
    var m := RestoredInOrder(orig, c, d);
    forall x: nat
      ensures ByteAt(m, x) == if Covers(s1.memory, d, x) then ByteAt(s1.memory, x) else ByteAt(orig, x)
    {
    }
    if SameBytes(m, orig) {
      forall x: nat | d <= x < d + SizeBeside(orig, c, d) && Covers(orig, c, x)
        ensures ByteAt(orig, x) == EbreakByte(SizeAt(orig, c), x - c)
      {
        assert ByteAt(m, x) == ByteAt(orig, x);
      }
    }
  }

  /** An overlap that loses the image: a breakpoint in the middle of a patched instruction saves a piece of the patch,
      and restoring both in order leaves that piece in the program. */
  lemma OverlapLosesTheImage()
    ensures var orig: Image := map[0 := 0x33];
      !SameBytes(RestoredInOrder(orig, 0, 2), orig) && SameBytes(RestoredInReverse(orig, 0, 2), orig)
  {
    hide RestoredInOrder, RestoredInReverse;
    var orig: Image := map[0 := 0x33];
    OverlapRestoresIff(orig, 0, 2);
    assert Load32(orig, 0) == 0x33;
    assert Covers(orig, 0, 2) && EbreakByte(4, 2) == 0x10;
  }

  lemma RunFour(s: State, c1: Call, c2: Call, c3: Call, c4: Call)
    ensures Run(s, [c1, c2, c3, c4]) == Apply(Apply(Apply(Apply(s, c1).0, c2).0, c3).0, c4).0
  {
    var r1, r2, r3 := [c1], [c1, c2], [c1, c2, c3];
    assert [] + [c1] == r1 && r1 + [c2] == r2 && r2 + [c3] == r3 && r3 + [c4] == [c1, c2, c3, c4];
    RunOneMore(s, [], c1);
    RunOneMore(s, r1, c2);
    RunOneMore(s, r2, c3);
    RunOneMore(s, r3, c4);
  }

  // ----- instruction boundaries

  /** The first n instruction addresses met walking from pc; an unknown size ends the walk. */
  function Walk(m: Image, pc: nat, n: nat): seq<nat>
    decreases n
  {
    if n == 0 then []
    else if SizeAt(m, pc) == 0 then [pc]
    else [pc] + Walk(m, pc + SizeAt(m, pc), n - 1)
  }

  lemma {:induction false} WalkGoesForward(m: Image, pc: nat, n: nat)
    ensures forall a | a in Walk(m, pc, n) :: pc <= a
    ensures forall a, b | a in Walk(m, pc, n) && b in Walk(m, pc, n) && a != b :: Disjoint(m, a, b)
    decreases n
  {
    if n == 0 || SizeAt(m, pc) == 0 {
    } else {
      WalkGoesForward(m, pc + SizeAt(m, pc), n - 1);
    }
  }

  lemma {:induction false} SameSizesSameWalk(m: Image, m': Image, pc: nat, n: nat)
    requires forall a | a in Walk(m, pc, n) :: SizeAt(m', a) == SizeAt(m, a)
    ensures Walk(m', pc, n) == Walk(m, pc, n)
    decreases n
  {
    hide SizeAt;
    if n == 0 {
    } else if SizeAt(m, pc) == 0 {
      assert Walk(m, pc, n) == [pc];
    } else {
      var rest := Walk(m, pc + SizeAt(m, pc), n - 1);
      assert Walk(m, pc, n) == [pc] + rest;
      assert pc in Walk(m, pc, n);
      assert forall a | a in rest :: a in Walk(m, pc, n);
      SameSizesSameWalk(m, m', pc + SizeAt(m, pc), n - 1);
    }
  }

  /** An ebreak has the size of the instruction it replaces. */
  lemma PatchedSize(m: Image, orig: Image, active: set<nat>, a: nat)
    requires IsOverlay(m, orig, active) && a in active && SizeAt(orig, a) != 0
    ensures SizeAt(m, a) == SizeAt(orig, a)
  {
    assert Covers(orig, a, a);
    assert ByteAt(m, a) == EbreakByte(SizeAt(orig, a), 0);
    EbreakSize(m, a, SizeAt(orig, a));
  }

  lemma EbreakSize(m: Image, a: nat, size: nat)
    requires size == 2 || size == 4
    requires ByteAt(m, a) == EbreakByte(size, 0)
    ensures SizeAt(m, a) == size
  {
  }

  /** Breakpoints on the boundaries of a walk, inserted and restored in any sequence, leave the walk as it was. */
  lemma PatchingKeepsBoundaries(orig: Image, calls: seq<Call>, start: nat, n: nat)
    requires forall a | a in Addresses(calls) :: a in Walk(orig, start, n)
    ensures Walk(Run(Start(orig), calls).memory, start, n) == Walk(orig, start, n)
  {
    WalkGoesForward(orig, start, n);
    assert NonOverlapping(orig, Addresses(calls));
    RunIsOverlay(orig, calls);
    var m, active := Run(Start(orig), calls).memory, Active(orig, calls);
    forall a | a in Walk(orig, start, n) ensures SizeAt(m, a) == SizeAt(orig, a) {
      if a in active {
        PatchedSize(m, orig, active, a);
      } else {
        FreshReadIsOriginal(m, orig, active, a);
      }
    }
    SameSizesSameWalk(orig, m, start, n);
  }
}
