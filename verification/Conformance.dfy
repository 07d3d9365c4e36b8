/** The pipeline against the instruction set: exactly which instructions, in exactly which
    states, the emulator executes as chapter 2 of the RISC-V manual says. */
module Conformance {
  import opened Words
  import opened Mmu
  import opened Bus
  import opened Decoder
  import opened Core
  import opened Pipeline
  import Csr
  import Isa
  import Integers
  import Encoding
  import BusLaws
  import History

  // ----- machines seen as harts -----

  predicate Inside(img: Image, a: nat) { img.base <= a < img.base + img.size }

  predicate ReadableAt(img: Image, a: nat)
    requires img.Valid() && Inside(img, a)
  {
    img.perm[a - img.base].read
  }

  predicate WritableAt(img: Image, a: nat)
    requires img.Valid() && Inside(img, a)
  {
    img.perm[a - img.base].write || img.perm[a - img.base].raw
  }

  /** The bytes of the MMU at their addresses. */
  function MemoryOf(img: Image): Isa.Memory
    requires img.Valid()
  {
    map a: nat | img.base <= a < img.base + img.size && Inside(img, a) :: img.data[a - img.base]
  }

  function HartOf(m: Machine): Isa.Hart
    requires m.Valid()
  {
    Isa.Hart(m.core.pc, m.core.regs, MemoryOf(m.bus.ram))
  }

  /** The MMU's permissions, as an execution environment. */
  function EnvironmentOf(img: Image): Isa.Environment
    requires img.Valid()
  {
    Isa.Environment(
      set a: nat | img.base <= a < img.base + img.size && ReadableAt(img, a),
      set a: nat | img.base <= a < img.base + img.size && WritableAt(img, a))
  }

  /** The bus the emulator sets up: a free mutex, and an MMU inside the 32-bit address space
      each of whose addresses is served by writable RAM. */
  predicate Flat(b: BusImage) {
    && b.Valid() && !b.held
    && b.ram.base + b.ram.size <= U32_LIMIT
    && forall a :: b.ram.base <= a < b.ram.base + b.ram.size ==> BusLaws.ServedByRam(b.devices, a)
  }

  /** The exception codes of mcause, table 3.6 of the manual's volume II. */
  function ExceptionOf(cause: Word): Option<Isa.Exception> {
    if cause == 2 then Some(Isa.IllegalInstruction)
    else if cause == 5 then Some(Isa.LoadAccessFault)
    else if cause == 7 then Some(Isa.StoreAccessFault)
    else if cause == 8 then Some(Isa.EnvironmentCall)
    else None
  }

  /** What an instruction is seen to have done, if it is something the manual allows at all:
      it retired, or it raised an exception and left the hart unchanged. */
  function Observed(before: Machine, r: Outcome<Machine>): Option<Isa.Result>
    requires before.Valid() && (r.Returns? ==> r.value.Valid())
  {
    match r
    case Halts => None
    case Returns(m) =>
      if m.core.stage.Fetch? then Some(Isa.Retire(HartOf(m)))
      else if m.core.stage.Trap? && m.core.trapStage.Enter? && HartOf(m) == HartOf(before) then
        match ExceptionOf(Csr.Low(m.core.csr[0x342]))
        case None => None
        case Some(x) => Some(Isa.Raise(x))
      else None
  }

  /** The same for the effect of a plan. */
  function ObservedEffect(h: Isa.Hart, e: Effect): Option<Isa.Result>
    requires !e.Died? ==> e.bus.Valid()
  {
    match e
    case Died => None
    case Retired(pc, regs, bus) => Some(Isa.Retire(Isa.Hart(pc, regs, MemoryOf(bus.ram))))
    case Trapped(cause, bus) =>
      if MemoryOf(bus.ram) != h.mem then None
      else
        match ExceptionOf(cause)
        case None => None
        case Some(x) => Some(Isa.Raise(x))
  }

  lemma ObservedHad(m: Machine, r: Outcome<Machine>, e: Effect)
    requires m.Valid() && (r.Returns? ==> r.value.Valid()) && (!e.Died? ==> e.bus.Valid())
    requires Had(r, m.core, e)
    ensures Observed(m, r) == ObservedEffect(HartOf(m), e)
  {
    hide MemoryOf, ExceptionOf, Csr.Low;
  }

  // ----- when the emulator deviates -----

  predicate Negative(v: Word) { v & 0x8000_0000 != 0 }

  predicate Misaligned(target: Word) { target & 3 != 0 }

  /** Every one of n bytes is readable. */
  predicate Readable(img: Image, a: nat, n: nat)
    requires img.Valid()
  {
    img.InRange(a, n) && forall k :: a - img.base <= k < a - img.base + n ==> img.perm[k].read
  }

  /** Every byte of the access is writable or not yet written. */
  predicate Storable(img: Image, a: nat, width: Width)
    requires img.Valid()
  {
    && img.InRange(a, width.Bytes())
    && forall k :: a - img.base <= k < a - img.base + width.Bytes() ==> img.perm[k].write || img.perm[k].raw
  }

  /** The sign bit of the value that LB or LH loads. */
  predicate LoadsNegative(kind: Isa.LoadKind, v: Word) {
    match kind
    case Lb => v & 0x80 != 0
    case Lh => v & 0x8000 != 0
    case _ => false
  }

  predicate Mapped(b: BusImage, a: nat) { FindDevice(b.devices, a).Some? }

  /** The states in which the emulator does not do what the manual says: an arithmetic right
      shift of a negative number by some distance; ORI with a negative immediate whose
      missing sign bits matter; a load of a negative byte or halfword with sign; a jump or
      taken branch to an address that is not a multiple of four; an access that a device
      answers for but the MMU refuses; FENCE; and EBREAK. Nothing else: in particular a
      result meant for x0 is never missed. */
  predicate Deviates(i: Isa.Instr, x: seq<Word>, pc: Word, b: BusImage)
    requires |x| == REG_COUNT && b.Valid()
  {
    match i
    case Lui(_, _) => false
    case Auipc(_, _) => false
    case Jal(_, offset) => Misaligned(Plus(pc, offset))
    case Jalr(_, rs1, offset) => Misaligned(Plus(Isa.Reg(x, rs1), offset))
    case Branch(c, rs1, rs2, offset) =>
      Isa.Holds(c, Isa.Reg(x, rs1), Isa.Reg(x, rs2)) && Misaligned(Plus(pc, offset))
    case Load(kind, rd, rs1, offset) =>
      var a := ToNat(Plus(Isa.Reg(x, rs1), offset));
      var width := Isa.LoadWidth(kind);
      if Readable(b.ram, a, width.Bytes())
      then rd != 0 && LoadsNegative(kind, Compose(b.ram.data[a - b.ram.base..a - b.ram.base + width.Bytes()]))
      else Mapped(b, a)
    case Store(width, rs1, _, offset) =>
      var a := ToNat(Plus(Isa.Reg(x, rs1), offset));
      !Storable(b.ram, a, width) && Mapped(b, a)
    case OpImm(op, rd, rs1, imm) =>
      op.Ori? && rd != 0 && Negative(imm) && Isa.Reg(x, rs1) < 0xffff_f000
    case ShiftImm(op, rd, rs1, shamt) => op.Srai? && rd != 0 && Negative(Isa.Reg(x, rs1)) && shamt != 0
    case OpReg(op, rd, rs1, rs2) =>
      op.Sra? && rd != 0 && Negative(Isa.Reg(x, rs1)) && Shamt(Isa.Reg(x, rs2)) != 0
    case Fence(_, _, _) => true
    case Ecall => false
    case Ebreak => true
  }

  // ----- values -----

  lemma OriDiffers(a: Word, imm: Word)
    requires Isa.IsImmI(imm)
    ensures BitOr(a, BitAnd(imm, 0xfff)) == BitOr(a, imm) <==> !(Negative(imm) && a < 0xffff_f000)
  {
  }

  lemma SraDiffers(a: Word, s: bv5)
    ensures ShiftRight(a, s) == ShiftRightSigned(a, s) <==> !(Negative(a) && s != 0)
  {
    hide ShiftRight;
    if s == 0 {
      ShiftByZero(a);
      ShiftByZero(!a);
    } else {
      ShiftDropsSign(a, s);
      ShiftDropsSign(!a, s);
      SignFlips(ShiftRight(!a, s));
    }
  }

  lemma ShiftByZero(a: Word)
    ensures ShiftRight(a, 0) == a && !!a == a
  {
  }

  lemma ShiftDropsSign(a: Word, s: bv5)
    requires s != 0
    ensures ShiftRight(a, s) & 0x8000_0000 == 0
  {
  }

  lemma SignFlips(a: Word)
    requires a & 0x8000_0000 == 0
    ensures !a & 0x8000_0000 != 0
  {
  }

  lemma PlusCommutes(a: Word, b: Word)
    ensures Plus(a, b) == Plus(b, a)
  {
  }

  lemma ExtendDiffers(kind: Isa.LoadKind, b: seq<Byte>)
    requires |b| == Isa.LoadWidth(kind).Bytes()
    ensures Isa.Extend(kind, Compose(b)) == Compose(b) <==> !LoadsNegative(kind, Compose(b))
  {
    match kind {
      case Lb => ExtendByte(b[0]);
      case Lh => ExtendHalfword(b[0], b[1]);
      case _ =>
    }
  }

  lemma ExtendByte(x: Byte)
    ensures (x as Word) | 0xffff_ff00 != x as Word
  {
  }

  lemma ExtendHalfword(x: Byte, y: Byte)
    ensures ((x as Word) | ((y as Word) << 8)) | 0xffff_0000 != (x as Word) | ((y as Word) << 8)
  {
  }

  lemma WriteDiffers(x: seq<Word>, rd: bv5, v: Word, w: Word)
    requires |x| == REG_COUNT && x[0] == 0
    ensures RegWrite(x, rd, v) == Isa.WithReg(x, rd, w) <==> rd == 0 || v == w
  {
    var r := RegWrite(x, rd, v);
    var s := Isa.WithReg(x, rd, w);
    if rd == 0 {
      assert r == x;
    } else {
      assert r[Index(rd)] == v && s[Index(rd)] == w;
    }
  }

  lemma AlignedJalr(t: Word)
    ensures !Misaligned(t) ==> BitAnd(t, 0xffff_fffe) == t
    ensures Misaligned(t) && !Misaligned(BitAnd(t, 0xffff_fffe)) ==> BitAnd(t, 0xffff_fffe) != t
  {
  }

  // ----- computations and jumps -----

  /** The plan of the instruction has the effect the manual gives it exactly when the
      emulator does not deviate. */
  predicate Conforms(i: Isa.Instr, pc: Word, x: seq<Word>, b: BusImage, bus: BusImage, junk: Byte)
    requires |x| == REG_COUNT && b.Valid() && bus.Valid()
  {
    var h := Isa.Hart(pc, x, MemoryOf(b.ram));
    var e := EffectOf(Encoding.PlanOf(i, x, pc), pc, x, bus, junk);
    ObservedEffect(h, e) == Some(Isa.Step(h, i, EnvironmentOf(b.ram))) <==> !Deviates(i, x, pc, b)
  }

  lemma UpperConforms(i: Isa.Instr, pc: Word, x: seq<Word>, b: BusImage, bus: BusImage, junk: Byte)
    requires |x| == REG_COUNT && x[0] == 0 && b.Valid() && bus.Valid() && bus.ram == b.ram
    requires Isa.Encodable(i) && (i.Lui? || i.Auipc?)
    ensures Conforms(i, pc, x, b, bus, junk)
  {
    hide MemoryOf, EnvironmentOf, RegWrite, Isa.WithReg, Plus, Minus, Words.Xor, BitOr, BitAnd, ShiftLeft;
    hide ShiftRight, ShiftRightSigned, Less, SignedLess, Shamt, Negative, Isa.Reg;
    match i {
      case Lui(rd, imm) => WriteDiffers(x, rd, imm, imm);
      case Auipc(rd, imm) =>
        PlusCommutes(pc, imm);
        WriteDiffers(x, rd, Plus(imm, pc), Plus(imm, pc));
    }
  }

  lemma ImmediateConforms(i: Isa.Instr, pc: Word, x: seq<Word>, b: BusImage, bus: BusImage, junk: Byte)
    requires |x| == REG_COUNT && x[0] == 0 && b.Valid() && bus.Valid() && bus.ram == b.ram
    requires Isa.Encodable(i) && i.OpImm?
    ensures Conforms(i, pc, x, b, bus, junk)
  {
    hide MemoryOf, EnvironmentOf, RegWrite, Isa.WithReg, Plus, Words.Xor, BitOr, BitAnd;
    hide Less, SignedLess, Negative, Isa.Reg;
    var OpImm(op, rd, rs1, imm) := i;
    var a := Isa.Reg(x, rs1);
    OriDiffers(a, imm);
    WriteDiffers(x, rd, if op.Ori? then BitOr(a, BitAnd(imm, 0xfff)) else Isa.ImmResult(op, a, imm),
                 Isa.ImmResult(op, a, imm));
  }

  lemma RegisterConforms(i: Isa.Instr, pc: Word, x: seq<Word>, b: BusImage, bus: BusImage, junk: Byte)
    requires |x| == REG_COUNT && x[0] == 0 && b.Valid() && bus.Valid() && bus.ram == b.ram
    requires i.ShiftImm? || i.OpReg?
    ensures Conforms(i, pc, x, b, bus, junk)
  {
    hide MemoryOf, EnvironmentOf, RegWrite, Isa.WithReg, Plus, Minus, Words.Xor, BitOr, BitAnd, ShiftLeft;
    hide ShiftRight, ShiftRightSigned, Less, SignedLess, Shamt, Negative, Isa.Reg;
    match i {
      case ShiftImm(op, rd, rs1, s) =>
        var a := Isa.Reg(x, rs1);
        SraDiffers(a, s);
        WriteDiffers(x, rd, Isa.ShiftResult(if op.Srai? then Isa.Srli else op, a, s), Isa.ShiftResult(op, a, s));
      case OpReg(op, rd, rs1, rs2) =>
        var a := Isa.Reg(x, rs1);
        var c := Isa.Reg(x, rs2);
        SraDiffers(a, Shamt(c));
        WriteDiffers(x, rd, Isa.RegResult(if op.Sra? then Isa.Srl else op, a, c), Isa.RegResult(op, a, c));
    }
  }

  lemma JumpConforms(i: Isa.Instr, pc: Word, x: seq<Word>, b: BusImage, bus: BusImage, junk: Byte)
    requires |x| == REG_COUNT && x[0] == 0 && b.Valid() && bus.Valid() && bus.ram == b.ram
    requires i.Jal? || i.Jalr? || i.Branch?
    ensures Conforms(i, pc, x, b, bus, junk)
  {
    hide MemoryOf, EnvironmentOf, RegWrite, Isa.WithReg, Plus, BitAnd, Less, SignedLess, Isa.Reg;
    match i {
      case Jal(rd, offset) =>
        PlusCommutes(pc, offset);
        WriteDiffers(x, rd, Plus(pc, 4), Plus(pc, 4));
      case Jalr(rd, rs1, offset) =>
        AlignedJalr(Plus(Isa.Reg(x, rs1), offset));
        WriteDiffers(x, rd, Plus(pc, 4), Plus(pc, 4));
      case Branch(_, _, _, _) =>
    }
  }

  lemma SystemConforms(i: Isa.Instr, pc: Word, x: seq<Word>, b: BusImage, bus: BusImage, junk: Byte)
    requires |x| == REG_COUNT && b.Valid() && bus.Valid() && bus.ram == b.ram
    requires i.Fence? || i.Ecall? || i.Ebreak?
    ensures Conforms(i, pc, x, b, bus, junk)
  {
    hide MemoryOf, EnvironmentOf;
  }

  // ----- loads and stores -----

  lemma LoadableRange(img: Image, a: nat, width: Width)
    requires img.Valid()
    ensures Isa.RangeIn(a, width.Bytes(), EnvironmentOf(img).loadable) <==> Readable(img, a, width.Bytes())
  {
    var s := EnvironmentOf(img).loadable;
    if Isa.RangeIn(a, width.Bytes(), s) {
      assert a in s && a + width.Bytes() - 1 in s;
      forall k | a - img.base <= k < a - img.base + width.Bytes()
        ensures img.perm[k].read
      {
        assert k + img.base in s;
      }
    }
    if Readable(img, a, width.Bytes()) {
      forall k | a <= k < a + width.Bytes()
        ensures k in s
      {
        assert ReadableAt(img, k);
      }
    }
  }

  lemma StorableRange(img: Image, a: nat, width: Width)
    requires img.Valid()
    ensures Isa.RangeIn(a, width.Bytes(), EnvironmentOf(img).storable) <==> Storable(img, a, width)
  {
    var s := EnvironmentOf(img).storable;
    if Isa.RangeIn(a, width.Bytes(), s) {
      assert a in s && a + width.Bytes() - 1 in s;
      forall k | a - img.base <= k < a - img.base + width.Bytes()
        ensures img.perm[k].write || img.perm[k].raw
      {
        assert k + img.base in s;
      }
    }
    if Storable(img, a, width) {
      forall k | a <= k < a + width.Bytes()
        ensures k in s
      {
        assert WritableAt(img, k);
      }
    }
  }

  lemma BytesInMemory(img: Image, a: nat, width: Width)
    requires img.Valid() && img.InRange(a, width.Bytes())
    ensures Isa.RangeIn(a, width.Bytes(), MemoryOf(img).Keys)
    ensures Isa.BytesAt(MemoryOf(img), a, width) == img.data[a - img.base..a - img.base + width.Bytes()]
  {
    forall k | a <= k < a + width.Bytes()
      ensures k in MemoryOf(img).Keys && MemoryOf(img)[k] == img.data[k - img.base]
    {
      assert Inside(img, k);
    }
  }

  /** What a load comes to: an access fault, a refusal that goes unnoticed, or the bytes. */
  lemma LoadOutcome(b: BusImage, a: nat, width: Width, junk: Byte)
    requires Flat(b)
    ensures ReadSingle(b, a, width, junk).Returns?
    ensures var got := ReadSingle(b, a, width, junk).value;
            && got.bus == b.(flags := got.bus.flags)
            && (got.bus.flags.bus == if Mapped(b, a) then BusOk else AddressNotFound)
            && (Readable(b.ram, a, width.Bytes()) ==>
                  && Mapped(b, a)
                  && got.value == Compose(b.ram.data[a - b.ram.base..a - b.ram.base + width.Bytes()]))
  {
    hide Read, Compose;
    if Readable(b.ram, a, width.Bytes()) {
      assert BusLaws.ServedByRam(b.devices, a);
      BusLaws.LoadReturnsBytes(b, a, width, junk);
    }
  }

  lemma RefusedLoadConforms(i: Isa.Instr, pc: Word, x: seq<Word>, b: BusImage, bus: BusImage, junk: Byte)
    requires |x| == REG_COUNT && x[0] == 0 && Flat(b) && bus.Valid() && bus == b.(flags := bus.flags)
    requires i.Load?
    requires !Readable(b.ram, ToNat(Plus(Isa.Reg(x, i.rs1), i.offset)), Isa.LoadWidth(i.kind).Bytes())
    ensures Conforms(i, pc, x, b, bus, junk)
  {
    hide MemoryOf, EnvironmentOf, RegWrite, Isa.WithReg, Plus, Isa.Reg, ReadSingle, Isa.BytesAt, Compose;
    hide Isa.RangeIn, Readable, Isa.Extend, LoadsNegative, ToNat, FindDevice, ExceptionOf;
    var a := ToNat(Plus(Isa.Reg(x, i.rs1), i.offset));
    LoadOutcome(bus, a, Isa.LoadWidth(i.kind), junk);
    LoadableRange(b.ram, a, Isa.LoadWidth(i.kind));
    LoadFaultIsException();
  }

  /** The bytes that a granted load reads. */
  function LoadedBytes(i: Isa.Instr, x: seq<Word>, img: Image): (b: seq<Byte>)
    requires |x| == REG_COUNT && i.Load? && img.Valid()
    requires Readable(img, ToNat(Plus(Isa.Reg(x, i.rs1), i.offset)), Isa.LoadWidth(i.kind).Bytes())
    ensures |b| == Isa.LoadWidth(i.kind).Bytes()
  {
    var o := ToNat(Plus(Isa.Reg(x, i.rs1), i.offset)) - img.base;
    img.data[o..o + Isa.LoadWidth(i.kind).Bytes()]
  }

  lemma GrantedLoadEffect(i: Isa.Instr, pc: Word, x: seq<Word>, b: BusImage, bus: BusImage, junk: Byte)
    requires |x| == REG_COUNT && Flat(b) && bus.Valid() && bus == b.(flags := bus.flags) && i.Load?
    requires Readable(b.ram, ToNat(Plus(Isa.Reg(x, i.rs1), i.offset)), Isa.LoadWidth(i.kind).Bytes())
    ensures var e := EffectOf(Encoding.PlanOf(i, x, pc), pc, x, bus, junk);
            && e.Retired? && e.pc == Plus(pc, 4) && e.bus.ram == b.ram
            && e.regs == RegWrite(x, i.rd, Compose(LoadedBytes(i, x, b.ram)))
  {
    hide RegWrite, Plus, Isa.Reg, ReadSingle, Compose, Readable, ToNat, FindDevice, Mapped;
    var a := ToNat(Plus(Isa.Reg(x, i.rs1), i.offset));
    LoadOutcome(bus, a, Isa.LoadWidth(i.kind), junk);
    MappedIgnoresFlags(b, bus, a);
  }

  lemma GrantedLoadStep(i: Isa.Instr, h: Isa.Hart, img: Image)
    requires |h.x| == REG_COUNT && img.Valid() && h.mem == MemoryOf(img) && i.Load?
    requires EnvironmentOf(img).loadable <= h.mem.Keys
    requires Readable(img, ToNat(Plus(Isa.Reg(h.x, i.rs1), i.offset)), Isa.LoadWidth(i.kind).Bytes())
    ensures Isa.Step(h, i, EnvironmentOf(img))
            == Isa.Retire(h.(pc := Plus(h.pc, 4),
                             x := Isa.WithReg(h.x, i.rd, Isa.Extend(i.kind, Compose(LoadedBytes(i, h.x, img))))))
  {
    hide MemoryOf, EnvironmentOf, Isa.WithReg, Plus, Isa.Reg, Isa.BytesAt, Compose, Isa.RangeIn, Readable, Isa.Extend;
    hide ToNat;
    var a := ToNat(Plus(Isa.Reg(h.x, i.rs1), i.offset));
    LoadableRange(img, a, Isa.LoadWidth(i.kind));
    InRangeIfReadable(img, a, Isa.LoadWidth(i.kind).Bytes());
    BytesInMemory(img, a, Isa.LoadWidth(i.kind));
  }

  lemma LoadableInside(img: Image)
    requires img.Valid()
    ensures EnvironmentOf(img).loadable <= MemoryOf(img).Keys
  {
  }

  lemma GrantedLoadDeviates(i: Isa.Instr, pc: Word, x: seq<Word>, b: BusImage)
    requires |x| == REG_COUNT && b.Valid() && i.Load?
    requires Readable(b.ram, ToNat(Plus(Isa.Reg(x, i.rs1), i.offset)), Isa.LoadWidth(i.kind).Bytes())
    ensures Deviates(i, x, pc, b) <==> i.rd != 0 && LoadsNegative(i.kind, Compose(LoadedBytes(i, x, b.ram)))
  {
    hide Plus, Isa.Reg, Compose, Readable, LoadsNegative, ToNat, Mapped;
  }

  lemma GrantedLoadConforms(i: Isa.Instr, pc: Word, x: seq<Word>, b: BusImage, bus: BusImage, junk: Byte)
    requires |x| == REG_COUNT && x[0] == 0 && Flat(b) && bus.Valid() && bus == b.(flags := bus.flags)
    requires i.Load?
    requires Readable(b.ram, ToNat(Plus(Isa.Reg(x, i.rs1), i.offset)), Isa.LoadWidth(i.kind).Bytes())
    ensures Conforms(i, pc, x, b, bus, junk)
  {
    hide MemoryOf, EnvironmentOf, RegWrite, Isa.WithReg, Isa.Step, EffectOf, Encoding.PlanOf, Deviates, LoadedBytes;
    hide Readable, Isa.Extend, LoadsNegative, ToNat, Plus, Isa.Reg, Compose, ExceptionOf;
    var h := Isa.Hart(pc, x, MemoryOf(b.ram));
    LoadableInside(b.ram);
    GrantedLoadEffect(i, pc, x, b, bus, junk);
    GrantedLoadStep(i, h, b.ram);
    GrantedLoadDeviates(i, pc, x, b);
    var v := Compose(LoadedBytes(i, x, b.ram));
    ExtendDiffers(i.kind, LoadedBytes(i, x, b.ram));
    WriteDiffers(x, i.rd, v, Isa.Extend(i.kind, v));
  }

  lemma MappedIgnoresFlags(b: BusImage, bus: BusImage, a: nat)
    requires bus.devices == b.devices
    ensures Mapped(b, a) == Mapped(bus, a)
  {
  }

  lemma LoadFaultIsException()
    ensures ExceptionOf(LoadFault(AddressNotFound)) == Some(Isa.LoadAccessFault)
  {
  }

  lemma InRangeIfReadable(img: Image, a: nat, n: nat)
    requires img.Valid() && Readable(img, a, n)
    ensures img.InRange(a, n)
  {
  }

  lemma DecomposeTruncated(v: Word, width: Width)
    ensures Decompose(Truncate(v, width), width) == Decompose(v, width)
  {
    TruncatedBytes(v);
  }

  lemma TruncatedBytes(v: Word)
    ensures ByteOf(BitAnd(v, 0xff), 0) == ByteOf(v, 0)
    ensures ByteOf(BitAnd(v, 0xffff), 0) == ByteOf(v, 0)
    ensures ByteOf(BitAnd(v, 0xffff), 1) == ByteOf(v, 1)
  {
  }

  /** Splicing bytes into the data of an image is storing them in its memory. */
  lemma SpliceIsStore(img: Image, img': Image, a: nat, width: Width, v: Word)
    requires img.Valid() && img'.Valid() && img.InRange(a, width.Bytes())
    requires img'.base == img.base && img'.size == img.size
    requires img'.data == Splice(img.data, a - img.base, Decompose(v, width))
    ensures MemoryOf(img') == Isa.StoreAt(MemoryOf(img), a, width, v)
  {
    hide Decompose, Splice, Isa.StoreAt;
    var x := MemoryOf(img');
    var y := Isa.StoreAt(MemoryOf(img), a, width, v);
    forall k | a <= k < a + width.Bytes()
      ensures k in MemoryOf(img)
    {
      assert Inside(img, k);
    }
    forall k: nat
      ensures k in x <==> k in y
      ensures k in y ==> x[k] == y[k]
    {
      StoredAt(MemoryOf(img), a, width, v, k);
      assert Inside(img, k) == Inside(img', k);
    }
  }

  /** What a store leaves at an address. */
  lemma StoredAt(mem: Isa.Memory, a: nat, width: Width, v: Word, k: nat)
    requires forall j :: a <= j < a + width.Bytes() ==> j in mem
    ensures k in Isa.StoreAt(mem, a, width, v) <==> k in mem
    ensures k in mem ==>
              Isa.StoreAt(mem, a, width, v)[k]
              == if a <= k < a + width.Bytes() then Decompose(v, width)[k - a] else mem[k]
  {
    hide ByteOf;
    assert a in mem;
  }

  lemma StoreOutcome(b: BusImage, a: nat, width: Width, v: Word)
    requires Flat(b)
    ensures var r := WriteSingle(b, a, Truncate(v, width), width);
            && (!Mapped(b, a) ==>
                  r.Returns? && r.value.flags.bus == AddressNotFound && r.value.ram == b.ram)
            && (Mapped(b, a) && r.Returns? ==> r.value.flags.bus == BusOk)
            && (Storable(b.ram, a, width) ==>
                  && Mapped(b, a) && r.Returns?
                  && MemoryOf(r.value.ram) == Isa.StoreAt(MemoryOf(b.ram), a, width, v))
  {
    hide Write, Decompose, Truncate, MemoryOf, Isa.StoreAt;
    if Storable(b.ram, a, width) {
      assert BusLaws.ServedByRam(b.devices, a);
      DecomposeTruncated(v, width);
      History.WriteIsExact(b.ram, Decompose(v, width), a);
      var img' := Write(b.ram, Decompose(v, width), a).image;
      WriteSplices(b.ram, Decompose(v, width), a);
      SpliceIsStore(b.ram, img', a, width, v);
    }
  }

  lemma WriteSplices(img: Image, src: seq<Byte>, addr: nat)
    requires img.Valid() && Write(img, src, addr).status.MmuOk?
    ensures var img' := Write(img, src, addr).image;
            && img'.base == img.base && img'.size == img.size && img.InRange(addr, |src|)
            && img'.data == Splice(img.data, addr - img.base, src)
  {
  }

  lemma StoreConforms(i: Isa.Instr, pc: Word, x: seq<Word>, b: BusImage, bus: BusImage, junk: Byte)
    requires |x| == REG_COUNT && x[0] == 0 && Flat(b) && bus.Valid() && bus == b.(flags := bus.flags)
    requires i.Store?
    ensures Conforms(i, pc, x, b, bus, junk)
  {
    hide MemoryOf, EnvironmentOf, Plus, Isa.Reg, WriteSingle, Isa.StoreAt, Truncate;
    hide Isa.RangeIn, Storable, ToNat, FindDevice;
    var Store(width, rs1, rs2, offset) := i;
    var a := ToNat(Plus(Isa.Reg(x, rs1), offset));
    StoreOutcome(bus, a, width, Isa.Reg(x, rs2));
    StorableRange(b.ram, a, width);
  }

  // ----- the theorem -----

  lemma EveryInstructionConforms(i: Isa.Instr, pc: Word, x: seq<Word>, b: BusImage, bus: BusImage, junk: Byte)
    requires |x| == REG_COUNT && x[0] == 0 && Flat(b) && bus.Valid() && bus == b.(flags := bus.flags)
    requires Isa.Encodable(i)
    ensures Conforms(i, pc, x, b, bus, junk)
  {
    hide Conforms, Isa.Encodable, Readable, ToNat, Plus, Isa.Reg;
    match i {
      case Load(kind, _, rs1, offset) =>
        if Readable(b.ram, ToNat(Plus(Isa.Reg(x, rs1), offset)), Isa.LoadWidth(kind).Bytes()) {
          GrantedLoadConforms(i, pc, x, b, bus, junk);
        } else {
          RefusedLoadConforms(i, pc, x, b, bus, junk);
        }
      case Store(_, _, _, _) => StoreConforms(i, pc, x, b, bus, junk);
      case Jal(_, _) => JumpConforms(i, pc, x, b, bus, junk);
      case Jalr(_, _, _) => JumpConforms(i, pc, x, b, bus, junk);
      case Branch(_, _, _, _) => JumpConforms(i, pc, x, b, bus, junk);
      case ShiftImm(_, _, _, _) => RegisterConforms(i, pc, x, b, bus, junk);
      case OpReg(_, _, _, _) => RegisterConforms(i, pc, x, b, bus, junk);
      case Lui(_, _) => UpperConforms(i, pc, x, b, bus, junk);
      case Auipc(_, _) => UpperConforms(i, pc, x, b, bus, junk);
      case OpImm(_, _, _, _) => ImmediateConforms(i, pc, x, b, bus, junk);
      case Fence(_, _, _) => SystemConforms(i, pc, x, b, bus, junk);
      case Ecall => SystemConforms(i, pc, x, b, bus, junk);
      case Ebreak => SystemConforms(i, pc, x, b, bus, junk);
    }
  }

  /** For every encodable RV32I instruction and every state of the registers, the pc, the
      memory and its permissions: the pipeline, from the fetch of the instruction on, does
      exactly what the manual says of it if and only if it does not deviate. */
  lemma PipelineRefinesIsa(m: Machine, i: Isa.Instr, junk: Byte)
    requires m.Valid() && m.core.stage.Fetch? && m.core.regs[0] == 0 && Flat(m.bus)
    requires Isa.Encodable(i)
    requires FetchStage(m).Returns? && FetchStage(m).value.core.buffer[0] == Isa.Encode(i)
    ensures Observed(m, Issue(m, junk)) == Some(Isa.Step(HartOf(m), i, EnvironmentOf(m.bus.ram)))
            <==> !Deviates(i, m.core.regs, m.core.pc, m.bus)
  {
    hide Issue, FetchStage, Isa.Encode, Isa.Encodable, Had, ObservedEffect, Observed, Deviates, EffectOf;
    hide Encoding.PlanOf, Flat, MemoryOf, EnvironmentOf;
    FetchKeeps(m);
    var bus := FetchStage(m).value.bus;
    var e := EffectOf(Encoding.PlanOf(i, m.core.regs, m.core.pc), m.core.pc, m.core.regs, bus, junk);
    IssueCarriesOut(m, i, junk);
    ObservedHad(m, Issue(m, junk), e);
    EveryInstructionConforms(i, m.core.pc, m.core.regs, m.bus, bus, junk);
  }

  // ----- the theorem in integers -----

  /** What the pipeline is seen to have done is what the integers say, if and only if it does
      not deviate: the numbers left in the registers, the pc and memory, or the exception. */
  lemma PipelineComputes(m: Machine, i: Isa.Instr, junk: Byte)
    requires m.Valid() && m.core.stage.Fetch? && m.core.regs[0] == 0 && Flat(m.bus)
    requires Isa.Encodable(i)
    requires FetchStage(m).Returns? && FetchStage(m).value.core.buffer[0] == Isa.Encode(i)
    ensures var seen := Observed(m, Issue(m, junk));
            seen.Some? && Integers.ResultOf(seen.value)
                          == Integers.Step(Integers.StateOf(HartOf(m)), i, EnvironmentOf(m.bus.ram))
            <==> !Deviates(i, m.core.regs, m.core.pc, m.bus)
  {
    hide Issue, FetchStage, Isa.Encode, Isa.Encodable, Observed, Deviates, Flat, MemoryOf, EnvironmentOf;
    hide Isa.Step, Integers.Step, Integers.StateOf, Integers.ResultOf;
    LoadableInside(m.bus.ram);
    PipelineRefinesIsa(m, i, junk);
    Integers.StepMeans(HartOf(m), i, EnvironmentOf(m.bus.ram));
    if Observed(m, Issue(m, junk)).Some? {
      ResultsAgree(Observed(m, Issue(m, junk)).value, Isa.Step(HartOf(m), i, EnvironmentOf(m.bus.ram)));
    }
  }

  lemma ResultsAgree(r: Isa.Result, s: Isa.Result)
    ensures Integers.ResultOf(r) == Integers.ResultOf(s) <==> r == s
  {
    if Integers.ResultOf(r) == Integers.ResultOf(s) { Integers.ResultDecides(r, s); }
  }
}
