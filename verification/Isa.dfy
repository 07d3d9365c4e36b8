/** The RV32I base instruction set: chapter 2 of the RISC-V Instruction Set Manual,
    Volume I, version 20191213. One instruction is one atomic step of a hart. */
module Isa {
  import opened Words

  // ----- instructions -----

  datatype Condition = Eq | Ne | Lt | Ge | Ltu | Geu

  datatype LoadKind = Lb | Lh | Lw | Lbu | Lhu

  datatype ImmOp = Addi | Slti | Sltiu | Xori | Ori | Andi

  datatype ShiftOp = Slli | Srli | Srai

  datatype RegOp = Add | Sub | Sll | Slt | Sltu | Xor | Srl | Sra | Or | And

  /** Immediates are the 32-bit values of section 2.3. */
  datatype Instr =
    | Lui(rd: bv5, imm: Word)
    | Auipc(rd: bv5, imm: Word)
    | Jal(rd: bv5, offset: Word)
    | Jalr(rd: bv5, rs1: bv5, offset: Word)
    | Branch(cond: Condition, rs1: bv5, rs2: bv5, offset: Word)
    | Load(kind: LoadKind, rd: bv5, rs1: bv5, offset: Word)
    | Store(width: Width, rs1: bv5, rs2: bv5, offset: Word)
    | OpImm(iop: ImmOp, rd: bv5, rs1: bv5, imm: Word)
    | ShiftImm(sop: ShiftOp, rd: bv5, rs1: bv5, shamt: bv5)
    | OpReg(rop: RegOp, rd: bv5, rs1: bv5, rs2: bv5)
    | Fence(rd: bv5, rs1: bv5, sets: bv12)
    | Ecall
    | Ebreak

  /** The immediates that the formats of section 2.3 can express. */
  predicate IsImmI(imm: Word) { imm & 0xffff_f800 == 0 || imm & 0xffff_f800 == 0xffff_f800 }

  predicate IsImmB(imm: Word) { imm & 0xffff_f001 == 0 || imm & 0xffff_f001 == 0xffff_f000 }

  predicate IsImmU(imm: Word) { imm & 0xfff == 0 }

  predicate IsImmJ(imm: Word) { imm & 0xfff0_0001 == 0 || imm & 0xfff0_0001 == 0xfff0_0000 }

  predicate Encodable(i: Instr) {
    match i
    case Lui(_, imm) => IsImmU(imm)
    case Auipc(_, imm) => IsImmU(imm)
    case Jal(_, offset) => IsImmJ(offset)
    case Jalr(_, _, offset) => IsImmI(offset)
    case Branch(_, _, _, offset) => IsImmB(offset)
    case Load(_, _, _, offset) => IsImmI(offset)
    case Store(_, _, _, offset) => IsImmI(offset)
    case OpImm(_, _, _, imm) => IsImmI(imm)
    case _ => true
  }

  // ----- encoding: the formats of sections 2.2 and 2.3 -----

  function FormatR(funct7: Word, rs2: bv5, rs1: bv5, funct3: Word, rd: bv5, opcode: Word): Word {
    (funct7 << 25) | ((rs2 as Word) << 20) | ((rs1 as Word) << 15) | (funct3 << 12) | ((rd as Word) << 7) | opcode
  }

  function FormatI(imm: Word, rs1: bv5, funct3: Word, rd: bv5, opcode: Word): Word {
    (imm << 20) | ((rs1 as Word) << 15) | (funct3 << 12) | ((rd as Word) << 7) | opcode
  }

  function FormatS(imm: Word, rs2: bv5, rs1: bv5, funct3: Word, opcode: Word): Word {
    (((imm >> 5) & 0x7f) << 25) | ((rs2 as Word) << 20) | ((rs1 as Word) << 15) | (funct3 << 12)
    | ((imm & 0x1f) << 7) | opcode
  }

  function FormatB(imm: Word, rs2: bv5, rs1: bv5, funct3: Word, opcode: Word): Word {
    (((imm >> 12) & 1) << 31) | (((imm >> 5) & 0x3f) << 25) | ((rs2 as Word) << 20) | ((rs1 as Word) << 15)
    | (funct3 << 12) | (((imm >> 1) & 0xf) << 8) | (((imm >> 11) & 1) << 7) | opcode
  }

  function FormatU(imm: Word, rd: bv5, opcode: Word): Word {
    (imm & 0xffff_f000) | ((rd as Word) << 7) | opcode
  }

  function FormatJ(imm: Word, rd: bv5, opcode: Word): Word {
    (((imm >> 20) & 1) << 31) | (((imm >> 1) & 0x3ff) << 21) | (((imm >> 11) & 1) << 20)
    | (((imm >> 12) & 0xff) << 12) | ((rd as Word) << 7) | opcode
  }

  function ConditionCode(c: Condition): Word {
    match c case Eq => 0 case Ne => 1 case Lt => 4 case Ge => 5 case Ltu => 6 case Geu => 7
  }

  function LoadCode(k: LoadKind): Word {
    match k case Lb => 0 case Lh => 1 case Lw => 2 case Lbu => 4 case Lhu => 5
  }

  function StoreCode(w: Width): Word {
    match w case BYTE => 0 case HALFWORD => 1 case WORD => 2
  }

  function ImmOpCode(op: ImmOp): Word {
    match op case Addi => 0 case Slti => 2 case Sltiu => 3 case Xori => 4 case Ori => 6 case Andi => 7
  }

  function RegOpCode(op: RegOp): Word {
    match op
    case Add => 0 case Sub => 0 case Sll => 1 case Slt => 2 case Sltu => 3
    case Xor => 4 case Srl => 5 case Sra => 5 case Or => 6 case And => 7
  }

  function Encode(i: Instr): Word {
    match i
    case Lui(rd, imm) => FormatU(imm, rd, 0x37)
    case Auipc(rd, imm) => FormatU(imm, rd, 0x17)
    case Jal(rd, offset) => FormatJ(offset, rd, 0x6f)
    case Jalr(rd, rs1, offset) => FormatI(offset, rs1, 0, rd, 0x67)
    case Branch(cond, rs1, rs2, offset) => FormatB(offset, rs2, rs1, ConditionCode(cond), 0x63)
    case Load(kind, rd, rs1, offset) => FormatI(offset, rs1, LoadCode(kind), rd, 0x03)
    case Store(width, rs1, rs2, offset) => FormatS(offset, rs2, rs1, StoreCode(width), 0x23)
    case OpImm(op, rd, rs1, imm) => FormatI(imm, rs1, ImmOpCode(op), rd, 0x13)
    case ShiftImm(op, rd, rs1, shamt) =>
      FormatR(if op.Srai? then 0x20 else 0, shamt, rs1, if op.Slli? then 1 else 5, rd, 0x13)
    case OpReg(op, rd, rs1, rs2) =>
      FormatR(if op.Sub? || op.Sra? then 0x20 else 0, rs2, rs1, RegOpCode(op), rd, 0x33)
    case Fence(rd, rs1, sets) => FormatI(sets as Word, rs1, 0, rd, 0x0f)
    case Ecall => 0x0000_0073
    case Ebreak => 0x0010_0073
  }

  // ----- harts -----

  /** Byte-addressed memory. */
  type Memory = map<nat, Byte>

  datatype Hart = Hart(pc: Word, x: seq<Word>, mem: Memory)

  /** The addresses the execution environment lets a hart load from and store to. */
  datatype Environment = Environment(loadable: set<nat>, storable: set<nat>)

  datatype Exception =
    | AddressMisaligned
    | LoadAccessFault
    | StoreAccessFault
    | EnvironmentCall
    | Breakpoint
    | IllegalInstruction

  /** What one instruction does: retire, or raise an exception and change nothing. */
  datatype Result = Retire(hart: Hart) | Raise(cause: Exception)

  /** Register x0 is hardwired to zero. */
  function Reg(x: seq<Word>, r: bv5): Word
    requires |x| == 32
  {
    if r == 0 then 0 else x[Index(r)]
  }

  function WithReg(x: seq<Word>, r: bv5, v: Word): seq<Word>
    requires |x| == 32
  {
    if r == 0 then x else x[Index(r) := v]
  }

  // ----- section 2.4: integer computation -----

  function ImmResult(op: ImmOp, a: Word, imm: Word): Word {
    match op
    case Addi => Plus(a, imm)
    case Slti => if SignedLess(a, imm) then 1 else 0
    case Sltiu => if Less(a, imm) then 1 else 0
    case Xori => Words.Xor(a, imm)
    case Ori => BitOr(a, imm)
    case Andi => BitAnd(a, imm)
  }

  function ShiftResult(op: ShiftOp, a: Word, s: bv5): Word {
    match op
    case Slli => ShiftLeft(a, s)
    case Srli => ShiftRight(a, s)
    case Srai => ShiftRightSigned(a, s)
  }

  function RegResult(op: RegOp, a: Word, b: Word): Word {
    var s := Shamt(b);
    match op
    case Add => Plus(a, b)
    case Sub => Minus(a, b)
    case Sll => ShiftLeft(a, s)
    case Slt => if SignedLess(a, b) then 1 else 0
    case Sltu => if Less(a, b) then 1 else 0
    case Xor => Words.Xor(a, b)
    case Srl => ShiftRight(a, s)
    case Sra => ShiftRightSigned(a, s)
    case Or => BitOr(a, b)
    case And => BitAnd(a, b)
  }

  // ----- section 2.5: control transfer -----

  predicate Holds(c: Condition, a: Word, b: Word) {
    match c
    case Eq => a == b
    case Ne => a != b
    case Lt => SignedLess(a, b)
    case Ge => !SignedLess(a, b)
    case Ltu => Less(a, b)
    case Geu => !Less(a, b)
  }

  /** A taken jump to an address that is not a multiple of four raises an exception. */
  function JumpTo(h: Hart, x: seq<Word>, target: Word): Result {
    if target & 3 != 0 then Raise(AddressMisaligned) else Retire(h.(pc := target, x := x))
  }

  // ----- section 2.6: loads and stores -----

  function LoadWidth(k: LoadKind): Width {
    match k case Lb => BYTE case Lbu => BYTE case Lh => HALFWORD case Lhu => HALFWORD case Lw => WORD
  }

  predicate RangeIn(a: nat, n: nat, s: set<nat>) { forall k :: a <= k < a + n ==> k in s }

  /** The bytes of memory from a on, least significant first. */
  function BytesAt(mem: Memory, a: nat, width: Width): (b: seq<Byte>)
    requires RangeIn(a, width.Bytes(), mem.Keys)
    ensures |b| == width.Bytes()
  {
    match width
    case BYTE => [mem[a]]
    case HALFWORD => [mem[a], mem[a + 1]]
    case WORD => [mem[a], mem[a + 1], mem[a + 2], mem[a + 3]]
  }

  /** LB and LH sign-extend, LBU and LHU zero-extend. */
  function Extend(k: LoadKind, v: Word): Word {
    match k
    case Lb => if v & 0x80 != 0 then v | 0xffff_ff00 else v
    case Lh => if v & 0x8000 != 0 then v | 0xffff_0000 else v
    case Lw => v
    case Lbu => v
    case Lhu => v
  }

  function StoreAt(mem: Memory, a: nat, width: Width, v: Word): Memory {
    match width
    case BYTE => mem[a := ByteOf(v, 0)]
    case HALFWORD => mem[a := ByteOf(v, 0)][a + 1 := ByteOf(v, 1)]
    case WORD => mem[a := ByteOf(v, 0)][a + 1 := ByteOf(v, 1)][a + 2 := ByteOf(v, 2)][a + 3 := ByteOf(v, 3)]
  }

  // ----- one instruction -----

  function Step(h: Hart, i: Instr, env: Environment): Result
    requires |h.x| == 32 && env.loadable <= h.mem.Keys
  {
    var next := h.(pc := Plus(h.pc, 4));
    match i
    case Lui(rd, imm) => Retire(next.(x := WithReg(h.x, rd, imm)))
    case Auipc(rd, imm) => Retire(next.(x := WithReg(h.x, rd, Plus(h.pc, imm))))
    case Jal(rd, offset) => JumpTo(h, WithReg(h.x, rd, Plus(h.pc, 4)), Plus(h.pc, offset))
    case Jalr(rd, rs1, offset) =>
      JumpTo(h, WithReg(h.x, rd, Plus(h.pc, 4)), BitAnd(Plus(Reg(h.x, rs1), offset), 0xffff_fffe))
    case Branch(cond, rs1, rs2, offset) =>
      if Holds(cond, Reg(h.x, rs1), Reg(h.x, rs2)) then JumpTo(h, h.x, Plus(h.pc, offset)) else Retire(next)
    case Load(kind, rd, rs1, offset) =>
      var a := ToNat(Plus(Reg(h.x, rs1), offset));
      if !RangeIn(a, LoadWidth(kind).Bytes(), env.loadable) then Raise(LoadAccessFault)
      else
        assert RangeIn(a, LoadWidth(kind).Bytes(), h.mem.Keys);
        Retire(next.(x := WithReg(h.x, rd, Extend(kind, Compose(BytesAt(h.mem, a, LoadWidth(kind)))))))
    case Store(width, rs1, rs2, offset) =>
      var a := ToNat(Plus(Reg(h.x, rs1), offset));
      if !RangeIn(a, width.Bytes(), env.storable) then Raise(StoreAccessFault)
      else Retire(next.(mem := StoreAt(h.mem, a, width, Reg(h.x, rs2))))
    case OpImm(op, rd, rs1, imm) => Retire(next.(x := WithReg(h.x, rd, ImmResult(op, Reg(h.x, rs1), imm))))
    case ShiftImm(op, rd, rs1, shamt) =>
      Retire(next.(x := WithReg(h.x, rd, ShiftResult(op, Reg(h.x, rs1), shamt))))
    case OpReg(op, rd, rs1, rs2) =>
      Retire(next.(x := WithReg(h.x, rd, RegResult(op, Reg(h.x, rs1), Reg(h.x, rs2)))))
    case Fence(_, _, _) => Retire(next)
    case Ecall => Raise(EnvironmentCall)
    case Ebreak => Raise(Breakpoint)
  }
}
