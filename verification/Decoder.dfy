/** The decoder and the arithmetic of the execute stage (src/cpu.h, src/cpu.c). */
module Decoder {
  import opened Words

  // ----- cpu.h -----

  datatype OpType = Unknown | TypeR | TypeI | TypeS | TypeB | TypeU | TypeJ | TypeC

  /** decode_type_table */
  function OpTypeOf(opcode: bv7): OpType {
    if opcode == 0x03 || opcode == 0x13 || opcode == 0x67 then TypeI
    else if opcode == 0x17 || opcode == 0x37 then TypeU
    else if opcode == 0x23 then TypeS
    else if opcode == 0x33 then TypeR
    else if opcode == 0x63 then TypeB
    else if opcode == 0x6f then TypeJ
    else if opcode == 0x73 then TypeC
    else Unknown
  }

  /** The _OP macro: opcode, funct3 and bit 5 of funct7 side by side. */
  function Op(opcode: Word, funct3: Word, funct7: Word): Word {
    opcode | (funct3 << 7) | (funct7 << 11)
  }

  const OP_LUI := Op(0x37, 0, 0)
  const OP_AUIPC := Op(0x17, 0, 0)
  const OP_JAL := Op(0x6f, 0, 0)
  const OP_JALR := Op(0x67, 0, 0)
  const OP_BEQ := Op(0x63, 0, 0)
  const OP_BNE := Op(0x63, 1, 0)
  const OP_BLT := Op(0x63, 4, 0)
  const OP_BGE := Op(0x63, 5, 0)
  const OP_BLTU := Op(0x63, 6, 0)
  const OP_BGEU := Op(0x63, 7, 0)
  const OP_LB := Op(0x03, 0, 0)
  const OP_LH := Op(0x03, 1, 0)
  const OP_LW := Op(0x03, 2, 0)
  const OP_LBU := Op(0x03, 4, 0)
  const OP_LHU := Op(0x03, 5, 0)
  const OP_SB := Op(0x23, 0, 0)
  const OP_SH := Op(0x23, 1, 0)
  const OP_SW := Op(0x23, 2, 0)
  const OP_ADDI := Op(0x13, 0, 0)
  const OP_SLTI := Op(0x13, 2, 0)
  const OP_SLTIU := Op(0x13, 3, 0)
  const OP_XORI := Op(0x13, 4, 0)
  const OP_ORI := Op(0x13, 6, 0)
  const OP_ANDI := Op(0x13, 7, 0)
  const OP_SLLI := Op(0x13, 1, 0)
  const OP_SRLI := Op(0x13, 5, 0)
  const OP_SRAI := Op(0x13, 5, 1)
  const OP_ADD := Op(0x33, 0, 0)
  const OP_SUB := Op(0x33, 0, 1)
  const OP_SLL := Op(0x33, 1, 0)
  const OP_SLT := Op(0x33, 2, 0)
  const OP_SLTU := Op(0x33, 3, 0)
  const OP_XOR := Op(0x33, 4, 0)
  const OP_SRL := Op(0x33, 5, 0)
  const OP_SRA := Op(0x33, 5, 1)
  const OP_OR := Op(0x33, 6, 0)
  const OP_AND := Op(0x33, 7, 0)
  const OP_ECALL := Op(0x73, 0, 0)

  /** instr_t: what travels from decode to writeback. Fields an instruction does not set
      keep the value of an earlier instruction. */
  datatype Decoded = Decoded(
    optype: OpType, opcode: bv7, rs1: bv5, rs2: bv5, rd: bv5, funct7: bv7, funct3: bv3, shamt: bv5,
    imm12: bv12, imm20: bv20, rs1v: Word, rs2v: Word,
    memOffset: Word, jumpTarget: Word, width: Width,
    isJump: bool, writeRd: bool, readMem: bool, writeMem: bool)

  const CLEARED := Decoded(Unknown, 0, 0, 0, 0, 0, 0, 0, 0, 0, 0, 0, 0, 0, BYTE, false, false, false, false)

  // ----- decode -----

  const REG_COUNT: nat := 32

  /** REG_R */
  function RegRead(regs: seq<Word>, r: bv5): Word
    requires |regs| == REG_COUNT
  {
    if r == 0 then 0 else regs[Index(r)]
  }

  /** REG_W */
  function RegWrite(regs: seq<Word>, r: bv5, v: Word): seq<Word>
    requires |regs| == REG_COUNT
  {
    regs[Index(r) := if r == 0 then 0 else v]
  }

  function Opcode(i: Word): bv7 { (i & 0x7f) as bv7 }

  function Rd(i: Word): bv5 { ((i >> 7) & 31) as bv5 }

  function Funct3(i: Word): bv3 { ((i >> 12) & 7) as bv3 }

  function Rs1(i: Word): bv5 { ((i >> 15) & 31) as bv5 }

  function Rs2(i: Word): bv5 { ((i >> 20) & 31) as bv5 }

  function Funct7(i: Word): bv7 { (i >> 25) as bv7 }

  function ImmI(i: Word): bv12 { ((i >> 20) & 0xfff) as bv12 }

  function ImmS(i: Word): bv12 { (((i >> 7) & 0x1f) | ((i >> 20) & 0xfe0)) as bv12 }

  /** The thirteen bits of a branch offset, shifted right once to fit the field. */
  function ImmB(i: Word): bv12 {
    var b12 := (i >> 31) & 1;
    var b105 := (i >> 25) & 0x3f;
    var b41 := (i >> 8) & 0xf;
    var b11 := (i >> 7) & 1;
    (((b12 << 12) | (b105 << 5) | (b41 << 1) | (b11 << 11)) >> 1) as bv12
  }

  function ImmU(i: Word): bv20 { ((i >> 12) & 0xf_ffff) as bv20 }

  /** (imm << 11) >> 12 of the 21 bits of a jump offset, cut to 20 bits by the field. */
  function ImmJ(i: Word): bv20 {
    var b20 := (i >> 31) & 1;
    var b101 := (i >> 21) & 0x3ff;
    var b11 := (i >> 20) & 1;
    var b1912 := (i >> 12) & 0xff;
    var imm := (b20 << 20) | (b101 << 1) | (b11 << 11) | (b1912 << 12);
    (((imm << 11) >> 12) & 0xf_ffff) as bv20
  }

  /** The fields decode fills in whatever the instruction is. */
  function CommonFields(i: Word, regs: seq<Word>, prev: Decoded): Decoded
    requires |regs| == REG_COUNT
  {
    prev.(isJump := false, writeRd := false, writeMem := false, readMem := false,
         opcode := Opcode(i), optype := OpTypeOf(Opcode(i)),
         rs1 := Rs1(i), rs1v := RegRead(regs, Rs1(i)), rs2 := Rs2(i), rs2v := RegRead(regs, Rs2(i)),
         funct3 := Funct3(i), shamt := Rs2(i), rd := Rd(i), funct7 := 0)
  }

  /** decode, except for the trap it causes on an unknown opcode */
  function DecodeWord(i: Word, regs: seq<Word>, prev: Decoded): Decoded
    requires |regs| == REG_COUNT
  {
    var dec := CommonFields(i, regs, prev);
    match dec.optype
    case TypeR => dec.(funct7 := Funct7(i))
    case TypeI => dec.(imm12 := ImmI(i))
    case TypeS => dec.(imm12 := ImmS(i))
    case TypeB => dec.(imm12 := ImmB(i))
    case TypeU => dec.(imm20 := ImmU(i))
    case TypeJ => dec.(imm20 := ImmJ(i))
    case TypeC => dec
    case Unknown => dec
  }

  // ----- execute -----

  const ILLEGAL_INSTRUCTION: Word := 2
  const LOAD_ADDR_MISALIGNED: Word := 4
  const LOAD_ACCESS_FAULT: Word := 5
  const STORE_ADDR_MISALIGNED: Word := 6
  const STORE_ACCESS_FAULT: Word := 7
  const ENV_CALL_UMODE: Word := 8
  const LOAD_PAGE_FAULT: Word := 13
  const STORE_PAGE_FAULT: Word := 15

  datatype Control = Proceed | RaiseTrap(cause: Word) | AssertFails

  datatype Executed = Executed(dec: Decoded, aluOut: Word, effect: Control)

  function Flag(b: bool): Word { if b then 1 else 0 }

  function SignExtend16(v: Word): Word {
    if v & 0x8000 != 0 then (v & 0xffff) | 0xffff_0000 else v & 0xffff
  }

  /** The key that execute switches on: the fields of Op, from a decoded instruction. */
  function LongOp(dec: Decoded): Word {
    (dec.opcode as Word) | ((dec.funct3 as Word) << 7) | (((dec.funct7 >> 5) as Word) << 11)
  }

  /** The same key for the formats without funct7. */
  function ShortOp(dec: Decoded): Word {
    (dec.opcode as Word) | ((dec.funct3 as Word) << 7)
  }

  /** What a register-register operation computes. */
  function RegisterResult(op: Word, a: Word, b: Word): Option<Word> {
    if op == OP_ADD then Some(Plus(a, b))
    else if op == OP_SUB then Some(Minus(a, b))
    else if op == OP_SLL then Some(ShiftLeft(a, Shamt(b)))
    else if op == OP_SLT then Some(Flag(SignedLess(a, b)))
    else if op == OP_SLTU then Some(Flag(Less(a, b)))
    else if op == OP_XOR then Some(Xor(a, b))
    else if op == OP_SRL then Some(ShiftRight(a, Shamt(b)))
    else if op == OP_SRA then Some(ShiftRight(a, Shamt(b)))
    else if op == OP_OR then Some(BitOr(a, b))
    else if op == OP_AND then Some(BitAnd(a, b))
    else None
  }

  function ExecuteR(dec: Decoded, alu: Word): Executed {
    match RegisterResult(LongOp(dec), dec.rs1v, dec.rs2v)
    case Some(v) => Executed(dec.(writeRd := true), v, Proceed)
    case None => Executed(dec.(writeRd := true), alu, RaiseTrap(ILLEGAL_INSTRUCTION))
  }

  /** What an operation on an immediate computes. */
  function ImmediateResult(op: Word, a: Word, imm: Word, shamt: bv5): Option<Word> {
    if op == OP_ADDI then Some(Plus(a, imm))
    else if op == OP_SLTI then Some(Flag(SignedLess(a, imm)))
    else if op == OP_SLTIU then Some(Flag(Less(a, imm)))
    else if op == OP_XORI then Some(Xor(a, imm))
    else if op == OP_ORI then Some(BitOr(a, BitAnd(imm, 0xfff)))
    else if op == OP_ANDI then Some(BitAnd(a, imm))
    else if op == OP_SLLI then Some(ShiftLeft(a, shamt))
    else if op == OP_SRLI then Some(ShiftRight(a, shamt))
    else if op == OP_SRAI then Some(ShiftRightSigned(a, shamt))
    else None
  }

  function ExecuteI(dec: Decoded, pc: Word, alu: Word): Executed {
    var op := LongOp(dec);
    var imm := SignExtend12(dec.imm12);
    var dec := dec.(writeRd := true);
    var a := dec.rs1v;
    if op == OP_JALR then Executed(dec.(isJump := true, jumpTarget := Plus(a, imm)), Plus(pc, 4), Proceed)
    else if op == OP_LB || op == OP_LBU then
      Executed(dec.(memOffset := Plus(a, imm), width := BYTE, readMem := true), BitAnd(dec.rs2v, 0xff), Proceed)
    else if op == OP_LHU then
      Executed(dec.(memOffset := Plus(a, imm), width := HALFWORD, readMem := true), BitAnd(dec.rs2v, 0xffff), Proceed)
    else if op == OP_LH then
      Executed(dec.(memOffset := Plus(a, imm), width := HALFWORD, readMem := true), SignExtend16(dec.rs2v), Proceed)
    else if op == OP_LW then
      Executed(dec.(memOffset := Plus(a, imm), width := WORD, readMem := true), dec.rs2v, Proceed)
    else
      match ImmediateResult(op, a, imm, dec.shamt)
      case Some(v) => Executed(dec, v, Proceed)
      case None => Executed(dec, alu, AssertFails)
  }

  function ExecuteS(dec: Decoded, alu: Word): Executed {
    var op := ShortOp(dec);
    var dec := dec.(writeMem := true, memOffset := Plus(dec.rs1v, SignExtend12(dec.imm12)));
    if op == OP_SB then Executed(dec.(width := BYTE), BitAnd(dec.rs2v, 0xff), Proceed)
    else if op == OP_SH then Executed(dec.(width := HALFWORD), BitAnd(dec.rs2v, 0xffff), Proceed)
    else if op == OP_SW then Executed(dec.(width := WORD), dec.rs2v, Proceed)
    else Executed(dec, alu, AssertFails)
  }

  /** What a branch compares; a branch whose funct3 names no comparison leaves aluOut as
      it was. */
  function BranchResult(op: Word, a: Word, b: Word, alu: Word): Word {
    if op == OP_BEQ then Flag(a == b)
    else if op == OP_BNE then Flag(a != b)
    else if op == OP_BLT then Flag(SignedLess(a, b))
    else if op == OP_BLTU then Flag(Less(a, b))
    else if op == OP_BGE then Flag(!SignedLess(a, b))
    else if op == OP_BGEU then Flag(!Less(a, b))
    else alu
  }

  function ExecuteB(dec: Decoded, pc: Word, alu: Word): Executed {
    var out := BranchResult(ShortOp(dec), dec.rs1v, dec.rs2v, alu);
    Executed(dec.(jumpTarget := Plus(pc, Doubled(SignExtend12(dec.imm12))), isJump := out == 1), out, Proceed)
  }

  function ExecuteU(dec: Decoded, pc: Word, alu: Word): Executed {
    var dec := dec.(writeRd := true);
    if (dec.opcode as Word) == OP_LUI & 0x7f then Executed(dec, UpperField(dec.imm20), Proceed)
    else if (dec.opcode as Word) == OP_AUIPC & 0x7f then
      Executed(dec, Plus(Upper(SignExtend20(dec.imm20)), pc), Proceed)
    else Executed(dec, alu, AssertFails)
  }

  function ExecuteJ(dec: Decoded, pc: Word, alu: Word): Executed {
    var dec := dec.(isJump := true, writeRd := true);
    if (dec.opcode as Word) == OP_JAL & 0x7f then
      Executed(dec.(jumpTarget := Plus(Doubled(SignExtend20(dec.imm20)), pc)), Plus(pc, 4), Proceed)
    else Executed(dec, alu, AssertFails)
  }

  /** Every SYSTEM instruction is taken for ECALL. */
  function ExecuteC(dec: Decoded, alu: Word): Executed {
    if (dec.opcode as Word) == OP_ECALL then Executed(dec, alu, RaiseTrap(ENV_CALL_UMODE))
    else Executed(dec, alu, RaiseTrap(ILLEGAL_INSTRUCTION))
  }

  /** execute */
  function Execute(dec: Decoded, pc: Word, alu: Word): Executed {
    match dec.optype
    case TypeR => ExecuteR(dec, alu)
    case TypeI => ExecuteI(dec, pc, alu)
    case TypeS => ExecuteS(dec, alu)
    case TypeB => ExecuteB(dec, pc, alu)
    case TypeU => ExecuteU(dec, pc, alu)
    case TypeJ => ExecuteJ(dec, pc, alu)
    case TypeC => ExecuteC(dec, alu)
    case Unknown => Executed(dec, alu, RaiseTrap(ILLEGAL_INSTRUCTION))
  }
}
