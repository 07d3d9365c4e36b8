/** Decoding undoes encoding: for every encodable instruction, decode and execute together
    recover its registers and its immediate, and plan the effect the emulator gives it. */
module Encoding {
  import opened Words
  import opened Decoder
  import opened Isa

  // ----- the fields of each format -----

  /** The fields that every format keeps in the same place. */
  predicate HasFields(w: Word, opcode: Word, funct3: Word, rd: bv5, rs1: bv5, rs2: bv5) {
    && w & 0x7f == opcode && (w >> 12) & 7 == funct3
    && ((w >> 7) & 31) as bv5 == rd && ((w >> 15) & 31) as bv5 == rs1 && ((w >> 20) & 31) as bv5 == rs2
  }

  lemma LowFieldsR(f7: Word, rs2: bv5, rs1: bv5, f3: Word, rd: bv5, opcode: Word)
    requires f7 < 0x80 && f3 < 8 && opcode < 0x80
    ensures FormatR(f7, rs2, rs1, f3, rd, opcode) & 0x7f == opcode
    ensures (FormatR(f7, rs2, rs1, f3, rd, opcode) >> 12) & 7 == f3
    ensures ((FormatR(f7, rs2, rs1, f3, rd, opcode) >> 7) & 31) as bv5 == rd
  {
  }

  lemma HighFieldsR(f7: Word, rs2: bv5, rs1: bv5, f3: Word, rd: bv5, opcode: Word)
    requires f7 < 0x80 && f3 < 8 && opcode < 0x80
    ensures ((FormatR(f7, rs2, rs1, f3, rd, opcode) >> 15) & 31) as bv5 == rs1
    ensures ((FormatR(f7, rs2, rs1, f3, rd, opcode) >> 20) & 31) as bv5 == rs2
  {
  }

  lemma FieldsR(f7: bv7, rs2: bv5, rs1: bv5, f3: Word, rd: bv5, opcode: Word)
    requires f3 < 8 && opcode < 0x80
    ensures HasFields(FormatR(f7 as Word, rs2, rs1, f3, rd, opcode), opcode, f3, rd, rs1, rs2)
  {
    LowFieldsR(f7 as Word, rs2, rs1, f3, rd, opcode);
    HighFieldsR(f7 as Word, rs2, rs1, f3, rd, opcode);
  }

  lemma Funct7R(f7: bv7, rs2: bv5, rs1: bv5, f3: Word, rd: bv5, opcode: Word)
    requires f3 < 8 && opcode < 0x80
    ensures Funct7(FormatR(f7 as Word, rs2, rs1, f3, rd, opcode)) == f7
  {
  }

  lemma FieldsI(imm: Word, rs1: bv5, f3: Word, rd: bv5, opcode: Word)
    requires f3 < 8 && opcode < 0x80
    ensures HasFields(FormatI(imm, rs1, f3, rd, opcode), opcode, f3, rd, rs1, (imm & 31) as bv5)
    ensures IsImmI(imm) ==> SignExtend12(ImmI(FormatI(imm, rs1, f3, rd, opcode))) == imm
  {
  }

  lemma FieldsS(imm: Word, rs2: bv5, rs1: bv5, f3: Word, opcode: Word)
    requires f3 < 8 && opcode < 0x80
    ensures HasFields(FormatS(imm, rs2, rs1, f3, opcode), opcode, f3, (imm & 31) as bv5, rs1, rs2)
    ensures IsImmI(imm) ==> SignExtend12(ImmS(FormatS(imm, rs2, rs1, f3, opcode))) == imm
  {
  }

  lemma FieldsB(imm: Word, rs2: bv5, rs1: bv5, f3: Word, opcode: Word)
    requires f3 < 8 && opcode < 0x80
    ensures var w := FormatB(imm, rs2, rs1, f3, opcode);
            HasFields(w, opcode, f3, ((w >> 7) & 31) as bv5, rs1, rs2)
    ensures IsImmB(imm) ==> Doubled(SignExtend12(ImmB(FormatB(imm, rs2, rs1, f3, opcode)))) == imm
  {
  }

  lemma FieldsU(imm: Word, rd: bv5, opcode: Word)
    requires opcode < 0x80
    ensures var w := FormatU(imm, rd, opcode); w & 0x7f == opcode && ((w >> 7) & 31) as bv5 == rd
  {
  }

  lemma ImmediateU(imm: Word, rd: bv5, opcode: Word)
    requires opcode < 0x80 && IsImmU(imm)
    ensures ImmU(FormatU(imm, rd, opcode)) == (imm >> 12) as bv20
  {
  }

  lemma UpperImmediate(imm: Word)
    requires IsImmU(imm)
    ensures UpperField((imm >> 12) as bv20) == imm
  {
  }

  lemma UpperDropsSign(w: Word)
    ensures Upper(w | 0xfff0_0000) == Upper(w)
  {
  }

  lemma UpperOfField(v: bv20)
    ensures UpperField(v) == Upper(v as Word)
  {
  }

  lemma SignBits(v: bv20)
    ensures SignExtend20(v) == v as Word || SignExtend20(v) == (v as Word) | 0xfff0_0000
  {
  }

  /** The sign extension of AUIPC's immediate is shifted out again. */
  lemma UpperSign(v: bv20)
    ensures Upper(SignExtend20(v)) == UpperField(v)
  {
    hide Upper, UpperField, SignExtend20;
    UpperOfField(v);
    SignBits(v);
    UpperDropsSign(v as Word);
  }

  lemma FieldsJ(imm: Word, rd: bv5, opcode: Word)
    requires opcode < 0x80
    ensures var w := FormatJ(imm, rd, opcode); w & 0x7f == opcode && ((w >> 7) & 31) as bv5 == rd
  {
  }

  lemma ImmediateJ(imm: Word, rd: bv5, opcode: Word)
    requires opcode < 0x80
    ensures ImmJ(FormatJ(imm, rd, opcode)) == ((imm >> 1) & 0xf_ffff) as bv20
  {
  }

  lemma JumpForward(imm: Word)
    requires imm & 0xfff0_0001 == 0
    ensures Doubled(SignExtend20(((imm >> 1) & 0xf_ffff) as bv20)) == imm
  {
  }

  lemma JumpBackward(imm: Word)
    requires imm & 0xfff0_0001 == 0xfff0_0000
    ensures Doubled(SignExtend20(((imm >> 1) & 0xf_ffff) as bv20)) == imm
  {
  }

  lemma JumpImmediate(imm: Word)
    requires IsImmJ(imm)
    ensures Doubled(SignExtend20(((imm >> 1) & 0xf_ffff) as bv20)) == imm
  {
    if imm & 0xfff0_0001 == 0 { JumpForward(imm); } else { JumpBackward(imm); }
  }

  // ----- what the emulator does with each instruction -----

  datatype Plan =
    | SetReg(rd: bv5, value: Word)
    | Jump(rd: bv5, link: Word, target: Word)
    | MayJump(taken: bool, target: Word)
    | LoadReg(rd: bv5, addr: Word, width: Width)
    | StoreMem(addr: Word, width: Width, value: Word)
    | DecodeTrap
    | ExecuteTrap(cause: Word)

  /** JALR keeps bit 0 of its target, ORI zero-extends its immediate, the arithmetic right
      shifts are logical, loads are never sign-extended, FENCE has no entry in the decode
      table, and EBREAK is taken for ECALL. */
  function PlanOf(i: Instr, x: seq<Word>, pc: Word): Plan
    requires |x| == 32
  {
    match i
    case Lui(rd, imm) => SetReg(rd, imm)
    case Auipc(rd, imm) => SetReg(rd, Plus(imm, pc))
    case Jal(rd, offset) => Jump(rd, Plus(pc, 4), Plus(offset, pc))
    case Jalr(rd, rs1, offset) => Jump(rd, Plus(pc, 4), Plus(Reg(x, rs1), offset))
    case Branch(cond, rs1, rs2, offset) => MayJump(Holds(cond, Reg(x, rs1), Reg(x, rs2)), Plus(pc, offset))
    case Load(kind, rd, rs1, offset) => LoadReg(rd, Plus(Reg(x, rs1), offset), LoadWidth(kind))
    case Store(width, rs1, rs2, offset) => StoreMem(Plus(Reg(x, rs1), offset), width, Truncate(Reg(x, rs2), width))
    case OpImm(op, rd, rs1, imm) =>
      SetReg(rd, if op.Ori? then BitOr(Reg(x, rs1), BitAnd(imm, 0xfff)) else ImmResult(op, Reg(x, rs1), imm))
    case ShiftImm(op, rd, rs1, shamt) =>
      SetReg(rd, ShiftResult(if op.Srai? then Srli else op, Reg(x, rs1), shamt))
    case OpReg(op, rd, rs1, rs2) =>
      SetReg(rd, RegResult(if op.Sra? then Srl else op, Reg(x, rs1), Reg(x, rs2)))
    case Fence(_, _, _) => DecodeTrap
    case Ecall => ExecuteTrap(ENV_CALL_UMODE)
    case Ebreak => ExecuteTrap(ENV_CALL_UMODE)
  }

  /** The outcome of execute carries out the plan. */
  predicate CarriesOut(e: Executed, p: Plan) {
    match p
    case SetReg(rd, value) =>
      && e.effect.Proceed? && e.dec.writeRd && e.dec.rd == rd && e.aluOut == value
      && !e.dec.isJump && !e.dec.readMem && !e.dec.writeMem
    case Jump(rd, link, target) =>
      && e.effect.Proceed? && e.dec.writeRd && e.dec.rd == rd && e.aluOut == link
      && e.dec.isJump && e.dec.jumpTarget == target && !e.dec.readMem && !e.dec.writeMem
    case MayJump(taken, target) =>
      && e.effect.Proceed? && !e.dec.writeRd && e.dec.isJump == taken && e.dec.jumpTarget == target
      && !e.dec.readMem && !e.dec.writeMem
    case LoadReg(rd, addr, width) =>
      && e.effect.Proceed? && e.dec.writeRd && e.dec.rd == rd && !e.dec.isJump
      && e.dec.readMem && !e.dec.writeMem && e.dec.memOffset == addr && e.dec.width == width
    case StoreMem(addr, width, value) =>
      && e.effect.Proceed? && !e.dec.writeRd && !e.dec.isJump && !e.dec.readMem && e.dec.writeMem
      && e.dec.memOffset == addr && e.dec.width == width && e.aluOut == value
    case DecodeTrap => false
    case ExecuteTrap(cause) => e.effect == RaiseTrap(cause)
  }

  /** What execute makes of a word. */
  function Run(w: Word, x: seq<Word>, prev: Decoded, pc: Word, alu: Word): Executed
    requires |x| == 32
  {
    Decoder.Execute(DecodeWord(w, x, prev), pc, alu)
  }

  // ----- decode, format by format -----

  /** What decode knows of an instruction before looking at its immediate. */
  predicate Reads(d: Decoded, optype: OpType, opcode: bv7, f3: Word, x: seq<Word>, rs1: bv5, rs2: bv5)
    requires |x| == 32
  {
    && d.optype == optype && d.opcode == opcode && (d.funct3 as Word) == f3
    && d.rs1v == Reg(x, rs1) && d.rs2v == Reg(x, rs2)
    && !d.isJump && !d.writeRd && !d.readMem && !d.writeMem
  }

  lemma CommonDecode(w: Word, x: seq<Word>, prev: Decoded, opcode: Word, f3: Word, rd: bv5, rs1: bv5, rs2: bv5)
    requires |x| == 32 && HasFields(w, opcode, f3, rd, rs1, rs2) && opcode < 0x80 && f3 < 8
    ensures var d := CommonFields(w, x, prev);
            && Reads(d, OpTypeOf(opcode as bv7), opcode as bv7, f3, x, rs1, rs2)
            && d.rd == rd && d.shamt == rs2 && d.funct7 == 0
  {
    hide Index;
  }

  lemma OpcodeDecides(w: Word, opcode: Word, x: seq<Word>, prev: Decoded)
    requires |x| == 32 && w & 0x7f == opcode && opcode < 0x80
    ensures CommonFields(w, x, prev).opcode == opcode as bv7
    ensures CommonFields(w, x, prev).optype == OpTypeOf(opcode as bv7)
  {
  }

  lemma DecodeTypeR(w: Word, f3: Word, rd: bv5, rs1: bv5, rs2: bv5, x: seq<Word>, prev: Decoded)
    requires |x| == 32 && f3 < 8 && HasFields(w, 0x33, f3, rd, rs1, rs2)
    ensures var d := DecodeWord(w, x, prev);
            Reads(d, TypeR, 0x33, f3, x, rs1, rs2) && d.rd == rd && d.funct7 == Funct7(w)
  {
    CommonDecode(w, x, prev, 0x33, f3, rd, rs1, rs2);
  }

  lemma DecodeTypeI(w: Word, opcode: Word, f3: Word, rd: bv5, rs1: bv5, rs2: bv5, x: seq<Word>, prev: Decoded)
    requires |x| == 32 && f3 < 8 && HasFields(w, opcode, f3, rd, rs1, rs2)
    requires opcode == 0x03 || opcode == 0x13 || opcode == 0x67
    ensures var d := DecodeWord(w, x, prev);
            && Reads(d, TypeI, opcode as bv7, f3, x, rs1, rs2)
            && d.rd == rd && d.funct7 == 0 && d.shamt == rs2 && d.imm12 == ImmI(w)
  {
    CommonDecode(w, x, prev, opcode, f3, rd, rs1, rs2);
  }

  lemma DecodeTypeS(w: Word, f3: Word, rd: bv5, rs1: bv5, rs2: bv5, x: seq<Word>, prev: Decoded)
    requires |x| == 32 && f3 < 8 && HasFields(w, 0x23, f3, rd, rs1, rs2)
    ensures var d := DecodeWord(w, x, prev);
            Reads(d, TypeS, 0x23, f3, x, rs1, rs2) && d.imm12 == ImmS(w)
  {
    CommonDecode(w, x, prev, 0x23, f3, rd, rs1, rs2);
  }

  lemma DecodeTypeB(w: Word, f3: Word, rd: bv5, rs1: bv5, rs2: bv5, x: seq<Word>, prev: Decoded)
    requires |x| == 32 && f3 < 8 && HasFields(w, 0x63, f3, rd, rs1, rs2)
    ensures var d := DecodeWord(w, x, prev);
            Reads(d, TypeB, 0x63, f3, x, rs1, rs2) && d.imm12 == ImmB(w)
  {
    CommonDecode(w, x, prev, 0x63, f3, rd, rs1, rs2);
  }

  lemma WideOpcode(w: Word, x: seq<Word>, prev: Decoded)
    requires |x| == 32
    ensures var d := CommonFields(w, x, prev);
            && (w & 0x7f == 0x17 ==> d.opcode == 0x17 && d.optype.TypeU?)
            && (w & 0x7f == 0x37 ==> d.opcode == 0x37 && d.optype.TypeU?)
            && (w & 0x7f == 0x6f ==> d.opcode == 0x6f && d.optype.TypeJ?)
  {
    hide Rd, Funct3, Rs1, Rs2, RegRead;
  }

  lemma RdAndFlags(w: Word, rd: bv5, x: seq<Word>, prev: Decoded)
    requires |x| == 32 && ((w >> 7) & 31) as bv5 == rd
    ensures var d := CommonFields(w, x, prev); d.rd == rd && !d.isJump && !d.writeRd && !d.readMem && !d.writeMem
  {
    hide Opcode, OpTypeOf, Funct3, Rs1, Rs2, RegRead;
  }

  lemma DecodeTypeU(w: Word, opcode: Word, rd: bv5, x: seq<Word>, prev: Decoded)
    requires |x| == 32 && w & 0x7f == opcode && ((w >> 7) & 31) as bv5 == rd && (opcode == 0x17 || opcode == 0x37)
    ensures var d := DecodeWord(w, x, prev);
            && d.optype.TypeU? && d.opcode == opcode as bv7 && d.rd == rd
            && !d.isJump && !d.readMem && !d.writeMem && d.imm20 == ImmU(w)
  {
    hide ImmI, ImmS, ImmB, ImmU, ImmJ, Funct7, CommonFields, OpTypeOf;
    WideOpcode(w, x, prev);
    RdAndFlags(w, rd, x, prev);
  }

  lemma DecodeTypeJ(w: Word, rd: bv5, x: seq<Word>, prev: Decoded)
    requires |x| == 32 && w & 0x7f == 0x6f && ((w >> 7) & 31) as bv5 == rd
    ensures var d := DecodeWord(w, x, prev);
            && d.optype.TypeJ? && d.opcode == 0x6f && d.rd == rd
            && !d.readMem && !d.writeMem && d.imm20 == ImmJ(w)
  {
    hide ImmI, ImmS, ImmB, ImmU, ImmJ, Funct7, CommonFields, OpTypeOf;
    WideOpcode(w, x, prev);
    RdAndFlags(w, rd, x, prev);
  }

  // ----- execute, class by class -----

  lemma ExecuteLui(d: Decoded, pc: Word, alu: Word)
    requires d.optype.TypeU? && d.opcode == 0x37 && !d.isJump && !d.readMem && !d.writeMem
    ensures CarriesOut(ExecuteU(d, pc, alu), SetReg(d.rd, UpperField(d.imm20)))
  {
  }

  lemma ExecuteAuipc(d: Decoded, pc: Word, alu: Word)
    requires d.optype.TypeU? && d.opcode == 0x17 && !d.isJump && !d.readMem && !d.writeMem
    ensures CarriesOut(ExecuteU(d, pc, alu), SetReg(d.rd, Plus(Upper(SignExtend20(d.imm20)), pc)))
  {
  }

  lemma ExecuteJal(d: Decoded, pc: Word, alu: Word)
    requires d.optype.TypeJ? && d.opcode == 0x6f && !d.readMem && !d.writeMem
    ensures CarriesOut(ExecuteJ(d, pc, alu),
                       Jump(d.rd, Plus(pc, 4), Plus(Doubled(SignExtend20(d.imm20)), pc)))
  {
  }

  lemma ExecuteJalr(d: Decoded, x: seq<Word>, rs1: bv5, rs2: bv5, imm: Word, pc: Word, alu: Word)
    requires |x| == 32 && Reads(d, TypeI, 0x67, 0, x, rs1, rs2) && d.funct7 == 0 && SignExtend12(d.imm12) == imm
    ensures CarriesOut(ExecuteI(d, pc, alu), Jump(d.rd, Plus(pc, 4), Plus(Reg(x, rs1), imm)))
  {
  }

  lemma ExecuteBranch(d: Decoded, c: Condition, x: seq<Word>, rs1: bv5, rs2: bv5, imm: Word, pc: Word, alu: Word)
    requires |x| == 32 && Reads(d, TypeB, 0x63, ConditionCode(c), x, rs1, rs2) && Doubled(SignExtend12(d.imm12)) == imm
    ensures CarriesOut(ExecuteB(d, pc, alu), MayJump(Holds(c, Reg(x, rs1), Reg(x, rs2)), Plus(pc, imm)))
  {
  }

  lemma ExecuteLoad(d: Decoded, k: LoadKind, x: seq<Word>, rs1: bv5, rs2: bv5, imm: Word, pc: Word, alu: Word)
    requires |x| == 32 && Reads(d, TypeI, 0x03, LoadCode(k), x, rs1, rs2) && d.funct7 == 0
    requires SignExtend12(d.imm12) == imm
    ensures CarriesOut(ExecuteI(d, pc, alu), LoadReg(d.rd, Plus(Reg(x, rs1), imm), LoadWidth(k)))
  {
  }

  lemma ExecuteStore(d: Decoded, width: Width, x: seq<Word>, rs1: bv5, rs2: bv5, imm: Word, pc: Word, alu: Word)
    requires |x| == 32 && Reads(d, TypeS, 0x23, StoreCode(width), x, rs1, rs2) && SignExtend12(d.imm12) == imm
    ensures CarriesOut(ExecuteS(d, alu), StoreMem(Plus(Reg(x, rs1), imm), width, Truncate(Reg(x, rs2), width)))
  {
  }

  lemma ExecuteOpImm(d: Decoded, op: ImmOp, x: seq<Word>, rs1: bv5, rs2: bv5, imm: Word, pc: Word, alu: Word)
    requires |x| == 32 && Reads(d, TypeI, 0x13, ImmOpCode(op), x, rs1, rs2) && d.funct7 == 0
    requires SignExtend12(d.imm12) == imm
    ensures CarriesOut(ExecuteI(d, pc, alu),
                       SetReg(d.rd, if op.Ori? then BitOr(Reg(x, rs1), BitAnd(imm, 0xfff))
                                    else ImmResult(op, Reg(x, rs1), imm)))
  {
    hide SignExtend12, SignExtend16, Reg, Plus, Words.Xor, BitOr, BitAnd, ShiftLeft, ShiftRight, ShiftRightSigned;
    hide Less, SignedLess;
  }

  lemma ExecuteShiftLeft(d: Decoded, x: seq<Word>, rs1: bv5, shamt: bv5, pc: Word, alu: Word)
    requires |x| == 32 && d.funct7 == 0 && d.shamt == shamt && Reads(d, TypeI, 0x13, 1, x, rs1, shamt)
    ensures CarriesOut(ExecuteI(d, pc, alu), SetReg(d.rd, ShiftLeft(Reg(x, rs1), shamt)))
  {
  }

  lemma ExecuteShiftRight(d: Decoded, x: seq<Word>, rs1: bv5, shamt: bv5, pc: Word, alu: Word)
    requires |x| == 32 && d.funct7 == 0 && d.shamt == shamt && Reads(d, TypeI, 0x13, 5, x, rs1, shamt)
    ensures CarriesOut(ExecuteI(d, pc, alu), SetReg(d.rd, ShiftRight(Reg(x, rs1), shamt)))
  {
  }

  lemma ExecuteOpReg(d: Decoded, op: RegOp, x: seq<Word>, rs1: bv5, rs2: bv5, pc: Word, alu: Word)
    requires |x| == 32 && Reads(d, TypeR, 0x33, RegOpCode(op), x, rs1, rs2)
    requires d.funct7 >> 5 == if op.Sub? || op.Sra? then 1 else 0
    ensures CarriesOut(ExecuteR(d, alu),
                       SetReg(d.rd, RegResult(if op.Sra? then Srl else op, Reg(x, rs1), Reg(x, rs2))))
  {
    hide Reg, Plus, Minus, Words.Xor, BitOr, BitAnd, ShiftLeft, ShiftRight, ShiftRightSigned, Less, SignedLess, Shamt;
  }

  /** Execute is the case of its operation type. */
  lemma ExecuteByType(d: Decoded, pc: Word, alu: Word)
    ensures Decoder.Execute(d, pc, alu) ==
            match d.optype
            case TypeR => ExecuteR(d, alu)
            case TypeI => ExecuteI(d, pc, alu)
            case TypeS => ExecuteS(d, alu)
            case TypeB => ExecuteB(d, pc, alu)
            case TypeU => ExecuteU(d, pc, alu)
            case TypeJ => ExecuteJ(d, pc, alu)
            case TypeC => ExecuteC(d, alu)
            case Unknown => Executed(d, alu, RaiseTrap(ILLEGAL_INSTRUCTION))
  {
  }

  // ----- decode and execute together -----

  lemma ReadsType(d: Decoded, optype: OpType, opcode: bv7, f3: Word, x: seq<Word>, rs1: bv5, rs2: bv5)
    requires |x| == 32 && Reads(d, optype, opcode, f3, x, rs1, rs2)
    ensures d.optype == optype
  {
  }

  lemma RegOpCodeSmall(op: RegOp)
    ensures RegOpCode(op) < 8
  {
  }

  lemma RunOpReg(w: Word, op: RegOp, rd: bv5, rs1: bv5, rs2: bv5, x: seq<Word>, prev: Decoded, pc: Word, alu: Word)
    requires |x| == 32 && HasFields(w, 0x33, RegOpCode(op), rd, rs1, rs2)
    requires Funct7(w) >> 5 == if op.Sub? || op.Sra? then 1 else 0
    ensures CarriesOut(Run(w, x, prev, pc, alu), PlanOf(OpReg(op, rd, rs1, rs2), x, pc))
  {
    hide DecodeWord, Decoder.Execute, ExecuteR, ExecuteI, ExecuteS, ExecuteB, ExecuteU, ExecuteJ, ExecuteC;
    hide CarriesOut, HasFields, Reads, ImmI, ImmS, ImmB, ImmU, ImmJ, Funct7, RegResult, RegOpCode, Reg;
    RegOpCodeSmall(op);
    var d := DecodeWord(w, x, prev);
    DecodeTypeR(w, RegOpCode(op), rd, rs1, rs2, x, prev);
    ExecuteByType(d, pc, alu);
    ReadsType(d, TypeR, 0x33, RegOpCode(op), x, rs1, rs2);
    ExecuteOpReg(d, op, x, rs1, rs2, pc, alu);
  }

  lemma RunShiftLeft(w: Word, rd: bv5, rs1: bv5, shamt: bv5, x: seq<Word>, prev: Decoded, pc: Word, alu: Word)
    requires |x| == 32 && HasFields(w, 0x13, 1, rd, rs1, shamt)
    ensures CarriesOut(Run(w, x, prev, pc, alu), SetReg(rd, ShiftLeft(Reg(x, rs1), shamt)))
  {
    hide DecodeWord, Decoder.Execute, ExecuteR, ExecuteI, ExecuteS, ExecuteB, ExecuteU, ExecuteJ, ExecuteC;
    hide CarriesOut, HasFields, Reads, ImmI, ImmS, ImmB, ImmU, ImmJ, Funct7;
    var d := DecodeWord(w, x, prev);
    DecodeTypeI(w, 0x13, 1, rd, rs1, shamt, x, prev);
    ExecuteByType(d, pc, alu);
    ExecuteShiftLeft(d, x, rs1, shamt, pc, alu);
  }

  lemma RunShiftRight(w: Word, rd: bv5, rs1: bv5, shamt: bv5, x: seq<Word>, prev: Decoded, pc: Word, alu: Word)
    requires |x| == 32 && HasFields(w, 0x13, 5, rd, rs1, shamt)
    ensures CarriesOut(Run(w, x, prev, pc, alu), SetReg(rd, ShiftRight(Reg(x, rs1), shamt)))
  {
    hide DecodeWord, Decoder.Execute, ExecuteR, ExecuteI, ExecuteS, ExecuteB, ExecuteU, ExecuteJ, ExecuteC;
    hide CarriesOut, HasFields, Reads, ImmI, ImmS, ImmB, ImmU, ImmJ, Funct7;
    var d := DecodeWord(w, x, prev);
    DecodeTypeI(w, 0x13, 5, rd, rs1, shamt, x, prev);
    ExecuteByType(d, pc, alu);
    ExecuteShiftRight(d, x, rs1, shamt, pc, alu);
  }

  lemma RunOpImm(w: Word, op: ImmOp, rd: bv5, rs1: bv5, rs2: bv5, imm: Word,
      x: seq<Word>, prev: Decoded, pc: Word, alu: Word)
    requires |x| == 32 && HasFields(w, 0x13, ImmOpCode(op), rd, rs1, rs2) && SignExtend12(ImmI(w)) == imm
    ensures CarriesOut(Run(w, x, prev, pc, alu), PlanOf(OpImm(op, rd, rs1, imm), x, pc))
  {
    hide DecodeWord, Decoder.Execute, ExecuteR, ExecuteI, ExecuteS, ExecuteB, ExecuteU, ExecuteJ, ExecuteC;
    hide CarriesOut, HasFields, Reads, ImmI, ImmS, ImmB, ImmU, ImmJ, Funct7;
    var d := DecodeWord(w, x, prev);
    DecodeTypeI(w, 0x13, ImmOpCode(op), rd, rs1, rs2, x, prev);
    ExecuteByType(d, pc, alu);
    ExecuteOpImm(d, op, x, rs1, rs2, imm, pc, alu);
  }

  lemma RunLoad(w: Word, k: LoadKind, rd: bv5, rs1: bv5, rs2: bv5, imm: Word,
      x: seq<Word>, prev: Decoded, pc: Word, alu: Word)
    requires |x| == 32 && HasFields(w, 0x03, LoadCode(k), rd, rs1, rs2) && SignExtend12(ImmI(w)) == imm
    ensures CarriesOut(Run(w, x, prev, pc, alu), PlanOf(Load(k, rd, rs1, imm), x, pc))
  {
    hide DecodeWord, Decoder.Execute, ExecuteR, ExecuteI, ExecuteS, ExecuteB, ExecuteU, ExecuteJ, ExecuteC;
    hide CarriesOut, HasFields, Reads, ImmI, ImmS, ImmB, ImmU, ImmJ, Funct7;
    var d := DecodeWord(w, x, prev);
    DecodeTypeI(w, 0x03, LoadCode(k), rd, rs1, rs2, x, prev);
    ExecuteByType(d, pc, alu);
    ExecuteLoad(d, k, x, rs1, rs2, imm, pc, alu);
  }

  lemma RunJalr(w: Word, rd: bv5, rs1: bv5, rs2: bv5, imm: Word, x: seq<Word>, prev: Decoded, pc: Word, alu: Word)
    requires |x| == 32 && HasFields(w, 0x67, 0, rd, rs1, rs2) && SignExtend12(ImmI(w)) == imm
    ensures CarriesOut(Run(w, x, prev, pc, alu), PlanOf(Jalr(rd, rs1, imm), x, pc))
  {
    hide DecodeWord, Decoder.Execute, ExecuteR, ExecuteI, ExecuteS, ExecuteB, ExecuteU, ExecuteJ, ExecuteC;
    hide CarriesOut, HasFields, Reads, ImmI, ImmS, ImmB, ImmU, ImmJ, Funct7;
    var d := DecodeWord(w, x, prev);
    DecodeTypeI(w, 0x67, 0, rd, rs1, rs2, x, prev);
    ExecuteByType(d, pc, alu);
    ExecuteJalr(d, x, rs1, rs2, imm, pc, alu);
  }

  lemma RunStore(w: Word, width: Width, rd: bv5, rs1: bv5, rs2: bv5, imm: Word,
      x: seq<Word>, prev: Decoded, pc: Word, alu: Word)
    requires |x| == 32 && HasFields(w, 0x23, StoreCode(width), rd, rs1, rs2) && SignExtend12(ImmS(w)) == imm
    ensures CarriesOut(Run(w, x, prev, pc, alu), PlanOf(Store(width, rs1, rs2, imm), x, pc))
  {
    hide DecodeWord, Decoder.Execute, ExecuteR, ExecuteI, ExecuteS, ExecuteB, ExecuteU, ExecuteJ, ExecuteC;
    hide CarriesOut, HasFields, Reads, ImmI, ImmS, ImmB, ImmU, ImmJ, Funct7;
    var d := DecodeWord(w, x, prev);
    DecodeTypeS(w, StoreCode(width), rd, rs1, rs2, x, prev);
    ExecuteByType(d, pc, alu);
    ExecuteStore(d, width, x, rs1, rs2, imm, pc, alu);
  }

  lemma RunBranch(w: Word, c: Condition, rd: bv5, rs1: bv5, rs2: bv5, imm: Word,
      x: seq<Word>, prev: Decoded, pc: Word, alu: Word)
    requires |x| == 32 && HasFields(w, 0x63, ConditionCode(c), rd, rs1, rs2)
    requires Doubled(SignExtend12(ImmB(w))) == imm
    ensures CarriesOut(Run(w, x, prev, pc, alu), PlanOf(Branch(c, rs1, rs2, imm), x, pc))
  {
    hide DecodeWord, Decoder.Execute, ExecuteR, ExecuteI, ExecuteS, ExecuteB, ExecuteU, ExecuteJ, ExecuteC;
    hide CarriesOut, HasFields, Reads, ImmI, ImmS, ImmB, ImmU, ImmJ, Funct7;
    var d := DecodeWord(w, x, prev);
    DecodeTypeB(w, ConditionCode(c), rd, rs1, rs2, x, prev);
    ExecuteByType(d, pc, alu);
    ExecuteBranch(d, c, x, rs1, rs2, imm, pc, alu);
  }

  lemma RunLui(w: Word, rd: bv5, imm: Word, x: seq<Word>, prev: Decoded, pc: Word, alu: Word)
    requires |x| == 32 && w & 0x7f == 0x37 && ((w >> 7) & 31) as bv5 == rd && UpperField(ImmU(w)) == imm
    ensures CarriesOut(Run(w, x, prev, pc, alu), PlanOf(Lui(rd, imm), x, pc))
  {
    hide DecodeWord, Decoder.Execute, ExecuteR, ExecuteI, ExecuteS, ExecuteB, ExecuteU, ExecuteJ, ExecuteC;
    hide CarriesOut, HasFields, Reads, ImmI, ImmS, ImmB, ImmU, ImmJ, Funct7;
    var d := DecodeWord(w, x, prev);
    DecodeTypeU(w, 0x37, rd, x, prev);
    ExecuteByType(d, pc, alu);
    ExecuteLui(d, pc, alu);
  }

  lemma RunAuipc(w: Word, rd: bv5, imm: Word, x: seq<Word>, prev: Decoded, pc: Word, alu: Word)
    requires |x| == 32 && w & 0x7f == 0x17 && ((w >> 7) & 31) as bv5 == rd && Upper(SignExtend20(ImmU(w))) == imm
    ensures CarriesOut(Run(w, x, prev, pc, alu), PlanOf(Auipc(rd, imm), x, pc))
  {
    hide DecodeWord, Decoder.Execute, ExecuteR, ExecuteI, ExecuteS, ExecuteB, ExecuteU, ExecuteJ, ExecuteC;
    hide CarriesOut, HasFields, Reads, ImmI, ImmS, ImmB, ImmU, ImmJ, Funct7;
    var d := DecodeWord(w, x, prev);
    DecodeTypeU(w, 0x17, rd, x, prev);
    ExecuteByType(d, pc, alu);
    ExecuteAuipc(d, pc, alu);
  }

  lemma RunJal(w: Word, rd: bv5, imm: Word, x: seq<Word>, prev: Decoded, pc: Word, alu: Word)
    requires |x| == 32 && w & 0x7f == 0x6f && ((w >> 7) & 31) as bv5 == rd
    requires Doubled(SignExtend20(ImmJ(w))) == imm
    ensures CarriesOut(Run(w, x, prev, pc, alu), PlanOf(Jal(rd, imm), x, pc))
  {
    hide DecodeWord, Decoder.Execute, ExecuteR, ExecuteI, ExecuteS, ExecuteB, ExecuteU, ExecuteJ, ExecuteC;
    hide CarriesOut, HasFields, Reads, ImmI, ImmS, ImmB, ImmU, ImmJ, Funct7;
    var d := DecodeWord(w, x, prev);
    DecodeTypeJ(w, rd, x, prev);
    ExecuteByType(d, pc, alu);
    ExecuteJal(d, pc, alu);
  }

  lemma DecodeTypeSystem(w: Word, x: seq<Word>, prev: Decoded)
    requires |x| == 32 && w & 0x7f == 0x73
    ensures DecodeWord(w, x, prev).optype.TypeC? && DecodeWord(w, x, prev).opcode == 0x73
  {
    OpcodeDecides(w, 0x73, x, prev);
  }

  lemma ExecuteSystem(d: Decoded, alu: Word)
    requires d.opcode == 0x73
    ensures ExecuteC(d, alu).effect == RaiseTrap(ENV_CALL_UMODE)
  {
  }

  lemma RunSystem(w: Word, x: seq<Word>, prev: Decoded, pc: Word, alu: Word)
    requires |x| == 32 && w & 0x7f == 0x73
    ensures CarriesOut(Run(w, x, prev, pc, alu), ExecuteTrap(ENV_CALL_UMODE))
  {
    hide DecodeWord, Decoder.Execute, ExecuteR, ExecuteI, ExecuteS, ExecuteB, ExecuteU, ExecuteJ, ExecuteC;
    hide HasFields, Reads, ImmI, ImmS, ImmB, ImmU, ImmJ, Funct7;
    DecodeTypeSystem(w, x, prev);
    ExecuteByType(DecodeWord(w, x, prev), pc, alu);
    ExecuteSystem(DecodeWord(w, x, prev), alu);
  }

  lemma DecodeTypeFence(w: Word, x: seq<Word>, prev: Decoded)
    requires |x| == 32 && w & 0x7f == 0x0f
    ensures DecodeWord(w, x, prev).optype.Unknown?
  {
    OpcodeDecides(w, 0x0f, x, prev);
  }

  lemma EncodedLui(i: Instr, x: seq<Word>, prev: Decoded, pc: Word, alu: Word)
    requires |x| == 32 && i.Lui? && Encodable(i)
    ensures CarriesOut(Run(Encode(i), x, prev, pc, alu), PlanOf(i, x, pc))
  {
    hide Run, CarriesOut, PlanOf, HasFields, FormatR, FormatI, FormatS, FormatB, FormatU, FormatJ;
    hide ImmI, ImmS, ImmB, ImmU, ImmJ, Funct7, UpperField, Upper, Doubled, SignExtend12, SignExtend20;
    var Lui(rd, imm) := i;
    var w := Encode(i);
    FieldsU(imm, rd, 0x37);
    ImmediateU(imm, rd, 0x37);
    UpperImmediate(imm);
    RunLui(w, rd, imm, x, prev, pc, alu);
  }

  lemma EncodedAuipc(i: Instr, x: seq<Word>, prev: Decoded, pc: Word, alu: Word)
    requires |x| == 32 && i.Auipc? && Encodable(i)
    ensures CarriesOut(Run(Encode(i), x, prev, pc, alu), PlanOf(i, x, pc))
  {
    hide Run, CarriesOut, PlanOf, HasFields, FormatR, FormatI, FormatS, FormatB, FormatU, FormatJ;
    hide ImmI, ImmS, ImmB, ImmU, ImmJ, Funct7, UpperField, Upper, Doubled, SignExtend12, SignExtend20;
    var Auipc(rd, imm) := i;
    var w := Encode(i);
    FieldsU(imm, rd, 0x17);
    ImmediateU(imm, rd, 0x17);
    UpperImmediate(imm);
    UpperSign(ImmU(w));
    RunAuipc(w, rd, imm, x, prev, pc, alu);
  }

  lemma EncodedJal(i: Instr, x: seq<Word>, prev: Decoded, pc: Word, alu: Word)
    requires |x| == 32 && i.Jal? && Encodable(i)
    ensures CarriesOut(Run(Encode(i), x, prev, pc, alu), PlanOf(i, x, pc))
  {
    hide Run, CarriesOut, PlanOf, HasFields, FormatR, FormatI, FormatS, FormatB, FormatU, FormatJ;
    hide ImmI, ImmS, ImmB, ImmU, ImmJ, Funct7, UpperField, Upper, Doubled, SignExtend12, SignExtend20;
    var Jal(rd, imm) := i;
    var w := Encode(i);
    FieldsJ(imm, rd, 0x6f);
    ImmediateJ(imm, rd, 0x6f);
    JumpImmediate(imm);
    RunJal(w, rd, imm, x, prev, pc, alu);
  }

  lemma EncodedJalr(i: Instr, x: seq<Word>, prev: Decoded, pc: Word, alu: Word)
    requires |x| == 32 && i.Jalr? && Encodable(i)
    ensures CarriesOut(Run(Encode(i), x, prev, pc, alu), PlanOf(i, x, pc))
  {
    hide Run, CarriesOut, PlanOf, HasFields, FormatR, FormatI, FormatS, FormatB, FormatU, FormatJ;
    hide ImmI, ImmS, ImmB, ImmU, ImmJ, Funct7, UpperField, Upper, Doubled, SignExtend12, SignExtend20;
    var Jalr(rd, rs1, imm) := i;
    var w := Encode(i);
    FieldsI(imm, rs1, 0, rd, 0x67);
    RunJalr(w, rd, rs1, (imm & 31) as bv5, imm, x, prev, pc, alu);
  }

  lemma EncodedBranch(i: Instr, x: seq<Word>, prev: Decoded, pc: Word, alu: Word)
    requires |x| == 32 && i.Branch? && Encodable(i)
    ensures CarriesOut(Run(Encode(i), x, prev, pc, alu), PlanOf(i, x, pc))
  {
    hide Run, CarriesOut, PlanOf, HasFields, FormatR, FormatI, FormatS, FormatB, FormatU, FormatJ;
    hide ImmI, ImmS, ImmB, ImmU, ImmJ, Funct7, UpperField, Upper, Doubled, SignExtend12, SignExtend20;
    var Branch(c, rs1, rs2, imm) := i;
    var w := Encode(i);
    FieldsB(imm, rs2, rs1, ConditionCode(c), 0x63);
    RunBranch(w, c, ((w >> 7) & 31) as bv5, rs1, rs2, imm, x, prev, pc, alu);
  }

  lemma EncodedLoad(i: Instr, x: seq<Word>, prev: Decoded, pc: Word, alu: Word)
    requires |x| == 32 && i.Load? && Encodable(i)
    ensures CarriesOut(Run(Encode(i), x, prev, pc, alu), PlanOf(i, x, pc))
  {
    hide Run, CarriesOut, PlanOf, HasFields, FormatR, FormatI, FormatS, FormatB, FormatU, FormatJ;
    hide ImmI, ImmS, ImmB, ImmU, ImmJ, Funct7, UpperField, Upper, Doubled, SignExtend12, SignExtend20;
    var Load(k, rd, rs1, imm) := i;
    var w := Encode(i);
    FieldsI(imm, rs1, LoadCode(k), rd, 0x03);
    RunLoad(w, k, rd, rs1, (imm & 31) as bv5, imm, x, prev, pc, alu);
  }

  lemma EncodedStore(i: Instr, x: seq<Word>, prev: Decoded, pc: Word, alu: Word)
    requires |x| == 32 && i.Store? && Encodable(i)
    ensures CarriesOut(Run(Encode(i), x, prev, pc, alu), PlanOf(i, x, pc))
  {
    hide Run, CarriesOut, PlanOf, HasFields, FormatR, FormatI, FormatS, FormatB, FormatU, FormatJ;
    hide ImmI, ImmS, ImmB, ImmU, ImmJ, Funct7, UpperField, Upper, Doubled, SignExtend12, SignExtend20;
    var Store(width, rs1, rs2, imm) := i;
    var w := Encode(i);
    FieldsS(imm, rs2, rs1, StoreCode(width), 0x23);
    RunStore(w, width, (imm & 31) as bv5, rs1, rs2, imm, x, prev, pc, alu);
  }

  lemma EncodedOpImm(i: Instr, x: seq<Word>, prev: Decoded, pc: Word, alu: Word)
    requires |x| == 32 && i.OpImm? && Encodable(i)
    ensures CarriesOut(Run(Encode(i), x, prev, pc, alu), PlanOf(i, x, pc))
  {
    hide Run, CarriesOut, PlanOf, HasFields, FormatR, FormatI, FormatS, FormatB, FormatU, FormatJ;
    hide ImmI, ImmS, ImmB, ImmU, ImmJ, Funct7, UpperField, Upper, Doubled, SignExtend12, SignExtend20;
    var OpImm(op, rd, rs1, imm) := i;
    var w := Encode(i);
    FieldsI(imm, rs1, ImmOpCode(op), rd, 0x13);
    RunOpImm(w, op, rd, rs1, (imm & 31) as bv5, imm, x, prev, pc, alu);
  }

  lemma EncodedShiftImm(i: Instr, x: seq<Word>, prev: Decoded, pc: Word, alu: Word)
    requires |x| == 32 && i.ShiftImm? && Encodable(i)
    ensures CarriesOut(Run(Encode(i), x, prev, pc, alu), PlanOf(i, x, pc))
  {
    hide Run, CarriesOut, HasFields, FormatR, FormatI, FormatS, FormatB, FormatU, FormatJ;
    hide ImmI, ImmS, ImmB, ImmU, ImmJ, Funct7, UpperField, Upper, Doubled, SignExtend12, SignExtend20;
    var ShiftImm(op, rd, rs1, shamt) := i;
    var w := Encode(i);
    if op.Slli? {
      FieldsR(0, shamt, rs1, 1, rd, 0x13);
      RunShiftLeft(w, rd, rs1, shamt, x, prev, pc, alu);
    } else {
      FieldsR(if op.Srai? then 0x20 else 0, shamt, rs1, 5, rd, 0x13);
      RunShiftRight(w, rd, rs1, shamt, x, prev, pc, alu);
    }
  }

  lemma EncodedOpReg(i: Instr, x: seq<Word>, prev: Decoded, pc: Word, alu: Word)
    requires |x| == 32 && i.OpReg? && Encodable(i)
    ensures CarriesOut(Run(Encode(i), x, prev, pc, alu), PlanOf(i, x, pc))
  {
    hide Run, CarriesOut, PlanOf, HasFields, FormatR, FormatI, FormatS, FormatB, FormatU, FormatJ;
    hide ImmI, ImmS, ImmB, ImmU, ImmJ, Funct7, UpperField, Upper, Doubled, SignExtend12, SignExtend20;
    var OpReg(op, rd, rs1, rs2) := i;
    var w := Encode(i);
    var f7: bv7 := if op.Sub? || op.Sra? then 0x20 else 0;
    FieldsR(f7, rs2, rs1, RegOpCode(op), rd, 0x33);
    Funct7R(f7, rs2, rs1, RegOpCode(op), rd, 0x33);
    RunOpReg(w, op, rd, rs1, rs2, x, prev, pc, alu);
  }

  lemma EncodedSystem(i: Instr, x: seq<Word>, prev: Decoded, pc: Word, alu: Word)
    requires |x| == 32 && (i.Ecall? || i.Ebreak?)
    ensures CarriesOut(Run(Encode(i), x, prev, pc, alu), PlanOf(i, x, pc))
  {
    hide Run, CarriesOut, HasFields, FormatR, FormatI, FormatS, FormatB, FormatU, FormatJ;
    hide ImmI, ImmS, ImmB, ImmU, ImmJ, Funct7, UpperField, Upper, Doubled, SignExtend12, SignExtend20;
    RunSystem(Encode(i), x, prev, pc, alu);
  }

  lemma EncodedFence(i: Instr, x: seq<Word>, prev: Decoded)
    requires |x| == 32 && i.Fence?
    ensures DecodeWord(Encode(i), x, prev).optype.Unknown?
  {
    hide Run, CarriesOut, PlanOf, HasFields, FormatR, FormatI, FormatS, FormatB, FormatU, FormatJ;
    hide ImmI, ImmS, ImmB, ImmU, ImmJ, Funct7, UpperField, Upper, Doubled, SignExtend12, SignExtend20;
    FieldsI(i.sets as Word, i.rs1, 0, i.rd, 0x0f);
    DecodeTypeFence(Encode(i), x, prev);
  }

  lemma EncodedTransfer(i: Instr, x: seq<Word>, prev: Decoded, pc: Word, alu: Word)
    requires |x| == 32 && Encodable(i) && (i.Jal? || i.Jalr? || i.Branch? || i.Load? || i.Store?)
    ensures CarriesOut(Run(Encode(i), x, prev, pc, alu), PlanOf(i, x, pc))
  {
    hide Run, CarriesOut, PlanOf, HasFields, FormatR, FormatI, FormatS, FormatB, FormatU, FormatJ;
    hide ImmI, ImmS, ImmB, ImmU, ImmJ, Funct7, UpperField, Upper, Doubled, SignExtend12, SignExtend20;
    match i {
      case Jal(_, _) => EncodedJal(i, x, prev, pc, alu);
      case Jalr(_, _, _) => EncodedJalr(i, x, prev, pc, alu);
      case Branch(_, _, _, _) => EncodedBranch(i, x, prev, pc, alu);
      case Load(_, _, _, _) => EncodedLoad(i, x, prev, pc, alu);
      case Store(_, _, _, _) => EncodedStore(i, x, prev, pc, alu);
    }
  }

  lemma EncodedCompute(i: Instr, x: seq<Word>, prev: Decoded, pc: Word, alu: Word)
    requires |x| == 32 && Encodable(i) && (i.Lui? || i.Auipc? || i.OpImm? || i.ShiftImm? || i.OpReg?)
    ensures CarriesOut(Run(Encode(i), x, prev, pc, alu), PlanOf(i, x, pc))
  {
    hide Run, CarriesOut, PlanOf, HasFields, FormatR, FormatI, FormatS, FormatB, FormatU, FormatJ;
    hide ImmI, ImmS, ImmB, ImmU, ImmJ, Funct7, UpperField, Upper, Doubled, SignExtend12, SignExtend20;
    match i {
      case Lui(_, _) => EncodedLui(i, x, prev, pc, alu);
      case Auipc(_, _) => EncodedAuipc(i, x, prev, pc, alu);
      case OpImm(_, _, _, _) => EncodedOpImm(i, x, prev, pc, alu);
      case ShiftImm(_, _, _, _) => EncodedShiftImm(i, x, prev, pc, alu);
      case OpReg(_, _, _, _) => EncodedOpReg(i, x, prev, pc, alu);
    }
  }

  /** Decode and execute carry out the plan of every encodable instruction: they recover its
      registers and its immediate from its encoding, whatever earlier instructions left in
      the decoded fields; FENCE alone is stopped in decode. */
  lemma DecodeUndoesEncode(i: Instr, x: seq<Word>, prev: Decoded, pc: Word, alu: Word)
    requires |x| == 32 && Encodable(i)
    ensures i.Fence? ==> DecodeWord(Encode(i), x, prev).optype.Unknown?
    ensures !i.Fence? ==> CarriesOut(Run(Encode(i), x, prev, pc, alu), PlanOf(i, x, pc))
  {
    hide Run, CarriesOut, PlanOf, Encode, DecodeWord;
    if i.Fence? {
      EncodedFence(i, x, prev);
    } else if i.Ecall? || i.Ebreak? {
      EncodedSystem(i, x, prev, pc, alu);
    } else if i.Jal? || i.Jalr? || i.Branch? || i.Load? || i.Store? {
      EncodedTransfer(i, x, prev, pc, alu);
    } else {
      EncodedCompute(i, x, prev, pc, alu);
    }
  }
}
