/** The fate of every 32-bit word: which words the core carries out, and as which instruction. */
module Fates {
  import opened Words
  import opened Decoder
  import opened Encoding
  import opened Isa

  datatype Fate =
    | Undecodable        // decode causes an illegal instruction trap
    | Illegal            // execute causes an illegal instruction trap
    | Calls              // execute causes an environment call trap
    | Aborts             // execute fails an assertion
    | StaleBranch        // a branch on whatever the last instruction left in aluOut
    | CarriedOut         // execute goes on to the memory stage

  /** The fate of a word, from its opcode, its funct3 and the top two bits of its funct7. */
  function FateOf(w: Word): Fate {
    var opcode := Opcode(w);
    var f3 := Funct3(w);
    if opcode == 0x03 then if f3 == 3 || f3 == 6 || f3 == 7 then Aborts else CarriedOut
    else if opcode == 0x13 || opcode == 0x17 || opcode == 0x37 || opcode == 0x6f then CarriedOut
    else if opcode == 0x23 then if f3 > 2 then Aborts else CarriedOut
    else if opcode == 0x33 then
      if TopOfFunct7(w) == 0 || (TopOfFunct7(w) == 1 && (f3 == 0 || f3 == 5)) then CarriedOut else Illegal
    else if opcode == 0x63 then if f3 == 2 || f3 == 3 then StaleBranch else CarriedOut
    else if opcode == 0x67 then if f3 == 0 then CarriedOut else Aborts
    else if opcode == 0x73 then Calls
    else Undecodable
  }

  function TopOfFunct7(w: Word): bv7 { Funct7(w) >> 5 }

  /** The offset of a branch, whatever it compares. */
  function BranchOffset(w: Word): Word { Doubled(SignExtend12(ImmB(w))) }

  /** The offset of a jump. */
  function JumpOffset(w: Word): Word { Doubled(SignExtend20(ImmJ(w))) }

  // ----- the instruction that a word is carried out as -----

  function LoadKindOf(f3: bv3): LoadKind {
    if f3 == 0 then Lb else if f3 == 1 then Lh else if f3 == 2 then Lw else if f3 == 4 then Lbu else Lhu
  }

  function StoreWidthOf(f3: bv3): Width { if f3 == 0 then BYTE else if f3 == 1 then HALFWORD else WORD }

  function ConditionOf(f3: bv3): Condition {
    if f3 == 0 then Eq else if f3 == 1 then Ne else if f3 == 4 then Lt else if f3 == 5 then Ge
    else if f3 == 6 then Ltu else Geu
  }

  function ImmOpOf(f3: bv3): ImmOp {
    if f3 == 0 then Addi else if f3 == 2 then Slti else if f3 == 3 then Sltiu else if f3 == 4 then Xori
    else if f3 == 6 then Ori else Andi
  }

  function RegOpOf(f3: bv3, other: bool): RegOp {
    if f3 == 0 then if other then Sub else Add
    else if f3 == 1 then Sll else if f3 == 2 then Slt else if f3 == 3 then Sltu else if f3 == 4 then RegOp.Xor
    else if f3 == 5 then if other then Sra else Srl
    else if f3 == 6 then Or else And
  }

  /** The instruction that the core takes a word for, if it carries it out. */
  function ExecutedAs(w: Word): Instr
    requires FateOf(w).CarriedOut?
  {
    var opcode := Opcode(w);
    var f3 := Funct3(w);
    if opcode == 0x03 then Load(LoadKindOf(f3), Rd(w), Rs1(w), SignExtend12(ImmI(w)))
    else if opcode == 0x13 then
      if f3 == 1 then ShiftImm(Slli, Rd(w), Rs1(w), Rs2(w))
      else if f3 == 5 then ShiftImm(Srli, Rd(w), Rs1(w), Rs2(w))
      else OpImm(ImmOpOf(f3), Rd(w), Rs1(w), SignExtend12(ImmI(w)))
    else if opcode == 0x17 then Auipc(Rd(w), UpperField(ImmU(w)))
    else if opcode == 0x23 then Store(StoreWidthOf(f3), Rs1(w), Rs2(w), SignExtend12(ImmS(w)))
    else if opcode == 0x33 then OpReg(RegOpOf(f3, TopOfFunct7(w) == 1), Rd(w), Rs1(w), Rs2(w))
    else if opcode == 0x37 then Lui(Rd(w), UpperField(ImmU(w)))
    else if opcode == 0x63 then Branch(ConditionOf(f3), Rs1(w), Rs2(w), BranchOffset(w))
    else if opcode == 0x67 then Jalr(Rd(w), Rs1(w), SignExtend12(ImmI(w)))
    else Jal(Rd(w), JumpOffset(w))
  }

  lemma FieldsOf(w: Word)
    ensures HasFields(w, Opcode(w) as Word, Funct3(w) as Word, Rd(w), Rs1(w), Rs2(w))
    ensures (Opcode(w) as Word) < 0x80 && (Funct3(w) as Word) < 8
  {
  }

  lemma CodesOf(f3: bv3)
    ensures f3 != 3 && f3 != 6 && f3 != 7 ==> LoadCode(LoadKindOf(f3)) == f3 as Word
    ensures f3 <= 2 ==> StoreCode(StoreWidthOf(f3)) == f3 as Word
    ensures f3 != 2 && f3 != 3 ==> ConditionCode(ConditionOf(f3)) == f3 as Word
    ensures f3 != 1 && f3 != 5 ==> ImmOpCode(ImmOpOf(f3)) == f3 as Word
    ensures RegOpCode(RegOpOf(f3, false)) == f3 as Word
    ensures f3 == 0 || f3 == 5 ==> RegOpCode(RegOpOf(f3, true)) == f3 as Word
    ensures !RegOpOf(f3, false).Sub? && !RegOpOf(f3, false).Sra?
    ensures f3 == 0 || f3 == 5 ==> RegOpOf(f3, true).Sub? || RegOpOf(f3, true).Sra?
  {
  }

  /** Decode and execute carry out the plan of that instruction. */
  lemma CarriedOutAs(w: Word, x: seq<Word>, prev: Decoded, pc: Word, alu: Word)
    requires |x| == 32 && FateOf(w).CarriedOut?
    ensures CarriesOut(Run(w, x, prev, pc, alu), PlanOf(ExecutedAs(w), x, pc))
  {
    hide Run, CarriesOut, HasFields, Opcode, Funct3, Funct7, Rd, Rs1, Rs2, ImmI, ImmS, ImmB, ImmU, ImmJ;
    hide SignExtend12, SignExtend20, Doubled, Upper, UpperField;
    FieldsOf(w);
    CodesOf(Funct3(w));
    UpperSign(ImmU(w));
    var opcode := Opcode(w);
    var f3 := Funct3(w);
    if opcode == 0x03 {
      RunLoad(w, LoadKindOf(f3), Rd(w), Rs1(w), Rs2(w), SignExtend12(ImmI(w)), x, prev, pc, alu);
    } else if opcode == 0x13 {
      if f3 == 1 {
        RunShiftLeft(w, Rd(w), Rs1(w), Rs2(w), x, prev, pc, alu);
      } else if f3 == 5 {
        RunShiftRight(w, Rd(w), Rs1(w), Rs2(w), x, prev, pc, alu);
      } else {
        RunOpImm(w, ImmOpOf(f3), Rd(w), Rs1(w), Rs2(w), SignExtend12(ImmI(w)), x, prev, pc, alu);
      }
    } else if opcode == 0x23 {
      RunStore(w, StoreWidthOf(f3), Rd(w), Rs1(w), Rs2(w), SignExtend12(ImmS(w)), x, prev, pc, alu);
    } else if opcode == 0x33 {
      RunOpReg(w, RegOpOf(f3, TopOfFunct7(w) == 1), Rd(w), Rs1(w), Rs2(w), x, prev, pc, alu);
    } else if opcode == 0x63 {
      RunBranch(w, ConditionOf(f3), Rd(w), Rs1(w), Rs2(w), BranchOffset(w), x, prev, pc, alu);
    } else if opcode == 0x67 {
      RunJalr(w, Rd(w), Rs1(w), Rs2(w), SignExtend12(ImmI(w)), x, prev, pc, alu);
    } else {
      WideFields(w);
      if opcode == 0x17 {
        RunAuipc(w, Rd(w), UpperField(ImmU(w)), x, prev, pc, alu);
      } else if opcode == 0x37 {
        RunLui(w, Rd(w), UpperField(ImmU(w)), x, prev, pc, alu);
      } else {
        RunJal(w, Rd(w), JumpOffset(w), x, prev, pc, alu);
      }
    }
  }

  lemma WideFields(w: Word)
    ensures w & 0x7f == Opcode(w) as Word && ((w >> 7) & 31) as bv5 == Rd(w)
  {
  }

  // ----- which words are that instruction's encoding -----

  /** The bits of a word that the core looks at: OP drops the low five bits of funct7, and the
      shifts by an immediate drop all of it. */
  function Canonical(w: Word): Word {
    if Opcode(w) == 0x33 then w & 0xc1ff_ffff
    else if Opcode(w) == 0x13 && (Funct3(w) == 1 || Funct3(w) == 5) then w & 0x01ff_ffff
    else w
  }

  lemma ReassembleR(w: Word)
    ensures FormatR((Funct7(w) & 0x60) as Word, Rs2(w), Rs1(w), Funct3(w) as Word, Rd(w), Opcode(w) as Word)
            == w & 0xc1ff_ffff
    ensures FormatR(0, Rs2(w), Rs1(w), Funct3(w) as Word, Rd(w), Opcode(w) as Word) == w & 0x01ff_ffff
  {
  }

  lemma ReassembleI(w: Word)
    ensures IsImmI(SignExtend12(ImmI(w)))
    ensures FormatI(SignExtend12(ImmI(w)), Rs1(w), Funct3(w) as Word, Rd(w), Opcode(w) as Word) == w
  {
  }

  lemma ReassembleS(w: Word)
    ensures IsImmI(SignExtend12(ImmS(w)))
    ensures FormatS(SignExtend12(ImmS(w)), Rs2(w), Rs1(w), Funct3(w) as Word, Opcode(w) as Word) == w
  {
  }

  lemma BranchHighBits(w: Word)
    ensures (BranchOffset(w) >> 12) & 1 == (w >> 31) & 1 && (BranchOffset(w) >> 11) & 1 == (w >> 7) & 1
    ensures IsImmB(BranchOffset(w))
  {
  }

  lemma BranchLowBits(w: Word)
    ensures (BranchOffset(w) >> 5) & 0x3f == (w >> 25) & 0x3f && (BranchOffset(w) >> 1) & 0xf == (w >> 8) & 0xf
  {
  }

  lemma BranchParts(w: Word)
    ensures (((w >> 31) & 1) << 31) | (((w >> 25) & 0x3f) << 25) | ((Rs2(w) as Word) << 20) | ((Rs1(w) as Word) << 15)
            | ((Funct3(w) as Word) << 12) | (((w >> 8) & 0xf) << 8) | (((w >> 7) & 1) << 7) | (Opcode(w) as Word) == w
  {
  }

  lemma ReassembleB(w: Word)
    ensures IsImmB(BranchOffset(w))
    ensures FormatB(BranchOffset(w), Rs2(w), Rs1(w), Funct3(w) as Word, Opcode(w) as Word) == w
  {
    hide BranchOffset, Rs1, Rs2, Funct3, Opcode, IsImmB;
    BranchHighBits(w);
    BranchLowBits(w);
    BranchParts(w);
  }

  lemma ReassembleU(w: Word)
    ensures IsImmU(UpperField(ImmU(w)))
    ensures FormatU(UpperField(ImmU(w)), Rd(w), Opcode(w) as Word) == w
  {
  }

  lemma JumpHighBits(w: Word)
    ensures (JumpOffset(w) >> 20) & 1 == (w >> 31) & 1 && (JumpOffset(w) >> 12) & 0xff == (w >> 12) & 0xff
    ensures IsImmJ(JumpOffset(w))
  {
  }

  lemma JumpLowBits(w: Word)
    ensures (JumpOffset(w) >> 1) & 0x3ff == (w >> 21) & 0x3ff && (JumpOffset(w) >> 11) & 1 == (w >> 20) & 1
  {
  }

  lemma JumpParts(w: Word)
    ensures (((w >> 31) & 1) << 31) | (((w >> 21) & 0x3ff) << 21) | (((w >> 20) & 1) << 20)
            | (((w >> 12) & 0xff) << 12) | ((Rd(w) as Word) << 7) | (Opcode(w) as Word) == w
  {
  }

  lemma ReassembleJ(w: Word)
    ensures IsImmJ(JumpOffset(w))
    ensures FormatJ(JumpOffset(w), Rd(w), Opcode(w) as Word) == w
  {
    hide JumpOffset, Rd, Opcode, IsImmJ;
    JumpHighBits(w);
    JumpLowBits(w);
    JumpParts(w);
  }

  lemma TopBits(f7: bv7)
    ensures f7 >> 5 == 0 ==> (f7 & 0x60) as Word == 0
    ensures f7 >> 5 == 1 ==> (f7 & 0x60) as Word == 0x20
  {
  }

  /** A word is carried out as the instruction whose encoding is its canonical form. */
  predicate IsCanonical(w: Word)
    requires FateOf(w).CarriedOut?
  {
    Encodable(ExecutedAs(w)) && Encode(ExecutedAs(w)) == Canonical(w)
  }

  lemma RegisterCanonical(w: Word)
    requires FateOf(w).CarriedOut? && Opcode(w) == 0x33
    ensures IsCanonical(w)
  {
    hide FormatR, FormatI, FormatS, FormatB, FormatU, FormatJ, IsImmI, IsImmB, IsImmU, IsImmJ;
    hide Opcode, Funct3, Funct7, Rd, Rs1, Rs2, ImmI, ImmS, ImmB, ImmU, ImmJ, BranchOffset, JumpOffset;
    hide SignExtend12, UpperField, LoadCode, StoreCode, ConditionCode, ImmOpCode, RegOpCode;
    hide LoadKindOf, StoreWidthOf, ConditionOf, ImmOpOf, RegOpOf;
    CodesOf(Funct3(w));
    TopBits(Funct7(w));
    ReassembleR(w);
  }

  lemma ShiftCanonical(w: Word)
    requires FateOf(w).CarriedOut? && Opcode(w) == 0x13 && (Funct3(w) == 1 || Funct3(w) == 5)
    ensures IsCanonical(w)
  {
    hide FormatR, FormatI, FormatS, FormatB, FormatU, FormatJ, IsImmI, IsImmB, IsImmU, IsImmJ;
    hide Opcode, Funct3, Funct7, Rd, Rs1, Rs2, ImmI, ImmS, ImmB, ImmU, ImmJ, BranchOffset, JumpOffset;
    hide SignExtend12, UpperField, LoadCode, StoreCode, ConditionCode, ImmOpCode, RegOpCode;
    hide LoadKindOf, StoreWidthOf, ConditionOf, ImmOpOf, RegOpOf;
    ReassembleR(w);
  }

  lemma ImmediateCanonical(w: Word)
    requires FateOf(w).CarriedOut? && Opcode(w) == 0x13 && Funct3(w) != 1 && Funct3(w) != 5
    ensures IsCanonical(w)
  {
    hide FormatR, FormatI, FormatS, FormatB, FormatU, FormatJ, IsImmI, IsImmB, IsImmU, IsImmJ;
    hide Opcode, Funct3, Funct7, Rd, Rs1, Rs2, ImmI, ImmS, ImmB, ImmU, ImmJ, BranchOffset, JumpOffset;
    hide SignExtend12, UpperField, LoadCode, StoreCode, ConditionCode, ImmOpCode, RegOpCode;
    hide LoadKindOf, StoreWidthOf, ConditionOf, ImmOpOf, RegOpOf;
    CodesOf(Funct3(w));
    ReassembleI(w);
  }

  lemma LoadCanonical(w: Word)
    requires FateOf(w).CarriedOut? && (Opcode(w) == 0x03 || Opcode(w) == 0x67)
    ensures IsCanonical(w)
  {
    hide FormatR, FormatI, FormatS, FormatB, FormatU, FormatJ, IsImmI, IsImmB, IsImmU, IsImmJ;
    hide Opcode, Funct3, Funct7, Rd, Rs1, Rs2, ImmI, ImmS, ImmB, ImmU, ImmJ, BranchOffset, JumpOffset;
    hide SignExtend12, UpperField, LoadCode, StoreCode, ConditionCode, ImmOpCode, RegOpCode;
    hide LoadKindOf, StoreWidthOf, ConditionOf, ImmOpOf, RegOpOf;
    CodesOf(Funct3(w));
    ReassembleI(w);
  }

  lemma StoreCanonical(w: Word)
    requires FateOf(w).CarriedOut? && (Opcode(w) == 0x23 || Opcode(w) == 0x63)
    ensures IsCanonical(w)
  {
    hide FormatR, FormatI, FormatS, FormatB, FormatU, FormatJ, IsImmI, IsImmB, IsImmU, IsImmJ;
    hide Opcode, Funct3, Funct7, Rd, Rs1, Rs2, ImmI, ImmS, ImmB, ImmU, ImmJ, BranchOffset, JumpOffset;
    hide SignExtend12, UpperField, LoadCode, StoreCode, ConditionCode, ImmOpCode, RegOpCode;
    hide LoadKindOf, StoreWidthOf, ConditionOf, ImmOpOf, RegOpOf;
    CodesOf(Funct3(w));
    ReassembleS(w);
    ReassembleB(w);
  }

  lemma WideCanonical(w: Word)
    requires FateOf(w).CarriedOut? && (Opcode(w) == 0x17 || Opcode(w) == 0x37 || Opcode(w) == 0x6f)
    ensures IsCanonical(w)
  {
    hide FormatR, FormatI, FormatS, FormatB, FormatU, FormatJ, IsImmI, IsImmB, IsImmU, IsImmJ;
    hide Opcode, Funct3, Funct7, Rd, Rs1, Rs2, ImmI, ImmS, ImmB, ImmU, ImmJ, BranchOffset, JumpOffset;
    hide SignExtend12, UpperField, LoadCode, StoreCode, ConditionCode, ImmOpCode, RegOpCode;
    hide LoadKindOf, StoreWidthOf, ConditionOf, ImmOpOf, RegOpOf;
    ReassembleU(w);
    ReassembleJ(w);
  }

  /** Every word that is carried out is carried out as the instruction that its canonical
      form encodes. So the core takes exactly the words that the canonical form changes for
      something they do not encode: the reserved words of OP and of the shifts by an
      immediate, and SRAI, which it takes for SRLI. */
  lemma CarriedOutAsCanonical(w: Word)
    requires FateOf(w).CarriedOut?
    ensures Encodable(ExecutedAs(w)) && Encode(ExecutedAs(w)) == Canonical(w)
  {
    hide Opcode, Funct3, Funct7, ExecutedAs, Canonical, Encodable, Encode;
    if Opcode(w) == 0x33 {
      RegisterCanonical(w);
    } else if Opcode(w) == 0x13 {
      if Funct3(w) == 1 || Funct3(w) == 5 { ShiftCanonical(w); } else { ImmediateCanonical(w); }
    } else if Opcode(w) == 0x03 || Opcode(w) == 0x67 {
      LoadCanonical(w);
    } else if Opcode(w) == 0x23 || Opcode(w) == 0x63 {
      StoreCanonical(w);
    } else {
      WideCanonical(w);
    }
  }

  /** MUL x1, x2, x3 runs as ADD, DIV as XOR, and SRAI as SRLI. */
  lemma ReservedWordsRun()
    ensures FateOf(0x0231_00b3).CarriedOut? && ExecutedAs(0x0231_00b3) == OpReg(Add, 1, 2, 3)
    ensures FateOf(0x0231_40b3).CarriedOut? && ExecutedAs(0x0231_40b3) == OpReg(RegOp.Xor, 1, 2, 3)
    ensures FateOf(0x4041_5093).CarriedOut? && ExecutedAs(0x4041_5093) == ShiftImm(Srli, 1, 2, 4)
  {
  }
}
