/** Every 32-bit word, the reserved and undefined ones included: what the core does with it. */
module Undefined {
  import opened Words
  import opened Core
  import opened Decoder
  import opened Fates
  import opened Pipeline
  import Bus
  import Csr
  import Encoding

  /** What decode and execute make of a word. */
  predicate Meets(w: Word, d: Decoded, e: Executed, pc: Word, alu: Word) {
    match FateOf(w)
    case Undecodable => d.optype.Unknown?
    case Illegal => e.effect == RaiseTrap(2) && !d.optype.Unknown?
    case Calls => e.effect == RaiseTrap(8) && !d.optype.Unknown?
    case Aborts => e.effect == AssertFails && !d.optype.Unknown?
    case StaleBranch =>
      && e.effect == Proceed && !d.optype.Unknown? && e.aluOut == alu && e.dec.isJump == (alu == 1)
      && e.dec == d.(jumpTarget := e.dec.jumpTarget, isJump := e.dec.isJump)
      && e.dec.jumpTarget == Plus(pc, BranchOffset(w))
    case CarriedOut => e.effect == Proceed && !d.optype.Unknown?
  }

  lemma RegisterKey(d: Decoded)
    requires d.opcode == 0x33
    ensures RegisterResult(LongOp(d), d.rs1v, d.rs2v).Some?
            <==> d.funct7 >> 5 == 0 || (d.funct7 >> 5 == 1 && (d.funct3 == 0 || d.funct3 == 5))
  {
    hide Plus, Minus, Xor, BitOr, BitAnd, ShiftLeft, ShiftRight, Shamt, Less, SignedLess, Flag;
  }

  lemma OperationKey(d: Decoded, pc: Word, alu: Word)
    requires d.opcode == 0x13 && d.funct7 == 0
    ensures ExecuteI(d, pc, alu).effect == Proceed
  {
    hide Plus, Xor, BitOr, BitAnd, ShiftLeft, ShiftRight, ShiftRightSigned, Less, SignedLess, Flag;
    hide SignExtend12, SignExtend16;
  }

  lemma LoadKey(d: Decoded, pc: Word, alu: Word)
    requires d.opcode == 0x03 && d.funct7 == 0
    ensures ExecuteI(d, pc, alu).effect == if d.funct3 == 3 || d.funct3 >= 6 then AssertFails else Proceed
  {
    hide Plus, Xor, BitOr, BitAnd, ShiftLeft, ShiftRight, ShiftRightSigned, Less, SignedLess, Flag;
    hide SignExtend12, SignExtend16;
  }

  lemma JalrKey(d: Decoded, pc: Word, alu: Word)
    requires d.opcode == 0x67 && d.funct7 == 0
    ensures ExecuteI(d, pc, alu).effect == if d.funct3 == 0 then Proceed else AssertFails
  {
    hide Plus, Xor, BitOr, BitAnd, ShiftLeft, ShiftRight, ShiftRightSigned, Less, SignedLess, Flag;
    hide SignExtend12, SignExtend16;
  }

  lemma StoreKey(d: Decoded, alu: Word)
    requires d.opcode == 0x23
    ensures ExecuteS(d, alu).effect == if d.funct3 > 2 then AssertFails else Proceed
  {
    hide Plus, BitAnd, SignExtend12;
  }

  lemma BranchKey(d: Decoded, pc: Word, alu: Word)
    requires d.opcode == 0x63 && (d.funct3 == 2 || d.funct3 == 3)
    ensures BranchResult(ShortOp(d), d.rs1v, d.rs2v, alu) == alu
  {
    hide Less, SignedLess, Flag;
  }

  /** The fields of a word that decide its fate. */
  lemma KeyFields(w: Word, regs: seq<Word>, prev: Decoded)
    requires |regs| == REG_COUNT
    ensures var d := DecodeWord(w, regs, prev);
            && d.opcode == Opcode(w) && d.optype == OpTypeOf(Opcode(w)) && d.funct3 == Funct3(w)
            && (d.optype.TypeB? ==> d.imm12 == ImmB(w))
            && d.funct7 == if d.optype.TypeR? then Funct7(w) else 0
  {
    hide Opcode, Funct3, Funct7, Rd, Rs1, Rs2, RegRead, ImmI, ImmS, ImmB, ImmU, ImmJ, OpTypeOf;
  }

  lemma ImmediateFate(w: Word, d: Decoded, pc: Word, alu: Word)
    requires d.opcode == Opcode(w) && d.funct3 == Funct3(w) && d.funct7 == 0 && d.optype.TypeI?
    requires d.opcode == 0x03 || d.opcode == 0x13 || d.opcode == 0x67
    ensures Meets(w, d, Decoder.Execute(d, pc, alu), pc, alu)
  {
    hide Opcode, Funct3, Funct7, ExecuteI, ExecuteR, ExecuteS, ExecuteB, ExecuteU, ExecuteJ, ExecuteC;
    hide OpTypeOf, TopOfFunct7, BranchOffset;
    if d.opcode == 0x03 {
      LoadKey(d, pc, alu);
    } else if d.opcode == 0x13 {
      OperationKey(d, pc, alu);
    } else {
      JalrKey(d, pc, alu);
    }
  }

  lemma RegisterWords(w: Word)
    requires Opcode(w) == 0x33
    ensures FateOf(w) == if Funct7(w) >> 5 == 0 || (Funct7(w) >> 5 == 1 && (Funct3(w) == 0 || Funct3(w) == 5))
                         then CarriedOut else Illegal
  {
    hide Opcode, Funct3, Funct7;
  }

  lemma RegisterFate(w: Word, d: Decoded, pc: Word, alu: Word)
    requires d.opcode == Opcode(w) && d.funct3 == Funct3(w) && d.funct7 == Funct7(w) && d.optype.TypeR?
    requires d.opcode == 0x33
    ensures Meets(w, d, Decoder.Execute(d, pc, alu), pc, alu)
  {
    hide Opcode, Funct3, Funct7, FateOf, RegisterResult, LongOp, ExecuteI, ExecuteS, ExecuteB, ExecuteU, ExecuteJ;
    hide OpTypeOf, ExecuteC, BranchOffset;
    RegisterKey(d);
    RegisterWords(w);
  }

  lemma StoreFate(w: Word, d: Decoded, pc: Word, alu: Word)
    requires d.opcode == Opcode(w) && d.funct3 == Funct3(w) && d.optype.TypeS? && d.opcode == 0x23
    ensures Meets(w, d, Decoder.Execute(d, pc, alu), pc, alu)
  {
    hide Opcode, Funct3, Funct7, ExecuteS, ExecuteR, ExecuteI, ExecuteB, ExecuteU, ExecuteJ, ExecuteC;
    hide OpTypeOf, TopOfFunct7, BranchOffset;
    StoreKey(d, alu);
  }

  lemma BranchWords(w: Word)
    requires Opcode(w) == 0x63
    ensures FateOf(w) == if Funct3(w) == 2 || Funct3(w) == 3 then StaleBranch else CarriedOut
  {
    hide Opcode, Funct3, Funct7;
  }

  lemma BranchFate(w: Word, d: Decoded, pc: Word, alu: Word)
    requires d.opcode == Opcode(w) && d.funct3 == Funct3(w) && d.optype.TypeB? && d.opcode == 0x63 && d.imm12 == ImmB(w)
    ensures Meets(w, d, Decoder.Execute(d, pc, alu), pc, alu)
  {
    hide Opcode, Funct3, Funct7, ImmB, FateOf, BranchResult, ShortOp, Plus, Doubled, SignExtend12;
    hide OpTypeOf, ExecuteR, ExecuteI, ExecuteS, ExecuteU, ExecuteJ, ExecuteC;
    if d.funct3 == 2 || d.funct3 == 3 {
      BranchKey(d, pc, alu);
    }
    BranchWords(w);
  }

  lemma OtherFate(w: Word, d: Decoded, pc: Word, alu: Word)
    requires d.opcode == Opcode(w) && d.optype == OpTypeOf(d.opcode)
    requires d.optype.TypeU? || d.optype.TypeJ? || d.optype.TypeC? || d.optype.Unknown?
    ensures Meets(w, d, Decoder.Execute(d, pc, alu), pc, alu)
  {
    hide Opcode, Funct3, Funct7, Plus, Doubled, Upper, UpperField, SignExtend20;
    hide TopOfFunct7, ExecuteR, ExecuteI, ExecuteS, ExecuteB, BranchOffset;
  }

  lemma OpcodesOfTypes(opcode: bv7)
    ensures OpTypeOf(opcode).TypeI? <==> opcode == 0x03 || opcode == 0x13 || opcode == 0x67
    ensures OpTypeOf(opcode).TypeR? <==> opcode == 0x33
    ensures OpTypeOf(opcode).TypeS? <==> opcode == 0x23
    ensures OpTypeOf(opcode).TypeB? <==> opcode == 0x63
  {
  }

  /** Every word meets its fate, whatever the registers hold and whatever came before it. */
  lemma EveryWordMeetsItsFate(w: Word, regs: seq<Word>, prev: Decoded, pc: Word, alu: Word)
    requires |regs| == REG_COUNT
    ensures var d := DecodeWord(w, regs, prev); Meets(w, d, Decoder.Execute(d, pc, alu), pc, alu)
  {
    hide DecodeWord, Decoder.Execute, Meets, ImmB, OpTypeOf, Opcode, Funct3, Funct7;
    KeyFields(w, regs, prev);
    OpcodesOfTypes(Opcode(w));
    var d := DecodeWord(w, regs, prev);
    match d.optype {
      case TypeI => ImmediateFate(w, d, pc, alu);
      case TypeR => RegisterFate(w, d, pc, alu);
      case TypeS => StoreFate(w, d, pc, alu);
      case TypeB => BranchFate(w, d, pc, alu);
      case _ => OtherFate(w, d, pc, alu);
    }
  }

  // ----- the core -----

  /** What is to become of a core that has fetched a word, from the registers, the pc and the
      aluOut it has then and the bus as it is after the fetch. */
  predicate CoreMeets(w: Word, r: Outcome<Machine>, c: CoreImage, b: Bus.BusImage, junk: Byte)
    requires c.Valid() && b.Valid()
  {
    match FateOf(w)
    case Undecodable => Had(r, c, Trapped(2, b))
    case Illegal => Had(r, c, Trapped(2, b))
    case Calls => Had(r, c, Trapped(8, b))
    case Aborts => r.Halts?
    case StaleBranch => Had(r, c, Retired(Plus(c.pc, if c.aluOut == 1 then BranchOffset(w) else 4), c.regs, b))
    case CarriedOut => Had(r, c, EffectOf(Encoding.PlanOf(ExecutedAs(w), c.regs, c.pc), c.pc, c.regs, b, junk))
  }

  lemma NoFlags(w: Word, regs: seq<Word>, prev: Decoded)
    requires |regs| == REG_COUNT
    ensures var d := DecodeWord(w, regs, prev); !d.isJump && !d.writeRd && !d.readMem && !d.writeMem
  {
    hide Opcode, Funct3, Funct7, Rd, Rs1, Rs2, RegRead, ImmI, ImmS, ImmB, ImmU, ImmJ, OpTypeOf;
  }

  lemma HaltedExecute(m: Machine)
    requires m.Valid() && m.core.stage.Execute?
    requires Decoder.Execute(m.core.decoded, m.core.pc, m.core.aluOut).effect == AssertFails
    ensures ExecuteCycle(m).Halts?
  {
    hide Decoder.Execute;
  }

  /** From execute on. */
  lemma ExecuteMeets(w: Word, m: Machine, junk: Byte)
    requires m.Valid() && m.core.stage.Execute? && !FateOf(w).Undecodable?
    requires Meets(w, m.core.decoded, Decoder.Execute(m.core.decoded, m.core.pc, m.core.aluOut),
                   m.core.pc, m.core.aluOut)
    requires var d := m.core.decoded; !d.isJump && !d.writeRd && !d.readMem && !d.writeMem
    requires FateOf(w).CarriedOut? ==>
               Encoding.CarriesOut(Decoder.Execute(m.core.decoded, m.core.pc, m.core.aluOut),
                                   Encoding.PlanOf(ExecutedAs(w), m.core.regs, m.core.pc))
    ensures CoreMeets(w, Until(m, junk, 3), m.core, m.bus, junk)
  {
    hide Cycle, ExecuteCycle, Until, Decoder.Execute, FateOf, Plus, BranchOffset, Csr.Low, ExecutedAs, Encoding.PlanOf;
    hide Had;
    var e := Decoder.Execute(m.core.decoded, m.core.pc, m.core.aluOut);
    match FateOf(w) {
      case Illegal => ExecuteOnwards(m, Encoding.ExecuteTrap(ILLEGAL_INSTRUCTION), junk);
      case Calls => ExecuteOnwards(m, Encoding.ExecuteTrap(ENV_CALL_UMODE), junk);
      case StaleBranch => ExecuteOnwards(m, Encoding.MayJump(m.core.aluOut == 1, e.dec.jumpTarget), junk);
      case Aborts =>
        HaltedExecute(m);
        CycleOfStage(m, junk);
        UntilHalts(m, junk, 3);
      case CarriedOut => ExecuteOnwards(m, Encoding.PlanOf(ExecutedAs(w), m.core.regs, m.core.pc), junk);
      case Undecodable =>
    }
  }

  /** What becomes of a core depends on its pc, its registers, its aluOut and its trap state. */
  lemma MeetsAlike(w: Word, r: Outcome<Machine>, c: CoreImage, c': CoreImage, b: Bus.BusImage, junk: Byte)
    requires c.Valid() && c'.Valid() && b.Valid() && CoreMeets(w, r, c', b, junk)
    requires c'.pc == c.pc && c'.regs == c.regs && c'.aluOut == c.aluOut && c'.trapStage == c.trapStage
    ensures CoreMeets(w, r, c, b, junk)
  {
    hide FateOf, ExecutedAs, Encoding.PlanOf, EffectOf, Plus, BranchOffset, Csr.Low;
  }

  lemma UndecodableMeets(w: Word, d: Decoded, e: Executed, r: Outcome<Machine>, c: CoreImage, b: Bus.BusImage,
      junk: Byte)
    requires c.Valid() && b.Valid() && Meets(w, d, e, c.pc, c.aluOut) && d.optype.Unknown?
    requires Had(r, c, Trapped(ILLEGAL_INSTRUCTION, b))
    ensures CoreMeets(w, r, c, b, junk)
  {
    hide FateOf, ExecutedAs, Encoding.PlanOf, EffectOf, Plus, BranchOffset, Had;
  }

  lemma DecodableFate(w: Word, d: Decoded, e: Executed, pc: Word, alu: Word)
    requires Meets(w, d, e, pc, alu) && !d.optype.Unknown?
    ensures !FateOf(w).Undecodable?
  {
    hide FateOf, Plus, BranchOffset;
  }

  /** From decode on. */
  lemma DecodeMeets(m: Machine, junk: Byte)
    requires m.Valid() && m.core.stage.Decode?
    ensures CoreMeets(m.core.buffer[0], Until(m, junk, 4), m.core, m.bus, junk)
  {
    hide Cycle, DecodeCycle, Until, DecodeWord, Decoder.Execute, FateOf, ExecutedAs, Meets, CoreMeets, Had;
    hide Encoding.PlanOf, Encoding.CarriesOut;
    var w := m.core.buffer[0];
    var d := DecodeWord(w, m.core.regs, m.core.decoded);
    var c := m.core.(decoded := d);
    var e := Decoder.Execute(d, m.core.pc, m.core.aluOut);
    CycleOfStage(m, junk);
    CycleOfDecode(m);
    EveryWordMeetsItsFate(w, m.core.regs, m.core.decoded, m.core.pc, m.core.aluOut);
    if d.optype.Unknown? {
      TrapHad(m, c, ILLEGAL_INSTRUCTION, m.bus);
      UntilStops(m, m.(core := AfterTrap(c, ILLEGAL_INSTRUCTION)), junk, 4);
      UndecodableMeets(w, d, e, Until(m, junk, 4), m.core, m.bus, junk);
    } else {
      var m' := m.(core := Advance(c, Stage.Execute));
      DecodableFate(w, d, e, m.core.pc, m.core.aluOut);
      NoFlags(w, m.core.regs, m.core.decoded);
      if FateOf(w).CarriedOut? {
        CarriedOutAs(w, m.core.regs, m.core.decoded, m.core.pc, m.core.aluOut);
      }
      UntilGoesOn(m, m', junk, 4);
      ExecuteMeets(w, m', junk);
      MeetsAlike(w, Until(m, junk, 4), m.core, m'.core, m.bus, junk);
    }
  }

  /** Whatever word the core fetches, reserved and undefined ones included, it meets its fate:
      a failed assertion for the undefined loads, stores and JALR, a trap for what decode or
      execute does not know, a branch on the last result for the two branch encodings without
      a comparison, and for all others the effect of the instruction it is carried out as. */
  lemma CoreMeetsEveryWord(m: Machine, junk: Byte)
    requires m.Valid() && m.core.stage.Fetch? && FetchStage(m).Returns?
    ensures CoreMeets(FetchStage(m).value.core.buffer[0], Issue(m, junk), m.core, FetchStage(m).value.bus, junk)
  {
    hide Cycle, Until, FetchStage, FateOf, CoreMeets;
    FetchKeeps(m);
    var f := FetchStage(m).value;
    var m' := f.(core := Advance(f.core, Decode));
    CycleOfStage(m, junk);
    UntilGoesOn(m, m', junk, 5);
    DecodeMeets(m', junk);
    MeetsAlike(f.core.buffer[0], Issue(m, junk), m.core, m'.core, f.bus, junk);
  }

  // ----- when a word aborts -----

  /** The bus never answers: the mutex is held, or a store finds a device without write
      permission. */
  predicate Refuses(p: Encoding.Plan, b: Bus.BusImage) {
    match p
    case LoadReg(_, _, _) => b.held
    case StoreMem(addr, _, _) =>
      var found := Bus.FindDevice(b.devices, ToNat(addr));
      b.held || (found.Some? && !b.devices[found.value].writable)
    case _ => false
  }

  lemma EffectDies(p: Encoding.Plan, pc: Word, regs: seq<Word>, b: Bus.BusImage, junk: Byte)
    requires |regs| == REG_COUNT && b.Valid()
    ensures EffectOf(p, pc, regs, b, junk).Died? <==> Refuses(p, b)
  {
    hide ToNat, Plus, RegWrite, Bus.ReadRam, Bus.WriteRam, Bus.FindDevice, Bus.LoadedValue;
  }

  /** The core aborts on a word it has fetched exactly when the word is an undefined load,
      store or JALR, or is carried out as a load or store that the bus never answers. */
  lemma AbortsExactly(m: Machine, junk: Byte)
    requires m.Valid() && m.core.stage.Fetch? && FetchStage(m).Returns?
    ensures var f := FetchStage(m).value;
            var w := f.core.buffer[0];
            Issue(m, junk).Halts?
            <==> FateOf(w).Aborts?
                 || (FateOf(w).CarriedOut? && Refuses(Encoding.PlanOf(ExecutedAs(w), m.core.regs, m.core.pc), f.bus))
  {
    hide FetchStage, FateOf, Issue, ExecutedAs, Encoding.PlanOf, EffectOf, Refuses, Plus, Csr.Low, BranchOffset;
    CoreMeetsEveryWord(m, junk);
    var f := FetchStage(m).value;
    var w := f.core.buffer[0];
    if FateOf(w).CarriedOut? {
      EffectDies(Encoding.PlanOf(ExecutedAs(w), m.core.regs, m.core.pc), m.core.pc, m.core.regs, f.bus, junk);
    }
  }
}
