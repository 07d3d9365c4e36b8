/** The five stages carry out one instruction. */
module Pipeline {
  import opened Words
  import opened Mmu
  import opened Bus
  import opened Decoder
  import opened Core
  import Csr
  import Isa
  import Encoding

  /** Cycles until the core is back at fetch or a trap has been caused, n at most. */
  function Until(m: Machine, junk: Byte, n: nat): (r: Outcome<Machine>)
    requires m.Valid()
    ensures r.Returns? ==> r.value.Valid()
    decreases n
  {
    if n == 0 then Returns(m)
    else
      match Cycle(m, junk)
      case Halts => Halts
      case Returns(m') =>
        if m'.core.stage.Fetch? || m'.core.stage.Trap? then Returns(m') else Until(m', junk, n - 1)
  }

  /** One instruction, from its fetch on. */
  function Issue(m: Machine, junk: Byte): (r: Outcome<Machine>)
    requires m.Valid()
    ensures r.Returns? ==> r.value.Valid()
  {
    Until(m, junk, 5)
  }

  /** What an instruction does to the registers, the pc and the bus. */
  datatype Effect =
    | Retired(pc: Word, regs: seq<Word>, bus: BusImage)
    | Trapped(cause: Word, bus: BusImage)
    | Died

  /** The effect of a plan. */
  function EffectOf(p: Encoding.Plan, pc: Word, regs: seq<Word>, bus: BusImage, junk: Byte): (e: Effect)
    requires |regs| == REG_COUNT && bus.Valid()
    ensures !e.Died? ==> e.bus.Valid()
  {
    match p
    case SetReg(rd, value) => Retired(Plus(pc, 4), RegWrite(regs, rd, value), bus)
    case Jump(rd, link, target) => Retired(target, RegWrite(regs, rd, link), bus)
    case MayJump(taken, target) => Retired(if taken then target else Plus(pc, 4), regs, bus)
    case LoadReg(rd, addr, width) =>
      (match ReadSingle(bus, ToNat(addr), width, junk)
       case Halts => Died
       case Returns(got) =>
         if got.bus.flags.bus != BusOk then Trapped(LoadFault(got.bus.flags.bus), got.bus)
         else Retired(Plus(pc, 4), RegWrite(regs, rd, got.value), got.bus))
    case StoreMem(addr, width, value) =>
      (match WriteSingle(bus, ToNat(addr), value, width)
       case Halts => Died
       case Returns(bus') =>
         if bus'.flags.bus != BusOk then Trapped(StoreFault(bus'.flags.bus), bus')
         else Retired(Plus(pc, 4), regs, bus'))
    case DecodeTrap => Trapped(ILLEGAL_INSTRUCTION, bus)
    case ExecuteTrap(cause) => Trapped(cause, bus)
  }

  /** A run of the stages had the effect on a core that began in state c. */
  predicate Had(r: Outcome<Machine>, c: CoreImage, e: Effect) {
    match e
    case Died => r.Halts?
    case Retired(pc, regs, bus) =>
      && r.Returns?
      && r.value.core.stage.Fetch? && r.value.core.pc == pc && r.value.core.regs == regs && r.value.bus == bus
      && r.value.core.trapStage == c.trapStage
    case Trapped(cause, bus) =>
      && r.Returns? && |r.value.core.csr| == Csr.CSR_COUNT
      && r.value.core.stage.Trap? && r.value.core.trapStage.Enter?
      && Csr.Low(r.value.core.csr[Csr.MCAUSE]) == cause
      && r.value.core.pc == c.pc && r.value.core.regs == c.regs && r.value.bus == bus
  }

  // ----- the stages, one at a time -----

  predicate AtBoundary(m: Machine) { m.core.stage.Fetch? || m.core.stage.Trap? }

  /** A cycle is the cycle of the current stage. */
  lemma CycleOfStage(m: Machine, junk: Byte)
    requires m.Valid()
    ensures Cycle(m, junk) ==
            match m.core.stage
            case Fetch => FetchCycle(m)
            case Decode => DecodeCycle(m)
            case Execute => ExecuteCycle(m)
            case Memory => MemoryCycle(m, junk)
            case Writeback => WritebackCycle(m)
            case Trap => TrapCycle(m)
  {
    hide FetchCycle, DecodeCycle, ExecuteCycle, MemoryCycle, WritebackCycle, TrapCycle;
  }

  lemma UntilStops(m: Machine, m': Machine, junk: Byte, n: nat)
    requires m.Valid() && m'.Valid() && 1 <= n && Cycle(m, junk) == Returns(m') && AtBoundary(m')
    ensures Until(m, junk, n) == Returns(m')
  {
    hide Cycle;
  }

  lemma UntilGoesOn(m: Machine, m': Machine, junk: Byte, n: nat)
    requires m.Valid() && m'.Valid() && 1 <= n && Cycle(m, junk) == Returns(m') && !AtBoundary(m')
    ensures Until(m, junk, n) == Until(m', junk, n - 1)
  {
    hide Cycle;
  }

  lemma UntilHalts(m: Machine, junk: Byte, n: nat)
    requires m.Valid() && 1 <= n && Cycle(m, junk).Halts?
    ensures Until(m, junk, n).Halts?
  {
    hide Cycle;
  }

  /** The state after a cycle that causes a trap. */
  function AfterTrap(c: CoreImage, cause: Word): (r: CoreImage)
    requires c.Valid()
    ensures r.Valid()
  {
    Advance(CauseTrap(c, cause), c.stage)
  }

  lemma TrapHad(m: Machine, c: CoreImage, cause: Word, bus: BusImage)
    requires c.Valid() && bus.Valid() && c.pc == m.core.pc && c.regs == m.core.regs
    ensures Had(Returns(Machine(AfterTrap(c, cause), bus)), m.core, Trapped(cause, bus))
  {
    hide Csr.Low;
    Csr.WriteThenRead(c.csr, Csr.MCAUSE, cause);
  }

  /** What writeback makes of an executed instruction. */
  function WrittenBack(c: CoreImage, bus: BusImage): Effect
    requires c.Valid()
  {
    Retired(if c.decoded.isJump then c.decoded.jumpTarget else Plus(c.pc, 4),
            if c.decoded.writeRd then RegWrite(c.regs, c.decoded.rd, c.aluOut) else c.regs,
            bus)
  }

  lemma WritebackHad(m: Machine)
    requires m.Valid() && m.core.stage.Writeback?
    ensures Had(WritebackCycle(m), m.core, WrittenBack(m.core, m.bus))
  {
    hide RegWrite, Plus;
  }

  lemma WritebackRetires(m: Machine, junk: Byte, n: nat)
    requires m.Valid() && m.core.stage.Writeback? && 1 <= n
    ensures Had(Until(m, junk, n), m.core, WrittenBack(m.core, m.bus))
  {
    hide Cycle, RegWrite, Plus, Until;
    CycleOfStage(m, junk);
    WritebackHad(m);
    UntilStops(m, WritebackCycle(m).value, junk, n);
  }

  /** An instruction that does not touch memory passes the memory stage unchanged. */
  lemma MemoryPasses(m: Machine, junk: Byte, n: nat)
    requires m.Valid() && m.core.stage.Memory? && 2 <= n
    requires !m.core.decoded.readMem && !m.core.decoded.writeMem
    ensures Had(Until(m, junk, n), m.core, WrittenBack(m.core, m.bus))
  {
    hide Cycle, FetchCycle, DecodeCycle, ExecuteCycle, WritebackCycle, TrapCycle;
    hide RegWrite, Plus, Until, ReadSingle, WriteSingle;
    var m' := m.(core := Advance(m.core, Writeback));
    CycleOfStage(m, junk);
    UntilGoesOn(m, m', junk, n);
    WritebackRetires(m', junk, n - 1);
  }

  lemma LoadCycle(m: Machine, junk: Byte)
    requires m.Valid() && m.core.decoded.readMem && m.core.stage.Memory?
    ensures var d := m.core.decoded;
            MemoryCycle(m, junk) ==
            match ReadSingle(m.bus, ToNat(d.memOffset), d.width, junk)
            case Halts => Halts
            case Returns(got) =>
              var c := m.core.(aluOut := got.value);
              Returns(Machine(if got.bus.flags.bus != BusOk then AfterTrap(c, LoadFault(got.bus.flags.bus))
                              else Advance(c, Writeback),
                              got.bus))
  {
    hide ReadSingle, WriteSingle, ToNat;
  }

  lemma MemoryLoads(m: Machine, junk: Byte, n: nat)
    requires m.Valid() && m.core.stage.Memory? && 2 <= n
    requires m.core.decoded.readMem && m.core.decoded.writeRd && !m.core.decoded.isJump
    ensures var d := m.core.decoded;
            Had(Until(m, junk, n), m.core,
                EffectOf(Encoding.LoadReg(d.rd, d.memOffset, d.width), m.core.pc, m.core.regs, m.bus, junk))
  {
    hide Cycle, FetchCycle, DecodeCycle, ExecuteCycle, MemoryCycle, WritebackCycle, TrapCycle;
    hide RegWrite, Plus, Until, ReadSingle, WriteSingle, ToNat, LoadFault;
    var d := m.core.decoded;
    CycleOfStage(m, junk);
    LoadCycle(m, junk);
    match ReadSingle(m.bus, ToNat(d.memOffset), d.width, junk) {
      case Halts => UntilHalts(m, junk, n);
      case Returns(got) =>
        var c := m.core.(aluOut := got.value);
        var s := got.bus.flags.bus;
        if s != BusOk {
          TrapHad(m, c, LoadFault(s), got.bus);
          UntilStops(m, Machine(AfterTrap(c, LoadFault(s)), got.bus), junk, n);
        } else {
          var m' := Machine(Advance(c, Writeback), got.bus);
          UntilGoesOn(m, m', junk, n);
          WritebackRetires(m', junk, n - 1);
        }
    }
  }

  lemma StoreCycle(m: Machine, junk: Byte)
    requires m.Valid() && m.core.stage.Memory? && !m.core.decoded.readMem && m.core.decoded.writeMem
    ensures var d := m.core.decoded;
            MemoryCycle(m, junk) ==
            match WriteSingle(m.bus, ToNat(d.memOffset), m.core.aluOut, d.width)
            case Halts => Halts
            case Returns(bus') =>
              Returns(Machine(if bus'.flags.bus != BusOk then AfterTrap(m.core, StoreFault(bus'.flags.bus))
                              else Advance(m.core, Writeback),
                              bus'))
  {
    hide ReadSingle, WriteSingle, ToNat;
  }

  lemma MemoryStores(m: Machine, junk: Byte, n: nat)
    requires m.Valid() && m.core.stage.Memory? && 2 <= n
    requires !m.core.decoded.readMem && m.core.decoded.writeMem && !m.core.decoded.writeRd && !m.core.decoded.isJump
    ensures var d := m.core.decoded;
            Had(Until(m, junk, n), m.core,
                EffectOf(Encoding.StoreMem(d.memOffset, d.width, m.core.aluOut), m.core.pc, m.core.regs, m.bus, junk))
  {
    hide Cycle, FetchCycle, DecodeCycle, ExecuteCycle, MemoryCycle, WritebackCycle, TrapCycle;
    hide RegWrite, Plus, Until, ReadSingle, WriteSingle, ToNat, StoreFault;
    var d := m.core.decoded;
    CycleOfStage(m, junk);
    StoreCycle(m, junk);
    match WriteSingle(m.bus, ToNat(d.memOffset), m.core.aluOut, d.width) {
      case Halts => UntilHalts(m, junk, n);
      case Returns(bus') =>
        var s := bus'.flags.bus;
        if s != BusOk {
          TrapHad(m, m.core, StoreFault(s), bus');
          UntilStops(m, Machine(AfterTrap(m.core, StoreFault(s)), bus'), junk, n);
        } else {
          var m' := Machine(Advance(m.core, Writeback), bus');
          UntilGoesOn(m, m', junk, n);
          WritebackRetires(m', junk, n - 1);
        }
    }
  }

  lemma CycleOfExecute(m: Machine)
    requires m.Valid() && m.core.stage.Execute?
    ensures var e := Decoder.Execute(m.core.decoded, m.core.pc, m.core.aluOut);
            var c := m.core.(decoded := e.dec, aluOut := e.aluOut);
            && (e.effect.Proceed? ==> ExecuteCycle(m) == Returns(m.(core := Advance(c, Memory))))
            && (e.effect.RaiseTrap? ==> ExecuteCycle(m) == Returns(m.(core := AfterTrap(c, e.effect.cause))))
  {
    hide Decoder.Execute;
  }

  /** From memory on, the core carries out a plan that execute has settled on. */
  lemma MemoryOnwards(m: Machine, p: Encoding.Plan, e: Executed, junk: Byte)
    requires m.Valid() && m.core.stage.Memory? && m.core.decoded == e.dec && m.core.aluOut == e.aluOut
    requires Encoding.CarriesOut(e, p) && !p.ExecuteTrap?
    ensures Had(Until(m, junk, 2), m.core, EffectOf(p, m.core.pc, m.core.regs, m.bus, junk))
  {
    hide Until, Had, ReadSingle, WriteSingle, Plus, RegWrite;
    if e.dec.readMem {
      MemoryLoads(m, junk, 2);
    } else if e.dec.writeMem {
      MemoryStores(m, junk, 2);
    } else {
      MemoryPasses(m, junk, 2);
    }
  }

  /** From execute on, the core carries out the plan that execute settles on. */
  lemma ExecuteOnwards(m: Machine, p: Encoding.Plan, junk: Byte)
    requires m.Valid() && m.core.stage.Execute?
    requires Encoding.CarriesOut(Decoder.Execute(m.core.decoded, m.core.pc, m.core.aluOut), p)
    ensures Had(Until(m, junk, 3), m.core, EffectOf(p, m.core.pc, m.core.regs, m.bus, junk))
  {
    hide Cycle, FetchCycle, DecodeCycle, ExecuteCycle, MemoryCycle, WritebackCycle, TrapCycle;
    hide Until, Decoder.Execute, ReadSingle, WriteSingle, Plus, RegWrite;
    var e := Decoder.Execute(m.core.decoded, m.core.pc, m.core.aluOut);
    var c := m.core.(decoded := e.dec, aluOut := e.aluOut);
    CycleOfStage(m, junk);
    CycleOfExecute(m);
    if p.ExecuteTrap? {
      TrapHad(m, c, p.cause, m.bus);
      UntilStops(m, m.(core := AfterTrap(c, p.cause)), junk, 3);
    } else {
      var m' := m.(core := Advance(c, Memory));
      UntilGoesOn(m, m', junk, 3);
      MemoryOnwards(m', p, e, junk);
    }
  }

  lemma CycleOfDecode(m: Machine)
    requires m.Valid() && m.core.stage.Decode?
    ensures var c := m.core.(decoded := DecodeWord(m.core.buffer[0], m.core.regs, m.core.decoded));
            DecodeCycle(m) == Returns(m.(core := if c.decoded.optype.Unknown? then AfterTrap(c, ILLEGAL_INSTRUCTION)
                                                 else Advance(c, Execute)))
  {
    hide DecodeWord;
  }

  /** From decode on, the core carries out the plan of the instruction in its buffer. */
  lemma DecodeOnwards(m: Machine, i: Isa.Instr, junk: Byte)
    requires m.Valid() && m.core.stage.Decode? && Isa.Encodable(i) && m.core.buffer[0] == Isa.Encode(i)
    ensures Had(Until(m, junk, 4), m.core,
                EffectOf(Encoding.PlanOf(i, m.core.regs, m.core.pc), m.core.pc, m.core.regs, m.bus, junk))
  {
    hide Cycle, FetchCycle, DecodeCycle, ExecuteCycle, MemoryCycle, WritebackCycle, TrapCycle;
    hide Until, DecodeWord, Decoder.Execute, Isa.Encode, Isa.Encodable, Encoding.CarriesOut;
    hide ReadSingle, WriteSingle, Plus, RegWrite;
    Encoding.DecodeUndoesEncode(i, m.core.regs, m.core.decoded, m.core.pc, m.core.aluOut);
    CycleOfStage(m, junk);
    CycleOfDecode(m);
    var d := DecodeWord(m.core.buffer[0], m.core.regs, m.core.decoded);
    var c := m.core.(decoded := d);
    if i.Fence? {
      TrapHad(m, c, ILLEGAL_INSTRUCTION, m.bus);
      UntilStops(m, m.(core := AfterTrap(c, ILLEGAL_INSTRUCTION)), junk, 4);
    } else {
      NotUnknown(d, i, m.core.regs, m.core.pc, m.core.aluOut);
      var m' := m.(core := Advance(c, Execute));
      UntilGoesOn(m, m', junk, 4);
      ExecuteOnwards(m', Encoding.PlanOf(i, m.core.regs, m.core.pc), junk);
    }
  }

  lemma NotUnknown(d: Decoded, i: Isa.Instr, x: seq<Word>, pc: Word, alu: Word)
    requires |x| == REG_COUNT && !i.Fence?
    requires Encoding.CarriesOut(Decoder.Execute(d, pc, alu), Encoding.PlanOf(i, x, pc))
    ensures !d.optype.Unknown?
  {
    hide ExecuteR, ExecuteI, ExecuteS, ExecuteB, ExecuteU, ExecuteJ, ExecuteC;
  }

  /** A fetch that succeeds changes only the buffer, and the status words of the bus. */
  lemma FetchKeeps(m: Machine)
    requires m.Valid() && FetchStage(m).Returns?
    ensures var m' := FetchStage(m).value;
            && m'.core == m.core.(buffer := m'.core.buffer, prefetched := m'.core.prefetched)
            && m'.bus == m.bus.(flags := m'.bus.flags)
            && |m'.core.buffer| == |m.core.buffer|
  {
    hide WordsOf, ToNat, Read;
  }

  /** The pipeline carries out the plan of the instruction it fetches. */
  lemma IssueCarriesOut(m: Machine, i: Isa.Instr, junk: Byte)
    requires m.Valid() && m.core.stage.Fetch? && Isa.Encodable(i)
    requires FetchStage(m).Returns? && FetchStage(m).value.core.buffer[0] == Isa.Encode(i)
    ensures Had(Issue(m, junk), m.core,
                EffectOf(Encoding.PlanOf(i, m.core.regs, m.core.pc), m.core.pc, m.core.regs,
                         FetchStage(m).value.bus, junk))
  {
    hide Cycle, DecodeCycle, ExecuteCycle, MemoryCycle, WritebackCycle, TrapCycle;
    hide Until, FetchStage, EffectOf, Isa.Encode, Isa.Encodable, Encoding.PlanOf;
    FetchKeeps(m);
    var f := FetchStage(m).value;
    var m' := f.(core := Advance(f.core, Decode));
    CycleOfStage(m, junk);
    UntilGoesOn(m, m', junk, 5);
    DecodeOnwards(m', i, junk);
  }
}
