/** Traps are precise and handled once, x0 stays zero, and every cycle is accounted for,
    over whole runs of the loop. */
module Traps {
  import opened Words
  import opened Mmu
  import opened Bus
  import opened Core
  import Csr
  import Decoder
  import History
  import Pipeline
  import Prefetch

  // ----- the invariant -----

  /** The trap states and the trap stage go together; x0 is zero in the registers, and in the
      saved registers from the moment they are saved until they are restored; meanwhile mepc
      holds the pc. */
  predicate Sound(c: CoreImage) {
    && c.Valid()
    && (c.stage.Trap? <==> !c.trapStage.Idle?)
    && c.regs[0] == 0
    && (c.trapStage.Handle? || c.trapStage.Exit? ==>
          c.trapRegs[0] == 0 && Csr.Low(c.csr[Csr.MEPC]) == c.pc && c.csr[Csr.MEPC] >> 32 == 0)
  }

  lemma CauseTrapSound(c: CoreImage, cause: Word)
    requires c.Valid() && c.regs[0] == 0
    ensures Sound(CauseTrap(c, cause))
  {
  }

  lemma AdvanceSound(c: CoreImage, next: Stage)
    requires Sound(c) && !next.Trap?
    ensures Sound(Advance(c, next))
  {
    hide Csr.Low;
  }

  lemma FetchSound(m: Machine)
    requires m.Valid() && Sound(m.core) && FetchStage(m).Returns?
    ensures Sound(FetchStage(m).value.core)
  {
    hide FetchStage, Csr.Low;
    Pipeline.FetchKeeps(m);
  }

  lemma DecodeSound(c: CoreImage)
    requires Sound(c) && !c.stage.Trap?
    ensures Sound(DecodeStage(c))
  {
    hide Decoder.DecodeWord, Csr.Low, CauseTrap;
    CauseTrapSound(c.(decoded := Decoder.DecodeWord(c.buffer[0], c.regs, c.decoded)), Decoder.ILLEGAL_INSTRUCTION);
  }

  lemma ExecuteSound(c: CoreImage)
    requires Sound(c) && !c.stage.Trap? && ExecuteStage(c).Returns?
    ensures Sound(ExecuteStage(c).value)
  {
    hide Decoder.Execute, Csr.Low, CauseTrap;
    var e := Decoder.Execute(c.decoded, c.pc, c.aluOut);
    if e.effect.RaiseTrap? {
      CauseTrapSound(c.(decoded := e.dec, aluOut := e.aluOut), e.effect.cause);
    }
  }

  lemma MemorySound(m: Machine, junk: Byte)
    requires m.Valid() && Sound(m.core) && m.core.stage.Memory? && MemoryStage(m, junk).Returns?
    ensures Sound(MemoryStage(m, junk).value.core)
  {
    hide ReadSingle, WriteSingle, ToNat, LoadFault, StoreFault, Csr.Low, CauseTrap;
    forall c: CoreImage, cause: Word | c.Valid() && c.regs[0] == 0
      ensures Sound(CauseTrap(c, cause))
    {
      CauseTrapSound(c, cause);
    }
  }

  lemma WritebackSound(c: CoreImage)
    requires Sound(c) && !c.stage.Trap?
    ensures Sound(WritebackStage(c))
  {
    hide Plus, Csr.Low;
    hide Decoder.RegWrite;
    KeepsZero(c.regs, c.decoded.rd, c.aluOut);
  }

  /** A register write never changes x0 from zero. */
  lemma KeepsZero(regs: seq<Word>, rd: bv5, v: Word)
    requires |regs| == Decoder.REG_COUNT && regs[0] == 0
    ensures Decoder.RegWrite(regs, rd, v)[0] == 0
  {
  }

  lemma TrapSound(c: CoreImage)
    requires Sound(c) && TrapStep(c).Returns?
    ensures Sound(TrapStep(c).value)
  {
    hide Plus, Csr.Low, Csr.Cleared;
    Csr.WriteThenRead(c.csr, Csr.MEPC, c.pc);
    Csr.LowOfWord(c.pc);
  }

  lemma CycleSound(m: Machine, junk: Byte)
    requires m.Valid() && Sound(m.core) && Cycle(m, junk).Returns?
    ensures Sound(Cycle(m, junk).value.core)
  {
    hide Cycle, FetchStage, DecodeStage, ExecuteStage, MemoryStage, WritebackStage, TrapStep, Advance, Sound;
    Pipeline.CycleOfStage(m, junk);
    match m.core.stage {
      case Fetch =>
        FetchSound(m);
        AdvanceSound(FetchStage(m).value.core, Decode);
      case Decode =>
        SoundStage(m.core);
        DecodeSound(m.core);
        AdvanceSound(DecodeStage(m.core), Execute);
      case Execute =>
        SoundStage(m.core);
        ExecuteSound(m.core);
        AdvanceSound(ExecuteStage(m.core).value, Memory);
      case Memory =>
        MemorySound(m, junk);
        AdvanceSound(MemoryStage(m, junk).value.core, Writeback);
      case Writeback =>
        SoundStage(m.core);
        WritebackSound(m.core);
        AdvanceSound(WritebackStage(m.core), Fetch);
      case Trap =>
        TrapSound(m.core);
        AdvanceSound(TrapStep(m.core).value, Fetch);
    }
  }

  lemma SoundStage(c: CoreImage)
    requires Sound(c)
    ensures c.stage.Trap? <==> !c.trapStage.Idle?
  {
  }

  /** The arm of trap that asserts false is never reached. */
  lemma TrapStepReturns(c: CoreImage)
    requires Sound(c) && c.stage.Trap?
    ensures TrapStep(c).Returns?
  {
  }

  lemma MaskNothing(w: Word)
    ensures w & !0 == w
  {
  }

  /** Reading mcause and mepc by clearing nothing keeps what mepc says. */
  lemma CauseReadSound(csr: seq<bv64>)
    requires |csr| == Csr.CSR_COUNT
    ensures var r := Csr.Clear32(Csr.Clear32(csr, Csr.MCAUSE, 0), Csr.MEPC, 0);
            Csr.Low(r[Csr.MEPC]) == Csr.Low(csr[Csr.MEPC]) && r[Csr.MEPC] >> 32 == 0
  {
    hide Csr.Low, Csr.Cleared;
    var s := Csr.Clear32(csr, Csr.MCAUSE, 0);
    assert s[Csr.MEPC] == csr[Csr.MEPC];
    Csr.ClearDropsHighHalf(s, Csr.MEPC, 0);
    MaskNothing(Csr.Low(csr[Csr.MEPC]));
  }

  lemma CallSound(m: Machine, response: Response)
    requires m.Valid() && Sound(m.core) && !SystemCall(m, response).Crashed?
    ensures Sound(SystemCall(m, response).m.core)
  {
    hide History.Run, Csr.Low;
  }

  lemma HandlerSound(m: Machine, response: Response)
    requires m.Valid() && Sound(m.core) && !HandleTrap(m, response).Crashed?
    ensures Sound(HandleTrap(m, response).m.core)
  {
    hide SystemCall, Csr.Low, Csr.Cleared;
    CauseReadSound(m.core.csr);
    var csr := Csr.Clear32(Csr.Clear32(m.core.csr, Csr.MCAUSE, 0), Csr.MEPC, 0);
    if !SystemCall(m.(core := m.core.(csr := csr)), response).Crashed? {
      CallSound(m.(core := m.core.(csr := csr)), response);
    }
  }

  /** In every state that a run reaches, x0 is zero, so that the guarded register read of
      decode is the stored register. */
  lemma {:induction false} RunSound(s: RunState, inputs: seq<Input>)
    requires s.Valid() && (!s.Crashed? ==> Sound(s.m.core))
    ensures var t := RunLoop(s, inputs);
            !t.Crashed? ==>
              && Sound(t.m.core)
              && forall r: bv5 :: Decoder.RegRead(t.m.core.regs, r) == t.m.core.regs[Index(r)]
    decreases |inputs|
  {
    hide Tick, Sound;
    if inputs == [] || !s.Running? {
      if !s.Crashed? { ReadsAreStored(s.m.core); }
    } else {
      TickSound(s.m, inputs[0]);
      RunSound(Tick(s.m, inputs[0]), inputs[1..]);
    }
  }

  lemma ReadsAreStored(c: CoreImage)
    requires Sound(c)
    ensures forall r: bv5 :: Decoder.RegRead(c.regs, r) == c.regs[Index(r)]
  {
  }

  lemma TickSound(m: Machine, input: Input)
    requires m.Valid() && Sound(m.core)
    ensures !Tick(m, input).Crashed? ==> Sound(Tick(m, input).m.core)
  {
    hide Cycle, HandleTrap, Sound;
    if Cycle(m, input.junk).Returns? {
      CycleSound(m, input.junk);
      var m' := Cycle(m, input.junk).value;
      if AtHandler(m') && !HandleTrap(m', input.response).Crashed? {
        HandlerSound(m', input.response);
      }
    }
  }

  // ----- accounting -----

  /** What a run has done: instructions retired, traps caused in each stage, handler calls. */
  datatype Tally = Tally(retired: nat, decodeTraps: nat, executeTraps: nat, memoryTraps: nat, handled: nat) {
    function Plus(t: Tally): Tally {
      Tally(retired + t.retired, decodeTraps + t.decodeTraps, executeTraps + t.executeTraps,
            memoryTraps + t.memoryTraps, handled + t.handled)
    }

    /** 5 cycles for an instruction that retires, and 5, 6 or 7 for one that traps in decode,
        execute or memory. */
    function Cost(): nat { 5 * retired + 5 * decodeTraps + 6 * executeTraps + 7 * memoryTraps }

    function Traps(): nat { decodeTraps + executeTraps + memoryTraps }
  }

  const NOTHING := Tally(0, 0, 0, 0, 0)

  function One(b: bool): nat { if b then 1 else 0 }

  /** What one turn of the loop adds. */
  function TallyOf(m: Machine, m': Machine): Tally {
    var trapped := m'.core.stage.Trap? && !m.core.stage.Trap?;
    Tally(One(m.core.stage.Writeback?), One(trapped && m.core.stage.Decode?), One(trapped && m.core.stage.Execute?),
          One(trapped && m.core.stage.Memory?), One(AtHandler(m')))
  }

  function RunTally(s: RunState, inputs: seq<Input>): Tally
    requires s.Valid()
    decreases |inputs|
  {
    if inputs == [] || !s.Running? then NOTHING
    else
      match Cycle(s.m, inputs[0].junk)
      case Halts => NOTHING
      case Returns(m') => TallyOf(s.m, m').Plus(RunTally(Tick(s.m, inputs[0]), inputs[1..]))
  }

  /** How far the core is into the instruction it has not finished, counting down the three
      cycles of a trap whose cost is already in the tally. */
  function Progress(c: CoreImage): int {
    match c.stage
    case Fetch => 0
    case Decode => 1
    case Execute => 2
    case Memory => 3
    case Writeback => 4
    case Trap => match c.trapStage case Enter => -3 case Handle => -2 case Exit => -1 case Idle => 0
  }

  /** A trap has been caused but not yet handled. */
  function Pending(c: CoreImage): nat { One(c.stage.Trap? && c.trapStage.Enter?) }

  // What one cycle does to the stage, stage by stage.

  /** The stage, the trap stage and the cycle count after one cycle. */
  predicate MovesOn(c: CoreImage, c': CoreImage) {
    c'.cycle == (c.cycle + 1) % U64_LIMIT && StagesMove(c, c')
  }

  predicate StagesMove(c: CoreImage, c': CoreImage) {
    match c.stage
    case Fetch => c'.stage.Decode? && c'.trapStage.Idle?
    case Decode => if c'.stage.Trap? then c'.trapStage.Enter? else c'.stage.Execute? && c'.trapStage.Idle?
    case Execute => if c'.stage.Trap? then c'.trapStage.Enter? else c'.stage.Memory? && c'.trapStage.Idle?
    case Memory => if c'.stage.Trap? then c'.trapStage.Enter? else c'.stage.Writeback? && c'.trapStage.Idle?
    case Writeback => c'.stage.Fetch? && c'.trapStage.Idle?
    case Trap =>
      match c.trapStage
      case Enter => c'.stage.Trap? && c'.trapStage.Handle?
      case Handle => c'.stage.Trap? && c'.trapStage.Exit?
      case Exit => c'.stage.Fetch? && c'.trapStage.Idle?
      case Idle => false
  }

  lemma FetchMovesOn(m: Machine)
    requires m.Valid() && Sound(m.core) && m.core.stage.Fetch? && FetchCycle(m).Returns?
    ensures MovesOn(m.core, FetchCycle(m).value.core)
  {
    hide FetchStage, Csr.Low;
    Pipeline.FetchKeeps(m);
  }

  lemma DecodeMovesOn(m: Machine)
    requires m.Valid() && Sound(m.core) && m.core.stage.Decode?
    ensures MovesOn(m.core, DecodeCycle(m).value.core)
  {
    hide Decoder.DecodeWord, Csr.Low;
  }

  lemma ExecuteMovesOn(m: Machine)
    requires m.Valid() && Sound(m.core) && m.core.stage.Execute? && ExecuteCycle(m).Returns?
    ensures MovesOn(m.core, ExecuteCycle(m).value.core)
  {
    hide ExecuteCycle, Decoder.Execute, Csr.Low, Csr.Write32;
    Pipeline.CycleOfExecute(m);
    Prefetch.ExecuteFails(m);
  }

  lemma MemoryMovesOn(m: Machine, junk: Byte)
    requires m.Valid() && Sound(m.core) && m.core.stage.Memory? && MemoryCycle(m, junk).Returns?
    ensures MovesOn(m.core, MemoryCycle(m, junk).value.core)
  {
    hide ReadSingle, WriteSingle, ToNat, LoadFault, StoreFault, Csr.Low;
  }

  lemma WritebackMovesOn(m: Machine)
    requires m.Valid() && Sound(m.core) && m.core.stage.Writeback?
    ensures MovesOn(m.core, WritebackCycle(m).value.core)
  {
    hide Decoder.RegWrite, Words.Plus, Csr.Low;
  }

  lemma TrapMovesOn(m: Machine)
    requires m.Valid() && Sound(m.core) && m.core.stage.Trap? && TrapCycle(m).Returns?
    ensures MovesOn(m.core, TrapCycle(m).value.core)
  {
    hide Words.Plus, Csr.Low, Csr.Clear32, Csr.Write32;
    match m.core.trapStage { case Enter => case Handle => case Exit => case Idle => }
  }

  lemma CycleMovesOn(m: Machine, junk: Byte)
    requires m.Valid() && Sound(m.core) && Cycle(m, junk).Returns?
    ensures MovesOn(m.core, Cycle(m, junk).value.core)
  {
    hide Cycle, FetchCycle, DecodeCycle, ExecuteCycle, MemoryCycle, WritebackCycle, TrapCycle, Sound, MovesOn;
    Pipeline.CycleOfStage(m, junk);
    match m.core.stage {
      case Fetch => FetchMovesOn(m);
      case Decode => DecodeMovesOn(m);
      case Execute => ExecuteMovesOn(m);
      case Memory => MemoryMovesOn(m, junk);
      case Writeback => WritebackMovesOn(m);
      case Trap => TrapMovesOn(m);
    }
  }

  lemma FetchPays(m: Machine, m': Machine)
    requires StagesMove(m.core, m'.core) && m.core.stage.Fetch?
    ensures TallyOf(m, m').Cost() + Progress(m'.core) - Progress(m.core) == 1
  {
  }

  lemma DecodePays(m: Machine, m': Machine)
    requires StagesMove(m.core, m'.core) && m.core.stage.Decode?
    ensures TallyOf(m, m').Cost() + Progress(m'.core) - Progress(m.core) == 1
  {
  }

  lemma ExecutePays(m: Machine, m': Machine)
    requires StagesMove(m.core, m'.core) && m.core.stage.Execute?
    ensures TallyOf(m, m').Cost() + Progress(m'.core) - Progress(m.core) == 1
  {
  }

  lemma MemoryPassPays(m: Machine, m': Machine)
    requires StagesMove(m.core, m'.core) && m.core.stage.Memory? && !m'.core.stage.Trap?
    ensures TallyOf(m, m').Cost() + Progress(m'.core) - Progress(m.core) == 1
  {
  }

  lemma MemoryFaultPays(m: Machine, m': Machine)
    requires StagesMove(m.core, m'.core) && m.core.stage.Memory? && m'.core.stage.Trap?
    ensures TallyOf(m, m').Cost() + Progress(m'.core) - Progress(m.core) == 1
  {
    MemoryFaultTally(m, m');
    SevenCycles(TallyOf(m, m'));
    hide TallyOf, Progress, Tally.Cost;
  }

  lemma MemoryFaultTally(m: Machine, m': Machine)
    requires StagesMove(m.core, m'.core) && m.core.stage.Memory? && m'.core.stage.Trap?
    ensures TallyOf(m, m') == Tally(0, 0, 0, 1, 0)
    ensures Progress(m'.core) == -3 && Progress(m.core) == 3
  {
  }

  lemma SevenCycles(t: Tally)
    requires t == Tally(0, 0, 0, 1, 0)
    ensures t.Cost() == 7
  {
  }

  lemma WritebackPays(m: Machine, m': Machine)
    requires StagesMove(m.core, m'.core) && m.core.stage.Writeback?
    ensures TallyOf(m, m').Cost() + Progress(m'.core) - Progress(m.core) == 1
  {
  }

  lemma TrapPays(m: Machine, m': Machine)
    requires StagesMove(m.core, m'.core) && m.core.stage.Trap?
    ensures TallyOf(m, m').Cost() + Progress(m'.core) - Progress(m.core) == 1
  {
  }

  /** A cycle pays for itself: the cost it adds and the progress it makes come to one. */
  lemma CyclePays(m: Machine, m': Machine)
    requires StagesMove(m.core, m'.core)
    ensures TallyOf(m, m').Cost() + Progress(m'.core) - Progress(m.core) == 1
  {
    hide StagesMove, TallyOf, Tally.Cost, Progress;
    match m.core.stage {
      case Fetch => FetchPays(m, m');
      case Decode => DecodePays(m, m');
      case Execute => ExecutePays(m, m');
      case Memory => if m'.core.stage.Trap? { MemoryFaultPays(m, m'); } else { MemoryPassPays(m, m'); }
      case Writeback => WritebackPays(m, m');
      case Trap => TrapPays(m, m');
    }
  }

  lemma TrapsOfCycle(m: Machine, m': Machine)
    requires StagesMove(m.core, m'.core)
    ensures TallyOf(m, m').Traps() == One(m'.core.stage.Trap? && !m.core.stage.Trap?)
  {
  }

  lemma HandledOfCycle(m: Machine, m': Machine)
    requires StagesMove(m.core, m'.core)
    ensures One(AtHandler(m')) + Pending(m'.core) == One(m'.core.stage.Trap? && !m.core.stage.Trap?) + Pending(m.core)
  {
  }

  /** The traps that a cycle causes and the ones it hands to the handler balance. */
  lemma CycleBalances(m: Machine, m': Machine)
    requires StagesMove(m.core, m'.core)
    ensures TallyOf(m, m').handled + Pending(m'.core) == TallyOf(m, m').Traps() + Pending(m.core)
  {
    hide StagesMove, Tally.Traps, Pending, One, AtHandler;
    TrapsOfCycle(m, m');
    HandledOfCycle(m, m');
  }

  lemma HandlerKeepsStage(m: Machine, response: Response)
    requires m.Valid() && !HandleTrap(m, response).Crashed?
    ensures var c := HandleTrap(m, response).m.core;
            c.stage == m.core.stage && c.trapStage == m.core.trapStage && c.cycle == m.core.cycle
  {
    hide History.Run;
  }

  lemma AddModulo(a: nat, b: int)
    ensures (a % U64_LIMIT + b) % U64_LIMIT == (a + b) % U64_LIMIT
  {
  }

  lemma TallyAdds(a: Tally, b: Tally)
    ensures a.Plus(b).Cost() == a.Cost() + b.Cost() && a.Plus(b).Traps() == a.Traps() + b.Traps()
    ensures a.Plus(b).handled == a.handled + b.handled
  {
  }

  /** Over every run, from any sound state: the turns taken are exactly the cost of what was
      done, up to the instruction in progress at either end; the cycle counter counts them
      modulo 2^64; and every trap caused has been handled once, except one that is still
      waiting to enter the handler. */
  lemma {:induction false} EveryCycleIsAccountedFor(m: Machine, inputs: seq<Input>)
    requires m.Valid() && Sound(m.core) && !RunLoop(Running(m), inputs).Crashed?
    ensures var t := RunLoop(Running(m), inputs);
            var done := RunTally(Running(m), inputs);
            && (t.Running? ==> |inputs| == done.Cost() + Progress(t.m.core) - Progress(m.core))
            && t.m.core.cycle == (m.core.cycle + done.Cost() + Progress(t.m.core) - Progress(m.core))
                                 % 0x1_0000_0000_0000_0000
            && done.handled + Pending(t.m.core) == done.Traps() + Pending(m.core)
    decreases |inputs|
  {
    hide Cycle, HandleTrap, Sound, MovesOn, StagesMove, Progress, Pending, TallyOf, AtHandler;
    hide Tally.Plus, Tally.Cost, Tally.Traps;
    NothingCosts();
    if inputs != [] {
      var input := inputs[0];
      var s := Tick(m, input);
      assert RunLoop(Running(m), inputs) == RunLoop(s, inputs[1..]);
      assert !s.Crashed?;
      var m' := Cycle(m, input.junk).value;
      CycleMovesOn(m, input.junk);
      CycleCount(m, m');
      CyclePays(m, m');
      CycleBalances(m, m');
      TickSound(m, input);
      SameStage(m', s.m, input.response);
      var t := RunLoop(s, inputs[1..]);
      TallyAdds(TallyOf(m, m'), NOTHING);
      if s.Running? {
        EveryCycleIsAccountedFor(s.m, inputs[1..]);
        var done := RunTally(s, inputs[1..]);
        TallyAdds(TallyOf(m, m'), done);
        AddModulo(m.core.cycle + 1, done.Cost() + Progress(t.m.core) - Progress(m'.core));
      }
    }
  }

  lemma NothingCosts()
    ensures NOTHING.Cost() == 0 && NOTHING.Traps() == 0 && NOTHING.handled == 0
  {
  }

  lemma CycleCount(m: Machine, m': Machine)
    requires MovesOn(m.core, m'.core)
    ensures m'.core.cycle == (m.core.cycle + 1) % U64_LIMIT && StagesMove(m.core, m'.core)
  {
    hide StagesMove;
  }

  /** The handler leaves the stage and the counter alone. */
  lemma SameStage(m': Machine, m'': Machine, response: Response)
    requires m'.Valid()
    requires m'' == m' || (!HandleTrap(m', response).Crashed? && m'' == HandleTrap(m', response).m)
    ensures Progress(m''.core) == Progress(m'.core) && Pending(m''.core) == Pending(m'.core)
    ensures m''.core.cycle == m'.core.cycle
  {
    hide HandleTrap;
    if m'' != m' { HandlerKeepsStage(m', response); }
  }

  // ----- precise traps -----

  /** Nothing that the program can see has changed. */
  predicate Untouched(m: Machine, m': Machine) {
    m'.core.pc == m.core.pc && m'.core.regs == m.core.regs && m'.bus.ram == m.bus.ram
  }

  lemma StoreFaultKeepsRam(b: BusImage, a: nat, v: Word, width: Width)
    requires b.Valid() && WriteSingle(b, a, v, width).Returns?
    ensures WriteSingle(b, a, v, width).value.flags.bus != BusOk ==> WriteSingle(b, a, v, width).value.ram == b.ram
  {
    hide WriteRam, Decompose;
  }

  lemma LoadKeepsRam(b: BusImage, a: nat, width: Width, junk: Byte)
    requires b.Valid() && ReadSingle(b, a, width, junk).Returns?
    ensures ReadSingle(b, a, width, junk).value.bus.ram == b.ram
  {
    hide ReadRam;
  }

  lemma FaultTouchesNothing(m: Machine, junk: Byte)
    requires m.Valid() && m.core.stage.Memory? && MemoryCycle(m, junk).Returns?
    requires MemoryCycle(m, junk).value.core.stage.Trap?
    ensures Untouched(m, MemoryCycle(m, junk).value)
  {
    hide MemoryCycle, ReadSingle, WriteSingle, ToNat, LoadFault, StoreFault, Csr.Write32;
    var d := m.core.decoded;
    if d.readMem {
      Pipeline.LoadCycle(m, junk);
      LoadKeepsRam(m.bus, ToNat(d.memOffset), d.width, junk);
    } else if d.writeMem {
      Pipeline.StoreCycle(m, junk);
      StoreFaultKeepsRam(m.bus, ToNat(d.memOffset), m.core.aluOut, d.width);
    } else {
      PassCausesNoTrap(m, junk);
    }
  }

  lemma PassCausesNoTrap(m: Machine, junk: Byte)
    requires m.Valid() && m.core.stage.Memory? && !m.core.decoded.readMem && !m.core.decoded.writeMem
    ensures MemoryCycle(m, junk).Returns? && MemoryCycle(m, junk).value.core.stage.Writeback?
  {
    hide ReadSingle, WriteSingle, ToNat;
  }

  /** A cycle of fetch, decode or execute changes nothing the program can see, and neither
      does a memory cycle that ends in a trap. */
  lemma EarlyCyclesTouchNothing(m: Machine, junk: Byte)
    requires m.Valid() && Cycle(m, junk).Returns?
    requires m.core.stage.Fetch? || m.core.stage.Decode? || m.core.stage.Execute?
             || (m.core.stage.Memory? && Cycle(m, junk).value.core.stage.Trap?)
    ensures Untouched(m, Cycle(m, junk).value)
  {
    hide Cycle, FetchStage, Decoder.DecodeWord, Decoder.Execute, MemoryCycle, WritebackCycle, TrapCycle, Csr.Write32;
    Pipeline.CycleOfStage(m, junk);
    match m.core.stage {
      case Fetch => Pipeline.FetchKeeps(m);
      case Decode =>
      case Execute =>
      case Memory => FaultTouchesNothing(m, junk);
    }
  }

  lemma StageFacts(c: CoreImage, c': CoreImage)
    requires MovesOn(c, c') && !c.stage.Trap?
    ensures c.stage.Writeback? ==> c'.stage.Fetch?
    ensures c.stage.Memory? && !c'.stage.Trap? ==> c'.stage.Writeback?
    ensures c'.stage.Trap? ==> c'.trapStage.Enter? && (c.stage.Decode? || c.stage.Execute? || c.stage.Memory?)
  {
  }

  lemma {:induction false} TrapTouchesNothing(m: Machine, junk: Byte, n: nat)
    requires m.Valid() && Sound(m.core) && !m.core.stage.Trap? && Pipeline.Until(m, junk, n).Returns?
    ensures var t := Pipeline.Until(m, junk, n).value;
            && Sound(t.core)
            && (m.core.stage.Writeback? ==> !t.core.stage.Trap?)
            && (t.core.stage.Trap? ==> t.core.trapStage.Enter? && Untouched(m, t))
    decreases n
  {
    hide Cycle, Sound, MovesOn;
    if n != 0 {
      CycleSound(m, junk);
      CycleMovesOn(m, junk);
      var m' := Cycle(m, junk).value;
      StageFacts(m.core, m'.core);
      if !m.core.stage.Writeback? && (!m.core.stage.Memory? || m'.core.stage.Trap?) {
        EarlyCyclesTouchNothing(m, junk);
      }
      if !Pipeline.AtBoundary(m') {
        TrapTouchesNothing(m', junk, n - 1);
      }
    }
  }

  // ----- from a trap back to the program -----

  /** One turn of the loop at a machine about to enter a trap: the handler is called, on a
      machine whose saved registers, mepc and mcause are those of the trap. */
  lemma EnterTurn(m: Machine, input: Input)
    requires m.Valid() && Sound(m.core) && m.core.stage.Trap? && m.core.trapStage.Enter?
    ensures Cycle(m, input.junk).Returns?
    ensures var h := Cycle(m, input.junk).value;
            && AtHandler(h) && h.bus == m.bus
            && h.core.pc == m.core.pc && h.core.regs == m.core.regs && h.core.trapRegs == m.core.regs
            && h.core.trapPc == m.core.pc && h.core.prefetched == 0
            && Csr.Low(h.core.csr[0x341]) == m.core.pc
            && h.core.csr[0x342] == m.core.csr[0x342]
            && Tick(m, input) == HandleTrap(h, input.response)
  {
    hide Cycle, FetchCycle, DecodeCycle, ExecuteCycle, MemoryCycle, WritebackCycle, HandleTrap, Csr.Low;
    Pipeline.CycleOfStage(m, input.junk);
    Csr.WriteThenRead(m.core.csr, Csr.MEPC, m.core.pc);
  }

  lemma HandleTurn(m: Machine, input: Input)
    requires m.Valid() && Sound(m.core) && m.core.stage.Trap? && m.core.trapStage.Handle?
    ensures Tick(m, input) ==
            Running(m.(core := m.core.(trapStage := Exit, cycle := (m.core.cycle + 1) % U64_LIMIT)))
  {
    hide Cycle, FetchCycle, DecodeCycle, ExecuteCycle, MemoryCycle, WritebackCycle, HandleTrap, Csr.Low;
    Pipeline.CycleOfStage(m, input.junk);
  }

  lemma ExitTurn(m: Machine, input: Input)
    requires m.Valid() && Sound(m.core) && m.core.stage.Trap? && m.core.trapStage.Exit?
    ensures Tick(m, input).Running?
    ensures var m' := Tick(m, input).m;
            && m'.core.stage.Fetch? && m'.core.trapStage.Idle? && m'.core.prefetched == 0
            && m'.core.pc == Words.Plus(m.core.pc, 4) && m'.core.regs == m.core.trapRegs && m'.bus == m.bus
  {
    hide Cycle, FetchCycle, DecodeCycle, ExecuteCycle, MemoryCycle, WritebackCycle, HandleTrap, Csr.Low, Words.Plus;
    Pipeline.CycleOfStage(m, input.junk);
  }

  /** The registers as the handler leaves them. */
  function Answered(regs: seq<Word>, a0: Option<Word>): seq<Word>
    requires |regs| == Decoder.REG_COUNT
  {
    if a0.Some? then regs[A0 := a0.value] else regs
  }

  /** Register 10 holds the answer, if there is one, and every other register its old value. */
  predicate Resumed(regs: seq<Word>, answer: Option<Word>, regs': seq<Word>) {
    && |regs| == |regs'| == 32
    && forall k :: 0 <= k < 32 ==> regs'[k] == if k == 10 && answer.Some? then answer.value else regs[k]
  }

  lemma AnsweredResumes(regs: seq<Word>, answer: Option<Word>)
    requires |regs| == Decoder.REG_COUNT
    ensures Resumed(regs, answer, Answered(regs, answer))
  {
  }

  /** The trap was caused by an environment call. */
  predicate Calls(c: CoreImage)
    requires c.Valid()
  {
    Csr.Low(c.csr[0x342]) == 8
  }

  /** A system call that goes on changes only what it answers and what it does to memory. */
  lemma CallGoesOn(h: Machine, response: Response)
    requires h.Valid() && Sound(h.core) && AtHandler(h) && Calls(h.core)
    requires response.goOn && History.Run(h.bus.ram, response.ops).Returns?
    ensures HandleTrap(h, response).Running?
    ensures var a := HandleTrap(h, response).m;
            && Sound(a.core) && a.core.stage.Trap? && a.core.trapStage.Handle? && a.core.pc == h.core.pc
            && a.core.trapRegs == Answered(h.core.trapRegs, response.a0)
            && a.bus == h.bus.(ram := History.Run(h.bus.ram, response.ops).value, flags := a.bus.flags)
            && a.bus.flags == h.bus.flags.(mmu := History.StatusAfter(h.bus.ram, response.ops, h.bus.flags.mmu))
  {
    hide History.Run, Csr.Low, Csr.Clear32, Sound;
    HandlerSound(h, response);
  }

  /** Three turns take a machine about to enter an environment call through its handler and
      back to the next instruction: the handler's operations apply to memory, its answer to
      register 10, and everything else the program can see is as it was when the trap was caused. */
  lemma TrapRoundTrip(m: Machine, i: Input, j: Input, k: Input)
    requires m.Valid() && Sound(m.core) && m.core.stage.Trap? && m.core.trapStage.Enter? && Calls(m.core)
    requires i.response.goOn && History.Run(m.bus.ram, i.response.ops).Returns?
    ensures RunLoop(Running(m), [i, j, k]).Running?
    ensures var m' := RunLoop(Running(m), [i, j, k]).m;
            && m'.core.stage.Fetch? && m'.core.prefetched == 0
            && m'.core.pc == Words.Plus(m.core.pc, 4)
            && Resumed(m.core.regs, i.response.a0, m'.core.regs)
            && m'.bus == m.bus.(ram := History.Run(m.bus.ram, i.response.ops).value, flags := m'.bus.flags)
  {
    hide Cycle, Tick, HandleTrap, History.Run, Words.Plus, Csr.Low, Sound, Answered, Resumed;
    AnsweredResumes(m.core.regs, i.response.a0);
    EnterTurn(m, i);
    CycleSound(m, i.junk);
    var h := Cycle(m, i.junk).value;
    CallGoesOn(h, i.response);
    var a := HandleTrap(h, i.response).m;
    HandleTurn(a, j);
    TickSound(a, j);
    var b := Tick(a, j).m;
    ExitTurn(b, k);
    assert [i, j, k][1..] == [j, k] && [j, k][1..] == [k] && [k][1..] == [];
    assert RunLoop(Running(m), [i, j, k]) == RunLoop(Running(a), [j, k]);
    assert RunLoop(Running(a), [j, k]) == RunLoop(Running(b), [k]);
    assert RunLoop(Running(b), [k]) == RunLoop(Tick(b, k), []);
  }

  lemma OtherCausesStop(h: Machine, response: Response)
    requires h.Valid() && !Calls(h.core)
    ensures HandleTrap(h, response).Stopped?
    ensures Untouched(h, HandleTrap(h, response).m) && HandleTrap(h, response).m.bus == h.bus
  {
    hide SystemCall, Csr.Low, Csr.Clear32;
  }

  /** Any other trap stops the machine at the instruction that caused it, with nothing changed. */
  lemma OtherTrapsStop(m: Machine, i: Input)
    requires m.Valid() && Sound(m.core) && m.core.stage.Trap? && m.core.trapStage.Enter? && !Calls(m.core)
    ensures var s := RunLoop(Running(m), [i]);
            s.Stopped? && Untouched(m, s.m) && s.m.bus == m.bus
  {
    hide Cycle, Tick, HandleTrap, Csr.Low, Sound;
    EnterTurn(m, i);
    OtherCausesStop(Cycle(m, i.junk).value, i.response);
    assert [i][1..] == [];
    assert RunLoop(Running(m), [i]) == RunLoop(Tick(m, i), []);
  }

  /** The run has ended in a call: it crashed where an assertion of the call failed, and
      stopped otherwise, at the call, with what the call did to memory. */
  predicate Ended(m: Machine, response: Response, s: RunState)
    requires m.Valid()
  {
    match History.Run(m.bus.ram, response.ops)
    case Halts => s.Crashed?
    case Returns(ram) => s.Stopped? && s.m.core.pc == m.core.pc && s.m.core.regs == m.core.regs && s.m.bus.ram == ram
  }

  lemma RefusedHandlerEnds(h: Machine, response: Response)
    requires h.Valid() && Calls(h.core)
    requires !response.goOn || History.Run(h.bus.ram, response.ops).Halts?
    ensures Ended(h, response, HandleTrap(h, response))
  {
    hide History.Run, Csr.Low, Csr.Clear32;
  }

  /** A system call that fails an assertion or does not go on ends the run. */
  lemma RefusedCallEnds(m: Machine, i: Input)
    requires m.Valid() && Sound(m.core) && m.core.stage.Trap? && m.core.trapStage.Enter? && Calls(m.core)
    requires !i.response.goOn || History.Run(m.bus.ram, i.response.ops).Halts?
    ensures Ended(m, i.response, RunLoop(Running(m), [i]))
  {
    hide Cycle, Tick, HandleTrap, Csr.Low, Sound, History.Run;
    EnterTurn(m, i);
    RefusedHandlerEnds(Cycle(m, i.junk).value, i.response);
    assert [i][1..] == [];
    assert RunLoop(Running(m), [i]) == RunLoop(Tick(m, i), []);
  }

  /** Whatever word is fetched, if its instruction traps then either it is an environment
      call, and the program resumes after it with the registers and the memory it had before
      it except for the handler's answer in register 10 and the handler's own operations, or the
      call does not go on and the run ends at it; or it is another trap, and the machine stops
      with the pc at that instruction and the registers and memory of before. */
  lemma TrapsArePrecise(m: Machine, junk: Byte, i: Input, j: Input, k: Input)
    requires m.Valid() && Sound(m.core) && m.core.stage.Fetch?
    requires Pipeline.Issue(m, junk).Returns? && Pipeline.Issue(m, junk).value.core.stage.Trap?
    ensures var t := Pipeline.Issue(m, junk).value;
            if !Calls(t.core) then
              var s := RunLoop(Running(t), [i]);
              s.Stopped? && Untouched(m, s.m)
            else if i.response.goOn && History.Run(m.bus.ram, i.response.ops).Returns? then
              var s := RunLoop(Running(t), [i, j, k]);
              && s.Running? && s.m.core.stage.Fetch?
              && s.m.core.pc == Words.Plus(m.core.pc, 4)
              && Resumed(m.core.regs, i.response.a0, s.m.core.regs)
              && s.m.bus.ram == History.Run(m.bus.ram, i.response.ops).value
            else Ended(m, i.response, RunLoop(Running(t), [i]))
  {
    hide RunLoop, History.Run, Words.Plus, Sound, Calls;
    TrapTouchesNothing(m, junk, 5);
    var t := Pipeline.Issue(m, junk).value;
    if !Calls(t.core) {
      OtherTrapsStop(t, i);
    } else if i.response.goOn && History.Run(m.bus.ram, i.response.ops).Returns? {
      TrapRoundTrip(t, i, j, k);
    } else {
      RefusedCallEnds(t, i);
    }
  }
}
