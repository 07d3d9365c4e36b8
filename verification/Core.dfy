/** The five-stage core with its prefetch buffer and trap states (src/cpu.c), and the loop
    that drives it (src/emulator.c), as functions on machine states. */
module Core {
  import opened Words
  import opened Mmu
  import opened Bus
  import opened Decoder
  import Csr
  import History

  const PREFETCH_SIZE: nat := 8

  datatype Stage = Fetch | Decode | Execute | Memory | Writeback | Trap

  datatype TrapStage = Idle | Enter | Handle | Exit

  /** core_t. buffer[0] is the instruction field and the rest of buffer is the prefetch
      array that follows it; the length of buffer is PREFETCH_SIZE. */
  datatype CoreImage = CoreImage(
    stage: Stage, buffer: seq<Word>, decoded: Decoded, pc: Word, aluOut: Word, regs: seq<Word>,
    cycle: nat, csr: seq<bv64>, trapPc: Word, trapRegs: seq<Word>, prefetched: nat, trapStage: TrapStage)
  {
    predicate Valid() {
      && 1 <= |buffer| <= 16
      && prefetched < |buffer|
      && |regs| == REG_COUNT && |trapRegs| == REG_COUNT
      && |csr| == Csr.CSR_COUNT
      && cycle < U64_LIMIT
    }
  }

  /** A core and the bus it is attached to. */
  datatype Machine = Machine(core: CoreImage, bus: BusImage) {
    predicate Valid() { core.Valid() && bus.Valid() }
  }

  /** cpu_init followed by core_init, for a given prefetch depth. */
  function InitialCore(depth: nat, pc: Word): CoreImage
    requires 1 <= depth <= 16
  {
    CoreImage(Fetch, Fill(depth, 0), CLEARED, pc, 0, Fill(REG_COUNT, 0), 0, Fill(Csr.CSR_COUNT, 0), 0,
              Fill(REG_COUNT, 0), 0, Idle)
  }

  /** A new core is at the boundary before its first instruction: all registers are zero, the
      control and status registers too, and nothing is fetched ahead. */
  lemma NewCore(depth: nat, pc: Word)
    requires 1 <= depth <= 16
    ensures var c := InitialCore(depth, pc);
            && c.Valid() && c.stage.Fetch? && c.trapStage.Idle? && c.pc == pc && c.cycle == 0
            && c.prefetched == 0 && |c.buffer| == depth && |c.regs| == 32 && |c.csr| == 0x1000
            && (forall k :: 0 <= k < 32 ==> c.regs[k] == 0 && c.trapRegs[k] == 0)
            && (forall k :: 0 <= k < 0x1000 ==> c.csr[k] == 0)
            && !c.decoded.isJump && !c.decoded.writeRd && !c.decoded.readMem && !c.decoded.writeMem
  {
  }

  /** cause_trap */
  function CauseTrap(c: CoreImage, cause: Word): CoreImage
    requires c.Valid()
  {
    c.(stage := Trap, trapStage := Enter, csr := Csr.Write32(c.csr, Csr.MCAUSE, cause))
  }

  // ----- the stages -----

  /** Four bytes of a block read, as the word the host sees. */
  function WordAt(bytes: seq<Byte>, k: nat): Word
    requires 4 * k + 4 <= |bytes|
  {
    Compose(bytes[4 * k..4 * k + 4])
  }

  /** n words out of a block of bytes. */
  function WordsOf(bytes: seq<Byte>, n: nat): (ws: seq<Word>)
    requires |bytes| == 4 * n
    ensures |ws| == n
    ensures forall k :: 0 <= k < n ==> ws[k] == WordAt(bytes, k)
  {
    seq(n, k requires 0 <= k < n => WordAt(bytes, k))
  }

  /** fetch: refill the whole buffer from memory when it is empty, and serve its next word
      otherwise. A refill that fails ends in a failed assertion. */
  function FetchStage(m: Machine): (r: Outcome<Machine>)
    requires m.Valid()
    ensures r.Returns? ==> r.value.Valid()
  {
    hide ReadMultiple, ToNat, WordAt;
    var depth := |m.core.buffer|;
    if m.core.prefetched == 0 then
      match ReadMultiple(m.bus, ToNat(m.core.pc), depth, WORD)
      case Halts => Halts
      case Returns(got) =>
        if got.count != depth then Halts
        else Returns(Machine(m.core.(buffer := WordsOf(got.bytes, depth), prefetched := depth - 1), got.bus))
    else
      Returns(m.(core := m.core.(buffer := m.core.buffer[0 := m.core.buffer[depth - m.core.prefetched]],
                                 prefetched := m.core.prefetched - 1)))
  }

  /** decode */
  function DecodeStage(c: CoreImage): (r: CoreImage)
    requires c.Valid()
    ensures r.Valid()
  {
    var c' := c.(decoded := DecodeWord(c.buffer[0], c.regs, c.decoded));
    if c'.decoded.optype.Unknown? then CauseTrap(c', ILLEGAL_INSTRUCTION) else c'
  }

  /** execute */
  function ExecuteStage(c: CoreImage): (r: Outcome<CoreImage>)
    requires c.Valid()
    ensures r.Returns? ==> r.value.Valid()
  {
    var e := Decoder.Execute(c.decoded, c.pc, c.aluOut);
    var c' := c.(decoded := e.dec, aluOut := e.aluOut);
    match e.effect
    case Proceed => Returns(c')
    case RaiseTrap(cause) => Returns(CauseTrap(c', cause))
    case AssertFails => Halts
  }

  function LoadFault(s: BusStatus): Word {
    match s
    case ReadMisaligned => LOAD_ADDR_MISALIGNED
    case AddressNotFound => LOAD_ACCESS_FAULT
    case _ => LOAD_PAGE_FAULT
  }

  function StoreFault(s: BusStatus): Word {
    match s
    case WriteMisaligned => STORE_ADDR_MISALIGNED
    case AddressNotFound => STORE_ACCESS_FAULT
    case _ => STORE_PAGE_FAULT
  }

  /** The causes that the memory stage gives to the statuses of the bus. */
  lemma FaultCauses(s: BusStatus)
    ensures LoadFault(s) == if s.ReadMisaligned? then 4 else if s.AddressNotFound? then 5 else 13
    ensures StoreFault(s) == if s.WriteMisaligned? then 6 else if s.AddressNotFound? then 7 else 15
  {
  }

  /** memory_access; junk is what an uninitialised byte on the host's stack holds. */
  function MemoryStage(m: Machine, junk: Byte): (r: Outcome<Machine>)
    requires m.Valid()
    ensures r.Returns? ==> r.value.Valid()
  {
    var dec := m.core.decoded;
    if dec.readMem then
      match ReadSingle(m.bus, ToNat(dec.memOffset), dec.width, junk)
      case Halts => Halts
      case Returns(got) =>
        var c := m.core.(aluOut := got.value);
        var s := got.bus.flags.bus;
        Returns(Machine(if s != BusOk then CauseTrap(c, LoadFault(s)) else c, got.bus))
    else if dec.writeMem then
      match WriteSingle(m.bus, ToNat(dec.memOffset), m.core.aluOut, dec.width)
      case Halts => Halts
      case Returns(bus') =>
        var s := bus'.flags.bus;
        Returns(Machine(if s != BusOk then CauseTrap(m.core, StoreFault(s)) else m.core, bus'))
    else Returns(m)
  }

  /** writeback */
  function WritebackStage(c: CoreImage): (r: CoreImage)
    requires c.Valid()
    ensures r.Valid()
  {
    var dec := c.decoded;
    c.(regs := if dec.writeRd then RegWrite(c.regs, dec.rd, c.aluOut) else c.regs,
       pc := if dec.isJump then dec.jumpTarget else Plus(c.pc, 4),
       prefetched := if dec.isJump then 0 else c.prefetched)
  }

  /** trap */
  function TrapStep(c: CoreImage): (r: Outcome<CoreImage>)
    requires c.Valid()
    ensures r.Returns? ==> r.value.Valid()
  {
    match c.trapStage
    case Idle => Halts
    case Enter =>
      Returns(c.(trapRegs := c.regs, prefetched := 0, trapPc := c.pc,
                 csr := Csr.Write32(c.csr, Csr.MEPC, c.pc), stage := Trap, trapStage := Handle))
    case Handle => Returns(c.(trapStage := Exit))
    case Exit =>
      Returns(c.(regs := c.trapRegs, pc := Plus(Csr.Low(c.csr[Csr.MEPC]), 4),
                 csr := Csr.Clear32(c.csr, Csr.MEPC, 0),
                 trapStage := Idle, stage := Fetch, prefetched := 0))
  }

  /** The tail of the _stage macro: count the cycle and move on unless a trap was caused. */
  function Advance(c: CoreImage, next: Stage): (r: CoreImage)
    requires c.Valid()
    ensures r.Valid()
  {
    c.(cycle := (c.cycle + 1) % U64_LIMIT, stage := if c.stage.Trap? then Trap else next)
  }

  // ----- one cycle in each stage -----

  function FetchCycle(m: Machine): (r: Outcome<Machine>)
    requires m.Valid()
    ensures r.Returns? ==> r.value.Valid()
  {
    match FetchStage(m) case Halts => Halts case Returns(m') => Returns(m'.(core := Advance(m'.core, Decode)))
  }

  function DecodeCycle(m: Machine): (r: Outcome<Machine>)
    requires m.Valid()
    ensures r.Returns? ==> r.value.Valid()
  {
    Returns(m.(core := Advance(DecodeStage(m.core), Execute)))
  }

  function ExecuteCycle(m: Machine): (r: Outcome<Machine>)
    requires m.Valid()
    ensures r.Returns? ==> r.value.Valid()
  {
    match ExecuteStage(m.core) case Halts => Halts case Returns(c) => Returns(m.(core := Advance(c, Memory)))
  }

  function MemoryCycle(m: Machine, junk: Byte): (r: Outcome<Machine>)
    requires m.Valid()
    ensures r.Returns? ==> r.value.Valid()
  {
    match MemoryStage(m, junk) case Halts => Halts case Returns(m') => Returns(m'.(core := Advance(m'.core, Writeback)))
  }

  function WritebackCycle(m: Machine): (r: Outcome<Machine>)
    requires m.Valid()
    ensures r.Returns? ==> r.value.Valid()
  {
    Returns(m.(core := Advance(WritebackStage(m.core), Fetch)))
  }

  function TrapCycle(m: Machine): (r: Outcome<Machine>)
    requires m.Valid()
    ensures r.Returns? ==> r.value.Valid()
  {
    match TrapStep(m.core) case Halts => Halts case Returns(c) => Returns(m.(core := Advance(c, Fetch)))
  }

  /** core_cycle */
  function Cycle(m: Machine, junk: Byte): (r: Outcome<Machine>)
    requires m.Valid()
    ensures r.Returns? ==> r.value.Valid()
  {
    match m.core.stage
    case Fetch => FetchCycle(m)
    case Decode => DecodeCycle(m)
    case Execute => ExecuteCycle(m)
    case Memory => MemoryCycle(m, junk)
    case Writeback => WritebackCycle(m)
    case Trap => TrapCycle(m)
  }

  // ----- the run loop -----

  /** What a system call does: operations on the MMU, possibly a result in the saved
      register a0, and whether the core goes on. */
  datatype Response = Response(ops: seq<History.Op>, a0: Option<Word>, goOn: bool)

  /** What one turn of the loop takes from outside. */
  datatype Input = Input(junk: Byte, response: Response)

  datatype RunState = Running(m: Machine) | Stopped(m: Machine) | Crashed {
    predicate Valid() { !Crashed? ==> m.Valid() }
  }

  const A0: nat := 10

  /** handle_umode_call, for whatever the host does. */
  function SystemCall(m: Machine, r: Response): (s: RunState)
    requires m.Valid()
    ensures s.Valid()
  {
    match History.Run(m.bus.ram, r.ops)
    case Halts => Crashed
    case Returns(ram) =>
      var core := if r.a0.Some? then m.core.(trapRegs := m.core.trapRegs[A0 := r.a0.value]) else m.core;
      var status := History.StatusAfter(m.bus.ram, r.ops, m.bus.flags.mmu);
      var m' := Machine(core, m.bus.(ram := ram, flags := m.bus.flags.(mmu := status)));
      if r.goOn then Running(m') else Stopped(m')
  }

  /** trap_handler: it reads mcause and mepc by clearing nothing in them, and only an
      environment call goes on to a system call. */
  function HandleTrap(m: Machine, r: Response): (s: RunState)
    requires m.Valid()
    ensures s.Valid()
  {
    var cause := Csr.Low(m.core.csr[Csr.MCAUSE]);
    var csr := Csr.Clear32(Csr.Clear32(m.core.csr, Csr.MCAUSE, 0), Csr.MEPC, 0);
    var m' := m.(core := m.core.(csr := csr));
    if cause == ENV_CALL_UMODE then SystemCall(m', r) else Stopped(m')
  }

  /** The loop calls the trap handler after this cycle. */
  predicate AtHandler(m: Machine) { m.core.stage.Trap? && m.core.trapStage.Handle? }

  /** One turn of the loop of cpu_thread. */
  function Tick(m: Machine, input: Input): (s: RunState)
    requires m.Valid()
    ensures s.Valid()
  {
    match Cycle(m, input.junk)
    case Halts => Crashed
    case Returns(m') => if AtHandler(m') then HandleTrap(m', input.response) else Running(m')
  }

  /** cpu_thread, for as many turns as there are inputs. */
  function RunLoop(s: RunState, inputs: seq<Input>): (r: RunState)
    requires s.Valid()
    ensures r.Valid()
    decreases |inputs|
  {
    if inputs == [] || !s.Running? then s else RunLoop(Tick(s.m, inputs[0]), inputs[1..])
  }
}
