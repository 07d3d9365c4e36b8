/** Prefetch is invisible over whole runs, traps and handlers included. */
module PrefetchRuns {
  import opened Words
  import opened Mmu
  import opened Bus
  import opened Core
  import opened Conformance
  import opened Prefetch
  import Decoder
  import Csr
  import BusLaws
  import History
  import Pipeline

  /** No turn of the run stores into the words its core has fetched ahead. */
  predicate SafeRun(s: RunState, inputs: seq<Input>)
    requires s.Valid()
    decreases |inputs|
  {
    inputs == [] || !s.Running? || (!Overwrites(s.m) && SafeRun(Tick(s.m, inputs[0]), inputs[1..]))
  }

  /** Two run states are alike, the second one without prefetch. */
  predicate Alike(s: RunState, t: RunState) {
    match s
    case Running(m) => t.Running? && Matches(m, t.m)
    case Stopped(m) => t.Stopped? && Matches(m, t.m)
    case Crashed => t.Crashed?
  }

  lemma HandlerKeepsPlace(m: Machine, response: Response)
    requires m.Valid() && Flat(m.bus) && HandleTrap(m, response).Running?
    ensures Flat(HandleTrap(m, response).m.bus)
    ensures HandleTrap(m, response).m.core.(trapRegs := m.core.trapRegs, csr := m.core.csr) == m.core
  {
    hide History.Run, Csr.Low, Csr.Clear32;
  }

  lemma HandlersMatch(m: Machine, r: Machine, response: Response)
    requires Matches(m, r)
    ensures Alike(HandleTrap(m, response), HandleTrap(r, response))
  {
    hide History.Run, Csr.Low, Csr.Clear32;
  }

  /** One turn of the loop takes matching cores to matching cores. */
  lemma TicksMatch(m: Machine, r: Machine, input: Input)
    requires Coherent(m) && Matches(m, r) && !Tick(m, input).Crashed?
    ensures Alike(Tick(m, input), Tick(r, input))
    ensures !Overwrites(m) && Tick(m, input).Running? ==> Coherent(Tick(m, input).m)
  {
    hide Cycle, Overwrites, HandleTrap, Ahead, Current, ToNat;
    CycleMatches(m, r, input.junk);
    var m' := Cycle(m, input.junk).value;
    var r' := Cycle(r, input.junk).value;
    if AtHandler(m') {
      HandlersMatch(m', r', input.response);
      if !Overwrites(m) && HandleTrap(m', input.response).Running? {
        HandlerKeepsPlace(m', input.response);
      }
    }
  }

  /** For every sequence of inputs: if the run does not crash, and no turn of it changes a
      word that has been fetched ahead, then the core without prefetch makes the same run,
      state for state; in particular the handler finds the same registers, pc and memory
      each time it is called, and whatever it writes to memory is never fetched from a stale
      buffer. */
  lemma {:induction false} PrefetchIsInvisible(m: Machine, r: Machine, inputs: seq<Input>)
    requires Coherent(m) && Matches(m, r)
    requires SafeRun(Running(m), inputs) && !RunLoop(Running(m), inputs).Crashed?
    ensures Alike(RunLoop(Running(m), inputs), RunLoop(Running(r), inputs))
    ensures RunLoop(Running(m), inputs).Running? ==> Coherent(RunLoop(Running(m), inputs).m)
    decreases |inputs|
  {
    hide Tick, Overwrites, Ahead, Current, Flat;
    if inputs != [] {
      var s := Tick(m, inputs[0]);
      CrashIsFinal(s, inputs[1..]);
      TicksMatch(m, r, inputs[0]);
      if s.Running? {
        PrefetchIsInvisible(s.m, Tick(r, inputs[0]).m, inputs[1..]);
      }
    }
  }

  lemma CrashIsFinal(s: RunState, inputs: seq<Input>)
    requires s.Valid()
    ensures s.Crashed? ==> RunLoop(s, inputs).Crashed?
  {
  }

  /** Conversely, once a word fetched ahead differs from readable memory, and the core comes
      to fetch it, the two cores part. */
  lemma StaleFetchParts(m: Machine, r: Machine, junk: Byte)
    requires Matches(m, r) && Flat(m.bus) && m.core.stage.Fetch? && 0 < m.core.prefetched
    requires Readable(m.bus.ram, ToNat(m.core.pc), 4)
    requires m.core.buffer[|m.core.buffer| - m.core.prefetched] != WordInMemory(m.bus.ram, ToNat(m.core.pc))
    ensures Cycle(m, junk).Returns? && Cycle(r, junk).Returns?
    ensures !Matches(Cycle(m, junk).value, Cycle(r, junk).value)
  {
    hide Cycle, FetchStage, ToNat, WordInMemory, Readable;
    Pipeline.CycleOfStage(m, junk);
    Pipeline.CycleOfStage(r, junk);
    ReferenceFetch(r);
    ServedWord(m);
  }

  lemma ServedWord(m: Machine)
    requires m.Valid() && 0 < m.core.prefetched
    ensures FetchStage(m).Returns?
    ensures FetchStage(m).value.core.buffer[0] == m.core.buffer[|m.core.buffer| - m.core.prefetched]
  {
  }

  // ----- the emulator's own set-up -----

  const RAM_START: nat := 0x1_0000
  const RAM_SIZE: nat := 0x7_ffff - RAM_START
  const CSR_BASE: nat := 0x7_ffff + 640 * 480 * 4

  const DEVICES: seq<Device> := [
    Device(Ram, RAM_START, RAM_SIZE, true, true),
    Device(CsrWindow, CSR_BASE, 0x1000, true, true)]

  /** The bus of emulator_init over an MMU of the given contents. */
  function EmulatorBus(ram: Image): BusImage {
    BusImage(DEVICES, ram, false, Flags(BusOk, MmuOk, [Ready, Ready]))
  }

  /** What answers at each address of the emulator: RAM from 0x10000 up to the byte before
      0x7ffff, the CSR window in the 4096 bytes from 0x1abfff on, and nothing elsewhere. */
  lemma AddressMap(a: nat)
    ensures FindDevice(DEVICES, a)
            == if 0x1_0000 <= a < 0x7_ffff then Some(0)
               else if 0x1a_bfff <= a < 0x1a_cfff then Some(1)
               else None
    ensures DEVICES[0].kind.Ram? && DEVICES[0].writable && DEVICES[1].kind.CsrWindow?
  {
    assert DEVICES[0].Valid() && DEVICES[1].Valid();
    BusLaws.FindExactly(DEVICES, a);
  }

  /** A core that is about to run on the emulator's bus is coherent, and matches the core
      without prefetch, whatever the loader and the stack set-up put in memory and registers. */
  lemma BootIsCoherent(ram: Image, depth: nat, pc: Word, regs: seq<Word>)
    requires ram.Valid() && ram.base == RAM_START && ram.size == RAM_SIZE
    requires 1 <= depth <= 16 && |regs| == Decoder.REG_COUNT
    ensures var m := Machine(InitialCore(depth, pc).(regs := regs), EmulatorBus(ram));
            var r := Machine(InitialCore(1, pc).(regs := regs), EmulatorBus(ram));
            Coherent(m) && Matches(m, r)
  {
    hide ToNat;
    forall a | RAM_START <= a < RAM_START + RAM_SIZE
      ensures BusLaws.ServedByRam(DEVICES, a)
    {
      assert DEVICES[0].Holds(a);
    }
  }
}
