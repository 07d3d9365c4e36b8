/** Programs that run: machines that meet the conditions of the program theorem, and machines
    that deviate from the manual. */
module Samples {
  import opened Words
  import opened Mmu
  import opened Bus
  import opened Core
  import opened Decoder
  import opened Pipeline
  import opened Conformance
  import opened Prefetch
  import opened ProgramRuns
  import opened Readiness
  import BusLaws
  import Csr
  import Isa
  import Traps

  // ----- what an instruction leaves readable -----

  /** Nothing but bytes and permissions of the memory have changed on the bus, no byte has
      become unreadable, and the prefetch depth is the same. */
  predicate Keeps(m: Machine, m': Machine)
    requires m.Valid() && m'.Valid()
  {
    && |m'.core.buffer| == |m.core.buffer|
    && m'.bus == m.bus.(ram := m'.bus.ram, flags := m'.bus.flags)
    && m'.bus.ram.base == m.bus.ram.base && m'.bus.ram.size == m.bus.ram.size
    && forall k :: 0 <= k < m.bus.ram.size && m.bus.ram.perm[k].read ==> m'.bus.ram.perm[k].read
  }

  lemma FetchCycleKeeps(m: Machine)
    requires m.Valid() && FetchCycle(m).Returns?
    ensures Keeps(m, FetchCycle(m).value)
  {
    hide FetchStage;
    FetchKeeps(m);
  }

  lemma MemoryCycleKeeps(m: Machine, junk: Byte)
    requires m.Valid() && Flat(m.bus) && m.core.stage.Memory? && MemoryCycle(m, junk).Returns?
    ensures Keeps(m, MemoryCycle(m, junk).value)
  {
    hide MemoryCycle, ReadSingle, WriteSingle, ToNat, LoadFault, StoreFault, BusLaws.ServedByRam, Write, Decompose;
    var d := m.core.decoded;
    if d.readMem {
      LoadCycle(m, junk);
      Prefetch.LoadIgnoresFlags(m.bus, m.bus, ToNat(d.memOffset), d.width, junk);
    } else if d.writeMem {
      StoreCycle(m, junk);
      StoreEffect(m.bus, ToNat(d.memOffset), m.core.aluOut, d.width);
    } else {
      PassKeeps(m, junk);
    }
  }

  lemma PassKeeps(m: Machine, junk: Byte)
    requires m.Valid() && m.core.stage.Memory? && !m.core.decoded.readMem && !m.core.decoded.writeMem
    ensures MemoryCycle(m, junk).Returns? && Keeps(m, MemoryCycle(m, junk).value)
  {
  }

  lemma CycleKeeps(m: Machine, junk: Byte)
    requires m.Valid() && Flat(m.bus) && Cycle(m, junk).Returns?
    ensures Keeps(m, Cycle(m, junk).value) && Flat(Cycle(m, junk).value.bus)
  {
    hide Cycle, FetchCycle, MemoryCycle, DecodeWord, Decoder.Execute, RegWrite, Plus, Csr.Write32, Csr.Clear32, Csr.Low;
    hide BusLaws.ServedByRam;
    CycleOfStage(m, junk);
    match m.core.stage {
      case Fetch => FetchCycleKeeps(m);
      case Decode =>
      case Execute =>
      case Memory => MemoryCycleKeeps(m, junk);
      case Writeback =>
      case Trap =>
    }
  }

  lemma {:induction false} UntilKeeps(m: Machine, junk: Byte, n: nat)
    requires m.Valid() && Flat(m.bus) && Until(m, junk, n).Returns?
    ensures Keeps(m, Until(m, junk, n).value)
    decreases n
  {
    hide Cycle, Flat;
    if n != 0 {
      CycleKeeps(m, junk);
      if !AtBoundary(Cycle(m, junk).value) {
        UntilKeeps(Cycle(m, junk).value, junk, n - 1);
      }
    }
  }

  lemma ReadableStays(m: Machine, m': Machine, a: nat, n: nat)
    requires m.Valid() && m'.Valid() && Keeps(m, m') && Readable(m.bus.ram, a, n)
    ensures Readable(m'.bus.ram, a, n)
  {
  }

  /** After an instruction that retires, the machine is at the next fetch, on the hart that
      the step leaves, and with all that was readable. */
  lemma InstructionDone(m: Machine, junk: Byte, i: Isa.Instr)
    requires AtFetch(m) && AtSight(m, Executes(i))
    ensures var m' := After(m, junk, Executes(i));
            && AtFetch(m') && Keeps(m, m')
            && Isa.Step(HartOf(m), i, EnvironmentOf(m.bus.ram)) == Isa.Retire(HartOf(m'))
  {
    hide AtSight, ProgramRuns.Ready, Traps.Sound, Ahead, Current, Flat, HartOf, EnvironmentOf, Isa.Step, CyclesUntil;
    hide RunLoop, Until, StepHart, Observed, Keeps;
    var e := Executes(i);
    ReadyAtSight(m, junk, e);
    IssueConforms(m, junk, e);
    InstructionTurns(m, junk, e);
    EventsConform(m, junk, e);
    InstructionSteps(m, junk, e);
    RetiresAtSight(m, i);
    UntilKeeps(m, junk, 5);
  }

  lemma RetiresAtSight(m: Machine, i: Isa.Instr)
    requires m.Valid() && AtSight(m, Executes(i))
    ensures Isa.Step(HartOf(m), i, EnvironmentOf(m.bus.ram)).Retire?
  {
    hide HartOf, EnvironmentOf, Isa.Step, Isa.Encodable, FetchesFromMemory, Readable, Misses, Deviates, ToNat;
  }

  // ----- programs in memory -----

  const READ_WRITE := MPERM_READ.Or(MPERM_WRITE)

  /** Byte k of a program. */
  function ProgramByte(words: seq<Word>, k: nat): Byte {
    if k / 4 < |words| then ByteOf(words[k / 4], k % 4) else 0
  }

  /** Readable and writable memory from address 0 on that starts with a program. */
  function ProgramMemory(words: seq<Word>, size: nat): (img: Image)
    ensures img.Valid()
  {
    Image(0, size, 0, seq(size, k requires 0 <= k < size => ProgramByte(words, k)), Fill(size, READ_WRITE),
          Fill(size / DIRTY_PAGE_SIZE + 1, false))
  }

  /** A core at address 0 of it, with given registers. */
  function ProgramMachine(words: seq<Word>, size: nat, x: seq<Word>): (m: Machine)
    requires size < U32_LIMIT && |x| == REG_COUNT
    ensures m.Valid()
  {
    Machine(InitialCore(PREFETCH_SIZE, 0).(regs := x),
            BusImage([Device(Ram, 0, size, true, true)], ProgramMemory(words, size), false,
                     Flags(BusOk, MmuOk, [DeviceState.Ready])))
  }

  lemma ProgramIsFlat(words: seq<Word>, size: nat)
    requires size < U32_LIMIT
    ensures forall a :: 0 <= a < size ==> BusLaws.ServedByRam([Device(Ram, 0, size, true, true)], a)
  {
    var devices := [Device(Ram, 0, size, true, true)];
    forall a | 0 <= a < size
      ensures BusLaws.ServedByRam(devices, a)
    {
      assert devices[0].Holds(a);
    }
  }

  lemma ProgramAtFetch(words: seq<Word>, size: nat, x: seq<Word>)
    requires size < U32_LIMIT && |x| == REG_COUNT && x[0] == 0
    ensures AtFetch(ProgramMachine(words, size, x))
  {
    hide ToNat, Csr.Low, Current, ProgramMemory, BusLaws.ServedByRam;
    ProgramIsFlat(words, size);
    ProgramPlace(words, size);
  }

  lemma ProgramPlace(words: seq<Word>, size: nat)
    ensures var img := ProgramMemory(words, size); img.base == 0 && img.size == size
  {
  }

  lemma ProgramReadable(words: seq<Word>, size: nat, a: nat, n: nat)
    requires a + n <= size
    ensures Readable(ProgramMemory(words, size), a, n)
  {
  }

  lemma ProgramStorable(words: seq<Word>, size: nat, a: nat, width: Width)
    requires a + width.Bytes() <= size
    ensures Storable(ProgramMemory(words, size), a, width)
  {
  }

  lemma {:induction false} ZeroBits(mask: Word)
    requires IsLowMask(mask)
    ensures BitsValue(0, mask) == 0
    decreases mask
  {
    if mask != 0 {
      LowMaskStep(0, 0, mask);
      ZeroBits(mask >> 1);
    }
  }

  /** The values of the first words. */
  lemma SmallWords()
    ensures ToNat(0) == 0 && ToNat(4) == 4 && ToNat(8) == 8 && ToNat(32) == 32
  {
    ZeroBits(0xffff_ffff);
    assert ToNat(0) == 0;
    hide ToNat;
    AddFour(0);
    AddFour(4);
    AddFour(8);
    AddFour(12);
    AddFour(16);
    AddFour(20);
    AddFour(24);
    AddFour(28);
  }

  // ----- a program with a store and a system call -----

  const STORE := Isa.Store(WORD, 0, 1, 32)
  const NOP := Isa.OpImm(Isa.Addi, 0, 0, 0)

  /** SW x1, 32(x0); NOP; ECALL */
  const PROGRAM: seq<Word> := [0x0210_2023, 0x0000_0013, 0x0000_0073]

  const ANSWER := Response([], Some(42), true)

  const TRACE: seq<Event> := [Executes(STORE), Executes(NOP), Calls(ANSWER)]

  lemma ProgramIsEncoded()
    ensures Isa.Encodable(STORE) && Isa.Encode(STORE) == PROGRAM[0]
    ensures Isa.Encodable(NOP) && Isa.Encode(NOP) == PROGRAM[1]
    ensures Isa.Encodable(Isa.Ecall) && Isa.Encode(Isa.Ecall) == PROGRAM[2]
  {
  }

  lemma BytesOfWord(mem: Isa.Memory, a: nat, w: Word)
    requires a in mem && a + 1 in mem && a + 2 in mem && a + 3 in mem
    requires mem[a] == ByteOf(w, 0) && mem[a + 1] == ByteOf(w, 1)
    requires mem[a + 2] == ByteOf(w, 2) && mem[a + 3] == ByteOf(w, 3)
    ensures Isa.RangeIn(a, 4, mem.Keys) && Compose(Isa.BytesAt(mem, a, WORD)) == w
  {
    hide ByteOf, Compose;
    assert Isa.BytesAt(mem, a, WORD) == Decompose(w, WORD);
    ComposeWord(w);
  }

  /** The memory begins with the program. */
  predicate HoldsProgram(mem: Isa.Memory, words: seq<Word>) {
    forall a :: 0 <= a < 4 * |words| ==> a in mem && mem[a] == ProgramByte(words, a)
  }

  lemma BytesOfProgram(words: seq<Word>, j: nat)
    requires j < |words|
    ensures ProgramByte(words, 4 * j) == ByteOf(words[j], 0) && ProgramByte(words, 4 * j + 1) == ByteOf(words[j], 1)
    ensures ProgramByte(words, 4 * j + 2) == ByteOf(words[j], 2) && ProgramByte(words, 4 * j + 3) == ByteOf(words[j], 3)
  {
    hide ByteOf;
  }

  /** The hart finds instruction j of the program at pc. */
  lemma InstructionIsThere(h: Isa.Hart, words: seq<Word>, j: nat, i: Isa.Instr)
    requires j < |words| && Isa.Encode(i) == words[j] && ToNat(h.pc) == 4 * j && HoldsProgram(h.mem, words)
    ensures FetchesFromMemory(h, i)
  {
    hide ToNat, ByteOf, Isa.Encode, Compose, ProgramByte, Isa.RangeIn, Isa.BytesAt;
    BytesOfProgram(words, j);
    BytesOfWord(h.mem, 4 * j, words[j]);
  }

  lemma ProgramIsHeld(words: seq<Word>, size: nat)
    requires 4 * |words| <= size
    ensures HoldsProgram(MemoryOf(ProgramMemory(words, size)), words)
  {
    hide ProgramByte;
  }

  // ----- the three events -----

  predicate Startable(size: nat, x: seq<Word>) { 64 <= size < U32_LIMIT && |x| == REG_COUNT && x[0] == 0 }

  lemma StoreAtSight(size: nat, x: seq<Word>)
    requires Startable(size, x)
    ensures AtSight(ProgramMachine(PROGRAM, size, x), Executes(STORE))
  {
    hide ToNat, Isa.Encode, Compose, ProgramByte, ProgramMemory, EnvironmentOf, MemoryOf, Isa.RangeIn, Readable;
    hide Storable, FetchesFromMemory;
    var m := ProgramMachine(PROGRAM, size, x);
    SmallWords();
    ProgramIsEncoded();
    ProgramIsHeld(PROGRAM, size);
    InstructionIsThere(HartOf(m), PROGRAM, 0, STORE);
    ProgramReadable(PROGRAM, size, 0, 32);
    ProgramStorable(PROGRAM, size, 32, WORD);
    StorableRange(m.bus.ram, 32, WORD);
    LoadableInside(m.bus.ram);
    assert Plus(0, 32) == 32;
  }

  /** The hart after the store. */
  lemma StoreSteps(h: Isa.Hart, env: Isa.Environment)
    requires |h.x| == 32 && h.pc == 0 && env.loadable <= h.mem.Keys && HoldsProgram(h.mem, PROGRAM)
    requires Isa.Step(h, STORE, env).Retire?
    ensures var h' := Isa.Step(h, STORE, env).hart;
            && h'.pc == 4 && h'.x == h.x && HoldsProgram(h'.mem, PROGRAM)
            && h'.mem == Isa.StoreAt(h.mem, 32, WORD, h.x[1])
  {
    hide ToNat, ByteOf, ProgramByte;
    SmallWords();
    assert Plus(0, 32) == 32 && Plus(0, 4) == 4;
  }

  lemma NopAtSight(m: Machine)
    requires AtFetch(m) && m.core.pc == 4 && |m.core.buffer| == PREFETCH_SIZE
    requires HoldsProgram(HartOf(m).mem, PROGRAM) && Readable(m.bus.ram, 4, 32)
    ensures AtSight(m, Executes(NOP))
    ensures Isa.Step(HartOf(m), NOP, EnvironmentOf(m.bus.ram)) == Isa.Retire(HartOf(m).(pc := 8))
  {
    hide ToNat, Isa.Encode, Compose, ProgramByte, EnvironmentOf, MemoryOf, Isa.RangeIn, Readable, FetchesFromMemory;
    hide Flat, Ahead, Current, Traps.Sound;
    SmallWords();
    ProgramIsEncoded();
    InstructionIsThere(HartOf(m), PROGRAM, 1, NOP);
    LoadableInside(m.bus.ram);
    assert Plus(4, 4) == 8;
  }

  lemma CallAtSight(m: Machine)
    requires AtFetch(m) && m.core.pc == 8 && |m.core.buffer| == PREFETCH_SIZE
    requires HoldsProgram(HartOf(m).mem, PROGRAM) && Readable(m.bus.ram, 8, 32)
    ensures AtSight(m, Calls(ANSWER))
    ensures StepHart(HartOf(m), Calls(ANSWER), MomentOf(m, Calls(ANSWER)))
            == Some(HartOf(m).(pc := 12, x := m.core.regs[10 := 42]))
  {
    hide ToNat, Isa.Encode, Compose, ProgramByte, EnvironmentOf, MemoryOf, Isa.RangeIn, Readable, FetchesFromMemory;
    hide Flat, Ahead, Current, Traps.Sound;
    SmallWords();
    ProgramIsEncoded();
    InstructionIsThere(HartOf(m), PROGRAM, 2, Isa.Ecall);
    LoadableInside(m.bus.ram);
    assert Plus(8, 4) == 12;
  }

  lemma InputsInTurn(m: Machine, junk: Byte, e: Event, rest: seq<Event>)
    requires m.Valid() && LoopThrough(m, junk, e).Running?
    ensures var m' := After(m, junk, e);
            RunLoop(Running(m), AllInputs(m, junk, [e] + rest)) == RunLoop(Running(m'), AllInputs(m', junk, rest))
  {
    hide RunLoop, InputsOf;
    assert ([e] + rest)[1..] == rest;
    RunLoopSplits(Running(m), InputsOf(m, junk, e), AllInputs(After(m, junk, e), junk, rest));
  }

  lemma TraceAtSight(m: Machine, junk: Byte)
    requires m.Valid()
    ensures var m1 := After(m, junk, Executes(STORE));
            var m2 := After(m1, junk, Executes(NOP));
            AtSight(m, Executes(STORE)) && AtSight(m1, Executes(NOP)) && AtSight(m2, Calls(ANSWER)) ==>
              ConductsAtSight(m, junk, TRACE)
  {
    hide AtSight, After;
    var m1 := After(m, junk, Executes(STORE));
    var m2 := After(m1, junk, Executes(NOP));
    assert TRACE[1..] == [Executes(NOP), Calls(ANSWER)];
    assert [Executes(NOP), Calls(ANSWER)][1..] == [Calls(ANSWER)];
    if AtSight(m, Executes(STORE)) && AtSight(m1, Executes(NOP)) && AtSight(m2, Calls(ANSWER)) {
      assert ConductsAtSight(m2, junk, [Calls(ANSWER)]);
      assert ConductsAtSight(m1, junk, [Executes(NOP), Calls(ANSWER)]);
    }
  }

  lemma TraceInTurn(m: Machine, junk: Byte)
    requires m.Valid()
    ensures var m1 := After(m, junk, Executes(STORE));
            var m2 := After(m1, junk, Executes(NOP));
            && LoopThrough(m, junk, Executes(STORE)).Running? && LoopThrough(m1, junk, Executes(NOP)).Running?
            && LoopThrough(m2, junk, Calls(ANSWER)).Running?
            ==> RunLoop(Running(m), AllInputs(m, junk, TRACE)) == Running(After(m2, junk, Calls(ANSWER)))
  {
    hide RunLoop, InputsOf, LoopThrough;
    var m1 := After(m, junk, Executes(STORE));
    var m2 := After(m1, junk, Executes(NOP));
    if LoopThrough(m, junk, Executes(STORE)).Running? && LoopThrough(m1, junk, Executes(NOP)).Running?
       && LoopThrough(m2, junk, Calls(ANSWER)).Running? {
      assert TRACE == [Executes(STORE)] + [Executes(NOP), Calls(ANSWER)];
      assert [Executes(NOP), Calls(ANSWER)] == [Executes(NOP)] + [Calls(ANSWER)];
      assert [Calls(ANSWER)] == [Calls(ANSWER)] + [];
      InputsInTurn(m, junk, Executes(STORE), [Executes(NOP), Calls(ANSWER)]);
      InputsInTurn(m1, junk, Executes(NOP), [Calls(ANSWER)]);
      InputsInTurn(m2, junk, Calls(ANSWER), []);
      var m3 := After(m2, junk, Calls(ANSWER));
      assert AllInputs(m3, junk, []) == [];
      NoInputs(m3);
    }
  }

  lemma NoInputs(m: Machine)
    requires m.Valid()
    ensures RunLoop(Running(m), []) == Running(m)
  {
  }

  /** From its start the machine conducts the trace of the program: the loop stores x1 at 32,
      passes over the NOP, and resumes after the call with the answer in x10. */
  lemma SampleRuns(size: nat, x: seq<Word>, junk: Byte)
    requires Startable(size, x)
    ensures var m := ProgramMachine(PROGRAM, size, x);
            var s := RunLoop(Running(m), AllInputs(m, junk, TRACE));
            && AtFetch(m) && ConductsAtSight(m, junk, TRACE)
            && s.Running? && AtFetch(s.m)
            && HartOf(s.m) == Isa.Hart(12, x[10 := 42], Isa.StoreAt(HartOf(m).mem, 32, WORD, x[1]))
  {
    hide AtSight, StepHart, MomentOf, HartOf, EnvironmentOf, LoopThrough, RunLoop, AllInputs, ConductsAtSight, Isa.Step;
    hide HoldsProgram, Readable, ToNat, Isa.StoreAt, Traps.Sound, Flat, Ahead, Current, Isa.Encode, ProgramMemory;
    var m := ProgramMachine(PROGRAM, size, x);
    ProgramAtFetch(PROGRAM, size, x);
    StoreAtSight(size, x);
    InstructionDone(m, junk, STORE);
    var m1 := After(m, junk, Executes(STORE));
    StartsWithProgram(m, size, x);
    HartIs(m);
    HartIs(m1);
    StoreSteps(HartOf(m), EnvironmentOf(m.bus.ram));
    ProgramReadable(PROGRAM, size, 4, 32);
    ReadableStays(m, m1, 4, 32);
    NopAtSight(m1);
    InstructionDone(m1, junk, NOP);
    var m2 := After(m1, junk, Executes(NOP));
    HartIs(m2);
    ProgramReadable(PROGRAM, size, 8, 32);
    ReadableStays(m, m1, 8, 32);
    ReadableStays(m1, m2, 8, 32);
    CallAtSight(m2);
    CallDone(m2, junk);
    EventRuns(m, junk, Executes(STORE));
    EventRuns(m1, junk, Executes(NOP));
    TraceAtSight(m, junk);
    TraceInTurn(m, junk);
  }

  lemma HartIs(m: Machine)
    requires m.Valid()
    ensures HartOf(m).pc == m.core.pc && HartOf(m).x == m.core.regs && |m.core.regs| == REG_COUNT
  {
  }

  lemma StartsWithProgram(m: Machine, size: nat, x: seq<Word>)
    requires Startable(size, x) && m == ProgramMachine(PROGRAM, size, x)
    ensures HoldsProgram(HartOf(m).mem, PROGRAM) && m.bus.ram == ProgramMemory(PROGRAM, size)
    ensures EnvironmentOf(m.bus.ram).loadable <= HartOf(m).mem.Keys
    ensures |m.core.buffer| == PREFETCH_SIZE && m.core.pc == 0 && m.core.regs == x
  {
    hide ProgramByte, MemoryOf, EnvironmentOf, ProgramMemory, HoldsProgram;
    ProgramIsHeld(PROGRAM, size);
    LoadableInside(m.bus.ram);
  }

  lemma EventRuns(m: Machine, junk: Byte, e: Event)
    requires AtFetch(m) && AtSight(m, e)
    ensures LoopThrough(m, junk, e).Running?
  {
    hide AtSight, Traps.Sound, Flat, Ahead, Current, LoopThrough, StepHart, MomentOf, HartOf;
    ReadyAtSight(m, junk, e);
    EventsConform(m, junk, e);
  }

  lemma CallDone(m: Machine, junk: Byte)
    requires AtFetch(m) && AtSight(m, Calls(ANSWER))
    ensures LoopThrough(m, junk, Calls(ANSWER)).Running? && AtFetch(After(m, junk, Calls(ANSWER)))
    ensures StepHart(HartOf(m), Calls(ANSWER), MomentOf(m, Calls(ANSWER)))
            == Some(HartOf(After(m, junk, Calls(ANSWER))))
  {
    hide AtSight, Traps.Sound, Flat, Ahead, Current, LoopThrough, StepHart, MomentOf, HartOf;
    ReadyAtSight(m, junk, Calls(ANSWER));
    EventsConform(m, junk, Calls(ANSWER));
  }

  // ----- machines that deviate -----

  /** The core runs the instruction alone at address 0, with given registers. */
  function Alone(i: Isa.Instr, x: seq<Word>): (m: Machine)
    requires |x| == REG_COUNT
    ensures m.Valid()
  {
    ProgramMachine([Isa.Encode(i)], 64, x)
  }

  /** Every state that the deviations speak of is reached: for every encodable instruction and
      all registers there is a machine at a fetch that runs it, and that is seen to do what
      the manual says if and only if it does not deviate. */
  lemma AloneConforms(i: Isa.Instr, x: seq<Word>, junk: Byte)
    requires Isa.Encodable(i) && |x| == REG_COUNT && x[0] == 0
    ensures var m := Alone(i, x);
            && AtFetch(m) && m.core.regs == x && FetchesFromMemory(HartOf(m), i)
            && (Observed(m, Issue(m, junk)) == Some(Isa.Step(HartOf(m), i, EnvironmentOf(m.bus.ram)))
                <==> !Deviates(i, x, 0, m.bus))
  {
    hide ToNat, Isa.Encode, Isa.Encodable, ProgramMemory, EnvironmentOf, MemoryOf, Readable, Deviates, Observed, Issue;
    hide Isa.Step, FetchesFromMemory, FetchStage, Ahead, Current, Flat, HoldsProgram, Csr.Low;
    var m := Alone(i, x);
    ProgramAtFetch([Isa.Encode(i)], 64, x);
    SmallWords();
    ProgramIsHeld([Isa.Encode(i)], 64);
    InstructionIsThere(HartOf(m), [Isa.Encode(i)], 0, i);
    ProgramReadable([Isa.Encode(i)], 64, 0, 32);
    FetchGoesOn(m);
    FetchedFromMemory(m, i);
    LoadableInside(m.bus.ram);
    PipelineRefinesIsa(m, i, junk);
  }

  const NEGATIVE: seq<Word> := Fill(REG_COUNT, 0)[1 := 0x8000_0000][2 := 1]

  /** SRA of a negative register, ORI with a negative immediate, FENCE and EBREAK are seen to do
      something else than the manual says. */
  lemma DeviationsAreSeen(junk: Byte)
    ensures var i := Isa.OpReg(Isa.Sra, 3, 1, 2); var m := Alone(i, NEGATIVE);
            Observed(m, Issue(m, junk)) != Some(Isa.Step(HartOf(m), i, EnvironmentOf(m.bus.ram)))
    ensures var i := Isa.OpImm(Isa.Ori, 3, 1, 0xffff_ffff); var m := Alone(i, NEGATIVE);
            Observed(m, Issue(m, junk)) != Some(Isa.Step(HartOf(m), i, EnvironmentOf(m.bus.ram)))
    ensures var i := Isa.Fence(0, 0, 0xff); var m := Alone(i, NEGATIVE);
            Observed(m, Issue(m, junk)) != Some(Isa.Step(HartOf(m), i, EnvironmentOf(m.bus.ram)))
    ensures var m := Alone(Isa.Ebreak, NEGATIVE);
            Observed(m, Issue(m, junk)) != Some(Isa.Step(HartOf(m), Isa.Ebreak, EnvironmentOf(m.bus.ram)))
  {
    hide Observed, Issue, Isa.Step, HartOf, EnvironmentOf, Alone, Isa.Encode, FetchesFromMemory, AtFetch;
    TheyDeviate();
    AloneConforms(Isa.OpReg(Isa.Sra, 3, 1, 2), NEGATIVE, junk);
    AloneConforms(Isa.OpImm(Isa.Ori, 3, 1, 0xffff_ffff), NEGATIVE, junk);
    AloneConforms(Isa.Fence(0, 0, 0xff), NEGATIVE, junk);
    AloneConforms(Isa.Ebreak, NEGATIVE, junk);
  }

  lemma TheyDeviate()
    ensures forall b: BusImage | b.Valid() :: Deviates(Isa.OpReg(Isa.Sra, 3, 1, 2), NEGATIVE, 0, b)
    ensures forall b: BusImage | b.Valid() :: Deviates(Isa.OpImm(Isa.Ori, 3, 1, 0xffff_ffff), NEGATIVE, 0, b)
    ensures forall b: BusImage | b.Valid() :: Deviates(Isa.Fence(0, 0, 0xff), NEGATIVE, 0, b)
    ensures forall b: BusImage | b.Valid() :: Deviates(Isa.Ebreak, NEGATIVE, 0, b)
  {
  }
}
