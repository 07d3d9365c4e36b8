/** When the machine is ready for an instruction, told from the instruction, the registers and
    the memory alone; and a program that runs. */
module Readiness {
  import opened Words
  import opened Mmu
  import opened Bus
  import opened Core
  import opened Decoder
  import opened Pipeline
  import opened Conformance
  import opened Prefetch
  import opened ProgramRuns
  import BusLaws
  import Csr
  import Encoding
  import History
  import Isa
  import Traps

  /** The instruction stores nothing into the block that a fetch at pc would read, except
      perhaps into the word at pc itself. */
  predicate Misses(i: Isa.Instr, x: seq<Word>, pc: Word, depth: nat)
    requires |x| == REG_COUNT
  {
    match i
    case Store(width, rs1, _, offset) => Clear(ToNat(Plus(Isa.Reg(x, rs1), offset)), width, ToNat(pc), depth)
    case _ => true
  }

  predicate Clear(a: nat, width: Width, pc: nat, depth: nat) {
    a + width.Bytes() <= pc + 4 || pc + 4 * depth <= a
  }

  /** The same for a plan. */
  predicate PlanMisses(p: Encoding.Plan, pc: Word, depth: nat) {
    p.StoreMem? ==> Clear(ToNat(p.addr), p.width, ToNat(pc), depth)
  }

  lemma MissesPlan(i: Isa.Instr, x: seq<Word>, pc: Word, depth: nat)
    requires |x| == REG_COUNT && Misses(i, x, pc, depth)
    ensures PlanMisses(Encoding.PlanOf(i, x, pc), pc, depth)
  {
    hide ToNat, Plus, Clear;
  }

  lemma NoStoreIsSafe(m: Machine)
    requires m.Valid() && !AboutToStore(m.core)
    ensures !Overwrites(m)
  {
  }

  lemma ClearStoreIsSafe(m: Machine)
    requires m.Valid()
    requires Clear(ToNat(m.core.decoded.memOffset), m.core.decoded.width, ToNat(m.core.pc), |m.core.buffer|)
    ensures !Overwrites(m)
  {
    hide ToNat, Write, BusLaws.ServedByRam;
  }

  lemma SafeStep(m: Machine, junk: Byte, n: nat)
    requires m.Valid() && 1 <= n && !Overwrites(m)
    requires Cycle(m, junk).Returns? ==>
               AtBoundary(Cycle(m, junk).value) || SafeUntil(Cycle(m, junk).value, junk, n - 1)
    ensures SafeUntil(m, junk, n)
  {
    hide Cycle, Overwrites;
  }

  /** From memory on. */
  lemma SafeFromMemory(m: Machine, p: Encoding.Plan, e: Executed, junk: Byte)
    requires m.Valid() && m.core.stage.Memory? && m.core.decoded == e.dec && e.effect.Proceed?
    requires Encoding.CarriesOut(e, p) && PlanMisses(p, m.core.pc, |m.core.buffer|)
    ensures SafeUntil(m, junk, 2)
  {
    hide Cycle, Overwrites, ToNat, Clear, MemoryStage;
    if p.StoreMem? { ClearStoreIsSafe(m); } else { NoStoreIsSafe(m); }
    CycleOfStage(m, junk);
    if Cycle(m, junk).Returns? && !AtBoundary(Cycle(m, junk).value) {
      var m' := Cycle(m, junk).value;
      NoStoreIsSafe(m');
      SafeStep(m', junk, 1);
    }
    SafeStep(m, junk, 2);
  }

  /** From execute on. */
  lemma SafeFromExecute(m: Machine, p: Encoding.Plan, junk: Byte)
    requires m.Valid() && m.core.stage.Execute?
    requires Encoding.CarriesOut(Decoder.Execute(m.core.decoded, m.core.pc, m.core.aluOut), p)
    requires PlanMisses(p, m.core.pc, |m.core.buffer|)
    ensures SafeUntil(m, junk, 3)
  {
    hide Cycle, ExecuteCycle, Overwrites, PlanMisses, Decoder.Execute, SafeUntil;
    CycleOfStage(m, junk);
    CycleOfExecute(m);
    NoStoreIsSafe(m);
    var e := Decoder.Execute(m.core.decoded, m.core.pc, m.core.aluOut);
    if e.effect.Proceed? {
      SafeFromMemory(Cycle(m, junk).value, p, e, junk);
    }
    SafeStep(m, junk, 3);
  }

  /** From decode on. */
  lemma SafeFromDecode(m: Machine, i: Isa.Instr, junk: Byte)
    requires m.Valid() && m.core.stage.Decode? && Isa.Encodable(i) && m.core.buffer[0] == Isa.Encode(i)
    requires Misses(i, m.core.regs, m.core.pc, |m.core.buffer|)
    ensures SafeUntil(m, junk, 4)
  {
    hide Cycle, DecodeCycle, Overwrites, PlanMisses, Misses, Decoder.Execute, DecodeWord, SafeUntil;
    hide Isa.Encode, Isa.Encodable, Encoding.CarriesOut, Encoding.PlanOf;
    Encoding.DecodeUndoesEncode(i, m.core.regs, m.core.decoded, m.core.pc, m.core.aluOut);
    MissesPlan(i, m.core.regs, m.core.pc, |m.core.buffer|);
    CycleOfStage(m, junk);
    CycleOfDecode(m);
    NoStoreIsSafe(m);
    if !i.Fence? {
      var d := DecodeWord(m.core.buffer[0], m.core.regs, m.core.decoded);
      NotUnknown(d, i, m.core.regs, m.core.pc, m.core.aluOut);
      SafeFromExecute(Cycle(m, junk).value, Encoding.PlanOf(i, m.core.regs, m.core.pc), junk);
    }
    SafeStep(m, junk, 4);
  }

  /** An instruction that misses the block fetched ahead is safe; only stores can fail to. */
  lemma MissingIsSafe(m: Machine, i: Isa.Instr, junk: Byte)
    requires m.Valid() && m.core.stage.Fetch? && FetchStage(m).Returns? && Isa.Encodable(i)
    requires FetchStage(m).value.core.buffer[0] == Isa.Encode(i)
    requires Misses(i, m.core.regs, m.core.pc, |m.core.buffer|)
    ensures SafeUntil(m, junk, 5)
  {
    hide Cycle, Overwrites, Misses, SafeUntil, FetchStage, Isa.Encode, Isa.Encodable;
    FetchKeeps(m);
    CycleOfStage(m, junk);
    NoStoreIsSafe(m);
    SafeFromDecode(Cycle(m, junk).value, i, junk);
    SafeStep(m, junk, 5);
  }

  /** The machine can be seen to be ready for an event: its instruction is in memory at pc,
      the block that a fetch would read is readable if it has not been fetched, the
      instruction stores nothing into that block and does not deviate, and it retires, or it
      is a call that is answered. */
  predicate AtSight(m: Machine, e: Event)
    requires m.Valid()
  {
    var i := InstrOf(e);
    && Isa.Encodable(i) && FetchesFromMemory(HartOf(m), i)
    && (m.core.prefetched == 0 ==> Readable(m.bus.ram, ToNat(m.core.pc), 4 * |m.core.buffer|))
    && Misses(i, m.core.regs, m.core.pc, |m.core.buffer|)
    && !Deviates(i, m.core.regs, m.core.pc, m.bus)
    && match e
       case Executes(i) => Isa.Step(HartOf(m), i, EnvironmentOf(m.bus.ram)).Retire?
       case Calls(response) => response.goOn && History.Run(m.bus.ram, response.ops).Returns?
  }

  lemma ReadyAtSight(m: Machine, junk: Byte, e: Event)
    requires AtFetch(m) && AtSight(m, e)
    ensures ProgramRuns.Ready(m, junk, e)
  {
    hide Misses, SafeUntil, FetchStage, Isa.Encode, Isa.Encodable, FetchesFromMemory, Deviates, Isa.Step;
    hide HartOf, EnvironmentOf, Readable, ToNat, Traps.Sound, Ahead, Current, History.Run;
    FetchGoesOn(m);
    FetchedFromMemory(m, InstrOf(e));
    MissingIsSafe(m, InstrOf(e), junk);
  }

  lemma FetchGoesOn(m: Machine)
    requires m.Valid() && Flat(m.bus)
    requires m.core.prefetched == 0 ==> Readable(m.bus.ram, ToNat(m.core.pc), 4 * |m.core.buffer|)
    ensures FetchStage(m).Returns?
  {
    hide ToNat, WordsOf, ReadMultiple, Readable;
    if m.core.prefetched == 0 {
      BlockOfReadable(m.bus, ToNat(m.core.pc), |m.core.buffer|);
    }
  }

  /** The same for each event of a trace when the machine gets to it. */
  predicate ConductsAtSight(m: Machine, junk: Byte, trace: seq<Event>)
    requires m.Valid()
    decreases |trace|
  {
    trace == [] || (AtSight(m, trace[0]) && ConductsAtSight(After(m, junk, trace[0]), junk, trace[1..]))
  }

  lemma {:induction false} ConductedAtSight(m: Machine, junk: Byte, trace: seq<Event>)
    requires AtFetch(m) && ConductsAtSight(m, junk, trace)
    ensures Conducts(m, junk, trace)
    decreases |trace|
  {
    hide AtSight, ProgramRuns.Ready, StepHart, MomentOf, Traps.Sound, Flat, Ahead, Current, LoopThrough;
    if trace != [] {
      ReadyAtSight(m, junk, trace[0]);
      EventsConform(m, junk, trace[0]);
      ConductedAtSight(After(m, junk, trace[0]), junk, trace[1..]);
    }
  }

  /** The program theorem under conditions that can be seen event by event. */
  lemma ProgramsRefineIsaAtSight(m: Machine, junk: Byte, trace: seq<Event>)
    requires AtFetch(m) && ConductsAtSight(m, junk, trace)
    ensures var s := RunLoop(Running(m), AllInputs(m, junk, trace));
            && s.Running? && AtFetch(s.m)
            && RunHart(HartOf(m), trace, MomentsOf(m, junk, trace)) == Some(HartOf(s.m))
  {
    hide ConductsAtSight, Conducts, RunLoop, RunHart, AllInputs, MomentsOf, Traps.Sound, Flat, Ahead, Current;
    ConductedAtSight(m, junk, trace);
    ProgramsRefineIsa(m, junk, trace);
  }
}
