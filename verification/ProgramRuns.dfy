/** Whole programs, system calls included: the run loop with its prefetching pipeline against
    a hart that fetches from memory and executes one instruction at a time. */
module ProgramRuns {
  import opened Words
  import opened Mmu
  import opened Bus
  import opened Core
  import opened Pipeline
  import opened Conformance
  import opened Prefetch
  import BusLaws
  import Csr
  import History
  import Integers
  import Isa
  import Traps

  /** What a program does next: an instruction, or an environment call with its answer. */
  datatype Event = Executes(instr: Isa.Instr) | Calls(response: Response)

  function InstrOf(e: Event): Isa.Instr {
    match e
    case Executes(i) => i
    case Calls(_) => Isa.Ecall
  }

  // ----- programs on a hart -----

  /** What the execution environment contributes to an event: the addresses it lets the hart
      access, and the memory it leaves after a call. */
  datatype Moment = Moment(env: Isa.Environment, served: Isa.Memory)

  /** The word in memory at pc encodes the instruction. */
  predicate FetchesFromMemory(h: Isa.Hart, i: Isa.Instr) {
    && Isa.RangeIn(ToNat(h.pc), 4, h.mem.Keys)
    && Compose(Isa.BytesAt(h.mem, ToNat(h.pc), WORD)) == Isa.Encode(i)
  }

  /** The execution environment answers a call in register x10, which the ABI names a0. */
  function AfterCall(x: seq<Word>, answer: Option<Word>): seq<Word>
    requires |x| == 32
  {
    if answer.Some? then Isa.WithReg(x, 10, answer.value) else x
  }

  /** A call changes x10 and no other register. */
  lemma OnlyTheAnswerChanges(x: seq<Word>, answer: Option<Word>, r: bv5)
    requires |x| == 32
    ensures Isa.Reg(AfterCall(x, answer), r) == if r == 10 && answer.Some? then answer.value else Isa.Reg(x, r)
  {
    if answer.Some? { Integers.RegisterRoundTrip(x, 10, r, answer.value); }
  }

  lemma ResumedIsAfterCall(x: seq<Word>, answer: Option<Word>, x': seq<Word>)
    requires Traps.Resumed(x, answer, x')
    ensures x' == AfterCall(x, answer)
  {
  }

  /** A hart goes through one event: its instruction must be the one in memory at pc, and an
      environment call answers in x10 and resumes after the call. */
  function StepHart(h: Isa.Hart, e: Event, now: Moment): Option<Isa.Hart> {
    var i := InstrOf(e);
    if |h.x| != 32 || !(now.env.loadable <= h.mem.Keys) || !FetchesFromMemory(h, i) then None
    else
      match Isa.Step(h, i, now.env)
      case Retire(h') => if e.Executes? then Some(h') else None
      case Raise(x) =>
        if e.Calls? && x == Isa.EnvironmentCall
        then Some(Isa.Hart(Plus(h.pc, 4), AfterCall(h.x, e.response.a0), now.served))
        else None
  }

  /** A hart goes through a trace of events, jumps and taken branches included. */
  function RunHart(h: Isa.Hart, trace: seq<Event>, moments: seq<Moment>): Option<Isa.Hart>
    requires |trace| == |moments|
    decreases |trace|
  {
    if trace == [] then Some(h)
    else
      match StepHart(h, trace[0], moments[0])
      case None => None
      case Some(h') => RunHart(h', trace[1..], moments[1..])
  }

  // ----- programs on the machine -----

  /** The cycles up to the next boundary. */
  function CyclesUntil(m: Machine, junk: Byte, n: nat): (k: nat)
    requires m.Valid()
    decreases n
  {
    if n == 0 then 0
    else
      match Cycle(m, junk)
      case Halts => 0
      case Returns(m') => if AtBoundary(m') then 1 else 1 + CyclesUntil(m', junk, n - 1)
  }

  /** The turns of the loop that an event takes; a call takes three more, to enter, to handle
      and to leave the trap. */
  function TurnsOf(m: Machine, junk: Byte, e: Event): nat
    requires m.Valid()
  {
    CyclesUntil(m, junk, 5) + if e.Calls? then 3 else 0
  }

  const NO_RESPONSE := Response([], None, false)

  function InputOf(junk: Byte, e: Event): Input { Input(junk, if e.Calls? then e.response else NO_RESPONSE) }

  function InputsOf(m: Machine, junk: Byte, e: Event): seq<Input>
    requires m.Valid()
  {
    Fill(TurnsOf(m, junk, e), InputOf(junk, e))
  }

  /** The loop goes through one event. */
  function LoopThrough(m: Machine, junk: Byte, e: Event): (s: RunState)
    requires m.Valid()
    ensures s.Valid()
  {
    RunLoop(Running(m), InputsOf(m, junk, e))
  }

  /** No cycle up to the next boundary stores into a word fetched ahead. */
  predicate SafeUntil(m: Machine, junk: Byte, n: nat)
    requires m.Valid()
    decreases n
  {
    n == 0
    || (!Overwrites(m)
        && match Cycle(m, junk)
           case Halts => true
           case Returns(m') => AtBoundary(m') || SafeUntil(m', junk, n - 1))
  }

  /** The machine is ready for an event: its memory holds the instruction at pc, the block
      fetch succeeds, the instruction does not deviate, it stores into no word fetched ahead,
      and it does what the event says. */
  predicate Ready(m: Machine, junk: Byte, e: Event)
    requires m.Valid()
  {
    var i := InstrOf(e);
    && Isa.Encodable(i)
    && FetchesFromMemory(HartOf(m), i)
    && FetchStage(m).Returns?
    && SafeUntil(m, junk, 5)
    && !Deviates(i, m.core.regs, m.core.pc, m.bus)
    && match e
       case Executes(i) => Isa.Step(HartOf(m), i, EnvironmentOf(m.bus.ram)).Retire?
       case Calls(response) => response.goOn && History.Run(m.bus.ram, response.ops).Returns?
  }

  /** The machine after the loop has gone through an event. */
  function After(m: Machine, junk: Byte, e: Event): (m': Machine)
    requires m.Valid()
    ensures m'.Valid()
  {
    match LoopThrough(m, junk, e)
    case Running(m') => m'
    case _ => m
  }

  /** The machine is ready for each event of a trace when it gets to it. */
  predicate Conducts(m: Machine, junk: Byte, trace: seq<Event>)
    requires m.Valid()
    decreases |trace|
  {
    trace == [] || (Ready(m, junk, trace[0]) && Conducts(After(m, junk, trace[0]), junk, trace[1..]))
  }

  /** What the machine's memory contributes to an event. */
  function MomentOf(m: Machine, e: Event): Moment
    requires m.Valid()
  {
    var after := if e.Calls? then History.Run(m.bus.ram, e.response.ops) else Halts;
    Moment(EnvironmentOf(m.bus.ram), MemoryOf(if after.Returns? then after.value else m.bus.ram))
  }

  function MomentsOf(m: Machine, junk: Byte, trace: seq<Event>): (moments: seq<Moment>)
    requires m.Valid()
    ensures |moments| == |trace|
    decreases |trace|
  {
    if trace == [] then [] else [MomentOf(m, trace[0])] + MomentsOf(After(m, junk, trace[0]), junk, trace[1..])
  }

  function AllInputs(m: Machine, junk: Byte, trace: seq<Event>): seq<Input>
    requires m.Valid()
    decreases |trace|
  {
    if trace == [] then [] else InputsOf(m, junk, trace[0]) + AllInputs(After(m, junk, trace[0]), junk, trace[1..])
  }

  // ----- turns of the loop and cycles -----

  /** The turns up to a boundary are cycles: the handler is not called on the way. */
  lemma {:induction false} TurnsAreCycles(m: Machine, junk: Byte, n: nat, inputs: seq<Input>)
    requires m.Valid() && Traps.Sound(m.core) && !m.core.stage.Trap? && Until(m, junk, n).Returns?
    requires |inputs| == CyclesUntil(m, junk, n) && forall k :: 0 <= k < |inputs| ==> inputs[k].junk == junk
    ensures RunLoop(Running(m), inputs) == Running(Until(m, junk, n).value)
    decreases n
  {
    hide Cycle, Traps.Sound, HandleTrap;
    if n != 0 {
      Traps.CycleSound(m, junk);
      Traps.CycleMovesOn(m, junk);
      var m' := Cycle(m, junk).value;
      assert Tick(m, inputs[0]) == Running(m');
      if !AtBoundary(m') {
        TurnsAreCycles(m', junk, n - 1, inputs[1..]);
      }
    }
  }

  lemma {:induction false} RunLoopSplits(s: RunState, a: seq<Input>, b: seq<Input>)
    requires s.Valid()
    ensures RunLoop(s, a + b) == RunLoop(RunLoop(s, a), b)
    decreases |a|
  {
    hide Tick;
    if a == [] {
      assert a + b == b;
    } else if s.Running? {
      assert (a + b)[1..] == a[1..] + b;
      RunLoopSplits(Tick(s.m, a[0]), a[1..], b);
    }
  }

  // ----- one event -----

  lemma CycleStaysCoherent(m: Machine, junk: Byte)
    requires Coherent(m) && Cycle(m, junk).Returns? && !Overwrites(m)
    ensures Coherent(Cycle(m, junk).value)
  {
    hide Cycle, Overwrites, Ahead, Current, ToNat, Flat;
    var r := Machine(Cut(m.core), m.bus);
    assert Matches(m, r);
    CycleMatches(m, r, junk);
  }

  lemma {:induction false} UntilStaysCoherent(m: Machine, junk: Byte, n: nat)
    requires Coherent(m) && SafeUntil(m, junk, n) && Until(m, junk, n).Returns?
    ensures Coherent(Until(m, junk, n).value)
    decreases n
  {
    hide Cycle, Overwrites, Ahead, Current, ToNat, Flat;
    if n != 0 {
      CycleStaysCoherent(m, junk);
      var m' := Cycle(m, junk).value;
      if !AtBoundary(m') {
        UntilStaysCoherent(m', junk, n - 1);
      }
    }
  }

  /** What a coherent core fetches is the word in memory at pc. */
  lemma FetchedFromMemory(m: Machine, i: Isa.Instr)
    requires Coherent(m) && m.core.stage.Fetch? && FetchStage(m).Returns? && FetchesFromMemory(HartOf(m), i)
    ensures FetchStage(m).value.core.buffer[0] == Isa.Encode(i)
  {
    hide FetchStage, ToNat, Isa.Encode, Ahead, Flat, MemoryOf, Isa.BytesAt, Compose;
    FetchIsCoherent(m);
    BytesInMemory(m.bus.ram, ToNat(m.core.pc), WORD);
  }

  /** The core is about to fetch, and keeps its invariants. */
  predicate AtFetch(m: Machine) { Coherent(m) && Traps.Sound(m.core) && m.core.stage.Fetch? }

  /** The pipeline goes through the instruction of an event as the manual says. */
  lemma IssueConforms(m: Machine, junk: Byte, e: Event)
    requires AtFetch(m) && Ready(m, junk, e)
    ensures var r := Issue(m, junk);
            && r.Returns? && Coherent(r.value) && Traps.Sound(r.value.core)
            && Observed(m, r) == Some(Isa.Step(HartOf(m), InstrOf(e), EnvironmentOf(m.bus.ram)))
            && (r.value.core.stage.Trap? ==> r.value.core.trapStage.Enter? && Traps.Untouched(m, r.value))
            && RunLoop(Running(m), Fill(CyclesUntil(m, junk, 5), InputOf(junk, e))) == Running(r.value)
  {
    hide FetchStage, ToNat, Isa.Encode, Isa.Encodable, Ahead, MemoryOf, EnvironmentOf, FetchesFromMemory, Deviates;
    hide SafeUntil, Flat, Until, Isa.Step, Current, CyclesUntil, RunLoop, History.Run;
    FetchedFromMemory(m, InstrOf(e));
    PipelineRefinesIsa(m, InstrOf(e), junk);
    UntilStaysCoherent(m, junk, 5);
    Traps.TrapTouchesNothing(m, junk, 5);
    TurnsAreCycles(m, junk, 5, Fill(CyclesUntil(m, junk, 5), InputOf(junk, e)));
  }

  /** An event, seen from the hart and from the loop. */
  predicate EventConforms(m: Machine, junk: Byte, e: Event)
    requires m.Valid()
  {
    var s := LoopThrough(m, junk, e);
    s.Running? && AtFetch(s.m) && StepHart(HartOf(m), e, MomentOf(m, e)) == Some(HartOf(s.m))
  }

  /** What an instruction that retires does to the hart. */
  lemma InstructionSteps(m: Machine, junk: Byte, e: Event)
    requires AtFetch(m) && Ready(m, junk, e) && e.Executes?
    ensures Some(Isa.Step(HartOf(m), e.instr, EnvironmentOf(m.bus.ram)).hart) == StepHart(HartOf(m), e, MomentOf(m, e))
  {
    hide FetchStage, ToNat, Isa.Encode, Isa.Encodable, MemoryOf, EnvironmentOf, FetchesFromMemory, Deviates;
    hide SafeUntil, Ahead, Current, Flat, Isa.Step, AfterCall, Csr.Low;
    LoadableInside(m.bus.ram);
  }

  lemma InstructionTurns(m: Machine, junk: Byte, e: Event)
    requires m.Valid() && e.Executes?
    ensures LoopThrough(m, junk, e) == RunLoop(Running(m), Fill(CyclesUntil(m, junk, 5), InputOf(junk, e)))
  {
    hide RunLoop, CyclesUntil;
  }

  /** An instruction that is seen to retire has left the machine about to fetch. */
  lemma SeenToRetire(m: Machine, t: Machine, h: Isa.Hart)
    requires m.Valid() && t.Valid() && Observed(m, Returns(t)) == Some(Isa.Retire(h))
    ensures t.core.stage.Fetch? && HartOf(t) == h
  {
    hide HartOf, ExceptionOf, Csr.Low;
  }

  lemma ExecutesConform(m: Machine, junk: Byte, e: Event)
    requires AtFetch(m) && Ready(m, junk, e) && e.Executes?
    ensures EventConforms(m, junk, e)
  {
    IssueConforms(m, junk, e);
    InstructionSteps(m, junk, e);
    InstructionTurns(m, junk, e);
    hide StepHart, MomentOf, HartOf, Observed, Coherent, Traps.Sound, LoopThrough, RunLoop, Issue, Isa.Step;
    hide CyclesUntil, MemoryOf;
    SeenToRetire(m, Issue(m, junk).value, Isa.Step(HartOf(m), e.instr, EnvironmentOf(m.bus.ram)).hart);
  }

  /** The three turns from a trap that a call has caused. */
  lemma CallReturns(m: Machine, t: Machine, i: Input)
    requires m.Valid() && Coherent(t) && Traps.Sound(t.core) && t.core.stage.Trap? && t.core.trapStage.Enter?
    requires Traps.Untouched(m, t) && Traps.Calls(t.core)
    requires i.response.goOn && History.Run(m.bus.ram, i.response.ops).Returns?
    ensures var s := RunLoop(Running(t), [i, i, i]);
            && s.Running? && AtFetch(s.m)
            && HartOf(s.m) == Isa.Hart(Plus(m.core.pc, 4), AfterCall(m.core.regs, i.response.a0),
                                       MemoryOf(History.Run(m.bus.ram, i.response.ops).value))
  {
    hide RunLoop, History.Run, Plus, Csr.Low, MemoryOf, Current, ToNat, BusLaws.ServedByRam, AfterCall, Traps.Resumed;
    Traps.TrapRoundTrip(t, i, i, i);
    ResumedIsAfterCall(m.core.regs, i.response.a0, RunLoop(Running(t), [i, i, i]).m.core.regs);
    Traps.RunSound(Running(t), [i, i, i]);
  }

  lemma CallCause(c: CoreImage)
    requires c.Valid() && ExceptionOf(Csr.Low(c.csr[Csr.MCAUSE])) == Some(Isa.EnvironmentCall)
    ensures Traps.Calls(c)
  {
    hide Csr.Low;
  }

  lemma EcallRaises(h: Isa.Hart, env: Isa.Environment)
    requires |h.x| == 32 && env.loadable <= h.mem.Keys
    ensures Isa.Step(h, Isa.Ecall, env) == Isa.Raise(Isa.EnvironmentCall)
  {
  }

  /** What a call does to the hart. */
  lemma CallSteps(m: Machine, junk: Byte, e: Event)
    requires AtFetch(m) && Ready(m, junk, e) && e.Calls?
    ensures StepHart(HartOf(m), e, MomentOf(m, e))
            == Some(Isa.Hart(Plus(m.core.pc, 4), AfterCall(m.core.regs, e.response.a0),
                             MemoryOf(History.Run(m.bus.ram, e.response.ops).value)))
  {
    hide FetchStage, ToNat, Isa.Encode, Isa.Encodable, MemoryOf, EnvironmentOf, FetchesFromMemory, Deviates;
    hide SafeUntil, Ahead, Current, Flat, History.Run, Plus, Isa.Step, Csr.Low, AfterCall;
    LoadableInside(m.bus.ram);
    EcallRaises(HartOf(m), EnvironmentOf(m.bus.ram));
  }

  /** The turns of a call: those up to the trap, and three more. */
  lemma CallTurns(m: Machine, t: Machine, junk: Byte, e: Event)
    requires m.Valid() && t.Valid() && e.Calls?
    requires RunLoop(Running(m), Fill(CyclesUntil(m, junk, 5), InputOf(junk, e))) == Running(t)
    ensures var i := InputOf(junk, e); LoopThrough(m, junk, e) == RunLoop(Running(t), [i, i, i])
  {
    hide RunLoop, CyclesUntil;
    var i := InputOf(junk, e);
    assert InputsOf(m, junk, e) == Fill(CyclesUntil(m, junk, 5), i) + [i, i, i];
    RunLoopSplits(Running(m), Fill(CyclesUntil(m, junk, 5), i), [i, i, i]);
  }

  /** An instruction that is seen to call has left the machine about to enter the trap. */
  lemma SeenToCall(m: Machine, t: Machine)
    requires m.Valid() && t.Valid() && Observed(m, Returns(t)) == Some(Isa.Raise(Isa.EnvironmentCall))
    ensures t.core.stage.Trap? && t.core.trapStage.Enter? && Traps.Calls(t.core)
  {
    hide HartOf, ExceptionOf, Csr.Low;
    CallCause(t.core);
  }

  lemma CallsConform(m: Machine, junk: Byte, e: Event)
    requires AtFetch(m) && Ready(m, junk, e) && e.Calls?
    ensures EventConforms(m, junk, e)
  {
    IssueConforms(m, junk, e);
    CallSteps(m, junk, e);
    LoadableInside(m.bus.ram);
    EcallRaises(HartOf(m), EnvironmentOf(m.bus.ram));
    hide StepHart, MomentOf, HartOf, Observed, Coherent, Traps.Sound, LoopThrough, RunLoop, Issue, Isa.Step;
    hide CyclesUntil, History.Run, MemoryOf, Traps.Calls;
    var t := Issue(m, junk).value;
    SeenToCall(m, t);
    CallReturns(m, t, InputOf(junk, e));
    CallTurns(m, t, junk, e);
  }

  lemma EventsConform(m: Machine, junk: Byte, e: Event)
    requires AtFetch(m) && Ready(m, junk, e)
    ensures EventConforms(m, junk, e)
  {
    hide EventConforms, Ready, AtFetch;
    if e.Executes? { ExecutesConform(m, junk, e); } else { CallsConform(m, junk, e); }
  }

  /** Every program, system calls included: if the machine conducts a trace, then its run
      loop ends exactly where a hart ends that fetches each instruction from its own memory
      and executes it atomically, and it is ready to go on. */
  lemma {:induction false} ProgramsRefineIsa(m: Machine, junk: Byte, trace: seq<Event>)
    requires AtFetch(m) && Conducts(m, junk, trace)
    ensures var s := RunLoop(Running(m), AllInputs(m, junk, trace));
            && s.Running? && AtFetch(s.m)
            && RunHart(HartOf(m), trace, MomentsOf(m, junk, trace)) == Some(HartOf(s.m))
    decreases |trace|
  {
    hide Ready, StepHart, Tick, MomentOf, InputsOf, Traps.Sound, Flat, Ahead, Current;
    if trace != [] {
      EventsConform(m, junk, trace[0]);
      var m' := After(m, junk, trace[0]);
      ProgramsRefineIsa(m', junk, trace[1..]);
      RunLoopSplits(Running(m), InputsOf(m, junk, trace[0]), AllInputs(m', junk, trace[1..]));
      var moments := MomentsOf(m, junk, trace);
      assert moments[1..] == MomentsOf(m', junk, trace[1..]);
    }
  }
}
