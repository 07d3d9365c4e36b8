/** Exactly when the prefetch buffer is invisible. */
module PrefetchExactly {
  import opened Words
  import opened Mmu
  import opened Bus
  import opened Core
  import opened Conformance
  import opened Prefetch
  import opened PrefetchRuns
  import Pipeline
  import Csr
  import Decoder
  import BusLaws

  // ----- one cycle -----

  /** The core is about to see what a core without prefetch sees: if it serves a word from its
      buffer, the word at pc is readable and is that word; and if it refills its buffer, the
      whole block is readable when the word at pc is. */
  predicate Fresh(m: Machine)
    requires m.Valid()
  {
    var c := m.core;
    var a := ToNat(c.pc);
    c.stage.Fetch? ==>
      if c.prefetched == 0 then Readable(m.bus.ram, a, 4) ==> Readable(m.bus.ram, a, 4 * |c.buffer|)
      else Readable(m.bus.ram, a, 4) && c.buffer[|c.buffer| - c.prefetched] == WordInMemory(m.bus.ram, a)
  }

  /** Both cores abort, or both go on and match. */
  predicate Together(x: Outcome<Machine>, y: Outcome<Machine>) {
    match x
    case Halts => y.Halts?
    case Returns(m) => y.Returns? && Matches(m, y.value)
  }

  /** A refill succeeds exactly when the block is readable. */
  lemma RefillSucceeds(m: Machine)
    requires m.Valid() && Flat(m.bus) && m.core.prefetched == 0
    ensures FetchStage(m).Returns? <==> Readable(m.bus.ram, ToNat(m.core.pc), 4 * |m.core.buffer|)
  {
    hide ReadMultiple, ToNat, Readable, WordsOf;
    var a := ToNat(m.core.pc);
    var n := |m.core.buffer|;
    if Readable(m.bus.ram, a, 4 * n) {
      BlockOfReadable(m.bus, a, n);
    }
    if FetchStage(m).Returns? {
      BlockSucceeds(m.bus, a, n);
    }
  }

  lemma ReadablePrefix(img: Image, a: nat, n: nat)
    requires img.Valid() && 1 <= n && Readable(img, a, 4 * n)
    ensures Readable(img, a, 4) && img.InRange(a, 4)
  {
  }

  /** What a refill puts at the head of the buffer. */
  lemma RefilledHead(m: Machine)
    requires m.Valid() && Flat(m.bus) && m.core.prefetched == 0
    requires Readable(m.bus.ram, ToNat(m.core.pc), 4 * |m.core.buffer|)
    ensures FetchStage(m).Returns? && m.bus.ram.InRange(ToNat(m.core.pc), 4)
    ensures FetchStage(m).value.core.buffer[0] == WordInMemory(m.bus.ram, ToNat(m.core.pc))
  {
    hide ReadMultiple, ToNat, Readable, WordInMemory, WordAt;
    var a := ToNat(m.core.pc);
    var n := |m.core.buffer|;
    BlockOfReadable(m.bus, a, n);
    ReadablePrefix(m.bus.ram, a, n);
    InRangeIfReadable(m.bus.ram, a, 4 * n);
    WordOfBlock(m.bus.ram, a, n, 0);
  }

  /** After a fetch of both cores, they match exactly when they hold the same instruction. */
  lemma FetchedMatch(m: Machine, r: Machine)
    requires Matches(m, r) && m.core.stage.Fetch? && FetchStage(m).Returns? && FetchStage(r).Returns?
    ensures FetchCycle(m).Returns? && FetchCycle(r).Returns?
    ensures Matches(FetchCycle(m).value, FetchCycle(r).value)
            <==> FetchStage(m).value.core.buffer[0] == FetchStage(r).value.core.buffer[0]
    ensures FetchCycle(m).value.core.stage.Decode? && FetchCycle(r).value.core.stage.Decode?
  {
    hide FetchStage;
    Pipeline.FetchKeeps(m);
    Pipeline.FetchKeeps(r);
  }

  lemma FetchExactly(m: Machine, r: Machine)
    requires m.Valid() && Flat(m.bus) && Matches(m, r) && m.core.stage.Fetch?
    ensures Together(FetchCycle(m), FetchCycle(r)) <==> Fresh(m)
    ensures FetchCycle(m).Returns? ==> Flat(FetchCycle(m).value.bus)
  {
    hide FetchStage, ToNat, Readable, WordInMemory, Matches, BusLaws.ServedByRam;
    var a := ToNat(m.core.pc);
    CutShape(m, r);
    RefillSucceeds(r);
    if m.core.prefetched == 0 {
      RefillSucceeds(m);
      if FetchStage(m).Returns? {
        ReadablePrefix(m.bus.ram, a, |m.core.buffer|);
        RefilledHead(m);
      }
    } else {
      ServedWord(m);
    }
    if FetchStage(r).Returns? {
      RefilledHead(r);
    }
    if FetchStage(m).Returns? {
      Pipeline.FetchKeeps(m);
      if FetchStage(r).Returns? {
        FetchedMatch(m, r);
      }
    }
  }

  /** The shape of the core without prefetch. */
  lemma CutShape(m: Machine, r: Machine)
    requires Matches(m, r)
    ensures r.Valid() && r.core.prefetched == 0 && |r.core.buffer| == 1
    ensures r.core.pc == m.core.pc && r.core.stage == m.core.stage && r.core.decoded == m.core.decoded
    ensures r.core.aluOut == m.core.aluOut && r.core == Cut(m.core)
    ensures r.bus == m.bus.(flags := r.bus.flags) && (Flat(m.bus) ==> Flat(r.bus))
  {
    hide BusLaws.ServedByRam;
  }

  lemma ExecuteHalts(c: CoreImage)
    requires c.Valid()
    ensures ExecuteStage(c).Halts? <==> Decoder.Execute(c.decoded, c.pc, c.aluOut).effect.AssertFails?
  {
    hide Decoder.Execute;
  }

  lemma ExecuteTogether(m: Machine, r: Machine)
    requires Matches(m, r)
    ensures Together(ExecuteCycle(m), ExecuteCycle(r))
    ensures ExecuteCycle(m).Returns? ==> ExecuteCycle(m).value.bus == m.bus
  {
    hide ExecuteStage, Advance, Decoder.Execute;
    ExecuteHalts(m.core);
    ExecuteHalts(r.core);
    if ExecuteStage(m.core).Returns? {
      CutExecute(m.core);
    }
  }

  lemma TrapTogether(m: Machine, r: Machine)
    requires Matches(m, r)
    ensures Together(TrapCycle(m), TrapCycle(r))
    ensures TrapCycle(m).Returns? ==> TrapCycle(m).value.bus == m.bus
  {
    hide TrapStep, Advance;
    TrapHalts(m.core);
    TrapHalts(r.core);
    if TrapStep(m.core).Returns? {
      CutTrap(m.core);
    }
  }

  lemma TrapHalts(c: CoreImage)
    requires c.Valid()
    ensures TrapStep(c).Halts? <==> c.trapStage.Idle?
  {
    hide Plus, Csr.Write32, Csr.Clear32, Csr.Low;
  }

  lemma LoadTogether(m: Machine, r: Machine, junk: Byte)
    requires Flat(m.bus) && Matches(m, r) && m.core.stage.Memory? && m.core.decoded.readMem
    ensures Together(MemoryCycle(m, junk), MemoryCycle(r, junk))
    ensures MemoryCycle(m, junk).Returns? ==> Flat(MemoryCycle(m, junk).value.bus)
  {
    hide MemoryCycle, ReadSingle, ToNat, LoadFault, BusLaws.ServedByRam, Advance, CauseTrap;
    var d := m.core.decoded;
    Pipeline.LoadCycle(m, junk);
    Pipeline.LoadCycle(r, junk);
    LoadAnswers(m.bus, ToNat(d.memOffset), d.width, junk);
    LoadIgnoresFlags(m.bus, r.bus, ToNat(d.memOffset), d.width, junk);
    var got := ReadSingle(m.bus, ToNat(d.memOffset), d.width, junk).value;
    CutMemory(m.core.(aluOut := got.value), LoadFault(got.bus.flags.bus));
  }

  lemma LoadAnswers(b: BusImage, a: nat, width: Width, junk: Byte)
    requires b.Valid() && !b.held
    ensures ReadSingle(b, a, width, junk).Returns?
  {
    hide ReadRam, FindDevice;
  }

  lemma StoreTogether(m: Machine, r: Machine, junk: Byte)
    requires Flat(m.bus) && Matches(m, r) && AboutToStore(m.core)
    ensures Together(MemoryCycle(m, junk), MemoryCycle(r, junk))
    ensures MemoryCycle(m, junk).Returns? ==> Flat(MemoryCycle(m, junk).value.bus)
  {
    hide MemoryCycle, WriteSingle, ToNat, StoreFault, Flat, Write, Decompose, Advance, CauseTrap;
    var d := m.core.decoded;
    var a := ToNat(d.memOffset);
    FlatIsValid(m.bus);
    Pipeline.StoreCycle(m, junk);
    Pipeline.StoreCycle(r, junk);
    if WriteSingle(m.bus, a, m.core.aluOut, d.width).Returns? {
      StoreIgnoresFlags(m.bus, r.bus, a, m.core.aluOut, d.width);
      StoreEffect(m.bus, a, m.core.aluOut, d.width);
      CutMemory(m.core, StoreFault(WriteSingle(m.bus, a, m.core.aluOut, d.width).value.flags.bus));
    } else if WriteSingle(r.bus, a, m.core.aluOut, d.width).Returns? {
      StoreIgnoresFlags(r.bus, m.bus, a, m.core.aluOut, d.width);
    }
  }

  lemma FlatIsValid(b: BusImage)
    requires Flat(b)
    ensures b.Valid()
  {
  }

  lemma PassTogether(m: Machine, r: Machine, junk: Byte)
    requires Matches(m, r) && m.core.stage.Memory? && !m.core.decoded.readMem && !m.core.decoded.writeMem
    ensures Together(MemoryCycle(m, junk), MemoryCycle(r, junk))
    ensures MemoryCycle(m, junk).Returns? ==> MemoryCycle(m, junk).value.bus == m.bus
  {
    hide ReadSingle, WriteSingle, ToNat;
  }

  /** One cycle takes matching cores to matching cores exactly when the first one is fresh. */
  lemma CycleExactly(m: Machine, r: Machine, junk: Byte)
    requires m.Valid() && Flat(m.bus) && Matches(m, r)
    ensures Together(Cycle(m, junk), Cycle(r, junk)) <==> Fresh(m)
    ensures Cycle(m, junk).Returns? ==> Flat(Cycle(m, junk).value.bus)
    ensures m.core.stage.Fetch? && Cycle(m, junk).Returns? ==> Cycle(m, junk).value.core.stage.Decode?
    ensures m.core.stage.Fetch? && Cycle(r, junk).Returns? ==> Cycle(r, junk).value.core.stage.Decode?
  {
    hide Cycle, FetchCycle, ExecuteCycle, MemoryCycle, TrapCycle, Advance, DecodeStage, WritebackStage;
    hide ToNat, Readable, WordInMemory, Flat;
    Pipeline.CycleOfStage(m, junk);
    Pipeline.CycleOfStage(r, junk);
    match m.core.stage {
      case Fetch =>
        FetchExactly(m, r);
        FetchLeadsToDecode(m);
        FetchLeadsToDecode(r);
      case Decode => CutDecode(m.core);
      case Execute => ExecuteTogether(m, r);
      case Memory =>
        if m.core.decoded.readMem {
          LoadTogether(m, r, junk);
        } else if m.core.decoded.writeMem {
          StoreTogether(m, r, junk);
        } else {
          PassTogether(m, r, junk);
        }
      case Writeback => CutWriteback(m.core);
      case Trap => TrapTogether(m, r);
    }
  }

  lemma FetchLeadsToDecode(m: Machine)
    requires m.Valid() && m.core.stage.Fetch?
    ensures FetchCycle(m).Returns? ==> FetchCycle(m).value.core.stage.Decode?
  {
    hide FetchStage;
    if FetchStage(m).Returns? {
      Pipeline.FetchKeeps(m);
    }
  }

  // ----- turns and runs -----

  lemma TickExactly(m: Machine, r: Machine, input: Input)
    requires m.Valid() && Flat(m.bus) && Matches(m, r)
    ensures Alike(Tick(m, input), Tick(r, input)) <==> Fresh(m)
    ensures Tick(m, input).Running? ==> Flat(Tick(m, input).m.bus)
  {
    hide Cycle, HandleTrap, Fresh, Flat;
    CycleExactly(m, r, input.junk);
    StaleIsFetch(m);
    if Fresh(m) && Cycle(m, input.junk).Returns? && AtHandler(Cycle(m, input.junk).value) {
      HandlersMatch(Cycle(m, input.junk).value, Cycle(r, input.junk).value, input.response);
    }
    if Cycle(m, input.junk).Returns? && HandleTrap(Cycle(m, input.junk).value, input.response).Running? {
      HandlerKeepsPlace(Cycle(m, input.junk).value, input.response);
    }
  }

  lemma StaleIsFetch(m: Machine)
    requires m.Valid()
    ensures !Fresh(m) ==> m.core.stage.Fetch?
  {
    hide Readable, ToNat, WordInMemory;
  }

  /** The core is fresh at every turn of the run. */
  predicate FreshRun(s: RunState, inputs: seq<Input>)
    requires s.Valid()
    decreases |inputs|
  {
    inputs == [] || !s.Running? || (Fresh(s.m) && FreshRun(Tick(s.m, inputs[0]), inputs[1..]))
  }

  /** The two runs are alike after every number of turns. */
  ghost predicate AlwaysAlike(s: RunState, t: RunState, inputs: seq<Input>)
    requires s.Valid() && t.Valid()
  {
    forall n :: 0 <= n <= |inputs| ==> Alike(RunLoop(s, inputs[..n]), RunLoop(t, inputs[..n]))
  }

  lemma AlikeFromNextTurn(m: Machine, r: Machine, inputs: seq<Input>)
    requires m.Valid() && r.Valid() && inputs != [] && Matches(m, r)
    ensures AlwaysAlike(Running(m), Running(r), inputs)
            <==> AlwaysAlike(Tick(m, inputs[0]), Tick(r, inputs[0]), inputs[1..])
  {
    hide Tick, Alike;
    var s, t := Tick(m, inputs[0]), Tick(r, inputs[0]);
    forall n | 1 <= n <= |inputs|
      ensures RunLoop(Running(m), inputs[..n]) == RunLoop(s, inputs[1..][..n - 1])
      ensures RunLoop(Running(r), inputs[..n]) == RunLoop(t, inputs[1..][..n - 1])
    {
      assert inputs[..n][1..] == inputs[1..][..n - 1];
    }
    MatchIsAlike(m, r);
    if AlwaysAlike(Running(m), Running(r), inputs) {
      forall k | 0 <= k <= |inputs[1..]|
        ensures Alike(RunLoop(s, inputs[1..][..k]), RunLoop(t, inputs[1..][..k]))
      {
        assert Alike(RunLoop(Running(m), inputs[..k + 1]), RunLoop(Running(r), inputs[..k + 1]));
      }
    }
    if AlwaysAlike(s, t, inputs[1..]) {
      forall n | 0 <= n <= |inputs|
        ensures Alike(RunLoop(Running(m), inputs[..n]), RunLoop(Running(r), inputs[..n]))
      {
        if n > 0 {
          assert Alike(RunLoop(s, inputs[1..][..n - 1]), RunLoop(t, inputs[1..][..n - 1]));
        }
      }
    }
  }

  lemma MatchIsAlike(m: Machine, r: Machine)
    requires Matches(m, r)
    ensures Alike(Running(m), Running(r))
  {
  }

  /** A run that has ended stays as it is. */
  lemma EndedStays(s: RunState, inputs: seq<Input>)
    requires s.Valid() && !s.Running?
    ensures RunLoop(s, inputs) == s
  {
  }

  lemma {:induction false} AlikeExactly(s: RunState, t: RunState, inputs: seq<Input>)
    requires s.Valid() && t.Valid() && Alike(s, t) && (s.Running? ==> Flat(s.m.bus))
    ensures AlwaysAlike(s, t, inputs) <==> FreshRun(s, inputs)
    decreases |inputs|
  {
    hide Tick, Fresh, Flat, Matches;
    if inputs == [] {
      assert inputs[..0] == [];
    } else if !s.Running? {
      forall n | 0 <= n <= |inputs|
        ensures Alike(RunLoop(s, inputs[..n]), RunLoop(t, inputs[..n]))
      {
        EndedStays(s, inputs[..n]);
        EndedStays(t, inputs[..n]);
      }
    } else {
      AlikeFromNextTurn(s.m, t.m, inputs);
      TickExactly(s.m, t.m, inputs[0]);
      var s', t' := Tick(s.m, inputs[0]), Tick(t.m, inputs[0]);
      if Fresh(s.m) {
        AlikeExactly(s', t', inputs[1..]);
      } else {
        assert !Alike(RunLoop(s', inputs[1..][..0]), RunLoop(t', inputs[1..][..0]));
      }
    }
  }

  /** For every sequence of inputs, aborting runs included: the run of the prefetching core and
      the run of the core without prefetch are alike at every turn if and only if the
      prefetching core is fresh at every turn. */
  lemma InvisibleExactly(m: Machine, r: Machine, inputs: seq<Input>)
    requires m.Valid() && Flat(m.bus) && Matches(m, r)
    ensures (forall n :: 0 <= n <= |inputs| ==>
               Alike(RunLoop(Running(m), inputs[..n]), RunLoop(Running(r), inputs[..n])))
            <==> FreshRun(Running(m), inputs)
  {
    hide FreshRun, RunLoop;
    AlikeExactly(Running(m), Running(r), inputs);
  }

  // ----- the condition on stores -----

  lemma NextAhead(buffer: seq<Word>, p: nat, img: Image, first: nat)
    requires img.Valid() && 0 < p < |buffer| && Ahead(buffer, p, img, first)
    ensures Readable(img, first, 4) && buffer[|buffer| - p] == WordInMemory(img, first)
  {
    hide WordInMemory;
    assert buffer[|buffer| - p + 0] == WordInMemory(img, first + 4 * 0);
  }

  lemma CoherentIsFresh(m: Machine, junk: Byte)
    requires Coherent(m) && Cycle(m, junk).Returns?
    ensures Fresh(m)
  {
    hide Cycle, FetchStage, ToNat, Readable, WordInMemory, Current, Flat, Ahead;
    Pipeline.CycleOfStage(m, junk);
    if m.core.stage.Fetch? {
      if m.core.prefetched == 0 {
        RefillSucceeds(m);
      } else {
        NextAhead(m.core.buffer, m.core.prefetched, m.bus.ram, ToNat(m.core.pc));
      }
    }
  }

  /** A run that does not abort is fresh if it starts coherent and no store of it changes a
      word fetched ahead. This is a condition on stores, and not the exact one: words that a
      jump or a trap drops from the buffer are never served. */
  lemma {:induction false} SafeRunIsFresh(m: Machine, inputs: seq<Input>)
    requires Coherent(m) && SafeRun(Running(m), inputs) && !RunLoop(Running(m), inputs).Crashed?
    ensures FreshRun(Running(m), inputs)
    decreases |inputs|
  {
    hide Tick, Fresh, Overwrites, Ahead, Current, Flat;
    if inputs != [] {
      var s := Tick(m, inputs[0]);
      CrashIsFinal(s, inputs[1..]);
      TickReturns(m, inputs[0]);
      CoherentIsFresh(m, inputs[0].junk);
      var r := Machine(Cut(m.core), m.bus);
      assert Matches(m, r);
      TicksMatch(m, r, inputs[0]);
      if s.Running? {
        SafeRunIsFresh(s.m, inputs[1..]);
      }
    }
  }

  lemma TickReturns(m: Machine, input: Input)
    requires m.Valid() && !Tick(m, input).Crashed?
    ensures Cycle(m, input.junk).Returns?
  {
    hide Cycle, HandleTrap;
  }
}
