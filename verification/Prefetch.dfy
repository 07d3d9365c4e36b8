/** The prefetch buffer is invisible: a core with a buffer of any depth runs like a core
    that reads the word at pc on every fetch, as long as no store changes a word that has
    been fetched ahead. */
module Prefetch {
  import opened Words
  import opened Mmu
  import opened Bus
  import opened Core
  import opened Conformance
  import Pipeline
  import Csr
  import Decoder
  import BusLaws
  import History

  // ----- the buffer agrees with memory -----

  /** The word that starts at address a. */
  function WordInMemory(img: Image, a: nat): Word
    requires img.Valid() && img.InRange(a, 4)
  {
    Compose(img.data[a - img.base..a - img.base + 4])
  }

  /** The words fetched ahead are the words of memory from address first on, and the MMU
      lets them be read. */
  predicate Ahead(buffer: seq<Word>, prefetched: nat, img: Image, first: nat)
    requires img.Valid() && prefetched < |buffer|
  {
    prefetched == 0
    || (Readable(img, first, 4 * prefetched)
        && forall j :: 0 <= j < prefetched ==> buffer[|buffer| - prefetched + j] == WordInMemory(img, first + 4 * j))
  }

  /** The buffer holds the instruction at pc. */
  predicate Current(m: Machine)
    requires m.Valid()
  {
    var a := ToNat(m.core.pc);
    Readable(m.bus.ram, a, 4) && m.core.buffer[0] == WordInMemory(m.bus.ram, a)
  }

  /** What the buffer holds in each state of the core. */
  predicate Coherent(m: Machine) {
    && m.Valid() && Flat(m.bus)
    && (m.core.stage.Trap? <==> !m.core.trapStage.Idle?)
    && match m.core.stage
       case Fetch => Ahead(m.core.buffer, m.core.prefetched, m.bus.ram, ToNat(m.core.pc))
       case Decode => Ahead(m.core.buffer, m.core.prefetched, m.bus.ram, ToNat(m.core.pc) + 4) && Current(m)
       case Execute => Ahead(m.core.buffer, m.core.prefetched, m.bus.ram, ToNat(m.core.pc) + 4) && Current(m)
       case Memory => Ahead(m.core.buffer, m.core.prefetched, m.bus.ram, ToNat(m.core.pc) + 4) && Current(m)
       case Writeback => Ahead(m.core.buffer, m.core.prefetched, m.bus.ram, ToNat(m.core.pc) + 4)
       case Trap => m.core.trapStage.Enter? || m.core.prefetched == 0
  }

  // ----- the core without prefetch -----

  /** The same core with its buffer cut down to the instruction: the state of the same code
      compiled with a prefetch size of one, which reads the word at pc on every fetch. */
  function Cut(c: CoreImage): (r: CoreImage)
    requires c.Valid()
    ensures r.Valid()
  {
    c.(buffer := [c.buffer[0]], prefetched := 0)
  }

  /** r is m without prefetch. The status words of the bus may differ. */
  predicate Matches(m: Machine, r: Machine) {
    m.Valid() && r.Valid() && r.core == Cut(m.core) && r.bus == m.bus.(flags := r.bus.flags)
  }

  // ----- stores into the window -----

  /** The memory stage is about to store. */
  predicate AboutToStore(c: CoreImage) { c.stage.Memory? && !c.decoded.readMem && c.decoded.writeMem }

  /** The store is about to change a byte of a word fetched ahead: it goes through, and
      one of its bytes falls into the window and differs from what is there. */
  predicate Overwrites(m: Machine)
    requires m.Valid()
  {
    var a := ToNat(m.core.decoded.memOffset);
    var bytes := Decompose(m.core.aluOut, m.core.decoded.width);
    var img := m.bus.ram;
    var first := ToNat(m.core.pc) + 4;
    && AboutToStore(m.core)
    && BusLaws.ServedByRam(m.bus.devices, a)
    && Write(img, bytes, a).status.MmuOk?
    && exists k :: 0 <= k < img.size
                   && first <= img.base + k < first + 4 * m.core.prefetched
                   && a <= img.base + k < a + |bytes|
                   && bytes[img.base + k - a] != img.data[k]
  }

  // ----- reading words -----

  /** A block read of n words from readable memory succeeds and returns them in order. */
  lemma BlockOfReadable(b: BusImage, a: nat, n: nat)
    requires Flat(b) && 1 <= n && Readable(b.ram, a, 4 * n)
    ensures ReadMultiple(b, a, n, WORD).Returns?
    ensures var got := ReadMultiple(b, a, n, WORD).value;
            && got.count == n && got.bus == b.(flags := got.bus.flags)
            && got.bytes == b.ram.data[a - b.ram.base..a - b.ram.base + 4 * n]
  {
    assert BusLaws.ServedByRam(b.devices, a);
    History.AllowsExactly(b.ram, a, 4 * n);
  }

  /** A block read that succeeds has read readable memory. */
  lemma BlockSucceeds(b: BusImage, a: nat, n: nat)
    requires Flat(b) && 1 <= n
    requires ReadMultiple(b, a, n, WORD).Returns? && ReadMultiple(b, a, n, WORD).value.count == n
    ensures Readable(b.ram, a, 4 * n)
    ensures var got := ReadMultiple(b, a, n, WORD).value;
            && got.bus == b.(flags := got.bus.flags)
            && got.bytes == b.ram.data[a - b.ram.base..a - b.ram.base + 4 * n]
  {
    if b.ram.InRange(a, 4 * n) {
      History.AllowsExactly(b.ram, a, 4 * n);
    }
  }

  lemma WordOfBlock(img: Image, a: nat, n: nat, j: nat)
    requires img.Valid() && img.InRange(a, 4 * n) && j < n
    ensures WordAt(img.data[a - img.base..a - img.base + 4 * n], j) == WordInMemory(img, a + 4 * j)
  {
    var o := a - img.base;
    assert img.data[o..o + 4 * n][4 * j..4 * j + 4] == img.data[o + 4 * j..o + 4 * j + 4];
  }

  lemma ReadableTail(img: Image, a: nat, n: nat, a': nat, n': nat)
    requires img.Valid() && Readable(img, a, n) && a <= a' && a' + n' <= a + n
    ensures Readable(img, a', n')
  {
  }

  // ----- fetch -----

  lemma RefillIsCoherent(m: Machine)
    requires Coherent(m) && m.core.stage.Fetch? && m.core.prefetched == 0 && FetchStage(m).Returns?
    ensures var m' := FetchStage(m).value;
            && m'.bus == m.bus.(flags := m'.bus.flags)
            && Current(m')
            && m'.core.prefetched == |m'.core.buffer| - 1
            && Ahead(m'.core.buffer, m'.core.prefetched, m'.bus.ram, ToNat(m'.core.pc) + 4)
  {
    hide ReadMultiple, ToNat, WordInMemory, WordAt;
    var a := ToNat(m.core.pc);
    var n := |m.core.buffer|;
    BlockSucceeds(m.bus, a, n);
    var m' := FetchStage(m).value;
    ReadableTail(m.bus.ram, a, 4 * n, a, 4);
    ReadableTail(m.bus.ram, a, 4 * n, a + 4, 4 * (n - 1));
    WordOfBlock(m.bus.ram, a, n, 0);
    forall j | 0 <= j < n - 1
      ensures m'.core.buffer[1 + j] == WordInMemory(m'.bus.ram, a + 4 + 4 * j)
    {
      WordOfBlock(m.bus.ram, a, n, 1 + j);
    }
  }

  lemma ServeIsCoherent(m: Machine)
    requires Coherent(m) && m.core.stage.Fetch? && m.core.prefetched != 0
    ensures FetchStage(m).Returns?
    ensures var m' := FetchStage(m).value;
            && m'.bus == m.bus
            && Current(m')
            && m'.core.prefetched == m.core.prefetched - 1
            && Ahead(m'.core.buffer, m'.core.prefetched, m'.bus.ram, ToNat(m'.core.pc) + 4)
  {
    hide ReadMultiple, ToNat, WordInMemory;
    var a := ToNat(m.core.pc);
    var p := m.core.prefetched;
    var n := |m.core.buffer|;
    var m' := FetchStage(m).value;
    ReadableTail(m.bus.ram, a, 4 * p, a, 4);
    ReadableTail(m.bus.ram, a, 4 * p, a + 4, 4 * (p - 1));
    assert m.core.buffer[n - p + 0] == WordInMemory(m.bus.ram, a + 4 * 0);
    forall j | 0 <= j < p - 1
      ensures m'.core.buffer[n - (p - 1) + j] == WordInMemory(m'.bus.ram, a + 4 + 4 * j)
    {
      assert m.core.buffer[n - p + (j + 1)] == WordInMemory(m.bus.ram, a + 4 * (j + 1));
    }
  }

  /** A fetch from a coherent buffer delivers the word in memory at pc. A refill takes in the
      whole block, any other fetch takes one word out, and the words that remain are those of
      memory from pc + 4 on. */
  lemma FetchIsCoherent(m: Machine)
    requires Coherent(m) && m.core.stage.Fetch? && FetchStage(m).Returns?
    ensures var m' := FetchStage(m).value;
            && m'.core == m.core.(buffer := m'.core.buffer, prefetched := m'.core.prefetched)
            && m'.bus == m.bus.(flags := m'.bus.flags)
            && |m'.core.buffer| == |m.core.buffer|
            && m'.core.prefetched == (if m.core.prefetched == 0 then |m.core.buffer| else m.core.prefetched) - 1
            && Current(m')
            && Ahead(m'.core.buffer, m'.core.prefetched, m'.bus.ram, ToNat(m'.core.pc) + 4)
  {
    hide FetchStage, Current, Ahead, ToNat;
    Pipeline.FetchKeeps(m);
    if m.core.prefetched == 0 { RefillIsCoherent(m); } else { ServeIsCoherent(m); }
  }

  /** The core without prefetch fetches the word at pc. */
  lemma ReferenceFetch(r: Machine)
    requires r.Valid() && Flat(r.bus) && r.core.stage.Fetch? && |r.core.buffer| == 1
    requires Readable(r.bus.ram, ToNat(r.core.pc), 4)
    ensures FetchStage(r).Returns?
    ensures var r' := FetchStage(r).value;
            && r'.core == r.core.(buffer := [WordInMemory(r.bus.ram, ToNat(r.core.pc))], prefetched := 0)
            && r'.bus == r.bus.(flags := r'.bus.flags)
  {
    hide ReadMultiple, ToNat, Compose, Readable;
    InRangeIfReadable(r.bus.ram, ToNat(r.core.pc), 4);
    BlockOfReadable(r.bus, ToNat(r.core.pc), 1);
    WordOfBlock(r.bus.ram, ToNat(r.core.pc), 1, 0);
  }

  // ----- stores -----

  /** Two images hold the same n bytes from address first on. */
  predicate SameOver(x: Image, y: Image, first: nat, n: nat)
    requires x.Valid() && y.Valid() && x.size == y.size
  {
    forall k :: 0 <= k < x.size && first <= x.base + k < first + n ==> x.data[k] == y.data[k]
  }

  lemma ComposeIsInjective(x: seq<Byte>, y: seq<Byte>)
    requires |x| == 4 && |y| == 4 && Compose(x) == Compose(y)
    ensures x[0] == y[0] && x[1] == y[1] && x[2] == y[2] && x[3] == y[3]
  {
    BytesOfCompose(x[0], x[1], x[2], x[3]);
    BytesOfCompose(y[0], y[1], y[2], y[3]);
    hide ByteOf;
  }

  lemma BytesOfCompose(a: Byte, b: Byte, c: Byte, d: Byte)
    ensures var w := (a as Word) | ((b as Word) << 8) | ((c as Word) << 16) | ((d as Word) << 24);
            ByteOf(w, 0) == a && ByteOf(w, 1) == b && ByteOf(w, 2) == c && ByteOf(w, 3) == d
  {
  }

  /** Two images hold the same word at an address exactly when they hold the same bytes. */
  lemma SameWord(x: Image, y: Image, a: nat)
    requires x.Valid() && y.Valid() && y.base == x.base && y.size == x.size && x.InRange(a, 4)
    ensures WordInMemory(x, a) == WordInMemory(y, a)
            <==> forall k :: a - x.base <= k < a - x.base + 4 ==> x.data[k] == y.data[k]
  {
    hide Compose;
    var o := a - x.base;
    if WordInMemory(x, a) == WordInMemory(y, a) {
      ComposeIsInjective(x.data[o..o + 4], y.data[o..o + 4]);
      forall k | o <= k < o + 4
        ensures x.data[k] == y.data[k]
      {
        assert x.data[k] == x.data[o..o + 4][k - o];
      }
    } else {
      assert x.data[o..o + 4] != y.data[o..o + 4];
    }
  }

  /** The buffer stays in step with memory exactly when no byte of the window changes. */
  lemma AheadAfterChange(buffer: seq<Word>, p: nat, x: Image, y: Image, first: nat)
    requires x.Valid() && y.Valid() && y.base == x.base && y.size == x.size && p < |buffer|
    requires forall k :: 0 <= k < x.size && x.perm[k].read ==> y.perm[k].read
    requires Ahead(buffer, p, x, first)
    ensures Ahead(buffer, p, y, first) <==> SameOver(x, y, first, 4 * p)
  {
    hide WordInMemory;
    if SameOver(x, y, first, 4 * p) && p != 0 {
      forall j | 0 <= j < p
        ensures buffer[|buffer| - p + j] == WordInMemory(y, first + 4 * j)
      {
        assert buffer[|buffer| - p + j] == WordInMemory(x, first + 4 * j);
        SameWord(x, y, first + 4 * j);
      }
    }
    if Ahead(buffer, p, y, first) && p != 0 {
      forall k | 0 <= k < x.size && first <= x.base + k < first + 4 * p
        ensures x.data[k] == y.data[k]
      {
        var j := (x.base + k - first) / 4;
        assert buffer[|buffer| - p + j] == WordInMemory(x, first + 4 * j);
        assert buffer[|buffer| - p + j] == WordInMemory(y, first + 4 * j);
        SameWord(x, y, first + 4 * j);
      }
    }
  }

  /** What a store leaves of the bus. */
  lemma StoreEffect(b: BusImage, a: nat, v: Word, width: Width)
    requires Flat(b) && WriteSingle(b, a, v, width).Returns?
    ensures var b' := WriteSingle(b, a, v, width).value;
            && b' == b.(ram := b'.ram, flags := b'.flags)
            && b'.ram == (if BusLaws.ServedByRam(b.devices, a) then Write(b.ram, Decompose(v, width), a).image
                          else b.ram)
            && b'.ram.base == b.ram.base && b'.ram.size == b.ram.size
            && (forall k :: 0 <= k < b.ram.size && b.ram.perm[k].read ==> b'.ram.perm[k].read)
            && (b'.flags.bus == if Mapped(b, a) then BusOk else AddressNotFound)
            && Flat(b')
  {
    hide Decompose, Write;
    History.WriteIsExact(b.ram, Decompose(v, width), a);
    WriteKeepsPlace(b.ram, Decompose(v, width), a);
  }

  lemma WriteKeepsPlace(img: Image, src: seq<Byte>, addr: nat)
    requires img.Valid()
    ensures Write(img, src, addr).image.base == img.base && Write(img, src, addr).image.size == img.size
  {
  }

  /** A store changes a byte of the window exactly when it overwrites it. */
  lemma OverwritesExactly(m: Machine)
    requires m.Valid() && Flat(m.bus) && AboutToStore(m.core)
    requires WriteSingle(m.bus, ToNat(m.core.decoded.memOffset), m.core.aluOut, m.core.decoded.width).Returns?
    ensures var b' := WriteSingle(m.bus, ToNat(m.core.decoded.memOffset), m.core.aluOut, m.core.decoded.width).value;
            && b'.ram.size == m.bus.ram.size && b'.ram.base == m.bus.ram.base
            && (SameOver(m.bus.ram, b'.ram, ToNat(m.core.pc) + 4, 4 * m.core.prefetched) <==> !Overwrites(m))
  {
    hide Decompose, Write, WriteSingle, ToNat, BusLaws.ServedByRam;
    var a := ToNat(m.core.decoded.memOffset);
    var bytes := Decompose(m.core.aluOut, m.core.decoded.width);
    StoreEffect(m.bus, a, m.core.aluOut, m.core.decoded.width);
    History.WriteIsExact(m.bus.ram, bytes, a);
  }

  /** A store keeps the buffer coherent exactly when it does not overwrite a word that has
      been fetched ahead. */
  lemma StoreCoherence(m: Machine, junk: Byte)
    requires Coherent(m) && AboutToStore(m.core) && Cycle(m, junk).Returns?
    requires !Cycle(m, junk).value.core.stage.Trap?
    ensures Coherent(Cycle(m, junk).value) <==> !Overwrites(m)
  {
    hide Cycle, FetchCycle, DecodeCycle, ExecuteCycle, WritebackCycle, TrapCycle;
    hide WriteSingle, ToNat, Overwrites, Ahead, SameOver, Current;
    Pipeline.CycleOfStage(m, junk);
    Pipeline.StoreCycle(m, junk);
    var a := ToNat(m.core.decoded.memOffset);
    StoreEffect(m.bus, a, m.core.aluOut, m.core.decoded.width);
    OverwritesExactly(m);
    var b' := WriteSingle(m.bus, a, m.core.aluOut, m.core.decoded.width).value;
    AheadAfterChange(m.core.buffer, m.core.prefetched, m.bus.ram, b'.ram, ToNat(m.core.pc) + 4);
  }

  // ----- one cycle of both cores -----

  lemma CutFetch(m: Machine, r: Machine)
    requires Coherent(m) && Matches(m, r) && m.core.stage.Fetch? && FetchCycle(m).Returns?
    ensures FetchCycle(r).Returns? && Matches(FetchCycle(m).value, FetchCycle(r).value)
    ensures Coherent(FetchCycle(m).value)
  {
    hide FetchStage, ToNat, Ahead, Readable;
    FetchIsCoherent(m);
    ReferenceFetch(r);
  }

  lemma CutAdvance(c: CoreImage, next: Stage)
    requires c.Valid()
    ensures Advance(Cut(c), next) == Cut(Advance(c, next))
  {
  }

  lemma CutCauseTrap(c: CoreImage, cause: Word)
    requires c.Valid()
    ensures CauseTrap(c, cause).Valid() && CauseTrap(Cut(c), cause) == Cut(CauseTrap(c, cause))
  {
  }

  lemma CutDecode(c: CoreImage)
    requires c.Valid()
    ensures Advance(DecodeStage(Cut(c)), Execute) == Cut(Advance(DecodeStage(c), Execute))
  {
    hide Decoder.DecodeWord, Advance, CauseTrap;
    var d := c.(decoded := Decoder.DecodeWord(c.buffer[0], c.regs, c.decoded));
    CutCauseTrap(d, Decoder.ILLEGAL_INSTRUCTION);
    CutAdvance(DecodeStage(c), Execute);
    assert DecodeStage(Cut(c)) == Cut(DecodeStage(c));
  }

  lemma CutExecute(c: CoreImage)
    requires c.Valid() && ExecuteStage(c).Returns?
    ensures ExecuteStage(Cut(c)).Returns?
    ensures Advance(ExecuteStage(Cut(c)).value, Memory) == Cut(Advance(ExecuteStage(c).value, Memory))
  {
    hide Decoder.Execute, Advance, CauseTrap;
    var e := Decoder.Execute(c.decoded, c.pc, c.aluOut);
    if e.effect.RaiseTrap? {
      CutCauseTrap(c.(decoded := e.dec, aluOut := e.aluOut), e.effect.cause);
    }
    CutAdvance(ExecuteStage(c).value, Memory);
    assert ExecuteStage(Cut(c)).value == Cut(ExecuteStage(c).value);
  }

  lemma CutWriteback(c: CoreImage)
    requires c.Valid()
    ensures Advance(WritebackStage(Cut(c)), Fetch) == Cut(Advance(WritebackStage(c), Fetch))
  {
    hide Decoder.RegWrite, Plus, Advance;
    CutAdvance(WritebackStage(c), Fetch);
    assert WritebackStage(Cut(c)) == Cut(WritebackStage(c));
  }

  lemma CutTrapStep(c: CoreImage)
    requires c.Valid() && TrapStep(c).Returns?
    ensures TrapStep(Cut(c)) == Returns(Cut(TrapStep(c).value))
  {
    hide Plus, Csr.Write32, Csr.Clear32, Csr.Low;
  }

  lemma CutTrap(c: CoreImage)
    requires c.Valid() && TrapStep(c).Returns?
    ensures TrapStep(Cut(c)).Returns?
    ensures Advance(TrapStep(Cut(c)).value, Fetch) == Cut(Advance(TrapStep(c).value, Fetch))
  {
    hide TrapStep, Advance;
    CutTrapStep(c);
    CutAdvance(TrapStep(c).value, Fetch);
  }

  /** Single accesses do not depend on the status words that earlier ones left behind. */
  lemma LoadIgnoresFlags(b: BusImage, b': BusImage, a: nat, width: Width, junk: Byte)
    requires b.Valid() && b'.Valid() && b' == b.(flags := b'.flags) && ReadSingle(b, a, width, junk).Returns?
    ensures ReadSingle(b', a, width, junk).Returns?
    ensures var x := ReadSingle(b, a, width, junk).value;
            var y := ReadSingle(b', a, width, junk).value;
            && x.value == y.value && x.bus.flags.bus == y.bus.flags.bus
            && x.bus == b.(flags := x.bus.flags) && y.bus == x.bus.(flags := y.bus.flags)
  {
    hide ReadRam, FindDevice;
  }

  lemma StoreIgnoresFlags(b: BusImage, b': BusImage, a: nat, v: Word, width: Width)
    requires b.Valid() && b'.Valid() && b' == b.(flags := b'.flags) && WriteSingle(b, a, v, width).Returns?
    ensures WriteSingle(b', a, v, width).Returns?
    ensures var x := WriteSingle(b, a, v, width).value;
            var y := WriteSingle(b', a, v, width).value;
            x.flags.bus == y.flags.bus && y == x.(flags := y.flags)
  {
    hide WriteRam, FindDevice, Decompose;
  }

  /** What the memory stage leaves of a core, trapped or not. */
  lemma MemoryEnds(c: CoreImage, cause: Word)
    requires c.Valid() && c.stage.Memory?
    ensures var t := Pipeline.AfterTrap(c, cause);
            && t.stage.Trap? && t.trapStage.Enter?
            && t.pc == c.pc && t.buffer == c.buffer && t.prefetched == c.prefetched
    ensures var n := Advance(c, Writeback);
            && n.stage.Writeback? && n.trapStage == c.trapStage
            && n.pc == c.pc && n.buffer == c.buffer && n.prefetched == c.prefetched
  {
    hide Csr.Write32;
  }

  lemma CutMemory(c: CoreImage, cause: Word)
    requires c.Valid() && c.stage.Memory?
    ensures Pipeline.AfterTrap(Cut(c), cause) == Cut(Pipeline.AfterTrap(c, cause))
    ensures Advance(Cut(c), Writeback) == Cut(Advance(c, Writeback))
  {
    hide Advance, CauseTrap;
    CutCauseTrap(c, cause);
    CutAdvance(CauseTrap(c, cause), Memory);
    CutAdvance(c, Writeback);
  }

  lemma CutLoad(m: Machine, r: Machine, junk: Byte)
    requires Coherent(m) && Matches(m, r) && m.core.stage.Memory? && m.core.decoded.readMem
    requires MemoryCycle(m, junk).Returns?
    ensures MemoryCycle(r, junk).Returns? && Matches(MemoryCycle(m, junk).value, MemoryCycle(r, junk).value)
    ensures Coherent(MemoryCycle(m, junk).value)
  {
    hide MemoryCycle, ReadSingle, ToNat, LoadFault, Ahead, Current, Advance, CauseTrap, BusLaws.ServedByRam;
    var d := m.core.decoded;
    Pipeline.LoadCycle(m, junk);
    Pipeline.LoadCycle(r, junk);
    LoadIgnoresFlags(m.bus, r.bus, ToNat(d.memOffset), d.width, junk);
    var got := ReadSingle(m.bus, ToNat(d.memOffset), d.width, junk).value;
    CutMemory(m.core.(aluOut := got.value), LoadFault(got.bus.flags.bus));
    MemoryEnds(m.core.(aluOut := got.value), LoadFault(got.bus.flags.bus));
  }

  lemma CutStore(m: Machine, r: Machine, junk: Byte)
    requires Coherent(m) && Matches(m, r) && AboutToStore(m.core) && MemoryCycle(m, junk).Returns?
    ensures MemoryCycle(r, junk).Returns? && Matches(MemoryCycle(m, junk).value, MemoryCycle(r, junk).value)
    ensures !Overwrites(m) ==> Coherent(MemoryCycle(m, junk).value)
  {
    hide MemoryCycle, WriteSingle, ToNat, StoreFault, Ahead, Current, Overwrites, SameOver, Advance, CauseTrap;
    hide BusLaws.ServedByRam, Write, Decompose;
    var a := ToNat(m.core.decoded.memOffset);
    Pipeline.StoreCycle(m, junk);
    Pipeline.StoreCycle(r, junk);
    StoreIgnoresFlags(m.bus, r.bus, a, m.core.aluOut, m.core.decoded.width);
    StoreEffect(m.bus, a, m.core.aluOut, m.core.decoded.width);
    OverwritesExactly(m);
    var b' := WriteSingle(m.bus, a, m.core.aluOut, m.core.decoded.width).value;
    AheadAfterChange(m.core.buffer, m.core.prefetched, m.bus.ram, b'.ram, ToNat(m.core.pc) + 4);
    CutMemory(m.core, StoreFault(b'.flags.bus));
    MemoryEnds(m.core, StoreFault(b'.flags.bus));
  }

  lemma CutPass(m: Machine, r: Machine, junk: Byte)
    requires Coherent(m) && Matches(m, r) && m.core.stage.Memory?
    requires !m.core.decoded.readMem && !m.core.decoded.writeMem
    ensures MemoryCycle(m, junk).Returns? && MemoryCycle(r, junk).Returns?
    ensures Matches(MemoryCycle(m, junk).value, MemoryCycle(r, junk).value)
    ensures Coherent(MemoryCycle(m, junk).value)
  {
    hide ReadSingle, WriteSingle, ToNat, Ahead, Current;
  }

  lemma DecodeIsCoherent(m: Machine)
    requires Coherent(m) && m.core.stage.Decode?
    ensures Coherent(DecodeCycle(m).value)
  {
    hide Decoder.DecodeWord, ToNat, Ahead;
  }

  lemma ExecuteIsCoherent(m: Machine)
    requires Coherent(m) && m.core.stage.Execute? && ExecuteCycle(m).Returns?
    ensures Coherent(ExecuteCycle(m).value)
  {
    hide ExecuteCycle, Decoder.Execute, ToNat, Ahead, Current;
    Pipeline.CycleOfExecute(m);
    ExecuteFails(m);
    CurrentIgnoresRest(m, ExecuteCycle(m).value);
  }

  lemma ExecuteFails(m: Machine)
    requires m.Valid() && ExecuteCycle(m).Returns?
    ensures !Decoder.Execute(m.core.decoded, m.core.pc, m.core.aluOut).effect.AssertFails?
  {
    hide Decoder.Execute;
  }

  lemma CurrentIgnoresRest(m: Machine, m': Machine)
    requires m.Valid() && m'.Valid() && m'.core.pc == m.core.pc && m'.core.buffer == m.core.buffer && m'.bus == m.bus
    ensures Current(m') == Current(m)
  {
  }

  /** The trap states follow one another, and what is prefetched is dropped on entry and exit. */
  lemma TrapShape(c: CoreImage)
    requires c.Valid() && c.stage.Trap? && TrapStep(c).Returns?
    ensures var r := Advance(TrapStep(c).value, Fetch);
            && r.Valid() && r.buffer == c.buffer
            && match c.trapStage
               case Idle => false
               case Enter => r.stage.Trap? && r.trapStage.Handle? && r.prefetched == 0
               case Handle => r.stage.Trap? && r.trapStage.Exit? && r.prefetched == c.prefetched
               case Exit => r.stage.Fetch? && r.trapStage.Idle? && r.prefetched == 0
  {
    hide Plus, Csr.Write32, Csr.Clear32, Csr.Low;
  }

  lemma TrapIsCoherent(m: Machine)
    requires Coherent(m) && m.core.stage.Trap? && TrapCycle(m).Returns?
    ensures Coherent(TrapCycle(m).value)
  {
    hide ToNat, TrapStep, Advance, Ahead, Current, Flat;
    TrapShape(m.core);
    NothingAhead(m.core.buffer, m.bus.ram, ToNat(TrapCycle(m).value.core.pc));
  }

  /** Moving on to the next instruction moves the window with it. */
  lemma NextWindow(buffer: seq<Word>, p: nat, img: Image, pc: Word)
    requires img.Valid() && p < |buffer| && img.base + img.size <= U32_LIMIT
    requires Ahead(buffer, p, img, ToNat(pc) + 4)
    ensures Ahead(buffer, p, img, ToNat(Plus(pc, 4)))
  {
    hide ToNat, Plus, WordInMemory;
    AddFour(pc);
  }

  lemma WritebackIsCoherent(m: Machine)
    requires Coherent(m) && m.core.stage.Writeback?
    ensures Coherent(WritebackCycle(m).value)
  {
    NextWindow(m.core.buffer, m.core.prefetched, m.bus.ram, m.core.pc);
    hide ToNat, Plus, Decoder.RegWrite;
    NothingAhead(m.core.buffer, m.bus.ram, ToNat(m.core.decoded.jumpTarget));
    hide Ahead;
  }

  lemma NothingAhead(buffer: seq<Word>, img: Image, first: nat)
    requires img.Valid() && 1 <= |buffer|
    ensures Ahead(buffer, 0, img, first)
  {
  }

  /** One cycle takes matching cores to matching cores, and keeps the buffer coherent unless
      it overwrites a word fetched ahead. */
  lemma CycleMatches(m: Machine, r: Machine, junk: Byte)
    requires Coherent(m) && Matches(m, r) && Cycle(m, junk).Returns?
    ensures Cycle(r, junk).Returns? && Matches(Cycle(m, junk).value, Cycle(r, junk).value)
    ensures !Overwrites(m) ==> Coherent(Cycle(m, junk).value)
  {
    hide Cycle, FetchCycle, MemoryCycle, Advance, DecodeStage, ExecuteStage, WritebackStage, TrapStep;
    hide Overwrites, ToNat, Ahead, Current;
    Pipeline.CycleOfStage(m, junk);
    Pipeline.CycleOfStage(r, junk);
    match m.core.stage {
      case Fetch => CutFetch(m, r);
      case Decode =>
        CutDecode(m.core);
        DecodeIsCoherent(m);
      case Execute =>
        CutExecute(m.core);
        ExecuteIsCoherent(m);
      case Memory =>
        if m.core.decoded.readMem {
          CutLoad(m, r, junk);
        } else if m.core.decoded.writeMem {
          CutStore(m, r, junk);
        } else {
          CutPass(m, r, junk);
        }
      case Writeback =>
        CutWriteback(m.core);
        WritebackIsCoherent(m);
      case Trap =>
        CutTrap(m.core);
        TrapIsCoherent(m);
    }
  }
}
