/** The core as an object: core_t and the functions of src/cpu.c that update it in place,
    and the loop of src/emulator.c around them. Each method is proved against the function
    of module Core that it carries out; a method returns false where the source fails an
    assertion or waits for ever. */
module Cpu {
  import opened Words
  import opened Mmu
  import opened Bus
  import opened Decoder
  import opened Core
  import Csr
  import History

  datatype LoopEnd = InputsUsedUp | HandlerStopped | Aborted

  class CoreUnit {
    const bus: BusUnit
    const csr: Csr.CsrUnit
    const buffer: array<Word>
    const registers: array<Word>
    const trapRegs: array<Word>
    var stage: Stage
    var trapStage: TrapStage
    var decoded: Decoded
    var pc: Word
    var aluOut: Word
    var cycle: nat
    var trapPc: Word
    var prefetched: nat

    ghost predicate OffMemory(a: object) {
      a != bus.mmu.data && a != bus.mmu.perm && a != bus.mmu.dirty
    }

    /** The arrays of the core are distinct from each other and from those of its memory. */
    ghost predicate Apart() {
      && buffer != registers && buffer != trapRegs && registers != trapRegs
      && csr.state as object != buffer && csr.state as object != registers && csr.state as object != trapRegs
      && OffMemory(csr.state) && OffMemory(buffer) && OffMemory(registers) && OffMemory(trapRegs)
    }

    ghost predicate Valid()
      reads this, bus, bus.mmu
    {
      && Apart()
      && bus.Valid() && csr.Valid()
      && 1 <= buffer.Length <= 16 && prefetched < buffer.Length
      && registers.Length == REG_COUNT && trapRegs.Length == REG_COUNT
      && cycle < U64_LIMIT
    }

    ghost function Image(): (c: CoreImage)
      requires Valid()
      reads this, bus, bus.mmu, csr.state, buffer, registers, trapRegs
      ensures c.Valid()
    {
      CoreImage(stage, buffer[..], decoded, pc, aluOut, registers[..], cycle, csr.state[..], trapPc,
                trapRegs[..], prefetched, trapStage)
    }

    ghost function Value(): (m: Machine)
      requires Valid()
      reads this, bus, bus.mmu, csr.state, buffer, registers, trapRegs, bus.mmu.data, bus.mmu.perm, bus.mmu.dirty
      ensures m.Valid()
    {
      Machine(Image(), bus.Value())
    }

    /** cpu_init and core_init, for a given prefetch depth. */
    constructor (bus: BusUnit, depth: nat, pc: Word)
      requires bus.Valid() && 1 <= depth <= 16
      ensures Valid() && this.bus == bus
      ensures fresh(csr) && fresh(csr.state) && fresh(buffer) && fresh(registers) && fresh(trapRegs)
      ensures Value() == Machine(InitialCore(depth, pc), bus.Value())
    {
      this.bus := bus;
      csr := new Csr.CsrUnit();
      buffer := new Word[depth](_ => 0);
      registers := new Word[REG_COUNT](_ => 0);
      trapRegs := new Word[REG_COUNT](_ => 0);
      stage, trapStage, decoded := Fetch, Idle, CLEARED;
      this.pc, aluOut, trapPc, cycle, prefetched := pc, 0, 0, 0, 0;
      new;
      assert buffer[..] == Fill(depth, 0) && csr.state[..] == Fill(Csr.CSR_COUNT, 0);
      assert registers[..] == Fill(REG_COUNT, 0) && trapRegs[..] == Fill(REG_COUNT, 0);
    }

    /** cause_trap */
    method CauseTrap(cause: Word)
      requires Valid()
      modifies this`stage, this`trapStage, csr.state
      ensures Valid()
      ensures Value() == old(Value()).(core := Core.CauseTrap(old(Image()), cause))
    {
      stage := Trap;
      trapStage := Enter;
      var _ := csr.ReadWrite32(Csr.MCAUSE, cause);
    }

    /** fetch */
    method FetchInstruction() returns (ok: bool)
      requires Valid()
      modifies this`prefetched, buffer, bus`states, bus`status, bus`held, bus.mmu`status
      ensures Valid()
      ensures ok <==> FetchStage(old(Value())).Returns?
      ensures ok ==> Value() == FetchStage(old(Value())).value
    {
      hide ToNat, ReadMultiple;
      if prefetched == 0 {
        var got := bus.LoadBlock(ToNat(pc), buffer.Length, WORD);
        if got.None? || got.value.0 != buffer.Length {
          return false;
        }
        FillBuffer(got.value.1);
        prefetched := buffer.Length - 1;
      } else {
        buffer[0] := buffer[buffer.Length - prefetched];
        prefetched := prefetched - 1;
      }
      return true;
    }

    /** The copy that a block read makes into the buffer. */
    method FillBuffer(bytes: seq<Byte>)
      requires Valid() && |bytes| == 4 * buffer.Length
      modifies buffer
      ensures Valid()
      ensures buffer[..] == WordsOf(bytes, buffer.Length)
    {
      hide WordAt;
      var k := 0;
      while k < buffer.Length
        invariant 0 <= k <= buffer.Length
        invariant forall i :: 0 <= i < k ==> buffer[i] == WordAt(bytes, i)
      {
        buffer[k] := WordAt(bytes, k);
        k := k + 1;
      }
    }

    /** REG_R */
    function ReadRegister(r: bv5): (v: Word)
      requires registers.Length == REG_COUNT
      reads registers
      ensures v == RegRead(registers[..], r)
    {
      if r == 0 then 0 else registers[Index(r)]
    }

    /** The fields that decode fills in for every format. */
    method SplitCommonFields(i: Word)
      requires registers.Length == REG_COUNT
      modifies this`decoded
      ensures decoded == CommonFields(i, registers[..], old(decoded))
    {
      hide OpTypeOf, Opcode, Rd, Rs1, Rs2, Funct3, ReadRegister, RegRead;
      decoded := decoded.(isJump := false, writeRd := false, writeMem := false, readMem := false);
      decoded := decoded.(opcode := Opcode(i));
      decoded := decoded.(optype := OpTypeOf(decoded.opcode));
      decoded := decoded.(rs1 := Rs1(i));
      decoded := decoded.(rs1v := ReadRegister(decoded.rs1));
      decoded := decoded.(rs2 := Rs2(i));
      decoded := decoded.(rs2v := ReadRegister(decoded.rs2));
      decoded := decoded.(funct3 := Funct3(i), shamt := Rs2(i));
      decoded := decoded.(rd := Rd(i), funct7 := 0);
    }

    /** The fields of the instruction word. */
    method SplitFields(i: Word)
      requires registers.Length == REG_COUNT
      modifies this`decoded
      ensures decoded == DecodeWord(i, registers[..], old(decoded))
    {
      hide CommonFields, Funct7, ImmI, ImmS, ImmB, ImmU, ImmJ;
      SplitCommonFields(i);
      match decoded.optype {
        case TypeC =>
        case TypeR => decoded := decoded.(funct7 := Funct7(i));
        case TypeI => decoded := decoded.(imm12 := ImmI(i));
        case TypeS => decoded := decoded.(imm12 := ImmS(i));
        case TypeB => decoded := decoded.(imm12 := ImmB(i));
        case TypeU => decoded := decoded.(imm20 := ImmU(i));
        case TypeJ => decoded := decoded.(imm20 := ImmJ(i));
        case Unknown =>
      }
    }

    /** decode */
    method Decode()
      requires Valid()
      modifies this`decoded, this`stage, this`trapStage, csr.state
      ensures Valid()
      ensures Value() == old(Value()).(core := DecodeStage(old(Image())))
    {
      hide DecodeWord, Core.CauseTrap;
      SplitFields(buffer[0]);
      if decoded.optype.Unknown? {
        CauseTrap(ILLEGAL_INSTRUCTION);
      }
    }

    /** The register-register operations. */
    method Combine(op: Word, a: Word, b: Word) returns (legal: bool)
      modifies this`aluOut
      ensures RegisterResult(op, a, b) == if legal then Some(aluOut) else None
      ensures !legal ==> aluOut == old(aluOut)
    {
      hide Op, Plus, Minus, Xor, BitOr, BitAnd, ShiftLeft, ShiftRight, Shamt, Less, SignedLess, Flag;
      if op == OP_ADD { aluOut := Plus(a, b); }
      else if op == OP_SUB { aluOut := Minus(a, b); }
      else if op == OP_SLL { aluOut := ShiftLeft(a, Shamt(b)); }
      else if op == OP_SLT { aluOut := Flag(SignedLess(a, b)); }
      else if op == OP_SLTU { aluOut := Flag(Less(a, b)); }
      else if op == OP_XOR { aluOut := Xor(a, b); }
      else if op == OP_SRL { aluOut := ShiftRight(a, Shamt(b)); }
      else if op == OP_SRA { aluOut := ShiftRight(a, Shamt(b)); }
      else if op == OP_OR { aluOut := BitOr(a, b); }
      else if op == OP_AND { aluOut := BitAnd(a, b); }
      else { return false; }
      return true;
    }

    /** The register-register arm of execute. */
    method OperateOnRegisters() returns (legal: bool)
      modifies this`decoded, this`aluOut
      ensures Executed(decoded, aluOut, if legal then Proceed else RaiseTrap(ILLEGAL_INSTRUCTION))
              == ExecuteR(old(decoded), old(aluOut))
    {
      hide RegisterResult, LongOp;
      var op := LongOp(decoded);
      decoded := decoded.(writeRd := true);
      legal := Combine(op, decoded.rs1v, decoded.rs2v);
    }

    /** The address of a load, its width, and what it leaves in aluOut meanwhile. */
    method AimLoad(imm: Word, width: Width, alu: Word)
      modifies this`decoded, this`aluOut
      ensures decoded == old(decoded).(memOffset := Plus(old(decoded).rs1v, imm), width := width, readMem := true)
      ensures aluOut == alu
    {
      aluOut := alu;
      decoded := decoded.(memOffset := Plus(decoded.rs1v, imm));
      decoded := decoded.(width := width);
      decoded := decoded.(readMem := true);
    }

    /** The operations on immediates. */
    method CombineImmediate(op: Word, a: Word, imm: Word, shamt: bv5) returns (ok: bool)
      modifies this`aluOut
      ensures ImmediateResult(op, a, imm, shamt) == if ok then Some(aluOut) else None
      ensures !ok ==> aluOut == old(aluOut)
    {
      hide Op, Plus, Xor, BitOr, BitAnd, ShiftLeft, ShiftRight, ShiftRightSigned, Less, SignedLess, Flag;
      if op == OP_ADDI { aluOut := Plus(a, imm); }
      else if op == OP_SLTI { aluOut := Flag(SignedLess(a, imm)); }
      else if op == OP_SLTIU { aluOut := Flag(Less(a, imm)); }
      else if op == OP_XORI { aluOut := Xor(a, imm); }
      else if op == OP_ORI { aluOut := BitOr(a, BitAnd(imm, 0xfff)); }
      else if op == OP_ANDI { aluOut := BitAnd(a, imm); }
      else if op == OP_SLLI { aluOut := ShiftLeft(a, shamt); }
      else if op == OP_SRLI { aluOut := ShiftRight(a, shamt); }
      else if op == OP_SRAI { aluOut := ShiftRightSigned(a, shamt); }
      else { return false; }
      return true;
    }

    /** The immediate arm of execute: JALR, the loads and the operations on immediates. */
    method OperateOnImmediate() returns (ok: bool)
      modifies this`decoded, this`aluOut
      ensures Executed(decoded, aluOut, if ok then Proceed else AssertFails)
              == ExecuteI(old(decoded), pc, old(aluOut))
    {
      hide Op, LongOp, Plus, BitAnd, SignExtend12, SignExtend16, ImmediateResult, Flag;
      var op := LongOp(decoded);
      var imm := SignExtend12(decoded.imm12);
      decoded := decoded.(writeRd := true);
      ok := true;
      if op == OP_JALR {
        decoded := decoded.(isJump := true);
        aluOut := Plus(pc, 4);
        decoded := decoded.(jumpTarget := Plus(decoded.rs1v, imm));
      } else if op == OP_LB || op == OP_LBU {
        AimLoad(imm, BYTE, BitAnd(decoded.rs2v, 0xff));
      } else if op == OP_LHU {
        AimLoad(imm, HALFWORD, BitAnd(decoded.rs2v, 0xffff));
      } else if op == OP_LH {
        AimLoad(imm, HALFWORD, SignExtend16(decoded.rs2v));
      } else if op == OP_LW {
        AimLoad(imm, WORD, decoded.rs2v);
      } else {
        ok := CombineImmediate(op, decoded.rs1v, imm, decoded.shamt);
      }
    }

    /** The store arm of execute. */
    method AimStore() returns (ok: bool)
      modifies this`decoded, this`aluOut
      ensures Executed(decoded, aluOut, if ok then Proceed else AssertFails) == ExecuteS(old(decoded), old(aluOut))
    {
      hide Op, LongOp, ShortOp, Plus, BitAnd, SignExtend12;
      var op := ShortOp(decoded);
      decoded := decoded.(writeMem := true);
      decoded := decoded.(memOffset := Plus(decoded.rs1v, SignExtend12(decoded.imm12)));
      if op == OP_SB {
        decoded := decoded.(width := BYTE);
        aluOut := BitAnd(decoded.rs2v, 0xff);
      } else if op == OP_SH {
        decoded := decoded.(width := HALFWORD);
        aluOut := BitAnd(decoded.rs2v, 0xffff);
      } else if op == OP_SW {
        decoded := decoded.(width := WORD);
        aluOut := decoded.rs2v;
      } else {
        return false;
      }
      return true;
    }

    /** The comparisons of branches. */
    method Compare(op: Word, a: Word, b: Word)
      modifies this`aluOut
      ensures aluOut == BranchResult(op, a, b, old(aluOut))
    {
      hide Op, Less, SignedLess, Flag;
      if op == OP_BEQ { aluOut := Flag(a == b); }
      else if op == OP_BNE { aluOut := Flag(a != b); }
      else if op == OP_BLT { aluOut := Flag(SignedLess(a, b)); }
      else if op == OP_BLTU { aluOut := Flag(Less(a, b)); }
      else if op == OP_BGE { aluOut := Flag(!SignedLess(a, b)); }
      else if op == OP_BGEU { aluOut := Flag(!Less(a, b)); }
    }

    /** The branch arm of execute. */
    method DecideBranch()
      modifies this`decoded, this`aluOut
      ensures Executed(decoded, aluOut, Proceed) == ExecuteB(old(decoded), pc, old(aluOut))
    {
      hide BranchResult, ShortOp, Plus, Doubled, SignExtend12;
      var op := ShortOp(decoded);
      decoded := decoded.(jumpTarget := Plus(pc, Doubled(SignExtend12(decoded.imm12))));
      Compare(op, decoded.rs1v, decoded.rs2v);
      decoded := decoded.(isJump := aluOut == 1);
    }

    /** The LUI and AUIPC arm of execute. */
    method LoadUpper() returns (ok: bool)
      modifies this`decoded, this`aluOut
      ensures Executed(decoded, aluOut, if ok then Proceed else AssertFails)
              == ExecuteU(old(decoded), pc, old(aluOut))
    {
      hide Op, LongOp, ShortOp, Plus, Upper, UpperField, SignExtend20;
      decoded := decoded.(writeRd := true);
      if (decoded.opcode as Word) == OP_LUI & 0x7f {
        aluOut := UpperField(decoded.imm20);
      } else if (decoded.opcode as Word) == OP_AUIPC & 0x7f {
        aluOut := Plus(Upper(SignExtend20(decoded.imm20)), pc);
      } else {
        return false;
      }
      return true;
    }

    /** The JAL arm of execute. */
    method Link() returns (ok: bool)
      modifies this`decoded, this`aluOut
      ensures Executed(decoded, aluOut, if ok then Proceed else AssertFails)
              == ExecuteJ(old(decoded), pc, old(aluOut))
    {
      hide Op, LongOp, ShortOp, Plus, Doubled, SignExtend20;
      decoded := decoded.(isJump := true);
      decoded := decoded.(writeRd := true);
      if (decoded.opcode as Word) == OP_JAL & 0x7f {
        decoded := decoded.(jumpTarget := Plus(Doubled(SignExtend20(decoded.imm20)), pc));
        aluOut := Plus(pc, 4);
        return true;
      }
      return false;
    }

    /** The arms of execute; what is left to do is to cause a trap or to abort. */
    method Operate() returns (effect: Control)
      modifies this`decoded, this`aluOut
      ensures Executed(decoded, aluOut, effect) == Decoder.Execute(old(decoded), pc, old(aluOut))
    {
      hide ExecuteR, ExecuteI, ExecuteS, ExecuteB, ExecuteU, ExecuteJ, Op;
      var ok := true;
      match decoded.optype {
        case TypeR =>
          var legal := OperateOnRegisters();
          return if legal then Proceed else RaiseTrap(ILLEGAL_INSTRUCTION);
        case TypeI => ok := OperateOnImmediate();
        case TypeS => ok := AimStore();
        case TypeB => DecideBranch();
        case TypeU => ok := LoadUpper();
        case TypeJ => ok := Link();
        case TypeC =>
          return RaiseTrap(if (decoded.opcode as Word) == OP_ECALL then ENV_CALL_UMODE else ILLEGAL_INSTRUCTION);
        case Unknown => return RaiseTrap(ILLEGAL_INSTRUCTION);
      }
      return if ok then Proceed else AssertFails;
    }

    /** execute */
    method Execute() returns (ok: bool)
      requires Valid()
      modifies this`decoded, this`aluOut, this`stage, this`trapStage, csr.state
      ensures Valid()
      ensures ok <==> ExecuteStage(old(Image())).Returns?
      ensures ok ==> Value() == old(Value()).(core := ExecuteStage(old(Image())).value)
    {
      hide Decoder.Execute, Core.CauseTrap;
      var effect := Operate();
      match effect {
        case Proceed =>
        case RaiseTrap(cause) => CauseTrap(cause);
        case AssertFails => return false;
      }
      return true;
    }

    /** memory_access */
    method MemoryAccess(junk: Byte) returns (ok: bool)
      requires Valid()
      modifies this`aluOut, this`stage, this`trapStage, csr.state
      modifies bus`states, bus`status, bus`held, bus.mmu`status, bus.mmu.data, bus.mmu.perm, bus.mmu.dirty
      ensures Valid()
      ensures ok <==> MemoryStage(old(Value()), junk).Returns?
      ensures ok ==> Value() == MemoryStage(old(Value()), junk).value
    {
      hide ToNat, ReadSingle, WriteSingle, Core.CauseTrap, LoadFault, StoreFault;
      if decoded.readMem {
        var got := bus.Load(ToNat(decoded.memOffset), decoded.width, junk);
        if got.None? {
          return false;
        }
        aluOut := got.value;
        if bus.status != BusOk {
          CauseTrap(LoadFault(bus.status));
        }
      } else if decoded.writeMem {
        var stored := bus.Store(ToNat(decoded.memOffset), aluOut, decoded.width);
        if !stored {
          return false;
        }
        if bus.status != BusOk {
          CauseTrap(StoreFault(bus.status));
        }
      }
      return true;
    }

    /** writeback */
    method Writeback()
      requires Valid()
      modifies this`pc, this`prefetched, registers
      ensures Valid()
      ensures Value() == old(Value()).(core := WritebackStage(old(Image())))
    {
      hide Plus, Index;
      if decoded.writeRd {
        registers[Index(decoded.rd)] := if decoded.rd == 0 then 0 else aluOut;
      }
      if decoded.isJump {
        pc := decoded.jumpTarget;
        prefetched := 0;
      } else {
        pc := Plus(pc, 4);
      }
    }

    /** memcpy of one register file over another. */
    method CopyRegisters(target: array<Word>, source: array<Word>)
      requires target.Length == source.Length && target != source
      modifies target
      ensures target[..] == source[..]
    {
      var k := 0;
      while k < target.Length
        invariant 0 <= k <= target.Length
        invariant forall i :: 0 <= i < k ==> target[i] == source[i]
      {
        target[k] := source[k];
        k := k + 1;
      }
    }

    /** trap */
    method StepTrap() returns (ok: bool)
      requires Valid()
      modifies this`pc, this`prefetched, this`trapPc, this`stage, this`trapStage, registers, trapRegs, csr.state
      ensures Valid()
      ensures ok <==> TrapStep(old(Image())).Returns?
      ensures ok ==> Value() == old(Value()).(core := TrapStep(old(Image())).value)
    {
      hide Plus, Csr.Low, Csr.Write32, Csr.Clear32;
      match trapStage {
        case Idle =>
          return false;
        case Enter =>
          CopyRegisters(trapRegs, registers);
          prefetched := 0;
          trapPc := pc;
          var _ := csr.ReadWrite32(Csr.MEPC, pc);
          stage := Trap;
          trapStage := Handle;
        case Handle =>
          trapStage := Exit;
        case Exit =>
          CopyRegisters(registers, trapRegs);
          var mepc := csr.ReadClear32(Csr.MEPC, 0);
          pc := Plus(mepc, 4);
          trapStage := Idle;
          stage := Fetch;
          prefetched := 0;
      }
      return true;
    }

    /** The tail of the _stage macro. */
    method MoveOn(next: Stage)
      requires Valid()
      modifies this`cycle, this`stage
      ensures Valid()
      ensures Value() == old(Value()).(core := Advance(old(Image()), next))
    {
      cycle := (cycle + 1) % U64_LIMIT;
      if !stage.Trap? {
        stage := next;
      }
    }

    /** core_cycle */
    method RunCycle(junk: Byte) returns (ok: bool)
      requires Valid()
      modifies this, registers, trapRegs, buffer, csr.state
      modifies bus`states, bus`status, bus`held, bus.mmu`status, bus.mmu.data, bus.mmu.perm, bus.mmu.dirty
      ensures Valid()
      ensures ok <==> Cycle(old(Value()), junk).Returns?
      ensures ok ==> Value() == Cycle(old(Value()), junk).value
    {
      hide FetchStage, DecodeStage, ExecuteStage, MemoryStage, WritebackStage, TrapStep, Advance;
      ok := true;
      match stage {
        case Trap =>
          ok := StepTrap();
          if ok { MoveOn(Fetch); }
        case Fetch =>
          ok := FetchInstruction();
          if ok { MoveOn(Stage.Decode); }
        case Decode =>
          Decode();
          MoveOn(Stage.Execute);
        case Execute =>
          ok := Execute();
          if ok { MoveOn(Memory); }
        case Memory =>
          ok := MemoryAccess(junk);
          if ok { MoveOn(Stage.Writeback); }
        case Writeback =>
          Writeback();
          MoveOn(Fetch);
      }
    }

    /** One operation of a system call on the memory. */
    method ApplyOp(op: History.Op) returns (ok: bool)
      requires Valid()
      modifies bus.mmu`cursor, bus.mmu`status, bus.mmu.data, bus.mmu.perm, bus.mmu.dirty
      ensures Valid()
      ensures ok <==> History.Apply(old(bus.mmu.Value()), op).Returns?
      ensures ok ==> bus.mmu.Value() == History.Apply(old(bus.mmu.Value()), op).value
      ensures ok ==> bus.mmu.status == History.StatusOf(old(bus.mmu.Value()), op, old(bus.mmu.status))
    {
      hide SetPerm, AddMemory, Allocate, Write, Read;
      ok := true;
      match op {
        case SetPermOp(addr, n, perm) => ok := bus.mmu.SetPermissions(addr, n, perm);
        case AddMemoryOp(addr, n, perm) => ok := bus.mmu.AddRegion(addr, n, perm);
        case AllocateOp(n, perm) =>
          var block := bus.mmu.AllocateBlock(n, perm);
          ok := block.Some?;
        case WriteOp(addr, bytes) => var _ := bus.mmu.WriteFrom(bytes, addr);
        case ReadOp(addr, n) => var _ := bus.mmu.ReadInto(addr, n);
      }
    }

    /** The operations of a system call on the memory. */
    method ApplyOps(ops: seq<History.Op>) returns (ok: bool)
      requires Valid()
      modifies bus.mmu`cursor, bus.mmu`status, bus.mmu.data, bus.mmu.perm, bus.mmu.dirty
      ensures Valid()
      ensures ok <==> History.Run(old(bus.mmu.Value()), ops).Returns?
      ensures ok ==> bus.mmu.Value() == History.Run(old(bus.mmu.Value()), ops).value
      ensures ok ==> bus.mmu.status == History.StatusAfter(old(bus.mmu.Value()), ops, old(bus.mmu.status))
    {
      hide History.Apply, History.StatusOf;
      ghost var ram, status := bus.mmu.Value(), bus.mmu.status;
      var k := 0;
      while k < |ops|
        invariant 0 <= k <= |ops| && Valid()
        invariant History.Run(ram, ops[..k]) == Returns(bus.mmu.Value())
        invariant bus.mmu.status == History.StatusAfter(ram, ops[..k], status)
      {
        assert ops[..k + 1][..k] == ops[..k];
        var applied := ApplyOp(ops[k]);
        if !applied {
          History.HaltsForGood(ram, ops, k + 1);
          return false;
        }
        k := k + 1;
      }
      assert ops[..k] == ops;
      return true;
    }

    /** trap_handler, with the host's part of a system call given. */
    method AnswerTrap(response: Response) returns (ok: bool, goOn: bool)
      requires Valid()
      modifies trapRegs, csr.state
      modifies bus.mmu`cursor, bus.mmu`status, bus.mmu.data, bus.mmu.perm, bus.mmu.dirty
      ensures Valid()
      ensures match HandleTrap(old(Value()), response)
              case Crashed => !ok
              case Running(m) => ok && goOn && Value() == m
              case Stopped(m) => ok && !goOn && Value() == m
    {
      hide History.Run, History.StatusAfter, Csr.Low, Csr.Clear32;
      var cause := csr.ReadClear32(Csr.MCAUSE, 0);
      var _ := csr.ReadClear32(Csr.MEPC, 0);
      if cause != ENV_CALL_UMODE {
        return true, false;
      }
      ok := ApplyOps(response.ops);
      if !ok {
        return false, false;
      }
      if response.a0.Some? {
        trapRegs[A0] := response.a0.value;
      }
      return true, response.goOn;
    }

    /** cpu_thread, for as many turns as there are inputs. */
    method RunThread(inputs: seq<Input>) returns (end: LoopEnd)
      requires Valid()
      modifies this, registers, trapRegs, buffer, csr.state
      modifies bus`states, bus`status, bus`held
      modifies bus.mmu`cursor, bus.mmu`status, bus.mmu.data, bus.mmu.perm, bus.mmu.dirty
      ensures Valid()
      ensures match RunLoop(Running(old(Value())), inputs)
              case Running(m) => end == InputsUsedUp && Value() == m
              case Stopped(m) => end == HandlerStopped && Value() == m
              case Crashed => end == Aborted
    {
      hide Cycle, HandleTrap;
      ghost var start := Value();
      var k := 0;
      while k < |inputs|
        invariant 0 <= k <= |inputs| && Valid()
        invariant RunLoop(Running(start), inputs) == RunLoop(Running(Value()), inputs[k..])
      {
        ghost var before := Value();
        assert inputs[k..][1..] == inputs[k + 1..];
        assert RunLoop(Running(before), inputs[k..]) == RunLoop(Tick(before, inputs[k]), inputs[k + 1..]);
        var ok := RunCycle(inputs[k].junk);
        if !ok {
          return Aborted;
        }
        if stage.Trap? && trapStage.Handle? {
          var answered, goOn := AnswerTrap(inputs[k].response);
          if !answered {
            return Aborted;
          }
          if !goOn {
            return HandlerStopped;
          }
        }
        k := k + 1;
      }
      return InputsUsedUp;
    }
  }
}
