/** RV32I over the integers: what each instruction of chapter 2 of the RISC-V Instruction Set
    Manual computes, told without machine words. */
module Integers {
  import opened Words
  import opened Numbers
  import Decoder
  import Isa

  /** The number of values of a register, 2^XLEN. */
  const N: nat := 0x1_0000_0000

  /** Registers and the pc hold the unsigned readings; memory holds bytes. */
  datatype State = State(pc: nat, x: seq<nat>, mem: map<nat, nat>)

  datatype Result = Retire(state: State) | Raise(cause: Isa.Exception)

  function Reg(x: seq<nat>, r: nat): nat
    requires |x| == 32 && r < 32
  {
    if r == 0 then 0 else x[r]
  }

  function WithReg(x: seq<nat>, r: nat, v: nat): seq<nat>
    requires |x| == 32 && r < 32
  {
    if r == 0 then x else x[r := v]
  }

  function Flag(c: bool): nat { if c then 1 else 0 }

  /** A register keeps a result modulo 2^XLEN. */
  function Mod(v: int): (r: nat)
    ensures r < N
  {
    v % N
  }

  // ----- computation -----

  /** The number whose last n bits are those of a and b combined by f. */
  function BitByBit(f: (bool, bool) -> bool, a: nat, b: nat, n: nat): nat {
    if n == 0 then 0 else 2 * BitByBit(f, a / 2, b / 2, n - 1) + Flag(f(a % 2 == 1, b % 2 == 1))
  }

  const EITHER: (bool, bool) -> bool := (p, q) => p || q
  const BOTH: (bool, bool) -> bool := (p, q) => p && q
  const ONE: (bool, bool) -> bool := (p, q) => p != q

  /** Register-register instructions; shifts take the second operand modulo 32. */
  function RegResult(op: Isa.RegOp, a: nat, b: nat): nat {
    match op
    case Add => Mod(a + b)
    case Sub => Mod(a - b)
    case Sll => Mod(a * Pow2(b % 32))
    case Slt => Flag(AsSigned(a) < AsSigned(b))
    case Sltu => Flag(a < b)
    case Xor => BitByBit(ONE, a, b, 32)
    case Srl => Mod(a / Pow2(b % 32))
    case Sra => Mod(AsSigned(a) / Pow2(b % 32))
    case Or => BitByBit(EITHER, a, b, 32)
    case And => BitByBit(BOTH, a, b, 32)
  }

  function ImmResult(op: Isa.ImmOp, a: nat, imm: nat): nat {
    match op
    case Addi => RegResult(Isa.Add, a, imm)
    case Slti => RegResult(Isa.Slt, a, imm)
    case Sltiu => RegResult(Isa.Sltu, a, imm)
    case Xori => RegResult(Isa.Xor, a, imm)
    case Ori => RegResult(Isa.Or, a, imm)
    case Andi => RegResult(Isa.And, a, imm)
  }

  function ShiftResult(op: Isa.ShiftOp, a: nat, s: nat): nat {
    match op
    case Slli => RegResult(Isa.Sll, a, s)
    case Srli => RegResult(Isa.Srl, a, s)
    case Srai => RegResult(Isa.Sra, a, s)
  }

  predicate Holds(c: Isa.Condition, a: nat, b: nat) {
    match c
    case Eq => a == b
    case Ne => a != b
    case Lt => AsSigned(a) < AsSigned(b)
    case Ge => AsSigned(a) >= AsSigned(b)
    case Ltu => a < b
    case Geu => a >= b
  }

  function JumpTo(s: State, x: seq<nat>, target: nat): Result {
    if target % 4 != 0 then Raise(Isa.AddressMisaligned) else Retire(s.(pc := target, x := x))
  }

  // ----- memory -----

  function BytesOf(k: Isa.LoadKind): nat {
    match k case Lb => 1 case Lbu => 1 case Lh => 2 case Lhu => 2 case Lw => 4
  }

  /** The n-byte number at a, least significant byte first. */
  function NumberAt(mem: map<nat, nat>, a: nat, n: nat): nat
    requires forall k :: a <= k < a + n ==> k in mem
    decreases n
  {
    if n == 0 then 0 else mem[a] + 256 * NumberAt(mem, a + 1, n - 1)
  }

  /** LB and LH load a two's complement number. */
  function Loaded(k: Isa.LoadKind, v: nat): nat {
    match k
    case Lb => if v < 0x80 then v else Mod(v - 0x100)
    case Lh => if v < 0x8000 then v else Mod(v - 0x1_0000)
    case _ => v
  }

  /** The last n bytes of v from a on, least significant byte first. */
  function StoreAt(mem: map<nat, nat>, a: nat, n: nat, v: nat): map<nat, nat>
    decreases n
  {
    if n == 0 then mem else StoreAt(mem[a := v % 256], a + 1, n - 1, v / 256)
  }

  // ----- one instruction -----

  function Step(s: State, i: Isa.Instr, env: Isa.Environment): Result
    requires |s.x| == 32 && env.loadable <= s.mem.Keys
  {
    var next := s.(pc := Mod(s.pc + 4));
    match i
    case Lui(rd, imm) => Retire(next.(x := WithReg(s.x, rd as nat, ToNat(imm))))
    case Auipc(rd, imm) => Retire(next.(x := WithReg(s.x, rd as nat, Mod(s.pc + Signed(imm)))))
    case Jal(rd, offset) => JumpTo(s, WithReg(s.x, rd as nat, next.pc), Mod(s.pc + Signed(offset)))
    case Jalr(rd, rs1, offset) =>
      JumpTo(s, WithReg(s.x, rd as nat, next.pc), Mod(Reg(s.x, rs1 as nat) + Signed(offset)) / 2 * 2)
    case Branch(cond, rs1, rs2, offset) =>
      if Holds(cond, Reg(s.x, rs1 as nat), Reg(s.x, rs2 as nat)) then JumpTo(s, s.x, Mod(s.pc + Signed(offset)))
      else Retire(next)
    case Load(kind, rd, rs1, offset) =>
      var a := Mod(Reg(s.x, rs1 as nat) + Signed(offset));
      if exists k :: a <= k < a + BytesOf(kind) && k !in env.loadable then Raise(Isa.LoadAccessFault)
      else Retire(next.(x := WithReg(s.x, rd as nat, Loaded(kind, NumberAt(s.mem, a, BytesOf(kind))))))
    case Store(width, rs1, rs2, offset) =>
      var a := Mod(Reg(s.x, rs1 as nat) + Signed(offset));
      if exists k :: a <= k < a + width.Bytes() && k !in env.storable then Raise(Isa.StoreAccessFault)
      else Retire(next.(mem := StoreAt(s.mem, a, width.Bytes(), Reg(s.x, rs2 as nat))))
    case OpImm(op, rd, rs1, imm) =>
      Retire(next.(x := WithReg(s.x, rd as nat, ImmResult(op, Reg(s.x, rs1 as nat), Mod(Signed(imm))))))
    case ShiftImm(op, rd, rs1, shamt) =>
      Retire(next.(x := WithReg(s.x, rd as nat, ShiftResult(op, Reg(s.x, rs1 as nat), shamt as nat))))
    case OpReg(op, rd, rs1, rs2) =>
      Retire(next.(x := WithReg(s.x, rd as nat, RegResult(op, Reg(s.x, rs1 as nat), Reg(s.x, rs2 as nat)))))
    case Fence(_, _, _) => Retire(next)
    case Ecall => Raise(Isa.EnvironmentCall)
    case Ebreak => Raise(Isa.Breakpoint)
  }

  // ----- harts as integers -----

  function ValuesOf(x: seq<Word>): (v: seq<nat>)
    ensures |v| == |x| && forall k :: 0 <= k < |x| ==> v[k] == ToNat(x[k])
  {
    seq(|x|, k requires 0 <= k < |x| => ToNat(x[k]))
  }

  function MemoryOf(mem: Isa.Memory): (v: map<nat, nat>)
    ensures v.Keys == mem.Keys && forall a :: a in mem ==> v[a] == mem[a] as nat
  {
    map a | a in mem :: mem[a] as nat
  }

  function StateOf(h: Isa.Hart): State { State(ToNat(h.pc), ValuesOf(h.x), MemoryOf(h.mem)) }

  function ResultOf(r: Isa.Result): Result {
    match r
    case Retire(h) => Retire(StateOf(h))
    case Raise(cause) => Raise(cause)
  }

  lemma RegMeans(x: seq<Word>, r: bv5)
    requires |x| == 32
    ensures ToNat(Isa.Reg(x, r)) == Reg(ValuesOf(x), r as nat)
  {
    hide ToNat;
    ValueCounts(0);
  }

  lemma WithRegMeans(x: seq<Word>, r: bv5, v: Word)
    requires |x| == 32
    ensures ValuesOf(Isa.WithReg(x, r, v)) == WithReg(ValuesOf(x), r as nat, ToNat(v))
  {
    hide ToNat;
  }

  lemma SumWithSigned(a: nat, b: nat)
    requires b < N
    ensures Mod(a + b) == Mod(a + AsSigned(b))
  {
  }

  /** Adding an offset. */
  lemma OffsetMeans(a: Word, offset: Word)
    ensures ToNat(Plus(a, offset)) == Mod(ToNat(a) + Signed(offset))
  {
    hide ToNat, Plus;
    PlusMeans(a, offset);
    SumWithSigned(ToNat(a), ToNat(offset));
  }

  // ----- register fields -----

  lemma FieldIs(w: Word)
    ensures Decoder.Rd(w) as Word == BitAnd(ShiftRight(w, 7), 31)
    ensures Decoder.Rs1(w) as Word == BitAnd(ShiftRight(w, 15), 31)
    ensures Decoder.Rs2(w) as Word == BitAnd(ShiftRight(w, 20), 31)
  {
  }

  lemma FieldMeans(r: bv5, w: Word, s: bv5)
    requires r as Word == BitAnd(ShiftRight(w, s), 31)
    ensures Index(r) == ToNat(w) / Pow2(s as nat) % 32
  {
    hide ToNat, BitAnd, ShiftRight, Pow2;
    IndexMeans(r);
    MasksMean(ShiftRight(w, s));
    ShiftRightMeans(w, s);
  }

  lemma FieldPlaces()
    ensures (7 as bv5) as nat == 7 && (15 as bv5) as nat == 15 && (20 as bv5) as nat == 20
  {
  }

  /** The registers that an instruction word names: its bits 7 to 11, 15 to 19 and 20 to 24. */
  lemma RegisterFields(w: Word)
    ensures Index(Decoder.Rd(w)) == ToNat(w) / Pow2(7) % 32
    ensures Index(Decoder.Rs1(w)) == ToNat(w) / Pow2(15) % 32
    ensures Index(Decoder.Rs2(w)) == ToNat(w) / Pow2(20) % 32
  {
    hide ToNat, BitAnd, ShiftRight, Pow2, Index, Decoder.Rd, Decoder.Rs1, Decoder.Rs2;
    FieldIs(w);
    FieldPlaces();
    FieldMeans(Decoder.Rd(w), w, 7);
    FieldMeans(Decoder.Rs1(w), w, 15);
    FieldMeans(Decoder.Rs2(w), w, 20);
  }

  /** Reading a register after writing one. */
  lemma RegisterRoundTrip(x: seq<Word>, r: bv5, q: bv5, v: Word)
    requires |x| == 32
    ensures Isa.Reg(Isa.WithReg(x, r, v), q) == if q == r && r != 0 then v else Isa.Reg(x, q)
  {
    if Index(q) == Index(r) { SameIndex(q, r); }
  }

  lemma SameIndex(q: bv5, r: bv5)
    requires Index(q) == Index(r)
    ensures q == r
  {
    hide ToNat, Index;
    IndexMeans(q);
    IndexMeans(r);
    ValueDecides(q as Word, r as Word);
    RegisterInWord(q);
    RegisterInWord(r);
  }

  lemma RegisterInWord(r: bv5)
    ensures ((r as Word) & 31) as bv5 == r
  {
  }

  // ----- computation -----

  lemma SameParity(a: Word)
    ensures ToNat(a) % 2 == 1 <==> a & 1 != 0
    ensures ToNat(a) / 2 == ToNat(ShiftRight(a, 1))
  {
    hide ToNat, ShiftRight;
    Halves(a);
  }

  lemma {:induction false} XorMeans(a: Word, b: Word, n: nat)
    requires ToNat(a) < Pow2(n) && ToNat(b) < Pow2(n)
    ensures ToNat(Xor(a, b)) == BitByBit(ONE, ToNat(a), ToNat(b), n)
    decreases n
  {
    hide ToNat, Xor, ShiftRight;
    if n == 0 {
      NoBitsLeft(a, b);
    } else {
      SameParity(a);
      SameParity(b);
      XorMeans(ShiftRight(a, 1), ShiftRight(b, 1), n - 1);
      HigherXor(a, b);
      LastBits(a, b);
      Halves(Xor(a, b));
    }
  }

  lemma {:induction false} OrMeans(a: Word, b: Word, n: nat)
    requires ToNat(a) < Pow2(n) && ToNat(b) < Pow2(n)
    ensures ToNat(BitOr(a, b)) == BitByBit(EITHER, ToNat(a), ToNat(b), n)
    decreases n
  {
    hide ToNat, BitOr, ShiftRight;
    if n == 0 {
      NoBitsLeft(a, b);
    } else {
      SameParity(a);
      SameParity(b);
      OrMeans(ShiftRight(a, 1), ShiftRight(b, 1), n - 1);
      HigherOr(a, b);
      LastBits(a, b);
      Halves(BitOr(a, b));
    }
  }

  lemma {:induction false} AndMeans(a: Word, b: Word, n: nat)
    requires ToNat(a) < Pow2(n) && ToNat(b) < Pow2(n)
    ensures ToNat(BitAnd(a, b)) == BitByBit(BOTH, ToNat(a), ToNat(b), n)
    decreases n
  {
    hide ToNat, BitAnd, ShiftRight;
    if n == 0 {
      NoBitsLeft(a, b);
    } else {
      SameParity(a);
      SameParity(b);
      AndMeans(ShiftRight(a, 1), ShiftRight(b, 1), n - 1);
      HigherAnd(a, b);
      LastBits(a, b);
      Halves(BitAnd(a, b));
    }
  }

  lemma OfZeros()
    ensures Xor(0, 0) == 0 && BitOr(0, 0) == 0 && BitAnd(0, 0) == 0
  {
  }

  lemma NoBitsLeft(a: Word, b: Word)
    requires ToNat(a) == 0 && ToNat(b) == 0
    ensures ToNat(Xor(a, b)) == 0 && ToNat(BitOr(a, b)) == 0 && ToNat(BitAnd(a, b)) == 0
  {
    hide ToNat, Xor, BitOr, BitAnd;
    ValueCounts(0);
    ValueDecides(a, 0);
    ValueDecides(b, 0);
    OfZeros();
  }

  /** The bitwise operations are those of the integers. */
  lemma BitwiseResults(a: Word, b: Word)
    ensures ToNat(Xor(a, b)) == BitByBit(ONE, ToNat(a), ToNat(b), 32)
    ensures ToNat(BitOr(a, b)) == BitByBit(EITHER, ToNat(a), ToNat(b), 32)
    ensures ToNat(BitAnd(a, b)) == BitByBit(BOTH, ToNat(a), ToNat(b), 32)
  {
    hide ToNat, Xor, BitOr, BitAnd, Pow2;
    Pow2OfWord();
    XorMeans(a, b, 32);
    OrMeans(a, b, 32);
    AndMeans(a, b, 32);
  }

  lemma FlagMeans(c: bool)
    ensures ToNat(if c then 1 else 0) == Flag(c)
  {
    hide ToNat;
    ValueCounts(0);
    TopBit();
  }

  lemma SignedRemainder(v: Word)
    ensures ToNat(v) == Mod(Signed(v))
  {
    hide ToNat;
  }

  lemma ModIs(v: int)
    ensures Mod(v) == v % N
  {
  }

  lemma InRange(v: Word)
    ensures ToNat(v) == Mod(ToNat(v))
  {
    hide ToNat;
  }

  lemma ShiftMeans(a: Word, s: bv5)
    ensures ToNat(ShiftLeft(a, s)) == Mod(ToNat(a) * Pow2(Index(s)))
    ensures ToNat(ShiftRight(a, s)) == Mod(ToNat(a) / Pow2(Index(s)))
    ensures ToNat(ShiftRightSigned(a, s)) == Mod(AsSigned(ToNat(a)) / Pow2(Index(s)))
  {
    hide ToNat, ShiftLeft, ShiftRight, ShiftRightSigned, Pow2, Index, AsSigned, Mod;
    InRange(ShiftRight(a, s));
    ModIs(ToNat(a) * Pow2(Index(s)));
    ShiftLeftMeans(a, s);
    ShiftRightMeans(a, s);
    ShiftRightSignedMeans(a, s);
    SignedRemainder(ShiftRightSigned(a, s));
  }

  /** What a register-register instruction leaves in rd. */
  lemma RegResultMeans(op: Isa.RegOp, a: Word, b: Word)
    ensures ToNat(Isa.RegResult(op, a, b)) == RegResult(op, ToNat(a), ToNat(b))
  {
    hide ToNat, ShiftLeft, ShiftRight, ShiftRightSigned, Pow2, Index, Shamt, AsSigned, Plus, Minus, Xor, BitOr, BitAnd;
    hide Less, SignedLess, BitByBit;
    match op {
      case Add => PlusMeans(a, b);
      case Sub => MinusMeans(a, b);
      case Slt =>
        SignedLessMeans(a, b);
        FlagMeans(SignedLess(a, b));
      case Sltu =>
        LessMeans(a, b);
        FlagMeans(Less(a, b));
      case Sll =>
        ShamtMeans(b);
        ShiftMeans(a, Shamt(b));
      case Srl =>
        ShamtMeans(b);
        ShiftMeans(a, Shamt(b));
      case Sra =>
        ShamtMeans(b);
        ShiftMeans(a, Shamt(b));
      case _ => BitwiseResults(a, b);
    }
  }

  /** What a register-immediate instruction leaves in rd. */
  lemma ImmResultMeans(op: Isa.ImmOp, a: Word, imm: Word)
    ensures ToNat(Isa.ImmResult(op, a, imm)) == ImmResult(op, ToNat(a), Mod(Signed(imm)))
  {
    hide RegResult, Isa.RegResult, ToNat, Signed;
    SignedRemainder(imm);
    var same := match op case Addi => Isa.Add case Slti => Isa.Slt case Sltiu => Isa.Sltu
                         case Xori => Isa.Xor case Ori => Isa.Or case Andi => Isa.And;
    RegResultMeans(same, a, imm);
    SameAsRegister(op, same, a, imm);
  }

  lemma SameAsRegister(op: Isa.ImmOp, same: Isa.RegOp, a: Word, imm: Word)
    requires same == match op case Addi => Isa.Add case Slti => Isa.Slt case Sltiu => Isa.Sltu
                              case Xori => Isa.Xor case Ori => Isa.Or case Andi => Isa.And
    ensures Isa.ImmResult(op, a, imm) == Isa.RegResult(same, a, imm)
  {
    hide Shamt, Plus, Xor, BitOr, BitAnd, Less, SignedLess;
  }

  lemma SmallAmount(s: nat)
    requires s < 32
    ensures s % 32 == s
  {
  }

  /** What a shift by an immediate leaves in rd. */
  lemma ShiftResultMeans(op: Isa.ShiftOp, a: Word, s: bv5)
    ensures ToNat(Isa.ShiftResult(op, a, s)) == ShiftResult(op, ToNat(a), s as nat)
  {
    hide ToNat, ShiftLeft, ShiftRight, ShiftRightSigned, Pow2, AsSigned, Mod;
    SmallAmount(s as nat);
    ShiftMeans(a, s);
  }

  /** When a branch is taken. */
  lemma HoldsMeans(c: Isa.Condition, a: Word, b: Word)
    ensures Isa.Holds(c, a, b) <==> Holds(c, ToNat(a), ToNat(b))
  {
    hide ToNat, Less, SignedLess, AsSigned;
    LessMeans(a, b);
    SignedLessMeans(a, b);
    if ToNat(a) == ToNat(b) { ValueDecides(a, b); }
  }

  /** Where a jump goes. */
  lemma JumpMeans(h: Isa.Hart, x: seq<Word>, target: Word)
    ensures ResultOf(Isa.JumpTo(h, x, target)) == JumpTo(StateOf(h), ValuesOf(x), ToNat(target))
  {
    hide ToNat, ValuesOf, MemoryOf;
    MasksMean(target);
    MaskIs(target);
    ValueCounts(0);
    if ToNat(BitAnd(target, 3)) == 0 { ValueDecides(BitAnd(target, 3), 0); }
  }

  lemma MaskIs(v: Word)
    ensures BitAnd(v, 3) == v & 3
  {
  }

  // ----- memory -----

  lemma BytesInRange(k: Isa.LoadKind)
    ensures BytesOf(k) == Isa.LoadWidth(k).Bytes()
  {
  }

  lemma {:induction false} NumberIsLittleEndian(mem: Isa.Memory, a: nat, b: seq<Byte>)
    requires forall k :: a <= k < a + |b| ==> k in mem && mem[k] == b[k - a]
    ensures NumberAt(MemoryOf(mem), a, |b|) == LittleEndian(Values(b))
    decreases |b|
  {
    hide LittleEndian;
    LittleEndianStep(Values(b));
    if b != [] {
      assert Values(b)[1..] == Values(b[1..]);
      NumberIsLittleEndian(mem, a + 1, b[1..]);
    }
  }

  lemma LittleEndianStep(v: seq<nat>)
    ensures LittleEndian(v) == if v == [] then 0 else v[0] + 256 * LittleEndian(v[1..])
  {
  }

  /** The bytes of a load are its number. */
  lemma NumberMeans(mem: Isa.Memory, a: nat, width: Width)
    requires Isa.RangeIn(a, width.Bytes(), mem.Keys)
    ensures ToNat(Compose(Isa.BytesAt(mem, a, width))) == NumberAt(MemoryOf(mem), a, width.Bytes())
  {
    hide ToNat, Compose, LittleEndian, NumberAt, MemoryOf;
    var b := Isa.BytesAt(mem, a, width);
    ComposeMeans(b);
    NumberIsLittleEndian(mem, a, b);
  }

  lemma Literals()
    ensures ToNat(0x80) == 0x80 && ToNat(0x100) == 0x100
    ensures ToNat(0x8000) == 0x8000 && ToNat(0x1_0000) == 0x1_0000
  {
    hide ToNat, ShiftLeft, Index;
    Pow2OfWord();
    UnfoldPow2(8);
    UnfoldPow2(16);
    PowerOfIndex(7);
    PowerOfIndex(8);
    PowerOfIndex(15);
    PowerOfIndex(16);
    LiteralShifts();
    LiteralIndices();
  }

  lemma LiteralShifts()
    ensures ShiftLeft(1, 7) == 0x80 && ShiftLeft(1, 8) == 0x100
    ensures ShiftLeft(1, 15) == 0x8000 && ShiftLeft(1, 16) == 0x1_0000
  {
  }

  lemma LiteralIndices()
    ensures Index(7) == 7 && Index(8) == 8 && Index(15) == 15 && Index(16) == 16
  {
  }

  lemma ByteExtends(v: Word)
    requires Less(v, 0x100)
    ensures Isa.Extend(Isa.Lb, v) == if Less(v, 0x80) then v else Minus(v, 0x100)
  {
  }

  lemma HalfwordExtends(v: Word)
    requires Less(v, 0x1_0000)
    ensures Isa.Extend(Isa.Lh, v) == if Less(v, 0x8000) then v else Minus(v, 0x1_0000)
  {
  }

  lemma UnsignedExtends(k: Isa.LoadKind, v: Word)
    requires k.Lw? || k.Lbu? || k.Lhu?
    ensures Isa.Extend(k, v) == v
  {
  }

  /** What a load makes of the number that it reads. */
  lemma ExtendMeans(k: Isa.LoadKind, v: Word)
    requires ToNat(v) < Pow2(8 * BytesOf(k))
    ensures ToNat(Isa.Extend(k, v)) == Loaded(k, ToNat(v))
  {
    hide ToNat, Less, Minus, Isa.Extend, Pow2;
    Pow2OfWord();
    Literals();
    match k {
      case Lb =>
        LessMeans(v, 0x100);
        LessMeans(v, 0x80);
        MinusMeans(v, 0x100);
        ByteExtends(v);
      case Lh =>
        LessMeans(v, 0x1_0000);
        LessMeans(v, 0x8000);
        MinusMeans(v, 0x1_0000);
        HalfwordExtends(v);
      case _ => UnsignedExtends(k, v);
    }
  }

  lemma {:induction false} LittleEndianBound(b: seq<Byte>)
    ensures LittleEndian(Values(b)) < Pow2(8 * |b|)
    decreases |b|
  {
    hide LittleEndian;
    LittleEndianStep(Values(b));
    if b != [] {
      assert Values(b)[1..] == Values(b[1..]);
      LittleEndianBound(b[1..]);
      Pow2Byte(|b| - 1);
    } else {
      UnfoldPow2(0);
    }
  }

  lemma Pow2Byte(n: nat)
    ensures Pow2(8 * (n + 1)) == 256 * Pow2(8 * n)
  {
    var m := 8 * n;
    assert Pow2(m + 8) == 4 * Pow2(m + 6);
    assert Pow2(m + 6) == 4 * Pow2(m + 4);
    assert Pow2(m + 4) == 4 * Pow2(m + 2);
  }

  /** What a load leaves in rd. */
  lemma LoadMeans(k: Isa.LoadKind, mem: Isa.Memory, a: nat)
    requires Isa.RangeIn(a, Isa.LoadWidth(k).Bytes(), mem.Keys)
    ensures ToNat(Isa.Extend(k, Compose(Isa.BytesAt(mem, a, Isa.LoadWidth(k)))))
            == Loaded(k, NumberAt(MemoryOf(mem), a, BytesOf(k)))
  {
    hide ToNat, Compose, Isa.Extend, Loaded, LittleEndian, MemoryOf, NumberAt, Pow2;
    var b := Isa.BytesAt(mem, a, Isa.LoadWidth(k));
    BytesInRange(k);
    ComposeMeans(b);
    LittleEndianBound(b);
    ExtendMeans(k, Compose(b));
    NumberMeans(mem, a, Isa.LoadWidth(k));
  }

  lemma UpdateMeans(mem: Isa.Memory, a: nat, b: Byte)
    ensures MemoryOf(mem[a := b]) == MemoryOf(mem)[a := b as nat]
  {
  }

  lemma Digits(v: nat)
    ensures v / Pow2(0) % 256 == v % 256
    ensures v / Pow2(8) % 256 == v / 256 % 256
    ensures v / Pow2(16) % 256 == v / 256 / 256 % 256
    ensures v / Pow2(24) % 256 == v / 256 / 256 / 256 % 256
  {
    hide Pow2;
    Pow2OfWord();
    UnfoldPow2(0);
    TwoDigits(v);
    ThreeDigits(v);
  }

  lemma TwoDigits(v: nat)
    ensures v / 0x1_0000 == v / 256 / 256
  {
    var y := v / 256;
    DivisionIs(v, 0x1_0000, y / 256, 256 * (y % 256) + v % 256);
  }

  lemma ThreeDigits(v: nat)
    ensures v / 0x100_0000 == v / 256 / 256 / 256
  {
    TwoDigits(v);
    var y := v / 0x1_0000;
    DivisionIs(v, 0x100_0000, y / 256, 0x1_0000 * (y % 256) + v % 0x1_0000);
  }

  lemma ByteDigits(v: Word)
    ensures ByteOf(v, 0) as nat == ToNat(v) % 256
    ensures ByteOf(v, 1) as nat == ToNat(v) / 256 % 256
    ensures ByteOf(v, 2) as nat == ToNat(v) / 256 / 256 % 256
    ensures ByteOf(v, 3) as nat == ToNat(v) / 256 / 256 / 256 % 256
  {
    hide ToNat, ByteOf, Pow2;
    Digits(ToNat(v));
    ByteOfMeans(v, 0);
    ByteOfMeans(v, 1);
    ByteOfMeans(v, 2);
    ByteOfMeans(v, 3);
  }

  lemma StoreUnfolds(mem: map<nat, nat>, a: nat, v: nat)
    ensures StoreAt(mem, a, 1, v) == mem[a := v % 256]
    ensures StoreAt(mem, a, 2, v) == mem[a := v % 256][a + 1 := v / 256 % 256]
    ensures StoreAt(mem, a, 4, v)
            == mem[a := v % 256][a + 1 := v / 256 % 256][a + 2 := v / 256 / 256 % 256]
                  [a + 3 := v / 256 / 256 / 256 % 256]
  {
    var m1 := mem[a := v % 256];
    var m2 := m1[a + 1 := v / 256 % 256];
    var m3 := m2[a + 2 := v / 256 / 256 % 256];
    var m4 := m3[a + 3 := v / 256 / 256 / 256 % 256];
    assert StoreAt(m1, a + 1, 0, v / 256) == m1;
    assert StoreAt(m1, a + 1, 1, v / 256) == StoreAt(m2, a + 2, 0, v / 256 / 256) == m2;
    assert StoreAt(m3, a + 3, 1, v / 256 / 256 / 256) == StoreAt(m4, a + 4, 0, v / 256 / 256 / 256 / 256) == m4;
    assert StoreAt(m2, a + 2, 2, v / 256 / 256) == m4;
  }

  /** What a store leaves in memory. */
  lemma StoreMeans(mem: Isa.Memory, a: nat, width: Width, v: Word)
    ensures MemoryOf(Isa.StoreAt(mem, a, width, v)) == StoreAt(MemoryOf(mem), a, width.Bytes(), ToNat(v))
  {
    hide ToNat, ByteOf, StoreAt, MemoryOf;
    StoreUnfolds(MemoryOf(mem), a, ToNat(v));
    ByteDigits(v);
    var m1 := mem[a := ByteOf(v, 0)];
    var m2 := m1[a + 1 := ByteOf(v, 1)];
    var m3 := m2[a + 2 := ByteOf(v, 2)];
    UpdateMeans(mem, a, ByteOf(v, 0));
    UpdateMeans(m1, a + 1, ByteOf(v, 1));
    UpdateMeans(m2, a + 2, ByteOf(v, 2));
    UpdateMeans(m3, a + 3, ByteOf(v, 3));
  }

  // ----- one instruction -----

  lemma StateRetires(h: Isa.Hart, pc: Word, x: seq<Word>)
    ensures StateOf(h.(pc := pc, x := x)) == StateOf(h).(pc := ToNat(pc), x := ValuesOf(x))
  {
    hide ToNat, ValuesOf, MemoryOf;
  }

  lemma NextMeans(pc: Word)
    ensures ToNat(Plus(pc, 4)) == Mod(ToNat(pc) + 4)
  {
    hide ToNat, Plus;
    AddFour(pc);
  }

  lemma MemoryStep(h: Isa.Hart, i: Isa.Instr, env: Isa.Environment)
    requires |h.x| == 32 && env.loadable <= h.mem.Keys && (i.Load? || i.Store?)
    ensures ResultOf(Isa.Step(h, i, env)) == Step(StateOf(h), i, env)
  {
    hide ToNat, Plus, Isa.Reg, Reg, Isa.WithReg, WithReg, ValuesOf, MemoryOf, Mod, Signed, Isa.BytesAt, NumberAt;
    hide Isa.Extend, Loaded, Compose, Isa.StoreAt, StoreAt;
    NextMeans(h.pc);
    RegMeans(h.x, i.rs1);
    OffsetMeans(Isa.Reg(h.x, i.rs1), i.offset);
    var a := ToNat(Plus(Isa.Reg(h.x, i.rs1), i.offset));
    match i {
      case Load(kind, rd, _, _) =>
        BytesInRange(kind);
        if Isa.RangeIn(a, BytesOf(kind), env.loadable) {
          LoadMeans(kind, h.mem, a);
          WithRegMeans(h.x, rd, Isa.Extend(kind, Compose(Isa.BytesAt(h.mem, a, Isa.LoadWidth(kind)))));
        }
      case Store(width, _, rs2, _) =>
        RegMeans(h.x, rs2);
        StoreMeans(h.mem, a, width, Isa.Reg(h.x, rs2));
    }
  }

  lemma JumpStep(h: Isa.Hart, i: Isa.Instr, env: Isa.Environment)
    requires |h.x| == 32 && env.loadable <= h.mem.Keys && (i.Jal? || i.Jalr? || i.Branch?)
    ensures ResultOf(Isa.Step(h, i, env)) == Step(StateOf(h), i, env)
  {
    hide ToNat, Plus, Isa.Reg, Reg, Isa.WithReg, WithReg, ValuesOf, MemoryOf, Mod, Signed, BitAnd, Isa.JumpTo, JumpTo;
    hide Isa.Holds, Holds;
    NextMeans(h.pc);
    match i {
      case Jal(rd, offset) =>
        OffsetMeans(h.pc, offset);
        WithRegMeans(h.x, rd, Plus(h.pc, 4));
        JumpMeans(h, Isa.WithReg(h.x, rd, Plus(h.pc, 4)), Plus(h.pc, offset));
      case Jalr(rd, rs1, offset) =>
        var target := Plus(Isa.Reg(h.x, rs1), offset);
        RegMeans(h.x, rs1);
        OffsetMeans(Isa.Reg(h.x, rs1), offset);
        EvenMeans(target);
        WithRegMeans(h.x, rd, Plus(h.pc, 4));
        JumpMeans(h, Isa.WithReg(h.x, rd, Plus(h.pc, 4)), BitAnd(target, 0xffff_fffe));
      case Branch(cond, rs1, rs2, offset) =>
        OffsetMeans(h.pc, offset);
        RegMeans(h.x, rs1);
        RegMeans(h.x, rs2);
        HoldsMeans(cond, Isa.Reg(h.x, rs1), Isa.Reg(h.x, rs2));
        JumpMeans(h, h.x, Plus(h.pc, offset));
    }
  }

  lemma ComputationStep(h: Isa.Hart, i: Isa.Instr, env: Isa.Environment)
    requires |h.x| == 32 && env.loadable <= h.mem.Keys && (i.OpImm? || i.ShiftImm? || i.OpReg?)
    ensures ResultOf(Isa.Step(h, i, env)) == Step(StateOf(h), i, env)
  {
    hide ToNat, Plus, Isa.Reg, Reg, Isa.WithReg, WithReg, ValuesOf, MemoryOf, Mod, Signed;
    hide Isa.RegResult, RegResult, Isa.ImmResult, ImmResult, Isa.ShiftResult, ShiftResult;
    NextMeans(h.pc);
    RegMeans(h.x, i.rs1);
    var a := Isa.Reg(h.x, i.rs1);
    match i {
      case OpImm(op, rd, _, imm) =>
        ImmResultMeans(op, a, imm);
        WithRegMeans(h.x, rd, Isa.ImmResult(op, a, imm));
      case ShiftImm(op, rd, _, shamt) =>
        ShiftResultMeans(op, a, shamt);
        WithRegMeans(h.x, rd, Isa.ShiftResult(op, a, shamt));
      case OpReg(op, rd, _, rs2) =>
        RegMeans(h.x, rs2);
        RegResultMeans(op, a, Isa.Reg(h.x, rs2));
        WithRegMeans(h.x, rd, Isa.RegResult(op, a, Isa.Reg(h.x, rs2)));
    }
  }

  lemma OtherStep(h: Isa.Hart, i: Isa.Instr, env: Isa.Environment)
    requires |h.x| == 32 && env.loadable <= h.mem.Keys && (i.Lui? || i.Auipc? || i.Fence? || i.Ecall? || i.Ebreak?)
    ensures ResultOf(Isa.Step(h, i, env)) == Step(StateOf(h), i, env)
  {
    hide ToNat, Plus, Isa.WithReg, WithReg, ValuesOf, MemoryOf, Mod, Signed;
    NextMeans(h.pc);
    match i {
      case Lui(rd, imm) => WithRegMeans(h.x, rd, imm);
      case Auipc(rd, imm) =>
        OffsetMeans(h.pc, imm);
        WithRegMeans(h.x, rd, Plus(h.pc, imm));
      case _ =>
    }
  }

  /** The step of the manual over machine words is the step over the integers. */
  lemma StepMeans(h: Isa.Hart, i: Isa.Instr, env: Isa.Environment)
    requires |h.x| == 32 && env.loadable <= h.mem.Keys
    ensures ResultOf(Isa.Step(h, i, env)) == Step(StateOf(h), i, env)
  {
    hide Isa.Step, Step, ResultOf, StateOf;
    match i {
      case Load(_, _, _, _) => MemoryStep(h, i, env);
      case Store(_, _, _, _) => MemoryStep(h, i, env);
      case Jal(_, _) => JumpStep(h, i, env);
      case Jalr(_, _, _) => JumpStep(h, i, env);
      case Branch(_, _, _, _) => JumpStep(h, i, env);
      case OpImm(_, _, _, _) => ComputationStep(h, i, env);
      case ShiftImm(_, _, _, _) => ComputationStep(h, i, env);
      case OpReg(_, _, _, _) => ComputationStep(h, i, env);
      case _ => OtherStep(h, i, env);
    }
  }

  // ----- nothing is lost -----

  lemma SameBytes(b: Byte, c: Byte)
    requires b as nat == c as nat
    ensures b == c
  {
    hide ToNat;
    ByteMeans(b);
    ByteMeans(c);
    ValueDecides(b as Word, c as Word);
    ByteInWord(b);
    ByteInWord(c);
  }

  lemma ByteInWord(b: Byte)
    ensures ((b as Word) & 0xff) as Byte == b
  {
  }

  /** Harts that read the same in integers are the same. */
  lemma StateDecides(g: Isa.Hart, h: Isa.Hart)
    requires StateOf(g) == StateOf(h)
    ensures g == h
  {
    hide ToNat;
    ValueDecides(g.pc, h.pc);
    assert |ValuesOf(g.x)| == |g.x|;
    forall k | 0 <= k < |g.x|
      ensures g.x[k] == h.x[k]
    {
      assert ValuesOf(g.x)[k] == ValuesOf(h.x)[k];
      ValueDecides(g.x[k], h.x[k]);
    }
    assert g.mem.Keys == MemoryOf(g.mem).Keys == h.mem.Keys;
    forall a | a in g.mem
      ensures g.mem[a] == h.mem[a]
    {
      assert MemoryOf(g.mem)[a] == MemoryOf(h.mem)[a];
      SameBytes(g.mem[a], h.mem[a]);
    }
    assert g.x == h.x;
    assert g.mem == h.mem;
  }

  lemma ResultDecides(r: Isa.Result, s: Isa.Result)
    requires ResultOf(r) == ResultOf(s)
    ensures r == s
  {
    hide StateOf;
    if r.Retire? && s.Retire? { StateDecides(r.hart, s.hart); }
  }
}
