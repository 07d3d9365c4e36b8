/** Machine words, bytes and widths: the integer types of the emulator. */
module Words {
  type Byte = bv8
  type Word = bv32

  const U32_LIMIT: nat := 0x1_0000_0000
  const U64_LIMIT: nat := 0x1_0000_0000_0000_0000

  /** How a call into the emulator ends: it returns a value, or it never returns
      because an assertion fails, a null function is called, memory is
      written out of bounds, or a mutex that is already held is locked again. */
  datatype Outcome<+T> = Returns(value: T) | Halts

  datatype Option<+T> = None | Some(value: T)

  /** memory_access_width_t */
  datatype Width = BYTE | HALFWORD | WORD {
    function Bytes(): (n: nat)
      ensures n == 1 || n == 2 || n == 4
    {
      match this
      case BYTE => 1
      case HALFWORD => 2
      case WORD => 4
    }
  }

  // ----- words as numbers -----

  /** A mask of some number of low bits. */
  predicate IsLowMask(m: Word) { m & (m + 1) == 0 }

  /** The number of values the bits of a low mask can take. */
  function Span(m: Word): (p: nat)
    ensures p >= 1
    decreases m
  {
    if m == 0 then 1 else 2 * Span(m >> 1)
  }

  lemma SpanOfByte(m: Word)
    requires IsLowMask(m) && m & 0xff00_0000 == 0
    ensures Span((m << 8) | 0xff) == 256 * Span(m)
  {
    ShiftsOfByte(m);
    var s := (m << 8) | 0xff;
    assert Span(s) == 4 * Span(s >> 2);
    assert Span(s >> 2) == 4 * Span(s >> 4);
    assert Span(s >> 4) == 4 * Span(s >> 6);
    assert Span(s >> 6) == 4 * Span(s >> 8);
  }

  lemma ShiftsOfByte(m: Word)
    requires m & 0xff00_0000 == 0
    ensures var s := (m << 8) | 0xff;
            && s != 0 && s >> 1 != 0 && s >> 2 != 0 && s >> 3 != 0
            && s >> 4 != 0 && s >> 5 != 0 && s >> 6 != 0 && s >> 7 != 0
            && (s >> 1) >> 1 == s >> 2 && (s >> 2) >> 1 == s >> 3 && (s >> 3) >> 1 == s >> 4
            && (s >> 4) >> 1 == s >> 5 && (s >> 5) >> 1 == s >> 6 && (s >> 6) >> 1 == s >> 7
            && (s >> 7) >> 1 == s >> 8 && s >> 8 == m
  {
  }

  lemma SpanOfWord()
    ensures Span(0xffff_ffff) == U32_LIMIT
    ensures Span(0x1f) == 32
  {
    SpanOfByte(0);
    SpanOfByte(0xff);
    SpanOfByte(0xffff);
    SpanOfByte(0xff_ffff);
    assert Span(0x1f) == 8 * Span(3);
  }

  /** The unsigned value of the bits of w under a low mask. */
  function BitsValue(w: Word, m: Word): (v: nat)
    ensures v < Span(m)
    decreases m
  {
    if m == 0 then 0 else 2 * BitsValue(w >> 1, m >> 1) + (if w & 1 == 0 then 0 else 1)
  }

  /** The unsigned value of a word: uint32_t widened to size_t. */
  function ToNat(w: Word): (n: nat)
    ensures n < U32_LIMIT
  {
    SpanOfWord();
    BitsValue(w, 0xffff_ffff)
  }

  /** The register number in a five-bit field. */
  function Index(r: bv5): (n: nat)
    ensures n < 32
    ensures n == 0 <==> r == 0
  {
    r as nat
  }

  lemma LowMaskStep(v: Word, w: Word, m: Word)
    requires IsLowMask(m) && m != 0
    ensures IsLowMask(m >> 1) && m & 1 == 1
    ensures v & m == w & m ==> v & 1 == w & 1 && (v >> 1) & (m >> 1) == (w >> 1) & (m >> 1)
  {
  }

  lemma CarryStep(w: Word, m: Word)
    requires IsLowMask(m) && m != 0
    ensures w & 1 == 0 ==> (w + 1) >> 1 == w >> 1 && (w + 1) & 1 == 1
    ensures w & 1 != 0 ==>
              (w + 1) & 1 == 0 && ((w + 1) >> 1) & (m >> 1) == ((w >> 1) + 1) & (m >> 1)
  {
  }

  /** Only the bits under the mask count. */
  lemma {:induction false} SameBits(v: Word, w: Word, m: Word)
    requires IsLowMask(m) && v & m == w & m
    ensures BitsValue(v, m) == BitsValue(w, m)
    decreases m
  {
    if m != 0 {
      LowMaskStep(v, w, m);
      SameBits(v >> 1, w >> 1, m >> 1);
    }
  }

  /** What adding one does to the value of the bits under a mask. */
  predicate CountsUp(w: Word, m: Word) {
    BitsValue(w + 1, m) == if BitsValue(w, m) + 1 == Span(m) then 0 else BitsValue(w, m) + 1
  }

  lemma CountsUpEven(w: Word, m: Word)
    requires IsLowMask(m) && m != 0 && w & 1 == 0
    ensures CountsUp(w, m)
  {
    hide BitsValue, Span, IsLowMask;
    CarryStep(w, m);
    EvenValue(w, m);
    OddValue(w + 1, m);
    SpanDoubles(m);
  }

  lemma SpanDoubles(m: Word)
    requires m != 0
    ensures Span(m) == 2 * Span(m >> 1)
  {
  }

  lemma EvenValue(w: Word, m: Word)
    requires m != 0 && w & 1 == 0
    ensures BitsValue(w, m) == 2 * BitsValue(w >> 1, m >> 1)
  {
  }

  lemma OddValue(w: Word, m: Word)
    requires m != 0 && w & 1 != 0
    ensures BitsValue(w, m) == 2 * BitsValue(w >> 1, m >> 1) + 1
  {
  }

  lemma AddOneToOdd(w: Word, m: Word)
    requires IsLowMask(m) && m != 0 && w & 1 != 0
    ensures BitsValue(w + 1, m) == 2 * BitsValue((w >> 1) + 1, m >> 1)
    ensures BitsValue(w, m) == 2 * BitsValue(w >> 1, m >> 1) + 1
    ensures Span(m) == 2 * Span(m >> 1)
  {
    hide BitsValue, Span, IsLowMask;
    CarriedValue(w, m);
    CarryStep(w, m);
    EvenValue(w + 1, m);
    OddValue(w, m);
    SpanDoubles(m);
  }

  lemma CarriedValue(w: Word, m: Word)
    requires IsLowMask(m) && m != 0 && w & 1 != 0
    ensures BitsValue((w + 1) >> 1, m >> 1) == BitsValue((w >> 1) + 1, m >> 1)
  {
    hide BitsValue, IsLowMask;
    HalfMask(m);
    CarryAgrees(w, m);
    SameBits((w + 1) >> 1, (w >> 1) + 1, m >> 1);
  }

  lemma HalfMask(m: Word)
    requires IsLowMask(m)
    ensures IsLowMask(m >> 1)
  {
  }

  lemma CarryAgrees(w: Word, m: Word)
    requires IsLowMask(m) && m != 0 && w & 1 != 0
    ensures ((w + 1) >> 1) & (m >> 1) == ((w >> 1) + 1) & (m >> 1)
  {
    CarryStep(w, m);
  }

  lemma CountsUpOdd(w: Word, m: Word)
    requires IsLowMask(m) && m != 0 && w & 1 != 0 && CountsUp(w >> 1, m >> 1)
    ensures CountsUp(w, m)
  {
    hide BitsValue, Span, IsLowMask;
    AddOneToOdd(w, m);
  }

  lemma CountsUpNothing(w: Word)
    ensures CountsUp(w, 0)
  {
  }

  /** Counting up by one, in binary. */
  lemma {:induction false} AddOneBits(w: Word, m: Word)
    requires IsLowMask(m)
    ensures CountsUp(w, m)
    decreases m
  {
    hide BitsValue, Span, IsLowMask, CountsUp;
    if m == 0 {
      CountsUpNothing(w);
    } else if w & 1 == 0 {
      CountsUpEven(w, m);
    } else {
      LowMaskStep(w, w, m);
      MaskShrinks(m);
      AddOneBits(w >> 1, m >> 1);
      CountsUpOdd(w, m);
    }
  }

  lemma MaskShrinks(m: Word)
    requires m != 0
    ensures m >> 1 < m
  {
  }

  lemma AddOne(w: Word)
    ensures ToNat(w + 1) == if ToNat(w) + 1 == U32_LIMIT then 0 else ToNat(w) + 1
  {
    SpanOfWord();
    AddOneBits(w, 0xffff_ffff);
  }

  lemma AddTwo(w: Word)
    ensures ToNat(w + 1 + 1) ==
            if ToNat(w) + 2 < U32_LIMIT then ToNat(w) + 2 else ToNat(w) + 2 - U32_LIMIT
  {
    AddOne(w);
    AddOne(w + 1);
  }

  lemma PlusFour(w: Word)
    ensures w + 4 == w + 1 + 1 + 1 + 1
  {
  }

  lemma AddTwoTwice(w: Word)
    ensures ToNat(w + 1 + 1 + 1 + 1) ==
            if ToNat(w) + 4 < U32_LIMIT then ToNat(w) + 4 else ToNat(w) + 4 - U32_LIMIT
  {
    AddTwo(w);
    AddTwo(w + 1 + 1);
  }

  /** Adding an instruction length to a word adds it to the word's value, modulo
      the size of the address space. */
  lemma AddFour(w: Word)
    ensures ToNat(Plus(w, 4)) == if ToNat(w) + 4 < U32_LIMIT then ToNat(w) + 4 else ToNat(w) + 4 - U32_LIMIT
  {
    PlusFour(w);
    AddTwoTwice(w);
  }

  // ----- 32-bit arithmetic, modulo 2^32 -----

  function Plus(a: Word, b: Word): Word { a + b }

  function Minus(a: Word, b: Word): Word { a - b }

  function Xor(a: Word, b: Word): Word { a ^ b }

  function BitOr(a: Word, b: Word): Word { a | b }

  function BitAnd(a: Word, b: Word): Word { a & b }

  function ShiftLeft(a: Word, s: bv5): Word { a << s }

  function ShiftRight(a: Word, s: bv5): Word { a >> s }

  /** SRA: the sign bit fills the vacated upper bits. */
  function ShiftRightSigned(a: Word, s: bv5): Word {
    if a & 0x8000_0000 == 0 then ShiftRight(a, s) else !ShiftRight(!a, s)
  }

  predicate Less(a: Word, b: Word) { a < b }

  /** The shift amount in the low bits of a register. */
  function Shamt(v: Word): bv5 { (v & 31) as bv5 }

  // ----- signed readings of words -----

  /** The order of two words read as two's complement numbers. */
  predicate SignedLess(a: Word, b: Word) {
    Less(Xor(a, 0x8000_0000), Xor(b, 0x8000_0000))
  }

  function SignExtend12(i: bv12): Word {
    if i & 0x800 != 0 then (i as Word) | 0xffff_f000 else i as Word
  }

  function SignExtend20(i: bv20): Word {
    if i & 0x8_0000 != 0 then (i as Word) | 0xfff0_0000 else i as Word
  }

  /** An offset whose bit 0 is not stored. */
  function Doubled(v: Word): Word { v << 1 }

  /** A 20-bit immediate in the upper bits of a word. */
  function UpperField(i: bv20): Word { (i as Word) << 12 }

  function Upper(v: Word): Word { v << 12 }

  // ----- words as bytes, least significant byte first -----

  /** The word whose low bytes are b on a little-endian host. */
  function Compose(b: seq<Byte>): Word
    requires |b| == 1 || |b| == 2 || |b| == 4
  {
    if |b| == 1 then b[0] as Word
    else if |b| == 2 then (b[0] as Word) | ((b[1] as Word) << 8)
    else (b[0] as Word) | ((b[1] as Word) << 8) | ((b[2] as Word) << 16) | ((b[3] as Word) << 24)
  }

  /** Byte k of w, counted from the least significant. */
  function ByteOf(w: Word, k: nat): Byte
    requires k < 4
  {
    if k == 0 then (w & 0xff) as Byte
    else if k == 1 then ((w >> 8) & 0xff) as Byte
    else if k == 2 then ((w >> 16) & 0xff) as Byte
    else (w >> 24) as Byte
  }

  /** The low bytes of w, in memory order. */
  function Decompose(w: Word, width: Width): (b: seq<Byte>)
    ensures |b| == width.Bytes()
  {
    match width
    case BYTE => [ByteOf(w, 0)]
    case HALFWORD => [ByteOf(w, 0), ByteOf(w, 1)]
    case WORD => [ByteOf(w, 0), ByteOf(w, 1), ByteOf(w, 2), ByteOf(w, 3)]
  }

  function Truncate(w: Word, width: Width): Word {
    match width
    case BYTE => BitAnd(w, 0xff)
    case HALFWORD => BitAnd(w, 0xffff)
    case WORD => w
  }

  lemma ComposeOfBytes(w: Word)
    ensures ByteOf(w, 0) as Word == w & 0xff
    ensures (ByteOf(w, 0) as Word) | ((ByteOf(w, 1) as Word) << 8) == w & 0xffff
    ensures (ByteOf(w, 0) as Word) | ((ByteOf(w, 1) as Word) << 8)
          | ((ByteOf(w, 2) as Word) << 16) | ((ByteOf(w, 3) as Word) << 24) == w
  {
  }

  lemma ComposeByte(w: Word)
    ensures Compose(Decompose(w, BYTE)) == BitAnd(w, 0xff)
  {
    ComposeOfBytes(w);
  }

  lemma ComposeHalfword(w: Word)
    ensures Compose(Decompose(w, HALFWORD)) == BitAnd(w, 0xffff)
  {
    ComposeOfBytes(w);
  }

  lemma ComposeWord(w: Word)
    ensures Compose(Decompose(w, WORD)) == w
  {
    ComposeOfBytes(w);
  }

  /** Storing a word and loading it again truncates it to the width of the access. */
  lemma ComposeDecompose(w: Word, width: Width)
    ensures Compose(Decompose(w, width)) == Truncate(w, width)
  {
    ComposeByte(w);
    ComposeHalfword(w);
    ComposeWord(w);
  }

  // ----- sequences used as buffers -----

  /** s with t copied over it from position o on. */
  function Splice<T>(s: seq<T>, o: nat, t: seq<T>): (r: seq<T>)
    requires o + |t| <= |s|
    ensures |r| == |s|
    ensures forall i :: 0 <= i < |s| ==> r[i] == if o <= i < o + |t| then t[i - o] else s[i]
  {
    seq(|s|, i requires 0 <= i < |s| => if o <= i < o + |t| then t[i - o] else s[i])
  }
}
