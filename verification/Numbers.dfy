/** What the operations on words compute, in integers. */
module Numbers {
  import opened Words

  /** 2 to the power n. */
  function Pow2(n: nat): (p: nat)
    ensures p >= 1
  {
    if n == 0 then 1 else 2 * Pow2(n - 1)
  }

  lemma Pow2OfWord()
    ensures Pow2(5) == 32 && Pow2(8) == 256 && Pow2(16) == 65536 && Pow2(24) == 0x100_0000
    ensures Pow2(31) == 0x8000_0000 && Pow2(32) == U32_LIMIT
  {
    assert Pow2(8) == 256;
    assert Pow2(16) == 65536;
    assert Pow2(24) == 0x100_0000;
    assert Pow2(28) == 0x1000_0000;
  }

  // ----- the value of a word -----

  lemma {:induction false} ZeroBits(mask: Word)
    requires IsLowMask(mask)
    ensures BitsValue(0, mask) == 0
    decreases mask
  {
    if mask != 0 {
      LowMaskStep(0, 0, mask);
      ZeroBits(mask >> 1);
    }
  }

  /** The value of a word starts at 0 and counts up with it, modulo 2^32. */
  lemma ValueCounts(w: Word)
    ensures ToNat(0) == 0
    ensures ToNat(w + 1) == if ToNat(w) == 0xffff_ffff then 0 else ToNat(w) + 1
  {
    ZeroBits(0xffff_ffff);
    AddOne(w);
  }

  lemma HalvesDecide(v: Word, w: Word, m: Word)
    requires IsLowMask(m) && m != 0 && v & 1 == w & 1 && (v >> 1) & (m >> 1) == (w >> 1) & (m >> 1)
    ensures v & m == w & m
  {
  }

  lemma LastBit(v: Word)
    ensures v & 1 == 0 || v & 1 == 1
  {
  }

  lemma {:induction false} SameValue(v: Word, w: Word, m: Word)
    requires IsLowMask(m) && BitsValue(v, m) == BitsValue(w, m)
    ensures v & m == w & m
    decreases m
  {
    if m != 0 {
      LowMaskStep(v, w, m);
      HalvesOfEqual(v, w, m);
      SameValue(v >> 1, w >> 1, m >> 1);
      HalvesDecide(v, w, m);
    }
  }

  lemma HalvesOfEqual(v: Word, w: Word, m: Word)
    requires m != 0 && BitsValue(v, m) == BitsValue(w, m)
    ensures v & 1 == w & 1 && BitsValue(v >> 1, m >> 1) == BitsValue(w >> 1, m >> 1)
  {
    hide IsLowMask;
    LastBit(v);
    LastBit(w);
    UnfoldBits(v, m);
    UnfoldBits(w, m);
    hide BitsValue;
  }

  lemma UnfoldBits(v: Word, m: Word)
    requires m != 0
    ensures BitsValue(v, m) == 2 * BitsValue(v >> 1, m >> 1) + (if v & 1 == 0 then 0 else 1)
  {
  }

  /** Words of the same value are the same. */
  lemma ValueDecides(v: Word, w: Word)
    requires ToNat(v) == ToNat(w)
    ensures v == w
  {
    SameValue(v, w, 0xffff_ffff);
    AllBits(v);
    AllBits(w);
  }

  lemma AllBits(v: Word)
    ensures v & 0xffff_ffff == v
  {
  }

  /** A word other than 0 counts up from the one before it. */
  lemma OneBefore(w: Word)
    requires w != 0
    ensures ToNat(w) == ToNat(w - 1) + 1
  {
    hide ToNat;
    ValueCounts(w - 1);
    assert w - 1 + 1 == w;
    if ToNat(w) == 0 {
      ValueDecides(w, 0);
    }
  }

  // ----- sums and differences -----

  lemma SumStep(a: Word, b: Word)
    ensures Plus(a, b) == Plus(a, b - 1) + 1
  {
  }

  /** Addition is addition modulo 2^32. */
  lemma {:induction false} PlusMeans(a: Word, b: Word)
    ensures ToNat(Plus(a, b)) == (ToNat(a) + ToNat(b)) % U32_LIMIT
    decreases ToNat(b)
  {
    hide ToNat, Plus;
    ValueCounts(0);
    if b == 0 {
      PlusZero(a);
    } else {
      OneBefore(b);
      PlusMeans(a, b - 1);
      SumStep(a, b);
      ValueCounts(Plus(a, b - 1));
    }
  }

  lemma PlusZero(a: Word)
    ensures Plus(a, 0) == a
  {
  }

  lemma DifferenceStep(a: Word, b: Word)
    ensures Minus(a, b) + 1 == Minus(a, b - 1)
  {
  }

  lemma MinusZero(a: Word)
    ensures Minus(a, 0) == a
  {
  }

  /** Subtraction is subtraction modulo 2^32. */
  lemma {:induction false} MinusMeans(a: Word, b: Word)
    ensures ToNat(Minus(a, b)) == (ToNat(a) as int - ToNat(b)) % U32_LIMIT
    decreases ToNat(b)
  {
    hide ToNat, Minus;
    ValueCounts(0);
    if b == 0 {
      MinusZero(a);
    } else {
      OneBefore(b);
      MinusMeans(a, b - 1);
      DifferenceStep(a, b);
      ValueCounts(Minus(a, b));
    }
  }

  // ----- order -----

  lemma HalfBelow(a: Word, b: Word)
    requires a >> 1 < b >> 1
    ensures a < b
  {
  }

  lemma LastBitBelow(a: Word, b: Word)
    requires a >> 1 == b >> 1 && a & 1 == 0 && b & 1 == 1
    ensures a < b
  {
  }

  lemma LessByHalf(a: Word, b: Word)
    requires Less(ShiftRight(a, 1), ShiftRight(b, 1))
    ensures Less(a, b)
  {
    hide Less, ShiftRight;
    ShiftRightIs(a, 1);
    ShiftRightIs(b, 1);
    LessIs(ShiftRight(a, 1), ShiftRight(b, 1));
    HalfBelow(a, b);
    LessIs(a, b);
  }

  lemma LessIs(a: Word, b: Word)
    ensures Less(a, b) <==> a < b
  {
  }

  lemma ShiftRightIs(a: Word, s: bv5)
    ensures ShiftRight(a, s) == a >> s
  {
  }

  lemma LessByLastBit(a: Word, b: Word)
    requires ShiftRight(a, 1) == ShiftRight(b, 1) && a & 1 == 0 && b & 1 != 0
    ensures Less(a, b)
  {
    LastBit(b);
    LastBitBelow(a, b);
  }

  /** Only bits under the mask are set. */
  predicate Under(a: Word, m: Word) { a & m == a }

  lemma HalfUnderMask(a: Word, m: Word)
    requires IsLowMask(m) && m != 0 && Under(a, m)
    ensures IsLowMask(ShiftRight(m, 1)) && Under(ShiftRight(a, 1), ShiftRight(m, 1))
    ensures ShiftRight(m, 1) < m
  {
    MaskShrinks(m);
  }

  /** The lower value has the lower half, or the same half and the lower last bit. */
  lemma ValueByHalves(a: Word, b: Word, m: Word)
    requires m != 0 && BitsValue(a, m) < BitsValue(b, m)
    requires !(BitsValue(ShiftRight(a, 1), ShiftRight(m, 1)) < BitsValue(ShiftRight(b, 1), ShiftRight(m, 1)))
    ensures BitsValue(ShiftRight(a, 1), ShiftRight(m, 1)) == BitsValue(ShiftRight(b, 1), ShiftRight(m, 1))
    ensures a & 1 == 0 && b & 1 != 0
  {
    UnfoldBits(a, m);
    UnfoldBits(b, m);
    hide BitsValue;
  }

  lemma EqualHalves(a: Word, b: Word, m: Word)
    requires IsLowMask(m) && Under(a, m) && Under(b, m) && BitsValue(a, m) == BitsValue(b, m)
    ensures a == b
  {
    hide BitsValue, IsLowMask;
    SameValue(a, b, m);
  }

  lemma LastBitOrders(a: Word, b: Word, m: Word)
    requires IsLowMask(m) && m != 0 && Under(a, m) && Under(b, m)
    requires BitsValue(a, m) < BitsValue(b, m)
    requires !(BitsValue(ShiftRight(a, 1), ShiftRight(m, 1)) < BitsValue(ShiftRight(b, 1), ShiftRight(m, 1)))
    ensures Less(a, b)
  {
    hide BitsValue, Less, IsLowMask, ShiftRight, Under;
    HalfUnderMask(a, m);
    HalfUnderMask(b, m);
    ValueByHalves(a, b, m);
    EqualHalves(ShiftRight(a, 1), ShiftRight(b, 1), ShiftRight(m, 1));
    LessByLastBit(a, b);
  }

  /** The word of the lower value is the lower word. */
  lemma {:induction false} ValueOrders(a: Word, b: Word, m: Word)
    requires IsLowMask(m) && Under(a, m) && Under(b, m) && BitsValue(a, m) < BitsValue(b, m)
    ensures Less(a, b)
    decreases m
  {
    hide BitsValue, Less, IsLowMask, ShiftRight, Under;
    if m == 0 {
      NoBits(a);
      NoBits(b);
    } else if BitsValue(ShiftRight(a, 1), ShiftRight(m, 1)) < BitsValue(ShiftRight(b, 1), ShiftRight(m, 1)) {
      HalfUnderMask(a, m);
      HalfUnderMask(b, m);
      ValueOrders(ShiftRight(a, 1), ShiftRight(b, 1), ShiftRight(m, 1));
      LessByHalf(a, b);
    } else {
      LastBitOrders(a, b, m);
    }
  }

  lemma NoBits(a: Word)
    ensures BitsValue(a, 0) == 0
  {
  }

  lemma LessIsStrict(a: Word, b: Word)
    requires Less(a, b)
    ensures !Less(b, a) && a != b
  {
  }

  lemma ValueOrdersWords(a: Word, b: Word)
    requires ToNat(a) < ToNat(b)
    ensures Less(a, b)
  {
    AllBits(a);
    AllBits(b);
    ValueOrders(a, b, 0xffff_ffff);
  }

  /** The unsigned order is the order of the values. */
  lemma LessMeans(a: Word, b: Word)
    ensures Less(a, b) <==> ToNat(a) < ToNat(b)
  {
    hide ToNat, Less;
    if ToNat(a) < ToNat(b) {
      ValueOrdersWords(a, b);
    } else if ToNat(b) < ToNat(a) {
      ValueOrdersWords(b, a);
      LessIsStrict(b, a);
    } else {
      ValueDecides(a, b);
      if Less(a, b) { LessIsStrict(a, b); }
    }
  }

  // ----- shifts -----

  lemma LeftByOdd(a: Word, s: bv5)
    requires s & 1 == 1
    ensures ShiftLeft(a, s) == ShiftLeft(ShiftLeft(a, s - 1), 1)
  {
  }

  lemma LeftByTwo(a: Word, s: bv5)
    requires s & 3 == 2
    ensures ShiftLeft(a, s) == ShiftLeft(ShiftLeft(a, s - 1), 1)
  {
  }

  lemma LeftByFour(a: Word, s: bv5)
    requires s & 7 == 4
    ensures ShiftLeft(a, s) == ShiftLeft(ShiftLeft(a, s - 1), 1)
  {
  }

  lemma LeftByEight(a: Word, s: bv5)
    requires s & 15 == 8
    ensures ShiftLeft(a, s) == ShiftLeft(ShiftLeft(a, s - 1), 1)
  {
  }

  lemma LeftBySixteen(a: Word, s: bv5)
    requires s == 16
    ensures ShiftLeft(a, s) == ShiftLeft(ShiftLeft(a, s - 1), 1)
  {
  }

  lemma LeftStep(a: Word, s: bv5)
    requires s != 0
    ensures ShiftLeft(a, s) == ShiftLeft(ShiftLeft(a, s - 1), 1)
  {
    hide ShiftLeft;
    if s & 1 == 1 {
      LeftByOdd(a, s);
    } else if s & 3 == 2 {
      LeftByTwo(a, s);
    } else if s & 7 == 4 {
      LeftByFour(a, s);
    } else if s & 15 == 8 {
      LeftByEight(a, s);
    } else {
      LeftBySixteen(a, s);
    }
  }

  lemma RightByOdd(a: Word, s: bv5)
    requires s & 1 == 1
    ensures ShiftRight(a, s) == ShiftRight(ShiftRight(a, s - 1), 1)
  {
  }

  lemma RightByTwo(a: Word, s: bv5)
    requires s & 3 == 2
    ensures ShiftRight(a, s) == ShiftRight(ShiftRight(a, s - 1), 1)
  {
  }

  lemma RightByFour(a: Word, s: bv5)
    requires s & 7 == 4
    ensures ShiftRight(a, s) == ShiftRight(ShiftRight(a, s - 1), 1)
  {
  }

  lemma RightByEight(a: Word, s: bv5)
    requires s & 15 == 8
    ensures ShiftRight(a, s) == ShiftRight(ShiftRight(a, s - 1), 1)
  {
  }

  lemma RightBySixteen(a: Word, s: bv5)
    requires s == 16
    ensures ShiftRight(a, s) == ShiftRight(ShiftRight(a, s - 1), 1)
  {
  }

  lemma RightStep(a: Word, s: bv5)
    requires s != 0
    ensures ShiftRight(a, s) == ShiftRight(ShiftRight(a, s - 1), 1)
  {
    hide ShiftRight;
    if s & 1 == 1 {
      RightByOdd(a, s);
    } else if s & 3 == 2 {
      RightByTwo(a, s);
    } else if s & 7 == 4 {
      RightByFour(a, s);
    } else if s & 15 == 8 {
      RightByEight(a, s);
    } else {
      RightBySixteen(a, s);
    }
  }

  lemma OneLess(s: bv5)
    requires s != 0
    ensures Index(s - 1) == Index(s) - 1
  {
  }

  lemma LeftByOne(a: Word)
    ensures ShiftLeft(a, 1) == Plus(a, a)
  {
  }

  lemma ShiftByZero(a: Word)
    ensures ShiftLeft(a, 0) == a && ShiftRight(a, 0) == a && Index(0) == 0
  {
  }

  /** A quotient and a remainder that fit are the ones that division gives. */
  lemma DivisionIs(x: int, p: nat, q: int, r: int)
    requires p > 0 && x == q * p + r && 0 <= r < p
    ensures x / p == q && x % p == r
  {
    var d := x / p - q;
    assert x == x / p * p + x % p;
    assert d * p == x / p * p - q * p;
    Multiples(d, p);
  }

  lemma Multiples(d: int, p: nat)
    ensures d > 0 ==> d * p >= p
    ensures d < 0 ==> d * p + p <= 0
  {
    if d > 0 {
      assert (d - 1) * p >= 0;
    } else if d < 0 {
      assert (-d - 1) * p >= 0;
    }
  }

  lemma DoubleModulo(x: nat, m: nat)
    requires m > 0
    ensures (x % m + x % m) % m == 2 * x % m
  {
    var q, r := x / m, x % m;
    var c := if r + r < m then 0 else 1;
    assert x == q * m + r;
    assert (2 * q + c) * m == 2 * (q * m) + c * m;
    DivisionIs(2 * x, m, 2 * q + c, r + r - c * m);
    DivisionIs(r + r, m, c, r + r - c * m);
  }

  lemma DoubleProduct(x: nat, p: nat, m: nat, v: nat)
    requires m > 0 && v == x * p % m
    ensures (v + v) % m == x * (2 * p) % m
  {
    DoubleModulo(x * p, m);
    assert x * (2 * p) == 2 * (x * p);
  }

  lemma UnfoldPow2(n: nat)
    ensures Pow2(n) == if n == 0 then 1 else 2 * Pow2(n - 1)
  {
  }

  lemma TimesOne(x: nat, m: nat)
    requires x < m
    ensures x * 1 % m == x
  {
  }

  /** Shifting left multiplies by a power of two, modulo 2^32. */
  lemma {:induction false} ShiftLeftMeans(a: Word, s: bv5)
    ensures ToNat(ShiftLeft(a, s)) == ToNat(a) * Pow2(Index(s)) % U32_LIMIT
    decreases Index(s)
  {
    hide ToNat, ShiftLeft, Plus, Index, Pow2;
    UnfoldPow2(Index(s));
    if s == 0 {
      ShiftByZero(a);
      TimesOne(ToNat(a), U32_LIMIT);
    } else {
      OneLess(s);
      LeftStep(a, s);
      ShiftLeftMeans(a, s - 1);
      var v := ShiftLeft(a, s - 1);
      LeftByOne(v);
      PlusMeans(v, v);
      DoubleProduct(ToNat(a), Pow2(Index(s) - 1), U32_LIMIT, ToNat(v));
    }
  }

  /** The sign bit alone. */
  lemma TopBit()
    ensures ToNat(1) == 1
    ensures ToNat(0x8000_0000) == 0x8000_0000
  {
    hide ToNat, ShiftLeft;
    ValueCounts(0);
    assert ToNat(0 + 1) == 1;
    ShiftLeftMeans(1, 31);
    OneToTop();
    Pow2OfWord();
    TopIndex();
  }

  lemma TopIndex()
    ensures Index(31) == 31
  {
  }

  lemma OneToTop()
    ensures ShiftLeft(1, 31) == 0x8000_0000
  {
  }

  lemma HalfIsLow(a: Word)
    ensures Less(ShiftRight(a, 1), 0x8000_0000)
    ensures a == Plus(Plus(ShiftRight(a, 1), ShiftRight(a, 1)), a & 1)
  {
  }

  /** The value of a word, by its half and its last bit. */
  lemma Halves(a: Word)
    ensures ToNat(a) == 2 * ToNat(ShiftRight(a, 1)) + (if a & 1 == 0 then 0 else 1)
  {
    hide ToNat, Plus, ShiftRight, Less;
    var h := ShiftRight(a, 1);
    HalfIsLow(a);
    LessMeans(h, 0x8000_0000);
    TopBit();
    PlusMeans(h, h);
    PlusMeans(Plus(h, h), a & 1);
    LastBit(a);
    ValueCounts(0);
  }

  lemma DivideTwice(x: nat, p: nat)
    requires p > 0
    ensures x / p / 2 == x / (2 * p)
  {
    var q := x / (2 * p);
    var r := x % (2 * p);
    assert x == q * (2 * p) + r;
    assert x == (2 * q) * p + r;
    DivisionIs(x, p, if r < p then 2 * q else 2 * q + 1, if r < p then r else r - p);
  }

  /** Shifting right divides by a power of two. */
  lemma {:induction false} ShiftRightMeans(a: Word, s: bv5)
    ensures ToNat(ShiftRight(a, s)) == ToNat(a) / Pow2(Index(s))
    decreases Index(s)
  {
    hide ToNat, ShiftRight;
    ShiftByZero(a);
    if s != 0 {
      OneLess(s);
      RightStep(a, s);
      ShiftRightMeans(a, s - 1);
      Halves(ShiftRight(a, s - 1));
      DivideTwice(ToNat(a), Pow2(Index(s) - 1));
    }
  }

  // ----- signed readings -----

  /** The two's complement reading of a word, section 2.1 of the manual. */
  function Signed(w: Word): (v: int)
    ensures -0x8000_0000 <= v < 0x8000_0000
  {
    AsSigned(ToNat(w))
  }

  function AsSigned(n: nat): int {
    if n < 0x8000_0000 then n else n - U32_LIMIT
  }

  lemma FlipIsAdd(a: Word)
    ensures Xor(a, 0x8000_0000) == Plus(a, 0x8000_0000)
  {
  }

  lemma FlipMeans(a: Word)
    ensures ToNat(Xor(a, 0x8000_0000)) == Signed(a) + 0x8000_0000
  {
    hide ToNat, Plus, Xor;
    FlipIsAdd(a);
    TopBit();
    PlusMeans(a, 0x8000_0000);
  }

  /** The signed order is the order of the signed readings. */
  lemma SignedLessMeans(a: Word, b: Word)
    ensures SignedLess(a, b) <==> Signed(a) < Signed(b)
  {
    hide ToNat, Less, Xor, Signed;
    FlipMeans(a);
    FlipMeans(b);
    LessMeans(Xor(a, 0x8000_0000), Xor(b, 0x8000_0000));
  }

  lemma NotIsMinus(a: Word)
    ensures !a == Minus(0xffff_ffff, a)
  {
  }

  lemma AllOnes()
    ensures ToNat(0xffff_ffff) == 0xffff_ffff
  {
    hide ToNat;
    ValueCounts(0xffff_ffff);
    ValueCounts(0);
    assert ToNat(0xffff_ffff + 1) == 0;
  }

  lemma NotMeans(a: Word)
    ensures ToNat(!a) == 0xffff_ffff - ToNat(a)
  {
    hide ToNat, Minus;
    AllOnes();
    NotIsMinus(a);
    MinusMeans(0xffff_ffff, a);
  }

  lemma SignBit(a: Word)
    ensures a & 0x8000_0000 == 0 <==> Less(a, 0x8000_0000)
  {
  }

  lemma NegativeQuotient(y: nat, p: nat)
    requires p > 0
    ensures (-1 - y) / p == -1 - y / p
  {
    var q: int := y / p;
    assert y == q * p + y % p;
    assert (-1 - q) * p + p + q * p == 0;
    DivisionIs(-1 - y, p, -1 - q, p - 1 - y % p);
  }

  lemma PositiveShift(a: Word, s: bv5)
    requires a & 0x8000_0000 == 0
    ensures ShiftRightSigned(a, s) == ShiftRight(a, s)
  {
    hide ShiftRight;
  }

  lemma NegativeShift(a: Word, s: bv5)
    requires a & 0x8000_0000 != 0
    ensures ShiftRightSigned(a, s) == !ShiftRight(!a, s)
  {
    hide ShiftRight;
  }

  /** The arithmetic shift divides the signed reading, rounding down. */
  lemma ShiftRightSignedMeans(a: Word, s: bv5)
    ensures Signed(ShiftRightSigned(a, s)) == Signed(a) / Pow2(Index(s))
  {
    hide ToNat, ShiftRight, ShiftRightSigned, Less, Pow2, Index;
    var p := Pow2(Index(s));
    SignBit(a);
    TopBit();
    LessMeans(a, 0x8000_0000);
    if a & 0x8000_0000 == 0 {
      PositiveShift(a, s);
      ShiftRightMeans(a, s);
      QuotientBounds(ToNat(a), p);
    } else {
      var y := 0xffff_ffff - ToNat(a);
      NegativeShift(a, s);
      NotMeans(a);
      ShiftRightMeans(!a, s);
      NotMeans(ShiftRight(!a, s));
      QuotientBounds(y, p);
      NegativeQuotient(y, p);
    }
  }

  lemma QuotientBounds(x: nat, p: nat)
    requires p > 0
    ensures 0 <= x / p <= x
  {
    var q, r := x / p, x % p;
    assert x == q * p + r;
    Multiples(p, q);
    assert p * q == q * p;
  }

  // ----- bits -----

  /** Bit k of a number. */
  predicate Bit(n: nat, k: nat) { n / Pow2(k) % 2 == 1 }

  lemma BitStep(n: nat, k: nat)
    ensures k == 0 ==> (Bit(n, k) <==> n % 2 == 1)
    ensures k > 0 ==> Bit(n, k) == Bit(n / 2, k - 1)
  {
    if k > 0 {
      DivideFirst(n, Pow2(k - 1));
    }
  }

  lemma DivideFirst(x: nat, p: nat)
    requires p > 0
    ensures x / 2 / p == x / (2 * p)
  {
    var q := x / (2 * p);
    var r := x % (2 * p);
    assert q * (2 * p) == 2 * (q * p);
    assert x == 2 * (q * p) + r;
    DivisionIs(x / 2, p, q, r / 2);
  }

  /** The bits of a word are those of its value, from the last one on. */
  lemma WordBit(w: Word, k: nat)
    ensures k == 0 ==> (Bit(ToNat(w), k) <==> w & 1 != 0)
    ensures k > 0 ==> Bit(ToNat(w), k) == Bit(ToNat(ShiftRight(w, 1)), k - 1)
  {
    hide ToNat, ShiftRight, Bit;
    Halves(w);
    BitStep(ToNat(w), k);
  }

  lemma LastBits(a: Word, b: Word)
    ensures Xor(a, b) & 1 != 0 <==> (a & 1 != 0) != (b & 1 != 0)
    ensures BitOr(a, b) & 1 != 0 <==> a & 1 != 0 || b & 1 != 0
    ensures BitAnd(a, b) & 1 != 0 <==> a & 1 != 0 && b & 1 != 0
  {
  }

  lemma HigherXor(a: Word, b: Word)
    ensures ShiftRight(Xor(a, b), 1) == Xor(ShiftRight(a, 1), ShiftRight(b, 1))
  {
  }

  lemma HigherOr(a: Word, b: Word)
    ensures ShiftRight(BitOr(a, b), 1) == BitOr(ShiftRight(a, 1), ShiftRight(b, 1))
  {
  }

  lemma HigherAnd(a: Word, b: Word)
    ensures ShiftRight(BitAnd(a, b), 1) == BitAnd(ShiftRight(a, 1), ShiftRight(b, 1))
  {
  }

  /** Exclusive or, or and and work bit by bit. */
  lemma {:induction false} BitwiseMeans(a: Word, b: Word, k: nat)
    ensures Bit(ToNat(Xor(a, b)), k) <==> Bit(ToNat(a), k) != Bit(ToNat(b), k)
    ensures Bit(ToNat(BitOr(a, b)), k) <==> Bit(ToNat(a), k) || Bit(ToNat(b), k)
    ensures Bit(ToNat(BitAnd(a, b)), k) <==> Bit(ToNat(a), k) && Bit(ToNat(b), k)
    decreases k
  {
    hide ToNat, ShiftRight, Bit, Xor, BitOr, BitAnd;
    WordBit(a, k);
    WordBit(b, k);
    WordBit(Xor(a, b), k);
    WordBit(BitOr(a, b), k);
    WordBit(BitAnd(a, b), k);
    LastBits(a, b);
    HigherXor(a, b);
    HigherOr(a, b);
    HigherAnd(a, b);
    if k > 0 {
      BitwiseMeans(ShiftRight(a, 1), ShiftRight(b, 1), k - 1);
    }
  }

  // ----- fields of words -----

  lemma NextRegister(r: bv5)
    requires r != 0
    ensures r as Word == (r - 1) as Word + 1
  {
  }

  /** A register number has the value of its five-bit field. */
  lemma {:induction false} IndexMeans(r: bv5)
    ensures Index(r) == ToNat(r as Word)
    decreases Index(r)
  {
    hide ToNat;
    ValueCounts(0);
    if r != 0 {
      OneLess(r);
      IndexMeans(r - 1);
      NextRegister(r);
      ValueCounts((r - 1) as Word);
    }
  }

  lemma NextByte(b: Byte)
    requires b != 0
    ensures b as nat == (b - 1) as nat + 1
    ensures b as Word == (b - 1) as Word + 1
  {
  }

  lemma {:induction false} ByteMeans(b: Byte)
    ensures ToNat(b as Word) == b as nat < 256
    decreases b as nat
  {
    hide ToNat;
    ValueCounts(0);
    if b != 0 {
      NextByte(b);
      ByteMeans(b - 1);
      ValueCounts((b - 1) as Word);
    }
  }

  /** m holds the last s bits of v. */
  predicate LastPart(v: Word, s: bv5, m: Word) {
    v == Plus(ShiftLeft(ShiftRight(v, s), s), m) && Less(m, ShiftLeft(1, s))
  }

  lemma {:induction false} Pow2Grows(m: nat, n: nat)
    requires m < n
    ensures Pow2(m) < Pow2(n)
    decreases n
  {
    if m < n - 1 { Pow2Grows(m, n - 1); }
  }

  lemma SumOfParts(v: nat, x: nat, m: nat, n: nat)
    requires v < n && x <= v && m < n && v == (x + m) % n
    ensures v == x + m
  {
    if x + m >= n {
      DivisionIs(x + m, n, 1, x + m - n);
    }
  }

  lemma QuotientTimes(v: nat, p: nat)
    requires p > 0
    ensures 0 <= v / p * p <= v
  {
  }

  lemma RemainderIs(v: nat, p: nat, m: nat, n: nat)
    requires 0 < p <= n && v < n && m < p && v == (v / p * p % n + m) % n
    ensures m == v % p
  {
    var x := v / p * p;
    QuotientTimes(v, p);
    assert x % n == x by { DivisionIs(x, n, 0, x); }
    SumOfParts(v, x, m, n);
    DivisionIs(v, p, v / p, m);
  }

  lemma PowerOfIndex(s: bv5)
    ensures 0 < Pow2(Index(s)) < U32_LIMIT
    ensures ToNat(ShiftLeft(1, s)) == Pow2(Index(s))
  {
    hide ToNat, ShiftLeft, Index, Pow2;
    Pow2OfWord();
    Pow2Grows(Index(s), 32);
    TopBit();
    ShiftLeftMeans(1, s);
    TimesOne(Pow2(Index(s)), U32_LIMIT);
  }

  lemma PartsAdd(v: Word, s: bv5, m: Word)
    requires LastPart(v, s, m)
    ensures ToNat(v) == (ToNat(v) / Pow2(Index(s)) * Pow2(Index(s)) % U32_LIMIT + ToNat(m)) % U32_LIMIT
    ensures ToNat(m) < Pow2(Index(s))
  {
    hide ToNat, ShiftLeft, ShiftRight, Plus, Less, Index, Pow2;
    PowerOfIndex(s);
    LessMeans(m, ShiftLeft(1, s));
    ShiftRightMeans(v, s);
    ShiftLeftMeans(ShiftRight(v, s), s);
    PlusMeans(ShiftLeft(ShiftRight(v, s), s), m);
  }

  /** The last s bits of a word are its remainder by 2^s. */
  lemma LastPartMeans(v: Word, s: bv5, m: Word)
    requires LastPart(v, s, m)
    ensures ToNat(m) == ToNat(v) % Pow2(Index(s))
  {
    hide ToNat, LastPart, Index, Pow2;
    PartsAdd(v, s, m);
    PowerOfIndex(s);
    RemainderIs(ToNat(v), Pow2(Index(s)), ToNat(m), U32_LIMIT);
  }

  lemma LastTwo(v: Word)
    ensures LastPart(v, 2, BitAnd(v, 3))
  {
  }

  lemma LastFive(v: Word)
    ensures LastPart(v, 5, BitAnd(v, 31))
  {
  }

  lemma LastEight(v: Word)
    ensures LastPart(v, 8, BitAnd(v, 0xff))
  {
  }

  lemma LastSixteen(v: Word)
    ensures LastPart(v, 16, BitAnd(v, 0xffff))
  {
  }

  lemma ShiftAmounts()
    ensures Index(0) == 0 && Index(1) == 1 && Index(2) == 2 && Index(5) == 5
    ensures Index(8) == 8 && Index(16) == 16 && Index(24) == 24
  {
  }

  /** The masks of the core as remainders. */
  lemma MasksMean(v: Word)
    ensures ToNat(BitAnd(v, 3)) == ToNat(v) % 4
    ensures ToNat(BitAnd(v, 31)) == ToNat(v) % 32
    ensures ToNat(BitAnd(v, 0xff)) == ToNat(v) % 0x100
    ensures ToNat(BitAnd(v, 0xffff)) == ToNat(v) % 0x1_0000
  {
    hide ToNat, LastPart, BitAnd, Index;
    ShiftAmounts();
    Pow2OfWord();
    LastTwo(v);
    LastFive(v);
    LastEight(v);
    LastSixteen(v);
    LastPartMeans(v, 2, BitAnd(v, 3));
    LastPartMeans(v, 5, BitAnd(v, 31));
    LastPartMeans(v, 8, BitAnd(v, 0xff));
    LastPartMeans(v, 16, BitAnd(v, 0xffff));
  }

  lemma ShamtIs(v: Word)
    ensures Shamt(v) as Word == BitAnd(v, 31)
  {
  }

  /** A shift amount is a register's value modulo 32. */
  lemma ShamtMeans(v: Word)
    ensures Index(Shamt(v)) == ToNat(v) % 32
  {
    hide ToNat, Shamt, BitAnd, Index;
    IndexMeans(Shamt(v));
    ShamtIs(v);
    MasksMean(v);
  }

  lemma EvenIs(v: Word)
    ensures BitAnd(v, 0xffff_fffe) == ShiftLeft(ShiftRight(v, 1), 1)
  {
  }

  /** The mask of JALR makes an address even. */
  lemma EvenMeans(v: Word)
    ensures ToNat(BitAnd(v, 0xffff_fffe)) == ToNat(v) / 2 * 2
  {
    hide ToNat, BitAnd, ShiftLeft, ShiftRight, Index;
    ShiftAmounts();
    EvenIs(v);
    ShiftRightMeans(v, 1);
    ShiftLeftMeans(ShiftRight(v, 1), 1);
  }

  // ----- words and bytes -----

  lemma FirstByte(w: Word)
    ensures ByteOf(w, 0) as Word == BitAnd(w, 0xff)
  {
  }

  lemma SecondByte(w: Word)
    ensures ByteOf(w, 1) as Word == BitAnd(ShiftRight(w, 8), 0xff)
  {
  }

  lemma ThirdByte(w: Word)
    ensures ByteOf(w, 2) as Word == BitAnd(ShiftRight(w, 16), 0xff)
  {
  }

  lemma FourthByte(w: Word)
    ensures ByteOf(w, 3) as Word == BitAnd(ShiftRight(w, 24), 0xff)
  {
  }

  lemma DigitOf(b: Byte, w: Word, s: bv5)
    requires b as Word == BitAnd(ShiftRight(w, s), 0xff)
    ensures b as nat == ToNat(w) / Pow2(Index(s)) % 0x100
  {
    hide ToNat, BitAnd, ShiftRight, Index, Pow2;
    ByteMeans(b);
    ShiftRightMeans(w, s);
    MasksMean(ShiftRight(w, s));
  }

  /** Byte k of a word is the digit k of its value to the base 256. */
  lemma ByteOfMeans(w: Word, k: nat)
    requires k < 4
    ensures ByteOf(w, k) as nat == ToNat(w) / Pow2(8 * k) % 0x100
  {
    hide ToNat, BitAnd, ShiftRight, ByteOf, Index, Pow2;
    ShiftAmounts();
    ShiftByZero(w);
    if k == 0 {
      FirstByte(w);
      DigitOf(ByteOf(w, 0), w, 0);
    } else if k == 1 {
      SecondByte(w);
      DigitOf(ByteOf(w, 1), w, 8);
    } else if k == 2 {
      ThirdByte(w);
      DigitOf(ByteOf(w, 2), w, 16);
    } else {
      FourthByte(w);
      DigitOf(ByteOf(w, 3), w, 24);
    }
  }

  /** The number that bytes stand for, the least significant first. */
  function LittleEndian(b: seq<nat>): nat {
    if b == [] then 0 else b[0] + 256 * LittleEndian(b[1..])
  }

  function Values(b: seq<Byte>): (v: seq<nat>)
    ensures |v| == |b|
  {
    seq(|b|, k requires 0 <= k < |b| => b[k] as nat)
  }

  /** A byte at its place in a word. */
  function Placed(b: Byte, s: bv5): Word { ShiftLeft(b as Word, s) }

  lemma ComposeOne(b: seq<Byte>)
    requires |b| == 1
    ensures Compose(b) == Placed(b[0], 0)
  {
  }

  lemma ComposeTwo(b: seq<Byte>)
    requires |b| == 2
    ensures Compose(b) == Plus(Placed(b[0], 0), Placed(b[1], 8))
  {
  }

  lemma ComposeFour(b: seq<Byte>)
    requires |b| == 4
    ensures Compose(b) == Plus(Plus(Plus(Placed(b[0], 0), Placed(b[1], 8)), Placed(b[2], 16)), Placed(b[3], 24))
  {
  }

  lemma PlacedTimes(b: Byte, s: bv5, p: nat)
    requires Pow2(Index(s)) == p && p <= 0x100_0000
    ensures ToNat(Placed(b, s)) == p * b as nat
  {
    hide ToNat, ShiftLeft, Index, Pow2;
    ByteMeans(b);
    ShiftLeftMeans(b as Word, s);
    SmallProduct(b as nat, p);
  }

  lemma SmallProduct(x: nat, p: nat)
    requires x < 0x100 && p <= 0x100_0000
    ensures x * p % U32_LIMIT == p * x
  {
    Multiples(0xff - x, p);
    assert 0xff * p - x * p == (0xff - x) * p;
  }

  lemma PlacedMeans(b: Byte)
    ensures ToNat(Placed(b, 0)) == b as nat < 0x100
    ensures ToNat(Placed(b, 8)) == 0x100 * b as nat
    ensures ToNat(Placed(b, 16)) == 0x1_0000 * b as nat
    ensures ToNat(Placed(b, 24)) == 0x100_0000 * b as nat
  {
    hide ToNat, Placed, Index, Pow2;
    ByteMeans(b);
    ShiftAmounts();
    Pow2OfWord();
    UnfoldPow2(0);
    PlacedTimes(b, 0, 1);
    PlacedTimes(b, 8, 0x100);
    PlacedTimes(b, 16, 0x1_0000);
    PlacedTimes(b, 24, 0x100_0000);
  }

  lemma SumsFit(x: Word, y: Word, n: nat)
    requires ToNat(x) + ToNat(y) == n < U32_LIMIT
    ensures ToNat(Plus(x, y)) == n
  {
    hide ToNat, Plus;
    PlusMeans(x, y);
  }

  lemma FourFit(v: Word, x: Word, y: Word, z: Word, n: nat)
    requires ToNat(v) + ToNat(x) + ToNat(y) + ToNat(z) == n < U32_LIMIT
    ensures ToNat(Plus(Plus(Plus(v, x), y), z)) == n
  {
    hide ToNat, Plus;
    SumsFit(v, x, ToNat(v) + ToNat(x));
    SumsFit(Plus(v, x), y, ToNat(v) + ToNat(x) + ToNat(y));
    SumsFit(Plus(Plus(v, x), y), z, n);
  }

  lemma ComposedTwo(b: seq<Byte>)
    requires |b| == 2
    ensures ToNat(Compose(b)) == b[0] as nat + 0x100 * b[1] as nat
  {
    hide ToNat, Placed, Plus, Compose;
    ComposeTwo(b);
    PlacedMeans(b[0]);
    PlacedMeans(b[1]);
    SumsFit(Placed(b[0], 0), Placed(b[1], 8), b[0] as nat + 0x100 * b[1] as nat);
  }

  lemma ComposedFour(b: seq<Byte>)
    requires |b| == 4
    ensures ToNat(Compose(b))
            == b[0] as nat + 0x100 * b[1] as nat + 0x1_0000 * b[2] as nat + 0x100_0000 * b[3] as nat
  {
    hide ToNat, Placed, Plus, Compose;
    ComposeFour(b);
    PlacedMeans(b[0]);
    PlacedMeans(b[1]);
    PlacedMeans(b[2]);
    PlacedMeans(b[3]);
    FourFit(Placed(b[0], 0), Placed(b[1], 8), Placed(b[2], 16), Placed(b[3], 24),
            b[0] as nat + 0x100 * b[1] as nat + 0x1_0000 * b[2] as nat + 0x100_0000 * b[3] as nat);
  }

  /** The word composed of bytes is the little-endian number that they stand for. */
  lemma ComposeMeans(b: seq<Byte>)
    requires |b| == 1 || |b| == 2 || |b| == 4
    ensures ToNat(Compose(b)) == LittleEndian(Values(b))
  {
    hide ToNat, Compose, Placed;
    if |b| == 1 {
      PlacedMeans(b[0]);
      ComposeOne(b);
    } else if |b| == 2 {
      ComposedTwo(b);
    } else {
      ComposedFour(b);
    }
    LittleEndianOf(Values(b));
  }

  lemma LittleEndianOf(v: seq<nat>)
    ensures |v| == 1 ==> LittleEndian(v) == v[0]
    ensures |v| == 2 ==> LittleEndian(v) == v[0] + 0x100 * v[1]
    ensures |v| == 4 ==> LittleEndian(v) == v[0] + 0x100 * v[1] + 0x1_0000 * v[2] + 0x100_0000 * v[3]
  {
    if |v| == 1 || |v| == 2 || |v| == 4 {
      assert LittleEndian(v) == v[0] + 256 * LittleEndian(v[1..]);
    }
    if |v| == 2 || |v| == 4 {
      assert LittleEndian(v[1..]) == v[1] + 256 * LittleEndian(v[2..]);
    }
    if |v| == 4 {
      assert LittleEndian(v[2..]) == v[2] + 256 * LittleEndian(v[3..]);
    }
  }
}
