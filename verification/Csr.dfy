/** The 32-bit accessors of the 64-bit control and status registers (src/csr.c). */
module Csr {
  import opened Words

  const CSR_COUNT: nat := 0x1000
  const MEPC: nat := 0x341
  const MCAUSE: nat := 0x342

  /** What a 32-bit accessor reads of a register. */
  function Low(r: bv64): Word { (r & 0xffff_ffff) as Word }

  /** What no 32-bit accessor reads. */
  function High(r: bv64): bv64 { r >> 32 }

  /** csr_read_write32 */
  function Write32(s: seq<bv64>, addr: nat, val: Word): seq<bv64>
    requires addr < |s|
  {
    s[addr := val as bv64]
  }

  /** The register with the bits of mask set. */
  function WithBits(r: bv64, mask: Word): bv64 { r | (mask as bv64) }

  /** csr_read_set32 */
  function Set32(s: seq<bv64>, addr: nat, mask: Word): seq<bv64>
    requires addr < |s|
  {
    s[addr := WithBits(s[addr], mask)]
  }

  /** The register with the bits of mask cleared; the complement is taken in 32 bits and
      then widened with zeros. */
  function Cleared(r: bv64, mask: Word): bv64 { r & ((!mask) as bv64) }

  /** csr_read_clear32 */
  function Clear32(s: seq<bv64>, addr: nat, mask: Word): seq<bv64>
    requires addr < |s|
  {
    s[addr := Cleared(s[addr], mask)]
  }

  lemma ClearedBits(r: bv64, mask: Word)
    ensures Cleared(r, mask) >> 32 == 0
    ensures Low(Cleared(r, mask)) == Low(r) & !mask
  {
  }

  lemma ClearedNothing(r: bv64)
    ensures Cleared(r, 0) == r <==> r >> 32 == 0
  {
  }

  /** Clearing bits also clears the high half of the register. */
  lemma ClearDropsHighHalf(s: seq<bv64>, addr: nat, mask: Word)
    requires addr < |s|
    ensures Clear32(s, addr, mask)[addr] >> 32 == 0
    ensures Low(Clear32(s, addr, mask)[addr]) == Low(s[addr]) & !mask
  {
    ClearedBits(s[addr], mask);
  }

  /** Reading a register by clearing nothing leaves it as it was exactly when its high half
      is zero. */
  lemma ReadIsHarmless(s: seq<bv64>, addr: nat)
    requires addr < |s|
    ensures Clear32(s, addr, 0) == s <==> s[addr] >> 32 == 0
  {
    ClearedNothing(s[addr]);
    var r := Cleared(s[addr], 0);
    assert Clear32(s, addr, 0)[addr] == r;
    if r == s[addr] {
      assert Clear32(s, addr, 0) == s;
    }
  }

  lemma LowOfWord(w: Word)
    ensures Low(w as bv64) == w && (w as bv64) >> 32 == 0
  {
  }

  /** A word written to a register reads back, and reading it changes nothing. */
  lemma WriteThenRead(s: seq<bv64>, addr: nat, val: Word)
    requires addr < |s|
    ensures Low(Write32(s, addr, val)[addr]) == val
    ensures Clear32(Write32(s, addr, val), addr, 0) == Write32(s, addr, val)
  {
    LowOfWord(val);
    ReadIsHarmless(Write32(s, addr, val), addr);
  }

  lemma SetBitsOf(r: bv64, mask: Word)
    ensures Low(WithBits(r, mask)) == BitOr(Low(r), mask) && High(WithBits(r, mask)) == High(r)
  {
  }

  /** Setting bits sets them in the low half and keeps the high half. */
  lemma SetKeepsHighHalf(s: seq<bv64>, addr: nat, mask: Word)
    requires addr < |s|
    ensures Low(Set32(s, addr, mask)[addr]) == BitOr(Low(s[addr]), mask)
    ensures High(Set32(s, addr, mask)[addr]) == High(s[addr])
  {
    hide WithBits, Low, High, BitOr;
    SetBitsOf(s[addr], mask);
    assert Set32(s, addr, mask)[addr] == WithBits(s[addr], mask);
  }

  /** No accessor touches another register. */
  lemma OthersKept(s: seq<bv64>, addr: nat, w: Word, k: nat)
    requires addr < |s| && k < |s| && k != addr
    ensures Write32(s, addr, w)[k] == s[k] && Set32(s, addr, w)[k] == s[k] && Clear32(s, addr, w)[k] == s[k]
  {
  }

  class CsrUnit {
    const state: array<bv64>

    ghost predicate Valid() { state.Length == CSR_COUNT }

    constructor ()
      ensures Valid() && fresh(state)
      ensures state[..] == seq(CSR_COUNT, _ => 0)
    {
      state := new bv64[CSR_COUNT](_ => 0);
    }

    /** csr_read_write32 */
    method ReadWrite32(addr: nat, val: Word) returns (ret: Word)
      requires Valid() && addr < CSR_COUNT
      modifies state
      ensures ret == Low(old(state[addr]))
      ensures state[..] == Write32(old(state[..]), addr, val)
    {
      ret := Low(state[addr]);
      state[addr] := val as bv64;
    }

    /** csr_read_set32 */
    method ReadSet32(addr: nat, mask: Word) returns (ret: Word)
      requires Valid() && addr < CSR_COUNT
      modifies state
      ensures ret == Low(old(state[addr]))
      ensures state[..] == Set32(old(state[..]), addr, mask)
    {
      ret := Low(state[addr]);
      state[addr] := WithBits(state[addr], mask);
    }

    /** csr_read_clear32 */
    method ReadClear32(addr: nat, mask: Word) returns (ret: Word)
      requires Valid() && addr < CSR_COUNT
      modifies state
      ensures ret == Low(old(state[addr]))
      ensures state[..] == Clear32(old(state[..]), addr, mask)
    {
      ret := Low(state[addr]);
      state[addr] := Cleared(state[addr], mask);
    }
  }
}
