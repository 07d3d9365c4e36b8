/** Safety of the bump allocator over any run of allocations. */
module Allocator {
  import opened Words
  import opened Mmu

  /** Rounding covers the request exactly when adding 15 does not leave 32 bits. */
  lemma RoundUpCovers(n: nat)
    ensures RoundUp(n) >= n <==> n + 15 < U32_LIMIT
    ensures RoundUp(n) % 16 == 0
    ensures n + 15 < U32_LIMIT ==> n <= RoundUp(n) <= n + 15
  {
    if n + 15 < U32_LIMIT {
      assert (n + 15) % U32_LIMIT == n + 15;
    } else {
      var m := (n + 15) % U32_LIMIT;
      assert m / 16 * 16 <= m;
      assert m <= n + 15 - U32_LIMIT || m < U32_LIMIT;
      if n < U32_LIMIT {
        assert m == n + 15 - U32_LIMIT;
      }
    }
  }

  /** The cursor is inside an address space of 32 bits. */
  predicate Placed(img: Image) {
    && img.Valid()
    && img.base + img.size <= U32_LIMIT
    && img.base <= img.cursor <= img.base + img.size
  }

  /** An allocation aborts exactly when its request passes the size test and then either
      the truncated cursor is 0, which trips the overflow assertion, or the request was so
      large that rounding it up wrapped around, and its range leaves the unit. */
  lemma AllocateHaltsExactly(img: Image, n: nat, p: Perm)
    requires Placed(img)
    ensures var c := img.cursor % U32_LIMIT;
            Allocate(img, n, p).Halts?
            <==> c + RoundUp(n) < img.base + img.size && (c == 0 || c + n > img.base + img.size)
  {
    RoundUpCovers(n);
  }

  /** What an allocation that returns does, whatever its size: it fails and changes nothing,
      or it hands out the bytes from the cursor on, and no others. */
  lemma AllocateOutcome(img: Image, n: nat, p: Perm)
    requires Placed(img) && Allocate(img, n, p).Returns?
    ensures var r := Allocate(img, n, p).value;
            var c := img.cursor % U32_LIMIT;
            if c + RoundUp(n) >= img.base + img.size then r == Allocated(img, 0)
            else
              && 0 < c == img.cursor && c + n <= img.base + img.size
              && r == Allocated(img.(cursor := c + RoundUp(n), perm := Splice(img.perm, c - img.base, Fill(n, p))), c)
  {
  }

  /** A request too large for the rounding gets a block only from a cursor below 16, ... */
  lemma OversizedGetsNoBlock(img: Image, n: nat, p: Perm)
    requires Placed(img) && n + 15 >= U32_LIMIT && 16 <= img.cursor
    ensures Allocate(img, n, p).Halts? || Allocate(img, n, p).value == Allocated(img, 0)
  {
    if Allocate(img, n, p).Returns? {
      AllocateOutcome(img, n, p);
    }
  }

  /** ... and there the block runs past the cursor, so that the next one starts inside it. */
  lemma OversizedBlockPassesCursor(img: Image, n: nat, p: Perm)
    requires Placed(img) && n + 15 >= U32_LIMIT
    requires Allocate(img, n, p).Returns? && Allocate(img, n, p).value.addr != 0
    ensures var r := Allocate(img, n, p).value; r.image.cursor < r.addr + n && img.cursor < 16
  {
    RoundUpCovers(n);
    AllocateOutcome(img, n, p);
  }

  datatype Request = Request(size: nat, perm: Perm)

  datatype Block = Block(start: nat, length: nat, perm: Perm) {
    function End(): nat { start + length }

    /** Offset k of a unit that starts at base lies in this block. */
    predicate Covers(base: nat, k: nat) { start <= base + k < End() }
  }

  datatype Arena = Arena(image: Image, blocks: seq<Block>)

  /** The blocks that a run of allocations hands out, failed requests skipped. */
  function AllocateAll(img: Image, requests: seq<Request>): (r: Outcome<Arena>)
    requires img.Valid()
    ensures r.Returns? ==> r.value.image.Valid()
  {
    if requests == [] then Returns(Arena(img, []))
    else
      var last := requests[|requests| - 1];
      match AllocateAll(img, requests[..|requests| - 1])
      case Halts => Halts
      case Returns(a) =>
        match Allocate(a.image, last.size, last.perm)
        case Halts => Halts
        case Returns(r) =>
          Returns(Arena(r.image,
                        if r.addr == 0 then a.blocks else a.blocks + [Block(r.addr, last.size, last.perm)]))
  }

  /** What every run of allocations from img keeps. */
  ghost predicate Safe(img: Image, a: Arena) {
    && a.image.Valid() && img.Valid()
    && a.image.base == img.base && a.image.size == img.size
    && a.image.data == img.data && a.image.dirty == img.dirty
    && img.base <= img.cursor <= a.image.cursor <= img.base + img.size
    && a.image.cursor % 16 == img.cursor % 16
    && (img.cursor == 0 ==> a == Arena(img, []))
    && (forall j :: 0 <= j < |a.blocks| ==>
          && img.cursor <= a.blocks[j].start
          && a.blocks[j].End() <= a.image.cursor
          && a.blocks[j].length + 15 < U32_LIMIT
          && a.blocks[j].End() <= a.blocks[j].start + RoundUp(a.blocks[j].length) < img.base + img.size
          && a.blocks[j].start % 16 == img.cursor % 16)
    && (forall i, j :: 0 <= i < j < |a.blocks| ==> a.blocks[i].End() <= a.blocks[j].start)
  }

  /** Each block carries the permissions it was asked for, and no other byte changes. */
  ghost predicate Painted(img: Image, a: Arena)
    requires Safe(img, a)
  {
    && (forall j, k :: 0 <= j < |a.blocks| && 0 <= k < img.size && a.blocks[j].Covers(img.base, k) ==>
          a.image.perm[k] == a.blocks[j].perm)
    && (forall k :: 0 <= k < img.size && (forall j :: 0 <= j < |a.blocks| ==> !a.blocks[j].Covers(img.base, k)) ==>
          a.image.perm[k] == img.perm[k])
  }

  predicate Sized(requests: seq<Request>) { forall q :: q in requests ==> q.size + 15 < U32_LIMIT }

  /** From a cursor of 16 or more, as in every unit that starts there, and for requests of any
      size: the blocks of a run of allocations that returns ascend without overlapping, lie
      strictly inside the unit, start at the alignment of the first cursor, and carry exactly
      the permissions that were asked for. From a lower cursor the same holds for requests
      whose rounding does not wrap around; and no run of those aborts unless its cursor is 0
      modulo 2^32. */
  lemma {:induction false} AllocationsAreSafe(img: Image, requests: seq<Request>)
    requires Placed(img) && (16 <= img.cursor || Sized(requests))
    ensures AllocateAll(img, requests).Returns? ==>
              && Safe(img, AllocateAll(img, requests).value)
              && Painted(img, AllocateAll(img, requests).value)
    ensures Sized(requests) && 0 < img.cursor < U32_LIMIT ==>
              AllocateAll(img, requests).Returns? && AllocateAll(img, requests).value.image.cursor < U32_LIMIT
    decreases |requests|
  {
    hide RoundUp, Allocate;
    if requests != [] {
      var last := requests[|requests| - 1];
      AllocationsAreSafe(img, requests[..|requests| - 1]);
      if AllocateAll(img, requests[..|requests| - 1]).Returns? {
        var a := AllocateAll(img, requests[..|requests| - 1]).value;
        RoundUpCovers(last.size);
        AllocateHaltsExactly(a.image, last.size, last.perm);
        if Allocate(a.image, last.size, last.perm).Returns? {
          StepIsSafe(img, a, last);
        }
      }
    }
  }

  /** One more allocation. */
  lemma StepIsSafe(img: Image, a: Arena, last: Request)
    requires Safe(img, a) && Painted(img, a) && Placed(img)
    requires 16 <= img.cursor || last.size + 15 < U32_LIMIT
    requires Allocate(a.image, last.size, last.perm).Returns?
    ensures var r := Allocate(a.image, last.size, last.perm).value;
            var a' := Arena(r.image, if r.addr == 0 then a.blocks
                                     else a.blocks + [Block(r.addr, last.size, last.perm)]);
            && Safe(img, a') && Painted(img, a')
            && (a.image.cursor < U32_LIMIT ==> a'.image.cursor < U32_LIMIT)
  {
    hide Allocate;
    AllocateOutcome(a.image, last.size, last.perm);
    var r := Allocate(a.image, last.size, last.perm).value;
    if r.addr != 0 {
      if last.size + 15 >= U32_LIMIT {
        OversizedGetsNoBlock(a.image, last.size, last.perm);
        assert false;
      }
      RoundUpCovers(last.size);
      hide RoundUp;
      var b := Block(r.addr, last.size, last.perm);
      var a' := Arena(r.image, a.blocks + [b]);
      assert forall j :: 0 <= j < |a.blocks| ==> a'.blocks[j] == a.blocks[j];
      assert a'.blocks[|a.blocks|] == b;
      ModuloUnchanged(a.image.cursor, RoundUp(last.size));
      assert Safe(img, a');
      PaintOne(img, a, a', b);
    }
  }

  lemma ModuloUnchanged(a: nat, b: nat)
    requires b % 16 == 0
    ensures (a + b) % 16 == a % 16
  {
  }

  lemma PaintOne(img: Image, a: Arena, a': Arena, b: Block)
    requires Safe(img, a) && Painted(img, a) && Safe(img, a')
    requires a'.blocks == a.blocks + [b]
    requires b.start == a.image.cursor && b.End() <= img.base + img.size
    requires a'.image.perm == Splice(a.image.perm, b.start - img.base, Fill(b.length, b.perm))
    ensures Painted(img, a')
  {
    assert a'.blocks[|a.blocks|] == b;
    forall j, k | 0 <= j < |a'.blocks| && 0 <= k < img.size && a'.blocks[j].Covers(img.base, k)
      ensures a'.image.perm[k] == a'.blocks[j].perm
    {
      if j < |a.blocks| {
        assert a.blocks[j] == a'.blocks[j];
      }
    }
    forall k | 0 <= k < img.size && (forall j :: 0 <= j < |a'.blocks| ==> !a'.blocks[j].Covers(img.base, k))
      ensures a'.image.perm[k] == img.perm[k]
    {
      forall j | 0 <= j < |a.blocks|
        ensures !a.blocks[j].Covers(img.base, k)
      {
        assert a.blocks[j] == a'.blocks[j];
      }
      assert !b.Covers(img.base, k);
    }
  }
}
