/** The ELF loader of src/elf32.c: its loop over the program headers, on the MMU. */
module Elf {
  import opened Words
  import opened Mmu
  import opened Allocator
  import History

  const PT_LOAD: Word := 1

  /** Elf32_Phdr, the fields that the loader looks at. */
  datatype ProgramHeader = ProgramHeader(kind: Word, offset: nat, vaddr: nat, filesz: nat, memsz: nat, flags: Word) {
    predicate Loads() { kind == PT_LOAD }

    function End(): nat { vaddr + memsz }

    predicate Covers(a: nat) { vaddr <= a < End() }
  }

  /** A file whose headers have been parsed. */
  datatype ElfFile = ElfFile(fileClass: Byte, encoding: Byte, entry: nat, headers: seq<ProgramHeader>, bytes: seq<Byte>)

  /** The permissions that p_flags ask for; a segment that is readable and not writable is
      marked RAW as well. */
  function PermOf(flags: Word): Perm {
    Perm((flags & 1) != 0, (flags & 2) != 0, (flags & 4) != 0, (flags & 4) != 0 && (flags & 2) == 0)
  }

  /** The body of the loop for one LOAD header. A segment that leaves the file is read from
      beyond its end. */
  function LoadSegment(img: Image, bytes: seq<Byte>, h: ProgramHeader): (r: Outcome<Image>)
    requires img.Valid()
    ensures r.Returns? ==> r.value.Valid()
  {
    match AddMemory(img, h.vaddr, h.memsz, WRITE_RAW)
    case Halts => Halts
    case Returns(added) =>
      if h.offset + h.filesz > |bytes| then Halts
      else
        var written := Write(added, bytes[h.offset..h.offset + h.filesz], h.vaddr).image;
        SetPerm(written, h.vaddr, h.filesz, PermOf(h.flags))
  }

  /** The loop over the headers. */
  function LoadAll(img: Image, bytes: seq<Byte>, headers: seq<ProgramHeader>): (r: Outcome<Image>)
    requires img.Valid()
    ensures r.Returns? ==> r.value.Valid()
    decreases |headers|
  {
    if headers == [] then Returns(img)
    else
      match LoadAll(img, bytes, headers[..|headers| - 1])
      case Halts => Halts
      case Returns(img') =>
        var h := headers[|headers| - 1];
        if h.Loads() then LoadSegment(img', bytes, h) else Returns(img')
  }

  datatype LoadedFile = LoadedFile(image: Image, entry: nat)

  /** elf_load */
  function Load(img: Image, file: ElfFile): (r: Outcome<LoadedFile>)
    requires img.Valid()
    ensures r.Returns? ==> r.value.image.Valid()
  {
    if file.fileClass != 1 || file.encoding != 1 then Halts
    else
      match LoadAll(img, file.bytes, file.headers)
      case Halts => Halts
      case Returns(img') => Returns(LoadedFile(img', file.entry))
  }

  // ----- one segment -----

  /** The segment lies inside the unit and its file part inside the file. */
  predicate Fits(img: Image, bytes: seq<Byte>, h: ProgramHeader) {
    && img.base <= h.vaddr && h.End() <= img.base + img.size
    && h.filesz <= h.memsz && h.offset + h.filesz <= |bytes|
  }

  /** A segment that fits is loaded: nothing aborts, the write is not refused, the cursor
      moves to its end, and only its own bytes and permissions change. */
  lemma SegmentLoads(img: Image, bytes: seq<Byte>, h: ProgramHeader)
    requires img.Valid() && Fits(img, bytes, h)
    ensures LoadSegment(img, bytes, h).Returns?
    ensures var r := LoadSegment(img, bytes, h).value;
            && r.base == img.base && r.size == img.size && r.cursor == h.End()
            && r.data == Splice(img.data, h.vaddr - img.base, bytes[h.offset..h.offset + h.filesz])
            && (forall k :: 0 <= k < img.size ==>
                  r.perm[k] == if h.vaddr <= img.base + k < h.vaddr + h.filesz then PermOf(h.flags)
                               else if h.Covers(img.base + k) then WRITE_RAW
                               else img.perm[k])
  {
    hide PermOf, Mark;
    var added := AddMemory(img, h.vaddr, h.memsz, WRITE_RAW).value;
    assert added.Allows(h.vaddr, h.filesz, MPERM_WRITE);
  }

  // ----- all segments -----

  predicate Disjoint(g: ProgramHeader, h: ProgramHeader) { g.End() <= h.vaddr || h.End() <= g.vaddr }

  /** The LOAD segments fit, and no two of them overlap. */
  predicate WellPlaced(img: Image, bytes: seq<Byte>, headers: seq<ProgramHeader>) {
    && (forall j :: 0 <= j < |headers| && headers[j].Loads() ==> Fits(img, bytes, headers[j]))
    && (forall i, j :: 0 <= i < j < |headers| && headers[i].Loads() && headers[j].Loads() ==>
          Disjoint(headers[i], headers[j]))
  }

  /** Offset k belongs to none of the LOAD segments. */
  predicate Outside(img: Image, headers: seq<ProgramHeader>, k: nat) {
    forall j :: 0 <= j < |headers| && headers[j].Loads() ==> !headers[j].Covers(img.base + k)
  }

  /** What one LOAD segment should look like in memory: the file bytes with the permissions
      of p_flags, and then writable bytes that cannot be read until they are written. */
  predicate InPlace(img: Image, r: Image, bytes: seq<Byte>, h: ProgramHeader)
    requires img.Valid() && r.Valid() && r.base == img.base && r.size == img.size && Fits(img, bytes, h)
  {
    && (forall k :: h.vaddr - img.base <= k < h.vaddr - img.base + h.filesz ==>
          r.data[k] == bytes[h.offset + (k - (h.vaddr - img.base))] && r.perm[k] == PermOf(h.flags))
    && (forall k :: h.vaddr - img.base + h.filesz <= k < h.End() - img.base ==>
          r.data[k] == img.data[k] && r.perm[k] == WRITE_RAW)
  }

  /** The end of the last LOAD segment, or c if there is none. */
  function LastEnd(headers: seq<ProgramHeader>, c: nat): nat {
    if headers == [] then c
    else if headers[|headers| - 1].Loads() then headers[|headers| - 1].End()
    else LastEnd(headers[..|headers| - 1], c)
  }

  /** What loading does. */
  ghost predicate LoadedFrom(img: Image, r: Image, bytes: seq<Byte>, headers: seq<ProgramHeader>)
    requires img.Valid() && WellPlaced(img, bytes, headers)
  {
    && r.Valid() && r.base == img.base && r.size == img.size
    && r.cursor == LastEnd(headers, img.cursor)
    && (forall j :: 0 <= j < |headers| && headers[j].Loads() ==> InPlace(img, r, bytes, headers[j]))
    && (forall k :: 0 <= k < img.size && Outside(img, headers, k) ==>
          r.data[k] == img.data[k] && r.perm[k] == img.perm[k])
  }

  /** One more segment, away from the earlier ones. */
  lemma SegmentKeepsOthers(img: Image, r: Image, bytes: seq<Byte>, headers: seq<ProgramHeader>, h: ProgramHeader)
    requires img.Valid() && WellPlaced(img, bytes, headers + [h]) && WellPlaced(img, bytes, headers) && h.Loads()
    requires LoadedFrom(img, r, bytes, headers)
    ensures LoadSegment(r, bytes, h).Returns?
    ensures LoadedFrom(img, LoadSegment(r, bytes, h).value, bytes, headers + [h])
  {
    hide PermOf, LoadSegment;
    var all := headers + [h];
    assert all[|headers|] == h;
    assert Fits(r, bytes, h);
    SegmentLoads(r, bytes, h);
    var s := LoadSegment(r, bytes, h).value;
    forall k | 0 <= k < img.size && h.Covers(img.base + k)
      ensures r.data[k] == img.data[k]
    {
      forall j | 0 <= j < |headers| && headers[j].Loads()
        ensures !headers[j].Covers(img.base + k)
      {
        assert all[j] == headers[j] && Disjoint(all[j], all[|headers|]);
      }
      assert Outside(img, headers, k);
    }
    forall j | 0 <= j < |all| && all[j].Loads()
      ensures InPlace(img, s, bytes, all[j])
    {
      if j < |headers| {
        assert all[j] == headers[j] && Disjoint(all[j], all[|headers|]);
        assert InPlace(img, r, bytes, headers[j]);
      }
    }
    forall k | 0 <= k < img.size && Outside(img, all, k)
      ensures s.data[k] == img.data[k] && s.perm[k] == img.perm[k]
    {
      assert !all[|headers|].Covers(img.base + k);
      forall j | 0 <= j < |headers| && headers[j].Loads()
        ensures !headers[j].Covers(img.base + k)
      {
        assert all[j] == headers[j];
      }
      assert Outside(img, headers, k);
    }
  }

  /** Loading well placed segments, in any order: nothing aborts and no write is refused;
      every file byte is at its address with the permissions of p_flags, the rest of each
      segment is untouched, writable and not yet readable, and so is nothing else changed. */
  lemma {:induction false} LoadIsExact(img: Image, bytes: seq<Byte>, headers: seq<ProgramHeader>)
    requires img.Valid() && WellPlaced(img, bytes, headers)
    ensures LoadAll(img, bytes, headers).Returns?
    ensures LoadedFrom(img, LoadAll(img, bytes, headers).value, bytes, headers)
    decreases |headers|
  {
    hide LoadSegment, PermOf;
    if headers != [] {
      var n := |headers| - 1;
      var earlier, h := headers[..n], headers[n];
      assert headers == earlier + [h];
      assert forall j :: 0 <= j < n ==> earlier[j] == headers[j];
      assert WellPlaced(img, bytes, earlier);
      LoadIsExact(img, bytes, earlier);
      var r := LoadAll(img, bytes, earlier).value;
      if h.Loads() {
        SegmentKeepsOthers(img, r, bytes, earlier, h);
      } else {
        OtherHeaderIsSkipped(img, r, bytes, earlier, h);
      }
    }
  }

  lemma OtherHeaderIsSkipped(img: Image, r: Image, bytes: seq<Byte>, headers: seq<ProgramHeader>, h: ProgramHeader)
    requires img.Valid() && WellPlaced(img, bytes, headers + [h]) && WellPlaced(img, bytes, headers) && !h.Loads()
    requires LoadedFrom(img, r, bytes, headers)
    ensures LoadedFrom(img, r, bytes, headers + [h])
  {
    hide PermOf, InPlace;
    var all := headers + [h];
    assert all[..|all| - 1] == headers;
    forall k | 0 <= k < img.size && Outside(img, all, k)
      ensures Outside(img, headers, k)
    {
      forall j | 0 <= j < |headers| && headers[j].Loads()
        ensures !headers[j].Covers(img.base + k)
      {
        assert all[j] == headers[j];
      }
    }
  }

  // ----- what the program can do with its segments -----

  /** Loading a file whose segments are well placed succeeds exactly for 32-bit little-endian
      files. It reports the entry point of the header, and every program header of kind 1
      has its file bytes at its address. */
  lemma LoadExactly(img: Image, file: ElfFile)
    requires img.Valid() && WellPlaced(img, file.bytes, file.headers)
    ensures Load(img, file).Returns? <==> file.fileClass == 1 && file.encoding == 1
    ensures Load(img, file).Returns? ==>
              var loaded := Load(img, file).value;
              && loaded.entry == file.entry
              && LoadedFrom(img, loaded.image, file.bytes, file.headers)
              && forall j, k ::
                   0 <= j < |file.headers| && file.headers[j].kind == 1 && 0 <= k < file.headers[j].filesz ==>
                     ByteLoaded(loaded.image, file, file.headers[j], k)
  {
    hide LoadAll, WellPlaced, LoadedFrom;
    LoadIsExact(img, file.bytes, file.headers);
    if Load(img, file).Returns? {
      var r := Load(img, file).value.image;
      forall j, k | 0 <= j < |file.headers| && file.headers[j].kind == 1 && 0 <= k < file.headers[j].filesz
        ensures ByteLoaded(r, file, file.headers[j], k)
      {
        FileByteInPlace(img, r, file, j, k);
      }
    }
  }

  /** Byte k of the file part of a segment is at its address. */
  predicate ByteLoaded(r: Image, file: ElfFile, h: ProgramHeader, k: nat) {
    && r.Valid() && r.InRange(h.vaddr + k, 1) && h.offset + k < |file.bytes|
    && r.data[h.vaddr + k - r.base] == file.bytes[h.offset + k]
  }

  lemma FileByteInPlace(img: Image, r: Image, file: ElfFile, j: nat, k: nat)
    requires img.Valid() && WellPlaced(img, file.bytes, file.headers)
    requires LoadedFrom(img, r, file.bytes, file.headers)
    requires j < |file.headers| && file.headers[j].kind == 1 && k < file.headers[j].filesz
    ensures ByteLoaded(r, file, file.headers[j], k)
  {
    hide PermOf;
    var h := file.headers[j];
    assert h.Loads() && Fits(img, file.bytes, h) && InPlace(img, r, file.bytes, h);
  }

  /** What loading grants at an address of a segment. A file byte can be read exactly when its
      segment asks to be readable, executed exactly when it asks for that, and stored to
      exactly when it asks to be readable or writable: RAW makes a read-only segment writable.
      The bytes past the file part can be stored to and neither read nor executed. */
  lemma SegmentAccess(img: Image, file: ElfFile, j: nat, a: nat)
    requires img.Valid() && WellPlaced(img, file.bytes, file.headers) && Load(img, file).Returns?
    requires j < |file.headers| && file.headers[j].kind == 1 && file.headers[j].Covers(a)
    ensures var r := Load(img, file).value.image;
            var h := file.headers[j];
            && r.Valid() && r.InRange(a, 1)
            && (r.Allows(a, 1, MPERM_READ) <==> a < h.vaddr + h.filesz && h.flags & 4 != 0)
            && (r.Allows(a, 1, MPERM_WRITE) <==> a < h.vaddr + h.filesz ==> h.flags & 6 != 0)
            && (r.Allows(a, 1, MPERM_EXEC) <==> a < h.vaddr + h.filesz && h.flags & 1 != 0)
            && (r.perm[a - r.base].raw <==> a < h.vaddr + h.filesz ==> h.flags & 4 != 0 && h.flags & 2 == 0)
  {
    hide LoadAll, Grants;
    LoadIsExact(img, file.bytes, file.headers);
    var r := Load(img, file).value.image;
    var h := file.headers[j];
    var p := r.perm[a - img.base];
    assert h.Loads() && InPlace(img, r, file.bytes, h);
    assert p == if a < h.vaddr + h.filesz then PermOf(h.flags) else WRITE_RAW;
    History.GrantsExactly(p);
    ReadOrWrite(h.flags);
    hide LoadedFrom, InPlace, WellPlaced;
    assert forall w :: r.Allows(a, 1, w) <==> Grants(p, w);
  }

  lemma ReadOrWrite(f: Word)
    ensures (f & 6) != 0 <==> (f & 4) != 0 || (f & 2) != 0
  {
  }

  // ----- what is allocated after loading -----

  ghost predicate Overlaps(b: Block, h: ProgramHeader) {
    exists a: nat :: h.Covers(a) && b.Covers(0, a)
  }

  /** No block of a run of allocations overlaps a LOAD segment. */
  ghost predicate HeapAvoids(r: Image, headers: seq<ProgramHeader>, requests: seq<Request>)
    requires r.Valid()
  {
    AllocateAll(r, requests).Returns? ==>
      forall b, j :: 0 <= b < |AllocateAll(r, requests).value.blocks| && 0 <= j < |headers| && headers[j].Loads() ==>
        !Overlaps(AllocateAll(r, requests).value.blocks[b], headers[j])
  }

  /** The first address at which an allocation from the cursor could meet the segment. */
  function FirstMet(cursor: nat, h: ProgramHeader): nat { if h.vaddr < cursor then cursor else h.vaddr }

  /** A size rounded up to a multiple of 16, without wrap-around. */
  function Rounded(n: nat): nat { (n + 15) / 16 * 16 }

  /** Some of the segment lies past the cursor, and a block that gets there still fits. */
  predicate WithinReach(r: Image, h: ProgramHeader) {
    && 0 < h.memsz && 0 < r.cursor < h.End()
    && r.cursor + Rounded(FirstMet(r.cursor, h) - r.cursor + 1) < r.base + r.size
  }

  lemma RoundedIsLeast(n: nat, m: nat)
    requires n <= m && m % 16 == 0
    ensures Rounded(n) <= m
  {
  }

  lemma RoundedIsRoundUp(n: nat)
    ensures Rounded(n) < U32_LIMIT <==> n + 15 < U32_LIMIT
    ensures n + 15 < U32_LIMIT ==> RoundUp(n) == Rounded(n)
    ensures n <= Rounded(n) && Rounded(n) % 16 == 0
  {
  }

  lemma BlockPlace(r: Image, requests: seq<Request>, b: nat)
    requires Placed(r) && (16 <= r.cursor || Sized(requests))
    requires AllocateAll(r, requests).Returns? && b < |AllocateAll(r, requests).value.blocks|
    ensures var block := AllocateAll(r, requests).value.blocks[b];
            && 0 < r.cursor <= block.start && block.start % 16 == r.cursor % 16
            && block.End() <= block.start + Rounded(block.length) < r.base + r.size
  {
    AllocationsAreSafe(r, requests);
    RoundedIsRoundUp(AllocateAll(r, requests).value.blocks[b].length);
    hide AllocateAll, RoundUp, Rounded;
  }

  lemma MultipleOf16(a: nat, b: nat, c: nat)
    requires b <= a && a % 16 == b % 16 && c % 16 == 0
    ensures (a - b + c) % 16 == 0
  {
  }

  lemma MetIsWithinReach(r: Image, block: Block, h: ProgramHeader, a: nat)
    requires r.Valid() && h.Covers(a) && block.Covers(0, a)
    requires 0 < r.cursor <= block.start && block.start % 16 == r.cursor % 16
    requires block.End() <= block.start + Rounded(block.length) < r.base + r.size
    ensures WithinReach(r, h)
  {
    hide Rounded;
    RoundedIsRoundUp(block.length);
    var m := block.start - r.cursor + Rounded(block.length);
    MultipleOf16(block.start, r.cursor, Rounded(block.length));
    RoundedIsLeast(FirstMet(r.cursor, h) - r.cursor + 1, m);
  }

  lemma OverlapIsWithinReach(r: Image, requests: seq<Request>, b: nat, h: ProgramHeader)
    requires Placed(r) && (16 <= r.cursor || Sized(requests))
    requires AllocateAll(r, requests).Returns? && b < |AllocateAll(r, requests).value.blocks|
    requires Overlaps(AllocateAll(r, requests).value.blocks[b], h)
    ensures WithinReach(r, h)
  {
    BlockPlace(r, requests, b);
    hide AllocateAll, Rounded;
    var block := AllocateAll(r, requests).value.blocks[b];
    var a: nat :| h.Covers(a) && block.Covers(0, a);
    MetIsWithinReach(r, block, h, a);
  }

  /** The request that reaches a segment within reach. */
  function Reaching(r: Image, h: ProgramHeader): Request
    requires r.cursor <= FirstMet(r.cursor, h)
  {
    Request(FirstMet(r.cursor, h) - r.cursor + 1, WRITE_RAW)
  }

  lemma WithinReachOverlaps(r: Image, headers: seq<ProgramHeader>, j: nat)
    requires Placed(r) && j < |headers| && headers[j].Loads() && WithinReach(r, headers[j])
    ensures Sized([Reaching(r, headers[j])]) && !HeapAvoids(r, headers, [Reaching(r, headers[j])])
  {
    hide RoundUp, Allocate, Rounded;
    var h := headers[j];
    var q := Reaching(r, h);
    RoundedIsRoundUp(q.size);
    AllocateHaltsExactly(r, q.size, q.perm);
    AllocateOutcome(r, q.size, q.perm);
    assert [q][..0] == [];
    assert AllocateAll(r, []) == Returns(Arena(r, []));
    var blocks := AllocateAll(r, [q]).value.blocks;
    assert blocks == [Block(r.cursor, q.size, q.perm)];
    assert h.Covers(FirstMet(r.cursor, h)) && blocks[0].Covers(0, FirstMet(r.cursor, h));
    assert Overlaps(blocks[0], h);
  }

  lemma OutOfReachIsAvoided(r: Image, headers: seq<ProgramHeader>, requests: seq<Request>)
    requires Placed(r) && (16 <= r.cursor || Sized(requests))
    requires forall j :: 0 <= j < |headers| && headers[j].Loads() ==> !WithinReach(r, headers[j])
    ensures HeapAvoids(r, headers, requests)
  {
    hide AllocateAll, WithinReach, Overlaps;
    if AllocateAll(r, requests).Returns? {
      var blocks := AllocateAll(r, requests).value.blocks;
      forall b, j | 0 <= b < |blocks| && 0 <= j < |headers| && headers[j].Loads()
        ensures !Overlaps(blocks[b], headers[j])
      {
        if Overlaps(blocks[b], headers[j]) {
          OverlapIsWithinReach(r, requests, b, headers[j]);
        }
      }
    }
  }

  lemma {:induction false} LastEndInside(img: Image, bytes: seq<Byte>, headers: seq<ProgramHeader>)
    requires Placed(img) && WellPlaced(img, bytes, headers)
    ensures img.base <= LastEnd(headers, img.cursor) <= img.base + img.size
    decreases |headers|
  {
    if headers != [] {
      var n := |headers| - 1;
      assert headers[n].Loads() ==> Fits(img, bytes, headers[n]);
      assert forall j :: 0 <= j < n ==> headers[..n][j] == headers[j];
      LastEndInside(img, bytes, headers[..n]);
    }
  }

  /** The LOAD segments come in ascending order of address, as the ELF format wants them. */
  predicate Ascending(headers: seq<ProgramHeader>) {
    forall i, j :: 0 <= i < j < |headers| && headers[i].Loads() && headers[j].Loads() ==>
      headers[i].End() <= headers[j].vaddr
  }

  lemma {:induction false} AscendingEndsLast(headers: seq<ProgramHeader>, c: nat, j: nat)
    requires Ascending(headers) && j < |headers| && headers[j].Loads()
    ensures headers[j].End() <= LastEnd(headers, c)
    decreases |headers|
  {
    var n := |headers| - 1;
    if j < n && !headers[n].Loads() {
      assert forall i :: 0 <= i < n ==> headers[..n][i] == headers[i];
      AscendingEndsLast(headers[..n], c, j);
    }
  }

  /** After loading, no run of allocations ever overlaps a segment exactly when no segment
      is within reach of the cursor, which the last LOAD segment left at its end. From a cursor
      of 16 or more this is said of runs of any sizes, and from a lower one of runs whose sizes
      do not wrap around. */
  lemma HeapAvoidsSegmentsExactly(img: Image, file: ElfFile)
    requires Placed(img) && WellPlaced(img, file.bytes, file.headers) && Load(img, file).Returns?
    ensures var r := Load(img, file).value.image;
            && r.Valid() && r.cursor == LastEnd(file.headers, img.cursor)
            && ((forall requests :: 16 <= r.cursor || Sized(requests) ==> HeapAvoids(r, file.headers, requests))
                <==> forall j :: 0 <= j < |file.headers| && file.headers[j].Loads() ==>
                       !WithinReach(r, file.headers[j]))
  {
    LoadIsExact(img, file.bytes, file.headers);
    LastEndInside(img, file.bytes, file.headers);
    hide LoadAll, LoadedFrom, WithinReach, HeapAvoids, Reaching, WellPlaced;
    var r := Load(img, file).value.image;
    if forall requests :: 16 <= r.cursor || Sized(requests) ==> HeapAvoids(r, file.headers, requests) {
      forall j | 0 <= j < |file.headers| && file.headers[j].Loads()
        ensures !WithinReach(r, file.headers[j])
      {
        if WithinReach(r, file.headers[j]) {
          WithinReachOverlaps(r, file.headers, j);
        }
      }
    }
    if forall j :: 0 <= j < |file.headers| && file.headers[j].Loads() ==> !WithinReach(r, file.headers[j]) {
      forall requests | 16 <= r.cursor || Sized(requests)
        ensures HeapAvoids(r, file.headers, requests)
      {
        OutOfReachIsAvoided(r, file.headers, requests);
      }
    }
  }

  /** A run of allocations that stays past the end of a segment leaves it in place. */
  lemma KeptInPlace(img: Image, r: Image, a: Arena, bytes: seq<Byte>, h: ProgramHeader)
    requires img.Valid() && r.Valid() && r.base == img.base && r.size == img.size && Fits(img, bytes, h)
    requires InPlace(img, r, bytes, h) && Safe(r, a) && Painted(r, a) && h.End() <= r.cursor
    ensures InPlace(img, a.image, bytes, h)
    ensures forall b :: 0 <= b < |a.blocks| ==> h.End() <= a.blocks[b].start
  {
    hide PermOf, RoundUp;
    forall k | h.vaddr - img.base <= k < h.End() - img.base
      ensures a.image.perm[k] == r.perm[k]
    {
      assert forall b :: 0 <= b < |a.blocks| ==> !a.blocks[b].Covers(r.base, k);
    }
  }

  /** The heap and the stack of a file whose segments ascend never overlap a segment, and
      leave the whole of it as it was loaded. */
  lemma AscendingSegmentsAreSafe(img: Image, file: ElfFile, requests: seq<Request>)
    requires Placed(img) && WellPlaced(img, file.bytes, file.headers) && Ascending(file.headers)
    requires 16 <= LastEnd(file.headers, img.cursor) || Sized(requests)
    requires Load(img, file).Returns?
    ensures Load(img, file).value.image.Valid()
    ensures Sized(requests) && 0 < LastEnd(file.headers, img.cursor) < U32_LIMIT ==>
              AllocateAll(Load(img, file).value.image, requests).Returns?
    ensures AllocateAll(Load(img, file).value.image, requests).Returns? ==>
              var a := AllocateAll(Load(img, file).value.image, requests).value;
              && a.image.Valid() && a.image.base == img.base && a.image.size == img.size
              && forall j :: 0 <= j < |file.headers| && file.headers[j].Loads() ==>
                   && InPlace(img, a.image, file.bytes, file.headers[j])
                   && forall b :: 0 <= b < |a.blocks| ==> file.headers[j].End() <= a.blocks[b].start
  {
    hide LoadAll, AllocateAll, PermOf, RoundUp;
    LoadIsExact(img, file.bytes, file.headers);
    LastEndInside(img, file.bytes, file.headers);
    var r := Load(img, file).value.image;
    AllocationsAreSafe(r, requests);
    if AllocateAll(r, requests).Returns? {
      var a := AllocateAll(r, requests).value;
      forall j | 0 <= j < |file.headers| && file.headers[j].Loads()
        ensures InPlace(img, a.image, file.bytes, file.headers[j])
        ensures forall b :: 0 <= b < |a.blocks| ==> file.headers[j].End() <= a.blocks[b].start
      {
        AscendingEndsLast(file.headers, img.cursor, j);
        KeptInPlace(img, r, a, file.bytes, file.headers[j]);
      }
    }
  }

  // ----- the loop itself -----

  /** The body of the loop for one LOAD header. */
  method PlaceSegment(mmu: MmuUnit, bytes: seq<Byte>, h: ProgramHeader) returns (ok: bool)
    requires mmu.Valid()
    modifies mmu`cursor, mmu`status, mmu.data, mmu.perm, mmu.dirty
    ensures mmu.Valid()
    ensures ok <==> LoadSegment(old(mmu.Value()), bytes, h).Returns?
    ensures ok ==> mmu.Value() == LoadSegment(old(mmu.Value()), bytes, h).value
  {
    hide AddMemory, Write, SetPerm, PermOf;
    ok := mmu.AddRegion(h.vaddr, h.memsz, WRITE_RAW);
    if !ok || h.offset + h.filesz > |bytes| {
      return false;
    }
    var _ := mmu.WriteFrom(bytes[h.offset..h.offset + h.filesz], h.vaddr);
    ok := mmu.SetPermissions(h.vaddr, h.filesz, PermOf(h.flags));
  }

  /** elf_load */
  method LoadFile(mmu: MmuUnit, file: ElfFile) returns (entry: Option<nat>)
    requires mmu.Valid()
    modifies mmu`cursor, mmu`status, mmu.data, mmu.perm, mmu.dirty
    ensures mmu.Valid()
    ensures match Load(old(mmu.Value()), file)
            case Halts => entry == None
            case Returns(r) => entry == Some(r.entry) && mmu.Value() == r.image
  {
    hide LoadSegment;
    if file.fileClass != 1 || file.encoding != 1 {
      return None;
    }
    ghost var start := mmu.Value();
    var i := 0;
    while i < |file.headers|
      invariant 0 <= i <= |file.headers| && mmu.Valid()
      invariant LoadAll(start, file.bytes, file.headers[..i]) == Returns(mmu.Value())
    {
      assert file.headers[..i + 1][..i] == file.headers[..i];
      if file.headers[i].Loads() {
        var ok := PlaceSegment(mmu, file.bytes, file.headers[i]);
        if !ok {
          StopsForGood(start, file.bytes, file.headers, i + 1);
          return None;
        }
      }
      i := i + 1;
    }
    assert file.headers[..i] == file.headers;
    return Some(file.entry);
  }

  /** A load that aborts on the way aborts. */
  lemma {:induction false} StopsForGood(img: Image, bytes: seq<Byte>, headers: seq<ProgramHeader>, k: nat)
    requires img.Valid() && k <= |headers| && LoadAll(img, bytes, headers[..k]).Halts?
    ensures LoadAll(img, bytes, headers).Halts?
    decreases |headers|
  {
    if k == |headers| {
      assert headers[..k] == headers;
    } else {
      assert headers[..|headers| - 1][..k] == headers[..k];
      StopsForGood(img, bytes, headers[..|headers| - 1], k);
    }
  }
}
