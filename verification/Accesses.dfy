/** Every path of an access to memory, from the MMU up to the calls of the bus, told from
    bases, sizes, bytes and permissions. */
module Accesses {
  import opened Words
  import opened Numbers
  import opened Mmu
  import opened Bus
  import opened BusLaws
  import History

  // ----- the MMU -----

  /** A new unit reads as zeros once written to: no byte is readable or executable, each is
      writable and raw, no page is dirty and the cursor is at the base. */
  lemma NewUnit(base: nat, size: nat)
    requires base < U32_LIMIT
    ensures var img := Init(base, size);
            && img.base == img.cursor == base && img.size == |img.data| == |img.perm| == size
            && |img.dirty| == size / 64 + 1
            && (forall k :: 0 <= k < size ==>
                  && img.data[k] == 0 && img.perm[k].write && img.perm[k].raw
                  && !img.perm[k].read && !img.perm[k].exec)
            && forall p :: 0 <= p < |img.dirty| ==> !img.dirty[p]
  {
  }

  /** Adding memory inside the unit moves the cursor to its end and sets the permissions of
      its bytes; anything else ends the program. */
  lemma AddMemoryExactly(img: Image, addr: nat, n: nat, p: Perm)
    requires img.Valid()
    ensures AddMemory(img, addr, n, p).Returns? <==> img.base <= addr && addr + n <= img.base + img.size
    ensures AddMemory(img, addr, n, p).Returns? ==>
              var r := AddMemory(img, addr, n, p).value;
              && r.base == img.base && r.size == img.size && r.cursor == addr + n
              && r.data == img.data && r.dirty == img.dirty && |r.perm| == |img.perm|
              && forall k :: 0 <= k < img.size ==>
                   r.perm[k] == if addr <= img.base + k < addr + n then p else img.perm[k]
  {
  }

  /** The range lies in the unit. */
  predicate Within(img: Image, addr: nat, n: nat) {
    img.base <= addr && addr + n <= img.base + img.size
  }

  /** Each of n bytes may be written: it is writable or raw. */
  predicate MayWrite(img: Image, addr: nat, n: nat)
    requires img.Valid()
  {
    Within(img, addr, n)
    && forall k :: 0 <= k < img.size && addr <= img.base + k < addr + n ==> img.perm[k].write || img.perm[k].raw
  }

  predicate MayRead(img: Image, addr: nat, n: nat)
    requires img.Valid()
  {
    Within(img, addr, n) && forall k :: 0 <= k < img.size && addr <= img.base + k < addr + n ==> img.perm[k].read
  }

  /** A raw byte that has been written is readable, writable and no longer raw. */
  function OnceWritten(p: Perm): Perm {
    if p.raw then Perm(p.exec, true, true, false) else p
  }

  /** src is stored at addr, and nothing else but dirty marks has changed. */
  predicate StoredAt(img: Image, r: Image, addr: nat, src: seq<Byte>)
    requires img.Valid()
  {
    && r.Valid() && r.base == img.base && r.size == img.size && r.cursor == img.cursor
    && (forall k :: 0 <= k < img.size && addr <= img.base + k < addr + |src| ==>
          r.data[k] == src[img.base + k - addr] && r.perm[k] == OnceWritten(img.perm[k]))
    && (forall k :: 0 <= k < img.size && !(addr <= img.base + k < addr + |src|) ==>
          r.data[k] == img.data[k] && r.perm[k] == img.perm[k])
  }

  lemma WrittenIsOnceWritten(p: Perm)
    ensures AfterWrite(p) == OnceWritten(p)
  {
  }

  /** A write outside the unit faults as a read, as the code has it; inside it is granted or
      denied. */
  lemma WriteExactly(img: Image, src: seq<Byte>, addr: nat)
    requires img.Valid()
    ensures var r := Write(img, src, addr);
            if MayWrite(img, addr, |src|) then
              r.status == MmuOk && r.count == |src| && StoredAt(img, r.image, addr, src)
            else
              && r.status == (if Within(img, addr, |src|) then AccessDenied else ReadPageFault)
              && r.count == 0 && r.image == img
  {
    hide AfterWrite, OnceWritten, Grants, Mark;
    if img.InRange(addr, |src|) {
      History.AllowsExactly(img, addr, |src|);
    }
    forall p: Perm
      ensures AfterWrite(p) == OnceWritten(p)
    {
      WrittenIsOnceWritten(p);
    }
  }

  /** A read outside the unit faults as a write; inside it returns the bytes or is denied. */
  lemma ReadExactly(img: Image, addr: nat, n: nat)
    requires img.Valid()
    ensures var r := Read(img, addr, n);
            if MayRead(img, addr, n) then r == ReadBack(MmuOk, img.data[addr - img.base..addr - img.base + n])
            else r == ReadBack(if Within(img, addr, n) then AccessDenied else WritePageFault, [])
  {
    hide Grants;
    if img.InRange(addr, n) {
      History.AllowsExactly(img, addr, n);
    }
  }

  // ----- calls that reach no device, or may not be made -----

  /** While the mutex is held no call returns. At an address that no device claims, every call
      reports it and changes nothing else; a single load gives 0x0badc0de. */
  lemma UnclaimedAccess(b: BusImage, offs: nat, value: Word, width: Width, src: seq<Byte>, count: nat, junk: Byte)
    requires b.Valid() && (b.held || forall k :: 0 <= k < |b.devices| ==> !Claims(b.devices[k], offs))
    ensures var lost := b.(flags := b.flags.(bus := AddressNotFound));
            if b.held then
              && ReadSingle(b, offs, width, junk) == Halts && WriteSingle(b, offs, value, width) == Halts
              && ReadMultiple(b, offs, count, width) == Halts && WriteMultiple(b, offs, src, count) == Halts
            else
              && ReadSingle(b, offs, width, junk) == Returns(Loaded(lost, 0x0bad_c0de))
              && WriteSingle(b, offs, value, width) == Returns(lost)
              && ReadMultiple(b, offs, count, width) == Returns(BlockRead(lost, 0, []))
              && WriteMultiple(b, offs, src, count) == Returns(BlockWrite(lost, 0))
  {
    FindExactly(b.devices, offs);
  }

  /** The CSR window answers no load and takes no store, and its block calls are null. */
  lemma WindowAccess(b: BusImage, offs: nat, k: nat, value: Word, width: Width, src: seq<Byte>, count: nat, junk: Byte)
    requires b.Valid() && !b.held && FirstClaim(b.devices, offs, k) && b.devices[k].kind.CsrWindow?
    ensures var failed := b.(flags := b.flags.(bus := BusOk, devices := b.flags.devices[k := Error]));
            && ReadSingle(b, offs, width, junk) == Returns(Loaded(failed, 0))
            && WriteSingle(b, offs, value, width) == (if b.devices[k].writable then Returns(failed) else Halts)
            && ReadMultiple(b, offs, count, width) == Halts && WriteMultiple(b, offs, src, count) == Halts
  {
    FindExactly(b.devices, offs);
  }

  /** A store to a device that may not be written fails an assertion, and so does a block
      store to a device that an earlier access left in another state than READY. */
  lemma RefusedDevice(b: BusImage, offs: nat, k: nat, value: Word, width: Width, src: seq<Byte>, count: nat)
    requires b.Valid() && !b.held && FirstClaim(b.devices, offs, k) && b.devices[k].kind.Ram?
    ensures WriteSingle(b, offs, value, width).Halts? <==> !b.devices[k].writable
    ensures WriteMultiple(b, offs, src, count).Halts?
            <==> !b.devices[k].writable || b.flags.devices[k] != Ready
  {
    hide WriteRam, Decompose;
    FindExactly(b.devices, offs);
  }

  // ----- single accesses to RAM -----

  /** The flags that an access to device k leaves. */
  function FlagsOf(b: BusImage, k: nat, bus: BusStatus, mmu: MmuStatus, state: DeviceState): Flags
    requires b.Valid() && k < |b.devices|
  {
    Flags(bus, mmu, b.flags.devices[k := state])
  }

  /** A granted load returns the little-endian number in memory; a refused one returns 0, or
      for a byte whatever the uninitialised variable held, and the bus still reports success. */
  lemma SingleLoadExactly(b: BusImage, offs: nat, width: Width, junk: Byte, k: nat)
    requires b.Valid() && !b.held && FirstClaim(b.devices, offs, k) && b.devices[k].kind.Ram?
    ensures ReadSingle(b, offs, width, junk).Returns?
    ensures var r := ReadSingle(b, offs, width, junk).value;
            var o := offs - b.ram.base;
            if MayRead(b.ram, offs, width.Bytes()) then
              && ToNat(r.value) == LittleEndian(Values(b.ram.data[o..o + width.Bytes()]))
              && r.bus == b.(flags := FlagsOf(b, k, BusOk, MmuOk, Ready))
            else
              && r.value == (if width.BYTE? then junk as Word else 0)
              && r.bus == b.(flags := FlagsOf(b, k, BusOk,
                                              if Within(b.ram, offs, width.Bytes()) then AccessDenied
                                              else WritePageFault, Error))
  {
    hide Read, Compose, LittleEndian, ToNat, MayRead, Within;
    FindExactly(b.devices, offs);
    ReadExactly(b.ram, offs, width.Bytes());
    if MayRead(b.ram, offs, width.Bytes()) {
      InsideIfReadable(b.ram, offs, width.Bytes());
      var o := offs - b.ram.base;
      ComposeMeans(b.ram.data[o..o + width.Bytes()]);
    }
  }

  lemma InsideIfReadable(img: Image, addr: nat, n: nat)
    requires img.Valid() && MayRead(img, addr, n)
    ensures img.base <= addr && addr + n <= img.base + img.size
  {
  }

  /** A granted store leaves the low bytes of the value in memory, the least significant
      first; a refused one leaves the memory as it was, and the bus reports success. */
  lemma SingleStoreExactly(b: BusImage, offs: nat, value: Word, width: Width, k: nat)
    requires b.Valid() && !b.held && FirstClaim(b.devices, offs, k)
    requires b.devices[k].kind.Ram? && b.devices[k].writable
    ensures WriteSingle(b, offs, value, width).Returns?
    ensures var b' := WriteSingle(b, offs, value, width).value;
            if MayWrite(b.ram, offs, width.Bytes()) then
              && StoredAt(b.ram, b'.ram, offs, Decompose(value, width))
              && b' == b.(ram := b'.ram, flags := FlagsOf(b, k, BusOk, MmuOk, Ready))
            else
              b' == b.(flags := FlagsOf(b, k, BusOk,
                                        if Within(b.ram, offs, width.Bytes()) then AccessDenied else ReadPageFault,
                                        Error))
  {
    hide Write, Decompose, StoredAt, MayWrite, Within;
    FindExactly(b.devices, offs);
    WriteExactly(b.ram, Decompose(value, width), offs);
  }

  /** The bytes of a store are the digits of the value to the base 256. */
  lemma StoredDigits(value: Word, width: Width, k: nat)
    requires k < width.Bytes()
    ensures Decompose(value, width)[k] as nat == ToNat(value) / Pow2(8 * k) % 256
  {
    hide ByteOf, ToNat, Pow2;
    ByteOfMeans(value, k);
  }

  // ----- block accesses to RAM -----

  /** A block store of count elements whose bytes are src. When the unit refuses it nothing is
      stored. It succeeds only if the byte count returned by the device is the element count,
      and it reports a failure and keeps the mutex otherwise. */
  lemma BlockStoreExactly(b: BusImage, offs: nat, src: seq<Byte>, count: nat, k: nat)
    requires b.Valid() && !b.held && FirstClaim(b.devices, offs, k)
    requires b.devices[k].kind.Ram? && b.devices[k].writable && b.flags.devices[k].Ready?
    ensures WriteMultiple(b, offs, src, count).Returns?
    ensures var r := WriteMultiple(b, offs, src, count).value;
            var granted := MayWrite(b.ram, offs, |src|);
            var succeeds := count == if granted then |src| else 0;
            && r.count == (if succeeds then count else 0)
            && (if granted then StoredAt(b.ram, r.bus.ram, offs, src) else r.bus.ram == b.ram)
            && r.bus == b.(ram := r.bus.ram, held := !succeeds,
                           flags := FlagsOf(b, k, if succeeds then BusOk else DeviceFailure,
                                            if granted then MmuOk
                                            else if Within(b.ram, offs, |src|) then AccessDenied
                                            else ReadPageFault,
                                            if granted then Ready else Error))
  {
    hide Write, StoredAt, MayWrite, Within;
    FindExactly(b.devices, offs);
    WriteExactly(b.ram, src, offs);
  }

  /** A block load of count elements returns their bytes, or reports a failure unless it was
      asked for no elements; the memory and the mutex are as before. */
  lemma BlockLoadExactly(b: BusImage, offs: nat, count: nat, width: Width, k: nat)
    requires b.Valid() && !b.held && FirstClaim(b.devices, offs, k) && b.devices[k].kind.Ram?
    ensures ReadMultiple(b, offs, count, width).Returns?
    ensures var r := ReadMultiple(b, offs, count, width).value;
            var n := count * width.Bytes();
            var o := offs - b.ram.base;
            if MayRead(b.ram, offs, n) then
              && r.count == count && r.bytes == b.ram.data[o..o + n]
              && r.bus == b.(flags := FlagsOf(b, k, BusOk, MmuOk, Ready))
            else
              && r.count == 0 && r.bytes == []
              && r.bus == b.(flags := FlagsOf(b, k, if count == 0 then BusOk else DeviceFailure,
                                              if Within(b.ram, offs, n) then AccessDenied else WritePageFault,
                                              Error))
  {
    hide Read, MayRead, Within;
    FindExactly(b.devices, offs);
    ReadExactly(b.ram, offs, count * width.Bytes());
  }

  /** A byte block stored to RAM reads back as it was, in order. */
  lemma BlockRoundTrip(b: BusImage, offs: nat, src: seq<Byte>, k: nat)
    requires b.Valid() && !b.held && FirstClaim(b.devices, offs, k)
    requires b.devices[k].kind.Ram? && b.devices[k].writable && b.flags.devices[k].Ready?
    requires ReadsBack(b, offs, |src|)
    ensures WriteMultiple(b, offs, src, |src|).Returns?
    ensures var put := WriteMultiple(b, offs, src, |src|).value;
            && put.count == |src| && put.bus.flags.bus == BusOk && !put.bus.held
            && put.bus.ram.data == Splice(b.ram.data, offs - b.ram.base, src)
            && ReadMultiple(put.bus, offs, |src|, BYTE).Returns?
            && ReadMultiple(put.bus, offs, |src|, BYTE).value.count == |src|
            && ReadMultiple(put.bus, offs, |src|, BYTE).value.bytes == src
  {
    hide WriteMultiple, ReadMultiple, ServedByRam, StoredAt, MayWrite, MayRead, Within, ReadsBack, FirstClaim;
    var o := offs - b.ram.base;
    BackIsGranted(b, offs, |src|);
    BlockStoreExactly(b, offs, src, |src|, k);
    var b' := WriteMultiple(b, offs, src, |src|).value.bus;
    StoredIsThere(b, b'.ram, offs, src);
    BlockLoadExactly(b', offs, |src|, BYTE, k);
  }

  lemma BackIsGranted(b: BusImage, offs: nat, n: nat)
    requires b.Valid() && ReadsBack(b, offs, n)
    ensures b.ram.base <= offs && offs + n <= b.ram.base + b.ram.size && MayWrite(b.ram, offs, n)
  {
  }

  lemma StoredIsThere(b: BusImage, r: Image, offs: nat, src: seq<Byte>)
    requires b.Valid() && ReadsBack(b, offs, |src|) && StoredAt(b.ram, r, offs, src)
    ensures r.Valid() && r.base == b.ram.base && r.size == b.ram.size && MayRead(r, offs, |src|)
    ensures r.data == Splice(b.ram.data, offs - b.ram.base, src)
    ensures r.data[offs - r.base..offs - r.base + |src|] == src
  {
    hide ServedByRam;
    assert r.data == Splice(b.ram.data, offs - b.ram.base, src);
    SplicedSlice(b.ram.data, offs - b.ram.base, src);
  }
}
