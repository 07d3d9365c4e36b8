/** The RAM adapter of src/memory.c and the shared bus of src/bus.c. */
module Bus {
  import opened Words
  import opened Mmu

  // ----- devices -----

  /** The two kinds of device on the bus: RAM over the MMU, and the CSR window, whose
      block accessors are null. */
  datatype DeviceKind = Ram | CsrWindow

  datatype Device = Device(kind: DeviceKind, base: nat, size: nat, readable: bool, writable: bool) {
    predicate Valid() { base < U32_LIMIT && size < U32_LIMIT }

    /** The window test of bus_find_device; its upper bound is a 32-bit sum. */
    predicate Holds(offs: nat) {
      base <= offs && (base + size) % U32_LIMIT > offs
    }
  }

  datatype DeviceState = Ready | Busy | Error

  datatype BusStatus = BusOk | ReadMisaligned | WriteMisaligned | AddressNotFound | BusAccessDenied | DeviceFailure

  /** The status words that an access leaves behind. */
  datatype Flags = Flags(bus: BusStatus, mmu: MmuStatus, devices: seq<DeviceState>)

  datatype BusImage = BusImage(devices: seq<Device>, ram: Image, held: bool, flags: Flags) {
    predicate Valid() {
      && ram.Valid()
      && |flags.devices| == |devices|
      && forall d :: d in devices ==> d.Valid()
    }
  }

  /** bus_find_device: the first device whose window holds the address. */
  function FindDevice(devices: seq<Device>, offs: nat): (i: Option<nat>)
    ensures i.Some? ==> i.value < |devices| && devices[i.value].Holds(offs)
  {
    FindFrom(devices, 0, offs)
  }

  function FindFrom(devices: seq<Device>, first: nat, offs: nat): (i: Option<nat>)
    requires first <= |devices|
    ensures i.Some? ==> first <= i.value < |devices| && devices[i.value].Holds(offs)
    decreases |devices| - first
  {
    if first == |devices| then None
    else if devices[first].Holds(offs) then Some(first)
    else FindFrom(devices, first + 1, offs)
  }

  // ----- the RAM adapter -----

  datatype RamRead = RamRead(count: nat, bytes: seq<Byte>, mmu: MmuStatus, state: DeviceState)

  /** read_ram: count elements of the given width. */
  function ReadRam(img: Image, offs: nat, count: nat, width: Width): (r: RamRead)
    requires img.Valid()
    ensures r.state.Ready? <==> r.mmu.MmuOk?
    ensures r.state.Ready? ==> r.count == count && |r.bytes| == count * width.Bytes()
    ensures !r.state.Ready? ==> r.count == 0 && r.bytes == []
  {
    var got := Read(img, offs, count * width.Bytes());
    if got.status.MmuOk? && |got.bytes| == count * width.Bytes()
    then RamRead(count, got.bytes, got.status, Ready)
    else RamRead(0, [], got.status, Error)
  }

  datatype RamWrite = RamWrite(count: nat, image: Image, mmu: MmuStatus, state: DeviceState)

  /** write_ram; on success the count returned is in bytes, not in elements. */
  function WriteRam(img: Image, offs: nat, src: seq<Byte>): (r: RamWrite)
    requires img.Valid()
    ensures r.image.Valid()
    ensures r.state.Ready? <==> r.mmu.MmuOk?
    ensures r.state.Ready? ==> r.count == |src|
    ensures !r.state.Ready? ==> r.count == 0 && r.image == img
  {
    var put := Write(img, src, offs);
    if put.status.MmuOk? then RamWrite(put.count, put.image, put.status, Ready)
    else RamWrite(0, put.image, put.status, Error)
  }

  /** read_ram_single: a refused word or halfword reads as 0; a refused byte is whatever
      the uninitialised local held. */
  function LoadedValue(r: RamRead, width: Width, junk: Byte): Word
    requires r.state.Ready? ==> |r.bytes| == width.Bytes()
  {
    if r.state.Ready? then Compose(r.bytes)
    else if width.BYTE? then junk as Word
    else 0
  }

  // ----- bus transactions -----

  const NOT_MAPPED: Word := 0x0bad_c0de

  datatype Loaded = Loaded(bus: BusImage, value: Word)

  /** bus_read_single */
  function ReadSingle(b: BusImage, offs: nat, width: Width, junk: Byte): (r: Outcome<Loaded>)
    requires b.Valid()
    ensures r.Returns? ==> r.value.bus.Valid()
  {
    if b.held then Halts
    else
      match FindDevice(b.devices, offs)
      case None => Returns(Loaded(b.(flags := b.flags.(bus := AddressNotFound)), NOT_MAPPED))
      case Some(i) =>
        match b.devices[i].kind
        case Ram =>
          var got := ReadRam(b.ram, offs, 1, width);
          Returns(Loaded(b.(flags := Flags(BusOk, got.mmu, b.flags.devices[i := got.state])),
                         LoadedValue(got, width, junk)))
        case CsrWindow =>
          Returns(Loaded(b.(flags := Flags(BusOk, b.flags.mmu, b.flags.devices[i := Error])), 0))
  }

  /** bus_write_single; a device without write permission fails an assertion. */
  function WriteSingle(b: BusImage, offs: nat, value: Word, width: Width): (r: Outcome<BusImage>)
    requires b.Valid()
    ensures r.Returns? ==> r.value.Valid()
  {
    if b.held then Halts
    else
      match FindDevice(b.devices, offs)
      case None => Returns(b.(flags := b.flags.(bus := AddressNotFound)))
      case Some(i) =>
        if !b.devices[i].writable then Halts
        else
          match b.devices[i].kind
          case Ram =>
            var put := WriteRam(b.ram, offs, Decompose(value, width));
            Returns(b.(ram := put.image, flags := Flags(BusOk, put.mmu, b.flags.devices[i := put.state])))
          case CsrWindow =>
            Returns(b.(flags := Flags(BusOk, b.flags.mmu, b.flags.devices[i := Error])))
  }

  datatype BlockRead = BlockRead(bus: BusImage, count: nat, bytes: seq<Byte>)

  /** bus_read_multiple */
  function ReadMultiple(b: BusImage, offs: nat, count: nat, width: Width): (r: Outcome<BlockRead>)
    requires b.Valid()
    ensures r.Returns? ==> r.value.bus.Valid() && r.value.count <= count
    ensures r.Returns? && r.value.count == count && 0 < count ==> |r.value.bytes| == count * width.Bytes()
  {
    if b.held then Halts
    else
      match FindDevice(b.devices, offs)
      case None => Returns(BlockRead(b.(flags := b.flags.(bus := AddressNotFound)), 0, []))
      case Some(i) =>
        match b.devices[i].kind
        case CsrWindow => Halts
        case Ram =>
          var got := ReadRam(b.ram, offs, count, width);
          var status := if got.count != count then DeviceFailure else BusOk;
          Returns(BlockRead(b.(flags := Flags(status, got.mmu, b.flags.devices[i := got.state])),
                            got.count, got.bytes))
  }

  datatype BlockWrite = BlockWrite(bus: BusImage, count: nat)

  /** bus_write_multiple of count elements whose bytes are src. The path taken when the
      device does not return the element count leaves the mutex locked. */
  function WriteMultiple(b: BusImage, offs: nat, src: seq<Byte>, count: nat): (r: Outcome<BlockWrite>)
    requires b.Valid()
    ensures r.Returns? ==> r.value.bus.Valid()
  {
    if b.held then Halts
    else
      match FindDevice(b.devices, offs)
      case None => Returns(BlockWrite(b.(flags := b.flags.(bus := AddressNotFound)), 0))
      case Some(i) =>
        if !b.devices[i].writable || !b.flags.devices[i].Ready? || b.devices[i].kind.CsrWindow? then Halts
        else
          var put := WriteRam(b.ram, offs, src);
          var failed := put.count != count;
          Returns(BlockWrite(b.(ram := put.image, held := failed,
                                flags := Flags(if failed then DeviceFailure else BusOk,
                                               put.mmu, b.flags.devices[i := put.state])),
                             if failed then 0 else count))
  }

  // ----- the bus itself -----

  class BusUnit {
    const devices: seq<Device>
    const mmu: MmuUnit
    var states: seq<DeviceState>
    var status: BusStatus
    var held: bool

    ghost predicate Valid()
      reads this, mmu
    {
      && mmu.Valid()
      && |states| == |devices|
      && forall d :: d in devices ==> d.Valid()
    }

    ghost function Value(): (b: BusImage)
      requires Valid()
      reads this, mmu, mmu.data, mmu.perm, mmu.dirty
      ensures b.Valid()
    {
      BusImage(devices, mmu.Value(), held, Flags(status, mmu.status, states))
    }

    /** The part of emulator_init and bus_init that concerns the bus: every device is
        initialised to READY and the mutex is free. */
    constructor (devices: seq<Device>, mmu: MmuUnit)
      requires mmu.Valid()
      requires forall d :: d in devices ==> d.Valid()
      ensures Valid() && this.mmu == mmu
      ensures Value() == BusImage(devices, mmu.Value(), false, Flags(BusOk, mmu.status, Fill(|devices|, Ready)))
    {
      this.devices := devices;
      this.mmu := mmu;
      states := Fill(|devices|, Ready);
      status := BusOk;
      held := false;
    }

    /** bus_find_device */
    method Find(offs: nat) returns (i: Option<nat>)
      requires Valid()
      modifies this`status
      ensures i == FindDevice(devices, offs)
      ensures status == if i.Some? then BusOk else AddressNotFound
    {
      var k := 0;
      status := BusOk;
      while k < |devices|
        invariant 0 <= k <= |devices|
        invariant FindFrom(devices, k, offs) == FindDevice(devices, offs)
        invariant status == BusOk
      {
        if devices[k].Holds(offs) {
          return Some(k);
        }
        k := k + 1;
      }
      status := AddressNotFound;
      return None;
    }

    /** read_ram on device i */
    method ReadRamBlock(i: nat, offs: nat, count: nat, width: Width) returns (n: nat, bytes: seq<Byte>)
      requires Valid() && i < |devices|
      modifies this`states, mmu`status
      ensures Valid()
      ensures var r := ReadRam(old(mmu.Value()), offs, count, width);
              && n == r.count && bytes == r.bytes
              && mmu.status == r.mmu && states == old(states)[i := r.state]
    {
      states := states[i := Busy];
      bytes := mmu.ReadInto(offs, count * width.Bytes());
      if mmu.status.MmuOk? && |bytes| == count * width.Bytes() {
        states := states[i := Ready];
        return count, bytes;
      }
      states := states[i := Error];
      return 0, [];
    }

    /** write_ram on device i */
    method WriteRamBlock(i: nat, offs: nat, src: seq<Byte>) returns (n: nat)
      requires Valid() && i < |devices|
      modifies this`states, mmu`status, mmu.data, mmu.perm, mmu.dirty
      ensures Valid()
      ensures var r := WriteRam(old(mmu.Value()), offs, src);
              && n == r.count && mmu.Value() == r.image
              && mmu.status == r.mmu && states == old(states)[i := r.state]
    {
      states := states[i := Busy];
      n := mmu.WriteFrom(src, offs);
      if mmu.status.MmuOk? {
        states := states[i := Ready];
        return n;
      }
      states := states[i := Error];
      return 0;
    }

    /** bus_read_single */
    method Load(offs: nat, width: Width, junk: Byte) returns (v: Option<Word>)
      requires Valid()
      modifies this`states, this`status, this`held, mmu`status
      ensures Valid()
      ensures v.Some? <==> ReadSingle(old(Value()), offs, width, junk).Returns?
      ensures v.Some? ==> Loaded(Value(), v.value) == ReadSingle(old(Value()), offs, width, junk).value
    {
      if held {
        return None;
      }
      held := true;
      var i := Find(offs);
      if i.None? {
        held := false;
        return Some(NOT_MAPPED);
      }
      if devices[i.value].kind.Ram? {
        var n, bytes := ReadRamBlock(i.value, offs, 1, width);
        v := Some(if n == 1 then Compose(bytes) else if width.BYTE? then junk as Word else 0);
      } else {
        states := states[i.value := Error];
        v := Some(0);
      }
      held := false;
    }

    /** bus_read_multiple */
    method LoadBlock(offs: nat, count: nat, width: Width) returns (r: Option<(nat, seq<Byte>)>)
      requires Valid()
      modifies this`states, this`status, this`held, mmu`status
      ensures Valid()
      ensures r.Some? <==> ReadMultiple(old(Value()), offs, count, width).Returns?
      ensures r.Some? ==>
                BlockRead(Value(), r.value.0, r.value.1) == ReadMultiple(old(Value()), offs, count, width).value
    {
      if held {
        return None;
      }
      held := true;
      var i := Find(offs);
      if i.None? {
        held := false;
        return Some((0, []));
      }
      if devices[i.value].kind.CsrWindow? {
        return None;
      }
      var n, bytes := ReadRamBlock(i.value, offs, count, width);
      if n != count {
        status := DeviceFailure;
        held := false;
        return Some((0, bytes));
      }
      held := false;
      return Some((n, bytes));
    }

    /** bus_write_single */
    method Store(offs: nat, value: Word, width: Width) returns (ok: bool)
      requires Valid()
      modifies this`states, this`status, this`held, mmu`status, mmu.data, mmu.perm, mmu.dirty
      ensures Valid()
      ensures ok <==> WriteSingle(old(Value()), offs, value, width).Returns?
      ensures ok ==> Value() == WriteSingle(old(Value()), offs, value, width).value
    {
      if held {
        return false;
      }
      held := true;
      var i := Find(offs);
      if i.None? {
        held := false;
        return true;
      }
      if !devices[i.value].writable {
        return false;
      }
      if devices[i.value].kind.Ram? {
        var _ := WriteRamBlock(i.value, offs, Decompose(value, width));
      } else {
        states := states[i.value := Error];
      }
      held := false;
      return true;
    }

    /** bus_write_multiple */
    method StoreBlock(offs: nat, src: seq<Byte>, count: nat) returns (r: Option<nat>)
      requires Valid()
      modifies this`states, this`status, this`held, mmu`status, mmu.data, mmu.perm, mmu.dirty
      ensures Valid()
      ensures r.Some? <==> WriteMultiple(old(Value()), offs, src, count).Returns?
      ensures r.Some? ==> BlockWrite(Value(), r.value) == WriteMultiple(old(Value()), offs, src, count).value
    {
      if held {
        return None;
      }
      held := true;
      var i := Find(offs);
      if i.None? {
        held := false;
        return Some(0);
      }
      if !devices[i.value].writable {
        status := BusAccessDenied;
        return None;
      }
      if !states[i.value].Ready? || devices[i.value].kind.CsrWindow? {
        return None;
      }
      var n := WriteRamBlock(i.value, offs, src);
      if n != count {
        status := DeviceFailure;
        return Some(0);
      }
      status := BusOk;
      held := false;
      return Some(count);
    }
  }
}
