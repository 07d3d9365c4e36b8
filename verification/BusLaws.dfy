/** Laws of the bus: device lookup, access widths, block loading and the mutex. */
module BusLaws {
  import opened Words
  import opened Mmu
  import opened Bus
  import History

  // ----- device lookup -----

  lemma {:induction false} FindFromIsFirst(devices: seq<Device>, first: nat, offs: nat)
    requires first <= |devices|
    ensures match FindFrom(devices, first, offs)
            case None => forall k :: first <= k < |devices| ==> !devices[k].Holds(offs)
            case Some(i) => forall k :: first <= k < i ==> !devices[k].Holds(offs)
    decreases |devices| - first
  {
    if first < |devices| && !devices[first].Holds(offs) {
      FindFromIsFirst(devices, first + 1, offs);
    }
  }

  /** The lookup returns the first device whose window holds the address, and fails exactly
      when no window does. */
  lemma FindIsFirst(devices: seq<Device>, offs: nat)
    ensures match FindDevice(devices, offs)
            case None => forall k :: 0 <= k < |devices| ==> !devices[k].Holds(offs)
            case Some(i) => forall k :: 0 <= k < i ==> !devices[k].Holds(offs)
  {
    FindFromIsFirst(devices, 0, offs);
  }

  /** The device's window, told from its base and size: a window whose 32-bit end wraps around
      is empty, even when its first addresses exist. */
  predicate Claims(d: Device, offs: nat) {
    d.base + d.size < 0x1_0000_0000 && d.base <= offs < d.base + d.size
  }

  /** Device k claims the address and no earlier device does. */
  predicate FirstClaim(devices: seq<Device>, offs: nat, k: nat) {
    k < |devices| && Claims(devices[k], offs) && forall j :: 0 <= j < k ==> !Claims(devices[j], offs)
  }

  lemma HoldsExactly(d: Device, offs: nat)
    requires d.Valid()
    ensures d.Holds(offs) <==> Claims(d, offs)
  {
  }

  /** The lookup finds device k exactly when k is the first device that claims the address,
      and nothing exactly when no device does. */
  lemma FindExactly(devices: seq<Device>, offs: nat)
    requires forall d :: d in devices ==> d.Valid()
    ensures FindDevice(devices, offs) == None <==> forall k :: 0 <= k < |devices| ==> !Claims(devices[k], offs)
    ensures forall k: nat :: FindDevice(devices, offs) == Some(k) <==> FirstClaim(devices, offs, k)
  {
    hide Device.Holds, FindDevice, Claims;
    FindIsFirst(devices, offs);
    forall k | 0 <= k < |devices|
      ensures devices[k].Holds(offs) <==> Claims(devices[k], offs)
    {
      HoldsExactly(devices[k], offs);
    }
  }

  function Found(devices: seq<Device>, offs: nat): Option<Device> {
    match FindDevice(devices, offs)
    case None => None
    case Some(i) => Some(devices[i])
  }

  /** All devices that claim the address are one and the same. */
  predicate Unambiguous(devices: seq<Device>, offs: nat) {
    forall i, j :: 0 <= i < |devices| && 0 <= j < |devices| && devices[i].Holds(offs) && devices[j].Holds(offs) ==>
      devices[i] == devices[j]
  }

  /** The device found at an address does not depend on the order of the list exactly when
      all devices that claim the address are the same one. */
  lemma LookupIgnoresOrder(devices: seq<Device>, offs: nat)
    ensures (forall es: seq<Device> :: multiset(es) == multiset(devices) ==> Found(es, offs) == Found(devices, offs))
            <==> Unambiguous(devices, offs)
  {
    if Unambiguous(devices, offs) {
      forall es: seq<Device> | multiset(es) == multiset(devices)
        ensures Found(es, offs) == Found(devices, offs)
      {
        SameFound(devices, es, offs);
      }
    } else {
      var i, j :| 0 <= i < |devices| && 0 <= j < |devices|
                  && devices[i].Holds(offs) && devices[j].Holds(offs) && devices[i] != devices[j];
      FoundAfterMoveToFront(devices, i, offs);
      FoundAfterMoveToFront(devices, j, offs);
    }
  }

  function MoveToFront(devices: seq<Device>, i: nat): seq<Device>
    requires i < |devices|
  {
    [devices[i]] + (devices[..i] + devices[i + 1..])
  }

  lemma FoundAfterMoveToFront(devices: seq<Device>, i: nat, offs: nat)
    requires i < |devices| && devices[i].Holds(offs)
    ensures multiset(MoveToFront(devices, i)) == multiset(devices)
    ensures Found(MoveToFront(devices, i), offs) == Some(devices[i])
  {
    assert devices == devices[..i] + ([devices[i]] + devices[i + 1..]);
  }

  lemma SameFound(devices: seq<Device>, es: seq<Device>, offs: nat)
    requires multiset(es) == multiset(devices) && Unambiguous(devices, offs)
    ensures Found(es, offs) == Found(devices, offs)
  {
    FindIsFirst(devices, offs);
    FindIsFirst(es, offs);
    forall d: Device
      ensures d in devices <==> d in es
    {
      assert d in multiset(devices) <==> d in multiset(es);
    }
    match FindDevice(devices, offs) {
      case None =>
      case Some(i) => assert devices[i] in es;
    }
    match FindDevice(es, offs) {
      case None =>
      case Some(i) => assert es[i] in devices;
    }
  }

  // ----- widths and byte order -----

  /** The address is served by writable RAM. */
  predicate ServedByRam(devices: seq<Device>, offs: nat) {
    match FindDevice(devices, offs)
    case None => false
    case Some(i) => devices[i].kind.Ram? && devices[i].writable
  }

  predicate ServesRange(devices: seq<Device>, offs: nat, n: nat) {
    forall k :: offs <= k < offs + n ==> ServedByRam(devices, k)
  }

  /** A store of n bytes at the address goes through and leaves them readable. */
  predicate ReadsBack(b: BusImage, offs: nat, n: nat)
    requires b.Valid()
  {
    && ServedByRam(b.devices, offs)
    && b.ram.InRange(offs, n)
    && forall i :: offs - b.ram.base <= i < offs - b.ram.base + n ==>
         (b.ram.perm[i].write || b.ram.perm[i].raw) && (b.ram.perm[i].read || b.ram.perm[i].raw)
  }

  /** Image x is image y except for n bytes at offset o, which x makes readable and writable. */
  predicate ChangesOnly(y: Image, x: Image, o: nat, n: nat) {
    && x.Valid() && y.Valid() && x.base == y.base && x.size == y.size && x.cursor == y.cursor
    && o + n <= x.size
    && (forall i :: o <= i < o + n ==> x.perm[i].read && (x.perm[i].write || x.perm[i].raw))
    && (forall i :: 0 <= i < x.size && !(o <= i < o + n) ==> x.data[i] == y.data[i] && x.perm[i] == y.perm[i])
  }

  lemma ChangesCompose(x: Image, y: Image, z: Image, o: nat, n: nat, m: nat)
    requires ChangesOnly(x, y, o, n) && ChangesOnly(y, z, o + n, m)
    ensures ChangesOnly(x, z, o, n + m)
  {
  }

  lemma SamePlace(x: Image, y: Image, o: nat, n: nat)
    requires ChangesOnly(x, y, o, n)
    ensures x.base == y.base && x.size == y.size
  {
  }

  lemma WriteChangesOnly(img: Image, src: seq<Byte>, addr: nat)
    requires img.Valid() && img.InRange(addr, |src|)
    requires forall i :: addr - img.base <= i < addr - img.base + |src| ==>
               (img.perm[i].write || img.perm[i].raw) && (img.perm[i].read || img.perm[i].raw)
    ensures Write(img, src, addr).status.MmuOk?
    ensures ChangesOnly(img, Write(img, src, addr).image, addr - img.base, |src|)
    ensures Write(img, src, addr).image.data == Splice(img.data, addr - img.base, src)
  {
    hide Grants, Mark;
    History.AllowsExactly(img, addr, |src|);
  }

  lemma StoreGoesThrough(b: BusImage, offs: nat, value: Word, width: Width)
    requires b.Valid() && !b.held && ReadsBack(b, offs, width.Bytes())
    ensures WriteSingle(b, offs, value, width).Returns?
    ensures var b' := WriteSingle(b, offs, value, width).value;
            var put := Write(b.ram, Decompose(value, width), offs);
            && b'.flags.bus == BusOk && b'.flags.mmu == MmuOk
            && put.status.MmuOk?
            && b' == b.(ram := put.image, flags := b'.flags)
            && ChangesOnly(b.ram, b'.ram, offs - b.ram.base, width.Bytes())
            && b'.ram.data == Splice(b.ram.data, offs - b.ram.base, Decompose(value, width))
  {
    WriteChangesOnly(b.ram, Decompose(value, width), offs);
  }

  /** A load of readable bytes returns them, least significant first. */
  lemma LoadReturnsBytes(b: BusImage, offs: nat, width: Width, junk: Byte)
    requires b.Valid() && !b.held && ServedByRam(b.devices, offs) && b.ram.InRange(offs, width.Bytes())
    requires forall i :: offs - b.ram.base <= i < offs - b.ram.base + width.Bytes() ==> b.ram.perm[i].read
    ensures ReadSingle(b, offs, width, junk).Returns?
    ensures var o := offs - b.ram.base;
            ReadSingle(b, offs, width, junk).value.value == Compose(b.ram.data[o..o + width.Bytes()])
  {
    History.AllowsExactly(b.ram, offs, width.Bytes());
  }

  lemma SplicedSlice(s: seq<Byte>, o: nat, t: seq<Byte>)
    requires o + |t| <= |s|
    ensures Splice(s, o, t)[o..o + |t|] == t
  {
  }

  lemma StoredIsReadable(b: BusImage, b': BusImage, offs: nat, n: nat)
    requires b.Valid() && b'.Valid() && !b.held && ReadsBack(b, offs, n)
    requires b' == b.(ram := b'.ram, flags := b'.flags) && ChangesOnly(b.ram, b'.ram, offs - b.ram.base, n)
    ensures !b'.held && ServedByRam(b'.devices, offs) && b'.ram.InRange(offs, n)
    ensures forall i :: offs - b'.ram.base <= i < offs - b'.ram.base + n ==> b'.ram.perm[i].read
  {
    hide ServedByRam;
  }

  /** A store that goes through reads back, at the same address and width, as the value
      truncated to the width, aligned or not. */
  lemma StoreThenLoad(b: BusImage, offs: nat, value: Word, width: Width, junk: Byte)
    requires b.Valid() && !b.held && ReadsBack(b, offs, width.Bytes())
    ensures WriteSingle(b, offs, value, width).Returns?
    ensures var b' := WriteSingle(b, offs, value, width).value;
            && ReadSingle(b', offs, width, junk).Returns?
            && ReadSingle(b', offs, width, junk).value.value == Truncate(value, width)
  {
    hide WriteSingle, ReadSingle, Write, Decompose, Compose, Truncate, ServedByRam, Splice;
    StoreGoesThrough(b, offs, value, width);
    var b' := WriteSingle(b, offs, value, width).value;
    StoredIsReadable(b, b', offs, width.Bytes());
    LoadReturnsBytes(b', offs, width, junk);
    SplicedSlice(b.ram.data, offs - b.ram.base, Decompose(value, width));
    ComposeDecompose(value, width);
  }

  function LoadByte(b: BusImage, offs: nat, junk: Byte): Option<Byte>
    requires b.Valid()
  {
    match ReadSingle(b, offs, BYTE, junk)
    case Halts => None
    case Returns(r) => Some(ByteOf(r.value, 0))
  }

  /** Loading n bytes one at a time. */
  function LoadBytes(b: BusImage, offs: nat, n: nat, junk: Byte): Option<seq<Byte>>
    requires b.Valid()
  {
    if n == 0 then Some([])
    else
      match (LoadBytes(b, offs, n - 1, junk), LoadByte(b, offs + n - 1, junk))
      case (Some(bs), Some(x)) => Some(bs + [x])
      case _ => None
  }

  lemma LoadByteReturnsByte(b: BusImage, offs: nat, junk: Byte)
    requires b.Valid() && !b.held && ServedByRam(b.devices, offs) && b.ram.InRange(offs, 1)
    requires b.ram.perm[offs - b.ram.base].read
    ensures LoadByte(b, offs, junk) == Some(b.ram.data[offs - b.ram.base])
  {
    var o := offs - b.ram.base;
    LoadReturnsBytes(b, offs, BYTE, junk);
    assert b.ram.data[o..o + 1] == [b.ram.data[o]];
    LowByte(b.ram.data[o]);
  }

  lemma {:induction false} LoadBytesReturnsData(b: BusImage, offs: nat, n: nat, junk: Byte)
    requires b.Valid() && !b.held && b.ram.InRange(offs, n)
    requires ServesRange(b.devices, offs, n)
    requires forall i :: offs - b.ram.base <= i < offs - b.ram.base + n ==> b.ram.perm[i].read
    ensures LoadBytes(b, offs, n, junk) == Some(b.ram.data[offs - b.ram.base..offs - b.ram.base + n])
  {
    hide LoadByte, ReadSingle, FindDevice, ServedByRam;
    var o := offs - b.ram.base;
    if n == 0 {
      assert b.ram.data[o..o] == [];
    } else {
      LoadBytesReturnsData(b, offs, n - 1, junk);
      assert LoadByte(b, offs + n - 1, junk) == Some(b.ram.data[o + n - 1]) by {
        LoadByteReturnsByte(b, offs + n - 1, junk);
      }
      assert b.ram.data[o..o + n - 1] + [b.ram.data[o + n - 1]] == b.ram.data[o..o + n];
    }
  }

  lemma LowByte(x: Byte)
    ensures ByteOf(x as Word, 0) == x
  {
  }

  /** A load of any width is its byte loads put together, least significant byte first. */
  lemma LoadIsByteLoads(b: BusImage, offs: nat, width: Width, junk: Byte)
    requires b.Valid() && !b.held && b.ram.InRange(offs, width.Bytes())
    requires ServesRange(b.devices, offs, width.Bytes())
    requires forall i :: offs - b.ram.base <= i < offs - b.ram.base + width.Bytes() ==> b.ram.perm[i].read
    ensures ReadSingle(b, offs, width, junk).Returns?
    ensures LoadBytes(b, offs, width.Bytes(), junk).Some?
    ensures |LoadBytes(b, offs, width.Bytes(), junk).value| == width.Bytes()
    ensures ReadSingle(b, offs, width, junk).value.value == Compose(LoadBytes(b, offs, width.Bytes(), junk).value)
  {
    LoadReturnsBytes(b, offs, width, junk);
    LoadBytesReturnsData(b, offs, width.Bytes(), junk);
  }

  function StoreByte(b: BusImage, offs: nat, x: Byte): (r: Outcome<BusImage>)
    requires b.Valid()
    ensures r.Returns? ==> r.value.Valid()
  {
    WriteSingle(b, offs, x as Word, BYTE)
  }

  /** Storing bytes one at a time, lowest address first. */
  function StoreBytes(b: BusImage, offs: nat, bytes: seq<Byte>): (r: Outcome<BusImage>)
    requires b.Valid()
    ensures r.Returns? ==> r.value.Valid()
  {
    if bytes == [] then Returns(b)
    else
      match StoreBytes(b, offs, bytes[..|bytes| - 1])
      case Halts => Halts
      case Returns(b') => StoreByte(b', offs + |bytes| - 1, bytes[|bytes| - 1])
  }

  /** Byte stores add up to one MMU write: contents, permissions and dirty marks. */
  lemma {:induction false} ByteStoresAreOneWrite(b: BusImage, offs: nat, bytes: seq<Byte>)
    requires b.Valid() && !b.held && ReadsBack(b, offs, |bytes|)
    requires ServesRange(b.devices, offs, |bytes|)
    ensures StoreBytes(b, offs, bytes).Returns?
    ensures var b' := StoreBytes(b, offs, bytes).value;
            && b' == b.(ram := b'.ram, flags := b'.flags)
            && Write(b.ram, bytes, offs).status.MmuOk?
            && b'.ram == Write(b.ram, bytes, offs).image
    decreases |bytes|
  {
    hide Write, StoreByte, ServedByRam;
    var n := |bytes|;
    WriteChangesOnly(b.ram, bytes, offs);
    if n == 0 {
      assert bytes == [];
      WriteNothing(b.ram, offs);
    } else {
      var front := bytes[..n - 1];
      WriteChangesOnly(b.ram, front, offs);
      ByteStoresAreOneWrite(b, offs, front);
      var mid := StoreBytes(b, offs, front).value;
      assert ServedByRam(b.devices, offs + n - 1);
      assert ReadsBack(mid, offs + n - 1, 1);
      assert front + [bytes[n - 1]] == bytes;
      ByteStoreStep(b, offs, front, bytes[n - 1], mid);
    }
  }

  lemma WriteNothing(img: Image, addr: nat)
    requires img.Valid()
    ensures Write(img, [], addr).image == img
  {
    if Write(img, [], addr).status.MmuOk? {
      assert Write(img, [], addr).image.data == img.data;
      assert Write(img, [], addr).image.perm == img.perm;
      assert Write(img, [], addr).image.dirty == img.dirty;
    }
  }

  lemma ByteStoreStep(b: BusImage, offs: nat, front: seq<Byte>, last: Byte, mid: BusImage)
    requires b.Valid() && !b.held && StoreBytes(b, offs, front) == Returns(mid)
    requires Write(b.ram, front, offs).status.MmuOk? && Write(b.ram, front + [last], offs).status.MmuOk?
    requires mid == b.(ram := Write(b.ram, front, offs).image, flags := mid.flags)
    requires ReadsBack(mid, offs + |front|, 1)
    ensures StoreBytes(b, offs, front + [last]).Returns?
    ensures var b' := StoreBytes(b, offs, front + [last]).value;
            b' == b.(ram := Write(b.ram, front + [last], offs).image, flags := b'.flags)
  {
    hide WriteSingle, ServedByRam, Write, StoreByte;
    assert (front + [last])[..|front|] == front;
    StoreByteIsWrite(mid, offs + |front|, last);
    TwoWritesAreOne(b.ram, offs, front, last);
  }

  lemma StoreByteIsWrite(b: BusImage, offs: nat, x: Byte)
    requires b.Valid() && !b.held && ReadsBack(b, offs, 1)
    ensures StoreByte(b, offs, x).Returns?
    ensures var b' := StoreByte(b, offs, x).value;
            && b' == b.(ram := Write(b.ram, [x], offs).image, flags := b'.flags)
            && Write(b.ram, [x], offs).status.MmuOk?
  {
    LowByte(x);
    assert Decompose(x as Word, BYTE) == [x];
    StoreGoesThrough(b, offs, x as Word, BYTE);
  }

  lemma TwoWritesAreOne(img: Image, offs: nat, front: seq<Byte>, last: Byte)
    requires img.Valid()
    requires Write(img, front + [last], offs).status.MmuOk?
    requires Write(img, front, offs).status.MmuOk?
    requires Write(Write(img, front, offs).image, [last], offs + |front|).status.MmuOk?
    ensures Write(Write(img, front, offs).image, [last], offs + |front|).image
         == Write(img, front + [last], offs).image
  {
    hide Grants, AfterWrite;
    var once := Write(img, front + [last], offs).image;
    var twice := Write(Write(img, front, offs).image, [last], offs + |front|).image;
    var o := offs - img.base;
    assert once.data == twice.data;
    assert once.perm == twice.perm;
    forall i | 0 <= i < |img.dirty|
      ensures once.dirty[i] == twice.dirty[i]
    {
      History.MarkedPages(o, |front| + 1, i);
      History.MarkedPages(o, |front|, i);
      History.MarkedPages(o + |front|, 1, i);
    }
  }

  /** A store of any width is its byte stores, lowest address first, aligned or not: the
      same contents, permissions, dirty marks and cursor. */
  lemma StoreIsByteStores(b: BusImage, offs: nat, value: Word, width: Width)
    requires b.Valid() && !b.held && ReadsBack(b, offs, width.Bytes())
    requires ServesRange(b.devices, offs, width.Bytes())
    ensures WriteSingle(b, offs, value, width).Returns?
    ensures StoreBytes(b, offs, Decompose(value, width)).Returns?
    ensures WriteSingle(b, offs, value, width).value.ram == StoreBytes(b, offs, Decompose(value, width)).value.ram
  {
    StoreGoesThrough(b, offs, value, width);
    ByteStoresAreOneWrite(b, offs, Decompose(value, width));
  }

  // ----- load_into_ram -----

  /** The effect of the loop of load_into_ram over the words of rom. */
  function StoreWords(b: BusImage, base: nat, rom: seq<Word>): (r: Outcome<BusImage>)
    requires b.Valid()
    ensures r.Returns? ==> r.value.Valid()
  {
    if rom == [] then Returns(b)
    else
      match StoreWords(b, base, rom[..|rom| - 1])
      case Halts => Halts
      case Returns(b') => WriteSingle(b', base + 4 * (|rom| - 1), rom[|rom| - 1], WORD)
  }

  predicate WordServed(devices: seq<Device>, base: nat, k: nat) { ServedByRam(devices, base + 4 * k) }

  /** The range is storable, and the start of each of its words is served by RAM. */
  predicate WordsStorable(b: BusImage, base: nat, count: nat)
    requires b.Valid()
  {
    && b.ram.InRange(base, 4 * count)
    && (forall k :: 0 <= k < count ==> WordServed(b.devices, base, k))
    && forall i :: base - b.ram.base <= i < base - b.ram.base + 4 * count ==>
         (b.ram.perm[i].write || b.ram.perm[i].raw) && (b.ram.perm[i].read || b.ram.perm[i].raw)
  }

  /** Word k of the range at offset o holds rom[k]. */
  predicate HoldsWords(data: seq<Byte>, o: nat, rom: seq<Word>) {
    && o + 4 * |rom| <= |data|
    && forall k :: 0 <= k < |rom| ==> data[o + 4 * k..o + 4 * k + 4] == Decompose(rom[k], WORD)
  }

  /** The words of rom have been loaded: word k of the range holds rom[k], the range is
      readable, and nothing outside it has changed. */
  predicate LoadedFrom(b: BusImage, base: nat, rom: seq<Word>, r: Outcome<BusImage>)
    requires b.Valid() && b.ram.base <= base
  {
    && r.Returns?
    && r.value == b.(ram := r.value.ram, flags := r.value.flags)
    && ChangesOnly(b.ram, r.value.ram, base - b.ram.base, 4 * |rom|)
    && HoldsWords(r.value.ram.data, base - b.ram.base, rom)
  }

  /** load_into_ram puts every word where it belongs and touches nothing else. */
  lemma {:induction false} StoreWordsIsExact(b: BusImage, base: nat, rom: seq<Word>)
    requires b.Valid() && !b.held && WordsStorable(b, base, |rom|)
    ensures LoadedFrom(b, base, rom, StoreWords(b, base, rom))
    decreases |rom|
  {
    if rom != [] {
      StoreWordsIsExact(b, base, rom[..|rom| - 1]);
      var mid := StoreWords(b, base, rom[..|rom| - 1]).value;
      StoreWordsStep(b, base, rom, mid);
      NextWordLoaded(b, base, rom, mid);
    }
  }

  lemma NextWordLoaded(b: BusImage, base: nat, rom: seq<Word>, mid: BusImage)
    requires b.Valid() && mid.Valid() && !b.held && rom != [] && WordsStorable(b, base, |rom|)
    requires LoadedFrom(b, base, rom[..|rom| - 1], Returns(mid))
    ensures LoadedFrom(b, base, rom, WriteSingle(mid, base + 4 * (|rom| - 1), rom[|rom| - 1], WORD))
  {
    hide WriteSingle, ServedByRam, ReadsBack, ChangesOnly, HoldsWords;
    NextWordStorable(b, base, |rom| - 1, mid);
    StoreOneMore(mid, base + 4 * (|rom| - 1), b.ram, rom);
  }

  lemma StoreWordsStep(b: BusImage, base: nat, rom: seq<Word>, mid: BusImage)
    requires b.Valid() && rom != [] && StoreWords(b, base, rom[..|rom| - 1]) == Returns(mid)
    ensures StoreWords(b, base, rom) == WriteSingle(mid, base + 4 * (|rom| - 1), rom[|rom| - 1], WORD)
  {
  }

  lemma StoreOneMore(mid: BusImage, offs: nat, first: Image, rom: seq<Word>)
    requires mid.Valid() && !mid.held && rom != [] && ReadsBack(mid, offs, 4)
    requires first.base + 4 * (|rom| - 1) <= offs
    requires var o := offs - 4 * (|rom| - 1) - first.base;
             ChangesOnly(first, mid.ram, o, 4 * (|rom| - 1)) && HoldsWords(mid.ram.data, o, rom[..|rom| - 1])
    ensures WriteSingle(mid, offs, rom[|rom| - 1], WORD).Returns?
    ensures var b' := WriteSingle(mid, offs, rom[|rom| - 1], WORD).value;
            var o := offs - 4 * (|rom| - 1) - first.base;
            && b' == mid.(ram := b'.ram, flags := b'.flags)
            && ChangesOnly(first, b'.ram, o, 4 * |rom|) && HoldsWords(b'.ram.data, o, rom)
  {
    hide WriteSingle, Write, ServedByRam, ReadsBack, ChangesOnly, HoldsWords, Decompose, Splice;
    SamePlace(first, mid.ram, offs - 4 * (|rom| - 1) - first.base, 4 * (|rom| - 1));
    StoreGoesThrough(mid, offs, rom[|rom| - 1], WORD);
    OneMoreWord(first, mid.ram, WriteSingle(mid, offs, rom[|rom| - 1], WORD).value.ram,
                offs - 4 * (|rom| - 1) - first.base, rom);
  }

  lemma OneMoreWord(x: Image, y: Image, z: Image, o: nat, rom: seq<Word>)
    requires rom != [] && HoldsWords(y.data, o, rom[..|rom| - 1])
    requires ChangesOnly(x, y, o, 4 * (|rom| - 1)) && ChangesOnly(y, z, o + 4 * (|rom| - 1), 4)
    requires z.data == Splice(y.data, o + 4 * (|rom| - 1), Decompose(rom[|rom| - 1], WORD))
    ensures ChangesOnly(x, z, o, 4 * |rom|) && HoldsWords(z.data, o, rom)
  {
    ChangesCompose(x, y, z, o, 4 * (|rom| - 1), 4);
    SpliceWord(y.data, o, rom);
  }

  lemma NextWordStorable(b: BusImage, base: nat, n: nat, mid: BusImage)
    requires b.Valid() && mid.Valid() && WordsStorable(b, base, n + 1)
    requires mid == b.(ram := mid.ram, flags := mid.flags)
    requires ChangesOnly(b.ram, mid.ram, base - b.ram.base, 4 * n)
    ensures ReadsBack(mid, base + 4 * n, 4)
  {
    assert WordServed(b.devices, base, n);
  }

  lemma SpliceWord(data: seq<Byte>, o: nat, rom: seq<Word>)
    requires rom != [] && o + 4 * |rom| <= |data| && HoldsWords(data, o, rom[..|rom| - 1])
    ensures HoldsWords(Splice(data, o + 4 * (|rom| - 1), Decompose(rom[|rom| - 1], WORD)), o, rom)
  {
    hide Decompose, Splice;
    var n := |rom| - 1;
    var data' := Splice(data, o + 4 * n, Decompose(rom[n], WORD));
    forall k | 0 <= k < |rom|
      ensures data'[o + 4 * k..o + 4 * k + 4] == Decompose(rom[k], WORD)
    {
      if k < n {
        SlicedBefore(data, o + 4 * n, Decompose(rom[n], WORD), o + 4 * k, 4);
        assert rom[..n][k] == rom[k];
      } else {
        SplicedSlice(data, o + 4 * n, Decompose(rom[n], WORD));
      }
    }
  }

  lemma SlicedBefore(s: seq<Byte>, o: nat, t: seq<Byte>, a: nat, n: nat)
    requires o + |t| <= |s| && a + n <= o
    ensures Splice(s, o, t)[a..a + n] == s[a..a + n]
  {
  }

  /** load_into_ram; size counts bytes, and a trailing part of a word is dropped. */
  method LoadIntoRam(bus: BusUnit, base: nat, rom: seq<Word>, size: nat) returns (ok: bool)
    requires bus.Valid() && |rom| >= size / 4
    modifies bus`states, bus`status, bus`held, bus.mmu`status, bus.mmu.data, bus.mmu.perm, bus.mmu.dirty
    ensures bus.Valid()
    ensures ok <==> StoreWords(old(bus.Value()), base, rom[..size / 4]).Returns?
    ensures ok ==> bus.Value() == StoreWords(old(bus.Value()), base, rom[..size / 4]).value
  {
    hide WriteSingle;
    var i := 0;
    while i < size / 4
      invariant 0 <= i <= size / 4
      invariant bus.Valid()
      invariant StoreWords(old(bus.Value()), base, rom[..i]) == Returns(bus.Value())
    {
      assert rom[..i + 1][..i] == rom[..i];
      ok := bus.Store(base + 4 * i, rom[i], WORD);
      if !ok {
        assert rom[..size / 4][..i + 1] == rom[..i + 1];
        assert StoreWords(old(bus.Value()), base, rom[..i + 1]).Halts?;
        HaltingPrefix(old(bus.Value()), base, rom[..size / 4], i + 1);
        return false;
      }
      i := i + 1;
    }
    return true;
  }

  lemma {:induction false} HaltingPrefix(b: BusImage, base: nat, rom: seq<Word>, n: nat)
    requires b.Valid() && n <= |rom| && StoreWords(b, base, rom[..n]).Halts?
    ensures StoreWords(b, base, rom).Halts?
    decreases |rom|
  {
    if n == |rom| {
      assert rom[..n] == rom;
    } else {
      assert rom[..|rom| - 1][..n] == rom[..n];
      HaltingPrefix(b, base, rom[..|rom| - 1], n);
    }
  }

  // ----- the mutex -----

  datatype BusOp =
    | LoadOp(offs: nat, width: Width, junk: Byte)
    | StoreOp(offs: nat, value: Word, width: Width)
    | LoadBlockOp(offs: nat, count: nat, width: Width)
    | StoreBlockOp(offs: nat, src: seq<Byte>, count: nat)

  function ApplyBus(b: BusImage, op: BusOp): (r: Outcome<BusImage>)
    requires b.Valid()
    ensures r.Returns? ==> r.value.Valid()
  {
    match op
    case LoadOp(offs, width, junk) =>
      (match ReadSingle(b, offs, width, junk) case Halts => Halts case Returns(r) => Returns(r.bus))
    case StoreOp(offs, value, width) => WriteSingle(b, offs, value, width)
    case LoadBlockOp(offs, count, width) =>
      (match ReadMultiple(b, offs, count, width) case Halts => Halts case Returns(r) => Returns(r.bus))
    case StoreBlockOp(offs, src, count) =>
      (match WriteMultiple(b, offs, src, count) case Halts => Halts case Returns(r) => Returns(r.bus))
  }

  function RunBus(b: BusImage, ops: seq<BusOp>): (r: Outcome<BusImage>)
    requires b.Valid()
    ensures r.Returns? ==> r.value.Valid()
  {
    if ops == [] then Returns(b)
    else
      match RunBus(b, ops[..|ops| - 1])
      case Halts => Halts
      case Returns(b') => ApplyBus(b', ops[|ops| - 1])
  }

  /** A block store at a mapped address whose byte count is not its element count, or, when
      the MMU refuses the range, whose element count is not 0. */
  predicate Unbalanced(b: BusImage, op: BusOp)
    requires b.Valid()
  {
    && op.StoreBlockOp?
    && FindDevice(b.devices, op.offs).Some?
    && op.count != if b.ram.InRange(op.offs, |op.src|) && b.ram.Allows(op.offs, |op.src|, MPERM_WRITE)
                   then |op.src| else 0
  }

  /** A transaction that returns gives the mutex back unless it is such a block store. */
  lemma LockAfter(b: BusImage, op: BusOp)
    requires b.Valid()
    ensures b.held ==> ApplyBus(b, op).Halts?
    ensures ApplyBus(b, op).Returns? ==> (ApplyBus(b, op).value.held <==> Unbalanced(b, op))
  {
  }

  /** A run of transactions that returns leaves the mutex held exactly when its last
      transaction is an unbalanced block store; every earlier one was balanced, because
      the next transaction after an unbalanced one waits for the mutex forever. */
  lemma {:induction false} LockBalance(b: BusImage, ops: seq<BusOp>)
    requires b.Valid() && !b.held && RunBus(b, ops).Returns?
    ensures RunBus(b, ops).value.held
            <==> ops != [] && RunBus(b, ops[..|ops| - 1]).Returns?
                 && Unbalanced(RunBus(b, ops[..|ops| - 1]).value, ops[|ops| - 1])
    ensures forall j :: 0 <= j < |ops| - 1 ==>
              RunBus(b, ops[..j]).Returns? && !Unbalanced(RunBus(b, ops[..j]).value, ops[j])
    decreases |ops|
  {
    if ops != [] {
      var n := |ops| - 1;
      LockBalance(b, ops[..n]);
      var before := RunBus(b, ops[..n]).value;
      LockAfter(before, ops[n]);
      forall j | 0 <= j < n
        ensures RunBus(b, ops[..j]).Returns? && !Unbalanced(RunBus(b, ops[..j]).value, ops[j])
      {
        assert ops[..n][..j] == ops[..j];
        if j == n - 1 {
          assert !before.held;
        }
      }
    }
  }

  /** A block store of words or halfwords always keeps the mutex, even when all its bytes
      have been written. */
  lemma WideBlockStoreKeepsLock(b: BusImage, offs: nat, src: seq<Byte>, count: nat, width: Width)
    requires b.Valid() && 0 < count && |src| == count * width.Bytes() && !width.BYTE?
    requires FindDevice(b.devices, offs).Some? && WriteMultiple(b, offs, src, count).Returns?
    ensures WriteMultiple(b, offs, src, count).value.bus.held
    ensures WriteMultiple(b, offs, src, count).value.bus.ram == Write(b.ram, src, offs).image
  {
    assert count < count * width.Bytes();
  }
}
