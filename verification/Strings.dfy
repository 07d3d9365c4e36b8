/** bus_read_string of src/bus.c: a loop of byte loads up to a zero. */
module Strings {
  import opened Words
  import opened Mmu
  import opened Bus
  import BusLaws

  datatype StringRead = StringRead(bus: BusImage, bytes: seq<Byte>)

  /** The loop from an address on; bytes is what it writes to the destination. */
  function ReadString(b: BusImage, offs: nat, junk: Byte): (r: Outcome<StringRead>)
    requires b.Valid()
    ensures r.Returns? ==> r.value.bus.Valid()
    decreases if offs < U32_LIMIT then U32_LIMIT - offs else 0
  {
    match ReadSingle(b, offs, BYTE, junk)
    case Halts => Halts
    case Returns(got) =>
      var c := ByteOf(got.value, 0);
      if c == 0 || got.bus.flags.bus != BusOk then Returns(StringRead(got.bus, [c]))
      else
        MappedBelowLimit(b, offs, junk);
        match ReadString(got.bus, offs + 1, junk)
        case Halts => Halts
        case Returns(rest) => Returns(StringRead(rest.bus, [c] + rest.bytes))
  }

  /** Every device ends below the 32-bit limit, so that the loop comes to an end. */
  lemma MappedBelowLimit(b: BusImage, offs: nat, junk: Byte)
    requires b.Valid() && ReadSingle(b, offs, BYTE, junk).Returns?
    requires ReadSingle(b, offs, BYTE, junk).value.bus.flags.bus == BusOk
    ensures offs < U32_LIMIT
  {
  }

  lemma ByteLoadKeeps(b: BusImage, offs: nat, junk: Byte)
    requires b.Valid() && !b.held
    ensures ReadSingle(b, offs, BYTE, junk).Returns?
    ensures var g := ReadSingle(b, offs, BYTE, junk).value;
            && g.bus == b.(flags := g.bus.flags)
            && (g.bus.flags.bus == if FindDevice(b.devices, offs).Some? then BusOk else AddressNotFound)
  {
  }

  /** The string ends at the first zero byte, or at the first address that no device holds;
      memory and the mutex are as before, and no byte before the last is zero. */
  lemma {:induction false} StringEnds(b: BusImage, offs: nat, junk: Byte)
    requires b.Valid() && !b.held
    ensures ReadString(b, offs, junk).Returns?
    ensures var r := ReadString(b, offs, junk).value;
            var n := |r.bytes| - 1;
            && 0 <= n && r.bus == b.(flags := r.bus.flags)
            && (forall k :: 0 <= k < n ==> r.bytes[k] != 0)
            && (forall k :: offs <= k < offs + n ==> FindDevice(b.devices, k).Some?)
            && (r.bytes[n] == 0 || FindDevice(b.devices, offs + n).None?)
            && (r.bus.flags.bus == BusOk <==> FindDevice(b.devices, offs + n).Some?)
    decreases if offs < U32_LIMIT then U32_LIMIT - offs else 0
  {
    hide ReadSingle, FindDevice, ByteOf;
    ByteLoadKeeps(b, offs, junk);
    var g := ReadSingle(b, offs, BYTE, junk).value;
    if ByteOf(g.value, 0) != 0 && g.bus.flags.bus == BusOk {
      MappedBelowLimit(b, offs, junk);
      StringEnds(g.bus, offs + 1, junk);
    }
  }

  /** The range holds a string: n bytes that are not zero and then one that is, all readable
      and served by RAM. */
  predicate HoldsString(b: BusImage, offs: nat, n: nat)
    requires b.Valid()
  {
    && b.ram.InRange(offs, n + 1)
    && BusLaws.ServesRange(b.devices, offs, n + 1)
    && (forall i :: offs - b.ram.base <= i <= offs - b.ram.base + n ==> b.ram.perm[i].read)
    && (forall i :: offs - b.ram.base <= i < offs - b.ram.base + n ==> b.ram.data[i] != 0)
    && b.ram.data[offs - b.ram.base + n] == 0
  }

  lemma HoldsRest(b: BusImage, g: BusImage, offs: nat, n: nat)
    requires b.Valid() && g.Valid() && HoldsString(b, offs, n) && 0 < n && g == b.(flags := g.flags)
    ensures HoldsString(g, offs + 1, n - 1)
  {
    hide BusLaws.ServedByRam;
  }

  /** The first byte of a string, as it is loaded. */
  lemma FirstByte(b: BusImage, offs: nat, n: nat, junk: Byte)
    requires b.Valid() && !b.held && HoldsString(b, offs, n)
    ensures ReadSingle(b, offs, BYTE, junk).Returns?
    ensures var g := ReadSingle(b, offs, BYTE, junk).value;
            && g.bus == b.(flags := g.bus.flags) && g.bus.flags.bus == BusOk
            && ByteOf(g.value, 0) == b.ram.data[offs - b.ram.base]
    ensures b.ram.InRange(offs, n + 1) && (n == 0 <==> b.ram.data[offs - b.ram.base] == 0)
  {
    hide ReadSingle, ByteOf;
    ByteLoadKeeps(b, offs, junk);
    BusLaws.LoadByteReturnsByte(b, offs, junk);
  }

  /** Where memory holds a string, exactly that string is read, with its final zero. */
  lemma {:induction false} StringIsRead(b: BusImage, offs: nat, n: nat, junk: Byte)
    requires b.Valid() && !b.held && HoldsString(b, offs, n)
    ensures ReadString(b, offs, junk).Returns?
    ensures ReadString(b, offs, junk).value.bytes == b.ram.data[offs - b.ram.base..offs - b.ram.base + n + 1]
    ensures ReadString(b, offs, junk).value.bus.flags.bus == BusOk
    decreases n
  {
    hide ReadSingle, ByteOf, HoldsString;
    FirstByte(b, offs, n, junk);
    var g := ReadSingle(b, offs, BYTE, junk).value;
    if n > 0 {
      HoldsRest(b, g.bus, offs, n);
      StringIsRead(g.bus, offs + 1, n - 1, junk);
    }
  }

  /** What has been read before, followed by what the loop still reads. */
  function Prefixed(dst: seq<Byte>, r: Outcome<StringRead>): Outcome<StringRead> {
    match r
    case Halts => Halts
    case Returns(rest) => Returns(StringRead(rest.bus, dst + rest.bytes))
  }

  lemma PrefixedTwice(dst: seq<Byte>, c: Byte, r: Outcome<StringRead>)
    ensures Prefixed([], r) == r
    ensures Prefixed(dst, Prefixed([c], r)) == Prefixed(dst + [c], r)
  {
    if r.Returns? {
      assert [] + r.value.bytes == r.value.bytes;
      assert dst + ([c] + r.value.bytes) == (dst + [c]) + r.value.bytes;
    }
  }

  /** bus_read_string */
  method LoadString(bus: BusUnit, offs: nat, junk: Byte) returns (r: Option<seq<Byte>>)
    requires bus.Valid()
    modifies bus`states, bus`status, bus`held, bus.mmu`status
    ensures bus.Valid()
    ensures r.Some? <==> ReadString(old(bus.Value()), offs, junk).Returns?
    ensures r.Some? ==> StringRead(bus.Value(), r.value) == ReadString(old(bus.Value()), offs, junk).value
  {
    hide ReadSingle, ByteOf;
    ghost var start := bus.Value();
    var dst: seq<Byte> := [];
    PrefixedTwice(dst, 0, ReadString(start, offs, junk));
    while true
      invariant bus.Valid()
      invariant ReadString(start, offs, junk) == Prefixed(dst, ReadString(bus.Value(), offs + |dst|, junk))
      decreases if offs + |dst| < U32_LIMIT then U32_LIMIT - (offs + |dst|) else 0
    {
      ghost var before := bus.Value();
      var got := bus.Load(offs + |dst|, BYTE, junk);
      if got.None? {
        return None;
      }
      var c := ByteOf(got.value, 0);
      if c == 0 || bus.status != BusOk {
        return Some(dst + [c]);
      }
      MappedBelowLimit(before, offs + |dst|, junk);
      PrefixedTwice(dst, c, ReadString(bus.Value(), offs + |dst| + 1, junk));
      dst := dst + [c];
    }
  }
}
