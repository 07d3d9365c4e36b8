/** The byte-granular memory management unit of src/mmu.c.

    An Image is the value of an MMU: the operations are functions on images, and
    the class MmuUnit updates its arrays in place and is proved against them. */
module Mmu {
  import opened Words

  // ----- permissions -----

  /** mperm_t: a mask of four permission bits. */
  datatype Perm = Perm(exec: bool, write: bool, read: bool, raw: bool) {
    function And(p: Perm): Perm {
      Perm(exec && p.exec, write && p.write, read && p.read, raw && p.raw)
    }

    function Or(p: Perm): Perm {
      Perm(exec || p.exec, write || p.write, read || p.read, raw || p.raw)
    }
  }

  const NO_PERM := Perm(false, false, false, false)
  const MPERM_EXEC := Perm(true, false, false, false)
  const MPERM_WRITE := Perm(false, true, false, false)
  const MPERM_READ := Perm(false, false, true, false)
  const MPERM_RAW := Perm(false, false, false, true)
  const WRITE_RAW := MPERM_WRITE.Or(MPERM_RAW)

  /** The test mmu_check_access makes on one byte. */
  predicate Grants(p: Perm, wanted: Perm) {
    || p.And(MPERM_READ) == wanted
    || p.And(MPERM_WRITE) == wanted
    || p.And(MPERM_EXEC) == wanted
    || (p.And(MPERM_RAW) == MPERM_RAW && wanted == MPERM_WRITE)
  }

  /** What a write leaves of the permissions of a byte. */
  function AfterWrite(p: Perm): Perm {
    if p.And(MPERM_RAW) == MPERM_RAW
    then MPERM_READ.Or(MPERM_WRITE).Or(p.And(MPERM_EXEC))
    else p
  }

  // ----- images -----

  const DIRTY_PAGE_SIZE: nat := 64

  datatype MmuStatus = MmuOk | ReadPageFault | WritePageFault | AccessDenied

  datatype Image = Image(base: nat, size: nat, cursor: nat, data: seq<Byte>, perm: seq<Perm>, dirty: seq<bool>) {
    predicate Valid() {
      && base < U32_LIMIT
      && |data| == size
      && |perm| == size
      && |dirty| == size / DIRTY_PAGE_SIZE + 1
    }

    predicate InRange(addr: nat, n: nat) {
      base <= addr && addr + n <= base + size
    }

    /** mmu_check_access on a range inside the image. */
    predicate Allows(addr: nat, n: nat, wanted: Perm)
      requires Valid() && InRange(addr, n)
    {
      forall i :: addr - base <= i < addr - base + n ==> Grants(perm[i], wanted)
    }
  }

  function Fill<T>(n: nat, x: T): (s: seq<T>)
    ensures |s| == n
    ensures forall i :: 0 <= i < n ==> s[i] == x
  {
    seq(n, _ => x)
  }

  /** mmu_init */
  function Init(base: nat, size: nat): (img: Image)
    requires base < U32_LIMIT
    ensures img.Valid()
  {
    Image(base, size, base, Fill(size, 0), Fill(size, WRITE_RAW), Fill(size / DIRTY_PAGE_SIZE + 1, false))
  }

  /** mmu_setperm: the two range assertions, then the loop. */
  function SetPerm(img: Image, addr: nat, n: nat, p: Perm): (r: Outcome<Image>)
    requires img.Valid()
    ensures r.Returns? ==> r.value.Valid()
  {
    if !img.InRange(addr, n) then Halts
    else Returns(img.(perm := Splice(img.perm, addr - img.base, Fill(n, p))))
  }

  /** mmu_add_memory. An address below the base fails an assertion; a range past the
      end makes the unit resize its permissions to too few bytes and write past them. */
  function AddMemory(img: Image, addr: nat, n: nat, p: Perm): (r: Outcome<Image>)
    requires img.Valid()
    ensures r.Returns? ==> r.value.Valid()
  {
    if addr < img.base then Halts
    else if addr + n > img.base + img.size then Halts
    else SetPerm(img.(cursor := addr + n), addr, n, p)
  }

  /** (size + 0x0f) & 0xfffffff0, where the mask is a 32-bit constant. */
  function RoundUp(n: nat): nat {
    (n + 15) % U32_LIMIT / 16 * 16
  }

  datatype Allocated = Allocated(image: Image, addr: nat)

  /** mmu_allocate; address 0 reports failure. */
  function Allocate(img: Image, n: nat, p: Perm): (r: Outcome<Allocated>)
    requires img.Valid()
    ensures r.Returns? ==> r.value.image.Valid()
  {
    var curr := img.cursor % U32_LIMIT;
    var aligned := RoundUp(n);
    if curr + aligned >= img.base + img.size then Returns(Allocated(img, 0))
    else if !(curr + aligned > aligned) then Halts
    else
      match SetPerm(img.(cursor := curr + aligned), curr, n, p)
      case Halts => Halts
      case Returns(img') => Returns(Allocated(img', curr))
  }

  datatype Written = Written(image: Image, status: MmuStatus, count: nat)

  function Promote(ps: seq<Perm>): (r: seq<Perm>)
    ensures |r| == |ps|
    ensures forall i :: 0 <= i < |ps| ==> r[i] == AfterWrite(ps[i])
  {
    seq(|ps|, i requires 0 <= i < |ps| => AfterWrite(ps[i]))
  }

  function Mark(dirty: seq<bool>, first: nat, end: nat): (r: seq<bool>)
    ensures |r| == |dirty|
    ensures forall i :: 0 <= i < |r| ==> r[i] == (dirty[i] || first <= i < end)
  {
    seq(|dirty|, i requires 0 <= i < |dirty| => dirty[i] || first <= i < end)
  }

  /** mmu_write_from */
  function Write(img: Image, src: seq<Byte>, addr: nat): (r: Written)
    requires img.Valid()
    ensures r.image.Valid()
  {
    var n := |src|;
    if !img.InRange(addr, n) then Written(img, ReadPageFault, 0)
    else if !img.Allows(addr, n, MPERM_WRITE) then Written(img, AccessDenied, 0)
    else
      var o := addr - img.base;
      Written(img.(data := Splice(img.data, o, src),
                   perm := Splice(img.perm, o, Promote(img.perm[o..o + n])),
                   dirty := Mark(img.dirty, o / DIRTY_PAGE_SIZE, (o + n) / DIRTY_PAGE_SIZE)),
              MmuOk, n)
  }

  datatype ReadBack = ReadBack(status: MmuStatus, bytes: seq<Byte>)

  /** mmu_read_into; the bytes returned are the ones copied out. */
  function Read(img: Image, addr: nat, n: nat): (r: ReadBack)
    requires img.Valid()
    ensures r.status.MmuOk? ==> |r.bytes| == n
    ensures !r.status.MmuOk? ==> r.bytes == []
  {
    if !img.InRange(addr, n) then ReadBack(WritePageFault, [])
    else if img.Allows(addr, n, MPERM_READ) then ReadBack(MmuOk, img.data[addr - img.base..addr - img.base + n])
    else ReadBack(AccessDenied, [])
  }

  // ----- the unit itself -----

  class MmuUnit {
    const base: nat
    const size: nat
    var cursor: nat
    const data: array<Byte>
    const perm: array<Perm>
    const dirty: array<bool>
    var status: MmuStatus

    ghost predicate Valid()
      reads this
    {
      && base < U32_LIMIT
      && data.Length == size
      && perm.Length == size
      && dirty.Length == size / DIRTY_PAGE_SIZE + 1
      && data as object != perm && data as object != dirty && perm as object != dirty
    }

    ghost function Value(): (img: Image)
      requires Valid()
      reads this, data, perm, dirty
      ensures img.Valid()
    {
      Image(base, size, cursor, data[..], perm[..], dirty[..])
    }

    /** mmu_init */
    constructor (base: nat, size: nat)
      requires base < U32_LIMIT
      ensures Valid() && fresh(data) && fresh(perm) && fresh(dirty)
      ensures Value() == Init(base, size)
    {
      this.base := base;
      this.size := size;
      cursor := base;
      data := new Byte[size](_ => 0);
      perm := new Perm[size](_ => NO_PERM);
      dirty := new bool[size / DIRTY_PAGE_SIZE + 1](_ => false);
      status := MmuOk;
      new;
      ghost var zero := Value();
      var _ := SetPermissions(base, size, WRITE_RAW);
      assert perm[..] == Fill(size, WRITE_RAW);
    }

    /** mmu_setperm */
    method SetPermissions(addr: nat, n: nat, p: Perm) returns (ok: bool)
      requires Valid()
      modifies perm
      ensures Valid()
      ensures ok <==> SetPerm(old(Value()), addr, n, p).Returns?
      ensures ok ==> Value() == SetPerm(old(Value()), addr, n, p).value
      ensures !ok ==> Value() == old(Value())
    {
      if addr < base || addr + n > base + size {
        return false;
      }
      var i := addr - base;
      while i < addr - base + n
        invariant addr - base <= i <= addr - base + n
        invariant forall k :: 0 <= k < size ==>
                    perm[k] == if addr - base <= k < i then p else old(perm[k])
      {
        perm[i] := p;
        i := i + 1;
      }
      assert perm[..] == Splice(old(perm[..]), addr - base, Fill(n, p));
      assert data[..] == old(data[..]) && dirty[..] == old(dirty[..]);
      return true;
    }

    /** mmu_add_memory */
    method AddRegion(addr: nat, n: nat, p: Perm) returns (ok: bool)
      requires Valid()
      modifies this`cursor, perm
      ensures Valid()
      ensures ok <==> AddMemory(old(Value()), addr, n, p).Returns?
      ensures ok ==> Value() == AddMemory(old(Value()), addr, n, p).value
    {
      if addr < base {
        return false;
      }
      if addr + n > base + size {
        return false;
      }
      cursor := addr + n;
      ok := SetPermissions(addr, n, p);
    }

    /** mmu_allocate */
    method AllocateBlock(n: nat, p: Perm) returns (addr: Option<nat>)
      requires Valid()
      modifies this`cursor, perm
      ensures Valid()
      ensures addr.Some? <==> Allocate(old(Value()), n, p).Returns?
      ensures addr.Some? ==> Allocated(Value(), addr.value) == Allocate(old(Value()), n, p).value
    {
      var aligned := (n + 15) % U32_LIMIT / 16 * 16;
      var curr := cursor % U32_LIMIT;
      if curr + aligned >= base + size {
        return Some(0);
      }
      cursor := curr + aligned;
      if !(cursor > aligned) {
        return None;
      }
      var ok := SetPermissions(curr, n, p);
      return if ok then Some(curr) else None;
    }

    /** mmu_check_access */
    method CheckAccess(addr: nat, n: nat, wanted: Perm) returns (granted: bool)
      requires Valid() && Value().InRange(addr, n)
      ensures granted <==> Value().Allows(addr, n, wanted)
    {
      var i := addr - base;
      while i < addr - base + n
        invariant addr - base <= i <= addr - base + n
        invariant forall k :: addr - base <= k < i ==> Grants(perm[k], wanted)
      {
        if !Grants(perm[i], wanted) {
          assert !Grants(Value().perm[i], wanted);
          return false;
        }
        i := i + 1;
      }
      return true;
    }

    /** mmu_write_from */
    method WriteFrom(src: seq<Byte>, addr: nat) returns (count: nat)
      requires Valid()
      modifies this`status, data, perm, dirty
      ensures Valid()
      ensures Written(Value(), status, count) == Write(old(Value()), src, addr)
    {
      var n := |src|;
      if addr < base || addr + n > base + size {
        status := ReadPageFault;
        return 0;
      }
      var granted := CheckAccess(addr, n, MPERM_WRITE);
      if !granted {
        status := AccessDenied;
        return 0;
      }
      status := MmuOk;
      StoreBytes(src, addr - base);
      return n;
    }

    /** The part of mmu_write_from past its checks. */
    method StoreBytes(src: seq<Byte>, o: nat)
      requires Valid() && o + |src| <= size
      modifies data, perm, dirty
      ensures data[..] == Splice(old(data[..]), o, src)
      ensures perm[..] == Splice(old(perm[..]), o, Promote(old(perm[o..o + |src|])))
      ensures dirty[..] == Mark(old(dirty[..]), o / DIRTY_PAGE_SIZE, (o + |src|) / DIRTY_PAGE_SIZE)
    {
      CopyIn(src, o);
      assert perm[..] == old(perm[..]) && dirty[..] == old(dirty[..]);
      assert perm[o..o + |src|] == old(perm[o..o + |src|]);
      PromoteRange(o, |src|);
      assert dirty[..] == old(dirty[..]);
      MarkRange(o / DIRTY_PAGE_SIZE, (o + |src|) / DIRTY_PAGE_SIZE);
      assert data[..] == Splice(old(data[..]), o, src);
      assert perm[..] == Splice(old(perm[..]), o, Promote(old(perm[o..o + |src|])));
    }

    /** The memcpy of mmu_write_from. */
    method CopyIn(src: seq<Byte>, o: nat)
      requires Valid() && o + |src| <= size
      modifies data
      ensures data[..] == Splice(old(data[..]), o, src)
    {
      var k := 0;
      while k < |src|
        invariant 0 <= k <= |src|
        invariant forall i :: 0 <= i < size ==>
                    data[i] == if o <= i < o + k then src[i - o] else old(data[i])
      {
        data[o + k] := src[k];
        k := k + 1;
      }
    }

    /** The permission update of mmu_write_from. */
    method PromoteRange(o: nat, n: nat)
      requires Valid() && o + n <= size
      modifies perm
      ensures perm[..] == Splice(old(perm[..]), o, Promote(old(perm[o..o + n])))
    {
      var i := o;
      while i < o + n
        invariant o <= i <= o + n
        invariant forall k :: 0 <= k < size ==>
                    perm[k] == if o <= k < i then AfterWrite(old(perm[k])) else old(perm[k])
      {
        if perm[i].And(MPERM_RAW) == MPERM_RAW {
          perm[i] := MPERM_READ.Or(MPERM_WRITE).Or(perm[i].And(MPERM_EXEC));
        }
        i := i + 1;
      }
    }

    /** The dirty marks of mmu_write_from. */
    method MarkRange(first: nat, end: nat)
      requires Valid() && first <= end < dirty.Length
      modifies dirty
      ensures dirty[..] == Mark(old(dirty[..]), first, end)
    {
      var i := first;
      while i < end
        invariant first <= i <= end
        invariant forall k :: 0 <= k < dirty.Length ==> dirty[k] == (old(dirty[k]) || first <= k < i)
      {
        dirty[i] := true;
        i := i + 1;
      }
    }

    /** mmu_read_into */
    method ReadInto(addr: nat, n: nat) returns (bytes: seq<Byte>)
      requires Valid()
      modifies this`status
      ensures Valid() && Value() == old(Value())
      ensures ReadBack(status, bytes) == Read(old(Value()), addr, n)
    {
      if addr < base || addr + n > base + size {
        status := WritePageFault;
        return [];
      }
      var granted := CheckAccess(addr, n, MPERM_READ);
      if granted {
        bytes := data[addr - base..addr - base + n];
        status := MmuOk;
      } else {
        status := AccessDenied;
        bytes := [];
      }
    }
  }
}
