/** What an MMU holds after any sequence of operations, told from the sequence alone. */
module History {
  import opened Words
  import opened Mmu
  import opened Allocator

  datatype Op =
    | SetPermOp(addr: nat, n: nat, perm: Perm)
    | AddMemoryOp(addr: nat, n: nat, perm: Perm)
    | AllocateOp(n: nat, perm: Perm)
    | WriteOp(addr: nat, bytes: seq<Byte>)
    | ReadOp(addr: nat, n: nat)

  function Apply(img: Image, op: Op): (r: Outcome<Image>)
    requires img.Valid()
    ensures r.Returns? ==> r.value.Valid() && r.value.base == img.base && r.value.size == img.size
  {
    match op
    case SetPermOp(addr, n, perm) => SetPerm(img, addr, n, perm)
    case AddMemoryOp(addr, n, perm) => AddMemory(img, addr, n, perm)
    case AllocateOp(n, perm) =>
      (match Allocate(img, n, perm)
       case Halts => Halts
       case Returns(r) => Returns(r.image))
    case WriteOp(addr, bytes) => Returns(Write(img, bytes, addr).image)
    case ReadOp(addr, n) => Returns(img)
  }

  function Run(img: Image, ops: seq<Op>): (r: Outcome<Image>)
    requires img.Valid()
    ensures r.Returns? ==> r.value.Valid() && r.value.base == img.base && r.value.size == img.size
  {
    if ops == [] then Returns(img)
    else
      match Run(img, ops[..|ops| - 1])
      case Halts => Halts
      case Returns(img') => Apply(img', ops[|ops| - 1])
  }

  /** The status word after one operation; only reads and writes set it. */
  function StatusOf(img: Image, op: Op, status: MmuStatus): MmuStatus
    requires img.Valid()
  {
    match op
    case WriteOp(addr, bytes) => Write(img, bytes, addr).status
    case ReadOp(addr, n) => Read(img, addr, n).status
    case _ => status
  }

  /** The status word after a run of operations. */
  function StatusAfter(img: Image, ops: seq<Op>, status: MmuStatus): MmuStatus
    requires img.Valid() && Run(img, ops).Returns?
    decreases |ops|
  {
    if ops == [] then status
    else
      var earlier := ops[..|ops| - 1];
      StatusOf(Run(img, earlier).value, ops[|ops| - 1], StatusAfter(img, earlier, status))
  }

  /** A run that halts on the way halts. */
  lemma {:induction false} HaltsForGood(img: Image, ops: seq<Op>, k: nat)
    requires img.Valid() && k <= |ops| && Run(img, ops[..k]).Halts?
    ensures Run(img, ops).Halts?
    decreases |ops|
  {
    if k == |ops| {
      assert ops[..k] == ops;
    } else {
      assert ops[..|ops| - 1][..k] == ops[..k];
      HaltsForGood(img, ops[..|ops| - 1], k);
    }
  }

  predicate SetsStatus(op: Op) { op.WriteOp? || op.ReadOp? }

  lemma StatusStep(img: Image, ops: seq<Op>, status: MmuStatus)
    requires img.Valid() && ops != [] && Run(img, ops).Returns?
    ensures var n := |ops| - 1;
            && Run(img, ops[..n]).Returns?
            && StatusAfter(img, ops, status)
               == StatusOf(Run(img, ops[..n]).value, ops[n], StatusAfter(img, ops[..n], status))
  {
    hide Write, Read, Apply, StatusOf;
  }

  /** The status word after a run is that of the last read or write, on the unit as the
      operations before it left it. */
  lemma {:induction false} StatusIsLast(img: Image, ops: seq<Op>, status: MmuStatus, j: nat)
    requires img.Valid() && Run(img, ops).Returns?
    requires j < |ops| && SetsStatus(ops[j]) && forall k :: j < k < |ops| ==> !SetsStatus(ops[k])
    ensures Run(img, ops[..j]).Returns?
    ensures var before := Run(img, ops[..j]).value;
            StatusAfter(img, ops, status)
            == match ops[j]
               case WriteOp(addr, bytes) => Write(before, bytes, addr).status
               case ReadOp(addr, n) => Read(before, addr, n).status
               case _ => status
    decreases |ops|
  {
    hide Write, Read, Run, StatusAfter;
    StatusStep(img, ops, status);
    var n := |ops| - 1;
    if j < n {
      assert ops[..n][..j] == ops[..j];
      StatusIsLast(img, ops[..n], status, j);
    }
  }

  // ----- one write -----

  /** What the mask comparisons of mmu_check_access come to on one byte. */
  lemma GrantsExactly(p: Perm)
    ensures Grants(p, MPERM_WRITE) <==> p.write || p.raw
    ensures Grants(p, MPERM_READ) <==> p.read
    ensures Grants(p, MPERM_EXEC) <==> p.exec
  {
  }

  /** A range allows writing exactly when each of its bytes is writable or raw, and reading
      exactly when each of its bytes is readable. */
  lemma AllowsExactly(img: Image, addr: nat, n: nat)
    requires img.Valid() && img.InRange(addr, n)
    ensures img.Allows(addr, n, MPERM_WRITE)
            <==> forall i :: addr - img.base <= i < addr - img.base + n ==> img.perm[i].write || img.perm[i].raw
    ensures img.Allows(addr, n, MPERM_READ)
            <==> forall i :: addr - img.base <= i < addr - img.base + n ==> img.perm[i].read
  {
    forall i | 0 <= i < img.size
      ensures Grants(img.perm[i], MPERM_WRITE) <==> img.perm[i].write || img.perm[i].raw
      ensures Grants(img.perm[i], MPERM_READ) <==> img.perm[i].read
    {
      GrantsExactly(img.perm[i]);
    }
  }

  /** A write goes through exactly when its range is inside the unit and each of its
      bytes is writable or not yet written; it then changes its own bytes and no others,
      and takes READ, WRITE or EXEC from no byte. A write that fails changes nothing. */
  lemma WriteIsExact(img: Image, src: seq<Byte>, addr: nat)
    requires img.Valid()
    ensures var r := Write(img, src, addr);
            && (r.status.MmuOk? <==>
                  && img.InRange(addr, |src|)
                  && forall i :: addr - img.base <= i < addr - img.base + |src| ==>
                       img.perm[i].write || img.perm[i].raw)
            && (!r.status.MmuOk? ==> r.image == img && r.count == 0)
            && (r.status.MmuOk? ==>
                  && r.count == |src|
                  && r.image.cursor == img.cursor
                  && forall i :: 0 <= i < img.size ==>
                       r.image.data[i] == if addr <= img.base + i < addr + |src| then src[img.base + i - addr]
                                          else img.data[i])
            && (forall i :: 0 <= i < img.size ==>
                  && (img.perm[i].read ==> r.image.perm[i].read)
                  && (img.perm[i].write ==> r.image.perm[i].write)
                  && (img.perm[i].exec == r.image.perm[i].exec))
  {
    if img.InRange(addr, |src|) {
      AllowsExactly(img, addr, |src|);
    }
  }

  // ----- data and dirty marks, over any sequence -----

  /** Operation j of the run is a write that goes through and covers offset k. */
  ghost predicate Stores(img: Image, ops: seq<Op>, j: nat, k: nat)
    requires img.Valid() && j < |ops|
  {
    && ops[j].WriteOp?
    && ops[j].addr <= img.base + k < ops[j].addr + |ops[j].bytes|
    && Run(img, ops[..j]).Returns?
    && Write(Run(img, ops[..j]).value, ops[j].bytes, ops[j].addr).status.MmuOk?
  }

  /** The value of the last write of the run that covers offset k. */
  function LastStored(img: Image, ops: seq<Op>, k: nat): Option<Byte>
    requires img.Valid()
  {
    if ops == [] then None
    else
      var n := |ops| - 1;
      var op := ops[n];
      if && op.WriteOp?
         && op.addr <= img.base + k < op.addr + |op.bytes|
         && Run(img, ops[..n]).Returns?
         && Write(Run(img, ops[..n]).value, op.bytes, op.addr).status.MmuOk?
      then Some(op.bytes[img.base + k - op.addr])
      else LastStored(img, ops[..n], k)
  }

  /** Over any run, each byte holds the value last stored there, or its first value. */
  lemma {:induction false} LastWriterWins(img: Image, ops: seq<Op>, k: nat)
    requires img.Valid() && k < img.size && Run(img, ops).Returns?
    ensures Run(img, ops).value.data[k] ==
            match LastStored(img, ops, k) { case Some(b) => b case None => img.data[k] }
    decreases |ops|
  {
    if ops != [] {
      LastWriterWins(img, ops[..|ops| - 1], k);
    }
  }

  /** The last byte of page i of 64 bytes. */
  function LastOffset(i: nat): nat { 64 * i + 63 }

  lemma StoresInPrefix(img: Image, ops: seq<Op>, n: nat, j: nat, k: nat)
    requires img.Valid() && j < n <= |ops|
    ensures Stores(img, ops, j, k) <==> Stores(img, ops[..n], j, k)
  {
    hide Run, Write;
    assert ops[..n][..j] == ops[..j];
  }

  /** One operation marks a page exactly when it is a write that stores its last byte. */
  lemma StepMarks(before: Image, op: Op, i: nat)
    requires before.Valid() && i < |before.dirty| && Apply(before, op).Returns?
    ensures |Apply(before, op).value.dirty| == |before.dirty|
    ensures Apply(before, op).value.dirty[i]
            <==> before.dirty[i]
                 || (&& op.WriteOp? && op.addr <= before.base + LastOffset(i) < op.addr + |op.bytes|
                     && Write(before, op.bytes, op.addr).status.MmuOk?)
  {
    hide LastOffset;
    if op.WriteOp? && before.base <= op.addr {
      MarkedPages(op.addr - before.base, |op.bytes|, i);
    }
  }

  /** Over any run, a page is marked dirty exactly when it was marked before or some write
      stored its last byte; so marks are sound, but a page written only in part below its
      last byte stays clean. */
  lemma {:induction false} DirtyExactly(img: Image, ops: seq<Op>, i: nat)
    requires img.Valid() && i < |img.dirty| && Run(img, ops).Returns?
    ensures Run(img, ops).value.dirty[i] <==>
            img.dirty[i] || exists j :: 0 <= j < |ops| && Stores(img, ops, j, LastOffset(i))
    decreases |ops|
  {
    hide Apply, Write, LastOffset;
    if ops != [] {
      var n := |ops| - 1;
      var k := LastOffset(i);
      DirtyExactly(img, ops[..n], i);
      StepMarks(Run(img, ops[..n]).value, ops[n], i);
      forall j | 0 <= j < n
        ensures Stores(img, ops, j, k) <==> Stores(img, ops[..n], j, k)
      {
        StoresInPrefix(img, ops, n, j, k);
      }
      assert Stores(img, ops, n, k) <==>
             && ops[n].WriteOp? && ops[n].addr <= img.base + k < ops[n].addr + |ops[n].bytes|
             && Write(Run(img, ops[..n]).value, ops[n].bytes, ops[n].addr).status.MmuOk?;
    }
  }

  lemma MarkedPages(o: nat, n: nat, i: nat)
    ensures o / DIRTY_PAGE_SIZE <= i < (o + n) / DIRTY_PAGE_SIZE
            <==> o <= LastOffset(i) < o + n
  {
  }

  /** Reads and writes, in any order, never revoke READ, WRITE or EXEC from a byte. */
  lemma {:induction false} PermissionsGrow(img: Image, ops: seq<Op>, k: nat)
    requires img.Valid() && k < img.size
    requires forall op :: op in ops ==> op.WriteOp? || op.ReadOp?
    ensures Run(img, ops).Returns?
    ensures var p := Run(img, ops).value.perm[k];
            && (img.perm[k].read ==> p.read)
            && (img.perm[k].write ==> p.write)
            && (img.perm[k].exec <==> p.exec)
    decreases |ops|
  {
    if ops != [] {
      var n := |ops| - 1;
      PermissionsGrow(img, ops[..n], k);
      if ops[n].WriteOp? {
        WriteIsExact(Run(img, ops[..n]).value, ops[n].bytes, ops[n].addr);
      }
    }
  }

  // ----- read after write -----

  /** The operations of a program that allocates raw memory only. */
  predicate RawOp(op: Op) {
    match op
    case AllocateOp(n, perm) => perm == WRITE_RAW
    case WriteOp(_, _) => true
    case ReadOp(_, _) => true
    case SetPermOp(_, _, _) => false
    case AddMemoryOp(_, _, _) => false
  }

  /** Where the allocator stands after the operations, told from their sizes alone. */
  function CursorAfter(base: nat, size: nat, ops: seq<Op>): nat {
    if ops == [] then base
    else
      var n := |ops| - 1;
      var c := CursorAfter(base, size, ops[..n]);
      if ops[n].AllocateOp? && c + RoundUp(ops[n].n) < base + size then c + RoundUp(ops[n].n) else c
  }

  /** The value stored at offset k since an allocation last covered it, told from the
      operations alone: every write inside the unit stores. */
  function StoredSinceCovered(base: nat, size: nat, ops: seq<Op>, k: nat): Option<Byte> {
    if ops == [] then None
    else
      var n := |ops| - 1;
      var earlier := StoredSinceCovered(base, size, ops[..n], k);
      match ops[n]
      case AllocateOp(m, _) =>
        var c := CursorAfter(base, size, ops[..n]);
        if c + RoundUp(m) < base + size && c <= base + k < c + m then None else earlier
      case WriteOp(addr, bytes) =>
        if base <= addr && addr + |bytes| <= base + size && addr <= base + k < addr + |bytes|
        then Some(bytes[base + k - addr])
        else earlier
      case _ => earlier
  }

  /** The MMU after the operations agrees with what the operations say of each byte. */
  ghost predicate Agrees(base: nat, size: nat, ops: seq<Op>, img: Image) {
    && img.Valid() && img.base == base && img.size == size
    && img.cursor == CursorAfter(base, size, ops)
    && base <= img.cursor <= base + size && img.cursor < U32_LIMIT
    && forall k :: 0 <= k < size ==>
         match StoredSinceCovered(base, size, ops, k)
         case None => img.perm[k] == WRITE_RAW
         case Some(b) => img.perm[k] == MPERM_READ.Or(MPERM_WRITE) && img.data[k] == b
  }

  /** No operation aborts, told from the operations alone: an allocation that passes the size
      test needs a cursor other than 0 and a range inside the unit. */
  predicate Accepted(base: nat, size: nat, ops: seq<Op>)
    decreases |ops|
  {
    ops == []
    || (&& Accepted(base, size, ops[..|ops| - 1])
        && AcceptsNext(base, size, CursorAfter(base, size, ops[..|ops| - 1]), ops[|ops| - 1]))
  }

  predicate AcceptsNext(base: nat, size: nat, c: nat, op: Op) {
    op.AllocateOp? && c + RoundUp(op.n) < base + size ==> 0 < c && c + op.n <= base + size
  }

  lemma AllocateExtends(base: nat, size: nat, ops: seq<Op>, op: Op, k: nat)
    requires op.AllocateOp?
    ensures var c := CursorAfter(base, size, ops);
            var fits := c + RoundUp(op.n) < base + size;
            && CursorAfter(base, size, ops + [op]) == (if fits then c + RoundUp(op.n) else c)
            && StoredSinceCovered(base, size, ops + [op], k)
               == if fits && c <= base + k < c + op.n then None else StoredSinceCovered(base, size, ops, k)
  {
    hide RoundUp;
    assert (ops + [op])[..|ops|] == ops;
  }

  lemma RawAllocateAgrees(base: nat, size: nat, ops: seq<Op>, op: Op, img: Image)
    requires base < U32_LIMIT && base + size <= U32_LIMIT && op.AllocateOp? && RawOp(op)
    requires Agrees(base, size, ops, img)
    ensures Allocate(img, op.n, op.perm).Returns? <==> AcceptsNext(base, size, img.cursor, op)
    ensures Allocate(img, op.n, op.perm).Returns? ==>
              Agrees(base, size, ops + [op], Allocate(img, op.n, op.perm).value.image)
  {
    hide Allocate, RoundUp, StoredSinceCovered, CursorAfter, WRITE_RAW;
    AllocateHaltsExactly(img, op.n, op.perm);
    if Allocate(img, op.n, op.perm).Returns? {
      AllocateOutcome(img, op.n, op.perm);
      forall k | 0 <= k < size
        ensures var c := img.cursor;
                var fits := c + RoundUp(op.n) < base + size;
                && CursorAfter(base, size, ops + [op]) == (if fits then c + RoundUp(op.n) else c)
                && StoredSinceCovered(base, size, ops + [op], k)
                   == if fits && c <= base + k < c + op.n then None else StoredSinceCovered(base, size, ops, k)
      {
        AllocateExtends(base, size, ops, op, k);
      }
      AllocateExtends(base, size, ops, op, 0);
    }
  }

  lemma RawStepAgrees(base: nat, size: nat, ops: seq<Op>, op: Op, img: Image)
    requires base < U32_LIMIT && base + size <= U32_LIMIT && RawOp(op)
    requires Agrees(base, size, ops, img)
    ensures Apply(img, op).Returns? <==> AcceptsNext(base, size, img.cursor, op)
    ensures Apply(img, op).Returns? ==> Agrees(base, size, ops + [op], Apply(img, op).value)
  {
    hide Allocate, Write, RoundUp, Agrees, RawOp;
    match op {
      case AllocateOp(_, _) => RawAllocateAgrees(base, size, ops, op, img);
      case WriteOp(_, _) => RawWriteAgrees(base, size, ops, op, img);
      case ReadOp(_, _) => RawReadAgrees(base, size, ops, op, img);
      case SetPermOp(_, _, _) => OnlyRaw(op);
      case AddMemoryOp(_, _, _) => OnlyRaw(op);
    }
  }

  lemma OnlyRaw(op: Op)
    requires RawOp(op)
    ensures !op.SetPermOp? && !op.AddMemoryOp?
  {
  }

  lemma RawReadAgrees(base: nat, size: nat, ops: seq<Op>, op: Op, img: Image)
    requires Agrees(base, size, ops, img) && op.ReadOp?
    ensures Agrees(base, size, ops + [op], img)
  {
    hide RoundUp;
    assert (ops + [op])[..|ops|] == ops;
  }

  lemma RawWriteAgrees(base: nat, size: nat, ops: seq<Op>, op: Op, img: Image)
    requires Agrees(base, size, ops, img) && op.WriteOp?
    ensures Agrees(base, size, ops + [op], Write(img, op.bytes, op.addr).image)
  {
    hide RoundUp;
    assert (ops + [op])[..|ops|] == ops;
    WriteIsExact(img, op.bytes, op.addr);
  }

  lemma {:induction false} RawRunAgrees(base: nat, size: nat, ops: seq<Op>)
    requires base < U32_LIMIT && base + size <= U32_LIMIT
    requires forall op :: op in ops ==> RawOp(op)
    ensures Run(Init(base, size), ops).Returns? <==> Accepted(base, size, ops)
    ensures Run(Init(base, size), ops).Returns? ==> Agrees(base, size, ops, Run(Init(base, size), ops).value)
    decreases |ops|
  {
    hide Apply, AcceptsNext, RawOp;
    if ops != [] {
      var n := |ops| - 1;
      RawRunAgrees(base, size, ops[..n]);
      if Run(Init(base, size), ops[..n]).Returns? {
        RawStepAgrees(base, size, ops[..n], ops[n], Run(Init(base, size), ops[..n]).value);
        assert ops[..n] + [ops[n]] == ops;
      }
    }
  }

  /** From a base other than 0, allocations whose rounding does not wrap around are accepted. */
  lemma {:induction false} SizedIsAccepted(base: nat, size: nat, ops: seq<Op>)
    requires 0 < base && forall op :: op in ops ==> op.AllocateOp? ==> op.n + 15 < U32_LIMIT
    ensures Accepted(base, size, ops) && base <= CursorAfter(base, size, ops)
    decreases |ops|
  {
    if ops != [] {
      SizedIsAccepted(base, size, ops[..|ops| - 1]);
      if ops[|ops| - 1].AllocateOp? {
        RoundUpCovers(ops[|ops| - 1].n);
      }
    }
  }

  /** Each byte of a range was stored since an allocation last covered it. */
  predicate AllStored(base: nat, size: nat, ops: seq<Op>, addr: nat, n: nat) {
    && base <= addr && addr + n <= base + size
    && forall k :: addr - base <= k < addr - base + n ==> StoredSinceCovered(base, size, ops, k).Some?
  }

  lemma AllowedIffStored(base: nat, size: nat, ops: seq<Op>, img: Image, addr: nat, n: nat)
    requires Agrees(base, size, ops, img)
    ensures AllStored(base, size, ops, addr, n) <==> img.InRange(addr, n) && img.Allows(addr, n, MPERM_READ)
  {
    if img.InRange(addr, n) {
      AllowsExactly(img, addr, n);
      forall k | 0 <= k < size
        ensures img.perm[k].read <==> StoredSinceCovered(base, size, ops, k).Some?
      {
      }
    }
  }

  /** A run of raw allocations of any size, reads and writes returns exactly when it is
      accepted; a read after it succeeds exactly when each byte it covers was stored since an
      allocation last covered it, and then returns the values stored last. */
  lemma ReadAfterWrite(base: nat, size: nat, ops: seq<Op>, addr: nat, n: nat)
    requires base < U32_LIMIT && base + size <= U32_LIMIT
    requires forall op :: op in ops ==> RawOp(op)
    ensures Run(Init(base, size), ops).Returns? <==> Accepted(base, size, ops)
    ensures Run(Init(base, size), ops).Returns? ==>
              var r := Read(Run(Init(base, size), ops).value, addr, n);
              && (r.status.MmuOk? <==> AllStored(base, size, ops, addr, n))
              && (r.status.MmuOk? ==>
                    forall i :: 0 <= i < n ==>
                      StoredSinceCovered(base, size, ops, addr - base + i) == Some(r.bytes[i]))
  {
    hide StoredSinceCovered, Run, Accepted;
    RawRunAgrees(base, size, ops);
    if Run(Init(base, size), ops).Returns? {
      AllowedIffStored(base, size, ops, Run(Init(base, size), ops).value, addr, n);
    }
  }

  /** In such a run every write inside the unit goes through, and no other. */
  lemma RawWritesSucceed(base: nat, size: nat, ops: seq<Op>, addr: nat, bytes: seq<Byte>)
    requires base < U32_LIMIT && base + size <= U32_LIMIT
    requires forall op :: op in ops ==> RawOp(op)
    ensures Run(Init(base, size), ops).Returns? ==>
              (Write(Run(Init(base, size), ops).value, bytes, addr).status.MmuOk?
               <==> base <= addr && addr + |bytes| <= base + size)
  {
    hide Run, Accepted;
    RawRunAgrees(base, size, ops);
    if Run(Init(base, size), ops).Returns? {
      WriteIsExact(Run(Init(base, size), ops).value, bytes, addr);
    }
  }
}
