/**
 RamFS file contents: a buffer on the kernel heap, grown with krealloc, that must behave as a byte
 sequence in which holes read as zeros.
 */
module RamFs {
  import opened Machine
  import opened HeapState
  import opened HeapMemory
  import opened KernelHeap
  import L = LargeTier

  // ---------------------------------------------------------------- the byte sequence

  /** A write at `off`: a gap is filled with zeros, the rest of the file stays. */
  function Written(c: seq<Byte>, off: nat, buf: seq<Byte>): (r: seq<Byte>) {
    var end := off + |buf|;
    var padded := if end > |c| then c + Zeros(end - |c|) else c;
    padded[..off] + buf + padded[end..]
  }

  /** A read of up to len bytes at `off`. */
  function Slice(c: seq<Byte>, off: nat, len: nat): (r: seq<Byte>) {
    if off >= |c| then [] else if off + len > |c| then c[off..] else c[off..off + len]
  }

  function CutTo(c: seq<Byte>, n: nat): (r: seq<Byte>) {
    if n <= |c| then c[..n] else c + Zeros(n - |c|)
  }

  /** A read, byte by byte: it stops at the end of the file. */
  lemma ReadBytes(c: seq<Byte>, off: nat, len: nat)
    ensures var r := Slice(c, off, len);
            && |r| <= len && (|r| == len || off + |r| >= |c|) && (|r| > 0 ==> off + |r| <= |c|)
            && forall i :: 0 <= i < |r| ==> r[i] == c[off + i]
  {
  }

  /** A truncation, byte by byte: the old bytes as far as they go, then zeros. */
  lemma CutBytes(c: seq<Byte>, n: nat)
    ensures var r := CutTo(c, n);
            |r| == n && forall i :: 0 <= i < n ==> r[i] == if i < |c| then c[i] else 0
  {
  }

  /** What any read returns after a write, wherever it starts and however far past the end it reaches. */
  lemma ReadAnywhereAfterWrite(c: seq<Byte>, off: nat, buf: seq<Byte>, at: nat, len: nat, i: nat)
    requires i < |Slice(Written(c, off, buf), at, len)|
    ensures Slice(Written(c, off, buf), at, len)[i] ==
            if off <= at + i < off + |buf| then buf[at + i - off] else if at + i < |c| then c[at + i] else 0
  {
    var w := Written(c, off, buf);
    ReadAfterWrite(c, off, buf, at + i);
    ReadBytes(w, at, len);
    if off <= at + i < off + |buf| {
      ReadBytes(w, off, |buf|);
      assert w[at + i] == Slice(w, off, |buf|)[at + i - off];
    }
  }

  /** What is read back after a write: the buffer where it went, the old bytes or zeros elsewhere. */
  lemma ReadAfterWrite(c: seq<Byte>, off: nat, buf: seq<Byte>, at: nat)
    ensures var w := Written(c, off, buf);
            && |w| == (if off + |buf| > |c| then off + |buf| else |c|)
            && Slice(w, off, |buf|) == buf
            && (at < |w| && !(off <= at < off + |buf|) ==> w[at] == if at < |c| then c[at] else 0)
  {
    var w := Written(c, off, buf);
    if off < |w| {
      assert w[off..off + |buf|] == buf;
    }
  }

  // ---------------------------------------------------------------- bytes in memory

  function BytesAt(m: Mem, a: nat, n: nat): (s: seq<Byte>)
    ensures |s| == n && forall i :: 0 <= i < n ==> s[i] == Peek(m, a, i)
  {
    seq(n, i requires 0 <= i < n => Peek(m, a, i))
  }

  lemma PartOfBytes(m: Mem, a: nat, size: nat, off: nat, n: nat)
    requires off + n <= size
    ensures BytesAt(m, a + off, n) == BytesAt(m, a, size)[off..off + n]
  {
    var part, slice := BytesAt(m, a + off, n), BytesAt(m, a, size)[off..off + n];
    forall i | 0 <= i < n
      ensures part[i] == slice[i]
    {
      assert Peek(m, a + off, i) == Peek(m, a, off + i);
    }
  }

  /** memcpy(a, buf, |buf|). */
  function Stored(m: Mem, a: nat, buf: seq<Byte>): (m': Mem) {
    (x: nat) => if a <= x < a + |buf| then buf[x - a] else m(x)
  }

  /** Bytes from `from` up to `to` of what starts at a are zero. */
  ghost predicate ZeroTail(m: Mem, a: nat, from: nat, to: nat) {
    forall i :: from <= i < to ==> Peek(m, a, i) == 0
  }

  /** A store into the buffer is a write to the sequence, and keeps the tail zero. */
  lemma StoreWrites(m: Mem, a: nat, size: nat, cap: nat, off: nat, buf: seq<Byte>)
    requires size <= cap && off + |buf| <= cap && ZeroTail(m, a, size, cap)
    ensures var m' := Stored(m, a + off, buf);
            var end := if off + |buf| > size then off + |buf| else size;
            && BytesAt(m', a, end) == Written(BytesAt(m, a, size), off, buf)
            && ZeroTail(m', a, end, cap)
  {
    var m' := Stored(m, a + off, buf);
    var end := if off + |buf| > size then off + |buf| else size;
    var w := Written(BytesAt(m, a, size), off, buf);
    assert |w| == end;
    forall i | 0 <= i < end
      ensures BytesAt(m', a, end)[i] == w[i]
    {
      assert Peek(m, a, i) == m(a + i) && Peek(m', a, i) == m'(a + i);
    }
    forall i | end <= i < cap
      ensures Peek(m', a, i) == 0
    {
      assert Peek(m, a, i) == 0;
    }
  }

  /** The new part of a grown buffer is cleared, so the tail is zero again. */
  lemma ClearExtends(m: Mem, a: nat, size: nat, cap: nat, newCap: nat)
    requires size <= cap <= newCap && ZeroTail(m, a, size, cap)
    ensures var m' := Cleared(m, a + cap, newCap - cap);
            BytesAt(m', a, size) == BytesAt(m, a, size) && ZeroTail(m', a, size, newCap)
  {
    var m' := Cleared(m, a + cap, newCap - cap);
    forall i | 0 <= i < size
      ensures Peek(m', a, i) == Peek(m, a, i)
    {
    }
    forall i | size <= i < newCap
      ensures Peek(m', a, i) == 0
    {
      if i < cap {
        assert Peek(m, a, i) == 0;
      }
    }
  }

  lemma ClearShrinks(m: Mem, a: nat, size: nat, cap: nat, n: nat)
    requires n <= size <= cap && ZeroTail(m, a, size, cap)
    ensures var m' := Cleared(m, a + n, size - n);
            BytesAt(m', a, n) == BytesAt(m, a, size)[..n] && ZeroTail(m', a, n, cap)
  {
    var m' := Cleared(m, a + n, size - n);
    forall i | 0 <= i < n
      ensures Peek(m', a, i) == Peek(m, a, i)
    {
    }
    forall i | n <= i < cap
      ensures Peek(m', a, i) == 0
    {
      if size <= i {
        assert Peek(m, a, i) == 0;
      }
    }
  }

  // ---------------------------------------------------------------- other blocks

  /** Every live block but x keeps its place and contents. */
  ghost predicate OthersKept(h: Heap, m: Mem, n: Heap, m': Mem, x: Block) {
    forall y :: y in h.live && y != x ==> y in n.live && Kept(h, m, n, m', y)
  }

  /** m' differs from m only inside the first `cap` bytes of block x. */
  ghost predicate WritesInside(m: Mem, m': Mem, a: nat, cap: nat) {
    forall i: nat :: !(a <= i < a + cap) ==> m'(i) == m(i)
  }

  lemma WriteKeepsOthers(h: Heap, m: Mem, n: Heap, m1: Mem, m2: Mem, x: Block, z: Block, cap: nat)
    requires Inv(n) && z in n.live && cap <= Usable(n.spans, n.slabs, z)
    requires OthersKept(h, m, n, m1, x) && WritesInside(m1, m2, Addr(n.slabs, z), cap)
    requires z == x || z !in h.live
    ensures OthersKept(h, m, n, m2, x)
  {
    hide Inv;
    hide Addr;
    hide Usable;
    forall y | y in h.live && y != x
      ensures y in n.live && Kept(h, m, n, m2, y)
    {
      assert Kept(h, m, n, m1, y) && y != z;
      forall a | Addr(h.slabs, y) <= a < Addr(h.slabs, y) + Usable(h.spans, h.slabs, y)
        ensures m2(a) == m(a)
      {
        CopyMissesOthers(n, z, y, cap, a);
      }
    }
  }

  // ---------------------------------------------------------------- what callers pass

  /** uptr_ok: a user buffer lies below 2^47. */
  predicate UserRange(addr: U64, len: U64) {
    && addr != 0 && len != 0 && addr < 0x7FFF_FFFF_FFFF
    && !(Wrap64(addr + len) < addr) && Wrap64(addr + len) <= 0x7FFF_FFFF_FFFF
  }

  /** vfs_lseek: an offset is a non-negative 64-bit signed number. */
  predicate SeekRange(off: nat) {
    off < 0x8000_0000_0000_0000
  }

  /** So offset and length never come near 2^64, where the sums of ramfs_read and ramfs_write would wrap. */
  lemma CallersStayBelow(addr: U64, len: U64, off: nat)
    requires UserRange(addr, len) && SeekRange(off)
    ensures len < 0x8000_0000_0000 && off + len + 2 * PAGE_SIZE <= TWO64
  {
  }

  /** The length ramfs_read settles on at an offset inside the file, off + len being a uint64_t. */
  function ReadLength(size: U64, off: U64, len: U64): (n: nat)
    requires off < size
  {
    if Wrap64(off + len) > size then size - off else len
  }

  /** It is the length of the slice exactly when the sum does not wrap to somewhere inside the file. */
  lemma ReadLengthExactIff(size: U64, off: U64, len: U64)
    requires off < size
    ensures ReadLength(size, off, len) == (if off + len > size then size - off else len)
       <==> off + len < TWO64 || Wrap64(off + len) > size
  {
  }

  /** ALIGN_UP(end, RAMFS_BLOCK). */
  function CapacityFor(end: nat): (n: nat) {
    (end + PAGE_SIZE - 1) / PAGE_SIZE * PAGE_SIZE
  }

  lemma CapacityFits(end: nat)
    ensures end <= CapacityFor(end) < end + PAGE_SIZE && CapacityFor(end) % PAGE_SIZE == 0
    ensures end + 2 * PAGE_SIZE <= TWO64 ==> CapacityFor(end) + 2 * PAGE_SIZE <= TWO64
  {
  }

  // ---------------------------------------------------------------- files

  class File {
    var data: nat
    var cap: nat
    var size: nat

    /** The buffer is a live block of its own with room for cap bytes; what lies past size is zero. */
    ghost predicate Valid(heap: KernelHeap)
      reads this, heap, heap.mm, heap.mm.pmm, heap.mm.pmm.bitmap
    {
      && heap.Valid()
      && size <= cap
      && (data == 0 ==> cap == 0)
      && (data != 0 ==> IsLive(heap.Snap(), data) && cap <= Usable(heap.spans, heap.slabs, BlockAt(heap.slabs, data)))
      && ZeroTail(heap.mem, data, size, cap)
    }

    ghost function Contents(heap: KernelHeap): (c: seq<Byte>)
      reads this, heap
    {
      BytesAt(heap.mem, data, size)
    }

    /** There is room for `end` bytes: in the buffer, in its block, or in one that krealloc finds. */
    ghost predicate Holds(heap: KernelHeap, end: nat)
      requires heap.Ready() && end + 2 * PAGE_SIZE <= TWO64
      reads this, heap, heap.mm, heap.mm.pmm, heap.mm.pmm.bitmap
    {
      CapacityFits(end);
      || end <= cap
      || (data != 0 && CapacityFor(end) <= Usable(heap.spans, heap.slabs, BlockAt(heap.slabs, data)))
      || heap.Serves(CapacityFor(end))
    }

    constructor ()
      ensures data == 0 && cap == 0 && size == 0
    {
      data, cap, size := 0, 0, 0;
    }

    /** ramfs_read. */
    method Read(heap: KernelHeap, len: U64, off: U64) returns (bytes: seq<Byte>)
      requires Valid(heap) && off + len < TWO64
      ensures bytes == Slice(Contents(heap), off, len)
      ensures |bytes| == (if off >= size then 0 else if len <= size - off then len else size - off)
      ensures forall i :: 0 <= i < |bytes| ==> bytes[i] == Contents(heap)[off + i]
    {
      hide Inv;
      hide Tagged;
      hide KernelHeap.Ready;
      hide Usable;
      hide BlockAt;
      hide ZeroTail;
      hide IsLive;
      if off >= size {
        return [];
      }
      var n := if off + len > size then size - off else len;
      bytes := BytesAt(heap.mem, data + off, n);
      PartOfBytes(heap.mem, data, size, off, n);
    }

    /** The growth step of ramfs_write; false is its -12, and then nothing has changed. */
    method Grow(heap: KernelHeap, end: nat) returns (ok: bool)
      requires Valid(heap) && end > cap && end + 2 * PAGE_SIZE <= TWO64
      modifies this`data, this`cap, heap, heap.mm`tables, heap.mm`data, heap.mm.pmm, heap.mm.pmm.bitmap
      ensures Valid(heap) && Contents(heap) == old(Contents(heap))
      ensures ok <==> old(Holds(heap, end))
      ensures ok ==> end <= cap < end + PAGE_SIZE && cap % PAGE_SIZE == 0 && data != 0
      ensures !ok ==> CapacityFor(end) < TWO64
      ensures !ok ==> Rejects(old(heap.cursor), PagesFor(CapacityFor(end))) || heap.mm.State().pool.free == {}
      ensures !ok ==> data == old(data) && cap == old(cap)
      ensures !ok ==> heap.Snap() == old(heap.Snap()) && heap.mem == old(heap.mem)
      ensures ok ==> OthersKept(old(heap.Snap()), old(heap.mem), heap.Snap(), heap.mem,
                                Mine(old(heap.Snap()), old(data), heap.Snap(), data))
      ensures ok ==> Owns(old(heap.Snap()), old(data), heap.Snap(), data)
    {
      hide Inv;
      hide Tagged;
      hide KernelHeap.Ready;
      hide KernelHeap.Ample;
      hide SpanPages;
      hide Kept;
      hide Addr;
      hide Usable;
      hide BlockAt;
      hide Moved;
      hide Allocated;
      hide OnlyTags;
      hide OthersKept;
      hide ZeroTail;
      hide KernelHeap.Window;
      hide CapacityFor;
      hide KernelHeap.Serves;
      hide PagesFor;
      hide Rejects;
      var newCap := CapacityFor(end);
      CapacityFits(end);
      ghost var h, m := heap.Snap(), heap.mem;
      var newData := heap.Krealloc(data, newCap);
      if newData == 0 {
        return false;
      }
      ghost var n, m1 := heap.Snap(), heap.mem;
      ReallocKeepsFile(h, m, data, n, m1, newData, size, cap, newCap);
      heap.mem := Cleared(heap.mem, newData + cap, newCap - cap);
      WriteKeepsTags(n, m1, heap.mem, newData, newCap);
      ClearExtends(m1, newData, size, cap, newCap);
      WriteKeepsMine(h, m, data, n, m1, heap.mem, newData, newCap);
      assert heap.Snap() == n;
      data, cap := newData, newCap;
      ok := true;
    }

    /**
     ramfs_write. The sum of offset and length must stay clear of 2^64. A failed growth leaves the file
     as it was; otherwise the file is the written sequence. No other live block changes.
     */
    method Write(heap: KernelHeap, buf: seq<Byte>, off: U64) returns (r: int)
      requires Valid(heap) && off + |buf| + 2 * PAGE_SIZE <= TWO64
      modifies this, heap, heap.mm`tables, heap.mm`data, heap.mm.pmm, heap.mm.pmm.bitmap
      ensures Valid(heap) && r == if old(Holds(heap, off + |buf|)) then |buf| else -12
      ensures r == -12 ==> CapacityFor(off + |buf|) < TWO64
      ensures r == -12 ==>
                || Rejects(old(heap.cursor), PagesFor(CapacityFor(off + |buf|)))
                || heap.mm.State().pool.free == {}
      ensures r == -12 ==> Contents(heap) == old(Contents(heap))
      ensures r == -12 ==> heap.Snap() == old(heap.Snap()) && heap.mem == old(heap.mem)
      ensures r == |buf| ==> Contents(heap) == Written(old(Contents(heap)), off, buf)
      ensures r == |buf| ==> OthersKept(old(heap.Snap()), old(heap.mem), heap.Snap(), heap.mem,
                                        Mine(old(heap.Snap()), old(data), heap.Snap(), data))
    {
      hide Inv;
      hide Tagged;
      hide KernelHeap.Ready;
      hide KernelHeap.Ample;
      hide SpanPages;
      hide Kept;
      hide Addr;
      hide Usable;
      hide BlockAt;
      hide OthersKept;
      hide ZeroTail;
      hide Written;
      hide KernelHeap.Serves;
      hide PagesFor;
      hide Rejects;
      hide CapacityFor;
      var end := off + |buf|;
      ghost var h, m := heap.Snap(), heap.mem;
      SameHeapKeepsOthers(h, m, data);
      if end > cap {
        var ok := Grow(heap, end);
        if !ok {
          return -12;
        }
      }
      ghost var n, m1 := heap.Snap(), heap.mem;
      StoreWrites(heap.mem, data, size, cap, off, buf);
      heap.mem := Stored(heap.mem, data + off, buf);
      WriteKeepsTags(n, m1, heap.mem, data, cap);
      WriteKeepsMine(h, m, old(data), n, m1, heap.mem, data, cap);
      assert heap.Snap() == n;
      if end > size {
        size := end;
      }
      r := |buf|;
    }

    /**
     ramfs_truncate. The source raises the size without looking at the capacity: the file stays a proper
     one exactly when the new size fits the buffer, and then it is the old contents cut or zero-extended.
     */
    method Truncate(heap: KernelHeap, newSize: U64)
      requires Valid(heap)
      modifies this`size, heap`mem
      ensures heap.Valid() && data == old(data) && cap == old(cap) && size == newSize
      ensures Valid(heap) <==> newSize <= cap
      ensures newSize <= cap ==> Contents(heap) == CutTo(old(Contents(heap)), newSize)
      ensures newSize <= cap ==>
                forall i :: 0 <= i < newSize ==>
                  Contents(heap)[i] == if i < old(size) then old(Contents(heap))[i] else 0
      ensures OthersKept(old(heap.Snap()), old(heap.mem), heap.Snap(), heap.mem,
                         Mine(old(heap.Snap()), data, heap.Snap(), data))
    {
      hide Inv;
      hide Tagged;
      hide KernelHeap.Ready;
      hide KernelHeap.Ample;
      hide SpanPages;
      hide Kept;
      hide Addr;
      hide Usable;
      hide BlockAt;
      hide OthersKept;
      hide ZeroTail;
      ghost var h, m := heap.Snap(), heap.mem;
      SameHeapKeepsOthers(h, m, data);
      if newSize < size && data != 0 {
        ClearShrinks(heap.mem, data, size, cap, newSize);
        heap.mem := Cleared(heap.mem, data + newSize, size - newSize);
        WriteKeepsTags(h, m, heap.mem, data, cap);
        WriteKeepsMine(h, m, data, h, m, heap.mem, data, cap);
        assert heap.Snap() == h;
      } else if size <= newSize <= cap {
        ZeroExtends(heap.mem, data, size, cap, newSize);
      }
      size := newSize;
      CutBytes(old(Contents(heap)), newSize);
    }
  }

  // ---------------------------------------------------------------- writes past the window

  lemma WindowBounds(h: Heap)
    requires Inv(h)
    ensures L.BASE <= h.cursor <= L.BASE + L.MAX_PAGES
    ensures forall x :: x in h.live ==> Usable(h.spans, h.slabs, x) <= L.MAX_PAGES * PAGE_SIZE
    ensures forall t :: t > L.MAX_PAGES ==> !SomeAdequate(h, t)
  {
    hide Usable;
    hide Addr;
    WindowOf(h);
    TilesOf(h);
    hide Inv;
    forall x | x in h.live
      ensures Usable(h.spans, h.slabs, x) <= L.MAX_PAGES * PAGE_SIZE
    {
      BlockInTile(h, x);
    }
    forall t, b | t > L.MAX_PAGES
      ensures !Adequate(h, b, t)
    {
      assert b in h.spans ==> L.OwnsItsPages(b, h.spans[b].pages, h.owner, h.cursor);
    }
  }

  lemma FarRequest(off: nat)
    requires 0x80_0000_0000 <= off && off + 1 + 2 * PAGE_SIZE <= TWO64
    ensures off < CapacityFor(off + 1) < TWO64
    ensures var t := PagesFor(CapacityFor(off + 1));
            0x800_0000 < t && t * PAGE_SIZE < TWO64 && t == SpanPages(CapacityFor(off + 1))
  {
    CapacityFits(off + 1);
    var size := CapacityFor(off + 1);
    SpanHoldsRequestIffNoWrap(size);
    SpanPagesBound(size);
  }

  /**
   A one-byte write 2^39 bytes out or further: no block can hold it, and the request wraps past the window
   test. So the write fails with every free frame used up.
   */
  lemma FarWriteFails(file: File, heap: KernelHeap, off: nat)
    requires file.Valid(heap) && 0x80_0000_0000 <= off && off + 1 + 2 * PAGE_SIZE <= TWO64
    ensures CapacityFor(off + 1) < TWO64
    ensures !file.Holds(heap, off + 1) && !Rejects(heap.cursor, PagesFor(CapacityFor(off + 1)))
  {
    hide Inv;
    hide Tagged;
    hide KernelHeap.Ready;
    hide KernelHeap.Gets;
    hide Usable;
    hide BlockAt;
    hide SomeAdequate;
    hide SpanPages;
    hide CapacityFor;
    hide Rejects;
    FarRequest(off);
    WindowBounds(heap.Snap());
    RejectsIff(heap.cursor, PagesFor(CapacityFor(off + 1)));
  }

  // ---------------------------------------------------------------- the file's own block

  /** The block a file owns across an operation: the one it had, or else the one it got. */
  ghost function Mine(h: Heap, data: nat, n: Heap, newData: nat): (x: Block) {
    if data != 0 then BlockAt(h.slabs, data) else BlockAt(n.slabs, newData)
  }

  /** That block is the file's buffer, or the buffer is a block nobody had before. */
  ghost predicate Owns(h: Heap, data: nat, n: Heap, newData: nat) {
    Mine(h, data, n, newData) == BlockAt(n.slabs, newData) || BlockAt(n.slabs, newData) !in h.live
  }

  ghost predicate HasBlock(n: Heap, data: nat, cap: nat) {
    Inv(n) && IsLive(n, data) && cap <= Usable(n.spans, n.slabs, BlockAt(n.slabs, data))
  }

  /** krealloc keeps the bytes of the file and the blocks of everybody else. */
  lemma ReallocKeepsFile(h: Heap, m: Mem, data: nat, n: Heap, m1: Mem, newData: nat, size: nat, cap: nat, newCap: nat)
    requires size <= cap && ZeroTail(m, data, size, cap) && IsLive(n, newData)
    requires data == 0 ==> cap == 0 && Inv(n) && OnlyTags(n, m, m1)
    requires data == 0 ==> Allocated(h, n, BlockAt(n.slabs, newData), newCap)
    requires data != 0 ==> HasBlock(h, data, cap)
    requires data != 0 ==> Moved(h, m, BlockAt(h.slabs, data), n, m1, BlockAt(n.slabs, newData), newCap)
    ensures BytesAt(m1, newData, size) == BytesAt(m, data, size) && ZeroTail(m1, newData, size, cap)
    ensures OthersKept(h, m, n, m1, Mine(h, data, n, newData))
    ensures Owns(h, data, n, newData)
  {
    hide Inv;
    hide Addr;
    hide Usable;
    hide BlockAt;
    hide OnlyTags;
    hide Kept;
    if data != 0 {
      forall i | 0 <= i < cap
        ensures Peek(m1, newData, i) == Peek(m, data, i)
      {
      }
    } else {
      forall y | y in h.live
        ensures Kept(h, m, n, m1, y)
      {
        TagsKeepContents(h, n, m, m1, y);
      }
    }
  }

  /** Writing inside the file's own buffer touches no magic word. */
  lemma WriteKeepsTags(n: Heap, m: Mem, m': Mem, data: nat, cap: nat)
    requires Tagged(n, m) && WritesInside(m, m', data, cap)
    requires data != 0 ==> HasBlock(n, data, cap)
    requires data == 0 ==> cap == 0
    ensures Tagged(n, m')
  {
    hide Inv;
    hide Tagged;
    hide Addr;
    hide Usable;
    hide BlockAt;
    if data != 0 {
      StoreKeepsTags(n, m, m', BlockAt(n.slabs, data));
    } else {
      SameBytes(n, m, m');
    }
  }

  lemma SameBytes(n: Heap, m: Mem, m': Mem)
    requires Tagged(n, m) && forall a: nat :: m'(a) == m(a)
    ensures Tagged(n, m')
  {
    hide WordAt;
    hide TagOf;
    forall b: nat | IsTile(n, b)
      ensures WordAt(m', b * PAGE_SIZE) == TagOf(n, b)
    {
      SameWord(m, m', b * PAGE_SIZE);
    }
  }

  /** Writing inside the file's own buffer keeps the blocks of everybody else. */
  lemma WriteKeepsMine(h: Heap, m: Mem, data: nat, n: Heap, m1: Mem, m2: Mem, newData: nat, cap: nat)
    requires newData != 0 ==> HasBlock(n, newData, cap)
    requires newData == 0 ==> cap == 0
    requires WritesInside(m1, m2, newData, cap)
    requires OthersKept(h, m, n, m1, Mine(h, data, n, newData)) && Owns(h, data, n, newData)
    ensures OthersKept(h, m, n, m2, Mine(h, data, n, newData))
  {
    hide Inv;
    hide Addr;
    hide Usable;
    hide BlockAt;
    if newData != 0 {
      WriteKeepsOthers(h, m, n, m1, m2, Mine(h, data, n, newData), BlockAt(n.slabs, newData), cap);
    }
  }

  lemma ZeroExtends(m: Mem, a: nat, size: nat, cap: nat, n: nat)
    requires size <= n <= cap && ZeroTail(m, a, size, cap)
    ensures BytesAt(m, a, n) == CutTo(BytesAt(m, a, size), n) && ZeroTail(m, a, n, cap)
  {
  }

  lemma SameHeapKeepsOthers(h: Heap, m: Mem, data: nat)
    ensures forall x :: OthersKept(h, m, h, m, x)
  {
    hide Addr;
    hide Usable;
  }

  /** A second file on the same heap, with a buffer of its own, is still intact after all of that. */
  lemma OtherFileIntact(h: Heap, m: Mem, n: Heap, m': Mem, x: Block, data: nat, size: nat, cap: nat)
    requires HasBlock(h, data, cap) && size <= cap && ZeroTail(m, data, size, cap)
    requires Inv(n) && OthersKept(h, m, n, m', x) && BlockAt(h.slabs, data) != x
    ensures HasBlock(n, data, cap) && BlockAt(n.slabs, data) == BlockAt(h.slabs, data)
    ensures BytesAt(m', data, size) == BytesAt(m, data, size) && ZeroTail(m', data, size, cap)
  {
    hide Inv;
    hide Addr;
    hide Usable;
    hide BlockAt;
    var y := BlockAt(h.slabs, data);
    assert Kept(h, m, n, m', y);
    StillLive(h, n, y, data);
    forall i | 0 <= i < cap
      ensures Peek(m', data, i) == Peek(m, data, i)
    {
    }
  }

  /** An empty file truncated to one byte claims a byte it has no buffer for. */
  method TruncateUpBreaksFile(heap: KernelHeap) returns (f: File)
    requires heap.Valid()
    modifies heap`mem
    ensures fresh(f) && f.size == 1 && f.cap == 0 && f.data == 0 && !f.Valid(heap)
  {
    hide Inv;
    hide Tagged;
    hide KernelHeap.Ready;
    f := new File();
    f.Truncate(heap, 1);
  }
}
