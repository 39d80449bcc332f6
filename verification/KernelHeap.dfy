/**
 The kernel heap as it runs: kmalloc, kzalloc, kfree and krealloc over slab pages and spans, with
 their pages mapped through the memory manager.

 Block contents and the magic words that tell the tiers apart live in `mem`, one byte per address.
 The other header fields and the bitmaps are kept in fields of their own.
 */
module KernelHeap {
  import opened Lists
  import opened Machine
  import opened Slab
  import opened LargeTier
  import opened HeapState
  import opened HeapMemory
  import opened MemoryManager
  import A = Addresses
  import F = FrameAllocator
  import P = PageTables
  import R = Ranges
  import W = HeapWindow

  const LARGE_THRESHOLD: nat := 2048

  /** total in large_alloc, as pages, with the uint64_t wrap-around of the source. */
  function SpanPages(size: U64): (t: nat) {
    PageAlignUp(Wrap64(size + LARGE_HDR)) / PAGE_SIZE
  }

  /** The span holds the request exactly when computing its size did not wrap, and then no smaller one would. */
  lemma SpanHoldsRequestIffNoWrap(size: U64)
    ensures size + LARGE_HDR <= SpanPages(size) * PAGE_SIZE <==> size + LARGE_HDR + PAGE_SIZE <= TWO64
    ensures size + LARGE_HDR + PAGE_SIZE <= TWO64 ==> SpanPages(size) * PAGE_SIZE < size + LARGE_HDR + PAGE_SIZE
  {
    var a := size + LARGE_HDR;
    if a + PAGE_SIZE <= TWO64 {
      assert Wrap64(a) == a;
      assert PageAlignUp(a) == (a + PAGE_SIZE - 1) / PAGE_SIZE * PAGE_SIZE;
    }
  }

  lemma SpanPagesBound(size: U64)
    ensures SpanPages(size) * PAGE_SIZE < TWO64
  {
    var a := PageAlignUp(Wrap64(size + LARGE_HDR));
    assert a / PAGE_SIZE * PAGE_SIZE <= a;
  }

  /** The largest request there is gets one page. */
  lemma LargestRequestGetsOnePage()
    ensures SpanPages(TWO64 - 1) == 1
  {
  }

  /** The pointer of a live block. */
  ghost predicate IsLive(h: Heap, ptr: nat) {
    BlockAt(h.slabs, ptr) in h.live && Addr(h.slabs, BlockAt(h.slabs, ptr)) == ptr
  }

  /** Byte k of what starts at address a. */
  function Peek(m: Mem, a: nat, k: nat): (b: Byte) {
    m(a + k)
  }

  /** Block y keeps its place, its size and every byte of its contents. */
  ghost predicate Kept(h: Heap, m: Mem, n: Heap, m': Mem, y: Block) {
    && Untouched(h, n, y)
    && forall a :: Addr(h.slabs, y) <= a < Addr(h.slabs, y) + Usable(h.spans, h.slabs, y) ==> m'(a) == m(a)
  }

  /** Block x has become block z, asked for with `size` bytes: same contents, all other blocks kept. */
  ghost predicate Moved(h: Heap, m: Mem, x: Block, n: Heap, m': Mem, z: Block, size: nat) {
    && x in h.live && n.live == (h.live - {x})[z := size] && (z == x || z !in h.live)
    && (forall k :: 0 <= k < Usable(h.spans, h.slabs, x) ==>
          Peek(m', Addr(n.slabs, z), k) == Peek(m, Addr(h.slabs, x), k))
    && (forall y :: y in h.live && y != x ==> Kept(h, m, n, m', y))
  }

  lemma UsableOf(h: Heap, ptr: nat)
    requires Inv(h) && IsLive(h, ptr)
    ensures var b := ptr / PAGE_SIZE;
            && (b in h.slabs ==> Usable(h.spans, h.slabs, BlockAt(h.slabs, ptr)) == ObjSize(h.slabs[b].order))
            && (b !in h.slabs ==> b in h.spans)
            && (b !in h.slabs ==>
                  Usable(h.spans, h.slabs, BlockAt(h.slabs, ptr)) == h.spans[b].pages * PAGE_SIZE - LARGE_HDR)
            && Usable(h.spans, h.slabs, BlockAt(h.slabs, ptr)) >= 0
  {
    hide Chain;
    hide ClassesValid;
    hide SlabsValid;
    hide Slot;
    hide ObjSize;
    assert InUse(h.spans, h.slabs, BlockAt(h.slabs, ptr));
  }

  lemma Resized(h: Heap, x: Block, size: nat)
    requires Inv(h) && x in h.live && size <= Usable(h.spans, h.slabs, x)
    ensures Inv(h.(live := h.live[x := size]))
  {
    hide Chain;
    hide Tiled;
    hide ClassesValid;
    hide SlabsValid;
  }

  /** A live block keeps its pointer when another is allocated. */
  lemma StillLive(h: Heap, n: Heap, x: Block, ptr: nat)
    requires Inv(h) && Inv(n) && x in h.live && x in n.live && Addr(h.slabs, x) == ptr && Untouched(h, n, x)
    ensures IsLive(n, ptr) && BlockAt(n.slabs, ptr) == x
  {
    hide Inv;
    hide Addr;
    hide BlockAt;
    BlockAtAddr(n, x);
  }

  /** The memcpy of krealloc touches nothing but the new block. */
  lemma CopyMissesOthers(n: Heap, z: Block, y: Block, len: nat, a: nat)
    requires Inv(n) && z in n.live && y in n.live && y != z && len <= Usable(n.spans, n.slabs, z)
    requires Addr(n.slabs, y) <= a < Addr(n.slabs, y) + Usable(n.spans, n.slabs, y)
    ensures !(Addr(n.slabs, z) <= a < Addr(n.slabs, z) + len)
  {
    hide Inv;
    hide Addr;
    hide Usable;
    LiveBlocksDisjoint(n, z, y);
  }

  function Copied(m: Mem, dst: nat, src: nat, len: nat): (m': Mem) {
    (a: nat) => if dst <= a < dst + len then m(a - dst + src) else m(a)
  }

  /** Writing magic words keeps the contents of every live block. */
  lemma TagsKeepContents(h: Heap, n: Heap, m: Mem, m': Mem, y: Block)
    requires Inv(n) && OnlyTags(n, m, m') && y in n.live && Untouched(h, n, y)
    ensures Kept(h, m, n, m', y)
  {
    hide Inv;
    hide Addr;
    hide Usable;
    hide InTag;
    forall a | Addr(h.slabs, y) <= a < Addr(h.slabs, y) + Usable(h.spans, h.slabs, y)
      ensures m'(a) == m(a)
    {
      TagsMissBlocks(n, y, a);
    }
  }

  lemma KeptTwice(h: Heap, n: Heap, o: Heap, m: Mem, m1: Mem, m2: Mem, y: Block)
    requires Kept(h, m, n, m1, y) && Kept(n, m1, o, m2, y)
    ensures Kept(h, m, o, m2, y)
  {
    hide Addr;
    hide Usable;
  }

  lemma CopyKeepsOthers(n: Heap, m: Mem, x: nat, z: Block, y: Block, len: nat)
    requires Inv(n) && z in n.live && y in n.live && y != z && len <= Usable(n.spans, n.slabs, z)
    ensures Kept(n, m, n, Copied(m, Addr(n.slabs, z), x, len), y)
  {
    hide Inv;
    hide Addr;
    hide Usable;
    var m' := Copied(m, Addr(n.slabs, z), x, len);
    forall a | Addr(n.slabs, y) <= a < Addr(n.slabs, y) + Usable(n.spans, n.slabs, y)
      ensures m'(a) == m(a)
    {
      CopyMissesOthers(n, z, y, len, a);
    }
  }

  /** The copy puts the bytes of x where z starts, and the words written before and after do not touch them. */
  lemma CopiedBytes(h: Heap, n: Heap, o: Heap, x: Block, z: Block, m: Mem, m1: Mem, m3: Mem, len: nat, k: nat)
    requires Kept(h, m, n, m1, x) && k < len == Usable(h.spans, h.slabs, x) && len <= Usable(n.spans, n.slabs, z)
    requires Kept(n, Copied(m1, Addr(n.slabs, z), Addr(h.slabs, x), len), o, m3, z)
    ensures Peek(m3, Addr(o.slabs, z), k) == Peek(m, Addr(h.slabs, x), k)
  {
    hide Addr;
    hide Usable;
    hide Kept;
    var m2 := Copied(m1, Addr(n.slabs, z), Addr(h.slabs, x), len);
    KeptByte(h, m, n, m1, x, k);
    KeptByte(n, m2, o, m3, z, k);
  }

  lemma KeptByte(h: Heap, m: Mem, n: Heap, m': Mem, y: Block, k: nat)
    requires Kept(h, m, n, m', y) && k < Usable(h.spans, h.slabs, y)
    ensures Addr(n.slabs, y) == Addr(h.slabs, y)
    ensures Peek(m', Addr(h.slabs, y), k) == Peek(m, Addr(h.slabs, y), k)
  {
    hide Addr;
    hide Usable;
  }

  /** Allocate z, copy x into it, free x: that moves x to z. */
  lemma CopyIsMove(h: Heap, n: Heap, o: Heap, x: Block, z: Block, size: nat, m: Mem, m1: Mem, m3: Mem, len: nat)
    requires Inv(n) && Inv(o) && x in h.live && Allocated(h, n, z, size) && Released(n, o, x)
    requires len == Usable(h.spans, h.slabs, x) && len <= Usable(n.spans, n.slabs, z)
    requires OnlyTags(n, m, m1) && OnlyTags(o, Copied(m1, Addr(n.slabs, z), Addr(h.slabs, x), len), m3)
    ensures Moved(h, m, x, o, m3, z, size)
  {
    hide Inv;
    hide Addr;
    hide Usable;
    hide Kept;
    hide OnlyTags;
    hide Copied;
    hide Untouched;
    var m2 := Copied(m1, Addr(n.slabs, z), Addr(h.slabs, x), len);
    assert o.live == (h.live - {x})[z := size];
    TagsKeepContents(h, n, m, m1, x);
    TagsKeepContents(n, o, m2, m3, z);
    forall k | 0 <= k < len
      ensures Peek(m3, Addr(o.slabs, z), k) == Peek(m, Addr(h.slabs, x), k)
    {
      CopiedBytes(h, n, o, x, z, m, m1, m3, len, k);
    }
    forall y | y in h.live && y != x
      ensures Kept(h, m, o, m3, y)
    {
      TagsKeepContents(h, n, m, m1, y);
      CopyKeepsOthers(n, m1, Addr(h.slabs, x), z, y, len);
      KeptTwice(h, n, n, m, m1, m2, y);
      TagsKeepContents(n, o, m2, m3, y);
      KeptTwice(h, n, o, m, m2, m3, y);
    }
  }

  lemma CopyKeepsTags(n: Heap, m: Mem, z: Block, src: nat, len: nat)
    requires Inv(n) && Tagged(n, m) && z in n.live && len <= Usable(n.spans, n.slabs, z)
    ensures Tagged(n, Copied(m, Addr(n.slabs, z), src, len))
  {
    hide Inv;
    hide Tagged;
    hide Addr;
    hide Usable;
    StoreKeepsTags(n, m, Copied(m, Addr(n.slabs, z), src, len), z);
  }

  /** memset(a, 0, n). */
  function Cleared(m: Mem, a: nat, n: nat): (m': Mem) {
    (x: nat) => if a <= x < a + n then 0 else m(x)
  }

  /** A new block that is filled at once leaves all other blocks as they were. */
  lemma AllocatedKeepsOthers(h: Heap, n: Heap, x: Block, size: nat, m: Mem, m1: Mem, m2: Mem)
    requires Inv(n) && Allocated(h, n, x, size) && OnlyTags(n, m, m1)
    requires forall a: nat ::
               m2(a) != m1(a) ==> Addr(n.slabs, x) <= a < Addr(n.slabs, x) + Usable(n.spans, n.slabs, x)
    ensures forall y :: y in h.live ==> Kept(h, m, n, m2, y)
  {
    hide Inv;
    hide Addr;
    hide Usable;
    hide OnlyTags;
    forall y | y in h.live
      ensures Kept(h, m, n, m2, y)
    {
      TagsKeepContents(h, n, m, m1, y);
      forall a | Addr(h.slabs, y) <= a < Addr(h.slabs, y) + Usable(h.spans, h.slabs, y)
        ensures m2(a) == m1(a)
      {
        LiveBlocksDisjoint(n, x, y);
      }
    }
  }

  lemma EmptyWindow(s: P.Memory, k: nat)
    ensures W.Backed(s, k, BASE)
  {
  }

  /** Blocks that an operation does not touch keep their contents when it only writes words. */
  lemma TagsKeepAll(h: Heap, n: Heap, m: Mem, m': Mem)
    requires Inv(n) && OnlyTags(n, m, m')
    ensures forall y :: y in n.live && Untouched(h, n, y) ==> Kept(h, m, n, m', y)
  {
    hide Inv;
    hide OnlyTags;
    hide Untouched;
    hide Kept;
    forall y | y in n.live && Untouched(h, n, y)
      ensures Kept(h, m, n, m', y)
    {
      TagsKeepContents(h, n, m, m', y);
    }
  }

  lemma NoTagsChanged(h: Heap, m: Mem)
    ensures OnlyTags(h, m, m)
  {
  }

  lemma ResizedTagged(h: Heap, x: Block, size: nat, m: Mem)
    requires Tagged(h, m)
    ensures Tagged(h.(live := h.live[x := size]), m)
  {
    hide WordAt;
    SameTags(h, h.(live := h.live[x := size]), m);
  }

  lemma SlotKeepsTiles(h: Heap, b: nat, i: nat, size: nat, m: Mem, m': Mem)
    requires OnlyTags(h, m, m') && b in h.slabs && i < |h.slabs[b].used| && h.slabs[b].freeCount > 0
    ensures OnlyTags(SlotTaken(h, b, i, size), m, m')
  {
    forall a: nat | m'(a) != m(a)
      ensures InTag(SlotTaken(h, b, i, size), a)
    {
      assert InTag(h, a);
    }
  }

  lemma PushedPage(h: Heap, p: Page)
    requires |h.classes| == 8 && |h.lists| == 8 && p.freeCount > 0
    ensures var n := WithSlab(h, p);
            && h.cursor in n.slabs && n.slabs[h.cursor].order == p.order && n.slabs[h.cursor].freeCount > 0
            && n.live == h.live
  {
    hide Assign;
  }

  lemma CursorIsFresh(h: Heap)
    requires Inv(h)
    ensures !IsTile(h, h.cursor)
  {
    hide Chain;
    hide ClassesValid;
    hide LiveExact;
    hide SlabsValid;
    assert h.cursor in h.spans ==> OwnsItsPages(h.cursor, h.spans[h.cursor].pages, h.owner, h.cursor);
    assert h.cursor in h.slabs ==> OwnsItsPages(h.cursor, 1, h.owner, h.cursor);
  }

  /** A live pointer lies in a tile, and one of the large tier right behind its header. */
  lemma LivePage(h: Heap, ptr: nat)
    requires Inv(h) && IsLive(h, ptr)
    ensures IsTile(h, ptr / PAGE_SIZE)
    ensures BlockAt(h.slabs, ptr).Large? ==> ptr % PAGE_SIZE == LARGE_HDR && ptr / PAGE_SIZE !in h.slabs
  {
    hide Chain;
    hide ClassesValid;
    hide SlabsValid;
    assert InUse(h.spans, h.slabs, BlockAt(h.slabs, ptr));
  }

  /** What large_alloc wastes on a request is less than two pages. */
  lemma LargeWaste(size: U64, pages: nat)
    requires size + LARGE_HDR + PAGE_SIZE <= TWO64 && pages <= SpanPages(size) + 1
    ensures pages * PAGE_SIZE - LARGE_HDR < size + 2 * PAGE_SIZE
  {
    hide SpanPages;
    SpanHoldsRequestIffNoWrap(size);
  }

  lemma UsableLarge(spans: Spans, slabs: Slabs, b: nat)
    requires b in spans
    ensures Usable(spans, slabs, Large(b)) == spans[b].pages * PAGE_SIZE - LARGE_HDR
  {
  }

  lemma UsableObj(spans: Spans, slabs: Slabs, b: nat, i: nat)
    requires b in slabs
    ensures Usable(spans, slabs, Obj(b, i)) == ObjSize(slabs[b].order)
  {
  }

  lemma CutPages(m: Spans, n: Spans, c: nat, t: nat)
    requires CutFrom(m, n, c, t)
    ensures c in n && n[c].pages <= t + 1
  {
  }

  /** How well a block of u bytes fits a request: a slab slot under twice its size, or less than two pages over it. */
  predicate Snug(size: nat, u: int, large: bool) {
    if size <= 2048 then u in {16, 32, 64, 128, 256, 512, 1024, 2048} && (u == 16 || u < 2 * size)
    else large && u < size + 2 * PAGE_SIZE
  }

  /** A slab slot is one of the eight sizes, and the next smaller one would not do. */
  lemma ClassWaste(o: Order, size: nat)
    requires IsClass(o, size)
    ensures ObjSize(o) in {16, 32, 64, 128, 256, 512, 1024, 2048} && (ObjSize(o) == 16 || ObjSize(o) < 2 * size)
  {
    if o > MIN_ORDER {
      assert ObjSize(o - 1) < size;
    }
  }

  /** What a pointer just handed out is good for. */
  lemma BlockServes(h: Heap, n: Heap, x: Block, size: nat, m: Mem, m': Mem)
    requires Inv(n) && OnlyTags(n, m, m') && Allocated(h, n, x, size)
    ensures IsLive(n, Addr(n.slabs, x)) && BlockAt(n.slabs, Addr(n.slabs, x)) == x
    ensures size <= Usable(n.spans, n.slabs, x)
    ensures forall y :: y in h.live ==> Kept(h, m, n, m', y)
  {
    hide Inv;
    hide OnlyTags;
    hide Kept;
    hide Addr;
    hide Usable;
    hide BlockAt;
    hide Untouched;
    BlockAtAddr(n, x);
    BlockInTile(n, x);
    TagsKeepAll(h, n, m, m');
  }

  lemma SameHeapServes(h: Heap, m: Mem)
    requires Inv(h)
    ensures OnlyTags(h, m, m) && forall y :: y in h.live ==> Kept(h, m, h, m, y)
  {
    hide Inv;
    NoTagsChanged(h, m);
    SameHeapUntouched(h);
    hide OnlyTags;
    TagsKeepAll(h, h, m, m);
  }

  ghost predicate Adequate(h: Heap, b: nat, t: nat) {
    b in h.spans && h.spans[b].free && h.spans[b].pages >= t
  }

  ghost predicate SomeAdequate(h: Heap, t: nat) {
    exists b :: Adequate(h, b, t)
  }

  /** A smallest adequate free span. */
  ghost predicate IsBestFit(h: Heap, c: nat, t: nat) {
    Adequate(h, c, t) && forall b :: Adequate(h, b, t) ==> h.spans[c].pages <= h.spans[b].pages
  }

  /** The smallest size class that holds `size` bytes. */
  predicate IsClass(o: Order, size: nat) {
    size <= ObjSize(o) && forall c: Order :: c < o ==> ObjSize(c) < size
  }

  /** The order loop of kmalloc. */
  method ClassFor(size: nat) returns (o: Order)
    requires size <= LARGE_THRESHOLD
    ensures IsClass(o, size)
  {
    var order := MIN_ORDER;
    while order < MAX_ORDER && ObjSize(order) < size
      invariant MIN_ORDER <= order <= MAX_ORDER
      invariant forall c: Order :: c < order ==> ObjSize(c) < size
    {
      order := order + 1;
    }
    o := order;
  }

  lemma SpanPointer(page: nat)
    ensures (page * PAGE_SIZE + LARGE_HDR) / PAGE_SIZE == page && (page * PAGE_SIZE + LARGE_HDR) % PAGE_SIZE == 32
  {
  }

  /** A page of class o has a free slot. */
  ghost predicate HasSlot(slabs: Slabs, o: Order) {
    exists c :: c in slabs && slabs[c].order == o && slabs[c].freeCount > 0
  }

  lemma OneClass(o: Order, size: nat)
    requires IsClass(o, size)
    ensures size <= ObjSize(o) && forall c: Order :: IsClass(c, size) ==> c == o
  {
    hide ObjSize;
  }

  /** The pages kmalloc asks for when it has to grow. */
  function PagesFor(size: U64): (t: nat) {
    if size <= LARGE_THRESHOLD then 1 else SpanPages(size)
  }

  /** The test of heap_map_pages against the end of the window, with the uint64_t wrap-around of the source. */
  predicate Rejects(cursor: nat, count: nat) {
    Wrap64(cursor * PAGE_SIZE + Wrap64(count * PAGE_SIZE)) > (BASE + MAX_PAGES) * PAGE_SIZE
  }

  /** It misses exactly the requests whose end passes 2^64: they are tried as if they fitted. */
  lemma RejectsIff(cursor: nat, count: nat)
    requires BASE <= cursor <= BASE + MAX_PAGES && count * PAGE_SIZE < TWO64
    ensures Rejects(cursor, count) <==> BASE + MAX_PAGES < cursor + count && (cursor + count) * PAGE_SIZE < TWO64
    ensures Rejects(cursor, count) <==> 0xFFFF_FF80_1000_0000 < cursor * PAGE_SIZE + count * PAGE_SIZE < TWO64
  {
    assert Wrap64(count * PAGE_SIZE) == count * PAGE_SIZE;
    assert cursor * PAGE_SIZE < TWO64;
  }

  /** It misses none that there could be frames for. */
  lemma RejectsFew(cursor: nat, count: nat)
    requires BASE <= cursor <= BASE + MAX_PAGES && (count < F.MAX_FRAMES || cursor + count <= BASE + MAX_PAGES)
    ensures Rejects(cursor, count) <==> BASE + MAX_PAGES < cursor + count
  {
    RejectsIff(cursor, count);
  }

  class KernelHeap {
    var spans: Spans
    var slabs: Slabs
    var largeFree: nat
    var classes: seq<nat>
    var cursor: nat
    var mem: Mem
    const mm: Mm

    ghost var freeList: seq<nat>
    ghost var lists: seq<seq<nat>>
    ghost var owner: Owner
    ghost var live: map<Block, nat>

    ghost function Snap(): (h: Heap)
      reads this
    {
      Heap(spans, slabs, largeFree, classes, cursor, freeList, lists, owner, live)
    }

    /** The memory manager below, with the kernel's root in place. */
    ghost predicate Ready()
      reads mm, mm.pmm, mm.pmm.bitmap
    {
      mm.Valid() && P.Root(mm.tables, mm.kernelPml4)
    }

    ghost predicate Valid()
      reads this, mm, mm.pmm, mm.pmm.bitmap
    {
      Inv(Snap()) && Tagged(Snap(), mem) && Ready()
    }

    /** Every page of the window is mapped, each to a frame of its own. */
    ghost predicate Window()
      reads this`cursor, mm, mm.pmm, mm.pmm.bitmap
    {
      W.Backed(mm.State(), mm.kernelPml4, cursor)
    }

    /** Frames for so many new pages, and for the tables they still need. */
    ghost predicate Ample(pages: nat)
      reads this`cursor, mm, mm.pmm, mm.pmm.bitmap
    {
      W.Enough(mm.State(), mm.kernelPml4, cursor, pages)
    }

    /** The memory below finds a frame for each of the next `count` pages. */
    ghost predicate Gets(count: nat)
      requires Ready()
      reads this`cursor, mm, mm.pmm, mm.pmm.bitmap
    {
      W.Attempt(mm.State(), mm.kernelPml4, cursor, count, count).1
    }

    /** They fit the window, and the memory below finds the frames. */
    ghost predicate CanGrow(count: nat)
      requires Ready()
      reads this`cursor, mm, mm.pmm, mm.pmm.bitmap
    {
      cursor + count <= BASE + MAX_PAGES && Gets(count)
    }

    /** kmalloc has a block of this size: a slot or a span that is free, or new pages. */
    ghost predicate Serves(size: U64)
      requires Ready()
      reads this, mm, mm.pmm, mm.pmm.bitmap
    {
      && size != 0
      && (|| CanGrow(PagesFor(size))
          || (if size <= LARGE_THRESHOLD then exists o: Order :: IsClass(o, size) && HasSlot(slabs, o)
              else SomeAdequate(Snap(), SpanPages(size))))
    }

    /** heap_init: four pages as one free span. The source does not check that it gets them. */
    constructor (manager: Mm)
      requires manager.Valid() && P.Root(manager.tables, manager.kernelPml4)
      requires W.Attempt(manager.State(), manager.kernelPml4, BASE, 4, 4).1
      modifies manager`tables, manager`data, manager.pmm, manager.pmm.bitmap
      ensures Valid() && mm == manager && live == map[] && cursor == BASE + 4
      ensures spans == map[BASE := Span(4, true, 0, 0)] && slabs == map[]
      ensures W.Enough(old(manager.State()), manager.kernelPml4, BASE, 4) ==> Window()
    {
      mm := manager;
      spans, slabs, largeFree, cursor := map[], map[], 0, BASE;
      classes := [0, 0, 0, 0, 0, 0, 0, 0];
      mem := (a: nat) => 0;
      freeList, lists, live := [], [[], [], [], [], [], [], [], []], map[];
      owner := map[];
      new;
      hide Inv;
      hide Tagged;
      hide P.WellFormed;
      hide F.PhysicalFrames.Valid;
      hide W.Backed;
      hide W.Attempt;
      EmptyWindow(mm.State(), mm.kernelPml4);
      WarmUp();
    }

    /** The four pages heap_init starts with. */
    method WarmUp()
      requires cursor == BASE && slabs == map[] && live == map[] && spans == map[] && Ready() && Gets(4)
      requires classes == [0, 0, 0, 0, 0, 0, 0, 0] && lists == [[], [], [], [], [], [], [], []]
      modifies this`spans, this`largeFree, this`mem, this`freeList, this`owner, this`cursor
      modifies mm`tables, mm`data, mm.pmm, mm.pmm.bitmap
      ensures Valid() && cursor == BASE + 4 && spans == map[BASE := Span(4, true, 0, 0)]
      ensures old(Window()) && old(Ample(4)) ==> Window()
    {
      hide Inv;
      hide Tagged;
      hide Ready;
      hide Window;
      hide Ample;
      hide Gets;
      hide Rejects;
      hide W.Attempt;
      var page := MapPages(4);
      FirstSpan(page);
    }

    /** The first span header of heap_init. */
    method FirstSpan(page: nat)
      requires page == BASE && cursor == BASE + 4 && slabs == map[] && live == map[] && spans == map[]
      requires classes == [0, 0, 0, 0, 0, 0, 0, 0] && lists == [[], [], [], [], [], [], [], []]
      modifies this`spans, this`largeFree, this`mem, this`freeList, this`owner
      ensures Inv(Snap()) && Tagged(Snap(), mem) && spans == map[BASE := Span(4, true, 0, 0)]
    {
      hide Inv;
      hide WordAt;
      PutThenGet(mem, BASE * PAGE_SIZE, FreeMagic());
      spans, largeFree := map[BASE := Span(4, true, 0, 0)], BASE;
      mem := PutWord(mem, BASE * PAGE_SIZE, FreeMagic());
      freeList := [BASE];
      owner := map i | i in PageSet(BASE, 4) :: BASE;
      InitialHeap(Snap());
    }

    /** The loop of heap_map_pages. */
    method BackPages(count: nat) returns (ok: bool)
      requires Ready()
      modifies mm`tables, mm`data, mm.pmm, mm.pmm.bitmap
      ensures Ready() && old(Ready())
      ensures (mm.State(), ok) == W.Attempt(old(mm.State()), mm.kernelPml4, cursor, count, count)
    {
      hide P.WellFormed;
      hide F.PhysicalFrames.Valid;
      hide A.PathOfPage;
      hide A.PathOf;
      hide R.AllocMap;
      hide W.Backed;
      hide W.Attempt;
      var k := mm.kernelPml4;
      ghost var s := mm.State();
      W.AttemptStarts(s, k, cursor, count);
      W.AttemptKeeps(s, k, cursor, count, count);
      var i := 0;
      while i < count
        invariant i <= count && Ready() && mm.kernelPml4 == k
        invariant (mm.State(), true) == W.Attempt(s, k, cursor, count, i)
      {
        A.PathInRange(cursor * PAGE_SIZE, i);
        W.AttemptKeeps(s, k, cursor, count, i);
        W.AttemptStep(s, k, cursor, count, i);
        var phys := mm.AllocMapPage(k, Wrap64(cursor * PAGE_SIZE + i * PAGE_SIZE), W.HEAP_FLAGS);
        i := i + 1;
        W.AttemptKeeps(s, k, cursor, count, i);
        if phys == 0 {
          W.AttemptFails(s, k, cursor, count, i);
          return false;
        }
      }
      ok := true;
    }

    /**
     heap_map_pages: the first page of the new region, or 0. A failure half way has used up every free frame; it
     keeps them and the pages it mapped, but not the cursor.
     */
    method MapPages(count: nat) returns (page: nat)
      requires BASE <= cursor <= BASE + MAX_PAGES && Ready()
      modifies this`cursor, mm`tables, mm`data, mm.pmm, mm.pmm.bitmap
      ensures Ready() && old(Ready())
      ensures page != 0 <==> old(CanGrow(count))
      ensures page != 0 ==> page == old(cursor) && cursor == old(cursor) + count <= BASE + MAX_PAGES
      ensures page == 0 ==> cursor == old(cursor)
      ensures mm.State() == if Rejects(old(cursor), count) then old(mm.State())
                            else W.Attempt(old(mm.State()), mm.kernelPml4, old(cursor), count, count).0
      ensures page == 0 ==> Rejects(old(cursor), count) || mm.State().pool.free == {}
      ensures old(Window()) && (page == 0 || old(Ample(count))) ==> Window()
    {
      hide P.WellFormed;
      hide F.PhysicalFrames.Valid;
      hide W.Backed;
      hide W.Attempt;
      hide W.Enough;
      hide Rejects;
      ghost var s, k := mm.State(), mm.kernelPml4;
      W.AttemptKeeps(s, k, cursor, count, count);
      W.AttemptDrains(s, k, cursor, count);
      if count < F.MAX_FRAMES || cursor + count <= BASE + MAX_PAGES {
        RejectsFew(cursor, count);
      }
      if Window() && Ample(count) && cursor + count <= BASE + MAX_PAGES {
        W.GrowthBacks(s, k, cursor, count);
      }
      if Rejects(cursor, count) {
        return 0;
      }
      var ok := BackPages(count);
      if !ok {
        return 0;
      }
      page := cursor;
      cursor := cursor + count;
    }

    // -------------------------------------------------------------- large tier

    /** large_insert_free. */
    method InsertFree(b: nat)
      requires b in spans && (largeFree != 0 ==> largeFree in spans)
      modifies this`spans, this`largeFree, this`mem
      ensures spans == Inserted(old(spans), old(largeFree), b) && largeFree == b
      ensures mem == PutWord(old(mem), b * PAGE_SIZE, FreeMagic())
    {
      mem := PutWord(mem, b * PAGE_SIZE, FreeMagic());
      spans := spans[b := spans[b].(free := true, next := largeFree, prev := 0)];
      if largeFree != 0 {
        spans := spans[largeFree := spans[largeFree].(prev := b)];
      }
      largeFree := b;
    }

    /** large_remove_free. */
    method RemoveFree(b: nat)
      requires Linkable(spans, b)
      modifies this`spans, this`largeFree
      ensures (spans, largeFree) == Removed(old(spans), old(largeFree), b)
    {
      var p, n := spans[b].prev, spans[b].next;
      if p != 0 {
        spans := spans[p := spans[p].(next := n)];
      } else {
        largeFree := n;
      }
      if n != 0 {
        spans := spans[n := spans[n].(prev := p)];
      }
      spans := spans[b := spans[b].(next := 0, prev := 0)];
    }

    /** The best-fit loop of large_alloc, along the next fields. */
    method BestFit(t: nat) returns (best: nat, ghost k: nat)
      requires Valid()
      ensures best != 0 ==> k < |freeList| && freeList[k] == best && IsBestFit(Snap(), best, t)
      ensures best == 0 ==> !SomeAdequate(Snap(), t)
    {
      hide Inv;
      best, k := 0, 0;
      var h := largeFree;
      ghost var i := 0;
      FreeListFacts(Snap());
      while h != 0
        invariant i <= |freeList| && h == At(freeList, i)
        invariant best == 0 ==> forall j :: 0 <= j < i ==> spans[freeList[j]].pages < t
        invariant best != 0 ==> k < i && freeList[k] == best && spans[best].pages >= t
        invariant best != 0 ==>
                    forall j :: 0 <= j < i && spans[freeList[j]].pages >= t ==>
                      spans[best].pages <= spans[freeList[j]].pages
        decreases |freeList| - i
      {
        ListWalk(Snap(), i);
        if spans[h].pages >= t {
          if best == 0 || spans[h].pages < spans[best].pages {
            best, k := h, i;
          }
        }
        h := spans[h].next;
        i := i + 1;
      }
    }

    /** large_alloc: a smallest adequate free span if there is one, new pages only if there is none. */
    method LargeAlloc(size: U64) returns (ptr: nat)
      requires Valid() && size + LARGE_HDR + PAGE_SIZE <= TWO64
      modifies this, mm`tables, mm`data, mm.pmm, mm.pmm.bitmap
      ensures Valid() && old(Ready()) && slabs == old(slabs)
      ensures ptr == 0 ==> Snap() == old(Snap()) && mem == old(mem)
      ensures OnlyTags(Snap(), old(mem), mem)
      ensures ptr != 0 ==>
                var c := ptr / PAGE_SIZE;
                ptr == Addr(slabs, Large(c)) && Allocated(old(Snap()), Snap(), Large(c), size)
      ensures ptr != 0 ==> ptr % PAGE_SIZE == 32
      ensures SomeAdequate(old(Snap()), SpanPages(size)) ==>
                var c, t := ptr / PAGE_SIZE, SpanPages(size);
                && ptr != 0 && IsBestFit(old(Snap()), c, t) && cursor == old(cursor)
                && CutFrom(old(spans), spans, c, t)
      ensures !SomeAdequate(old(Snap()), SpanPages(size)) ==>
                var t := SpanPages(size);
                && (ptr != 0 <==> old(CanGrow(t)))
                && (ptr == 0 ==> Rejects(old(cursor), t) || mm.State().pool.free == {})
                && (ptr != 0 ==> ptr / PAGE_SIZE == old(cursor) && cursor == old(cursor) + t)
                && (ptr != 0 ==> old(cursor) in spans && spans[old(cursor)].pages == t)
      ensures old(Window()) && old(Ample(SpanPages(size))) ==> Window()
    {
      hide Inv;
      hide Tagged;
      hide OnlyTags;
      hide Allocated;
      hide Ready;
      hide Window;
      hide Ample;
      hide CanGrow;
      hide Rejects;
      hide W.Attempt;
      SpanHoldsRequestIffNoWrap(size);
      hide SpanPages;
      var t := SpanPages(size);
      var best, k := BestFit(t);
      NoTagsChanged(Snap(), mem);
      if best == 0 {
        ptr := GrowSpanAt(t, size);
      } else {
        ListedTagged(Snap(), k, t, size, mem);
        AllocListedKeeps(Snap(), k, t, size);
        AllocListedAllocates(Snap(), k, t, size);
        AllocListedCuts(Snap(), k, t, size);
        hide CutFrom;
        TakeListed(best, k, t, size);
        ptr := best * PAGE_SIZE + LARGE_HDR;
        SpanPointer(best);
      }
    }

    /** The branch of large_alloc that expands the heap by a span of t pages. */
    method GrowSpanAt(t: nat, ghost size: nat) returns (ptr: nat)
      requires Valid() && 0 < t && size + LARGE_HDR <= t * PAGE_SIZE
      modifies this, mm`tables, mm`data, mm.pmm, mm.pmm.bitmap
      ensures Valid() && old(Ready()) && slabs == old(slabs)
      ensures ptr == 0 ==> Snap() == old(Snap()) && mem == old(mem)
      ensures OnlyTags(Snap(), old(mem), mem)
      ensures ptr != 0 <==> old(CanGrow(t))
      ensures ptr == 0 ==> Rejects(old(cursor), t) || mm.State().pool.free == {}
      ensures ptr != 0 ==> cursor == old(cursor) + t && ptr == Addr(slabs, Large(old(cursor))) && ptr % PAGE_SIZE == 32
      ensures ptr != 0 ==> ptr / PAGE_SIZE == old(cursor) && old(cursor) in spans && spans[old(cursor)].pages == t
      ensures ptr != 0 ==> Allocated(old(Snap()), Snap(), Large(old(cursor)), size)
      ensures old(Window()) && old(Ample(t)) ==> Window()
    {
      hide Inv;
      hide Tagged;
      hide OnlyTags;
      hide Allocated;
      hide Assign;
      hide Ready;
      hide Window;
      hide AllocGrown;
      hide PutWord;
      hide Ample;
      hide CanGrow;
      hide Rejects;
      hide W.Attempt;
      ghost var h := Snap();
      WindowOf(h);
      NoTagsChanged(h, mem);
      var page := MapPages(t);
      if page == 0 {
        return 0;
      }
      GrownKeeps(h, t, size);
      CursorIsFresh(h);
      GrownAllocates(h, t, size);
      GrownTagged(h, t, size, mem);
      HandNew(h, page, t, size);
      GrownPages(h, t, size);
      ptr := page * PAGE_SIZE + LARGE_HDR;
      SpanPointer(page);
    }

    /** The header of the new span. */
    method HandNew(ghost h: Heap, page: nat, t: nat, ghost size: nat)
      requires page == h.cursor && h == Snap().(cursor := page) && cursor == page + t
      modifies this`spans, this`owner, this`live, this`mem
      ensures Snap() == AllocGrown(h, t, size) && mem == PutWord(old(mem), page * PAGE_SIZE, AllocMagic())
    {
      hide Assign;
      hide PutWord;
      spans := spans[page := Span(t, false, 0, 0)];
      mem := PutWord(mem, page * PAGE_SIZE, AllocMagic());
      owner, live := Assign(owner, page, t), live[Large(page) := size];
    }

    /** Unlinks entry k of the free list. */
    method UnlinkBest(best: nat, ghost k: nat)
      requires Valid() && k < |freeList| && freeList[k] == best
      modifies this`spans, this`largeFree, this`freeList
      ensures Inv(old(Snap())) && Snap() == Unlinked(old(Snap()), k)
    {
      hide Chain;
      hide Removed;
      hide Without;
      NeighboursInChain(spans, largeFree, freeList, k);
      hide Inv;
      RemoveFree(best);
      freeList := Without(freeList, k);
    }

    /** The remainder of an oversized span becomes a free span. */
    method SplitOff(best: nat, t: nat)
      requires best in spans && t < spans[best].pages && (largeFree != 0 ==> largeFree in spans)
      modifies this`spans, this`largeFree, this`freeList, this`owner, this`mem
      ensures Snap() == Split(old(Snap()), best, t)
      ensures mem == PutWord(old(mem), (best + t) * PAGE_SIZE, FreeMagic())
    {
      hide Inserted;
      hide SplitSpans;
      hide Assign;
      hide PutWord;
      hide FreeMagic;
      hide Split;
      ghost var h := Snap();
      SplitInserts(h, best, t);
      owner := Assign(owner, best + t, spans[best].pages - t);
      spans := SplitSpans(spans, best, t);
      InsertFree(best + t);
      freeList := [best + t] + freeList;
      SplitParts(h, best, t, Snap());
    }

    /** large_alloc once entry k of the free list is chosen: unlink it, split it, hand it out. */
    method TakeListed(best: nat, ghost k: nat, t: nat, ghost size: nat)
      requires Valid() && k < |freeList| && freeList[k] == best
      requires best in spans && 0 < t <= spans[best].pages
      modifies this`spans, this`largeFree, this`freeList, this`owner, this`live, this`mem
      ensures Inv(old(Snap())) && Snap() == AllocListed(old(Snap()), k, t, size)
      ensures mem == TakenWords(old(mem), best, t, t + 2 <= old(spans)[best].pages)
    {
      hide Tagged;
      hide PutWord;
      hide Inv;
      hide Unlinked;
      hide Split;
      hide Tiled;
      hide Chain;
      hide SlabsValid;
      hide ClassesValid;
      hide InUse;
      hide Usable;
      UnlinkedKeeps(Snap(), k);
      UnlinkBest(best, k);
      if spans[best].pages * PAGE_SIZE >= t * PAGE_SIZE + PAGE_SIZE + LARGE_HDR {
        SplitKeeps(Snap(), best, t);
        SplitOff(best, t);
      }
      mem := PutWord(mem, best * PAGE_SIZE, AllocMagic());
      spans := Handed(spans, best);
      live := live[Large(best) := size];
    }

    /** large_free of a live block: the word in front of it is neither free nor corrupt. */
    method LargeFree(ptr: nat)
      requires Valid() && Large(ptr / PAGE_SIZE) in live && ptr % PAGE_SIZE == LARGE_HDR
      modifies this`spans, this`largeFree, this`freeList, this`live, this`mem
      ensures Valid() && OnlyTags(Snap(), old(mem), mem)
      ensures Released(old(Snap()), Snap(), Large(ptr / PAGE_SIZE))
    {
      hide Inv;
      hide Inserted;
      hide Released;
      hide Tagged;
      hide OnlyTags;
      hide WordAt;
      hide Ready;
      ghost var h := Snap();
      var hdr := ptr - LARGE_HDR;
      var b := hdr / PAGE_SIZE;
      assert hdr == b * PAGE_SIZE;
      TierFromWord(h, mem, Large(b));
      MagicsDiffer();
      if WordAt(mem, hdr) == FreeMagic() {
        return;
      }
      if WordAt(mem, hdr) != AllocMagic() {
        return;
      }
      FreedKeeps(h, b);
      FreedReleases(h, b);
      TilesOf(h);
      NotInSlabs(h, b);
      FreedTagged(h, b, mem);
      InsertFree(b);
      freeList, live := [b] + freeList, live - {Large(b)};
      assert Snap() == FreedSpan(h, b);
    }

    // -------------------------------------------------------------- slab tier

    /** The loop of slab_alloc over the pages of a class: the first with a free slot, or 0. */
    method FindPage(o: Order) returns (b: nat)
      requires Valid()
      ensures b != 0 ==> b in slabs && slabs[b].order == o && slabs[b].freeCount > 0
      ensures b == 0 ==> forall c :: c in slabs && slabs[c].order == o ==> slabs[c].freeCount == 0
    {
      hide Inv;
      ghost var c := o - MIN_ORDER;
      ClassFacts(Snap(), c);
      b := classes[o - MIN_ORDER];
      ghost var l, i := lists[c], 0;
      while b != 0 && slabs[b].freeCount == 0
        invariant i <= |l| && b == At(l, i) && (b != 0 ==> i < |l| && b in slabs && slabs[b].order == o)
        invariant forall j :: 0 <= j < i ==> l[j] in slabs && slabs[l[j]].freeCount == 0
        decreases |l| - i
      {
        ClassWalk(Snap(), c, i);
        b := slabs[b].next;
        i := i + 1;
        if i < |l| {
          ClassWalk(Snap(), c, i);
        }
      }
      if i < |l| {
        ClassWalk(Snap(), c, i);
      }
    }

    /** The part of slab_alloc that grows the class by one page; 0 when the heap cannot grow. */
    method GrowClass(o: Order) returns (b: nat)
      requires Valid()
      modifies this`slabs, this`classes, this`cursor, this`lists, this`owner, this`mem
      modifies mm`tables, mm`data, mm.pmm, mm.pmm.bitmap
      ensures Valid() && live == old(live) && OnlyTags(Snap(), old(mem), mem)
      ensures b == 0 ==> Snap() == old(Snap()) && mem == old(mem)
      ensures b != 0 ==> b in slabs && slabs[b].order == o && slabs[b].freeCount > 0 && b == old(cursor)
      ensures b != 0 <==> old(CanGrow(1))
      ensures b == 0 ==> Rejects(old(cursor), 1) || mm.State().pool.free == {}
      ensures forall y :: y in live ==> Untouched(old(Snap()), Snap(), y)
      ensures old(Window()) && old(Ample(1)) ==> Window()
    {
      hide Inv;
      hide Tagged;
      hide OnlyTags;
      hide Assign;
      hide Untouched;
      hide ValidPage;
      hide FreeSlots;
      hide WithSlab;
      hide PutWord;
      hide Ready;
      hide Window;
      hide Ample;
      hide CanGrow;
      hide Rejects;
      hide W.Attempt;
      ghost var h := Snap();
      WindowOf(h);
      ClassFacts(h, 0);
      NoTagsChanged(h, mem);
      b := MapPages(1);
      if b == 0 {
        SameHeapUntouched(h);
        return;
      }
      var p := NewPage(o);
      PageHasRoom(p);
      WithSlabKeeps(h, p);
      AllUntouched(h, p);
      SlabTagged(h, p, mem);
      PushPage(h, b, p);
      PushedPage(h, p);
    }

    /** slab_new_page writes its header, and slab_alloc pushes the page onto its class. */
    method PushPage(ghost h: Heap, b: nat, p: Page)
      requires |classes| == 8 && |lists| == 8 && b == h.cursor && h == Snap().(cursor := b) && cursor == b + 1
      modifies this`slabs, this`classes, this`lists, this`owner, this`mem
      ensures |h.classes| == 8 && |h.lists| == 8 && Snap() == WithSlab(h, p)
      ensures mem == PutWord(old(mem), b * PAGE_SIZE, SlabMagic())
    {
      hide Assign;
      mem := PutWord(mem, b * PAGE_SIZE, SlabMagic());
      var c := p.order - MIN_ORDER;
      slabs := slabs[b := p.(next := classes[c])];
      classes := classes[c := b];
      lists := lists[c := [b] + lists[c]];
      owner := Assign(owner, b, 1);
    }

    /** slab_alloc. A class grows only when none of its pages has a free slot. */
    method SlabAlloc(o: Order, ghost size: nat) returns (ptr: nat, ghost x: Block)
      requires Valid() && size <= ObjSize(o)
      modifies this, mm`tables, mm`data, mm.pmm, mm.pmm.bitmap
      ensures Valid() && spans == old(spans)
      ensures ptr == 0 ==> Snap() == old(Snap()) && mem == old(mem)
      ensures OnlyTags(Snap(), old(mem), mem)
      ensures ptr != 0 ==> ptr == Addr(slabs, x) && Allocated(old(Snap()), Snap(), x, size)
      ensures ptr != 0 ==> x.Obj? && Usable(spans, slabs, x) == ObjSize(o)
      ensures cursor != old(cursor) ==>
                forall c :: c in old(slabs) && old(slabs)[c].order == o ==> old(slabs)[c].freeCount == 0
      ensures ptr != 0 <==> HasSlot(old(slabs), o) || old(CanGrow(1))
      ensures ptr == 0 ==> Rejects(old(cursor), 1) || mm.State().pool.free == {}
      ensures old(Window()) && old(Ample(1)) ==> Window()
    {
      hide Inv;
      hide Tagged;
      hide OnlyTags;
      hide Addr;
      hide Usable;
      hide ObjSize;
      hide Ready;
      hide Window;
      hide Ample;
      hide CanGrow;
      hide Rejects;
      hide W.Attempt;
      x := Obj(0, 0);
      ghost var h := Snap();
      SameHeapUntouched(h);
      NoTagsChanged(h, mem);
      var b := FindPage(o);
      if b == 0 {
        b := GrowClass(o);
        if b == 0 {
          return 0, x;
        }
      }
      ghost var m := Snap();
      PageOf(m, b);
      var i := FindSlot(slabs[b]);
      SlotTakenKeeps(m, b, i, size);
      SlotTakenAllocates(m, b, i, size);
      SlotsKeepTags(m, b, i, size, mem);
      SlotKeepsTiles(m, b, i, size, old(mem), mem);
      x := Obj(b, i);
      slabs := slabs[b := Taken(slabs[b], i)];
      live := live[x := size];
      assert Snap() == SlotTaken(m, b, i, size);
      UsableObj(spans, slabs, b, i);
      BlockAtAddr(Snap(), x);
      assert Addr(slabs, x) == b * PAGE_SIZE + Slot(slabs[b].order, slabs[b].capacity, i) by { ObjAddr(slabs, b, i); }
      ptr := b * PAGE_SIZE + Slot(slabs[b].order, slabs[b].capacity, i);
    }

    /** slab_free: false when the word at the page's base is not a slab's or the pointer not a slot of the page. */
    method SlabFree(ptr: nat) returns (handled: bool)
      requires Valid() && IsLive(Snap(), ptr)
      modifies this`slabs, this`live
      ensures Valid()
      ensures handled <==> BlockAt(old(slabs), ptr).Obj?
      ensures handled ==> Released(old(Snap()), Snap(), BlockAt(old(slabs), ptr))
      ensures !handled ==> Snap() == old(Snap())
    {
      hide Inv;
      hide Tagged;
      hide Addr;
      hide Released;
      hide WordAt;
      ghost var h := Snap();
      var b := ptr / PAGE_SIZE;
      LivePage(h, ptr);
      TilesOf(h);
      WordTellsTier(h, mem, b);
      if WordAt(mem, b * PAGE_SIZE) != SlabMagic() {
        return false;
      }
      var p := slabs[b];
      var i := SlotOf(p.order, p.capacity, ptr % PAGE_SIZE);
      if i.None? {
        return false;
      }
      SlotGivenKeeps(h, b, i.value);
      SlotGivenReleases(h, b, i.value);
      SlotsKeepTags(h, b, i.value, 0, mem);
      if !p.used[i.value] {
        return true;
      }
      slabs := slabs[b := Given(p, i.value)];
      live := live - {Obj(b, i.value)};
      assert Snap() == SlotGiven(h, b, i.value);
      handled := true;
    }

    // -------------------------------------------------------------- the interface

    /** kmalloc: NULL, or a block of its own with at least the bytes asked for. */
    method Kmalloc(size: U64) returns (ptr: nat)
      requires Valid() && size + LARGE_HDR + PAGE_SIZE <= TWO64
      modifies this, mm`tables, mm`data, mm.pmm, mm.pmm.bitmap
      ensures Valid() && OnlyTags(Snap(), old(mem), mem)
      ensures ptr != 0 <==> old(Serves(size))
      ensures ptr != 0 ==>
                Snug(size, Usable(spans, slabs, BlockAt(slabs, ptr)), BlockAt(slabs, ptr).Large?)
      ensures ptr == 0 && size != 0 ==> Rejects(old(cursor), PagesFor(size)) || mm.State().pool.free == {}
      ensures ptr == 0 ==> Snap() == old(Snap()) && mem == old(mem)
      ensures ptr != 0 ==>
                var x := BlockAt(slabs, ptr);
                IsLive(Snap(), ptr) && Allocated(old(Snap()), Snap(), x, size) && size <= Usable(spans, slabs, x)
      ensures forall y :: y in old(live) ==> Kept(old(Snap()), old(mem), Snap(), mem, y)
      ensures old(Window()) && old(Ample(PagesFor(size))) ==> Window()
    {
      hide CutFrom;
      hide IsClass;
      hide HasSlot;
      hide SomeAdequate;
      hide IsBestFit;
      hide ObjSize;
      hide Inv;
      hide Tagged;
      hide OnlyTags;
      hide Allocated;
      hide Kept;
      hide IsLive;
      hide Addr;
      hide BlockAt;
      hide Usable;
      hide SpanPages;
      hide Ready;
      hide Window;
      hide Ample;
      hide CanGrow;
      hide Rejects;
      hide W.Attempt;
      SameHeapServes(Snap(), mem);
      ptr := 0;
      if size == 0 {
        return;
      }
      ghost var x: Block;
      if size <= LARGE_THRESHOLD {
        var o := ClassFor(size);
        OneClass(o, size);
        ClassWaste(o, size);
        ptr, x := SlabAlloc(o, size);
      } else {
        ptr := LargeAlloc(size);
        x := Large(ptr / PAGE_SIZE);
        if ptr != 0 {
          if SomeAdequate(old(Snap()), SpanPages(size)) {
            CutPages(old(spans), spans, x.page, SpanPages(size));
          }
          UsableLarge(spans, slabs, x.page);
          LargeWaste(size, spans[x.page].pages);
        }
      }
      if ptr != 0 {
        BlockServes(old(Snap()), Snap(), x, size, old(mem), mem);
      }
    }

    /** kzalloc. */
    method Kzalloc(size: U64) returns (ptr: nat)
      requires Valid() && size + LARGE_HDR + PAGE_SIZE <= TWO64
      modifies this, mm`tables, mm`data, mm.pmm, mm.pmm.bitmap
      ensures Valid()
      ensures ptr != 0 <==> old(Serves(size))
      ensures ptr == 0 && size != 0 ==> Rejects(old(cursor), PagesFor(size)) || mm.State().pool.free == {}
      ensures ptr == 0 ==> Snap() == old(Snap()) && mem == old(mem)
      ensures ptr != 0 ==>
                var x := BlockAt(slabs, ptr);
                IsLive(Snap(), ptr) && Allocated(old(Snap()), Snap(), x, size) && size <= Usable(spans, slabs, x)
      ensures ptr != 0 ==> forall a :: ptr <= a < ptr + size ==> mem(a) == 0
      ensures forall y :: y in old(live) ==> Kept(old(Snap()), old(mem), Snap(), mem, y)
      ensures old(Window()) && old(Ample(PagesFor(size))) ==> Window()
    {
      hide Inv;
      hide Tagged;
      hide OnlyTags;
      hide Addr;
      hide BlockAt;
      hide Usable;
      hide SpanPages;
      hide Ready;
      hide Window;
      hide Ample;
      hide CanGrow;
      hide Rejects;
      hide W.Attempt;
      ptr := Kmalloc(size);
      if ptr != 0 {
        ghost var x, m := BlockAt(slabs, ptr), mem;
        mem := Cleared(mem, ptr, size);
        StoreKeepsTags(Snap(), m, mem, x);
        AllocatedKeepsOthers(old(Snap()), Snap(), x, size, old(mem), m, mem);
      }
    }

    /** kfree of a live pointer or NULL. */
    method Kfree(ptr: nat)
      requires Valid() && (ptr != 0 ==> IsLive(Snap(), ptr))
      modifies this
      ensures Valid() && OnlyTags(Snap(), old(mem), mem)
      ensures ptr == 0 ==> Snap() == old(Snap()) && mem == old(mem)
      ensures ptr != 0 ==> Released(old(Snap()), Snap(), BlockAt(old(slabs), ptr))
      ensures forall y :: y in live ==> Kept(old(Snap()), old(mem), Snap(), mem, y)
      ensures cursor == old(cursor)
    {
      hide Inv;
      hide Tagged;
      hide OnlyTags;
      NoTagsChanged(Snap(), mem);
      SameHeapUntouched(Snap());
      if ptr == 0 {
        return;
      }
      var handled := SlabFree(ptr);
      NoTagsChanged(Snap(), mem);
      if !handled {
        LargeFree(ptr);
      }
      TagsKeepAll(old(Snap()), Snap(), old(mem), mem);
    }

    /** A store by the owner of a block, anywhere inside it: the heap stays in order and no other block changes. */
    method Poke(ptr: nat, i: nat, v: Byte)
      requires Valid() && IsLive(Snap(), ptr) && i < Usable(spans, slabs, BlockAt(slabs, ptr))
      modifies this`mem
      ensures Valid() && Snap() == old(Snap()) && mem(ptr + i) == v
      ensures forall y :: y in live && y != BlockAt(slabs, ptr) ==> Kept(Snap(), old(mem), Snap(), mem, y)
    {
      hide Inv;
      hide Tagged;
      hide BlockAt;
      hide Addr;
      hide Usable;
      hide Ready;
      ghost var m, x := mem, BlockAt(slabs, ptr);
      var before := mem;
      mem := (a: nat) => if a == ptr + i then v else before(a);
      StoreKeepsTags(Snap(), m, mem, x);
      forall y | y in live && y != x
        ensures Kept(Snap(), m, Snap(), mem, y)
      {
        LiveBlocksDisjoint(Snap(), x, y);
      }
    }

    /**
     krealloc. A block that has to move keeps its contents, and no other live block changes; when there
     is no room for the new block the old one stays as it was.
     */
    method Krealloc(ptr: nat, newSize: U64) returns (r: nat)
      requires Valid() && (ptr != 0 ==> IsLive(Snap(), ptr)) && newSize + LARGE_HDR + PAGE_SIZE <= TWO64
      modifies this, mm`tables, mm`data, mm.pmm, mm.pmm.bitmap
      ensures Valid()
      ensures r != 0 ==> IsLive(Snap(), r) && newSize <= Usable(spans, slabs, BlockAt(slabs, r))
      ensures newSize != 0 ==>
                (r != 0 <==> (ptr != 0 && newSize <= Usable(old(spans), old(slabs), BlockAt(old(slabs), ptr)))
                             || old(Serves(newSize)))
      ensures ptr != 0 && 0 < newSize <= Usable(old(spans), old(slabs), BlockAt(old(slabs), ptr)) ==> r == ptr
      ensures r == 0 && newSize != 0 ==> Rejects(old(cursor), PagesFor(newSize)) || mm.State().pool.free == {}
      ensures ptr == 0 || newSize == 0 ==> OnlyTags(Snap(), old(mem), mem)
      ensures r == 0 && newSize != 0 ==> Snap() == old(Snap()) && mem == old(mem)
      ensures ptr == 0 && r != 0 ==> Allocated(old(Snap()), Snap(), BlockAt(slabs, r), newSize)
      ensures ptr != 0 && newSize == 0 ==> r == 0 && Released(old(Snap()), Snap(), BlockAt(old(slabs), ptr))
      ensures ptr != 0 && r != 0 ==>
                Moved(old(Snap()), old(mem), BlockAt(old(slabs), ptr), Snap(), mem, BlockAt(slabs, r), newSize)
      ensures old(Window()) && old(Ample(PagesFor(newSize))) ==> Window()
    {
      hide Inv;
      hide Tagged;
      hide OnlyTags;
      hide WordAt;
      hide SpanPages;
      hide Ready;
      hide Window;
      hide Ample;
      hide CanGrow;
      hide Rejects;
      hide W.Attempt;
      if ptr == 0 {
        r := Kmalloc(newSize);
        return;
      }
      if newSize == 0 {
        Kfree(ptr);
        return 0;
      }
      ghost var h := Snap();
      ghost var x := BlockAt(slabs, ptr);
      var b := ptr / PAGE_SIZE;
      UsableOf(h, ptr);
      LivePage(h, ptr);
      TilesOf(h);
      WordTellsTier(h, mem, b);
      var oldSize: int;
      if WordAt(mem, b * PAGE_SIZE) == SlabMagic() {
        oldSize := ObjSize(slabs[b].order);
      } else {
        oldSize := spans[(ptr - LARGE_HDR) / PAGE_SIZE].pages * PAGE_SIZE - LARGE_HDR;
      }
      if newSize <= oldSize {
        Resized(h, x, newSize);
        ResizedTagged(h, x, newSize, mem);
        live := live[x := newSize];
        return ptr;
      }
      r := MoveTo(ptr, newSize, oldSize);
    }

    /** krealloc when the block is too small: a new block, a copy, and the old block freed. */
    method MoveTo(ptr: nat, newSize: U64, oldSize: nat) returns (r: nat)
      requires Valid() && IsLive(Snap(), ptr) && newSize + LARGE_HDR + PAGE_SIZE <= TWO64
      requires oldSize == Usable(spans, slabs, BlockAt(slabs, ptr)) && oldSize < newSize
      modifies this, mm`tables, mm`data, mm.pmm, mm.pmm.bitmap
      ensures Valid()
      ensures r != 0 <==> old(Serves(newSize))
      ensures r == 0 ==> Rejects(old(cursor), PagesFor(newSize)) || mm.State().pool.free == {}
      ensures r == 0 ==> Snap() == old(Snap()) && mem == old(mem)
      ensures r != 0 ==> IsLive(Snap(), r) && newSize <= Usable(spans, slabs, BlockAt(slabs, r))
      ensures r != 0 ==>
                Moved(old(Snap()), old(mem), BlockAt(old(slabs), ptr), Snap(), mem, BlockAt(slabs, r), newSize)
      ensures old(Window()) && old(Ample(PagesFor(newSize))) ==> Window()
    {
      hide Inv;
      hide Tagged;
      hide OnlyTags;
      hide BlockAt;
      hide Addr;
      hide Usable;
      hide Moved;
      hide Copied;
      hide SpanPages;
      hide Ready;
      hide Window;
      hide Ample;
      hide CanGrow;
      hide Rejects;
      hide W.Attempt;
      ghost var h := Snap();
      ghost var x := BlockAt(slabs, ptr);
      BlockAtAddr(h, x);
      r := Kmalloc(newSize);
      if r == 0 {
        return;
      }
      ghost var n, m := Snap(), mem;
      ghost var z := BlockAt(slabs, r);
      mem := Copied(mem, r, ptr, oldSize);
      CopyKeepsTags(n, m, z, ptr, oldSize);
      StillLive(h, n, x, ptr);
      assert Snap() == n;
      Kfree(ptr);
      CopyIsMove(h, n, Snap(), x, z, newSize, old(mem), m, mem, oldSize);
      StillLive(n, Snap(), z, r);
    }
  }
}
