/**
 Where every physical frame is, over whole runs of the memory operations: free, reserved, a page
 table, or the data frame of exactly one page, a user page or a page of the kernel heap.
 */
module Ownership {
  import opened Lists
  import opened Machine
  import opened FrameAllocator
  import opened PageTables
  import opened Addresses
  import opened AddressSpaces
  import opened Ranges
  import opened TableCost
  import L = LargeTier
  import W = HeapWindow

  /** The pages of the heap window: 128 page tables under PML4 slot 511. */
  predicate HeapPath(p: Path) {
    p.i4 == 511 && p.i3 == 0 && p.i2 < 128
  }

  lemma WindowPaths(i: nat)
    requires L.BASE <= i < L.BASE + L.MAX_PAGES
    ensures HeapPath(PathOfPage(i))
  {
    WindowIndexes(i - L.BASE);
  }

  lemma WindowIndexes(d: nat)
    requires d < L.MAX_PAGES
    ensures PathOfPage(L.BASE + d) == Path(511, 0, d / 512, d % 512)
  {
    var k := L.BASE + d;
    assert L.BASE == 0x1FF_FFFF * 0x800_0000;
    assert k / 0x800_0000 == 0x1FF_FFFF;
    assert L.BASE == 0x3FFF_FFE00 * 0x4_0000;
    assert k / 0x4_0000 == 0x3FFF_FFE00;
    assert L.BASE == 0x7FFFFFC0000 * 0x200;
    assert k / 0x200 == 0x7FFFFFC0000 + d / 512;
  }

  /** Pages that own their frame: lower-half pages of processes, and the kernel's heap pages. */
  predicate Owned(m: Tables, k: nat, r: nat, p: Path) {
    Root(m, r) && if r == k then HeapPath(p) else p.i4 < 256
  }

  ghost predicate Maps(m: Tables, k: nat, r: nat, p: Path, f: nat) {
    Owned(m, k, r, p) && Leaf(m, r, p).Some? && FrameAt(m, r, p) == f
  }

  /** Data frames and mapped pages that own theirs correspond one to one. */
  ghost predicate SinglyMapped(s: Memory, k: nat) {
    && (forall r, p, f :: Maps(s.tables, k, r, p, f) ==> f in s.data)
    && (forall r, p, q, o, f :: Maps(s.tables, k, r, p, f) && Maps(s.tables, k, q, o, f) ==> r == q && p == o)
    && (forall f :: f in s.data ==> exists r, p :: Maps(s.tables, k, r, p, f))
  }

  /** Each frame is in exactly one of: the pool, the reserved frames, the tables, the data frames. */
  ghost predicate Partitioned(s: Memory, reserved: set<nat>) {
    && reserved !! s.pool.free && reserved !! s.tables.Keys && reserved !! s.data.Keys
    && s.pool.free + reserved + s.tables.Keys + s.data.Keys == Interval(0, MAX_FRAMES)
  }

  ghost predicate Conserved(s: Memory, k: nat, reserved: set<nat>) {
    WellFormed(s) && Root(s.tables, k) && SinglyMapped(s, k) && Partitioned(s, reserved)
  }

  // ---------------------------------------------------------------- operations

  datatype Op =
    | Back(root: nat, path: Path, flags: Flags)
    | Unback(root: nat, path: Path, off: nat)
    | KernelMap(path: Path, frame: nat, flags: Flags)
    | Fresh

  /** What the operations are for: owned pages are backed and unbacked, the kernel maps outside its heap window. */
  ghost predicate Posed(s: Memory, k: nat, op: Op) {
    match op
    case Back(r, p, fl) => Owned(s.tables, k, r, p) && fl.present
    case Unback(r, p, _) => Owned(s.tables, k, r, p)
    case KernelMap(p, _, _) => !HeapPath(p)
    case Fresh => true
  }

  /** A page is backed only where nothing is mapped and with frames for its tables too, or there is no frame to take. */
  ghost predicate Spare(s: Memory, op: Op) {
    op.Back? ==>
      || s.pool.free == {}
      || (Leaf(s.tables, op.root, op.path) == None && |s.pool.free| >= 1 + Missing(s.tables, op.root, op.path))
  }

  ghost predicate Allowed(s: Memory, k: nat, op: Op) {
    Posed(s, k, op) && Spare(s, op)
  }

  ghost function Do(s: Memory, k: nat, op: Op): (n: Memory)
    requires ValidPool(s.pool)
    ensures ValidPool(n.pool)
  {
    match op
    case Back(r, p, fl) => AllocMap(s, r, p, fl).0
    case Unback(r, p, off) => FreePage(s, r, p, off)
    case KernelMap(p, f, fl) => Map(s, k, p, f, fl).0
    case Fresh => if k in s.tables then CreateSpace(s, k).0 else s
  }

  /** From m to n no root appeared and no user page changed, except page p of r. */
  ghost predicate OnlyPage(m: Tables, n: Tables, k: nat, r: nat, p: Path) {
    forall q, o :: Owned(n, k, q, o) ==>
      Owned(m, k, q, o) && ((q == r && o == p) || Leaf(n, q, o) == Leaf(m, q, o))
  }

  lemma MapTouchesOnlyPage(s: Memory, k: nat, r: nat, p: Path, f: nat, fl: Flags)
    requires WellFormed(s) && Root(s.tables, r) && (r == k || p.i4 < 256)
    ensures OnlyPage(s.tables, Map(s, r, p, f, fl).0.tables, k, r, p)
  {
    hide Leaf;
    hide Map;
    hide Forest;
    var (n, ok) := Map(s, r, p, f, fl);
    MapRefinesUpdate(s, r, p, f, fl);
    forall q, o | Owned(n.tables, k, q, o)
      ensures Owned(s.tables, k, q, o) && ((q == r && o == p) || Leaf(n.tables, q, o) == Leaf(s.tables, q, o))
    {
      MapWritesRootSlot(s, r, p, f, fl, q);
      if ok && !(q == r && o == p) {
        UpdateKeepsOthers(s.tables, n.tables, r, p, Entry(f, fl), q, o);
      }
    }
  }

  /** A new data frame f, mapped at page p only, keeps the correspondence. */
  lemma AddPage(s: Memory, n: Memory, k: nat, r: nat, p: Path, f: nat)
    requires SinglyMapped(s, k) && OnlyPage(s.tables, n.tables, k, r, p) && Grows(s.tables, n.tables)
    requires Owned(n.tables, k, r, p) && Leaf(s.tables, r, p) == None
    requires Leaf(n.tables, r, p).Some? && FrameAt(n.tables, r, p) == f
    requires f !in s.data && n.data.Keys == s.data.Keys + {f}
    ensures SinglyMapped(n, k)
  {
    hide Leaf;
    assert forall q, o, g :: Maps(n.tables, k, q, o, g) ==> Maps(s.tables, k, q, o, g) || (q == r && o == p && g == f);
    forall g | g in n.data
      ensures exists q, o :: Maps(n.tables, k, q, o, g)
    {
      if g == f {
        assert Maps(n.tables, k, r, p, f);
      } else {
        var q, o :| Maps(s.tables, k, q, o, g);
        assert Maps(n.tables, k, q, o, g);
      }
    }
  }

  /** Dropping page p and its frame keeps it too. */
  lemma DropPage(s: Memory, n: Memory, k: nat, r: nat, p: Path, f: nat)
    requires SinglyMapped(s, k) && OnlyPage(s.tables, n.tables, k, r, p) && Grows(s.tables, n.tables)
    requires Maps(s.tables, k, r, p, f) && Leaf(n.tables, r, p) == None
    requires n.data.Keys == s.data.Keys - {f}
    ensures SinglyMapped(n, k)
  {
    hide Leaf;
    assert forall q, o, g :: Maps(n.tables, k, q, o, g) ==> Maps(s.tables, k, q, o, g) && !(q == r && o == p);
    forall g | g in n.data
      ensures exists q, o :: Maps(n.tables, k, q, o, g)
    {
      var q, o :| Maps(s.tables, k, q, o, g);
      assert Maps(n.tables, k, q, o, g);
    }
  }

  /** Operations that leave user pages and data alone keep it. */
  lemma SamePages(s: Memory, n: Memory, k: nat)
    requires SinglyMapped(s, k) && Grows(s.tables, n.tables) && n.data == s.data
    requires forall q, o :: Owned(n.tables, k, q, o) && Leaf(n.tables, q, o).Some? ==> Owned(s.tables, k, q, o)
    requires forall q, o :: Owned(s.tables, k, q, o) ==> Leaf(n.tables, q, o) == Leaf(s.tables, q, o)
    ensures SinglyMapped(n, k)
  {
    hide Leaf;
    assert forall q, o, g :: Maps(n.tables, k, q, o, g) <==> Maps(s.tables, k, q, o, g);
  }

  lemma BackConserves(s: Memory, k: nat, reserved: set<nat>, r: nat, p: Path, fl: Flags)
    requires Conserved(s, k, reserved) && Allowed(s, k, Back(r, p, fl))
    ensures Conserved(AllocMap(s, r, p, fl).0, k, reserved)
  {
    hide Leaf;
    hide AllocMap;
    hide Forest;
    hide SinglyMapped;
    hide OnlyPage;
    hide Updated;
    hide SameLeaves;
    hide Missing;
    hide Partitioned;
    AllocMapKeeps(s, r, p, fl);
    if s.pool.free != {} {
      AllocMapUpdates(s, r, p, fl);
      AllocMapMapsIffEnough(s, r, p, fl);
      var (n, f) := AllocMap(s, r, p, fl);
      AllocMapTouchesOnlyPage(s, k, r, p, fl);
      assert Root(n.tables, r);
      AddPage(s, n, k, r, p, f);
      PartitionMoves(s, n, reserved, {f});
    }
  }

  /** A data frame that no page maps: vmm_free_range will never give it back. */
  ghost predicate Orphan(s: Memory, k: nat, f: nat) {
    f in s.data && forall r, p :: !Maps(s.tables, k, r, p, f)
  }

  lemma OrphanBreaks(s: Memory, k: nat, reserved: set<nat>, f: nat)
    requires Orphan(s, k, f)
    ensures !Conserved(s, k, reserved)
  {
    hide Maps;
  }

  /** Too few frames for the tables: the fresh frame itself ends up with no page. */
  lemma ShortageOrphans(s: Memory, k: nat, reserved: set<nat>, r: nat, p: Path, fl: Flags)
    requires Conserved(s, k, reserved) && Owned(s.tables, k, r, p)
    requires 1 <= |s.pool.free| < 1 + Missing(s.tables, r, p)
    ensures var (n, f) := AllocMap(s, r, p, fl); Orphan(n, k, f)
  {
    hide Leaf;
    hide AllocMap;
    hide Forest;
    hide Missing;
    AllocMapKeeps(s, r, p, fl);
    AllocMapUpdates(s, r, p, fl);
    AllocMapTouchesOnlyPage(s, k, r, p, fl);
    var (n, f) := AllocMap(s, r, p, fl);
    assert forall q, o :: Maps(n.tables, k, q, o, f) ==> Maps(s.tables, k, q, o, f);
  }

  /** A page that is mapped already: the frame it had ends up with no page. */
  lemma RemapOrphans(s: Memory, k: nat, reserved: set<nat>, r: nat, p: Path, fl: Flags)
    requires Conserved(s, k, reserved) && Owned(s.tables, k, r, p) && fl.present
    requires Leaf(s.tables, r, p).Some? && |s.pool.free| >= 1 + Missing(s.tables, r, p)
    ensures Orphan(AllocMap(s, r, p, fl).0, k, FrameAt(s.tables, r, p))
  {
    hide Leaf;
    hide AllocMap;
    hide Forest;
    hide Missing;
    hide OnlyPage;
    hide Updated;
    hide Grows;
    hide Partitioned;
    hide SinglyMapped;
    hide Maps;
    hide SameLeaves;
    AllocMapKeeps(s, r, p, fl);
    AllocMapUpdates(s, r, p, fl);
    AllocMapTouchesOnlyPage(s, k, r, p, fl);
    var (n, f) := AllocMap(s, r, p, fl);
    MapsItself(s, k, r, p);
    UpdatedHere(s.tables, n.tables, r, p, Entry(f, fl));
    PageGone(s, n.tables, k, r, p);
  }

  lemma MapsItself(s: Memory, k: nat, r: nat, p: Path)
    requires SinglyMapped(s, k) && Owned(s.tables, k, r, p) && Leaf(s.tables, r, p).Some?
    ensures Maps(s.tables, k, r, p, FrameAt(s.tables, r, p)) && FrameAt(s.tables, r, p) in s.data
  {
    hide Leaf;
    assert Maps(s.tables, k, r, p, FrameAt(s.tables, r, p));
  }

  lemma UpdatedHere(m: Tables, n: Tables, r: nat, p: Path, e: Entry)
    requires Updated(m, n, r, p, e) && Root(m, r)
    ensures Leaf(n, r, p) == IfPresent(e)
  {
  }

  /** If only page p of r changed, and it changed its frame, then nothing maps the old frame any more. */
  lemma PageGone(s: Memory, n: Tables, k: nat, r: nat, p: Path)
    requires SinglyMapped(s, k) && Maps(s.tables, k, r, p, FrameAt(s.tables, r, p))
    requires OnlyPage(s.tables, n, k, r, p) && FrameAt(n, r, p) != FrameAt(s.tables, r, p)
    ensures forall q, o :: !Maps(n, k, q, o, FrameAt(s.tables, r, p))
  {
    hide Leaf;
    var g := FrameAt(s.tables, r, p);
    assert forall q, o :: Maps(n, k, q, o, g) ==> Maps(s.tables, k, q, o, g) && !(q == r && o == p);
  }

  /**
   Backing an owned page conserves the frames exactly when vmm_alloc_map found no frame at all, or the
   page was unmapped and there were frames for it and its tables.
   */
  lemma BackConservesIff(s: Memory, k: nat, reserved: set<nat>, r: nat, p: Path, fl: Flags)
    requires Conserved(s, k, reserved) && Owned(s.tables, k, r, p) && fl.present
    ensures Conserved(AllocMap(s, r, p, fl).0, k, reserved) <==>
            || s.pool.free == {}
            || (Leaf(s.tables, r, p) == None && |s.pool.free| >= 1 + Missing(s.tables, r, p))
  {
    hide Leaf;
    hide AllocMap;
    hide Missing;
    hide Conserved;
    hide Orphan;
    hide Owned;
    ConservedRoot(s, k, reserved);
    var (n, f) := AllocMap(s, r, p, fl);
    if Spare(s, Back(r, p, fl)) {
      BackConserves(s, k, reserved, r, p, fl);
    } else if |s.pool.free| < 1 + Missing(s.tables, r, p) {
      ShortageOrphans(s, k, reserved, r, p, fl);
      OrphanBreaks(n, k, reserved, f);
    } else {
      RemapOrphans(s, k, reserved, r, p, fl);
      OrphanBreaks(n, k, reserved, FrameAt(s.tables, r, p));
    }
  }

  /** Frames that leave the pool for tables or data keep the partition. */
  lemma PartitionMoves(s: Memory, n: Memory, reserved: set<nat>, fs: set<nat>)
    requires Partitioned(s, reserved) && fs <= s.pool.free
    requires s.tables.Keys <= n.tables.Keys <= s.tables.Keys + s.pool.free
    requires n.data.Keys == s.data.Keys + fs
    requires n.pool.free == s.pool.free - n.tables.Keys - fs
    ensures Partitioned(n, reserved)
  {
    hide Interval;
  }

  lemma PartitionLoses(s: Memory, n: Memory, reserved: set<nat>, f: nat)
    requires Partitioned(s, reserved) && f in s.data && n.tables.Keys == s.tables.Keys
    requires n.data.Keys == s.data.Keys - {f} && n.pool.free == s.pool.free + {f}
    ensures Partitioned(n, reserved)
  {
    hide Interval;
  }

  lemma AllocMapTouchesOnlyPage(s: Memory, k: nat, r: nat, p: Path, fl: Flags)
    requires WellFormed(s) && Root(s.tables, r) && (r == k || p.i4 < 256)
    ensures OnlyPage(s.tables, AllocMap(s, r, p, fl).0.tables, k, r, p)
  {
    hide Leaf;
    hide Map;
    hide Forest;
    if s.pool.free != {} {
      var (pool, f) := Take(s.pool);
      MapTouchesOnlyPage(s.(pool := pool, data := s.data[f := Zeros(PAGE_SIZE)]), k, r, p, f, fl);
    }
  }

  lemma FreePageTouchesOnlyPage(s: Memory, k: nat, r: nat, p: Path, off: nat)
    requires WellFormed(s) && Root(s.tables, r) && (r == k || p.i4 < 256)
    requires Leaf(s.tables, r, p).Some? && FrameAt(s.tables, r, p) in s.data
    ensures OnlyPage(s.tables, FreePage(s, r, p, off).tables, k, r, p)
  {
    hide Leaf;
    hide Forest;
    FreePageReleases(s, r, p, off);
    var n := FreePage(s, r, p, off);
    forall q, o | Owned(n.tables, k, q, o)
      ensures Owned(s.tables, k, q, o) && ((q == r && o == p) || Leaf(n.tables, q, o) == Leaf(s.tables, q, o))
    {
      if !(q == r && o == p) {
        UpdateKeepsOthers(s.tables, n.tables, r, p, EMPTY, q, o);
      }
    }
  }

  lemma UnbackConserves(s: Memory, k: nat, reserved: set<nat>, r: nat, p: Path, off: nat)
    requires Conserved(s, k, reserved) && Owned(s.tables, k, r, p)
    ensures Conserved(FreePage(s, r, p, off), k, reserved)
  {
    hide Leaf;
    hide Forest;
    hide Partitioned;
    hide OnlyPage;
    if Leaf(s.tables, r, p).Some? {
      var f := FrameAt(s.tables, r, p);
      assert Maps(s.tables, k, r, p, f);
      FreePageReleases(s, r, p, off);
      FreePageTouchesOnlyPage(s, k, r, p, off);
      var n := FreePage(s, r, p, off);
      DropPage(s, n, k, r, p, f);
      PartitionLoses(s, n, reserved, f);
    }
  }

  lemma KernelMapConserves(s: Memory, k: nat, reserved: set<nat>, p: Path, f: nat, fl: Flags)
    requires Conserved(s, k, reserved) && !HeapPath(p)
    ensures Conserved(Map(s, k, p, f, fl).0, k, reserved)
  {
    hide Leaf;
    hide Map;
    hide Forest;
    hide SinglyMapped;
    hide Updated;
    hide SameLeaves;
    hide Missing;
    hide Partitioned;
    MapRefinesUpdate(s, k, p, f, fl);
    MapTouchesOnlyPage(s, k, k, p, f, fl);
    var n := Map(s, k, p, f, fl).0;
    SamePages(s, n, k);
    PartitionMoves(s, n, reserved, {});
  }

  lemma FreshConserves(s: Memory, k: nat, reserved: set<nat>)
    requires Conserved(s, k, reserved)
    ensures Conserved(CreateSpace(s, k).0, k, reserved)
  {
    hide Leaf;
    hide Forest;
    hide SinglyMapped;
    CreateSpaceSharesKernel(s, k);
    var (n, r) := CreateSpace(s, k);
    if r != 0 {
      SamePages(s, n, k);
      assert Partitioned(n, reserved);
    }
  }

  lemma DoConservesIff(s: Memory, k: nat, reserved: set<nat>, op: Op)
    requires Conserved(s, k, reserved) && Posed(s, k, op)
    ensures Conserved(Do(s, k, op), k, reserved) <==> Spare(s, op)
  {
    hide Conserved;
    match op
    case Back(r, p, fl) => BackConservesIff(s, k, reserved, r, p, fl);
    case Unback(r, p, off) => UnbackConserves(s, k, reserved, r, p, off);
    case KernelMap(p, f, fl) => KernelMapConserves(s, k, reserved, p, f, fl);
    case Fresh => FreshConserves(s, k, reserved);
  }

  // ---------------------------------------------------------------- runs

  ghost function DoAll(s: Memory, k: nat, ops: seq<Op>): (n: Memory)
    requires ValidPool(s.pool)
    ensures ValidPool(n.pool)
  {
    if ops == [] then s else Do(DoAll(s, k, ops[..|ops| - 1]), k, ops[|ops| - 1])
  }

  ghost predicate AllPosed(s: Memory, k: nat, ops: seq<Op>)
    requires ValidPool(s.pool)
  {
    ops == [] || (AllPosed(s, k, ops[..|ops| - 1]) && Posed(DoAll(s, k, ops[..|ops| - 1]), k, ops[|ops| - 1]))
  }

  ghost predicate AllSpare(s: Memory, k: nat, ops: seq<Op>)
    requires ValidPool(s.pool)
  {
    ops == [] || (AllSpare(s, k, ops[..|ops| - 1]) && Spare(DoAll(s, k, ops[..|ops| - 1]), ops[|ops| - 1]))
  }

  /** The frames are conserved before the run, after it and at every point between. */
  ghost predicate ConservedThroughout(s: Memory, k: nat, reserved: set<nat>, ops: seq<Op>)
    requires ValidPool(s.pool)
  {
    Conserved(DoAll(s, k, ops), k, reserved)
    && (ops == [] || ConservedThroughout(s, k, reserved, ops[..|ops| - 1]))
  }

  /**
   A run keeps the frames partitioned, every data frame mapped exactly once, at every point exactly when
   each of its steps that backs a page had the frames to spare and the page unmapped, or no frame to take.
   */
  lemma {:induction false} RunsConserveIff(s: Memory, k: nat, reserved: set<nat>, ops: seq<Op>)
    requires Conserved(s, k, reserved) && AllPosed(s, k, ops)
    ensures ConservedThroughout(s, k, reserved, ops) <==> AllSpare(s, k, ops)
  {
    hide Conserved;
    hide Posed;
    hide Spare;
    hide Do;
    ConservedRoot(s, k, reserved);
    if ops != [] {
      var front := ops[..|ops| - 1];
      RunsConserveIff(s, k, reserved, front);
      if ConservedThroughout(s, k, reserved, front) {
        DoConservesIff(DoAll(s, k, front), k, reserved, ops[|ops| - 1]);
      }
    }
  }

  /** So the four counts always add up to the frames there are. */
  lemma CountsAddUp(s: Memory, k: nat, reserved: set<nat>)
    requires Conserved(s, k, reserved)
    ensures |s.pool.free| + |reserved| + |s.tables| + |s.data| == MAX_FRAMES
  {
    hide Forest;
    hide SinglyMapped;
    IntervalSize(0, MAX_FRAMES);
    var a := s.pool.free + reserved;
    var b := a + s.tables.Keys;
    assert |a| == |s.pool.free| + |reserved|;
    assert |b| == |a| + |s.tables.Keys|;
    assert |b + s.data.Keys| == |b| + |s.data.Keys|;
  }

  /** vmm_alloc_range on an unmapped range, of user or heap pages, with the frames it demands. */
  lemma {:induction false} AllocRangeConserves(s: Memory, k: nat, reserved: set<nat>, r: nat, ps: seq<Path>, c: nat,
                                               fl: Flags)
    requires Conserved(s, k, reserved) && c <= |ps| && Distinct(ps) && fl.present
    requires Root(s.tables, r) && forall i :: 0 <= i < |ps| ==> Owned(s.tables, k, r, ps[i])
    requires Unmapped(s.tables, r, ps, c) && |s.pool.free| >= Demand(s.tables, r, ps, c)
    ensures Conserved(AllocPages(s, r, ps, c, fl).0, k, reserved)
  {
    hide Leaf;
    hide Forest;
    hide SinglyMapped;
    hide Partitioned;
    hide AllocMap;
    hide Backed;
    hide SpentOnData;
    hide Missing;
    hide OthersKept;
    hide Made;
    hide Needs;
    hide NeedsOf;
    if c > 0 {
      CostMonotone(s.tables, r, ps, c - 1);
      AllocRangeConserves(s, k, reserved, r, ps, c - 1, fl);
      AllocRangeBacks(s, r, ps, c - 1, fl);
      var m := AllocPages(s, r, ps, c - 1, fl).0;
      CostGrows(s.tables, m.tables, r, ps, c - 1);
      StillUnmapped(s, m, r, ps, c - 1);
      BackConserves(m, k, reserved, r, ps[c - 1], fl);
    }
  }

  /** An orphan stays one, whatever owned page is backed next. */
  lemma OrphanStays(s: Memory, k: nat, r: nat, p: Path, fl: Flags, g: nat)
    requires WellFormed(s) && Owned(s.tables, k, r, p) && Orphan(s, k, g)
    ensures Orphan(AllocMap(s, r, p, fl).0, k, g)
  {
    hide Leaf;
    hide AllocMap;
    hide Forest;
    hide Missing;
    AllocMapKeeps(s, r, p, fl);
    AllocMapUpdates(s, r, p, fl);
    AllocMapTouchesOnlyPage(s, k, r, p, fl);
    var (n, f) := AllocMap(s, r, p, fl);
    assert forall q, o :: Maps(n.tables, k, q, o, g) ==> Maps(s.tables, k, q, o, g) || (f != 0 && g == f);
  }

  /** Some number of pages of the range takes exactly the free frames there are. */
  ghost predicate ComesOut(m: Tables, r: nat, ps: seq<Path>, c: nat, free: nat)
    requires c <= |ps|
  {
    exists i :: 0 <= i < c && free == Demand(m, r, ps, i)
  }

  /** Neither enough frames for the whole range nor exactly enough for a part of it: one of them is orphaned. */
  lemma {:induction false} AllocRangeOrphans(s: Memory, k: nat, reserved: set<nat>, r: nat, ps: seq<Path>, c: nat,
                                             fl: Flags) returns (g: nat)
    requires Conserved(s, k, reserved) && c <= |ps| && Distinct(ps) && fl.present
    requires Root(s.tables, r) && forall i :: 0 <= i < |ps| ==> Owned(s.tables, k, r, ps[i])
    requires Unmapped(s.tables, r, ps, c) && |s.pool.free| < Demand(s.tables, r, ps, c)
    requires !ComesOut(s.tables, r, ps, c, |s.pool.free|)
    ensures Orphan(AllocPages(s, r, ps, c, fl).0, k, g)
  {
    hide Leaf;
    hide Forest;
    hide SinglyMapped;
    hide Partitioned;
    hide AllocMap;
    hide Backed;
    hide SpentOnData;
    hide Missing;
    hide OthersKept;
    hide Orphan;
    hide Made;
    hide Needs;
    hide NeedsOf;
    hide Distinct;
    if c == 0 {
      NoPagesNoCost(s.tables, r, ps);
    } else {
      AllocRangeKeepsOthers(s, r, ps, c - 1, fl);
      var (m, ok) := AllocPages(s, r, ps, c - 1, fl);
      RootStays(s.tables, m.tables, r);
      if |s.pool.free| < Demand(s.tables, r, ps, c - 1) {
        g := AllocRangeOrphans(s, k, reserved, r, ps, c - 1, fl);
        OrphanStays(m, k, r, ps[c - 1], fl, g);
      } else {
        AllocRangeConserves(s, k, reserved, r, ps, c - 1, fl);
        AllocRangeBacks(s, r, ps, c - 1, fl);
        CostGrows(s.tables, m.tables, r, ps, c - 1);
        ShortageOrphans(m, k, reserved, r, ps[c - 1], fl);
        g := AllocMap(m, r, ps[c - 1], fl).1;
        AllocMapKeeps(m, r, ps[c - 1], fl);
      }
    }
  }

  /** Exactly enough for i pages: there vmm_alloc_range stops, and nothing is lost. */
  lemma AllocRangeStops(s: Memory, k: nat, reserved: set<nat>, r: nat, ps: seq<Path>, i: nat, c: nat, fl: Flags)
    requires Conserved(s, k, reserved) && i < c <= |ps| && Distinct(ps) && fl.present
    requires Root(s.tables, r) && forall j :: 0 <= j < |ps| ==> Owned(s.tables, k, r, ps[j])
    requires Unmapped(s.tables, r, ps, c) && |s.pool.free| == Demand(s.tables, r, ps, i)
    ensures Conserved(AllocPages(s, r, ps, c, fl).0, k, reserved)
  {
    hide Leaf;
    hide Conserved;
    hide AllocPages;
    hide Owned;
    hide Demand;
    hide Distinct;
    ConservedRoot(s, k, reserved);
    AllocRangeConserves(s, k, reserved, r, ps, i, fl);
    StopsAt(s, r, ps, i, c, fl);
  }

  lemma StopsAt(s: Memory, r: nat, ps: seq<Path>, i: nat, c: nat, fl: Flags)
    requires WellFormed(s) && Root(s.tables, r) && i < c <= |ps| && Distinct(ps) && fl.present
    requires |s.pool.free| == Demand(s.tables, r, ps, i)
    ensures AllocPages(s, r, ps, c, fl) == (AllocPages(s, r, ps, i, fl).0, false)
  {
    hide Leaf;
    hide Forest;
    hide AllocMap;
    hide RangeAllocated;
    hide OthersKept;
    hide Demand;
    hide Made;
    hide Distinct;
    hide Grows;
    AllocRangeBacks(s, r, ps, i, fl);
    AllocRangeKeepsOthers(s, r, ps, i, fl);
    var m := AllocPages(s, r, ps, i, fl).0;
    RootStays(s.tables, m.tables, r);
    AllocMapKeeps(m, r, ps[i], fl);
    FailureSticks(s, r, ps, i + 1, c, fl);
  }

  /**
   On an unmapped range the frames are conserved exactly when they cover the whole demand, or come out even
   with that of a part of the range.
   */
  lemma AllocRangeConservesIff(s: Memory, k: nat, reserved: set<nat>, r: nat, ps: seq<Path>, c: nat, fl: Flags)
    requires Conserved(s, k, reserved) && c <= |ps| && Distinct(ps) && fl.present
    requires Root(s.tables, r) && forall i :: 0 <= i < |ps| ==> Owned(s.tables, k, r, ps[i])
    requires Unmapped(s.tables, r, ps, c)
    ensures Conserved(AllocPages(s, r, ps, c, fl).0, k, reserved) <==>
            || |s.pool.free| >= Demand(s.tables, r, ps, c)
            || ComesOut(s.tables, r, ps, c, |s.pool.free|)
  {
    hide Leaf;
    hide Conserved;
    hide AllocPages;
    hide Owned;
    hide Unmapped;
    hide Demand;
    hide Distinct;
    ConservedRoot(s, k, reserved);
    if |s.pool.free| >= Demand(s.tables, r, ps, c) {
      AllocRangeConserves(s, k, reserved, r, ps, c, fl);
    } else if ComesOut(s.tables, r, ps, c, |s.pool.free|) {
      var i :| 0 <= i < c && |s.pool.free| == Demand(s.tables, r, ps, i);
      AllocRangeStops(s, k, reserved, r, ps, i, c, fl);
    } else {
      var g := AllocRangeOrphans(s, k, reserved, r, ps, c, fl);
      OrphanBreaks(AllocPages(s, r, ps, c, fl).0, k, reserved, g);
    }
  }

  /** vmm_free_range on any user range, mapped or not, is one too. */
  lemma {:induction false} FreeRangeConserves(s: Memory, k: nat, reserved: set<nat>, r: nat, ps: seq<Path>, off: nat,
                                              c: nat)
    requires Conserved(s, k, reserved) && c <= |ps|
    requires Root(s.tables, r) && forall i :: 0 <= i < |ps| ==> Owned(s.tables, k, r, ps[i])
    ensures Conserved(FreePages(s, r, ps, off, c), k, reserved) && Root(FreePages(s, r, ps, off, c).tables, r)
  {
    hide Leaf;
    hide Forest;
    hide Partitioned;
    if c > 0 {
      FreeRangeConserves(s, k, reserved, r, ps, off, c - 1);
      var m := FreePages(s, r, ps, off, c - 1);
      UnbackConserves(m, k, reserved, r, ps[c - 1], off);
      if Leaf(m.tables, r, ps[c - 1]).Some? {
        assert Maps(m.tables, k, r, ps[c - 1], FrameAt(m.tables, r, ps[c - 1]));
        FreePageReleases(m, r, ps[c - 1], off);
      }
    }
  }

  /** Where the frames are conserved, the pages a process owns are such as vmm_free_range expects. */
  lemma ConservedReleasable(s: Memory, k: nat, reserved: set<nat>, r: nat, ps: seq<Path>)
    requires Conserved(s, k, reserved) && forall i :: 0 <= i < |ps| ==> Owned(s.tables, k, r, ps[i])
    ensures Releasable(s, r, ps)
  {
    hide Leaf;
    hide Forest;
    hide Partitioned;
    assert forall i :: 0 <= i < |ps| && Leaf(s.tables, r, ps[i]).Some? ==>
        Maps(s.tables, k, r, ps[i], FrameAt(s.tables, r, ps[i]));
  }

  /** So for heap_map_pages on fresh pages: the frames of the heap are data frames too. */
  lemma HeapGrowthConservesIff(s: Memory, k: nat, reserved: set<nat>, cursor: nat, c: nat)
    requires Conserved(s, k, reserved) && L.BASE <= cursor && cursor + c <= L.BASE + L.MAX_PAGES
    requires Unmapped(s.tables, k, PathsFrom(cursor, c), c)
    ensures ValidPool(s.pool)
    ensures Conserved(W.Attempt(s, k, cursor, c, c).0, k, reserved) <==>
            || W.Enough(s, k, cursor, c)
            || ComesOut(s.tables, k, PathsFrom(cursor, c), c, |s.pool.free|)
  {
    hide PathOfPage;
    hide Conserved;
    hide HeapPath;
    hide AllocPages;
    hide Demand;
    hide Unmapped;
    hide ComesOut;
    hide Distinct;
    var ps := PathsFrom(cursor, c);
    ConservedRoot(s, k, reserved);
    forall i | 0 <= i < c
      ensures Owned(s.tables, k, k, ps[i])
    {
      WindowPaths(cursor + i);
    }
    RangesAreDistinct(cursor, c);
    AllocRangeConservesIff(s, k, reserved, k, ps, c, W.HEAP_FLAGS);
  }

  lemma ConservedRoot(s: Memory, k: nat, reserved: set<nat>)
    requires Conserved(s, k, reserved)
    ensures Root(s.tables, k) && WellFormed(s) && ValidPool(s.pool)
  {
  }

  /** The empty kernel root is a start for these runs as well: whatever is not free is reserved. */
  lemma BootConserves(s: Memory)
    requires WellFormed(s) && s.tables == map[] && s.data == map[] && s.pool.free != {}
    ensures var (n, k) := BootRoot(s);
            k != 0 && Conserved(n, k, Interval(0, MAX_FRAMES) - s.pool.free)
  {
    hide Leaf;
    BootRootStarts(s);
    var (n, k) := BootRoot(s);
    assert SinglyMapped(n, k) by {
      assert forall r, p, f :: !Maps(n.tables, k, r, p, f);
    }
    PoolInRange(s.pool);
    assert Partitioned(n, Interval(0, MAX_FRAMES) - s.pool.free);
  }

  lemma PoolInRange(p: Pool)
    requires ValidPool(p)
    ensures p.free <= Interval(0, MAX_FRAMES)
  {
    forall f | f in p.free
      ensures f in Interval(0, MAX_FRAMES)
    {
      assert Between(0, f, MAX_FRAMES);
    }
  }
}
