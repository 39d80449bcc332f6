/**
 sys_mmap and sys_munmap on top of the range operations, with the per-process mmap cursor.
 */
module UserMemory {
  import opened Machine
  import opened FrameAllocator
  import opened PageTables
  import opened Addresses
  import opened AddressSpaces
  import opened Ranges
  import opened MemoryManager
  import O = Ownership

  const MMAP_BASE: U64 := 0x5000_0000_0000
  const MMAP_FLAGS: Flags := USER_RW.(noExec := true)

  datatype Result = Mapped(va: U64) | Unmapped | EInval | ESrch | ENoMem

  class Task {
    const cr3: nat
    var mmapCursor: U64

    constructor (root: nat)
      ensures cr3 == root && mmapCursor == 0x5000_0000_0000
    {
      cr3, mmapCursor := root, MMAP_BASE;
    }
  }

  /** Where a call maps: at its hint, rounded down, or at the cursor. */
  function Target(addr: U64, cursor: U64): (va: U64) {
    if addr != 0 then PageAlignDown(addr) else cursor
  }

  lemma AlignedCount(length: U64)
    ensures PageAlignUp(length) % PAGE_SIZE == 0
    ensures PageCount(PageAlignUp(length)) == PageCount(length)
  {
    var a := PageAlignUp(length);
    assert a == a / PAGE_SIZE * PAGE_SIZE && a + PAGE_SIZE <= TWO64;
  }

  // ---------------------------------------------------------------- the calls on values

  datatype Call = Mmap(addr: U64, length: U64) | Munmap(addr: U64, length: U64)

  /** Memory and the cursor of one process. */
  datatype Session = Session(s: Memory, cursor: U64)

  /** The range allocation an mmap call with a length leads to. */
  ghost function Mapping(x: Session, root: nat, addr: U64, length: U64): (d: (Memory, bool))
    requires ValidPool(x.s.pool)
    ensures ValidPool(d.0.pool)
  {
    var c := PageCount(length);
    AllocPages(x.s, root, PathsFrom(Target(addr, x.cursor) / PAGE_SIZE, c), c, MMAP_FLAGS)
  }

  ghost function AfterCall(x: Session, root: nat, call: Call): (y: Session)
    requires ValidPool(x.s.pool)
    ensures ValidPool(y.s.pool)
  {
    match call
    case Mmap(addr, length) =>
      if length == 0 then x
      else
        var (n, ok) := Mapping(x, root, addr, length);
        Session(n, if ok && addr == 0 then Wrap64(x.cursor + PageAlignUp(length)) else x.cursor)
    case Munmap(addr, length) =>
      if addr == 0 || length == 0 then x
      else
        var c := PageCount(length);
        x.(s := FreePages(x.s, root, PathsFrom(addr / PAGE_SIZE, c), addr % PAGE_SIZE, c))
  }

  /** What the call returns. */
  ghost function Answer(x: Session, root: nat, call: Call): (r: Result)
    requires ValidPool(x.s.pool)
  {
    match call
    case Mmap(addr, length) =>
      if length == 0 then EInval
      else if Mapping(x, root, addr, length).1 then Mapped(Target(addr, x.cursor)) else ENoMem
    case Munmap(addr, length) =>
      if addr == 0 || length == 0 then EInval else Unmapped
  }

  /** A hint is rounded down to its page; without one the cursor is the address. */
  lemma AnsweredAddress(x: Session, root: nat, addr: U64, length: U64)
    requires ValidPool(x.s.pool) && Answer(x, root, Mmap(addr, length)).Mapped?
    ensures var va := Answer(x, root, Mmap(addr, length)).va;
            if addr == 0 then va == x.cursor else va % PAGE_SIZE == 0 && va <= addr < va + PAGE_SIZE
  {
    hide AllocPages;
  }

  // ---------------------------------------------------------------- the calls

  /** sys_mmap. */
  method SysMmap(mm: Mm, current: Task?, addr: U64, length: U64) returns (r: Result)
    requires mm.Valid() && (current != null ==> Root(mm.tables, current.cr3))
    modifies mm`tables, mm`data, mm.pmm, mm.pmm.bitmap, current
    ensures mm.Valid() && ValidPool(old(mm.State()).pool)
    ensures length == 0 ==> r == EInval
    ensures length != 0 && current == null ==> r == ESrch
    ensures length != 0 && current != null ==>
              var x := Session(old(mm.State()), old(current.mmapCursor));
              && Session(mm.State(), current.mmapCursor) == AfterCall(x, current.cr3, Mmap(addr, length))
              && r == Answer(x, current.cr3, Mmap(addr, length))
    ensures r.Mapped? && addr == 0 ==> r.va == old(current.mmapCursor)
    ensures r.Mapped? && addr != 0 ==> r.va % PAGE_SIZE == 0 && r.va <= addr < r.va + PAGE_SIZE
    ensures length == 0 || current == null ==> mm.State() == old(mm.State())
    ensures r == ENoMem ==> mm.State().pool.free == {}
  {
    hide Forest;
    hide PathOfPage;
    hide FreeIn;
    hide AllocPages;
    hide PageCount;
    hide PhysicalFrames.Valid;
    if length == 0 {
      return EInval;
    }
    if current == null {
      return ESrch;
    }
    AlignedCount(length);
    var va := Target(addr, current.mmapCursor);
    var nbytes: nat := PageAlignUp(length);
    ghost var ps, c := PathsFrom(va / PAGE_SIZE, PageCount(length)), PageCount(length);
    ghost var s := mm.State();
    var ok := mm.AllocPageRange(current.cr3, va, nbytes, MMAP_FLAGS);
    if !ok {
      FailureDrains(s, current.cr3, ps, c, MMAP_FLAGS);
      return ENoMem;
    }
    if addr == 0 {
      current.mmapCursor := Wrap64(va + nbytes);
    }
    r := Mapped(va);
  }

  /** sys_munmap, on a range whose mapped pages are data frames of their own. */
  method SysMunmap(mm: Mm, current: Task, addr: U64, length: U64) returns (r: Result)
    requires mm.Valid() && Root(mm.tables, current.cr3)
    requires Releasable(mm.State(), current.cr3, PathsFrom(addr / PAGE_SIZE, PageCount(length)))
    modifies mm`tables, mm`data, mm.pmm, mm.pmm.bitmap
    ensures mm.Valid() && ValidPool(old(mm.State()).pool)
    ensures r == (if addr == 0 || length == 0 then EInval else Unmapped)
    ensures r == EInval ==> mm.State() == old(mm.State())
    ensures var x := Session(old(mm.State()), current.mmapCursor);
            && Session(mm.State(), current.mmapCursor) == AfterCall(x, current.cr3, Munmap(addr, length))
            && r == Answer(x, current.cr3, Munmap(addr, length))
  {
    if addr == 0 || length == 0 {
      return EInval;
    }
    mm.FreePageRange(current.cr3, addr, length);
    r := Unmapped;
  }

  /** The pages a call works on. */
  function PagesOf(x: Session, call: Call): (ps: seq<Path>)
    ensures |ps| == PageCount(call.length)
  {
    var start := if call.Mmap? then Target(call.addr, x.cursor) else call.addr;
    PathsFrom(start / PAGE_SIZE, PageCount(call.length))
  }

  ghost function RunCalls(x: Session, root: nat, calls: seq<Call>): (y: Session)
    requires ValidPool(x.s.pool)
    ensures ValidPool(y.s.pool)
  {
    if calls == [] then x else AfterCall(RunCalls(x, root, calls[..|calls| - 1]), root, calls[|calls| - 1])
  }

  // ---------------------------------------------------------------- mmap then munmap

  lemma PagesFit(s: Memory, c: nat)
    requires WellFormed(s) && |s.pool.free| >= c
    ensures c < PAGES
  {
    hide Forest;
    var all := Interval(1, MAX_FRAMES);
    IntervalSize(1, MAX_FRAMES);
    assert s.pool.free <= all;
    assert all == s.pool.free + (all - s.pool.free);
    assert |all| == |s.pool.free| + |all - s.pool.free|;
  }

  /**
   An mmap of unmapped pages with the frames it demands, undone by the munmap of the same range, restores
   every translation of the process and every data frame; only page tables stay behind.
   */
  lemma MmapThenMunmap(x: Session, root: nat, addr: U64, length: U64, at: U64)
    requires WellFormed(x.s) && Root(x.s.tables, root) && length != 0
    requires at != 0 && at / PAGE_SIZE == (if addr != 0 then addr else x.cursor) / PAGE_SIZE
    requires Ranges.Unmapped(x.s.tables, root, PagesOf(x, Mmap(addr, length)), PageCount(length))
    requires |x.s.pool.free| >= Demand(x.s.tables, root, PagesOf(x, Mmap(addr, length)), PageCount(length))
    ensures var z := RunCalls(x, root, [Mmap(addr, length), Munmap(at, length)]).s;
            && Answer(x, root, Mmap(addr, length)).Mapped? && WellFormed(z)
            && (forall o :: Leaf(z.tables, root, o) == Leaf(x.s.tables, root, o))
            && (forall q, o: Path :: Root(x.s.tables, q) && (o.i4 < 256 || o !in PagesOf(x, Mmap(addr, length))) ==>
                  Leaf(z.tables, q, o) == Leaf(x.s.tables, q, o))
            && z.data == x.s.data
            && z.pool.free == x.s.pool.free - z.tables.Keys
  {
    hide Leaf;
    hide PathOfPage;
    hide AllocPages;
    hide FreePages;
    hide Forest;
    hide PageCount;
    hide Demand;
    var c, ps := PageCount(length), PagesOf(x, Mmap(addr, length));
    DemandCovers(x.s.tables, root, ps, c);
    PagesFit(x.s, c);
    RoundedDown(addr);
    assert ps == PathsFrom(at / PAGE_SIZE, c);
    RangesAreDistinct(at / PAGE_SIZE, c);
    AllocRangeBacks(x.s, root, ps, c, MMAP_FLAGS);
    AllocThenFreeRestores(x.s, root, ps, at % PAGE_SIZE, MMAP_FLAGS);
    TwoCalls(x, root, Mmap(addr, length), Munmap(at, length));
  }

  lemma DemandCovers(m: Tables, r: nat, ps: seq<Path>, c: nat)
    requires c <= |ps|
    ensures Demand(m, r, ps, c) >= c
  {
  }

  lemma RoundedDown(addr: U64)
    ensures PageAlignDown(addr) / PAGE_SIZE == addr / PAGE_SIZE
  {
  }

  lemma TwoCalls(x: Session, root: nat, a: Call, b: Call)
    requires ValidPool(x.s.pool)
    ensures RunCalls(x, root, [a, b]) == AfterCall(AfterCall(x, root, a), root, b)
  {
    hide AfterCall;
    assert [a, b][..1] == [a] && [a][..0] == [];
    assert RunCalls(x, root, [a]) == AfterCall(x, root, a);
  }

  // ---------------------------------------------------------------- what a call does, address by address

  /** The pages of a length: page k belongs to it exactly if it starts below its end. */
  lemma PagesOfLength(length: U64, k: nat)
    requires length + PAGE_SIZE <= TWO64
    ensures k < PageCount(length) <==> k * PAGE_SIZE < length
  {
    AlignedUp(length, k);
  }

  /** Lengths above 2^64 - 4096 are rounded to none at all. */
  lemma LengthCoveredIff(length: U64)
    ensures length <= PageCount(length) * PAGE_SIZE <==> length + PAGE_SIZE <= TWO64
    ensures length + PAGE_SIZE > TWO64 ==> PageCount(length) == 0
  {
    if length + PAGE_SIZE <= TWO64 {
      PagesOfLength(length, PageCount(length));
    } else {
      FirstOf(length);
    }
  }

  lemma AddressInRange(k: nat, d: nat)
    ensures PathOf(Wrap64(k * PAGE_SIZE + d)) == PathOfPage(k + d / PAGE_SIZE)
  {
    hide PathOf;
    hide PathOfPage;
    var a := k * PAGE_SIZE + d;
    PathOfWrapped(a);
    PathOfAddress(a);
    assert a / PAGE_SIZE == k + d / PAGE_SIZE;
  }

  /** Byte d, counted from a page boundary, lies on a page that a length covers. */
  predicate Reached(d: nat, length: nat) {
    d / PAGE_SIZE * PAGE_SIZE < length
  }

  /** Frames of the pages from page k on that a length covers. */
  ghost function FramesIn(s: Memory, root: nat, k: nat, length: nat): (fs: set<nat>) {
    set i: nat | i < length && i * PAGE_SIZE < length && Leaf(s.tables, root, PathOfPage(k + i)).Some?
      :: FrameAt(s.tables, root, PathOfPage(k + i))
  }

  lemma FramesInAre(s: Memory, root: nat, k: nat, length: U64)
    requires length + PAGE_SIZE <= TWO64
    ensures FramesUnder(s.tables, root, PathsFrom(k, PageCount(length)), PageCount(length)) ==
            FramesIn(s, root, k, length)
  {
    hide Leaf;
    hide PathOfPage;
    hide PageCount;
    var c := PageCount(length);
    var ps := PathsFrom(k, c);
    forall i: nat
      ensures i < c <==> i * PAGE_SIZE < length
    {
      PagesOfLength(length, i);
    }
    forall f | f in FramesUnder(s.tables, root, ps, c)
      ensures f in FramesIn(s, root, k, length)
    {
      var i: nat :| i < c && Leaf(s.tables, root, ps[i]).Some? && f == FrameAt(s.tables, root, ps[i]);
      PagesOfLength(length, i);
      assert ps[i] == PathOfPage(k + i) && i < length;
    }
    forall f | f in FramesIn(s, root, k, length)
      ensures f in FramesUnder(s.tables, root, ps, c)
    {
      var i: nat :| i < length && i * PAGE_SIZE < length && Leaf(s.tables, root, PathOfPage(k + i)).Some?
                    && f == FrameAt(s.tables, root, PathOfPage(k + i));
      assert ps[i] == PathOfPage(k + i);
    }
  }

  /**
   munmap: afterwards no address of any page that holds a byte of the range is translated, and exactly the frames
   those pages had are free again.
   */
  lemma MunmapFrees(x: Session, root: nat, addr: U64, length: U64)
    requires WellFormed(x.s) && Root(x.s.tables, root) && addr != 0 && length != 0 && length + PAGE_SIZE <= TWO64
    requires Releasable(x.s, root, PagesOf(x, Munmap(addr, length)))
    ensures var y, k := AfterCall(x, root, Munmap(addr, length)), addr / PAGE_SIZE;
            && WellFormed(y.s) && y.cursor == x.cursor
            && (forall d: nat :: Reached(d, length) ==>
                  Translate(y.s.tables, root, Wrap64(k * PAGE_SIZE + d)) == 0)
            && y.s.pool.free == x.s.pool.free + FramesIn(x.s, root, k, length)
            && y.s.data == x.s.data - FramesIn(x.s, root, k, length)
  {
    hide Leaf;
    hide PathOf;
    hide PathOfPage;
    hide Forest;
    hide FreePages;
    hide Translate;
    hide PageCount;
    hide OthersKept;
    hide Releasable;
    hide FramesUnder;
    hide FramesIn;
    var c, k := PageCount(length), addr / PAGE_SIZE;
    var ps := PathsFrom(k, c);
    FreeRangeFrees(x.s, root, ps, addr % PAGE_SIZE, c);
    FreeRangeKeepsOthers(x.s, root, ps, addr % PAGE_SIZE, c);
    FramesInAre(x.s, root, k, length);
    var n := FreePages(x.s, root, ps, addr % PAGE_SIZE, c);
    RootStays(x.s.tables, n.tables, root);
    forall d: nat | Reached(d, length)
      ensures Translate(n.tables, root, Wrap64(k * PAGE_SIZE + d)) == 0
    {
      PagesOfLength(length, d / PAGE_SIZE);
      AddressInRange(k, d);
      assert ps[d / PAGE_SIZE] == PathOfPage(k + d / PAGE_SIZE);
      TranslateIsLookup(n.tables, root, Wrap64(k * PAGE_SIZE + d));
    }
  }

  /** A user page, writable and not executable, on a frame that was free and reads as zeros. */
  ghost predicate FreshPage(x: Memory, y: Memory, root: nat, p: Path) {
    var e := Leaf(y.tables, root, p);
    && e.Some? && e.value.flags.user && e.value.flags.writable && e.value.flags.noExec
    && e.value.frame in x.pool.free && e.value.frame in y.data && y.data[e.value.frame] == Zeros(PAGE_SIZE)
  }

  ghost function FrameOf(s: Memory, root: nat, a: nat): (f: nat) {
    FrameAt(s.tables, root, PathOf(Wrap64(a)))
  }

  lemma MmapBacks(x: Session, root: nat, addr: U64, length: U64)
    requires WellFormed(x.s) && Root(x.s.tables, root) && length != 0
    requires |x.s.pool.free| >= Demand(x.s.tables, root, PagesOf(x, Mmap(addr, length)), PageCount(length))
    ensures var y, c := AfterCall(x, root, Mmap(addr, length)).s, PageCount(length);
            var ps := PagesOf(x, Mmap(addr, length));
            && Answer(x, root, Mmap(addr, length)) == Mapped(Target(addr, x.cursor))
            && WellFormed(y) && Backed(y.tables, root, ps, c, MMAP_FLAGS)
            && SpentOnData(x.s, y, FramesOfRange(y.tables, root, ps, c))
  {
    hide Leaf;
    hide PathOfPage;
    hide Forest;
    hide AllocPages;
    hide PageCount;
    hide Demand;
    hide OthersKept;
    hide FramesOfRange;
    hide Backed;
    hide SpentOnData;
    var c, ps := PageCount(length), PagesOf(x, Mmap(addr, length));
    DemandCovers(x.s.tables, root, ps, c);
    PagesFit(x.s, c);
    RangesAreDistinct(Target(addr, x.cursor) / PAGE_SIZE, c);
    AllocRangeBacks(x.s, root, ps, c, MMAP_FLAGS);
  }

  /**
   mmap with the frames it demands: it returns an address, and from there on every address of every page that holds
   a byte of the range is on a fresh page, each page on a frame of its own.
   */
  lemma MmapMaps(x: Session, root: nat, addr: U64, length: U64)
    requires WellFormed(x.s) && Root(x.s.tables, root) && length != 0 && length + PAGE_SIZE <= TWO64
    requires addr != 0 || x.cursor % PAGE_SIZE == 0
    requires |x.s.pool.free| >= Demand(x.s.tables, root, PagesOf(x, Mmap(addr, length)), PageCount(length))
    ensures Answer(x, root, Mmap(addr, length)).Mapped?
    ensures var y, va := AfterCall(x, root, Mmap(addr, length)).s, Answer(x, root, Mmap(addr, length)).va;
            && WellFormed(y) && va % PAGE_SIZE == 0
            && (forall d: nat :: Reached(d, length) ==> FreshPage(x.s, y, root, PathOf(Wrap64(va + d))))
            && (forall d: nat, e: nat :: Reached(d, length) && Reached(e, length) && d / PAGE_SIZE != e / PAGE_SIZE ==>
                  FrameOf(y, root, va + d) != FrameOf(y, root, va + e))
  {
    hide Leaf;
    hide PathOf;
    hide PathOfPage;
    hide WellFormed;
    hide AfterCall;
    hide Answer;
    hide PageCount;
    hide Demand;
    hide FramesOfRange;
    hide Backed;
    hide SpentOnData;
    hide FreshPage;
    hide FrameAt;
    ForestOf(x.s);
    MmapBacks(x, root, addr, length);
    var y, va, c := AfterCall(x, root, Mmap(addr, length)).s, Target(addr, x.cursor), PageCount(length);
    var ps, k := PagesOf(x, Mmap(addr, length)), va / PAGE_SIZE;
    assert va == k * PAGE_SIZE;
    forall d: nat | Reached(d, length)
      ensures d / PAGE_SIZE < c && PathOf(Wrap64(va + d)) == ps[d / PAGE_SIZE]
    {
      PagesOfLength(length, d / PAGE_SIZE);
      AddressInRange(k, d);
    }
    forall d: nat | Reached(d, length)
      ensures FreshPage(x.s, y, root, PathOf(Wrap64(va + d)))
    {
      BackedIsFresh(x.s, y, root, ps, c, d / PAGE_SIZE);
    }
    forall d: nat, e: nat | Reached(d, length) && Reached(e, length) && d / PAGE_SIZE != e / PAGE_SIZE
      ensures FrameOf(y, root, va + d) != FrameOf(y, root, va + e)
    {
      FramesApart(y.tables, root, ps, c, d / PAGE_SIZE, e / PAGE_SIZE);
    }
  }

  lemma BackedIsFresh(x: Memory, y: Memory, root: nat, ps: seq<Path>, c: nat, i: nat)
    requires i < c <= |ps| && Backed(y.tables, root, ps, c, MMAP_FLAGS)
    requires SpentOnData(x, y, FramesOfRange(y.tables, root, ps, c))
    ensures FreshPage(x, y, root, ps[i])
  {
    hide Leaf;
    assert FrameAt(y.tables, root, ps[i]) in FramesOfRange(y.tables, root, ps, c);
  }

  lemma FramesApart(m: Tables, root: nat, ps: seq<Path>, c: nat, i: nat, j: nat)
    requires i < c <= |ps| && j < c && Backed(m, root, ps, c, MMAP_FLAGS) && i != j
    ensures FrameAt(m, root, ps[i]) != FrameAt(m, root, ps[j])
  {
    hide Leaf;
  }

  // ---------------------------------------------------------------- mmap twice at one hint

  lemma OnePage(x: Session, root: nat, addr: U64, length: U64)
    requires ValidPool(x.s.pool) && addr != 0 && 0 < length <= PAGE_SIZE
    ensures var p := PathOfPage(addr / PAGE_SIZE);
            var (n, f) := AllocMap(x.s, root, p, MMAP_FLAGS);
            && Mapping(x, root, addr, length) == (n, f != 0)
            && AfterCall(x, root, Mmap(addr, length)) == Session(n, x.cursor)
  {
    hide AllocMap;
    hide PathOfPage;
    assert PageCount(length) == 1;
    assert PageAlignDown(addr) / PAGE_SIZE == addr / PAGE_SIZE;
    var p := PathOfPage(addr / PAGE_SIZE);
    assert PathsFrom(addr / PAGE_SIZE, 1)[0] == p;
    assert AllocPages(x.s, root, PathsFrom(addr / PAGE_SIZE, 1), 0, MMAP_FLAGS) == (x.s, true);
  }

  /**
   Two mmap calls of a page at the same hint both report success. The second maps a new frame over the first
   one's, which then belongs to the process and is mapped nowhere.
   */
  lemma MmapTwiceOrphans(x: Session, k: nat, reserved: set<nat>, root: nat, addr: U64, length: U64)
    requires O.Conserved(x.s, k, reserved) && addr != 0 && 0 < length <= PAGE_SIZE
    requires O.Owned(x.s.tables, k, root, PathOfPage(addr / PAGE_SIZE)) && |x.s.pool.free| >= 5
    requires Leaf(x.s.tables, root, PathOfPage(addr / PAGE_SIZE)) == None
    ensures ValidPool(x.s.pool)
    ensures var call := Mmap(addr, length);
            var y := AfterCall(x, root, call);
            var z := AfterCall(y, root, call);
            var f := FrameAt(y.s.tables, root, PathOfPage(addr / PAGE_SIZE));
            && Mapping(x, root, addr, length).1 && Mapping(y, root, addr, length).1
            && O.Conserved(y.s, k, reserved)
            && f in x.s.pool.free && O.Orphan(z.s, k, f) && !O.Conserved(z.s, k, reserved)
  {
    hide Leaf;
    hide AllocMap;
    hide AfterCall;
    hide Mapping;
    hide PathOfPage;
    hide O.SinglyMapped;
    hide O.Partitioned;
    hide O.Orphan;
    hide Forest;
    hide Updated;
    hide SameLeaves;
    var p := PathOfPage(addr / PAGE_SIZE);
    OnePage(x, root, addr, length);
    O.BackConservesIff(x.s, k, reserved, root, p, MMAP_FLAGS);
    AllocMapKeeps(x.s, root, p, MMAP_FLAGS);
    AllocMapUpdates(x.s, root, p, MMAP_FLAGS);
    AllocMapMapsIffEnough(x.s, root, p, MMAP_FLAGS);
    var y := AfterCall(x, root, Mmap(addr, length));
    LeafMissesNothing(y.s.tables, root, p);
    OnePage(y, root, addr, length);
    AllocMapKeeps(y.s, root, p, MMAP_FLAGS);
    O.RemapOrphans(y.s, k, reserved, root, p, MMAP_FLAGS);
    O.OrphanBreaks(AfterCall(y, root, Mmap(addr, length)).s, k, reserved, FrameAt(y.s.tables, root, p));
  }

  lemma LeafMissesNothing(m: Tables, r: nat, p: Path)
    requires Leaf(m, r, p).Some?
    ensures Missing(m, r, p) == 0
  {
  }

  /** So from boot on: a new process, two such calls at any lower-half hint, and a frame is lost. */
  lemma OrphanAfterBoot(s: Memory, addr: U64, length: U64)
    requires WellFormed(s) && s.tables == map[] && s.data == map[] && |s.pool.free| >= 7
    requires addr != 0 && PathOfPage(addr / PAGE_SIZE).i4 < 256 && 0 < length <= PAGE_SIZE
    ensures var (s1, k) := BootRoot(s);
            && k in s1.tables && ValidPool(s1.pool)
            && var (s2, root) := CreateSpace(s1, k);
               && ValidPool(s2.pool)
               && var z := RunCalls(Session(s2, MMAP_BASE), root, [Mmap(addr, length), Mmap(addr, length)]);
                  exists f :: O.Orphan(z.s, k, f)
  {
    hide Leaf;
    hide AfterCall;
    hide Mapping;
    hide PathOfPage;
    hide BootRoot;
    hide CreateSpace;
    hide O.Orphan;
    hide O.Conserved;
    hide Forest;
    O.BootConserves(s);
    AfterBoot(s);
    var (s1, k) := BootRoot(s);
    var reserved := Interval(0, MAX_FRAMES) - s.pool.free;
    SpaceAfterBoot(s1, k);
    O.FreshConserves(s1, k, reserved);
    var (s2, root) := CreateSpace(s1, k);
    EmptyRootMisses(s2.tables, root, PathOfPage(addr / PAGE_SIZE));
    var x, call := Session(s2, MMAP_BASE), Mmap(addr, length);
    MmapTwiceOrphans(x, k, reserved, root, addr, length);
    TwoCalls(x, root, call, call);
  }

  // ---------------------------------------------------------------- other spaces

  predicate Below(ps: seq<Path>) {
    forall i :: 0 <= i < |ps| ==> ps[i].i4 < 256
  }

  /** Neither call checks its range. On a range below the upper half it changes no other space. */
  lemma CallBelowKeepsOthers(x: Session, root: nat, call: Call, q: nat, o: Path)
    requires WellFormed(x.s) && Root(x.s.tables, root) && Root(x.s.tables, q) && q != root
    requires Below(PagesOf(x, call)) && (call.Munmap? ==> Releasable(x.s, root, PagesOf(x, call)))
    ensures Leaf(AfterCall(x, root, call).s.tables, q, o) == Leaf(x.s.tables, q, o)
  {
    hide Leaf;
    hide PathOfPage;
    hide AllocPages;
    hide FreePages;
    hide Forest;
    hide PageCount;
    hide Releasable;
    var c := PageCount(call.length);
    var ps := PagesOf(x, call);
    if InFirst(o, ps, c) {
      var i :| 0 <= i < c && ps[i] == o;
      assert o.i4 < 256;
    }
    match call
    case Mmap(_, _) => AllocRangeKeepsOthers(x.s, root, ps, c, MMAP_FLAGS);
    case Munmap(addr, _) => FreeRangeKeepsOthers(x.s, root, ps, addr % PAGE_SIZE, c);
  }

  /** Mapping page p for one space changes nothing that another space sees. */
  ghost predicate Harmless(s: Memory, r: nat, q: nat, p: Path)
    requires ValidPool(s.pool)
  {
    forall o :: Leaf(AllocMap(s, r, p, MMAP_FLAGS).0.tables, q, o) == Leaf(s.tables, q, o)
  }

  ghost predicate Situation(s: Memory, r: nat, q: nat) {
    WellFormed(s) && Root(s.tables, r) && Root(s.tables, q) && r != q
  }

  /** It is so in all states exactly if the page lies below the upper half. */
  lemma MmapHarmlessIffBelow(p: Path)
    ensures (forall s, r, q :: Situation(s, r, q) ==> Harmless(s, r, q, p)) <==> p.i4 < 256
  {
    hide Leaf;
    hide AllocMap;
    hide Forest;
    if p.i4 < 256 {
      forall s, r, q | Situation(s, r, q)
        ensures Harmless(s, r, q, p)
      {
        forall o
          ensures Leaf(AllocMap(s, r, p, MMAP_FLAGS).0.tables, q, o) == Leaf(s.tables, q, o)
        {
          BelowKeepsOther(s, r, q, p, o);
        }
      }
    } else {
      var s, r, k := SharedPageReplaced(p);
      assert Situation(s, r, k) && !Harmless(s, r, k, p);
    }
  }

  lemma BelowKeepsOther(s: Memory, r: nat, q: nat, p: Path, o: Path)
    requires Situation(s, r, q) && p.i4 < 256
    ensures Leaf(AllocMap(s, r, p, MMAP_FLAGS).0.tables, q, o) == Leaf(s.tables, q, o)
  {
    hide Leaf;
    hide AllocMap;
    hide Forest;
    hide OthersKept;
    hide RangeTried;
    NothingTried(s, r, [p]);
    TriedStep(s, s, r, [p], 0, MMAP_FLAGS);
    KeptAt(s, AllocMap(s, r, p, MMAP_FLAGS).0, r, q, p, o);
  }

  lemma KeptAt(s: Memory, n: Memory, r: nat, q: nat, p: Path, o: Path)
    requires RangeTried(s, n, r, [p], 1) && Root(s.tables, q) && q != r && p.i4 < 256
    ensures Leaf(n.tables, q, o) == Leaf(s.tables, q, o)
  {
    hide Leaf;
    hide Forest;
    assert InFirst(o, [p], 1) ==> o.i4 < 256;
  }

  /** After boot: the kernel maps an upper-half page, a process is made and maps the same page; the kernel loses it. */
  lemma SharedPageReplaced(p: Path) returns (s: Memory, r: nat, k: nat)
    requires p.i4 >= 256
    ensures Situation(s, r, k)
    ensures Leaf(s.tables, k, p) == Some(Entry(7, KERNEL_RW))
    ensures var (n, f) := AllocMap(s, r, p, MMAP_FLAGS); Leaf(n.tables, k, p) == Some(Entry(f, MMAP_FLAGS))
  {
    hide Leaf;
    hide AllocMap;
    hide Forest;
    hide Missing;
    hide SameLeaves;
    hide Updated;
    hide Grows;
    s, r, k := SharedKernelPage(p);
    AllocMapKeeps(s, r, p, MMAP_FLAGS);
    AllocMapUpdates(s, r, p, MMAP_FLAGS);
    var (n, f) := AllocMap(s, r, p, MMAP_FLAGS);
    StillShared(s.tables, n.tables, k, r, p.i4);
    ReplacedThere(s.tables, n.tables, r, k, p, Entry(f, MMAP_FLAGS));
  }

  lemma ReplacedThere(m: Tables, n: Tables, r: nat, k: nat, p: Path, e: Entry)
    requires Updated(m, n, r, p, e) && Root(m, k) && SharesSlot(n, r, k, p.i4)
    ensures Leaf(n, k, p) == IfPresent(e)
  {
  }

  /** A kernel page and a process made after it: they share the slot. */
  lemma SharedKernelPage(p: Path) returns (s: Memory, r: nat, k: nat)
    requires p.i4 >= 256
    ensures Situation(s, r, k) && |s.pool.free| >= 4
    ensures Leaf(s.tables, k, p) == Some(Entry(7, KERNEL_RW))
    ensures s.tables[r].slots[p.i4] == s.tables[k].slots[p.i4] && s.tables[k].slots[p.i4].flags.present
  {
    hide Leaf;
    hide Forest;
    hide BootRoot;
    hide Map;
    hide CreateSpace;
    hide Missing;
    hide SameLeaves;
    hide SpentOnTables;
    hide Updated;
    var s0 := SmallMachine();
    AfterBoot(s0);
    var (s1, root) := BootRoot(s0);
    k := root;
    EmptyRootMisses(s1.tables, k, p);
    MapRefinesUpdate(s1, k, p, 7, KERNEL_RW);
    KernelEntryIsClosed(s1, k, p, 7);
    var s2 := Map(s1, k, p, 7, KERNEL_RW).0;
    ReplacedThere(s1.tables, s2.tables, k, k, p, Entry(7, KERNEL_RW));
    CreateSpaceSharesKernel(s2, k);
    var (s3, space) := CreateSpace(s2, k);
    s, r := s3, space;
    NewSpaceSpends(s2, k);
    SameLeafAt(s2.tables, s.tables, k, p);
    RootStays(s2.tables, s.tables, k);
    PresentStays(s2.tables, s.tables, k, p.i4);
  }

  lemma SmallMachine() returns (s: Memory)
    ensures WellFormed(s) && s.tables == map[] && |s.pool.free| == 19
  {
    s := Memory(Pool(Interval(1, 20), 0), map[], map[]);
    IntervalSize(1, 20);
  }

  lemma NewSpaceSpends(s: Memory, k: nat)
    requires WellFormed(s) && Root(s.tables, k) && s.pool.free != {}
    ensures |CreateSpace(s, k).0.pool.free| == |s.pool.free| - 1
  {
  }

  lemma StillShared(m: Tables, n: Tables, k: nat, r: nat, i: Index)
    requires Grows(m, n) && Root(m, k) && Root(m, r) && m[r].slots[i] == m[k].slots[i]
    requires m[k].slots[i].flags.present
    ensures SharesSlot(n, r, k, i)
  {
  }

  // ---------------------------------------------------------------- the cursor over a run

  /** A range handed out without a hint. */
  datatype Grant = Grant(start: nat, size: nat)

  /** The range that a call without a hint returns, if it returns one. */
  ghost function Granted(x: Session, root: nat, call: Call): (g: Option<Grant>)
    requires ValidPool(x.s.pool)
  {
    var r := Answer(x, root, call);
    if call.Mmap? && call.addr == 0 && r.Mapped? then Some(Grant(r.va, PageAlignUp(call.length))) else None
  }

  ghost function Grants(x: Session, root: nat, calls: seq<Call>): (gs: seq<Grant>)
    requires ValidPool(x.s.pool)
  {
    if calls == [] then []
    else
      var front := calls[..|calls| - 1];
      var g := Granted(RunCalls(x, root, front), root, calls[|calls| - 1]);
      if g.Some? then Grants(x, root, front) + [g.value] else Grants(x, root, front)
  }

  function BytesGranted(gs: seq<Grant>): (n: nat) {
    if gs == [] then 0 else BytesGranted(gs[..|gs| - 1]) + gs[|gs| - 1].size
  }

  /** Ranges lying one after another from `base` on. */
  predicate Stacked(base: nat, gs: seq<Grant>) {
    && (forall i :: 0 <= i < |gs| ==> base <= gs[i].start && gs[i].start + gs[i].size <= base + BytesGranted(gs))
    && (forall i, j :: 0 <= i < j < |gs| ==> gs[i].start + gs[i].size <= gs[j].start)
  }

  lemma StackedGrows(base: nat, gs: seq<Grant>, g: Grant)
    requires Stacked(base, gs) && g.start == base + BytesGranted(gs)
    ensures Stacked(base, gs + [g]) && BytesGranted(gs + [g]) == BytesGranted(gs) + g.size
  {
    assert (gs + [g])[..|gs|] == gs;
  }

  lemma CursorMoves(x: Session, root: nat, call: Call)
    requires ValidPool(x.s.pool)
    ensures var g := Granted(x, root, call);
            AfterCall(x, root, call).cursor == if g.Some? then Wrap64(x.cursor + g.value.size) else x.cursor
  {
    hide PageAlignUp;
    hide PageCount;
    hide AllocPages;
    hide FreePages;
  }

  /** Grants lie one after another below the cursor, whatever other calls and failures come between. */
  lemma {:induction false} GrantsAreStacked(x: Session, root: nat, calls: seq<Call>)
    requires ValidPool(x.s.pool) && x.cursor as nat + BytesGranted(Grants(x, root, calls)) < TWO64
    ensures RunCalls(x, root, calls).cursor == x.cursor as nat + BytesGranted(Grants(x, root, calls))
    ensures Stacked(x.cursor, Grants(x, root, calls))
    decreases |calls|
  {
    hide Granted;
    hide AfterCall;
    hide Stacked;
    if calls == [] {
      NoGrants(x.cursor);
    } else {
      var front, last := calls[..|calls| - 1], calls[|calls| - 1];
      var y := RunCalls(x, root, front);
      var fs, g := Grants(x, root, front), Granted(y, root, last);
      BytesGrow(fs, g);
      GrantsAreStacked(x, root, front);
      CursorMoves(y, root, last);
      if g.Some? {
        GrantAtCursor(y, root, last);
        StackedGrows(x.cursor, fs, g.value);
      }
    }
  }

  lemma GrantAtCursor(x: Session, root: nat, call: Call)
    requires ValidPool(x.s.pool) && Granted(x, root, call).Some?
    ensures Granted(x, root, call).value.start == x.cursor
  {
  }

  lemma NoGrants(cursor: nat)
    ensures Stacked(cursor, [])
  {
  }

  lemma BytesGrow(gs: seq<Grant>, g: Option<Grant>)
    ensures g.Some? ==> BytesGranted(gs + [g.value]) == BytesGranted(gs) + g.value.size
  {
    if g.Some? {
      assert (gs + [g.value])[..|gs|] == gs;
    }
  }

  /** Hint-less mmap calls never hand out the same byte twice until the cursor has wrapped. */
  lemma HintlessGrantsDisjoint(x: Session, root: nat, calls: seq<Call>, i: nat, j: nat, va: nat)
    requires ValidPool(x.s.pool) && x.cursor as nat + BytesGranted(Grants(x, root, calls)) < TWO64
    requires i < |Grants(x, root, calls)| && j < |Grants(x, root, calls)|
    requires var gs := Grants(x, root, calls);
             && gs[i].start <= va < gs[i].start + gs[i].size && gs[j].start <= va < gs[j].start + gs[j].size
    ensures i == j
  {
    hide Grants;
    GrantsAreStacked(x, root, calls);
  }
  lemma {:induction false} BytesMonotone(x: Session, root: nat, calls: seq<Call>, m: nat, n: nat)
    requires ValidPool(x.s.pool) && m <= n <= |calls|
    ensures BytesGranted(Grants(x, root, calls[..m])) <= BytesGranted(Grants(x, root, calls[..n]))
    decreases n
  {
    hide Granted;
    hide AfterCall;
    if m < n {
      BytesMonotone(x, root, calls, m, n - 1);
      assert calls[..n][..n - 1] == calls[..n - 1];
      var front := calls[..n - 1];
      BytesGrow(Grants(x, root, front), Granted(RunCalls(x, root, front), root, calls[n - 1]));
    }
  }

  /** What call i of the run returns. */
  ghost function AnswerTo(x: Session, root: nat, calls: seq<Call>, i: nat): (r: Result)
    requires ValidPool(x.s.pool) && i < |calls|
  {
    Answer(RunCalls(x, root, calls[..i]), root, calls[i])
  }

  /** Of two hint-less calls that succeed, the later one returns an address past the whole range of the earlier one. */
  lemma HintlessAddressesDisjoint(x: Session, root: nat, calls: seq<Call>, i: nat, j: nat)
    requires ValidPool(x.s.pool) && x.cursor as nat + BytesGranted(Grants(x, root, calls)) < TWO64
    requires i < j < |calls| && calls[i].Mmap? && calls[i].addr == 0 && calls[j].Mmap? && calls[j].addr == 0
    requires AnswerTo(x, root, calls, i).Mapped? && AnswerTo(x, root, calls, j).Mapped?
    requires calls[i].length + PAGE_SIZE <= TWO64
    ensures AnswerTo(x, root, calls, i).va as nat + calls[i].length <= AnswerTo(x, root, calls, j).va
  {
    hide Answer;
    hide AfterCall;
    hide Stacked;
    hide Grants;
    assert calls[..|calls|] == calls;
    assert calls[..i + 1][..i] == calls[..i];
    BytesMonotone(x, root, calls, i, |calls|);
    BytesMonotone(x, root, calls, i + 1, |calls|);
    BytesMonotone(x, root, calls, j, |calls|);
    BytesMonotone(x, root, calls, i + 1, j);
    GrantsAreStacked(x, root, calls[..i]);
    GrantsAreStacked(x, root, calls[..i + 1]);
    GrantsAreStacked(x, root, calls[..j]);
    var y := RunCalls(x, root, calls[..i]);
    AnsweredAddress(y, root, 0, calls[i].length);
    AnsweredAddress(RunCalls(x, root, calls[..j]), root, 0, calls[j].length);
    LengthCoveredIff(calls[i].length);
    GrantAddsUp(x, root, calls, i);
  }

  lemma GrantAddsUp(x: Session, root: nat, calls: seq<Call>, i: nat)
    requires ValidPool(x.s.pool) && i < |calls| && calls[i].Mmap? && calls[i].addr == 0
    requires AnswerTo(x, root, calls, i).Mapped?
    ensures BytesGranted(Grants(x, root, calls[..i + 1])) ==
            BytesGranted(Grants(x, root, calls[..i])) + PageCount(calls[i].length) * PAGE_SIZE
  {
    hide Answer;
    hide AfterCall;
    var front := calls[..i];
    assert calls[..i + 1][..i] == front;
    var g := Granted(RunCalls(x, root, front), root, calls[i]);
    BytesGrow(Grants(x, root, front), g);
    AlignedCount(calls[i].length);
  }
  // ---------------------------------------------------------------- grants over a run

  /** Every munmap of the run finds its pages unmapped or on data frames of their own. */
  ghost predicate AllReleasable(x: Session, root: nat, calls: seq<Call>)
    requires ValidPool(x.s.pool)
  {
    calls == [] ||
    ( var front, last := calls[..|calls| - 1], calls[|calls| - 1];
      && AllReleasable(x, root, front)
      && (last.Munmap? ==> Releasable(RunCalls(x, root, front).s, root, PagesOf(RunCalls(x, root, front), last))))
  }

  lemma CallKeeps(x: Session, root: nat, call: Call)
    requires WellFormed(x.s) && Root(x.s.tables, root) && x.cursor % PAGE_SIZE == 0
    requires call.Munmap? ==> Releasable(x.s, root, PagesOf(x, call))
    ensures var y := AfterCall(x, root, call);
            WellFormed(y.s) && Root(y.s.tables, root) && y.cursor % PAGE_SIZE == 0
  {
    hide Leaf;
    hide PathOfPage;
    hide AllocPages;
    hide FreePages;
    hide Forest;
    hide PageCount;
    hide PageAlignUp;
    hide Releasable;
    hide OthersKept;
    var c, ps := PageCount(call.length), PagesOf(x, call);
    match call
    case Mmap(_, length) =>
      AllocRangeKeepsOthers(x.s, root, ps, c, MMAP_FLAGS);
      RootStays(x.s.tables, AllocPages(x.s, root, ps, c, MMAP_FLAGS).0.tables, root);
      AlignedCount(length);
      AlignedSum(x.cursor, PageAlignUp(length));
    case Munmap(addr, _) =>
      FreeRangeKeepsOthers(x.s, root, ps, addr % PAGE_SIZE, c);
      RootStays(x.s.tables, FreePages(x.s, root, ps, addr % PAGE_SIZE, c).tables, root);
  }

  lemma AlignedSum(a: U64, b: U64)
    requires a % PAGE_SIZE == 0 && b % PAGE_SIZE == 0
    ensures Wrap64(a + b) % PAGE_SIZE == 0
  {
  }

  lemma {:induction false} RunKeepsProcess(x: Session, root: nat, calls: seq<Call>)
    requires WellFormed(x.s) && Root(x.s.tables, root) && x.cursor % PAGE_SIZE == 0 && AllReleasable(x, root, calls)
    ensures var y := RunCalls(x, root, calls);
            WellFormed(y.s) && Root(y.s.tables, root) && y.cursor % PAGE_SIZE == 0
    decreases |calls|
  {
    hide WellFormed;
    hide AfterCall;
    hide Releasable;
    hide PagesOf;
    ForestOf(x.s);
    if calls != [] {
      var front := calls[..|calls| - 1];
      RunKeepsProcess(x, root, front);
      CallKeeps(RunCalls(x, root, front), root, calls[|calls| - 1]);
    }
  }

  /**
   Over every run of mmap and munmap calls: whenever an mmap has the frames it demands, every address of the range it
   returns is on a fresh page after it, each page on a frame of its own.
   */
  lemma GrantsAreFresh(x: Session, root: nat, calls: seq<Call>, addr: U64, length: U64)
    requires WellFormed(x.s) && Root(x.s.tables, root) && x.cursor % PAGE_SIZE == 0 && AllReleasable(x, root, calls)
    requires length != 0 && length + PAGE_SIZE <= TWO64
    requires var y := RunCalls(x, root, calls);
             |y.s.pool.free| >= Demand(y.s.tables, root, PagesOf(y, Mmap(addr, length)), PageCount(length))
    ensures ValidPool(x.s.pool)
    ensures var y := RunCalls(x, root, calls);
            var z, r := RunCalls(x, root, calls + [Mmap(addr, length)]), Answer(y, root, Mmap(addr, length));
            && r.Mapped? && (addr == 0 ==> r.va == y.cursor)
            && (addr != 0 ==> r.va % PAGE_SIZE == 0 && r.va <= addr < r.va + PAGE_SIZE)
            && (forall d: nat :: Reached(d, length) ==> FreshPage(y.s, z.s, root, PathOf(Wrap64(r.va + d))))
            && (forall d: nat, e: nat :: Reached(d, length) && Reached(e, length) && d / PAGE_SIZE != e / PAGE_SIZE ==>
                  FrameOf(z.s, root, r.va + d) != FrameOf(z.s, root, r.va + e))
  {
    hide WellFormed;
    hide AfterCall;
    hide Answer;
    hide AllReleasable;
    hide PagesOf;
    hide Demand;
    hide PageCount;
    hide FreshPage;
    hide FrameOf;
    hide PathOf;
    ForestOf(x.s);
    RunKeepsProcess(x, root, calls);
    var y := RunCalls(x, root, calls);
    MmapMaps(y, root, addr, length);
    AnsweredAddress(y, root, addr, length);
    assert (calls + [Mmap(addr, length)])[..|calls|] == calls;
  }
}
