/**
 The heap window in the kernel's address space: heap_map_pages backs each page of
 [HEAP_VIRT_BASE, heap_cursor) with a frame of its own, and every address space sees it there.
 */
module HeapWindow {
  import opened Lists
  import opened Machine
  import opened FrameAllocator
  import opened PageTables
  import opened Addresses
  import opened AddressSpaces
  import opened Ranges
  import L = LargeTier
  import H = HeapState

  const HEAP_FLAGS: Flags := KERNEL_RW.(noExec := true)

  /** Page i of the window is mapped to a data frame. */
  ghost predicate HeapPage(s: Memory, k: nat, i: nat) {
    var f := FrameAt(s.tables, k, PathOfPage(i));
    && Leaf(s.tables, k, PathOfPage(i)) == Some(Entry(f, HEAP_FLAGS)) && f in s.data
    && HEAP_FLAGS.writable && HEAP_FLAGS.noExec && !HEAP_FLAGS.user
  }

  /** The kernel can write such a page; nobody can execute it or reach it from user mode. */
  lemma HeapPageRights(s: Memory, k: nat, i: nat)
    requires Forest(s.tables) && Root(s.tables, k) && Zoned(s.tables, k) && HeapPage(s, k, i)
    ensures Effective(s.tables, k, PathOfPage(i)) == Some(Rights(true, false, false))
  {
    hide Leaf;
    hide Effective;
    hide PathOfPage;
    ZonedRights(s.tables, k, k, PathOfPage(i));
  }

  /** Every page below the cursor is mapped, each to a frame of its own. */
  ghost predicate Backed(s: Memory, k: nat, cursor: nat) {
    && (forall i :: L.BASE <= i < cursor ==> HeapPage(s, k, i))
    && (forall i, j :: L.BASE <= i < j < cursor ==>
          FrameAt(s.tables, k, PathOfPage(i)) != FrameAt(s.tables, k, PathOfPage(j)))
  }

  /** A page of the window is none of the pages heap_map_pages tries to map next. */
  lemma WindowApart(cursor: nat, total: nat, c: nat, i: nat)
    requires L.BASE <= i < cursor <= L.BASE + L.MAX_PAGES && c <= MAX_FRAMES && c <= total
    ensures !InFirst(PathOfPage(i), PathsFrom(cursor, total), c)
  {
    hide PathOfPage;
    var ps := PathsFrom(cursor, total);
    forall j | 0 <= j < c
      ensures ps[j] != PathOfPage(i)
    {
      PathsOfRangeDiffer(i, 0, cursor + j - i);
    }
  }

  /** Whatever comes of an attempt to grow, the pages already there stay as they are. */
  lemma AttemptKeepsWindow(s: Memory, n: Memory, k: nat, cursor: nat, total: nat, c: nat)
    requires Backed(s, k, cursor) && cursor <= L.BASE + L.MAX_PAGES && Root(s.tables, k)
    requires c <= MAX_FRAMES && c <= total && RangeTried(s, n, k, PathsFrom(cursor, total), c)
    ensures Backed(n, k, cursor)
    ensures forall i :: L.BASE <= i < cursor ==>
              Leaf(n.tables, k, PathOfPage(i)) == Leaf(s.tables, k, PathOfPage(i))
  {
    hide Leaf;
    hide PathOfPage;
    hide WellFormed;
    hide Grows;
    forall i | L.BASE <= i < cursor
      ensures Leaf(n.tables, k, PathOfPage(i)) == Leaf(s.tables, k, PathOfPage(i))
    {
      WindowApart(cursor, total, c, i);
    }
    forall i | L.BASE <= i < cursor
      ensures HeapPage(n, k, i)
    {
      assert HeapPage(s, k, i);
    }
  }

  /** There are fewer free frames than frames. */
  lemma PoolSize(p: Pool)
    requires ValidPool(p)
    ensures |p.free| < MAX_FRAMES
  {
    IntervalSize(1, MAX_FRAMES);
    assert p.free <= Interval(1, MAX_FRAMES) by {
      forall f | f in p.free
        ensures f in Interval(1, MAX_FRAMES)
      {
        assert Between(1, f, MAX_FRAMES);
      }
    }
    SubsetSize(p.free, Interval(1, MAX_FRAMES));
  }

  /** heap_map_pages after i of its rounds. */
  ghost function Attempt(s: Memory, k: nat, cursor: nat, total: nat, i: nat): (d: (Memory, bool))
    requires ValidPool(s.pool) && i <= total
    ensures ValidPool(d.0.pool)
  {
    AllocPages(s, k, PathsFrom(cursor, total), i, HEAP_FLAGS)
  }

  lemma AttemptStarts(s: Memory, k: nat, cursor: nat, total: nat)
    requires WellFormed(s)
    ensures ValidPool(s.pool) && Attempt(s, k, cursor, total, 0) == (s, true)
  {
  }

  lemma AttemptStep(s: Memory, k: nat, cursor: nat, total: nat, i: nat)
    requires ValidPool(s.pool) && i < total && Attempt(s, k, cursor, total, i).1
    ensures var (n, f) := AllocMap(Attempt(s, k, cursor, total, i).0, k, PathOfPage(cursor + i), HEAP_FLAGS);
            Attempt(s, k, cursor, total, i + 1) == (n, f != 0)
  {
    hide PathOfPage;
    hide AllocMap;
  }

  lemma AttemptFails(s: Memory, k: nat, cursor: nat, total: nat, i: nat)
    requires ValidPool(s.pool) && i <= total && !Attempt(s, k, cursor, total, i).1
    ensures Attempt(s, k, cursor, total, total) == Attempt(s, k, cursor, total, i)
  {
    FailureSticks(s, k, PathsFrom(cursor, total), i, total, HEAP_FLAGS);
  }

  lemma AttemptDrains(s: Memory, k: nat, cursor: nat, total: nat)
    requires WellFormed(s) && Root(s.tables, k)
    ensures ValidPool(s.pool)
    ensures var (n, ok) := Attempt(s, k, cursor, total, total); !ok ==> n.pool.free == {}
  {
    hide AllocPages;
    hide PathOfPage;
    if !Attempt(s, k, cursor, total, total).1 {
      FailureDrains(s, k, PathsFrom(cursor, total), total, HEAP_FLAGS);
    }
  }

  /** A round that succeeded has cost a frame, and no round does any damage. */
  lemma {:induction false} AttemptKeeps(s: Memory, k: nat, cursor: nat, total: nat, i: nat)
    requires WellFormed(s) && Root(s.tables, k) && i <= total
    ensures ValidPool(s.pool)
    ensures var (n, ok) := Attempt(s, k, cursor, total, i);
            && WellFormed(n) && Root(n.tables, k) && (ok ==> i < MAX_FRAMES)
            && (cursor <= L.BASE + L.MAX_PAGES && Backed(s, k, cursor) ==> Backed(n, k, cursor))
    decreases i
  {
    hide AllocPages;
    hide PathOfPage;
    hide Forest;
    hide OthersKept;
    hide Grows;
    hide Backed;
    PoolSize(s.pool);
    AllocRangeKeepsOthers(s, k, PathsFrom(cursor, total), i, HEAP_FLAGS);
    var n := Attempt(s, k, cursor, total, i).0;
    RootStays(s.tables, n.tables, k);
    if i > MAX_FRAMES {
      AttemptKeeps(s, k, cursor, total, MAX_FRAMES);
      FailureSticks(s, k, PathsFrom(cursor, total), MAX_FRAMES, i, HEAP_FLAGS);
    } else if cursor <= L.BASE + L.MAX_PAGES && Backed(s, k, cursor) {
      AttemptKeepsWindow(s, n, k, cursor, total, i);
    }
  }

  /** Frames for c new pages, and for the tables they still need. */
  ghost predicate Enough(s: Memory, k: nat, cursor: nat, c: nat) {
    |s.pool.free| >= Demand(s.tables, k, PathsFrom(cursor, c), c)
  }

  /** With frames enough heap_map_pages backs every new page, and the window stays backed. */
  lemma GrowthBacks(s: Memory, k: nat, cursor: nat, c: nat)
    requires WellFormed(s) && Root(s.tables, k) && Backed(s, k, cursor)
    requires L.BASE <= cursor && cursor + c <= L.BASE + L.MAX_PAGES && Enough(s, k, cursor, c)
    ensures var (n, ok) := Attempt(s, k, cursor, c, c);
            ok && WellFormed(n) && Root(n.tables, k) && Backed(n, k, cursor + c)
  {
    hide Leaf;
    hide PathOfPage;
    hide AllocPages;
    hide Forest;
    hide Backed;
    hide Ranges.Backed;
    hide SpentOnData;
    hide FramesOfRange;
    hide Distinct;
    var ps := PathsFrom(cursor, c);
    RangesAreDistinct(cursor, c);
    AllocRangeBacks(s, k, ps, c, HEAP_FLAGS);
    var n := AllocPages(s, k, ps, c, HEAP_FLAGS).0;
    RootStays(s.tables, n.tables, k);
    hide Grows;
    SpentKeepsData(s, n, FramesOfRange(n.tables, k, ps, c));
    AttemptKeepsWindow(s, n, k, cursor, c, c);
    WindowExtended(s, n, k, cursor, c);
  }

  lemma SpentKeepsData(s: Memory, n: Memory, fs: set<nat>)
    requires WellFormed(s) && SpentOnData(s, n, fs)
    ensures forall f :: f in s.data ==> f in n.data && n.data[f] == s.data[f]
    ensures fs <= n.data.Keys && fs !! s.data.Keys
  {
    hide Forest;
  }

  lemma WindowExtended(s: Memory, n: Memory, k: nat, cursor: nat, c: nat)
    requires Backed(n, k, cursor) && Backed(s, k, cursor) && L.BASE <= cursor
    requires forall i :: L.BASE <= i < cursor ==>
               Leaf(n.tables, k, PathOfPage(i)) == Leaf(s.tables, k, PathOfPage(i))
    requires Ranges.Backed(n.tables, k, PathsFrom(cursor, c), c, HEAP_FLAGS)
    requires var fs := FramesOfRange(n.tables, k, PathsFrom(cursor, c), c); fs <= n.data.Keys && fs !! s.data.Keys
    ensures Backed(n, k, cursor + c)
  {
    hide Leaf;
    hide PathOfPage;
    var ps := PathsFrom(cursor, c);
    forall i | cursor <= i < cursor + c
      ensures HeapPage(n, k, i) && FrameAt(n.tables, k, PathOfPage(i)) in FramesOfRange(n.tables, k, ps, c)
    {
      assert ps[i - cursor] == PathOfPage(i);
    }
    forall i, j | L.BASE <= i < j < cursor + c
      ensures FrameAt(n.tables, k, PathOfPage(i)) != FrameAt(n.tables, k, PathOfPage(j))
    {
      if i < cursor {
        assert HeapPage(s, k, i);
      } else {
        assert ps[i - cursor] == PathOfPage(i) && ps[j - cursor] == PathOfPage(j);
      }
    }
  }

  /** Every byte of a live block lies on a page the kernel has mapped for the heap. */
  lemma BlockIsMapped(h: H.Heap, s: Memory, k: nat, x: H.Block, a: nat)
    requires H.Inv(h) && x in h.live && Backed(s, k, h.cursor)
    requires H.Addr(h.slabs, x) <= a < H.Addr(h.slabs, x) + H.Usable(h.spans, h.slabs, x)
    ensures HeapPage(s, k, a / PAGE_SIZE) && PathOf(a) == PathOfPage(a / PAGE_SIZE)
  {
    hide H.Inv;
    hide H.Addr;
    hide H.Usable;
    hide PathOfPage;
    hide PathOf;
    hide HeapPage;
    H.BlockInTile(h, x);
    PathOfAddress(a);
    PageBetween(a, x.page, h.cursor);
  }

  lemma PageBetween(a: nat, b: nat, c: nat)
    requires b * PAGE_SIZE <= a < c * PAGE_SIZE
    ensures b <= a / PAGE_SIZE < c
  {
  }

  lemma WindowSlot(i: nat)
    requires L.BASE <= i < L.BASE + L.MAX_PAGES
    ensures PathOfPage(i).i4 == 511
  {
    HeapAndKernelShareSlot(i * PAGE_SIZE, KERNEL_VIRT_BASE);
    PathOfAddress(i * PAGE_SIZE);
  }

  /**
   A space created once the kernel image is mapped sees every heap page that is mapped later, and whatever
   happens after that it agrees with the kernel on it.
   */
  lemma LaterHeapPagesSeen(s: Memory, k: nat, mid: seq<Event>, cursor: nat, c: nat, after: seq<Event>, i: nat)
    requires WellFormed(s) && Root(s.tables, k) && s.tables[k].slots[511].flags.present && s.pool.free != {}
    requires var s1 := Run(CreateSpace(s, k).0, k, mid);
             Backed(s1, k, cursor) && Enough(s1, k, cursor, c)
    requires L.BASE <= cursor && cursor + c <= L.BASE + L.MAX_PAGES && L.BASE <= i < cursor + c
    ensures var (s0, r) := CreateSpace(s, k);
            var s2 := Attempt(Run(s0, k, mid), k, cursor, c, c).0;
            var p := PathOfPage(i);
            && Leaf(s2.tables, r, p) == Some(Entry(FrameAt(s2.tables, k, p), HEAP_FLAGS))
            && Leaf(Run(s2, k, after).tables, r, p) == Leaf(Run(s2, k, after).tables, k, p)
  {
    hide Leaf;
    hide PathOfPage;
    hide AllocPages;
    hide CreateSpace;
    hide Run;
    hide Forest;
    CreateSpaceSharesKernel(s, k);
    var (s0, r) := CreateSpace(s, k);
    RunKeeps(s0, k, mid);
    var s1 := Run(s0, k, mid);
    GrowthBacks(s1, k, cursor, c);
    AllocRangeKeepsOthers(s1, k, PathsFrom(cursor, c), c, HEAP_FLAGS);
    var s2 := Attempt(s1, k, cursor, c, c).0;
    GrowsTwice(s0.tables, s1.tables, s2.tables);
    WindowSlot(i);
    SharedStays(s0.tables, s2.tables, k, r, 511);
    SameSlotSameLeaves(s2.tables, r, k, PathOfPage(i));
    assert HeapPage(s2, k, i);
    SharedSlotsAgreeForever(s2, k, r, after, PathOfPage(i));
  }

  lemma SharedStays(m: Tables, n: Tables, k: nat, r: nat, i: Index)
    requires Grows(m, n) && Root(m, k) && Root(m, r)
    requires m[k].slots[i].flags.present && m[r].slots[i] == m[k].slots[i]
    ensures Root(n, k) && Root(n, r) && n[k].slots[i].flags.present && n[r].slots[i] == n[k].slots[i]
  {
  }
}
