/**
 Backing ranges of pages with fresh frames and giving them back: vmm_alloc_map,
 vmm_alloc_range and vmm_free_range, and what they conserve.
 */
module Ranges {
  import opened Lists
  import opened Machine
  import opened FrameAllocator
  import opened PageTables
  import opened TableCost
  import opened Addresses
  import opened AddressSpaces

  /** The pages of a range, as paths: those of c consecutive page numbers from k on. */
  function PathsFrom(k: nat, c: nat): (ps: seq<Path>)
    ensures |ps| == c && forall i :: 0 <= i < c ==> ps[i] == PathOfPage(k + i)
  {
    seq(c, i requires 0 <= i < c => PathOfPage(k + i))
  }

  lemma RangesAreDistinct(k: nat, c: nat)
    requires c <= PAGES
    ensures Distinct(PathsFrom(k, c))
  {
    hide PathOfPage;
    var ps := PathsFrom(k, c);
    forall i, j | 0 <= i < j < |ps|
      ensures ps[i] != ps[j]
    {
      PathsOfRangeDiffer(k, i, j);
    }
  }

  /** o is among the first c of the pages. */
  ghost predicate InFirst(o: Path, ps: seq<Path>, c: nat)
    requires c <= |ps|
  {
    exists i :: 0 <= i < c && ps[i] == o
  }

  // ---------------------------------------------------------------- vmm_alloc_map

  /** vmm_alloc_map: a zeroed data frame, mapped at page p; result 0 is failure. */
  ghost function AllocMap(s: Memory, r: nat, p: Path, flags: Flags): (d: (Memory, nat))
    requires ValidPool(s.pool)
    ensures ValidPool(d.0.pool)
  {
    var (pool, f) := Take(s.pool);
    if f == 0 then (s, 0)
    else (Map(s.(pool := pool, data := s.data[f := Zeros(PAGE_SIZE)]), r, p, f, flags).0, f)
  }

  /** A frame taken from the pool and zeroed is a new data frame. */
  lemma TakenIsData(s: Memory)
    requires WellFormed(s) && s.pool.free != {}
    ensures var (pool, f) := Take(s.pool);
            && WellFormed(s.(pool := pool, data := s.data[f := Zeros(PAGE_SIZE)]))
            && f in s.pool.free && f != 0 && pool.free == s.pool.free - {f}
  {
    hide Forest;
  }

  lemma SpentAfterTake(s: Memory, n: Memory, pool: Pool, f: nat)
    requires f in s.pool.free && pool.free == s.pool.free - {f} && WellFormed(n)
    requires SpentOnTables(s.(pool := pool, data := s.data[f := Zeros(PAGE_SIZE)]), n)
    ensures f !in n.tables && n.data == s.data[f := Zeros(PAGE_SIZE)]
    ensures n.tables.Keys <= s.tables.Keys + s.pool.free && n.pool.free == s.pool.free - n.tables.Keys - {f}
  {
    hide Forest;
    assert f in n.data;
  }

  /** What any outcome of vmm_alloc_map leaves true. */
  lemma AllocMapKeeps(s: Memory, r: nat, p: Path, flags: Flags)
    requires WellFormed(s) && Root(s.tables, r)
    ensures var (n, f) := AllocMap(s, r, p, flags);
            && WellFormed(n) && Grows(s.tables, n.tables)
            && (f == 0 <==> s.pool.free == {}) && (f == 0 ==> n == s)
            && (f != 0 ==>
                  && f in s.pool.free && f !in n.tables
                  && n.data == s.data[f := Zeros(PAGE_SIZE)]
                  && n.tables.Keys <= s.tables.Keys + s.pool.free
                  && n.pool.free == s.pool.free - n.tables.Keys - {f})
  {
    hide Map;
    hide Leaf;
    hide Forest;
    hide SameLeaves;
    hide Updated;
    hide Missing;
    hide Take;
    hide Grows;
    hide SpentOnTables;
    GrowsSelf(s.tables);
    if s.pool.free != {} {
      TakenIsData(s);
      var (pool, f) := Take(s.pool);
      var s1 := s.(pool := pool, data := s.data[f := Zeros(PAGE_SIZE)]);
      MapRefinesUpdate(s1, r, p, f, flags);
      SpentAfterTake(s, Map(s1, r, p, f, flags).0, pool, f);
    }
  }

  /** With frames for the missing tables as well, the page is mapped to the fresh frame. */
  lemma AllocMapUpdates(s: Memory, r: nat, p: Path, flags: Flags)
    requires WellFormed(s) && Root(s.tables, r)
    ensures var (n, f) := AllocMap(s, r, p, flags);
            var enough := |s.pool.free| >= 1 + Missing(s.tables, r, p);
            && (enough ==> f != 0 && Updated(s.tables, n.tables, r, p, Entry(f, flags)))
            && (enough ==> |n.pool.free| == |s.pool.free| - 1 - Missing(s.tables, r, p))
            && (!enough ==> SameLeaves(s.tables, n.tables))
  {
    if s.pool.free != {} {
      var (pool, f) := Take(s.pool);
      var s1 := s.(pool := pool, data := s.data[f := Zeros(PAGE_SIZE)]);
      assert WellFormed(s1);
      assert |s1.pool.free| == |s.pool.free| - 1;
      MapRefinesUpdate(s1, r, p, f, flags);
    }
  }

  /**
   vmm_map cannot report failure, so vmm_alloc_map claims success whenever it got a data frame. An
   unmapped page ends up mapped exactly when the pool also covers the missing tables.
   */
  lemma AllocMapMapsIffEnough(s: Memory, r: nat, p: Path, flags: Flags)
    requires WellFormed(s) && Root(s.tables, r) && flags.present && Leaf(s.tables, r, p) == None
    ensures var (n, f) := AllocMap(s, r, p, flags);
            && (f != 0 <==> |s.pool.free| >= 1)
            && (Leaf(n.tables, r, p) == Some(Entry(f, flags)) <==> |s.pool.free| >= 1 + Missing(s.tables, r, p))
  {
    hide Leaf;
    hide AllocMap;
    hide Missing;
    AllocMapKeeps(s, r, p, flags);
    AllocMapUpdates(s, r, p, flags);
  }

  /** Every translation is as before, but for the first c pages in r and in upper-half sharers. */
  ghost predicate OthersKept(m: Tables, n: Tables, r: nat, ps: seq<Path>, c: nat)
    requires c <= |ps|
  {
    forall q, o :: Root(m, q) && !(InFirst(o, ps, c) && (q == r || o.i4 >= 256)) ==> Leaf(n, q, o) == Leaf(m, q, o)
  }

  lemma UpdateKeepsOthers(m: Tables, n: Tables, r: nat, p: Path, e: Entry, q: nat, o: Path)
    requires Forest(n) && Grows(m, n) && Updated(m, n, r, p, e)
    requires Root(m, r) && Root(m, q) && !(o == p && (q == r || o.i4 >= 256))
    ensures Leaf(n, q, o) == Leaf(m, q, o)
  {
    if o == p {
      assert Root(n, r) && Root(n, q) && q != r && p.i4 < 256;
      if n[r].slots[p.i4].flags.present {
        LowerSlotsPrivate(n, r, q, p.i4);
      } else if n[q].slots[p.i4].flags.present {
        LowerSlotsPrivate(n, q, r, p.i4);
      } else {
        // neither space has anything in this slot, before or after
        assert !m[q].slots[p.i4].flags.present;
        assert Pdpt(n, q, p) == None && Pdpt(m, q, p) == None;
      }
    }
  }

  /** With one frame left after boot vmm_alloc_map reports success, and no page is mapped. */
  lemma SuccessWithoutTables(s: Memory, p: Path, flags: Flags)
    requires WellFormed(s) && s.tables == map[] && |s.pool.free| == 2 && flags.present
    ensures var (s1, k) := BootRoot(s);
            var (n, f) := AllocMap(s1, k, p, flags);
            k != 0 && f != 0 && Leaf(n.tables, k, p) == None
  {
    hide Leaf;
    hide AllocMap;
    hide Forest;
    hide SameLeaves;
    hide Updated;
    hide BootRoot;
    AfterBoot(s);
    var (s1, k) := BootRoot(s);
    EmptyRootMisses(s1.tables, k, p);
    AllocMapKeeps(s1, k, p, flags);
    AllocMapUpdates(s1, k, p, flags);
    AllocMapMapsIffEnough(s1, k, p, flags);
    var n := AllocMap(s1, k, p, flags).0;
    SameLeafAt(s1.tables, n.tables, k, p);
  }

  lemma EmptyRootMisses(m: Tables, k: nat, p: Path)
    requires Root(m, k) && m[k].slots[p.i4] == EMPTY
    ensures Missing(m, k, p) == 3 && Leaf(m, k, p) == None
  {
    EmptySlotHasNoLeaf(m, k, p);
  }

  lemma SameLeafAt(m: Tables, n: Tables, r: nat, p: Path)
    requires SameLeaves(m, n) && Root(m, r)
    ensures Leaf(n, r, p) == Leaf(m, r, p)
  {
  }

  // ---------------------------------------------------------------- vmm_map_range

  /** The loop of vmm_map_range after c rounds, page ps[i] going to frame fs[i]. */
  ghost function MapPages(s: Memory, r: nat, ps: seq<Path>, fs: seq<nat>, c: nat, flags: Flags): (n: Memory)
    requires ValidPool(s.pool) && c <= |ps| == |fs|
    ensures ValidPool(n.pool)
  {
    if c == 0 then s else Map(MapPages(s, r, ps, fs, c - 1, flags), r, ps[c - 1], fs[c - 1], flags).0
  }

  /** With a free frame for each missing table, vmm_map_range maps every page of the range and nothing else. */
  lemma {:induction false} MapRangeMaps(s: Memory, r: nat, ps: seq<Path>, fs: seq<nat>, c: nat, flags: Flags)
    requires WellFormed(s) && Root(s.tables, r) && c <= |ps| == |fs| && Distinct(ps)
    requires |s.pool.free| >= Cost(s.tables, r, ps, c)
    ensures var n := MapPages(s, r, ps, fs, c, flags);
            && WellFormed(n) && Grows(s.tables, n.tables) && n.data == s.data
            && |n.pool.free| == |s.pool.free| - Cost(s.tables, r, ps, c)
            && Made(s.tables, n.tables, r, NeedsOf(s.tables, r, ps, c))
            && (forall i :: 0 <= i < c ==> Leaf(n.tables, r, ps[i]) == IfPresent(Entry(fs[i], flags)))
            && OthersKept(s.tables, n.tables, r, ps, c)
  {
    hide Leaf;
    hide Map;
    hide Missing;
    hide Needs;
    hide NeedsOf;
    hide Made;
    hide Forest;
    hide Updated;
    hide OthersKept;
    hide Grows;
    hide SameLeaves;
    hide Distinct;
    GrowsSelf(s.tables);
    if c == 0 {
      NothingChanged(s.tables, r, ps);
      NoPagesNoCost(s.tables, r, ps);
    } else {
      CostMonotone(s.tables, r, ps, c - 1);
      MapRangeMaps(s, r, ps, fs, c - 1, flags);
      var m := MapPages(s, r, ps, fs, c - 1, flags);
      var n := MapPages(s, r, ps, fs, c, flags);
      RootStays(s.tables, m.tables, r);
      MapRefinesUpdate(m, r, ps[c - 1], fs[c - 1], flags);
      CostGrows(s.tables, m.tables, r, ps, c - 1);
      MapMakes(m, r, ps[c - 1], fs[c - 1], flags);
      MadeTwice(s.tables, m.tables, n.tables, r, NeedsOf(s.tables, r, ps, c - 1), Needs(m.tables, r, ps[c - 1]));
      GrowsTwice(s.tables, m.tables, n.tables);
      OthersKeptStep(s.tables, m.tables, n.tables, r, ps, c - 1, Entry(fs[c - 1], flags));
      MappedStep(m.tables, n.tables, r, ps, fs, c - 1, flags);
    }
  }

  lemma NoPagesNoCost(m: Tables, r: nat, ps: seq<Path>)
    ensures Cost(m, r, ps, 0) == 0 && Made(m, m, r, NeedsOf(m, r, ps, 0))
  {
    MadeNothing(m, r);
  }

  lemma CostMonotone(m: Tables, r: nat, ps: seq<Path>, c: nat)
    requires c < |ps|
    ensures Cost(m, r, ps, c) <= Cost(m, r, ps, c + 1)
  {
    hide Needs;
    UnionCount(NeedsOf(m, r, ps, c), Needs(m, r, ps[c]));
  }

  /** Any outcome of vmm_map_range leaves the memory well formed. */
  lemma {:induction false} MapRangeKeeps(s: Memory, r: nat, ps: seq<Path>, fs: seq<nat>, c: nat, flags: Flags)
    requires WellFormed(s) && Root(s.tables, r) && c <= |ps| == |fs|
    ensures var n := MapPages(s, r, ps, fs, c, flags);
            WellFormed(n) && Grows(s.tables, n.tables) && Root(n.tables, r)
  {
    hide Map;
    hide Forest;
    hide Leaf;
    hide Missing;
    hide Updated;
    hide SameLeaves;
    hide SpentOnTables;
    hide Grows;
    GrowsSelf(s.tables);
    if c > 0 {
      MapRangeKeeps(s, r, ps, fs, c - 1, flags);
      var m := MapPages(s, r, ps, fs, c - 1, flags);
      var n := MapPages(s, r, ps, fs, c, flags);
      MapRefinesUpdate(m, r, ps[c - 1], fs[c - 1], flags);
      GrowsTwice(s.tables, m.tables, n.tables);
      RootStays(s.tables, n.tables, r);
    }
  }

  /** One frame short, and some page of the range stays unmapped. */
  lemma {:induction false} MapRangeShort(s: Memory, r: nat, ps: seq<Path>, fs: seq<nat>, c: nat, flags: Flags)
    returns (i: nat)
    requires WellFormed(s) && Root(s.tables, r) && c <= |ps| == |fs| && Distinct(ps)
    requires |s.pool.free| < Cost(s.tables, r, ps, c)
    ensures i < c && Leaf(MapPages(s, r, ps, fs, c, flags).tables, r, ps[i]) == None
  {
    hide Leaf;
    hide MapPages;
    hide Cost;
    hide Forest;
    hide OthersKept;
    hide Distinct;
    NoPagesNoCost(s.tables, r, ps);
    if |s.pool.free| < Cost(s.tables, r, ps, c - 1) {
      i := MapRangeShort(s, r, ps, fs, c - 1, flags);
      LaterPageKeeps(s, r, ps, fs, c - 1, flags, i);
    } else {
      i := c - 1;
      PageLeftOut(s, r, ps, fs, c - 1, flags);
    }
  }

  lemma LaterPageKeeps(s: Memory, r: nat, ps: seq<Path>, fs: seq<nat>, c: nat, flags: Flags, i: nat)
    requires WellFormed(s) && Root(s.tables, r) && i < c < |ps| == |fs| && Distinct(ps)
    ensures Leaf(MapPages(s, r, ps, fs, c + 1, flags).tables, r, ps[i]) ==
            Leaf(MapPages(s, r, ps, fs, c, flags).tables, r, ps[i])
  {
    hide Leaf;
    hide Map;
    hide Missing;
    hide Forest;
    hide Updated;
    hide Grows;
    hide SameLeaves;
    hide SpentOnTables;
    hide Distinct;
    MapRangeKeeps(s, r, ps, fs, c, flags);
    var m := MapPages(s, r, ps, fs, c, flags);
    MapRefinesUpdate(m, r, ps[c], fs[c], flags);
    LeafElsewhere(m.tables, Map(m, r, ps[c], fs[c], flags).0.tables, r, ps, i, c, Entry(fs[c], flags));
  }

  /** Frames enough for c pages and not for one more: that one stays unmapped. */
  lemma PageLeftOut(s: Memory, r: nat, ps: seq<Path>, fs: seq<nat>, c: nat, flags: Flags)
    requires WellFormed(s) && Root(s.tables, r) && c < |ps| == |fs| && Distinct(ps)
    requires Cost(s.tables, r, ps, c) <= |s.pool.free| < Cost(s.tables, r, ps, c + 1)
    ensures Leaf(MapPages(s, r, ps, fs, c + 1, flags).tables, r, ps[c]) == None
  {
    hide Leaf;
    hide Map;
    hide Missing;
    hide Made;
    hide Cost;
    hide Forest;
    hide Updated;
    hide OthersKept;
    hide Grows;
    hide SameLeaves;
    hide SpentOnTables;
    hide Distinct;
    MapRangeKeeps(s, r, ps, fs, c, flags);
    MapRangeMaps(s, r, ps, fs, c, flags);
    var m := MapPages(s, r, ps, fs, c, flags);
    CostGrows(s.tables, m.tables, r, ps, c);
    MapRefinesUpdate(m, r, ps[c], fs[c], flags);
    MissingHasNoLeaf(m.tables, r, ps[c]);
    SameLeafAt(m.tables, Map(m, r, ps[c], fs[c], flags).0.tables, r, ps[c]);
  }

  /** And no page outside it changes. */
  lemma {:induction false} MapRangeElsewhere(s: Memory, r: nat, ps: seq<Path>, fs: seq<nat>, c: nat, flags: Flags,
                                             o: Path)
    requires WellFormed(s) && Root(s.tables, r) && c <= |ps| == |fs| && !InFirst(o, ps, c)
    ensures Leaf(MapPages(s, r, ps, fs, c, flags).tables, r, o) == Leaf(s.tables, r, o)
  {
    hide Leaf;
    hide Map;
    hide Missing;
    hide Forest;
    hide Grows;
    hide SpentOnTables;
    if c > 0 {
      InFirstGrows(o, ps, c - 1);
      MapRangeElsewhere(s, r, ps, fs, c - 1, flags, o);
      MapRangeKeeps(s, r, ps, fs, c - 1, flags);
      MapRefinesUpdate(MapPages(s, r, ps, fs, c - 1, flags), r, ps[c - 1], fs[c - 1], flags);
    }
  }

  lemma MissingHasNoLeaf(m: Tables, r: nat, p: Path)
    requires Missing(m, r, p) > 0
    ensures Leaf(m, r, p) == None
  {
  }

  lemma LeafElsewhere(m: Tables, n: Tables, r: nat, ps: seq<Path>, i: nat, c: nat, e: Entry)
    requires Root(m, r) && i < c < |ps| && Distinct(ps)
    requires Updated(m, n, r, ps[c], e) || SameLeaves(m, n)
    ensures Leaf(n, r, ps[i]) == Leaf(m, r, ps[i])
  {
    hide Leaf;
  }

  /** So vmm_map_range, which reports nothing, maps its whole range exactly when there were frames for the tables. */
  lemma MapRangeMapsIff(s: Memory, r: nat, ps: seq<Path>, fs: seq<nat>, c: nat, flags: Flags)
    requires WellFormed(s) && Root(s.tables, r) && c <= |ps| == |fs| && Distinct(ps) && flags.present
    ensures var n := MapPages(s, r, ps, fs, c, flags).tables;
            (forall i :: 0 <= i < c ==> Leaf(n, r, ps[i]) == Some(Entry(fs[i], flags)))
            <==> |s.pool.free| >= Cost(s.tables, r, ps, c)
  {
    hide Leaf;
    hide MapPages;
    hide Cost;
    hide Forest;
    if |s.pool.free| >= Cost(s.tables, r, ps, c) {
      MapRangeMaps(s, r, ps, fs, c, flags);
    } else {
      var i := MapRangeShort(s, r, ps, fs, c, flags);
    }
  }

  lemma NothingChanged(m: Tables, r: nat, ps: seq<Path>)
    ensures OthersKept(m, m, r, ps, 0)
  {
  }

  lemma MappedStep(d: Tables, n: Tables, r: nat, ps: seq<Path>, fs: seq<nat>, c: nat, flags: Flags)
    requires Root(d, r) && c < |ps| == |fs| && Distinct(ps)
    requires forall i :: 0 <= i < c ==> Leaf(d, r, ps[i]) == IfPresent(Entry(fs[i], flags))
    requires Updated(d, n, r, ps[c], Entry(fs[c], flags))
    ensures forall i :: 0 <= i < c + 1 ==> Leaf(n, r, ps[i]) == IfPresent(Entry(fs[i], flags))
  {
    hide Leaf;
  }

  /** vmm_init maps ranges of kernel pages: no zone is broken, and the first page's slot is filled for good. */
  lemma {:induction false} KernelRangeKeepsStart(s: Memory, k: nat, ps: seq<Path>, fs: seq<nat>, c: nat, flags: Flags)
    requires WellFormed(s) && Root(s.tables, k) && Zoned(s.tables, k) && UpperClosed(s.tables)
    requires !flags.user && c <= |ps| == |fs|
    ensures var n := MapPages(s, k, ps, fs, c, flags);
            && WellFormed(n) && Root(n.tables, k) && Zoned(n.tables, k) && UpperClosed(n.tables)
            && Grows(s.tables, n.tables)
            && (c > 0 && |s.pool.free| >= 3 ==> n.tables[k].slots[ps[0].i4].flags.present)
  {
    hide Map;
    hide Zoned;
    hide UpperClosed;
    hide Forest;
    hide Leaf;
    hide Missing;
    hide Updated;
    hide SameLeaves;
    hide SpentOnTables;
    hide Grows;
    GrowsSelf(s.tables);
    if c > 0 {
      KernelRangeKeepsStart(s, k, ps, fs, c - 1, flags);
      var m := MapPages(s, k, ps, fs, c - 1, flags);
      var n := MapPages(s, k, ps, fs, c, flags);
      KernelMapKeepsStart(m, k, ps[c - 1], fs[c - 1], flags);
      MapRefinesUpdate(m, k, ps[c - 1], fs[c - 1], flags);
      GrowsTwice(s.tables, m.tables, n.tables);
      if c > 1 {
        PresentStays(m.tables, n.tables, k, ps[0].i4);
      }
    }
  }

  lemma PresentStays(m: Tables, n: Tables, k: nat, i: Index)
    requires Grows(m, n) && Root(m, k)
    ensures k in n && (m[k].slots[i].flags.present ==> n[k].slots[i].flags.present)
  {
  }

  // ---------------------------------------------------------------- vmm_alloc_range

  /** The loop of vmm_alloc_range after c rounds; the flag is false once an allocation failed. */
  ghost function AllocPages(s: Memory, r: nat, ps: seq<Path>, c: nat, flags: Flags): (d: (Memory, bool))
    requires ValidPool(s.pool) && c <= |ps|
    ensures ValidPool(d.0.pool)
  {
    if c == 0 then (s, true)
    else
      var (s1, ok) := AllocPages(s, r, ps, c - 1, flags);
      if !ok then (s1, false)
      else
        var (s2, f) := AllocMap(s1, r, ps[c - 1], flags);
        (s2, f != 0)
  }

  /** Once a round failed, so has the whole loop, and nothing changes any more. */
  lemma {:induction false} FailureSticks(s: Memory, r: nat, ps: seq<Path>, i: nat, c: nat, flags: Flags)
    requires ValidPool(s.pool) && i <= c <= |ps| && !AllocPages(s, r, ps, i, flags).1
    ensures AllocPages(s, r, ps, c, flags) == AllocPages(s, r, ps, i, flags)
    decreases c
  {
    if i < c {
      FailureSticks(s, r, ps, i, c - 1, flags);
    }
  }

  ghost function FrameAt(m: Tables, r: nat, p: Path): (f: nat) {
    var e := Leaf(m, r, p);
    if e.None? then 0 else e.value.frame
  }

  ghost function FramesOfRange(m: Tables, r: nat, ps: seq<Path>, c: nat): (s: set<nat>)
    requires c <= |ps|
  {
    set i | 0 <= i < c :: FrameAt(m, r, ps[i])
  }

  /** The first c pages are mapped with the given flags, to distinct frames. */
  ghost predicate Backed(m: Tables, r: nat, ps: seq<Path>, c: nat, flags: Flags)
    requires c <= |ps|
  {
    && (forall i :: 0 <= i < c ==> Leaf(m, r, ps[i]) == Some(Entry(FrameAt(m, r, ps[i]), flags)))
    && (forall i, j :: 0 <= i < j < c ==> FrameAt(m, r, ps[i]) != FrameAt(m, r, ps[j]))
  }

  ghost predicate Unmapped(m: Tables, r: nat, ps: seq<Path>, c: nat)
    requires c <= |ps|
  {
    forall i :: 0 <= i < c ==> Leaf(m, r, ps[i]) == None
  }

  /** From s to n, the frames fs left the pool for zeroed data pages and others for tables; no more. */
  ghost predicate SpentOnData(s: Memory, n: Memory, fs: set<nat>) {
    && fs <= s.pool.free
    && n.data.Keys == s.data.Keys + fs
    && (forall f :: f in s.data ==> n.data[f] == s.data[f])
    && (forall f :: f in fs ==> n.data[f] == Zeros(PAGE_SIZE))
    && n.tables.Keys <= s.tables.Keys + s.pool.free
    && n.pool.free == s.pool.free - n.tables.Keys - fs
  }

  /** n is s with the first c pages of r backed by c fresh zeroed frames. */
  ghost predicate RangeAllocated(s: Memory, n: Memory, r: nat, ps: seq<Path>, c: nat, flags: Flags)
    requires c <= |ps|
  {
    && WellFormed(n) && Grows(s.tables, n.tables)
    && Backed(n.tables, r, ps, c, flags)
    && OthersKept(s.tables, n.tables, r, ps, c)
    && SpentOnData(s, n, FramesOfRange(n.tables, r, ps, c))
  }

  lemma InFirstGrows(o: Path, ps: seq<Path>, c: nat)
    requires c < |ps|
    ensures InFirst(o, ps, c + 1) <==> InFirst(o, ps, c) || o == ps[c]
  {
  }

  lemma OthersKeptStep(m: Tables, d: Tables, n: Tables, r: nat, ps: seq<Path>, c: nat, e: Entry)
    requires Forest(n) && Grows(m, d) && Grows(d, n) && Root(m, r) && c < |ps|
    requires OthersKept(m, d, r, ps, c) && Updated(d, n, r, ps[c], e)
    ensures OthersKept(m, n, r, ps, c + 1)
  {
    hide Leaf;
    forall q, o | Root(m, q) && !(InFirst(o, ps, c + 1) && (q == r || o.i4 >= 256))
      ensures Leaf(n, q, o) == Leaf(m, q, o)
    {
      InFirstGrows(o, ps, c);
      UpdateKeepsOthers(d, n, r, ps[c], e, q, o);
    }
  }

  lemma BackedStep(d: Tables, n: Tables, r: nat, ps: seq<Path>, c: nat, f: nat, flags: Flags)
    requires Root(d, r) && c < |ps| && Distinct(ps) && flags.present
    requires Backed(d, r, ps, c, flags) && f !in FramesOfRange(d, r, ps, c)
    requires Updated(d, n, r, ps[c], Entry(f, flags))
    ensures Backed(n, r, ps, c + 1, flags)
    ensures FramesOfRange(n, r, ps, c + 1) == FramesOfRange(d, r, ps, c) + {f}
  {
    hide Leaf;
    assert forall i :: 0 <= i < c ==> FrameAt(n, r, ps[i]) == FrameAt(d, r, ps[i]);
    assert FrameAt(n, r, ps[c]) == f;
  }

  lemma SpentOnDataStep(s: Memory, m: Memory, n: Memory, fs: set<nat>, f: nat)
    requires SpentOnData(s, m, fs) && WellFormed(m) && Grows(m.tables, n.tables)
    requires f in m.pool.free && f !in n.tables
    requires n.data == m.data[f := Zeros(PAGE_SIZE)] && n.tables.Keys <= m.tables.Keys + m.pool.free
    requires n.pool.free == m.pool.free - n.tables.Keys - {f}
    ensures SpentOnData(s, n, fs + {f})
  {
    assert f !in m.data;
  }

  lemma AllocMapMakes(s: Memory, r: nat, p: Path, flags: Flags)
    requires WellFormed(s) && Root(s.tables, r) && |s.pool.free| >= 1 + Missing(s.tables, r, p)
    ensures Made(s.tables, AllocMap(s, r, p, flags).0.tables, r, Needs(s.tables, r, p))
  {
    hide Missing;
    hide Map;
    hide Needs;
    hide Made;
    hide Forest;
    hide Take;
    TakenIsData(s);
    var (pool, f) := Take(s.pool);
    var s1 := s.(pool := pool, data := s.data[f := Zeros(PAGE_SIZE)]);
    assert |s1.pool.free| == |s.pool.free| - 1;
    MapMakes(s1, r, p, f, flags);
  }

  lemma AllocPagesStep(s: Memory, m: Memory, r: nat, ps: seq<Path>, c: nat, flags: Flags)
    requires WellFormed(s) && Root(s.tables, r) && flags.present && c < |ps| && Distinct(ps)
    requires RangeAllocated(s, m, r, ps, c, flags)
    requires |m.pool.free| >= 1 + Missing(m.tables, r, ps[c])
    ensures var (n, f) := AllocMap(m, r, ps[c], flags);
            && f != 0 && |n.pool.free| == |m.pool.free| - 1 - Missing(m.tables, r, ps[c])
            && RangeAllocated(s, n, r, ps, c + 1, flags)
  {
    hide Leaf;
    hide AllocMap;
    hide Missing;
    hide Backed;
    hide OthersKept;
    hide SameLeaves;
    hide Updated;
    hide Forest;
    hide Distinct;
    var (n, f) := AllocMap(m, r, ps[c], flags);
    AllocMapKeeps(m, r, ps[c], flags);
    AllocMapUpdates(m, r, ps[c], flags);
    hide FramesOfRange;
    hide ValidPool;
    var fs := FramesOfRange(m.tables, r, ps, c);
    assert fs <= m.data.Keys && f !in fs;
    GrowsTwice(s.tables, m.tables, n.tables);
    hide Grows;
    BackedStep(m.tables, n.tables, r, ps, c, f, flags);
    OthersKeptStep(s.tables, m.tables, n.tables, r, ps, c, Entry(f, flags));
    SpentOnDataStep(s, m, n, fs, f);
  }

  /** What any outcome of vmm_alloc_range leaves true, however many frames there are. */
  ghost predicate RangeTried(s: Memory, n: Memory, r: nat, ps: seq<Path>, c: nat)
    requires c <= |ps|
  {
    && WellFormed(n) && Grows(s.tables, n.tables)
    && OthersKept(s.tables, n.tables, r, ps, c)
    && (forall f :: f in s.data ==> f in n.data && n.data[f] == s.data[f])
  }

  lemma OthersKeptIfSame(m: Tables, d: Tables, n: Tables, r: nat, ps: seq<Path>, c: nat)
    requires Grows(m, d) && c < |ps| && OthersKept(m, d, r, ps, c) && SameLeaves(d, n)
    ensures OthersKept(m, n, r, ps, c + 1)
  {
    hide Leaf;
    forall q, o | Root(m, q) && !(InFirst(o, ps, c + 1) && (q == r || o.i4 >= 256))
      ensures Leaf(n, q, o) == Leaf(m, q, o)
    {
      InFirstGrows(o, ps, c);
      RootStays(m, d, q);
    }
  }

  lemma TriedStep(s: Memory, m: Memory, r: nat, ps: seq<Path>, c: nat, flags: Flags)
    requires WellFormed(s) && Root(s.tables, r) && c < |ps| && RangeTried(s, m, r, ps, c)
    ensures RangeTried(s, AllocMap(m, r, ps[c], flags).0, r, ps, c + 1)
  {
    hide Leaf;
    hide AllocMap;
    hide Missing;
    hide OthersKept;
    hide SameLeaves;
    hide Updated;
    hide Forest;
    hide Grows;
    RootStays(s.tables, m.tables, r);
    var (n, f) := AllocMap(m, r, ps[c], flags);
    AllocMapKeeps(m, r, ps[c], flags);
    AllocMapUpdates(m, r, ps[c], flags);
    GrowsTwice(s.tables, m.tables, n.tables);
    if |m.pool.free| >= 1 + Missing(m.tables, r, ps[c]) {
      OthersKeptStep(s.tables, m.tables, n.tables, r, ps, c, Entry(f, flags));
    } else {
      OthersKeptIfSame(s.tables, m.tables, n.tables, r, ps, c);
    }
  }

  /** vmm_alloc_range never disturbs a page outside its range, and success means a frame for every page. */
  lemma {:induction false} AllocRangeKeepsOthers(s: Memory, r: nat, ps: seq<Path>, c: nat, flags: Flags)
    requires WellFormed(s) && Root(s.tables, r) && c <= |ps|
    ensures var (n, ok) := AllocPages(s, r, ps, c, flags);
            RangeTried(s, n, r, ps, c) && (ok ==> |n.pool.free| + c <= |s.pool.free|)
  {
    hide AllocMap;
    hide RangeTried;
    if c == 0 {
      NothingTried(s, r, ps);
    } else {
      AllocRangeKeepsOthers(s, r, ps, c - 1, flags);
      var (m, ok) := AllocPages(s, r, ps, c - 1, flags);
      if ok {
        TriedStep(s, m, r, ps, c - 1, flags);
        AllocMapTakes(s, m, r, ps, c - 1, flags);
      } else {
        TriedMore(s, m, r, ps, c - 1);
      }
    }
  }

  lemma NothingTried(s: Memory, r: nat, ps: seq<Path>)
    requires WellFormed(s)
    ensures RangeTried(s, s, r, ps, 0)
  {
    hide Leaf;
    hide Forest;
  }

  lemma TriedMore(s: Memory, m: Memory, r: nat, ps: seq<Path>, c: nat)
    requires c < |ps| && RangeTried(s, m, r, ps, c)
    ensures RangeTried(s, m, r, ps, c + 1)
  {
    hide Leaf;
    hide Forest;
    forall q, o | Root(s.tables, q) && !(InFirst(o, ps, c + 1) && (q == r || o.i4 >= 256))
      ensures Leaf(m.tables, q, o) == Leaf(s.tables, q, o)
    {
      InFirstGrows(o, ps, c);
    }
  }

  lemma AllocMapTakes(s: Memory, m: Memory, r: nat, ps: seq<Path>, c: nat, flags: Flags)
    requires c < |ps| && RangeTried(s, m, r, ps, c) && Root(s.tables, r)
    ensures var (n, f) := AllocMap(m, r, ps[c], flags); f != 0 ==> |n.pool.free| + 1 <= |m.pool.free|
  {
    hide AllocMap;
    hide Forest;
    hide OthersKept;
    RootStays(s.tables, m.tables, r);
    AllocMapKeeps(m, r, ps[c], flags);
    var (n, f) := AllocMap(m, r, ps[c], flags);
    if f != 0 {
      assert n.pool.free <= m.pool.free - {f};
      SubsetSize(n.pool.free, m.pool.free - {f});
    }
  }

  /** vmm_alloc_range gives up only when the pool is empty, and it gives nothing back. */
  lemma {:induction false} FailureDrains(s: Memory, r: nat, ps: seq<Path>, c: nat, flags: Flags)
    requires WellFormed(s) && Root(s.tables, r) && c <= |ps| && !AllocPages(s, r, ps, c, flags).1
    ensures AllocPages(s, r, ps, c, flags).0.pool.free == {}
  {
    hide AllocMap;
    hide Forest;
    hide OthersKept;
    var (m, ok) := AllocPages(s, r, ps, c - 1, flags);
    if ok {
      AllocRangeKeepsOthers(s, r, ps, c - 1, flags);
      RootStays(s.tables, m.tables, r);
      AllocMapKeeps(m, r, ps[c - 1], flags);
    } else {
      FailureDrains(s, r, ps, c - 1, flags);
    }
  }

  lemma RangeAllocatedStart(s: Memory, r: nat, ps: seq<Path>, flags: Flags)
    requires WellFormed(s)
    ensures RangeAllocated(s, s, r, ps, 0, flags)
  {
    hide Leaf;
    assert FramesOfRange(s.tables, r, ps, 0) == {};
    assert s.pool.free - s.tables.Keys == s.pool.free;
  }

  lemma StillUnmapped(s: Memory, m: Memory, r: nat, ps: seq<Path>, c: nat)
    requires Root(s.tables, r) && c < |ps| && Distinct(ps)
    requires Leaf(s.tables, r, ps[c]) == None && OthersKept(s.tables, m.tables, r, ps, c)
    ensures Leaf(m.tables, r, ps[c]) == None
  {
    hide Leaf;
    assert !InFirst(ps[c], ps, c);
  }

  /** What vmm_alloc_range spends on c pages: a data frame for each, and the missing tables. */
  function Demand(m: Tables, r: nat, ps: seq<Path>, c: nat): (n: nat)
    requires c <= |ps|
  {
    c + Cost(m, r, ps, c)
  }

  /** Four frames per page are always enough. */
  lemma DemandBounded(m: Tables, r: nat, ps: seq<Path>, c: nat)
    requires c <= |ps|
    ensures Demand(m, r, ps, c) <= 4 * c
  {
    CostBounded(m, r, ps, c);
  }

  /**
   With a frame for each page and each missing table vmm_alloc_range succeeds on any range, spends exactly
   those, and backs each page with a distinct fresh zeroed frame.
   */
  lemma {:induction false} AllocRangeBacks(s: Memory, r: nat, ps: seq<Path>, c: nat, flags: Flags)
    requires WellFormed(s) && Root(s.tables, r) && flags.present && c <= |ps| && Distinct(ps)
    requires |s.pool.free| >= Demand(s.tables, r, ps, c)
    ensures var (n, ok) := AllocPages(s, r, ps, c, flags);
            && ok && |n.pool.free| == |s.pool.free| - Demand(s.tables, r, ps, c)
            && Made(s.tables, n.tables, r, NeedsOf(s.tables, r, ps, c))
            && RangeAllocated(s, n, r, ps, c, flags)
  {
    hide Leaf;
    hide AllocMap;
    hide Backed;
    hide SpentOnData;
    hide OthersKept;
    hide Forest;
    hide Distinct;
    hide Made;
    hide Needs;
    hide NeedsOf;
    hide Missing;
    if c == 0 {
      RangeAllocatedStart(s, r, ps, flags);
      NoPagesNoCost(s.tables, r, ps);
    } else {
      CostMonotone(s.tables, r, ps, c - 1);
      AllocRangeBacks(s, r, ps, c - 1, flags);
      var m := AllocPages(s, r, ps, c - 1, flags).0;
      CostGrows(s.tables, m.tables, r, ps, c - 1);
      AllocPagesStep(s, m, r, ps, c - 1, flags);
      AllocMapMakes(m, r, ps[c - 1], flags);
      MadeTwice(s.tables, m.tables, AllocMap(m, r, ps[c - 1], flags).0.tables, r,
                NeedsOf(s.tables, r, ps, c - 1), Needs(m.tables, r, ps[c - 1]));
    }
  }

  /** One frame short, and some page stays unmapped, whatever vmm_alloc_range reports. */
  lemma {:induction false} AllocRangeShort(s: Memory, r: nat, ps: seq<Path>, c: nat, flags: Flags) returns (i: nat)
    requires WellFormed(s) && Root(s.tables, r) && flags.present && c <= |ps| && Distinct(ps)
    requires Unmapped(s.tables, r, ps, c) && |s.pool.free| < Demand(s.tables, r, ps, c)
    ensures i < c && Leaf(AllocPages(s, r, ps, c, flags).0.tables, r, ps[i]) == None
  {
    hide Leaf;
    hide AllocMap;
    hide Backed;
    hide SpentOnData;
    hide OthersKept;
    hide Forest;
    hide Distinct;
    hide Made;
    hide Needs;
    hide Missing;
    hide Updated;
    hide SameLeaves;
    hide Grows;
    var (m, ok) := AllocPages(s, r, ps, c - 1, flags);
    AllocRangeKeepsOthers(s, r, ps, c - 1, flags);
    RootStays(s.tables, m.tables, r);
    var (n, f) := AllocMap(m, r, ps[c - 1], flags);
    AllocMapUpdates(m, r, ps[c - 1], flags);
    if |s.pool.free| < Demand(s.tables, r, ps, c - 1) {
      i := AllocRangeShort(s, r, ps, c - 1, flags);
      LeafElsewhere(m.tables, n.tables, r, ps, i, c - 1, Entry(f, flags));
    } else {
      i := c - 1;
      AllocRangeBacks(s, r, ps, c - 1, flags);
      CostGrows(s.tables, m.tables, r, ps, c - 1);
      StillUnmapped(s, m, r, ps, c - 1);
      SameLeafAt(m.tables, n.tables, r, ps[i]);
    }
  }

  /** An unmapped range ends up backed, page by page, exactly when the pool covers its demand. */
  lemma AllocRangeBacksIff(s: Memory, r: nat, ps: seq<Path>, c: nat, flags: Flags)
    requires WellFormed(s) && Root(s.tables, r) && flags.present && c <= |ps| && Distinct(ps)
    requires Unmapped(s.tables, r, ps, c)
    ensures Backed(AllocPages(s, r, ps, c, flags).0.tables, r, ps, c, flags)
            <==> |s.pool.free| >= Demand(s.tables, r, ps, c)
  {
    hide Leaf;
    hide AllocPages;
    hide Demand;
    hide Forest;
    if |s.pool.free| >= Demand(s.tables, r, ps, c) {
      AllocRangeBacks(s, r, ps, c, flags);
    } else {
      var i := AllocRangeShort(s, r, ps, c, flags);
    }
  }

  // ---------------------------------------------------------------- vmm_free_range

  /** pmm_free_page on a data frame. */
  ghost function Release(s: Memory, f: nat): (n: Memory)
    requires ValidPool(s.pool)
    ensures ValidPool(n.pool)
  {
    s.(pool := Give(s.pool, f), data := s.data - {f})
  }

  /** One round of vmm_free_range at offset `off` of page p: what is mapped there is unmapped and given back. */
  ghost function FreePage(s: Memory, r: nat, p: Path, off: nat): (n: Memory)
    requires ValidPool(s.pool)
    ensures ValidPool(n.pool)
  {
    var phys := PhysOf(Leaf(s.tables, r, p), off);
    if phys == 0 then s else Release(Unmap(s, r, p), phys / PAGE_SIZE)
  }

  ghost function FreePages(s: Memory, r: nat, ps: seq<Path>, off: nat, c: nat): (n: Memory)
    requires ValidPool(s.pool) && c <= |ps|
    ensures ValidPool(n.pool)
  {
    if c == 0 then s else FreePage(FreePages(s, r, ps, off, c - 1), r, ps[c - 1], off)
  }

  lemma PhysFrameBack(f: nat, off: nat)
    ensures (f * PAGE_SIZE + off % PAGE_SIZE) / PAGE_SIZE == f
  {
  }

  /** Freeing a page that is mapped to a data frame deletes the mapping and returns that frame. */
  lemma FreePageReleases(s: Memory, r: nat, p: Path, off: nat)
    requires WellFormed(s) && Root(s.tables, r)
    requires Leaf(s.tables, r, p).Some? && FrameAt(s.tables, r, p) in s.data
    ensures var n := FreePage(s, r, p, off);
            var f := FrameAt(s.tables, r, p);
            && WellFormed(n) && Grows(s.tables, n.tables) && n.tables.Keys == s.tables.Keys
            && Updated(s.tables, n.tables, r, p, EMPTY)
            && n.data == s.data - {f} && n.pool.free == s.pool.free + {f}
  {
    hide Leaf;
    hide Forest;
    hide Updated;
    hide Unmap;
    PhysFrameBack(FrameAt(s.tables, r, p), off);
    UnmapRefinesDelete(s, r, p);
  }

  ghost predicate SameFrame(m: Tables, r: nat, p: Path, o: Path) {
    Leaf(m, r, p).Some? && Leaf(m, r, o).Some? && FrameAt(m, r, p) == FrameAt(m, r, o)
  }

  /** Whatever the pages are mapped to are data frames, a different one for each. */
  ghost predicate Releasable(s: Memory, r: nat, ps: seq<Path>) {
    && (forall i :: 0 <= i < |ps| && Leaf(s.tables, r, ps[i]).Some? ==> FrameAt(s.tables, r, ps[i]) in s.data)
    && (forall i, j :: 0 <= i < |ps| && 0 <= j < |ps| && SameFrame(s.tables, r, ps[i], ps[j]) ==> ps[i] == ps[j])
  }

  lemma ReleasableStep(s: Memory, n: Memory, r: nat, ps: seq<Path>, c: nat)
    requires Root(s.tables, r) && Releasable(s, r, ps) && c < |ps| && Leaf(s.tables, r, ps[c]).Some?
    requires Updated(s.tables, n.tables, r, ps[c], EMPTY)
    requires n.data == s.data - {FrameAt(s.tables, r, ps[c])}
    ensures Releasable(n, r, ps)
  {
    hide Leaf;
    forall i | 0 <= i < |ps|
      ensures Leaf(n.tables, r, ps[i]) == if ps[i] == ps[c] then None else Leaf(s.tables, r, ps[i])
    {
    }
  }

  lemma FreePageKeepsReleasable(s: Memory, r: nat, ps: seq<Path>, c: nat, off: nat)
    requires WellFormed(s) && Root(s.tables, r) && Releasable(s, r, ps) && c < |ps|
    ensures Releasable(FreePage(s, r, ps[c], off), r, ps)
  {
    hide Leaf;
    hide Unmap;
    if Leaf(s.tables, r, ps[c]).Some? {
      FreePageReleases(s, r, ps[c], off);
      ReleasableStep(s, FreePage(s, r, ps[c], off), r, ps, c);
    }
  }

  /** vmm_free_range on such pages never disturbs a page outside its range. */
  lemma {:induction false} FreeRangeKeepsOthers(s: Memory, r: nat, ps: seq<Path>, off: nat, c: nat)
    requires WellFormed(s) && Root(s.tables, r) && Releasable(s, r, ps) && c <= |ps|
    ensures var n := FreePages(s, r, ps, off, c);
            && WellFormed(n) && Grows(s.tables, n.tables) && Releasable(n, r, ps)
            && OthersKept(s.tables, n.tables, r, ps, c)
  {
    hide Leaf;
    hide Forest;
    hide FreePage;
    hide OthersKept;
    hide Updated;
    hide Grows;
    if c == 0 {
      GrowsSelf(s.tables);
      NothingChanged(s.tables, r, ps);
    } else {
      FreeRangeKeepsOthers(s, r, ps, off, c - 1);
      var m := FreePages(s, r, ps, off, c - 1);
      RootStays(s.tables, m.tables, r);
      FreePageKeepsReleasable(m, r, ps, c - 1, off);
      FreeStepKeepsOthers(s.tables, m, r, ps, off, c - 1);
    }
  }

  lemma FreeStepKeepsOthers(s: Tables, m: Memory, r: nat, ps: seq<Path>, off: nat, c: nat)
    requires WellFormed(m) && Grows(s, m.tables) && Root(s, r) && Root(m.tables, r) && Releasable(m, r, ps)
    requires c < |ps| && OthersKept(s, m.tables, r, ps, c)
    ensures var n := FreePage(m, r, ps[c], off);
            WellFormed(n) && Grows(s, n.tables) && OthersKept(s, n.tables, r, ps, c + 1)
  {
    hide Leaf;
    hide Forest;
    hide OthersKept;
    hide Updated;
    hide Grows;
    hide Unmap;
    hide SameLeaves;
    var n := FreePage(m, r, ps[c], off);
    if Leaf(m.tables, r, ps[c]).Some? {
      FreePageReleases(m, r, ps[c], off);
      GrowsTwice(s, m.tables, n.tables);
      OthersKeptStep(s, m.tables, n.tables, r, ps, c, EMPTY);
    } else {
      SelfSame(m.tables);
      OthersKeptIfSame(s, m.tables, m.tables, r, ps, c);
    }
  }

  /** The frames the first c pages are mapped to, where they are mapped. */
  ghost function FramesUnder(m: Tables, r: nat, ps: seq<Path>, c: nat): (fs: set<nat>)
    requires c <= |ps|
  {
    set i | 0 <= i < c && Leaf(m, r, ps[i]).Some? :: FrameAt(m, r, ps[i])
  }

  /** On such pages, mapped or not, vmm_free_range leaves none mapped and returns exactly the frames they had. */
  lemma {:induction false} FreeRangeFrees(s: Memory, r: nat, ps: seq<Path>, off: nat, c: nat)
    requires WellFormed(s) && Root(s.tables, r) && Releasable(s, r, ps) && c <= |ps|
    ensures var n, fs := FreePages(s, r, ps, off, c), FramesUnder(s.tables, r, ps, c);
            && Unmapped(n.tables, r, ps, c) && n.tables.Keys == s.tables.Keys
            && n.data == s.data - fs && n.pool.free == s.pool.free + fs
  {
    hide Leaf;
    hide Forest;
    hide FreePage;
    hide OthersKept;
    hide Updated;
    hide Grows;
    hide Unmapped;
    hide FramesUnder;
    hide Releasable;
    if c == 0 {
      NothingUnder(s.tables, r, ps);
      assert s.data - {} == s.data;
    } else {
      FreeRangeFrees(s, r, ps, off, c - 1);
      FreeRangeKeepsOthers(s, r, ps, off, c - 1);
      var m := FreePages(s, r, ps, off, c - 1);
      RootStays(s.tables, m.tables, r);
      if Leaf(m.tables, r, ps[c - 1]).Some? {
        MappedIsNew(s.tables, m.tables, r, ps, c - 1);
        ReleasableAt(m, r, ps, c - 1);
        FreePageReleases(m, r, ps[c - 1], off);
        StaysUnmapped(m.tables, FreePage(m, r, ps[c - 1], off).tables, r, ps, c - 1);
      } else {
        UnmappedIsOld(s.tables, m.tables, r, ps, c - 1);
        UnmappedStays(m, r, ps[c - 1], off);
        OneMoreUnmapped(m.tables, r, ps, c - 1);
      }
    }
  }

  lemma NothingUnder(m: Tables, r: nat, ps: seq<Path>)
    ensures FramesUnder(m, r, ps, 0) == {} && Unmapped(m, r, ps, 0)
  {
  }

  lemma ReleasableAt(m: Memory, r: nat, ps: seq<Path>, c: nat)
    requires Releasable(m, r, ps) && c < |ps| && Leaf(m.tables, r, ps[c]).Some?
    ensures FrameAt(m.tables, r, ps[c]) in m.data
  {
  }

  /** A page still mapped after the first c were freed is none of them, and has the frame it had. */
  lemma MappedIsNew(s: Tables, m: Tables, r: nat, ps: seq<Path>, c: nat)
    requires Root(s, r) && c < |ps| && OthersKept(s, m, r, ps, c) && Unmapped(m, r, ps, c)
    requires Leaf(m, r, ps[c]).Some?
    ensures FramesUnder(s, r, ps, c + 1) == FramesUnder(s, r, ps, c) + {FrameAt(m, r, ps[c])}
  {
    hide Leaf;
    assert !InFirst(ps[c], ps, c);
    assert Leaf(m, r, ps[c]) == Leaf(s, r, ps[c]);
  }

  lemma UnmappedIsOld(s: Tables, m: Tables, r: nat, ps: seq<Path>, c: nat)
    requires Root(s, r) && c < |ps| && OthersKept(s, m, r, ps, c)
    requires Leaf(m, r, ps[c]).None?
    ensures FramesUnder(s, r, ps, c + 1) == FramesUnder(s, r, ps, c)
  {
    hide Leaf;
    if Leaf(s, r, ps[c]).Some? {
      assert InFirst(ps[c], ps, c);
    }
  }

  lemma StaysUnmapped(m: Tables, n: Tables, r: nat, ps: seq<Path>, c: nat)
    requires Root(m, r) && c < |ps| && Unmapped(m, r, ps, c) && Updated(m, n, r, ps[c], EMPTY)
    ensures Unmapped(n, r, ps, c + 1)
  {
    hide Leaf;
  }

  lemma UnmappedStays(m: Memory, r: nat, p: Path, off: nat)
    requires ValidPool(m.pool) && Leaf(m.tables, r, p).None?
    ensures FreePage(m, r, p, off) == m
  {
  }

  lemma OneMoreUnmapped(m: Tables, r: nat, ps: seq<Path>, c: nat)
    requires c < |ps| && Unmapped(m, r, ps, c) && Leaf(m, r, ps[c]).None?
    ensures Unmapped(m, r, ps, c + 1)
  {
  }

  lemma SelfSame(m: Tables)
    ensures SameLeaves(m, m)
  {
  }

  /** m is n with the first c of the pages unmapped and their frames given back. */
  ghost predicate RangeFreed(n: Memory, m: Memory, r: nat, ps: seq<Path>, c: nat)
    requires c <= |ps|
  {
    && WellFormed(m) && Grows(n.tables, m.tables) && m.tables.Keys == n.tables.Keys
    && Unmapped(m.tables, r, ps, c)
    && OthersKept(n.tables, m.tables, r, ps, c)
    && m.data == n.data - FramesOfRange(n.tables, r, ps, c)
    && m.pool.free == n.pool.free + FramesOfRange(n.tables, r, ps, c)
  }

  lemma UnmappedStep(d: Tables, n: Tables, r: nat, ps: seq<Path>, c: nat)
    requires Root(d, r) && c < |ps| && Distinct(ps)
    requires Unmapped(d, r, ps, c) && Updated(d, n, r, ps[c], EMPTY)
    ensures Unmapped(n, r, ps, c + 1)
  {
    hide Leaf;
  }

  /** The page freed next still has the frame it had, which is none of those already given back. */
  lemma NextFrame(n: Tables, m: Tables, r: nat, ps: seq<Path>, c: nat, flags: Flags)
    requires Root(n, r) && c < |ps| && Distinct(ps)
    requires Backed(n, r, ps, |ps|, flags) && OthersKept(n, m, r, ps, c)
    ensures var f := FrameAt(n, r, ps[c]);
            && Leaf(m, r, ps[c]) == Some(Entry(f, flags)) && FrameAt(m, r, ps[c]) == f
            && f in FramesOfRange(n, r, ps, |ps|) && f !in FramesOfRange(n, r, ps, c)
            && FramesOfRange(n, r, ps, c + 1) == FramesOfRange(n, r, ps, c) + {f}
  {
    hide Leaf;
    assert !InFirst(ps[c], ps, c);
  }

  lemma FreePagesStep(n: Memory, m: Memory, r: nat, ps: seq<Path>, off: nat, c: nat, flags: Flags)
    requires WellFormed(n) && Root(n.tables, r) && c < |ps| && Distinct(ps)
    requires Backed(n.tables, r, ps, |ps|, flags)
    requires FramesOfRange(n.tables, r, ps, |ps|) <= n.data.Keys
    requires RangeFreed(n, m, r, ps, c)
    ensures RangeFreed(n, FreePage(m, r, ps[c], off), r, ps, c + 1)
  {
    hide Leaf;
    hide Forest;
    hide FreePage;
    hide FramesOfRange;
    hide OthersKept;
    hide Unmapped;
    hide Updated;
    hide Distinct;
    hide Backed;
    NextFrame(n.tables, m.tables, r, ps, c, flags);
    FreePageReleases(m, r, ps[c], off);
    var o := FreePage(m, r, ps[c], off);
    UnmappedStep(m.tables, o.tables, r, ps, c);
    OthersKeptStep(n.tables, m.tables, o.tables, r, ps, c, EMPTY);
  }

  lemma NothingFreed(n: Memory, r: nat, ps: seq<Path>)
    requires WellFormed(n)
    ensures RangeFreed(n, n, r, ps, 0)
  {
    hide Leaf;
    hide Forest;
    assert FramesOfRange(n.tables, r, ps, 0) == {};
    assert n.data - {} == n.data;
  }

  lemma {:induction false} FreeRangeReleases(n: Memory, r: nat, ps: seq<Path>, off: nat, c: nat, flags: Flags)
    requires WellFormed(n) && Root(n.tables, r) && c <= |ps| && Distinct(ps)
    requires Backed(n.tables, r, ps, |ps|, flags)
    requires FramesOfRange(n.tables, r, ps, |ps|) <= n.data.Keys
    ensures RangeFreed(n, FreePages(n, r, ps, off, c), r, ps, c)
  {
    hide FreePage;
    hide RangeFreed;
    hide Backed;
    if c == 0 {
      NothingFreed(n, r, ps);
    } else {
      FreeRangeReleases(n, r, ps, off, c - 1, flags);
      FreePagesStep(n, FreePages(n, r, ps, off, c - 1), r, ps, off, c - 1, flags);
    }
  }

  /**
   vmm_alloc_range followed by vmm_free_range restores every translation and every data frame. What
   stays spent are exactly the frames that became page tables.
   */
  lemma AllocThenFreeRestores(s: Memory, r: nat, ps: seq<Path>, off: nat, flags: Flags)
    requires WellFormed(s) && Root(s.tables, r) && flags.present && Distinct(ps)
    requires Unmapped(s.tables, r, ps, |ps|) && |s.pool.free| >= Demand(s.tables, r, ps, |ps|)
    ensures var m := FreePages(AllocPages(s, r, ps, |ps|, flags).0, r, ps, off, |ps|);
            && WellFormed(m) && Grows(s.tables, m.tables)
            && (forall o :: Leaf(m.tables, r, o) == Leaf(s.tables, r, o))
            && (forall q, o: Path ::
                  Root(s.tables, q) && (o.i4 < 256 || o !in ps) ==> Leaf(m.tables, q, o) == Leaf(s.tables, q, o))
            && m.data == s.data
            && m.pool.free == s.pool.free - m.tables.Keys
  {
    hide Leaf;
    hide AllocPages;
    hide FreePages;
    hide Backed;
    hide FramesOfRange;
    hide Forest;
    hide OthersKept;
    hide Unmapped;
    hide Distinct;
    hide SpentOnData;
    var c := |ps|;
    AllocRangeBacks(s, r, ps, c, flags);
    var n := AllocPages(s, r, ps, c, flags).0;
    SpentIsData(s, n, FramesOfRange(n.tables, r, ps, c));
    FreeRangeReleases(n, r, ps, off, c, flags);
    var m := FreePages(n, r, ps, off, c);
    DataRestored(s, n, m, FramesOfRange(n.tables, r, ps, c));
    LeavesRestored(s.tables, n.tables, m.tables, r, ps);
  }

  lemma LeavesRestored(s: Tables, n: Tables, m: Tables, r: nat, ps: seq<Path>)
    requires Grows(s, n) && Root(s, r)
    requires Unmapped(s, r, ps, |ps|) && Unmapped(m, r, ps, |ps|)
    requires OthersKept(s, n, r, ps, |ps|) && OthersKept(n, m, r, ps, |ps|)
    ensures forall o :: Leaf(m, r, o) == Leaf(s, r, o)
    ensures forall q, o: Path :: Root(s, q) && (o.i4 < 256 || o !in ps) ==> Leaf(m, q, o) == Leaf(s, q, o)
  {
    hide Leaf;
    forall q, o: Path | Root(s, q) && (q == r || o.i4 < 256 || o !in ps)
      ensures Leaf(m, q, o) == Leaf(s, q, o)
    {
      assert Root(n, q);
      if InFirst(o, ps, |ps|) && q == r {
        var i :| 0 <= i < |ps| && ps[i] == o;
        assert Leaf(m, r, ps[i]) == Leaf(s, r, ps[i]);
      } else {
        assert Leaf(n, q, o) == Leaf(s, q, o);
      }
    }
  }

  lemma SpentIsData(s: Memory, n: Memory, fs: set<nat>)
    requires SpentOnData(s, n, fs)
    ensures fs <= n.data.Keys
  {
  }

  lemma DataRestored(s: Memory, n: Memory, m: Memory, fs: set<nat>)
    requires WellFormed(s) && WellFormed(n) && SpentOnData(s, n, fs)
    requires m.tables.Keys == n.tables.Keys && m.data == n.data - fs && m.pool.free == n.pool.free + fs
    ensures m.data == s.data && m.pool.free == s.pool.free - m.tables.Keys
  {
  }
}
