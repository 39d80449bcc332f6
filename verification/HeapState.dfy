/**
 The kernel heap on values: the invariant that ties both tiers together, the transitions that
 allocation and release are made of, and what the invariant means for live blocks.
 */
module HeapState {
  import opened Lists
  import opened Machine
  import opened Slab
  import opened LargeTier
  import F = FrameAllocator

  type Slabs = map<nat, Page>

  /** A block the heap handed out: a whole span, or one slot of a slab page. */
  datatype Block = Large(page: nat) | Obj(page: nat, slot: nat)

  /**
   The heap: span and slab headers, list heads, the cursor; then what the proof keeps beside them: the
   free list and the class lists as sequences, the tile of each page, and the live blocks with the
   sizes asked for.
   */
  datatype Heap = Heap(spans: Spans, slabs: Slabs, head: nat, classes: seq<nat>, cursor: nat,
                       freeList: seq<nat>, lists: seq<seq<nat>>, owner: Owner, live: map<Block, nat>)

  // ---------------------------------------------------------------- the invariant

  ghost predicate FreeListed(spans: Spans, list: seq<nat>) {
    forall b :: b in spans ==> (spans[b].free <==> b in list)
  }

  ghost predicate SlabsValid(slabs: Slabs) {
    forall b :: b in slabs ==> b != 0 && ValidPage(slabs[b])
  }

  ghost predicate SlabNode(slabs: Slabs, list: seq<nat>, i: nat, o: nat)
    requires i < |list|
  {
    var b := list[i];
    b != 0 && b in slabs && slabs[b].next == After(list, i) && slabs[b].order == o
  }

  ghost predicate SlabChain(slabs: Slabs, head: nat, list: seq<nat>, o: nat) {
    && head == (if list == [] then 0 else list[0])
    && forall i :: 0 <= i < |list| ==> SlabNode(slabs, list, i, o)
  }

  ghost predicate ClassesValid(slabs: Slabs, classes: seq<nat>, lists: seq<seq<nat>>) {
    && |classes| == 8 && |lists| == 8
    && (forall c :: 0 <= c < 8 ==> SlabChain(slabs, classes[c], lists[c], c + MIN_ORDER))
    && (forall b :: b in slabs ==> b in lists[slabs[b].order - MIN_ORDER])
  }

  /** Bytes the caller may use. */
  function Usable(spans: Spans, slabs: Slabs, x: Block): (n: int) {
    match x
    case Large(b) => if b in spans then spans[b].pages * PAGE_SIZE - LARGE_HDR else 0
    case Obj(b, _) => if b in slabs then ObjSize(slabs[b].order) else 0
  }

  ghost predicate InUse(spans: Spans, slabs: Slabs, x: Block) {
    match x
    case Large(b) => b in spans && !spans[b].free
    case Obj(b, i) => b in slabs && i < slabs[b].capacity && i < |slabs[b].used| && slabs[b].used[i]
  }

  /** The live blocks are exactly the blocks in use, each with the bytes that were asked for. */
  ghost predicate LiveExact(spans: Spans, slabs: Slabs, live: map<Block, nat>) {
    && (forall x :: x in live <==> InUse(spans, slabs, x))
    && (forall x :: x in live ==> live[x] <= Usable(spans, slabs, x))
  }

  ghost predicate Inv(h: Heap) {
    && Tiled(h.spans, h.slabs, h.owner, h.cursor)
    && Chain(h.spans, h.head, h.freeList)
    && FreeListed(h.spans, h.freeList)
    && SlabsValid(h.slabs)
    && ClassesValid(h.slabs, h.classes, h.lists)
    && LiveExact(h.spans, h.slabs, h.live)
  }

  // ---------------------------------------------------------------- what it means for blocks

  function Addr(slabs: Slabs, x: Block): (a: nat) {
    match x
    case Large(b) => b * PAGE_SIZE + LARGE_HDR
    case Obj(b, i) => b * PAGE_SIZE + (if b in slabs then Slot(slabs[b].order, slabs[b].capacity, i) else 0)
  }

  /** First byte of a tile that is not header or bitmap. */
  function HeaderEnd(h: Heap, b: nat): (n: nat) {
    if b in h.slabs then DataOff(h.slabs[b].order, h.slabs[b].capacity) else LARGE_HDR
  }

  function TileEnd(h: Heap, b: nat): (a: nat) {
    (b + Extent(h.spans, h.slabs, b)) * PAGE_SIZE
  }

  /** A live block lies inside its tile, behind the header and bitmap. */
  lemma BlockInTile(h: Heap, x: Block)
    requires Inv(h) && x in h.live
    ensures x.page in h.spans || x.page in h.slabs
    ensures BASE <= x.page && TileEnd(h, x.page) <= h.cursor * PAGE_SIZE
    ensures x.page * PAGE_SIZE + HeaderEnd(h, x.page) <= Addr(h.slabs, x)
    ensures Addr(h.slabs, x) + Usable(h.spans, h.slabs, x) <= TileEnd(h, x.page)
    ensures h.live[x] <= Usable(h.spans, h.slabs, x)
  {
    hide Slot;
    hide DataOff;
    hide Chain;
    hide ClassesValid;
    assert InUse(h.spans, h.slabs, x);
    match x
    case Large(b) =>
      assert OwnsItsPages(b, h.spans[b].pages, h.owner, h.cursor);
    case Obj(b, i) =>
      assert OwnsItsPages(b, 1, h.owner, h.cursor);
      assert b !in h.spans;
      SlotBounds(h.slabs[b].order, h.slabs[b].capacity, i);
  }

  /** Two live blocks never share a byte. */
  lemma LiveBlocksDisjoint(h: Heap, x: Block, y: Block)
    requires Inv(h) && x in h.live && y in h.live && x != y
    ensures Addr(h.slabs, x) + Usable(h.spans, h.slabs, x) <= Addr(h.slabs, y)
         || Addr(h.slabs, y) + Usable(h.spans, h.slabs, y) <= Addr(h.slabs, x)
  {
    hide Slot;
    hide DataOff;
    hide Inv;
    BlockInTile(h, x);
    BlockInTile(h, y);
    if x.page != y.page {
      assert Tiled(h.spans, h.slabs, h.owner, h.cursor) by { TilesOf(h); }
      TilesApart(h.spans, h.slabs, h.owner, h.cursor, x.page, y.page);
    } else {
      SamePageBlocks(h, x, y);
    }
  }

  lemma TilesOf(h: Heap)
    requires Inv(h)
    ensures Tiled(h.spans, h.slabs, h.owner, h.cursor)
  {
  }

  lemma SamePageBlocks(h: Heap, x: Block, y: Block)
    requires Inv(h) && x in h.live && y in h.live && x != y && x.page == y.page
    ensures x.Obj? && y.Obj? && x.slot != y.slot
    ensures Addr(h.slabs, x) + Usable(h.spans, h.slabs, x) <= Addr(h.slabs, y)
         || Addr(h.slabs, y) + Usable(h.spans, h.slabs, y) <= Addr(h.slabs, x)
  {
    hide Chain;
    hide ClassesValid;
    hide DataOff;
    assert InUse(h.spans, h.slabs, x) && InUse(h.spans, h.slabs, y);
    assert x.page in h.spans ==> x.page !in h.slabs;
    var p := h.slabs[x.page];
    if x.slot < y.slot {
      SlotsApart(p.order, p.capacity, x.slot, y.slot);
    } else {
      SlotsApart(p.order, p.capacity, y.slot, x.slot);
    }
  }

  /** No live block overlaps the header or bitmap of any tile, its own or another. */
  lemma BlocksMissHeaders(h: Heap, x: Block, b: nat)
    requires Inv(h) && x in h.live && (b in h.spans || b in h.slabs)
    ensures Addr(h.slabs, x) + Usable(h.spans, h.slabs, x) <= b * PAGE_SIZE
         || b * PAGE_SIZE + HeaderEnd(h, b) <= Addr(h.slabs, x)
  {
    hide Slot;
    hide DataOff;
    hide Chain;
    hide ClassesValid;
    hide LiveExact;
    BlockInTile(h, x);
    if x.page != b {
      TilesApart(h.spans, h.slabs, h.owner, h.cursor, x.page, b);
      HeaderInTile(h, b);
    }
  }

  lemma HeaderInTile(h: Heap, b: nat)
    requires Inv(h) && (b in h.spans || b in h.slabs)
    ensures b * PAGE_SIZE + HeaderEnd(h, b) <= TileEnd(h, b)
  {
    hide Chain;
    hide ClassesValid;
    hide LiveExact;
    hide DataOff;
    if b in h.slabs {
      assert b !in h.spans;
      SlotBounds(h.slabs[b].order, h.slabs[b].capacity, 0);
    } else {
      assert OwnsItsPages(b, h.spans[b].pages, h.owner, h.cursor);
    }
  }

  // ---------------------------------------------------------------- finding the tier of a pointer

  /** The block a pointer belongs to, by the page it lies on: a slot of a slab page, or else a span. */
  function BlockAt(slabs: Slabs, ptr: nat): (x: Block) {
    var b := ptr / PAGE_SIZE;
    if b !in slabs then Large(b)
    else
      var i := SlotOf(slabs[b].order, slabs[b].capacity, ptr % PAGE_SIZE);
      if i.None? then Large(b) else Obj(b, i.value)
  }

  /** That is the tier, page and slot that issued the pointer. */
  lemma BlockAtAddr(h: Heap, x: Block)
    requires Inv(h) && x in h.live
    ensures BlockAt(h.slabs, Addr(h.slabs, x)) == x
    ensures Addr(h.slabs, x) != 0 && Addr(h.slabs, x) / PAGE_SIZE == x.page
  {
    hide Chain;
    hide ClassesValid;
    hide DataOff;
    hide SlotOf;
    hide Slot;
    assert InUse(h.spans, h.slabs, x);
    BlockInTile(h, x);
    match x
    case Large(b) =>
      assert b !in h.slabs;
      PageAndOffset(b, LARGE_HDR);
    case Obj(b, i) =>
      ObjAtAddr(h.slabs, b, i);
  }

  lemma ObjAtAddr(slabs: Slabs, b: nat, i: nat)
    requires b in slabs && ValidPage(slabs[b]) && i < slabs[b].capacity
    ensures BlockAt(slabs, Addr(slabs, Obj(b, i))) == Obj(b, i) && Addr(slabs, Obj(b, i)) / PAGE_SIZE == b
  {
    hide Slot;
    hide SlotOf;
    var p := slabs[b];
    SlotBounds(p.order, p.capacity, i);
    var off := Slot(p.order, p.capacity, i);
    PageAndOffset(b, off);
    SlotOfInverse(p.order, p.capacity, i, off);
  }

  lemma PageAndOffset(b: nat, off: nat)
    requires off < PAGE_SIZE
    ensures (b * PAGE_SIZE + off) / PAGE_SIZE == b && (b * PAGE_SIZE + off) % PAGE_SIZE == off
  {
  }

  // ---------------------------------------------------------------- transitions: large tier

  /** Span b handed out for `size` bytes. */
  function Handed(spans: Spans, b: nat): (n: Spans)
    requires b in spans
  {
    spans[b := spans[b].(free := false, next := 0, prev := 0)]
  }

  /** large_alloc when no free span fits: t pages at the cursor. */
  ghost function AllocGrown(h: Heap, t: nat, size: nat): (n: Heap) {
    h.(spans := h.spans[h.cursor := Span(t, false, 0, 0)], cursor := h.cursor + t,
       owner := Assign(h.owner, h.cursor, t), live := h.live[Large(h.cursor) := size])
  }

  /** The first half of large_alloc on a free span: entry k of the free list is unlinked. */
  ghost function Unlinked(h: Heap, k: nat): (n: Heap)
    requires Inv(h) && k < |h.freeList|
  {
    assert Linkable(h.spans, h.freeList[k]) by { NeighboursInChain(h.spans, h.head, h.freeList, k); }
    var (spans, head) := Removed(h.spans, h.head, h.freeList[k]);
    h.(spans := spans, head := head, freeList := Without(h.freeList, k))
  }

  ghost predicate Linkable(spans: Spans, b: nat) {
    && b in spans
    && (spans[b].prev != 0 ==> spans[b].prev in spans)
    && (spans[b].next != 0 ==> spans[b].next in spans)
  }

  /** The invariant while span b is in nobody's hands: marked free, but off the list. */
  ghost predicate InvBut(h: Heap, b: nat) {
    && Tiled(h.spans, h.slabs, h.owner, h.cursor)
    && Chain(h.spans, h.head, h.freeList)
    && b in h.spans && b !in h.freeList
    && (forall c :: c in h.spans && c != b ==> (h.spans[c].free <==> c in h.freeList))
    && SlabsValid(h.slabs)
    && ClassesValid(h.slabs, h.classes, h.lists)
    && Large(b) !in h.live
    && (forall x :: x in h.live ==> InUse(h.spans, h.slabs, x) && h.live[x] <= Usable(h.spans, h.slabs, x))
    && (forall x :: x != Large(b) && InUse(h.spans, h.slabs, x) ==> x in h.live)
  }

  /** The split: the pages of b beyond the first t become a free span at the head of the list. */
  ghost function Split(h: Heap, b: nat, t: nat): (n: Heap)
    requires b in h.spans && t < h.spans[b].pages && (h.head != 0 ==> h.head in h.spans)
  {
    var spans := SplitSpans(h.spans, b, t);
    h.(spans := Inserted(spans, h.head, b + t), head := b + t, freeList := [b + t] + h.freeList,
       owner := Assign(h.owner, b + t, h.spans[b].pages - t))
  }

  ghost function HandOut(h: Heap, b: nat, size: nat): (n: Heap)
    requires b in h.spans
  {
    h.(spans := Handed(h.spans, b), live := h.live[Large(b) := size])
  }

  /** large_free of span b. */
  ghost function FreedSpan(h: Heap, b: nat): (n: Heap)
    requires b in h.spans && (h.head != 0 ==> h.head in h.spans)
  {
    h.(spans := Inserted(h.spans, h.head, b), head := b, freeList := [b] + h.freeList, live := h.live - {Large(b)})
  }

  lemma InUseOnlyFlags(m: Spans, n: Spans, slabs: Slabs, x: Block, b: nat)
    requires SamePages(m, n) && (forall c :: c in m && c != b ==> n[c].free == m[c].free) && x != Large(b)
    ensures InUse(n, slabs, x) <==> InUse(m, slabs, x)
    ensures Usable(n, slabs, x) == Usable(m, slabs, x)
  {
  }

  lemma RemovedSame(spans: Spans, head: nat, b: nat)
    requires Linkable(spans, b)
    ensures var n := Removed(spans, head, b).0;
            SamePages(spans, n) && forall c :: c in spans ==> n[c].free == spans[c].free
  {
  }

  lemma UnlinkedKeeps(h: Heap, k: nat)
    requires Inv(h) && k < |h.freeList|
    ensures InvBut(Unlinked(h, k), h.freeList[k])
    ensures SamePages(h.spans, Unlinked(h, k).spans)
  {
    hide SlabsValid;
    hide ClassesValid;
    hide Tiled;
    hide Removed;
    hide Without;
    var b := h.freeList[k];
    NeighboursInChain(h.spans, h.head, h.freeList, k);
    RemovedSame(h.spans, h.head, b);
    RemoveKeepsChain(h.spans, h.head, h.freeList, k);
    WithoutMembers(h.freeList, k);
    hide Chain;
    var n := Unlinked(h, k);
    SamePagesSameTiles(h.spans, n.spans, h.slabs, h.owner, h.cursor);
    assert !InUse(h.spans, h.slabs, Large(b));
    forall x | x != Large(b)
      ensures InUse(n.spans, n.slabs, x) <==> x in h.live
      ensures Usable(n.spans, n.slabs, x) == Usable(h.spans, h.slabs, x)
    {
      InUseOnlyFlags(h.spans, n.spans, h.slabs, x, b);
    }
  }

  lemma WithoutMembers(list: seq<nat>, k: nat)
    requires k < |list| && Distinct(list)
    ensures forall c :: c in Without(list, k) <==> c in list && c != list[k]
  {
    var l := Without(list, k);
    forall c | c in list && c != list[k]
      ensures c in l
    {
      var i :| 0 <= i < |list| && list[i] == c;
      assert l[if i < k then i else i - 1] == c;
    }
  }

  lemma HandOutKeeps(h: Heap, b: nat, size: nat)
    requires InvBut(h, b) && size + LARGE_HDR <= h.spans[b].pages * PAGE_SIZE
    ensures Inv(HandOut(h, b, size))
  {
    hide SlabsValid;
    hide ClassesValid;
    var n := HandOut(h, b, size);
    SamePagesSameTiles(h.spans, n.spans, h.slabs, h.owner, h.cursor);
    assert Chain(n.spans, n.head, n.freeList) by { OffListKeepsChain(h.spans, n.spans, h.head, h.freeList, b); }
    forall x
      ensures x in n.live <==> InUse(n.spans, n.slabs, x)
      ensures x in n.live ==> n.live[x] <= Usable(n.spans, n.slabs, x)
    {
      if x != Large(b) {
        InUseOnlyFlags(h.spans, n.spans, h.slabs, x, b);
      }
    }
  }

  /** Changing a span that is not on the list leaves the chain as it is. */
  lemma OffListKeepsChain(m: Spans, n: Spans, head: nat, list: seq<nat>, b: nat)
    requires Chain(m, head, list) && b !in list
    requires forall c :: c in m && c != b ==> c in n && n[c] == m[c]
    ensures Chain(n, head, list)
  {
    forall i | 0 <= i < |list|
      ensures Node(n, list, i)
    {
      assert Node(m, list, i);
      assert list[i] in list;
    }
  }

  lemma HeadIsSpan(spans: Spans, head: nat, list: seq<nat>)
    requires Chain(spans, head, list)
    ensures head != 0 ==> head in spans
  {
    if list != [] {
      assert Node(spans, list, 0);
    }
  }

  lemma SplitChain(h: Heap, b: nat, t: nat)
    requires Chain(h.spans, h.head, h.freeList) && b in h.spans && b !in h.freeList
    requires 0 < b && t < h.spans[b].pages && b + t !in h.spans
    ensures h.head != 0 ==> h.head in h.spans
    ensures var n := Split(h, b, t); Chain(n.spans, n.head, n.freeList)
  {
    HeadIsSpan(h.spans, h.head, h.freeList);
    ListInSpans(h.spans, h.head, h.freeList, b + t);
    SplitOffList(h.spans, h.head, h.freeList, b, t);
    hide Chain;
    InsertKeepsChain(SplitSpans(h.spans, b, t), h.head, h.freeList, b + t);
  }

  lemma SplitTiles(h: Heap, b: nat, t: nat)
    requires Tiled(h.spans, h.slabs, h.owner, h.cursor) && b in h.spans && 0 < t < h.spans[b].pages
    requires h.head != 0 ==> h.head in h.spans
    ensures b + t !in h.spans
    ensures var n := Split(h, b, t); Tiled(n.spans, n.slabs, n.owner, n.cursor)
  {
    hide Assign;
    hide Tiled;
    hide SamePages;
    hide Inserted;
    SplitKeepsTiles(h.spans, h.slabs, h.owner, h.cursor, b, t);
    var mid := SplitSpans(h.spans, b, t);
    InsertedSame(mid, h.head, b + t);
    SamePagesSameTiles(mid, Inserted(mid, h.head, b + t), h.slabs, Split(h, b, t).owner, h.cursor);
  }

  /** The remainder is a header of its own before it is put on the list. */
  lemma SplitInserts(h: Heap, b: nat, t: nat)
    requires b in h.spans && t < h.spans[b].pages && (h.head != 0 ==> h.head in h.spans)
    ensures var mid := SplitSpans(h.spans, b, t);
            b in mid && b + t in mid && (h.head != 0 ==> h.head in mid) && b in Inserted(mid, h.head, b + t)
  {
  }

  lemma SplitParts(h: Heap, b: nat, t: nat, n: Heap)
    requires b in h.spans && t < h.spans[b].pages && (h.head != 0 ==> h.head in h.spans)
    requires b + t in SplitSpans(h.spans, b, t) && (h.head != 0 ==> h.head in SplitSpans(h.spans, b, t))
    requires n.spans == Inserted(SplitSpans(h.spans, b, t), h.head, b + t) && n.head == b + t
    requires n.freeList == [b + t] + h.freeList && n.owner == Assign(h.owner, b + t, h.spans[b].pages - t)
    requires n.slabs == h.slabs && n.classes == h.classes && n.cursor == h.cursor
    requires n.lists == h.lists && n.live == h.live
    ensures n == Split(h, b, t)
  {
    hide Inserted;
    hide SplitSpans;
    hide Assign;
  }

  lemma TileNotNull(h: Heap, b: nat)
    requires Tiled(h.spans, h.slabs, h.owner, h.cursor) && (b in h.spans || b in h.slabs)
    ensures b != 0
  {
    assert OwnsItsPages(b, Extent(h.spans, h.slabs, b), h.owner, h.cursor);
  }

  lemma SplitKeeps(h: Heap, b: nat, t: nat)
    requires InvBut(h, b) && 0 < t < h.spans[b].pages
    ensures h.head != 0 ==> h.head in h.spans
    ensures InvBut(Split(h, b, t), b) && Split(h, b, t).spans[b].pages == t
  {
    hide SlabsValid;
    hide ClassesValid;
    hide Tiled;
    hide Chain;
    hide Inserted;
    hide SplitSpans;
    hide Assign;
    hide InUse;
    hide Usable;
    HeadIsSpan(h.spans, h.head, h.freeList);
    TileNotNull(h, b);
    SplitTiles(h, b, t);
    SplitChain(h, b, t);
    SplitUses(h, b, t);
  }

  lemma ListInSpans(spans: Spans, head: nat, list: seq<nat>, c: nat)
    requires Chain(spans, head, list) && c !in spans
    ensures c !in list
  {
    forall i | 0 <= i < |list|
      ensures list[i] != c
    {
      assert Node(spans, list, i);
    }
  }

  lemma SplitOffList(spans: Spans, head: nat, list: seq<nat>, b: nat, t: nat)
    requires Chain(spans, head, list) && b in spans && b !in list && t < spans[b].pages && b + t !in spans
    ensures Chain(SplitSpans(spans, b, t), head, list)
  {
    OffListKeepsChain(spans, SplitSpans(spans, b, t), head, list, b);
  }

  lemma InsertedSame(spans: Spans, head: nat, b: nat)
    requires b in spans && (head != 0 ==> head in spans)
    ensures SamePages(spans, Inserted(spans, head, b))
    ensures forall c :: c in spans && c != b ==> Inserted(spans, head, b)[c].free == spans[c].free
    ensures Inserted(spans, head, b)[b].free
  {
  }

  lemma SplitUses(h: Heap, b: nat, t: nat)
    requires InvBut(h, b) && b != 0 && 0 < t < h.spans[b].pages && b + t !in h.spans
    requires h.head != 0 ==> h.head in h.spans
    ensures var n := Split(h, b, t);
            && (forall x :: x in n.live ==> InUse(n.spans, n.slabs, x) && n.live[x] <= Usable(n.spans, n.slabs, x))
            && (forall x :: x != Large(b) && InUse(n.spans, n.slabs, x) ==> x in n.live)
            && (forall c :: c in n.spans && c != b ==> (n.spans[c].free <==> c in n.freeList))
            && b in n.spans && b !in n.freeList && n.spans[b].pages == t
  {
    hide SlabsValid;
    hide ClassesValid;
    hide Tiled;
    var n := Split(h, b, t);
    assert h.head != b by { HeadOnList(h.spans, h.head, h.freeList, b); }
    assert h.head != b + t;
    assert forall c :: c in h.spans && c != b ==>
        n.spans[c].free == h.spans[c].free && n.spans[c].pages == h.spans[c].pages;
    assert n.spans[b + t].free;
  }

  lemma HeadOnList(spans: Spans, head: nat, list: seq<nat>, b: nat)
    requires Chain(spans, head, list) && b !in list && b != 0
    ensures head != b
  {
  }

  lemma GrownChain(h: Heap, t: nat, size: nat)
    requires Chain(h.spans, h.head, h.freeList) && FreeListed(h.spans, h.freeList) && h.cursor !in h.spans
    ensures var n := AllocGrown(h, t, size); Chain(n.spans, n.head, n.freeList) && FreeListed(n.spans, n.freeList)
  {
    hide Assign;
    ListInSpans(h.spans, h.head, h.freeList, h.cursor);
    OffListKeepsChain(h.spans, AllocGrown(h, t, size).spans, h.head, h.freeList, h.cursor);
  }

  lemma GrownKeeps(h: Heap, t: nat, size: nat)
    requires Inv(h) && 0 < t && h.cursor + t <= BASE + MAX_PAGES && size + LARGE_HDR <= t * PAGE_SIZE
    ensures h.cursor !in h.spans && Inv(AllocGrown(h, t, size))
  {
    hide SlabsValid;
    hide ClassesValid;
    hide Assign;
    hide Tiled;
    hide Chain;
    hide FreeListed;
    hide LiveExact;
    GrowSpan(h.spans, h.slabs, h.owner, h.cursor, t, Span(t, false, 0, 0));
    GrownChain(h, t, size);
    GrownLive(h, t, size);
  }

  lemma GrownLive(h: Heap, t: nat, size: nat)
    requires LiveExact(h.spans, h.slabs, h.live) && h.cursor !in h.spans && size + LARGE_HDR <= t * PAGE_SIZE
    ensures var n := AllocGrown(h, t, size); LiveExact(n.spans, n.slabs, n.live)
  {
    hide Assign;
    hide ObjSize;
    var n := AllocGrown(h, t, size);
    forall x
      ensures x in n.live <==> InUse(n.spans, n.slabs, x)
      ensures x in n.live ==> n.live[x] <= Usable(n.spans, n.slabs, x)
    {
      assert x in h.live <==> InUse(h.spans, h.slabs, x);
    }
  }

  lemma FreedKeeps(h: Heap, b: nat)
    requires Inv(h) && Large(b) in h.live
    ensures b in h.spans && !h.spans[b].free && (h.head != 0 ==> h.head in h.spans)
    ensures Inv(FreedSpan(h, b))
  {
    hide SlabsValid;
    hide ClassesValid;
    assert InUse(h.spans, h.slabs, Large(b));
    assert OwnsItsPages(b, h.spans[b].pages, h.owner, h.cursor);
    HeadIsSpan(h.spans, h.head, h.freeList);
    InsertKeepsChain(h.spans, h.head, h.freeList, b);
    var n := FreedSpan(h, b);
    SamePagesSameTiles(h.spans, n.spans, h.slabs, h.owner, h.cursor);
    assert h.head != b by { HeadOnList(h.spans, h.head, h.freeList, b); }
    forall x
      ensures x in n.live <==> InUse(n.spans, n.slabs, x)
      ensures x in n.live ==> n.live[x] <= Usable(n.spans, n.slabs, x)
    {
      if x != Large(b) {
        InUseOnlyFlags(h.spans, n.spans, h.slabs, x, b);
      }
    }
  }

  /** large_alloc on entry k of the free list, which has at least t pages. */
  ghost function AllocListed(h: Heap, k: nat, t: nat, size: nat): (n: Heap)
    requires Inv(h) && k < |h.freeList|
  {
    var b, u := h.freeList[k], Unlinked(h, k);
    if b !in u.spans then u
    else if t + 2 <= u.spans[b].pages && (u.head != 0 ==> u.head in u.spans) then HandOut(Split(u, b, t), b, size)
    else HandOut(u, b, size)
  }

  /** Span c of m is cut to t pages and the rest left as a free span, if that is more than a page; else kept whole. */
  ghost predicate CutFrom(m: Spans, n: Spans, c: nat, t: nat) {
    && c in m && c in n
    && n[c].pages == (if m[c].pages >= t + 2 then t else m[c].pages)
    && (m[c].pages >= t + 2 ==> c + t in n && n[c + t].free && n[c + t].pages == m[c].pages - t)
    && (forall b :: b in m && b != c ==> b in n && n[b].pages == m[b].pages && n[b].free == m[b].free)
  }

  lemma AllocListedCuts(h: Heap, k: nat, t: nat, size: nat)
    requires Inv(h) && k < |h.freeList| && h.freeList[k] in h.spans && 0 < t <= h.spans[h.freeList[k]].pages
    ensures CutFrom(h.spans, AllocListed(h, k, t, size).spans, h.freeList[k], t)
  {
    hide CutFrom;
    hide Removed;
    hide Inserted;
    hide SplitSpans;
    hide Handed;
    hide Without;
    hide Tiled;
    hide SlabsValid;
    hide ClassesValid;
    hide InUse;
    hide Usable;
    var b, u := h.freeList[k], Unlinked(h, k);
    UnlinkedKeeps(h, k);
    NeighboursInChain(h.spans, h.head, h.freeList, k);
    RemovedSame(h.spans, h.head, b);
    HeadInChain(u.spans, u.head, u.freeList);
    hide Chain;
    if t + 2 <= u.spans[b].pages {
      InteriorIsNoTile(u.spans, u.slabs, u.owner, u.cursor, b, t);
      SplitInserts(u, b, t);
      CutSplit(h.spans, u.spans, u.head, b, t);
    } else {
      CutWhole(h.spans, u.spans, b, t);
    }
  }

  lemma HeadInChain(spans: Spans, head: nat, list: seq<nat>)
    requires Chain(spans, head, list)
    ensures head != 0 ==> head in spans
  {
    if list != [] {
      assert Node(spans, list, 0);
    }
  }

  lemma CutWhole(m: Spans, u: Spans, b: nat, t: nat)
    requires SamePages(m, u) && b in u && u[b].pages < t + 2
    requires forall c :: c in m ==> u[c].free == m[c].free
    ensures CutFrom(m, Handed(u, b), b, t)
  {
  }

  lemma CutSplit(m: Spans, u: Spans, head: nat, b: nat, t: nat)
    requires SamePages(m, u) && b in u && 0 < t && t + 2 <= u[b].pages && b + t !in u && (head != 0 ==> head in u)
    requires forall c :: c in m ==> u[c].free == m[c].free
    ensures b + t in SplitSpans(u, b, t) && (head != 0 ==> head in SplitSpans(u, b, t))
    ensures b in Inserted(SplitSpans(u, b, t), head, b + t)
    ensures CutFrom(m, Handed(Inserted(SplitSpans(u, b, t), head, b + t), b), b, t)
  {
  }

  lemma GrownPages(h: Heap, t: nat, size: nat)
    ensures var n := AllocGrown(h, t, size).spans; h.cursor in n && n[h.cursor].pages == t
  {
  }

  /** A live block whose address and size an operation does not touch. */
  ghost predicate Untouched(h: Heap, n: Heap, x: Block) {
    Addr(n.slabs, x) == Addr(h.slabs, x) && Usable(n.spans, n.slabs, x) == Usable(h.spans, h.slabs, x)
  }

  /** n is h with one more live block, asked for with `size` bytes; nothing else moved. */
  ghost predicate Allocated(h: Heap, n: Heap, x: Block, size: nat) {
    && x !in h.live && n.live == h.live[x := size]
    && (forall y :: y in h.live ==> Untouched(h, n, y))
  }

  /** n is h with block x given back; nothing else moved. */
  ghost predicate Released(h: Heap, n: Heap, x: Block) {
    && x in h.live && n.live == h.live - {x}
    && (forall y :: y in n.live ==> Untouched(h, n, y))
  }

  lemma AllocListedKeeps(h: Heap, k: nat, t: nat, size: nat)
    requires Inv(h) && k < |h.freeList| && h.freeList[k] in h.spans && 0 < t <= h.spans[h.freeList[k]].pages
    requires size + LARGE_HDR <= t * PAGE_SIZE
    ensures Inv(AllocListed(h, k, t, size))
  {
    hide Inv;
    hide Unlinked;
    hide Split;
    hide HandOut;
    hide Tiled;
    hide Chain;
    hide ClassesValid;
    hide SlabsValid;
    hide InUse;
    hide Usable;
    var b, u := h.freeList[k], Unlinked(h, k);
    UnlinkedKeeps(h, k);
    if t + 2 <= u.spans[b].pages {
      SplitKeeps(u, b, t);
      HandOutKeeps(Split(u, b, t), b, size);
    } else {
      HandOutKeeps(u, b, size);
    }
  }

  lemma SplitUntouched(u: Heap, b: nat, t: nat, y: Block)
    requires b in u.spans && t < u.spans[b].pages && (u.head != 0 ==> u.head in u.spans) && b + t !in u.spans
    requires y.Large? ==> y.page in u.spans && y.page != b
    ensures Untouched(u, Split(u, b, t), y)
  {
    hide Slot;
    hide ObjSize;
    hide Assign;
  }

  lemma AllocListedUntouched(h: Heap, k: nat, t: nat, size: nat, y: Block)
    requires Inv(h) && k < |h.freeList| && h.freeList[k] in h.spans && 0 < t <= h.spans[h.freeList[k]].pages
    requires y in h.live && y != Large(h.freeList[k])
    ensures Untouched(h, AllocListed(h, k, t, size), y)
  {
    hide Slot;
    hide ObjSize;
    hide Chain;
    hide ClassesValid;
    hide SlabsValid;
    hide Tiled;
    hide Removed;
    hide Split;
    assert InUse(h.spans, h.slabs, y);
    var b, u := h.freeList[k], Unlinked(h, k);
    UnlinkedKeeps(h, k);
    assert Untouched(h, u, y);
    if t + 2 <= u.spans[b].pages && (u.head != 0 ==> u.head in u.spans) {
      InteriorFresh(h, b, t);
      SplitUntouched(u, b, t, y);
      assert b in Split(u, b, t).spans by { SplitKeeps(u, b, t); }
    }
  }

  lemma AllocListedAllocates(h: Heap, k: nat, t: nat, size: nat)
    requires Inv(h) && k < |h.freeList| && h.freeList[k] in h.spans && 0 < t <= h.spans[h.freeList[k]].pages
    requires size + LARGE_HDR <= t * PAGE_SIZE
    ensures Allocated(h, AllocListed(h, k, t, size), Large(h.freeList[k]), size)
  {
    hide Chain;
    hide ClassesValid;
    hide SlabsValid;
    hide Tiled;
    hide Removed;
    hide Untouched;
    var b := h.freeList[k];
    assert !InUse(h.spans, h.slabs, Large(b));
    UnlinkedKeeps(h, k);
    forall y | y in h.live
      ensures Untouched(h, AllocListed(h, k, t, size), y)
    {
      AllocListedUntouched(h, k, t, size, y);
    }
  }

  lemma InteriorFresh(h: Heap, b: nat, t: nat)
    requires Tiled(h.spans, h.slabs, h.owner, h.cursor) && b in h.spans && 0 < t
    ensures t < h.spans[b].pages ==> b + t !in h.spans
  {
    if t < h.spans[b].pages {
      InteriorIsNoTile(h.spans, h.slabs, h.owner, h.cursor, b, t);
    }
  }

  lemma GrownAllocates(h: Heap, t: nat, size: nat)
    requires Inv(h) && h.cursor !in h.spans
    ensures Allocated(h, AllocGrown(h, t, size), Large(h.cursor), size)
  {
    hide Slot;
    hide ObjSize;
    hide Chain;
    hide ClassesValid;
    hide SlabsValid;
    hide Tiled;
    assert !InUse(h.spans, h.slabs, Large(h.cursor));
    forall y | y in h.live
      ensures Untouched(h, AllocGrown(h, t, size), y)
    {
      assert InUse(h.spans, h.slabs, y);
    }
  }

  lemma FreedReleases(h: Heap, b: nat)
    requires Inv(h) && Large(b) in h.live && b in h.spans && (h.head != 0 ==> h.head in h.spans)
    ensures Released(h, FreedSpan(h, b), Large(b))
  {
    hide Slot;
    hide ObjSize;
    hide Chain;
    hide ClassesValid;
    hide SlabsValid;
    hide Tiled;
    InsertedSame(h.spans, h.head, b);
  }

  // ---------------------------------------------------------------- transitions: slab tier

  /** slab_new_page: page p of order o at the cursor, pushed onto its class. */
  ghost function WithSlab(h: Heap, p: Page): (n: Heap)
    requires |h.classes| == 8 && |h.lists| == 8
  {
    var c := p.order - MIN_ORDER;
    h.(slabs := h.slabs[h.cursor := p.(next := h.classes[c])], classes := h.classes[c := h.cursor],
       lists := h.lists[c := [h.cursor] + h.lists[c]], cursor := h.cursor + 1, owner := Assign(h.owner, h.cursor, 1))
  }

  ghost function SlotTaken(h: Heap, b: nat, i: nat, size: nat): (n: Heap)
    requires b in h.slabs && i < |h.slabs[b].used| && h.slabs[b].freeCount > 0
  {
    h.(slabs := h.slabs[b := Taken(h.slabs[b], i)], live := h.live[Obj(b, i) := size])
  }

  ghost function SlotGiven(h: Heap, b: nat, i: nat): (n: Heap)
    requires b in h.slabs && i < |h.slabs[b].used|
  {
    h.(slabs := h.slabs[b := Given(h.slabs[b], i)], live := h.live - {Obj(b, i)})
  }

  lemma WithSlabKeeps(h: Heap, p: Page)
    requires Inv(h) && ValidPage(p) && p.freeCount == p.capacity && FreeSlots(p) == F.Interval(0, p.capacity)
    requires h.cursor + 1 <= BASE + MAX_PAGES
    ensures h.cursor !in h.slabs && h.cursor !in h.spans && Inv(WithSlab(h, p))
  {
    hide Chain;
    hide FreeListed;
    hide Assign;
    hide ValidPage;
    hide FreeSlots;
    hide LiveExact;
    hide SlabChain;
    hide OwnsItsPages;
    hide InTile;
    var n := WithSlab(h, p);
    var q := p.(next := h.classes[p.order - MIN_ORDER]);
    assert ValidPage(q) by { RelinkedPage(p, q.next); }
    GrowSlab(h.spans, h.slabs, h.owner, h.cursor, q);
    WithSlabClasses(h, p);
    hide Tiled;
    hide ClassesValid;
    WithSlabLive(h, p);
  }

  lemma RelinkedPage(p: Page, next: nat)
    requires ValidPage(p)
    ensures ValidPage(p.(next := next))
  {
    assert FreeSlots(p.(next := next)) == FreeSlots(p);
  }

  lemma WithSlabLive(h: Heap, p: Page)
    requires LiveExact(h.spans, h.slabs, h.live) && h.cursor !in h.slabs && |h.classes| == 8 && |h.lists| == 8
    requires FreeSlots(p) == F.Interval(0, p.capacity)
    ensures var n := WithSlab(h, p); LiveExact(n.spans, n.slabs, n.live)
  {
    hide Assign;
    var n := WithSlab(h, p);
    forall i: nat | i < p.capacity && i < |p.used|
      ensures !p.used[i]
    {
      assert F.Between(0, i, p.capacity);
      assert i in F.Interval(0, p.capacity);
    }
    forall x
      ensures InUse(n.spans, n.slabs, x) <==> InUse(h.spans, h.slabs, x)
      ensures InUse(h.spans, h.slabs, x) ==> Usable(n.spans, n.slabs, x) == Usable(h.spans, h.slabs, x)
    {
    }
  }

  lemma WithSlabClasses(h: Heap, p: Page)
    requires ClassesValid(h.slabs, h.classes, h.lists) && h.cursor != 0 && h.cursor !in h.slabs
    ensures var n := WithSlab(h, p); ClassesValid(n.slabs, n.classes, n.lists)
  {
    hide ValidPage;
    var n := WithSlab(h, p);
    forall c | 0 <= c < 8
      ensures SlabChain(n.slabs, n.classes[c], n.lists[c], c + MIN_ORDER)
    {
      var o, l, m := c + MIN_ORDER, h.lists[c], n.lists[c];
      assert SlabChain(h.slabs, h.classes[c], l, o);
      forall i | 0 <= i < |m|
        ensures SlabNode(n.slabs, m, i, o)
      {
        if c != p.order - MIN_ORDER {
          assert SlabNode(h.slabs, l, i, o);
        } else if i > 0 {
          assert SlabNode(h.slabs, l, i - 1, o);
          assert m[i] == l[i - 1];
        }
      }
    }
  }

  /** Changing bitmap and counters of a page keeps the class lists. */
  lemma PageUpdateKeepsClasses(slabs: Slabs, classes: seq<nat>, lists: seq<seq<nat>>, b: nat, q: Page)
    requires ClassesValid(slabs, classes, lists) && b in slabs && q.next == slabs[b].next && q.order == slabs[b].order
    ensures ClassesValid(slabs[b := q], classes, lists)
  {
    forall c | 0 <= c < 8
      ensures SlabChain(slabs[b := q], classes[c], lists[c], c + MIN_ORDER)
    {
      var o, l, after := c + MIN_ORDER, lists[c], slabs[b := q];
      assert SlabChain(slabs, classes[c], l, o);
      forall i | 0 <= i < |l|
        ensures SlabNode(after, l, i, o)
      {
        assert SlabNode(slabs, l, i, o);
      }
    }
  }

  lemma PageUpdateKeepsTiles(spans: Spans, slabs: Slabs, owner: Owner, cursor: nat, b: nat, q: Page)
    requires Tiled(spans, slabs, owner, cursor) && b in slabs
    ensures Tiled(spans, slabs[b := q], owner, cursor)
  {
    forall i | i in owner
      ensures InTile(spans, slabs[b := q], i, owner[i])
    {
      assert InTile(spans, slabs, i, owner[i]);
    }
  }

  lemma SlotTakenLive(h: Heap, b: nat, i: nat, size: nat)
    requires LiveExact(h.spans, h.slabs, h.live) && b in h.slabs && i in FreeSlots(h.slabs[b])
    requires h.slabs[b].freeCount > 0 && size <= ObjSize(h.slabs[b].order)
    ensures Obj(b, i) !in h.live
    ensures var n := SlotTaken(h, b, i, size); LiveExact(n.spans, n.slabs, n.live)
  {
    hide ObjSize;
    var n := SlotTaken(h, b, i, size);
    assert !InUse(h.spans, h.slabs, Obj(b, i));
    forall x
      ensures x in n.live <==> InUse(n.spans, n.slabs, x)
      ensures x in n.live ==> n.live[x] <= Usable(n.spans, n.slabs, x)
    {
      if x != Obj(b, i) {
        assert InUse(n.spans, n.slabs, x) <==> InUse(h.spans, h.slabs, x);
      }
    }
  }

  lemma SlotTakenKeeps(h: Heap, b: nat, i: nat, size: nat)
    requires Inv(h) && b in h.slabs && i in FreeSlots(h.slabs[b]) && size <= ObjSize(h.slabs[b].order)
    ensures h.slabs[b].freeCount > 0 && Obj(b, i) !in h.live
    ensures Inv(SlotTaken(h, b, i, size))
  {
    hide Chain;
    hide FreeListed;
    hide Tiled;
    hide ClassesValid;
    hide LiveExact;
    hide ValidPage;
    TakenIsValid(h.slabs[b], i);
    SlotTakenLive(h, b, i, size);
    PageUpdateKeepsTiles(h.spans, h.slabs, h.owner, h.cursor, b, Taken(h.slabs[b], i));
    PageUpdateKeepsClasses(h.slabs, h.classes, h.lists, b, Taken(h.slabs[b], i));
  }

  lemma SlotGivenLive(h: Heap, b: nat, i: nat)
    requires LiveExact(h.spans, h.slabs, h.live) && Obj(b, i) in h.live && b in h.slabs && i < |h.slabs[b].used|
    ensures var n := SlotGiven(h, b, i); LiveExact(n.spans, n.slabs, n.live)
  {
    hide ObjSize;
    var n := SlotGiven(h, b, i);
    forall x
      ensures x in n.live <==> InUse(n.spans, n.slabs, x)
      ensures x in n.live ==> n.live[x] <= Usable(n.spans, n.slabs, x)
    {
      if x != Obj(b, i) {
        assert InUse(n.spans, n.slabs, x) <==> InUse(h.spans, h.slabs, x);
      }
    }
  }

  lemma SlotGivenKeeps(h: Heap, b: nat, i: nat)
    requires Inv(h) && Obj(b, i) in h.live
    ensures b in h.slabs && i < h.slabs[b].capacity && i < |h.slabs[b].used| && h.slabs[b].used[i]
    ensures Inv(SlotGiven(h, b, i))
  {
    hide Chain;
    hide FreeListed;
    hide Tiled;
    hide ClassesValid;
    hide ValidPage;
    hide FreeSlots;
    assert InUse(h.spans, h.slabs, Obj(b, i));
    GivenIsValid(h.slabs[b], i);
    SlotGivenLive(h, b, i);
    hide LiveExact;
    PageUpdateKeepsTiles(h.spans, h.slabs, h.owner, h.cursor, b, Given(h.slabs[b], i));
    PageUpdateKeepsClasses(h.slabs, h.classes, h.lists, b, Given(h.slabs[b], i));
  }

  /** slab_alloc on a page with a free slot, and slab_free, as allocation and release. */
  lemma SlotTakenAllocates(h: Heap, b: nat, i: nat, size: nat)
    requires Inv(h) && b in h.slabs && i in FreeSlots(h.slabs[b]) && h.slabs[b].freeCount > 0
    ensures Allocated(h, SlotTaken(h, b, i, size), Obj(b, i), size)
  {
    hide Slot;
    hide ObjSize;
    hide Chain;
    hide ClassesValid;
    hide SlabsValid;
    hide Tiled;
    assert !InUse(h.spans, h.slabs, Obj(b, i));
  }

  lemma SlotGivenReleases(h: Heap, b: nat, i: nat)
    requires Obj(b, i) in h.live && b in h.slabs && i < |h.slabs[b].used|
    ensures Released(h, SlotGiven(h, b, i), Obj(b, i))
  {
    hide Slot;
    hide ObjSize;
  }

  lemma WithSlabUntouched(h: Heap, p: Page, y: Block)
    requires Inv(h) && y in h.live && h.cursor !in h.slabs
    ensures WithSlab(h, p).live == h.live && Untouched(h, WithSlab(h, p), y)
  {
    hide Slot;
    hide ObjSize;
    hide Chain;
    hide SlabsValid;
    hide Tiled;
    assert InUse(h.spans, h.slabs, y);
  }

  lemma AllUntouched(h: Heap, p: Page)
    requires Inv(h) && h.cursor !in h.slabs && |h.classes| == 8 && |h.lists| == 8
    ensures forall y :: y in h.live ==> Untouched(h, WithSlab(h, p), y)
  {
    hide Inv;
    hide Untouched;
    hide WithSlab;
    forall y | y in h.live
      ensures Untouched(h, WithSlab(h, p), y)
    {
      WithSlabUntouched(h, p, y);
    }
  }

  // ---------------------------------------------------------------- start and lists

  function At(list: seq<nat>, i: nat): (b: nat) {
    if i < |list| then list[i] else 0
  }

  /** What heap_init sets up. */
  lemma InitialHeap(h: Heap)
    requires h.spans == map[BASE := Span(4, true, 0, 0)] && h.slabs == map[] && h.head == BASE && h.cursor == BASE + 4
    requires h.classes == [0, 0, 0, 0, 0, 0, 0, 0] && h.lists == [[], [], [], [], [], [], [], []]
    requires h.freeList == [BASE] && h.owner == (map i | i in PageSet(BASE, 4) :: BASE) && h.live == map[]
    ensures Inv(h)
  {
    hide PageSet;
    assert Node(h.spans, h.freeList, 0);
    assert forall c :: 0 <= c < 8 ==> h.lists[c] == [] && h.classes[c] == 0;
  }

  /** Walking the free list by its next fields visits the list in order, and meets exactly the free spans. */
  lemma ListWalk(h: Heap, i: nat)
    requires Inv(h) && i < |h.freeList|
    ensures h.freeList[i] != 0 && h.freeList[i] in h.spans && h.spans[h.freeList[i]].free
    ensures h.spans[h.freeList[i]].next == At(h.freeList, i + 1)
  {
    hide Tiled;
    hide ClassesValid;
    hide LiveExact;
    hide SlabsValid;
    assert Node(h.spans, h.freeList, i);
  }

  lemma ClassWalk(h: Heap, c: nat, i: nat)
    requires Inv(h) && c < 8 && i < |h.lists[c]|
    ensures var b := h.lists[c][i];
            b != 0 && b in h.slabs && h.slabs[b].order == c + MIN_ORDER && h.slabs[b].next == At(h.lists[c], i + 1)
  {
    hide Tiled;
    hide Chain;
    hide LiveExact;
    hide SlabsValid;
    var l, o := h.lists[c], c + MIN_ORDER;
    assert SlabChain(h.slabs, h.classes[c], l, o);
    assert SlabNode(h.slabs, l, i, o);
  }

  /** Every free span is on the list, and the walk starts at its first entry. */
  lemma FreeListFacts(h: Heap)
    requires Inv(h)
    ensures h.head == At(h.freeList, 0)
    ensures forall b :: b in h.spans && h.spans[b].free ==> b in h.freeList
    ensures forall i :: 0 <= i < |h.freeList| ==>
              h.freeList[i] in h.spans && h.spans[h.freeList[i]].free && h.freeList[i] != 0
  {
    hide Tiled;
    hide ClassesValid;
    hide LiveExact;
    hide SlabsValid;
    forall i | 0 <= i < |h.freeList|
      ensures h.freeList[i] in h.spans && h.spans[h.freeList[i]].free && h.freeList[i] != 0
    {
      ListWalk(h, i);
    }
  }

  lemma ClassFacts(h: Heap, c: nat)
    requires Inv(h) && c < 8
    ensures |h.classes| == 8 && |h.lists| == 8 && h.classes[c] == At(h.lists[c], 0)
    ensures h.lists[c] != [] ==> h.lists[c][0] in h.slabs && h.slabs[h.lists[c][0]].order == c + MIN_ORDER
    ensures forall b :: b in h.slabs && h.slabs[b].order == c + MIN_ORDER ==> b in h.lists[c]
  {
    hide Tiled;
    hide Chain;
    hide LiveExact;
    hide SlabsValid;
    assert SlabChain(h.slabs, h.classes[c], h.lists[c], c + MIN_ORDER);
    if h.lists[c] != [] {
      ClassWalk(h, c, 0);
    }
  }

  lemma WindowOf(h: Heap)
    requires Inv(h)
    ensures BASE <= h.cursor <= BASE + MAX_PAGES
  {
  }

  lemma PageOf(h: Heap, b: nat)
    requires Inv(h) && b in h.slabs
    ensures ValidPage(h.slabs[b])
  {
  }

  lemma SameHeapUntouched(h: Heap)
    ensures forall y :: Untouched(h, h, y)
  {
  }

  lemma PageHasRoom(p: Page)
    requires ValidPage(p) && p.freeCount == p.capacity
    ensures p.freeCount > 0
  {
  }

  lemma ObjAddr(slabs: Slabs, b: nat, i: nat)
    requires b in slabs
    ensures Addr(slabs, Obj(b, i)) == b * PAGE_SIZE + Slot(slabs[b].order, slabs[b].capacity, i)
  {
  }
}
