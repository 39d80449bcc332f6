/**
 The magic words of the kernel heap as bytes in memory. kfree and krealloc read the word at the base
 of a pointer's page to find out which tier issued it, so the words have to survive every heap
 operation and every store a caller makes into a block of its own.
 */
module HeapMemory {
  import opened Lists
  import opened Machine
  import opened Slab
  import opened LargeTier
  import opened HeapState

  type Mem = nat -> Byte

  // ---------------------------------------------------------------- words

  /** SLAB_PAGE_MAGIC, HEAP_MAGIC_FREE and HEAP_MAGIC_ALLOC, lowest byte first. */
  function SlabMagic(): (w: seq<Byte>)
    ensures |w| == 8
  {
    [0x00, 0x00, 0xB0, 0x5A, 0x00, 0x00, 0xB0, 0x5A]
  }

  function FreeMagic(): (w: seq<Byte>)
    ensures |w| == 8
  {
    [0xDE, 0xC0, 0xAD, 0xDE, 0xDE, 0xC0, 0xAD, 0xDE]
  }

  function AllocMagic(): (w: seq<Byte>)
    ensures |w| == 8
  {
    [0x11, 0xCA, 0x10, 0xA1, 0x11, 0xCA, 0x10, 0xA1]
  }

  /** The 64-bit value of eight bytes, lowest first. */
  function Value(w: seq<Byte>): (v: nat)
    requires |w| == 8
  {
    Half(w[0], w[1], w[2], w[3]) + 0x1_0000_0000 * Half(w[4], w[5], w[6], w[7])
  }

  function Half(a: Byte, b: Byte, c: Byte, d: Byte): (v: nat) {
    a as nat + 0x100 * b as nat + 0x1_0000 * c as nat + 0x100_0000 * d as nat
  }

  lemma MagicValues()
    ensures Value(SlabMagic()) == 0x5AB0_0000_5AB0_0000
    ensures Value(FreeMagic()) == 0xDEAD_C0DE_DEAD_C0DE
    ensures Value(AllocMagic()) == 0xA110_CA11_A110_CA11
  {
  }

  function WordAt(m: Mem, a: nat): (w: seq<Byte>)
    ensures |w| == 8
  {
    [m(a), m(a + 1), m(a + 2), m(a + 3), m(a + 4), m(a + 5), m(a + 6), m(a + 7)]
  }

  /** The eight bytes of w stored at address a. */
  function PutWord(m: Mem, a: nat, w: seq<Byte>): (r: Mem)
    requires |w| == 8
  {
    (x: nat) => if a <= x < a + 8 then w[x - a] else m(x)
  }

  lemma PutThenGet(m: Mem, a: nat, w: seq<Byte>)
    requires |w| == 8
    ensures WordAt(PutWord(m, a, w), a) == w
  {
  }

  lemma SameWord(m: Mem, n: Mem, a: nat)
    requires forall x :: a <= x < a + 8 ==> n(x) == m(x)
    ensures WordAt(n, a) == WordAt(m, a)
  {
  }

  // ---------------------------------------------------------------- every tile carries its word

  predicate IsTile(h: Heap, b: nat) {
    b in h.spans || b in h.slabs
  }

  /** The word the first eight bytes of tile b hold. */
  function TagOf(h: Heap, b: nat): (w: seq<Byte>)
    ensures |w| == 8
  {
    if b in h.slabs then SlabMagic() else if b in h.spans && h.spans[b].free then FreeMagic() else AllocMagic()
  }

  ghost predicate Tagged(h: Heap, m: Mem) {
    forall b: nat :: IsTile(h, b) ==> WordAt(m, b * PAGE_SIZE) == TagOf(h, b)
  }

  /** Address a lies in the word of some tile. */
  predicate InTag(h: Heap, a: nat) {
    IsTile(h, a / PAGE_SIZE) && a % PAGE_SIZE < 8
  }

  /** m' differs from m only in words of tiles. */
  ghost predicate OnlyTags(h: Heap, m: Mem, m': Mem) {
    forall a: nat :: m'(a) != m(a) ==> InTag(h, a)
  }

  lemma HeaderHoldsTag(h: Heap, b: nat)
    requires Inv(h) && IsTile(h, b)
    ensures HeaderEnd(h, b) >= 8
  {
    hide Chain;
    hide ClassesValid;
    hide LiveExact;
    hide Tiled;
    if b in h.slabs {
      SlotBounds(h.slabs[b].order, h.slabs[b].capacity, 0);
    }
  }

  /** No byte of a live block is part of a word. */
  lemma TagsMissBlocks(h: Heap, x: Block, a: nat)
    requires Inv(h) && x in h.live
    requires Addr(h.slabs, x) <= a < Addr(h.slabs, x) + Usable(h.spans, h.slabs, x)
    ensures !InTag(h, a)
  {
    hide Inv;
    hide Addr;
    hide Usable;
    hide HeaderEnd;
    if InTag(h, a) {
      var b := a / PAGE_SIZE;
      BlocksMissHeaders(h, x, b);
      HeaderHoldsTag(h, b);
      assert false;
    }
  }

  /** So a store anywhere inside a live block keeps every word. */
  lemma StoreKeepsTags(h: Heap, m: Mem, m': Mem, x: Block)
    requires Inv(h) && Tagged(h, m) && x in h.live
    requires forall a: nat ::
               m'(a) != m(a) ==> Addr(h.slabs, x) <= a < Addr(h.slabs, x) + Usable(h.spans, h.slabs, x)
    ensures Tagged(h, m')
  {
    hide Inv;
    hide Addr;
    hide Usable;
    hide WordAt;
    hide TagOf;
    forall b: nat | IsTile(h, b)
      ensures WordAt(m', b * PAGE_SIZE) == TagOf(h, b)
    {
      forall a | b * PAGE_SIZE <= a < b * PAGE_SIZE + 8
        ensures m'(a) == m(a)
      {
        assert a / PAGE_SIZE == b;
        if m'(a) != m(a) {
          TagsMissBlocks(h, x, a);
          assert false;
        }
      }
      SameWord(m, m', b * PAGE_SIZE);
    }
  }

  /** One tile gets a new word, every other tile keeps its own. */
  lemma Retagged(h: Heap, n: Heap, m: Mem, b: nat, w: seq<Byte>)
    requires Tagged(h, m) && IsTile(n, b) && |w| == 8 && TagOf(n, b) == w
    requires forall c: nat :: IsTile(n, c) && c != b ==> IsTile(h, c) && TagOf(n, c) == TagOf(h, c)
    ensures Tagged(n, PutWord(m, b * PAGE_SIZE, w)) && OnlyTags(n, m, PutWord(m, b * PAGE_SIZE, w))
  {
    hide WordAt;
    hide TagOf;
    hide IsTile;
    var m' := PutWord(m, b * PAGE_SIZE, w);
    PutThenGet(m, b * PAGE_SIZE, w);
    forall c: nat | IsTile(n, c)
      ensures WordAt(m', c * PAGE_SIZE) == TagOf(n, c)
    {
      if c != b {
        SameWord(m, m', c * PAGE_SIZE);
      }
    }
    forall a: nat | m'(a) != m(a)
      ensures InTag(n, a)
    {
      assert a / PAGE_SIZE == b && a % PAGE_SIZE < 8;
    }
  }

  lemma OnlyTagsTwice(n: Heap, o: Heap, m: Mem, m1: Mem, m2: Mem)
    requires OnlyTags(n, m, m1) && OnlyTags(o, m1, m2) && forall b: nat :: IsTile(n, b) ==> IsTile(o, b)
    ensures OnlyTags(o, m, m2)
  {
    forall a: nat | m2(a) != m(a)
      ensures InTag(o, a)
    {
      assert m2(a) != m1(a) || m1(a) != m(a);
    }
  }

  lemma SameTags(h: Heap, n: Heap, m: Mem)
    requires Tagged(h, m)
    requires forall c: nat :: IsTile(n, c) ==> IsTile(h, c) && TagOf(n, c) == TagOf(h, c)
    ensures Tagged(n, m)
  {
  }

  // ---------------------------------------------------------------- the transitions write their words

  /** large_alloc at the cursor marks the new span as allocated. */
  lemma GrownTagged(h: Heap, t: nat, size: nat, m: Mem)
    requires Inv(h) && Tagged(h, m) && !IsTile(h, h.cursor)
    ensures var n, m' := AllocGrown(h, t, size), PutWord(m, h.cursor * PAGE_SIZE, AllocMagic());
            Tagged(n, m') && OnlyTags(n, m, m')
  {
    hide Inv;
    hide Assign;
    hide WordAt;
    Retagged(h, AllocGrown(h, t, size), m, h.cursor, AllocMagic());
  }

  /** slab_new_page writes SLAB_PAGE_MAGIC. */
  lemma SlabTagged(h: Heap, p: Page, m: Mem)
    requires |h.classes| == 8 && |h.lists| == 8 && Tagged(h, m) && !IsTile(h, h.cursor)
    ensures var n, m' := WithSlab(h, p), PutWord(m, h.cursor * PAGE_SIZE, SlabMagic());
            Tagged(n, m') && OnlyTags(n, m, m')
  {
    hide Assign;
    hide WordAt;
    Retagged(h, WithSlab(h, p), m, h.cursor, SlabMagic());
  }

  /** Taking and giving slots changes no word. */
  lemma SlotsKeepTags(h: Heap, b: nat, i: nat, size: nat, m: Mem)
    requires Tagged(h, m) && b in h.slabs && i < |h.slabs[b].used|
    ensures h.slabs[b].freeCount > 0 ==> Tagged(SlotTaken(h, b, i, size), m)
    ensures Tagged(SlotGiven(h, b, i), m)
  {
    hide WordAt;
    SameTags(h, SlotGiven(h, b, i), m);
    if h.slabs[b].freeCount > 0 {
      SameTags(h, SlotTaken(h, b, i, size), m);
    }
  }

  /** large_free marks the span as free. */
  lemma FreedTagged(h: Heap, b: nat, m: Mem)
    requires Tagged(h, m) && b in h.spans && b !in h.slabs && (h.head != 0 ==> h.head in h.spans)
    ensures var n, m' := FreedSpan(h, b), PutWord(m, b * PAGE_SIZE, FreeMagic());
            Tagged(n, m') && OnlyTags(n, m, m')
  {
    hide WordAt;
    InsertedSame(h.spans, h.head, b);
    hide Inserted;
    Retagged(h, FreedSpan(h, b), m, b, FreeMagic());
  }

  /** The words large_alloc writes when it takes span b from the list: the remainder is free, b is allocated. */
  function TakenWords(m: Mem, b: nat, t: nat, split: bool): (m': Mem) {
    PutWord(if split then PutWord(m, (b + t) * PAGE_SIZE, FreeMagic()) else m, b * PAGE_SIZE, AllocMagic())
  }

  lemma UnlinkedTagged(h: Heap, k: nat, m: Mem)
    requires Inv(h) && k < |h.freeList| && Tagged(h, m)
    ensures Tagged(Unlinked(h, k), m)
  {
    hide WordAt;
    hide Tiled;
    hide ClassesValid;
    hide SlabsValid;
    hide LiveExact;
    hide Without;
    NeighboursInChain(h.spans, h.head, h.freeList, k);
    RemovedSame(h.spans, h.head, h.freeList[k]);
    hide Removed;
    hide Chain;
    SameTags(h, Unlinked(h, k), m);
  }

  lemma SplitTagged(u: Heap, b: nat, t: nat, m: Mem)
    requires Tagged(u, m) && b in u.spans && 0 < t < u.spans[b].pages && (u.head != 0 ==> u.head in u.spans)
    requires !IsTile(u, b + t)
    ensures var n, m' := Split(u, b, t), PutWord(m, (b + t) * PAGE_SIZE, FreeMagic());
            Tagged(n, m') && OnlyTags(n, m, m')
  {
    hide WordAt;
    hide Assign;
    var mid := SplitSpans(u.spans, b, t);
    InsertedSame(mid, u.head, b + t);
    hide Inserted;
    Retagged(u, Split(u, b, t), m, b + t, FreeMagic());
  }

  lemma HandedTagged(u: Heap, b: nat, size: nat, m: Mem)
    requires Tagged(u, m) && b in u.spans && b !in u.slabs
    ensures var n, m' := HandOut(u, b, size), PutWord(m, b * PAGE_SIZE, AllocMagic());
            Tagged(n, m') && OnlyTags(n, m, m')
  {
    hide WordAt;
    Retagged(u, HandOut(u, b, size), m, b, AllocMagic());
  }

  lemma ListedTagged(h: Heap, k: nat, t: nat, size: nat, m: Mem)
    requires Inv(h) && k < |h.freeList| && h.freeList[k] in h.spans && 0 < t <= h.spans[h.freeList[k]].pages
    requires Tagged(h, m)
    ensures var b := h.freeList[k];
            var n, m' := AllocListed(h, k, t, size), TakenWords(m, b, t, t + 2 <= h.spans[b].pages);
            Tagged(n, m') && OnlyTags(n, m, m')
  {
    hide Inv;
    hide Unlinked;
    hide Split;
    hide HandOut;
    hide Tagged;
    hide OnlyTags;
    hide PutWord;
    hide Tiled;
    hide Chain;
    hide ClassesValid;
    hide SlabsValid;
    hide InUse;
    hide Usable;
    var b, u := h.freeList[k], Unlinked(h, k);
    UnlinkedKeeps(h, k);
    UnlinkedTagged(h, k, m);
    NotInSlabs(u, b);
    if t + 2 <= h.spans[b].pages {
      SplitKeeps(u, b, t);
      InteriorIsNoTile(u.spans, u.slabs, u.owner, u.cursor, b, t);
      SplitTagged(u, b, t, m);
      var v, m1 := Split(u, b, t), PutWord(m, (b + t) * PAGE_SIZE, FreeMagic());
      NotInSlabs(v, b);
      HandedTagged(v, b, size, m1);
      HandOutTiles(v, b, size);
      OnlyTagsTwice(v, HandOut(v, b, size), m, m1, TakenWords(m, b, t, true));
    } else {
      HandedTagged(u, b, size, m);
    }
  }

  lemma NotInSlabs(h: Heap, b: nat)
    requires Tiled(h.spans, h.slabs, h.owner, h.cursor) && b in h.spans
    ensures b !in h.slabs
  {
  }

  lemma HandOutTiles(h: Heap, b: nat, size: nat)
    requires b in h.spans
    ensures forall c: nat :: IsTile(h, c) ==> IsTile(HandOut(h, b, size), c)
  {
  }

  // ---------------------------------------------------------------- finding the tier of a pointer

  /** What kfree makes of a pointer: the word at its page's base tells the tier. */
  function TierOf(m: Mem, slabs: Slabs, ptr: nat): (x: Block) {
    var b := ptr / PAGE_SIZE;
    if WordAt(m, b * PAGE_SIZE) != SlabMagic() || b !in slabs then Large(b)
    else
      var i := SlotOf(slabs[b].order, slabs[b].capacity, ptr % PAGE_SIZE);
      if i.None? then Large(b) else Obj(b, i.value)
  }

  /** The word at the base of a tile is SLAB_PAGE_MAGIC exactly for slab pages, and otherwise tells free from used. */
  lemma WordTellsTier(h: Heap, m: Mem, b: nat)
    requires Tagged(h, m) && Tiled(h.spans, h.slabs, h.owner, h.cursor) && IsTile(h, b)
    ensures WordAt(m, b * PAGE_SIZE) == SlabMagic() <==> b in h.slabs
    ensures WordAt(m, b * PAGE_SIZE) == FreeMagic() <==> b in h.spans && h.spans[b].free
    ensures WordAt(m, b * PAGE_SIZE) == AllocMagic() <==> b in h.spans && !h.spans[b].free
  {
    hide WordAt;
    MagicsDiffer();
    assert b in h.spans ==> b !in h.slabs;
  }

  lemma MagicsDiffer()
    ensures SlabMagic() != FreeMagic() && SlabMagic() != AllocMagic() && FreeMagic() != AllocMagic()
  {
    assert SlabMagic()[0] == 0 && FreeMagic()[0] == 0xDE && AllocMagic()[0] == 0x11;
  }

  /** kfree always reaches the tier, page and slot that issued the pointer, by the word it reads. */
  lemma TierFromWord(h: Heap, m: Mem, x: Block)
    requires Inv(h) && Tagged(h, m) && x in h.live
    ensures TierOf(m, h.slabs, Addr(h.slabs, x)) == x
    ensures x.Large? ==> WordAt(m, x.page * PAGE_SIZE) == AllocMagic()
    ensures x.Obj? ==> WordAt(m, x.page * PAGE_SIZE) == SlabMagic()
  {
    hide Addr;
    hide WordAt;
    hide Tagged;
    hide Chain;
    hide ClassesValid;
    hide SlabsValid;
    BlockAtAddr(h, x);
    assert InUse(h.spans, h.slabs, x);
    WordTellsTier(h, m, x.page);
  }
}
