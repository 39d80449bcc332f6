/**
 Page-granular spans of the kernel heap and their intrusive doubly linked free list.

 A span is named by the number of its first page; its header sits at the start of that page and
 0 is NULL. Headers are a map from page number to their fields, which is how the kernel sees them:
 cells of memory reached through addresses.
 */
module LargeTier {
  import opened Lists
  import opened Slab

  const BASE: nat := 0xF_FFFF_F800_0000 // the page of HEAP_VIRT_BASE
  const MAX_PAGES: nat := 65536 // HEAP_MAX_SIZE / PAGE_SIZE
  const LARGE_HDR: nat := 32

  datatype Span = Span(pages: nat, free: bool, next: nat, prev: nat)

  type Spans = map<nat, Span>

  // ---------------------------------------------------------------- the free list

  function After(list: seq<nat>, i: nat): (n: nat) {
    if i + 1 < |list| then list[i + 1] else 0
  }

  function Before(list: seq<nat>, i: nat): (n: nat) {
    if 0 < i <= |list| then list[i - 1] else 0
  }

  ghost predicate Node(spans: Spans, list: seq<nat>, i: nat)
    requires i < |list|
  {
    var b := list[i];
    b != 0 && b in spans && spans[b].next == After(list, i) && spans[b].prev == Before(list, i)
  }

  /** The header cells form a proper doubly linked list that visits exactly `list`, in order. */
  ghost predicate Chain(spans: Spans, head: nat, list: seq<nat>) {
    && head == (if list == [] then 0 else list[0])
    && (forall i :: 0 <= i < |list| ==> Node(spans, list, i))
    && Distinct(list)
  }

  /** large_insert_free: span b becomes the new head. */
  function Inserted(spans: Spans, head: nat, b: nat): (n: Spans)
    requires b in spans && (head != 0 ==> head in spans)
  {
    var s1 := spans[b := spans[b].(free := true, next := head, prev := 0)];
    if head != 0 then s1[head := s1[head].(prev := b)] else s1
  }

  /** large_remove_free: span b is unlinked. */
  function Removed(spans: Spans, head: nat, b: nat): (r: (Spans, nat))
    requires b in spans
    requires spans[b].prev != 0 ==> spans[b].prev in spans
    requires spans[b].next != 0 ==> spans[b].next in spans
  {
    var p, n := spans[b].prev, spans[b].next;
    var s1 := if p != 0 then spans[p := spans[p].(next := n)] else spans;
    var s2 := if n != 0 then s1[n := s1[n].(prev := p)] else s1;
    (s2[b := s2[b].(next := 0, prev := 0)], if p != 0 then head else n)
  }

  lemma InsertKeepsChain(spans: Spans, head: nat, list: seq<nat>, b: nat)
    requires Chain(spans, head, list) && b in spans && b != 0 && b !in list
    ensures head != 0 ==> head in spans
    ensures Chain(Inserted(spans, head, b), b, [b] + list)
  {
    if list != [] {
      assert Node(spans, list, 0);
    }
    var n, l := Inserted(spans, head, b), [b] + list;
    forall i | 0 <= i < |l|
      ensures Node(n, l, i)
    {
      if i > 0 {
        assert Node(spans, list, i - 1);
        assert l[i] == list[i - 1];
        assert i > 1 ==> l[i] != list[0];
      }
    }
  }

  lemma NeighboursInChain(spans: Spans, head: nat, list: seq<nat>, k: nat)
    requires Chain(spans, head, list) && k < |list|
    ensures var b := list[k];
            && b in spans
            && (spans[b].prev != 0 <==> k > 0) && (k > 0 ==> spans[b].prev == list[k - 1] && list[k - 1] in spans)
            && (spans[b].next != 0 <==> k + 1 < |list|)
            && (k + 1 < |list| ==> spans[b].next == list[k + 1] && list[k + 1] in spans)
  {
    assert Node(spans, list, k);
    if k > 0 {
      assert Node(spans, list, k - 1);
    }
    if k + 1 < |list| {
      assert Node(spans, list, k + 1);
    }
  }

  lemma RemoveKeepsChain(spans: Spans, head: nat, list: seq<nat>, k: nat)
    requires Chain(spans, head, list) && k < |list|
    requires list[k] in spans
    requires spans[list[k]].prev != 0 ==> spans[list[k]].prev in spans
    requires spans[list[k]].next != 0 ==> spans[list[k]].next in spans
    ensures var (n, h) := Removed(spans, head, list[k]); Chain(n, h, Without(list, k))
  {
    NeighboursInChain(spans, head, list, k);
    var (n, h) := Removed(spans, head, list[k]);
    var l := Without(list, k);
    assert |l| == |list| - 1;
    forall i | 0 <= i < |l|
      ensures Node(n, l, i)
    {
      NodeAfterRemoval(spans, head, list, k, i);
    }
    forall i, j | 0 <= i < j < |l|
      ensures l[i] != l[j]
    {
      assert l[i] == list[if i < k then i else i + 1] && l[j] == list[if j < k then j else j + 1];
    }
    if k == 0 && l != [] {
      assert l[0] == list[1];
    }
  }

  lemma NodeAfterRemoval(spans: Spans, head: nat, list: seq<nat>, k: nat, i: nat)
    requires Chain(spans, head, list) && k < |list| && i < |list| - 1
    requires list[k] in spans
    requires spans[list[k]].prev != 0 ==> spans[list[k]].prev in spans
    requires spans[list[k]].next != 0 ==> spans[list[k]].next in spans
    ensures Node(Removed(spans, head, list[k]).0, Without(list, k), i)
  {
    NeighboursInChain(spans, head, list, k);
    var l := Without(list, k);
    var m := if i < k then i else i + 1;
    assert l[i] == list[m];
    assert Node(spans, list, m);
    assert After(l, i) == if m == k - 1 then After(list, k) else After(list, m);
    assert Before(l, i) == if m == k + 1 then Before(list, k) else Before(list, m);
    if k > 0 {
      assert list[m] == list[k - 1] <==> m == k - 1;
    }
    if k + 1 < |list| {
      assert list[m] == list[k + 1] <==> m == k + 1;
    }
  }

  /** Inserting and removing move no span and change no size. */
  ghost predicate SamePages(m: Spans, n: Spans) {
    m.Keys == n.Keys && forall b :: b in m ==> n[b].pages == m[b].pages
  }

  // ---------------------------------------------------------------- tiling the window

  /** Which tile each page of the window belongs to. */
  type Owner = map<nat, nat>

  ghost predicate OwnsItsPages(b: nat, pages: nat, owner: Owner, cursor: nat) {
    BASE <= b && 1 <= pages && b + pages <= cursor && forall i :: b <= i < b + pages ==> i in owner && owner[i] == b
  }

  /** Spans and slab pages tile [BASE, cursor) exactly. */
  ghost predicate Tiled(spans: Spans, slabs: map<nat, Page>, owner: Owner, cursor: nat) {
    && BASE <= cursor <= BASE + MAX_PAGES
    && (forall b :: b in spans ==> b !in slabs && OwnsItsPages(b, spans[b].pages, owner, cursor))
    && (forall b :: b in slabs ==> OwnsItsPages(b, 1, owner, cursor))
    && (forall i :: i in owner <==> BASE <= i < cursor)
    && (forall i :: i in owner ==> InTile(spans, slabs, i, owner[i]))
  }

  /** Page i is one of the pages of tile b. */
  ghost predicate InTile(spans: Spans, slabs: map<nat, Page>, i: nat, b: nat) {
    (b in spans && b <= i < b + spans[b].pages) || (b in slabs && b == i)
  }

  function Extent(spans: Spans, slabs: map<nat, Page>, b: nat): (n: nat) {
    if b in spans then spans[b].pages else 1
  }

  /** Distinct tiles have no page in common. */
  lemma TilesApart(spans: Spans, slabs: map<nat, Page>, owner: Owner, cursor: nat, b: nat, c: nat)
    requires Tiled(spans, slabs, owner, cursor) && b != c
    requires b in spans || b in slabs
    requires c in spans || c in slabs
    ensures b + Extent(spans, slabs, b) <= c || c + Extent(spans, slabs, c) <= b
  {
    assert OwnsItsPages(b, Extent(spans, slabs, b), owner, cursor);
    assert OwnsItsPages(c, Extent(spans, slabs, c), owner, cursor);
    assert owner[b] == b && owner[c] == c;
  }

  lemma SamePagesSameTiles(m: Spans, n: Spans, slabs: map<nat, Page>, owner: Owner, cursor: nat)
    requires Tiled(m, slabs, owner, cursor) && SamePages(m, n)
    ensures Tiled(n, slabs, owner, cursor)
  {
  }

  /** Pages [b, b + n) assigned to tile b. */
  ghost function Assign(owner: Owner, b: nat, n: nat): (o: Owner)
    ensures forall i :: i in o <==> i in owner || b <= i < b + n
    ensures forall i :: i in o ==> o[i] == if b <= i < b + n then b else owner[i]
  {
    map i | i in owner.Keys + PageSet(b, n) :: if b <= i < b + n then b else owner[i]
  }

  ghost function PageSet(b: nat, n: nat): (s: set<nat>)
    ensures forall i :: i in s <==> b <= i < b + n
  {
    set i: nat | i < b + n && InPages(b, i, n)
  }

  predicate InPages(b: nat, i: nat, n: nat) {
    b <= i < b + n
  }

  /** heap_map_pages followed by writing a span header: a tile of n pages at the old cursor. */
  lemma GrowSpan(spans: Spans, slabs: map<nat, Page>, owner: Owner, cursor: nat, n: nat, s: Span)
    requires Tiled(spans, slabs, owner, cursor) && 1 <= n && cursor + n <= BASE + MAX_PAGES && s.pages == n
    ensures cursor !in spans && cursor !in slabs
    ensures Tiled(spans[cursor := s], slabs, Assign(owner, cursor, n), cursor + n)
  {
    hide Assign;
    hide InTile;
    var o := Assign(owner, cursor, n);
    assert OwnsItsPages(cursor, n, o, cursor + n);
    forall i | i in o
      ensures InTile(spans[cursor := s], slabs, i, o[i])
    {
      GrownOwner(spans, slabs, owner, cursor, n, s, i);
    }
    forall b | b in spans
      ensures b != cursor && OwnsItsPages(b, spans[b].pages, o, cursor + n)
    {
      assert OwnsItsPages(b, spans[b].pages, owner, cursor);
    }
    forall b | b in slabs
      ensures b != cursor && OwnsItsPages(b, 1, o, cursor + n)
    {
      assert OwnsItsPages(b, 1, owner, cursor);
    }
  }

  lemma GrownOwner(spans: Spans, slabs: map<nat, Page>, owner: Owner, cursor: nat, n: nat, s: Span, i: nat)
    requires Tiled(spans, slabs, owner, cursor) && s.pages == n && i in Assign(owner, cursor, n)
    ensures InTile(spans[cursor := s], slabs, i, Assign(owner, cursor, n)[i])
  {
    hide Assign;
    hide OwnsItsPages;
    if i < cursor {
      assert InTile(spans, slabs, i, owner[i]);
    }
  }

  lemma GrowSlab(spans: Spans, slabs: map<nat, Page>, owner: Owner, cursor: nat, p: Page)
    requires Tiled(spans, slabs, owner, cursor) && cursor + 1 <= BASE + MAX_PAGES
    ensures cursor !in spans && cursor !in slabs
    ensures Tiled(spans, slabs[cursor := p], Assign(owner, cursor, 1), cursor + 1)
  {
    hide Assign;
    var o := Assign(owner, cursor, 1);
    assert OwnsItsPages(cursor, 1, o, cursor + 1);
    forall i | i in o
      ensures InTile(spans, slabs[cursor := p], i, o[i])
    {
      if i < cursor {
        assert InTile(spans, slabs, i, owner[i]);
      }
    }
    forall b | b in spans
      ensures b != cursor && OwnsItsPages(b, spans[b].pages, o, cursor + 1)
    {
      assert OwnsItsPages(b, spans[b].pages, owner, cursor);
    }
    forall b | b in slabs
      ensures b != cursor && OwnsItsPages(b, 1, o, cursor + 1)
    {
      assert OwnsItsPages(b, 1, owner, cursor);
    }
  }

  /** The split of large_alloc: the first t pages stay with b, the rest become a span of their own. */
  function SplitSpans(spans: Spans, b: nat, t: nat): (n: Spans)
    requires b in spans && t < spans[b].pages
  {
    spans[b + t := Span(spans[b].pages - t, true, 0, 0)][b := spans[b].(pages := t)]
  }

  lemma InteriorIsNoTile(spans: Spans, slabs: map<nat, Page>, owner: Owner, cursor: nat, b: nat, t: nat)
    requires Tiled(spans, slabs, owner, cursor) && b in spans && 0 < t < spans[b].pages
    ensures b + t !in spans && b + t !in slabs
  {
    if b + t in spans || b + t in slabs {
      TilesApart(spans, slabs, owner, cursor, b, b + t);
    }
  }

  /** A tile other than b keeps its pages when a part of b is assigned to a new tile. */
  lemma OtherTilesKeepPages(spans: Spans, slabs: map<nat, Page>, owner: Owner, cursor: nat, b: nat, t: nat, c: nat)
    requires Tiled(spans, slabs, owner, cursor) && b in spans && 0 < t < spans[b].pages
    requires c != b && (c in spans || c in slabs)
    ensures OwnsItsPages(c, Extent(spans, slabs, c), Assign(owner, b + t, spans[b].pages - t), cursor)
  {
    hide Assign;
    TilesApart(spans, slabs, owner, cursor, b, c);
    assert OwnsItsPages(c, Extent(spans, slabs, c), owner, cursor);
  }

  lemma SplitKeepsTiles(spans: Spans, slabs: map<nat, Page>, owner: Owner, cursor: nat, b: nat, t: nat)
    requires Tiled(spans, slabs, owner, cursor) && b in spans && 0 < t < spans[b].pages
    ensures b + t !in spans && b + t !in slabs
    ensures Tiled(SplitSpans(spans, b, t), slabs, Assign(owner, b + t, spans[b].pages - t), cursor)
  {
    hide Assign;
    hide InTile;
    InteriorIsNoTile(spans, slabs, owner, cursor, b, t);
    assert OwnsItsPages(b, spans[b].pages, owner, cursor);
    var n, o := SplitSpans(spans, b, t), Assign(owner, b + t, spans[b].pages - t);
    forall c | c in n
      ensures c !in slabs && OwnsItsPages(c, n[c].pages, o, cursor)
    {
      if c != b && c != b + t {
        OtherTilesKeepPages(spans, slabs, owner, cursor, b, t, c);
      }
    }
    forall c | c in slabs
      ensures OwnsItsPages(c, 1, o, cursor)
    {
      OtherTilesKeepPages(spans, slabs, owner, cursor, b, t, c);
    }
    forall i | i in o
      ensures InTile(n, slabs, i, o[i])
    {
      SplitOwnerSound(spans, slabs, owner, cursor, b, t, i);
    }
    assert forall i :: i in o <==> i in owner;
  }

  lemma SplitOwnerSound(spans: Spans, slabs: map<nat, Page>, owner: Owner, cursor: nat, b: nat, t: nat, i: nat)
    requires Tiled(spans, slabs, owner, cursor) && b in spans && 0 < t < spans[b].pages
    requires i in Assign(owner, b + t, spans[b].pages - t)
    ensures InTile(SplitSpans(spans, b, t), slabs, i, Assign(owner, b + t, spans[b].pages - t)[i])
  {
    hide Assign;
    InteriorIsNoTile(spans, slabs, owner, cursor, b, t);
    assert OwnsItsPages(b, spans[b].pages, owner, cursor);
    assert i in owner && InTile(spans, slabs, i, owner[i]);
  }
}
