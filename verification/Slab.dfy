/**
 Slab pages: one 4 KiB page holds a 32-byte header, a bitmap and as many objects of one
 power-of-two size as fit. The bitmap is 64-bit words; bit i says whether slot i is in use.
 */
module Slab {
  import opened Machine
  import F = FrameAllocator

  const HDR_SIZE: nat := 32
  const MIN_ORDER: nat := 4
  const MAX_ORDER: nat := 11

  type Order = o: nat | MIN_ORDER <= o <= MAX_ORDER witness 4

  /** 1 << order. */
  function ObjSize(o: Order): (n: nat) {
    if o == 4 then 16 else if o == 5 then 32 else if o == 6 then 64 else if o == 7 then 128
    else if o == 8 then 256 else if o == 9 then 512 else if o == 10 then 1024 else 2048
  }

  function BitmapWords(cap: nat): (w: nat) {
    (cap + 63) / 64
  }

  /** ALIGN_UP(SLAB_HDR_SIZE + bitmap bytes, obj_size): where the objects start. */
  function DataOff(o: Order, cap: nat): (off: nat) {
    (HDR_SIZE + BitmapWords(cap) * 8 + ObjSize(o) - 1) / ObjSize(o) * ObjSize(o)
  }

  function Slot(o: Order, cap: nat, i: nat): (off: nat) {
    DataOff(o, cap) + i * ObjSize(o)
  }

  predicate Fits(o: Order, cap: nat) {
    Slot(o, cap, cap) <= PAGE_SIZE
  }

  function Estimate(o: Order): (n: nat) {
    (PAGE_SIZE - HDR_SIZE) / ObjSize(o)
  }

  /** The largest number of objects, up to the first estimate, that fits with its bitmap. */
  ghost predicate IsCapacity(o: Order, cap: nat) {
    cap <= Estimate(o) && Fits(o, cap) && forall c :: cap < c <= Estimate(o) ==> !Fits(o, c)
  }

  lemma SomethingFits(o: Order, cap: nat)
    requires cap <= 1
    ensures Fits(o, cap)
  {
    assert BitmapWords(cap) == cap;
  }

  /** The estimate is no obstacle: nothing larger fits. */
  lemma FitsEstimate(o: Order, c: nat)
    requires Fits(o, c)
    ensures c <= Estimate(o)
  {
    var n, x := ObjSize(o), HDR_SIZE + BitmapWords(c) * 8;
    assert (x + n - 1) / n * n >= x;
    assert c * n <= PAGE_SIZE - HDR_SIZE;
  }

  lemma EstimatePositive(o: Order)
    ensures 1 <= Estimate(o)
  {
  }

  /** The capacity loop of slab_new_page. It stops before 0: one object always fits. */
  method Capacity(o: Order) returns (cap: nat)
    ensures IsCapacity(o, cap) && 1 <= cap
    ensures forall c: nat :: c > cap ==> !Fits(o, c)
  {
    forall c: nat | Fits(o, c)
      ensures c <= Estimate(o)
    {
      FitsEstimate(o, c);
    }
    hide Fits;
    hide Estimate;
    EstimatePositive(o);
    cap := Estimate(o);
    while !Fits(o, cap)
      invariant 1 <= cap <= Estimate(o)
      invariant forall c :: cap < c <= Estimate(o) ==> !Fits(o, c)
      decreases cap
    {
      if cap == 1 {
        SomethingFits(o, 1);
      }
      cap := cap - 1;
    }
  }

  // ---------------------------------------------------------------- pages

  datatype Page = Page(order: Order, capacity: nat, freeCount: nat, firstFree: nat, used: seq<bool>, next: nat)

  ghost function FreeSlots(p: Page): (s: set<nat>) {
    set i: nat | i < p.capacity && i < |p.used| && !p.used[i]
  }

  ghost predicate ValidPage(p: Page) {
    && IsCapacity(p.order, p.capacity) && 1 <= p.capacity
    && |p.used| == 64 * BitmapWords(p.capacity)
    && (forall i :: p.capacity <= i < |p.used| ==> !p.used[i])
    && p.firstFree < p.capacity
    && p.freeCount == |FreeSlots(p)|
  }

  lemma CapacityInBitmap(p: Page)
    requires ValidPage(p)
    ensures p.capacity <= |p.used| && |p.used| / 64 == BitmapWords(p.capacity) && BitmapWords(p.capacity) >= 1
  {
  }

  /** What slab_new_page writes into a fresh page. */
  method NewPage(o: Order) returns (p: Page)
    ensures ValidPage(p) && p.order == o && p.freeCount == p.capacity && p.next == 0
    ensures FreeSlots(p) == F.Interval(0, p.capacity)
  {
    var cap := Capacity(o);
    p := Page(o, cap, cap, 0, seq(64 * BitmapWords(cap), i => false), 0);
    assert FreeSlots(p) == F.Interval(0, cap);
    F.IntervalSize(0, cap);
  }

  /** Slot i taken. */
  function Taken(p: Page, i: nat): (q: Page)
    requires i < |p.used| && p.freeCount > 0
  {
    p.(used := p.used[i := true], freeCount := p.freeCount - 1, firstFree := i)
  }

  /** Slot i given back. */
  function Given(p: Page, i: nat): (q: Page)
    requires i < |p.used|
  {
    p.(used := p.used[i := false], freeCount := p.freeCount + 1,
       firstFree := if i < p.firstFree then i else p.firstFree)
  }

  lemma TakenIsValid(p: Page, i: nat)
    requires ValidPage(p) && i in FreeSlots(p)
    ensures p.freeCount > 0 && ValidPage(Taken(p, i)) && FreeSlots(Taken(p, i)) == FreeSlots(p) - {i}
  {
    assert FreeSlots(p) != {};
    assert FreeSlots(Taken(p, i)) == FreeSlots(p) - {i};
  }

  lemma GivenIsValid(p: Page, i: nat)
    requires ValidPage(p) && i < p.capacity && i < |p.used| && p.used[i]
    ensures ValidPage(Given(p, i)) && FreeSlots(Given(p, i)) == FreeSlots(p) + {i}
  {
    assert FreeSlots(Given(p, i)) == FreeSlots(p) + {i};
  }

  /** The word visited in round w of a search that starts at word wi of `words`. */
  function Visit(wi: nat, w: nat, words: nat): (v: nat)
    requires wi < words && w < words
    ensures v < words && v == if wi + w < words then wi + w else wi + w - words
  {
    OneTurn(wi + w, words);
    (wi + w) % words
  }

  lemma OneTurn(x: nat, n: nat)
    requires x < 2 * n
    ensures x % n == if x < n then x else x - n
  {
    var q := x / n;
    assert x == q * n + x % n;
    if q >= 2 {
      Monotone(2, q, n);
      assert false;
    }
  }

  /** No slot below the capacity is free in this word. */
  ghost predicate WordExhausted(p: Page, word: nat) {
    forall i :: 64 * word <= i < 64 * word + 64 && i < p.capacity && i < |p.used| ==> p.used[i]
  }

  lemma AllWordsExhausted(p: Page, wi: nat, words: nat)
    requires ValidPage(p) && words == BitmapWords(p.capacity) && wi < words
    requires forall v :: 0 <= v < words ==> WordExhausted(p, Visit(wi, v, words))
    ensures FreeSlots(p) == {}
  {
    forall i: nat | i < p.capacity && i < |p.used|
      ensures p.used[i]
    {
      var word := i / 64;
      var v := if word >= wi then word - wi else word + words - wi;
      assert WordExhausted(p, Visit(wi, v, words));
    }
  }

  /**
   The bitmap search of slab_alloc, from any hint. On a page with a free slot it always finds one: the
   final return NULL of the source is unreachable there.
   */
  method FindSlot(p: Page) returns (idx: nat)
    requires ValidPage(p) && p.freeCount > 0
    ensures idx in FreeSlots(p)
  {
    CapacityInBitmap(p);
    var words := BitmapWords(p.capacity);
    var wi := p.firstFree / 64;
    var w := 0;
    while w < words
      invariant w <= words
      invariant forall v :: 0 <= v < w ==> WordExhausted(p, Visit(wi, v, words))
    {
      var actual := Visit(wi, w, words);
      var word: F.Word := p.used[64 * actual..64 * actual + 64];
      if word != F.FULL {
        var bit := F.LowestClear(word);
        idx := actual * 64 + bit;
        if idx < p.capacity {
          return;
        }
      }
      assert WordExhausted(p, actual);
      w := w + 1;
    }
    AllWordsExhausted(p, wi, words);
    assert false;
  }

  // ---------------------------------------------------------------- addresses inside a page

  /** Slots lie between the bitmap and the end of the page, one after another. */
  lemma SlotBounds(o: Order, cap: nat, i: nat)
    requires Fits(o, cap) && i < cap
    ensures 32 + BitmapWords(cap) * 8 <= DataOff(o, cap) <= Slot(o, cap, i)
    ensures Slot(o, cap, i) + ObjSize(o) <= PAGE_SIZE
  {
    assert i * ObjSize(o) + ObjSize(o) == (i + 1) * ObjSize(o);
    Monotone(i + 1, cap, ObjSize(o));
    Monotone(0, i, ObjSize(o));
    var x, n := HDR_SIZE + BitmapWords(cap) * 8, ObjSize(o);
    assert (x + n - 1) / n * n >= x;
  }

  lemma Monotone(a: nat, b: nat, n: nat)
    requires a <= b
    ensures a * n <= b * n
  {
  }

  lemma SlotsApart(o: Order, cap: nat, i: nat, j: nat)
    requires i < j
    ensures Slot(o, cap, i) + ObjSize(o) <= Slot(o, cap, j)
  {
    assert i * ObjSize(o) + ObjSize(o) == (i + 1) * ObjSize(o);
    Monotone(i + 1, j, ObjSize(o));
  }

  /** The slot slab_free computes from an offset in the page, if the offset is that of a slot. */
  function SlotOf(o: Order, cap: nat, off: nat): (i: Option<nat>) {
    if off < DataOff(o, cap) then None
    else if (off - DataOff(o, cap)) % ObjSize(o) != 0 then None
    else if (off - DataOff(o, cap)) / ObjSize(o) >= cap then None
    else Some((off - DataOff(o, cap)) / ObjSize(o))
  }

  /** slab_free finds the slot that slab_alloc handed out, and only offsets of slots pass its tests. */
  lemma SlotOfInverse(o: Order, cap: nat, i: nat, off: nat)
    ensures i < cap ==> SlotOf(o, cap, Slot(o, cap, i)) == Some(i)
    ensures SlotOf(o, cap, off) == Some(i) ==> i < cap && Slot(o, cap, i) == off
  {
    MultipleExact(i, ObjSize(o));
    if SlotOf(o, cap, off) == Some(i) {
      var x := off - DataOff(o, cap);
      assert x == x / ObjSize(o) * ObjSize(o) + x % ObjSize(o);
    }
  }

  lemma MultipleExact(i: nat, n: nat)
    requires n > 0
    ensures i * n % n == 0 && i * n / n == i
  {
    var q, r := i * n / n, i * n % n;
    assert q * n + r == i * n;
    assert (i - q) * n == r;
    if i - q >= 1 {
      Monotone(1, i - q, n);
      assert false;
    }
    if q - i >= 1 {
      assert (q - i) * n == -r;
      Monotone(1, q - i, n);
      assert false;
    }
  }
}
