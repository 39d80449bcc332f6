/**
 The physical frame allocator: a bitmap with one bit per 4 KiB frame, scanned one
 64-bit word at a time from a moving hint. A word is its vector of 64 bits, bit k at
 index k; a set bit means the frame is used.

 Upper layers see the allocator as a Pool: the set of free frames and the hint. Pick says
 which free frame is handed out next.
 */
module FrameAllocator {
  import opened Machine

  const MAX_FRAMES: nat := 1048576
  const WORDS: nat := 16384

  type Word = w: seq<bool> | |w| == 64 witness seq(64, i => false)

  const FULL: Word := seq(64, i => true)

  // ---------------------------------------------------------------- the abstract pool

  datatype Pool = Pool(free: set<nat>, hint: nat)

  ghost predicate ValidPool(p: Pool) {
    && (forall f :: f in p.free ==> 1 <= f < MAX_FRAMES)
    && p.hint < WORDS
  }

  /** The word a scan starting at word `hint` visits in its turn `turn`. */
  function WordAt(hint: nat, turn: nat): (w: nat)
    requires hint < WORDS && turn < WORDS
    ensures w < WORDS
    ensures w == if hint + turn < WORDS then hint + turn else hint + turn - WORDS
  {
    (hint + turn) % WORDS
  }

  /** The turn in which that scan visits word w. */
  function TurnOf(hint: nat, w: nat): (turn: nat)
    requires hint < WORDS && w < WORDS
    ensures turn < WORDS && WordAt(hint, turn) == w
  {
    if w >= hint then w - hint else w + WORDS - hint
  }

  /** Position of frame f in the order in which a scan starting at word `hint` meets it. */
  function Rank(f: nat, hint: nat): (r: int)
    requires hint < WORDS && f < MAX_FRAMES
  {
    TurnOf(hint, f / 64) * 64 + f % 64
  }

  ghost predicate IsFirst(f: nat, s: set<nat>, hint: nat)
    requires hint < WORDS && forall g :: g in s ==> g < MAX_FRAMES
  {
    f in s && forall g :: g in s ==> Rank(f, hint) <= Rank(g, hint)
  }

  lemma {:induction false} SomeFrameIsFirst(s: set<nat>, hint: nat)
    requires s != {} && hint < WORDS && forall g :: g in s ==> g < MAX_FRAMES
    ensures exists f :: IsFirst(f, s, hint)
    decreases |s|
  {
    var f :| f in s;
    if s == {f} {
      assert IsFirst(f, s, hint);
    } else {
      SomeFrameIsFirst(s - {f}, hint);
      var g :| IsFirst(g, s - {f}, hint);
      assert IsFirst(if Rank(g, hint) < Rank(f, hint) then g else f, s, hint);
    }
  }

  /** The frame the next allocation returns: the free frame the scan meets first. */
  ghost function Pick(p: Pool): (f: nat)
    requires ValidPool(p) && p.free != {}
    ensures IsFirst(f, p.free, p.hint)
  {
    SomeFrameIsFirst(p.free, p.hint);
    var f :| IsFirst(f, p.free, p.hint);
    f
  }

  lemma RankInjective(f: nat, g: nat, hint: nat)
    requires f < MAX_FRAMES && g < MAX_FRAMES && hint < WORDS
    requires Rank(f, hint) == Rank(g, hint)
    ensures f == g
  {
    assert TurnOf(hint, f / 64) == TurnOf(hint, g / 64);
    assert f / 64 == g / 64;
  }

  /** pmm_alloc on the pool; frame 0 stands for NULL. */
  ghost function Take(p: Pool): (r: (Pool, nat))
    requires ValidPool(p)
    ensures ValidPool(r.0)
    ensures r.1 == 0 <==> p.free == {}
    ensures r.1 == 0 ==> r.0 == p
    ensures r.1 != 0 ==> r.1 in p.free && r.0.free == p.free - {r.1}
  {
    if p.free == {} then (p, 0)
    else
      var f := Pick(p);
      (Pool(p.free - {f}, f / 64), f)
  }

  /** pmm_free_page on the pool, for any frame number. */
  ghost function Give(p: Pool, f: nat): (r: Pool)
    requires ValidPool(p)
    ensures ValidPool(r)
  {
    if f == 0 || f >= MAX_FRAMES || f in p.free then p else p.(free := p.free + {f})
  }

  // ---------------------------------------------------------------- the bitmap

  ghost function FreeIn(bitmap: seq<Word>): (s: set<nat>) {
    set f: nat | f < 64 * |bitmap| && !bitmap[f / 64][f % 64]
  }

  lemma SetBit(bitmap: seq<Word>, f: nat)
    requires f < 64 * |bitmap|
    ensures FreeIn(bitmap[f / 64 := bitmap[f / 64][f % 64 := true]]) == FreeIn(bitmap) - {f}
  {
    var after := bitmap[f / 64 := bitmap[f / 64][f % 64 := true]];
    forall g: nat
      ensures g in FreeIn(after) <==> g in FreeIn(bitmap) - {f}
    {
      if g < 64 * |bitmap| && g / 64 == f / 64 && g % 64 == f % 64 {
        assert g == f;
      }
    }
  }

  lemma ClearBit(bitmap: seq<Word>, f: nat)
    requires f < 64 * |bitmap|
    ensures FreeIn(bitmap[f / 64 := bitmap[f / 64][f % 64 := false]]) == FreeIn(bitmap) + {f}
  {
    var after := bitmap[f / 64 := bitmap[f / 64][f % 64 := false]];
    forall g: nat
      ensures g in FreeIn(after) <==> g in FreeIn(bitmap) + {f}
    {
      if g < 64 * |bitmap| && g / 64 == f / 64 && g % 64 == f % 64 {
        assert g == f;
      }
    }
  }

  /** __builtin_ctzll(~w): the lowest clear bit of a word that is not full. */
  method LowestClear(w: Word) returns (bit: nat)
    requires w != FULL
    ensures bit < 64 && !w[bit] && forall j :: 0 <= j < bit ==> w[j]
  {
    bit := 0;
    while w[bit]
      invariant bit < 64 && forall j :: 0 <= j < bit ==> w[j]
      decreases 64 - bit
    {
      assert bit == 63 ==> w == FULL;
      bit := bit + 1;
    }
  }

  lemma FrameBytes(f: nat)
    ensures f * PAGE_SIZE / PAGE_SIZE == f && f * PAGE_SIZE % PAGE_SIZE == 0
  {
  }

  // ---------------------------------------------------------------- the E820 memory map

  datatype Region = Region(base: U64, length: U64, kind: nat)

  /** First and one-past-last frame that pmm_init clears for a region; empty unless USABLE. */
  function FirstFrame(e: Region): (f: nat) {
    PageAlignUp(e.base) / PAGE_SIZE
  }

  function EndFrame(e: Region): (f: nat) {
    var end := PageAlignDown(Wrap64(e.base + e.length)) / PAGE_SIZE;
    if e.kind != 1 || end <= FirstFrame(e) then FirstFrame(e)
    else if end <= MAX_FRAMES then end
    else if FirstFrame(e) <= MAX_FRAMES then MAX_FRAMES
    else FirstFrame(e)
  }

  predicate Between(lo: nat, f: nat, hi: nat) {
    lo <= f < hi
  }

  ghost function Interval(lo: nat, hi: nat): (s: set<nat>) {
    set f: nat | f < hi && Between(lo, f, hi)
  }

  ghost function FramesOf(e: Region): (s: set<nat>) {
    Interval(FirstFrame(e), EndFrame(e))
  }

  ghost function Usable(es: seq<Region>): (ss: seq<set<nat>>) {
    seq(|es|, i requires 0 <= i < |es| => FramesOf(es[i]))
  }

  /** The usable frames of the first n regions. */
  ghost function AllFrames(es: seq<Region>, n: nat): (s: set<nat>)
    requires n <= |es|
  {
    Union(Usable(es)[..n])
  }

  /** A frame lies wholly inside a usable region: E820 type 1. */
  predicate InRegion(e: Region, f: nat) {
    e.kind == 1 && e.base <= f * PAGE_SIZE && (f + 1) * PAGE_SIZE <= e.base + e.length
  }

  /** The 64-bit sums of pmm_init do no harm: neither wraps, or what wraps leaves nothing that the bitmap covers. */
  predicate Regular(e: Region) {
    if e.base + PAGE_SIZE > TWO64 then TWO64 <= e.base + e.length < TWO64 + PAGE_SIZE
    else e.base + e.length < TWO64 || e.base > (MAX_FRAMES - 1) * PAGE_SIZE
  }

  lemma AlignedUp(x: U64, f: nat)
    requires x + PAGE_SIZE <= TWO64
    ensures PageAlignUp(x) / PAGE_SIZE <= f <==> x <= f * PAGE_SIZE
  {
    assert PageAlignUp(x) / PAGE_SIZE == (x + PAGE_SIZE - 1) / PAGE_SIZE;
  }

  lemma AlignedDown(x: U64, f: nat)
    ensures f < PageAlignDown(x) / PAGE_SIZE <==> (f + 1) * PAGE_SIZE <= x
  {
    assert PageAlignDown(x) / PAGE_SIZE == x / PAGE_SIZE;
  }

  /** Where the sums stay below 2^64, the frames cleared for a region are those wholly inside it. */
  lemma FramesInRegion(e: Region, f: nat)
    requires e.kind == 1 && e.base + PAGE_SIZE <= TWO64 && e.base + e.length < TWO64
    ensures f in FramesOf(e) <==> f < MAX_FRAMES && InRegion(e, f)
  {
    hide PageAlignUp;
    hide PageAlignDown;
    AlignedUp(e.base, f);
    AlignedDown(e.base + e.length, f);
  }

  lemma FirstOf(base: U64)
    requires base + PAGE_SIZE > TWO64
    ensures PageAlignUp(base) == 0
  {
    assert Wrap64(base + PAGE_SIZE - 1) == base + PAGE_SIZE - 1 - TWO64;
  }

  /** A region at the very top is taken to start at 0. */
  lemma TopRegion(e: Region)
    requires e.kind == 1 && e.base + PAGE_SIZE > TWO64
    ensures (forall f: nat :: f in FramesOf(e) <==> f < MAX_FRAMES && InRegion(e, f)) <==> Regular(e)
  {
    hide PageAlignUp;
    FirstOf(e.base);
    assert forall f: nat :: f < MAX_FRAMES ==> !InRegion(e, f);
    assert 0 in FramesOf(e) <==> EndFrame(e) > 0 by { assert Between(0, 0, EndFrame(e)) <==> EndFrame(e) > 0; }
    if e.base + e.length < TWO64 {
      assert PageAlignDown(e.base + e.length) / PAGE_SIZE > 0;
    } else {
      assert Wrap64(e.base + e.length) == e.base + e.length - TWO64;
    }
    if EndFrame(e) > 0 {
      assert 0 in FramesOf(e) && !InRegion(e, 0);
    }
  }

  /** A region whose end wraps is passed over. */
  lemma WrappedRegion(e: Region)
    requires e.kind == 1 && e.base + PAGE_SIZE <= TWO64 <= e.base + e.length
    ensures (forall f: nat :: f in FramesOf(e) <==> f < MAX_FRAMES && InRegion(e, f)) <==> Regular(e)
  {
    hide PageAlignUp;
    var end := Wrap64(e.base + e.length);
    assert end == e.base + e.length - TWO64 < e.base;
    AlignedUp(e.base, end / PAGE_SIZE);
    assert FramesOf(e) == {} by {
      assert EndFrame(e) == FirstFrame(e);
    }
    if Regular(e) {
      forall f: nat | f < MAX_FRAMES
        ensures !InRegion(e, f)
      {
      }
    } else {
      assert InRegion(e, MAX_FRAMES - 1) && MAX_FRAMES - 1 !in FramesOf(e);
    }
  }

  /** pmm_init clears exactly the frames wholly inside a usable region if and only if its sums do no harm. */
  lemma RegionExactIff(e: Region)
    requires e.kind == 1
    ensures (forall f: nat :: f in FramesOf(e) <==> f < MAX_FRAMES && InRegion(e, f)) <==> Regular(e)
  {
    hide FramesOf;
    if e.base + PAGE_SIZE > TWO64 {
      TopRegion(e);
    } else if e.base + e.length >= TWO64 {
      WrappedRegion(e);
    } else {
      forall f: nat
        ensures f in FramesOf(e) <==> f < MAX_FRAMES && InRegion(e, f)
      {
        FramesInRegion(e, f);
      }
    }
  }

  ghost predicate AllRegular(es: seq<Region>) {
    forall i :: 0 <= i < |es| && es[i].kind == 1 ==> Regular(es[i])
  }

  /** For every regular memory map the frames cleared are those inside a usable region. */
  lemma AllFramesInRegions(es: seq<Region>)
    requires AllRegular(es)
    ensures forall f: nat :: f in AllFrames(es, |es|) <==>
              f < MAX_FRAMES && exists i :: 0 <= i < |es| && InRegion(es[i], f)
  {
    hide FramesOf;
    hide Regular;
    var ss := Usable(es);
    assert ss[..|es|] == ss;
    forall f: nat, i | 0 <= i < |es|
      ensures f in ss[i] <==> f < MAX_FRAMES && InRegion(es[i], f)
    {
      if es[i].kind == 1 {
        RegionExactIff(es[i]);
      } else {
        NothingUsable(es[i]);
      }
    }
  }

  /** What is left of those after frame 0 and the kernel image, which starts at 1 MiB. */
  lemma FreeAfterBoot(es: seq<Region>, kernelEnd: U64)
    ensures AllRegular(es) && kernelEnd + PAGE_SIZE <= TWO64 ==>
              forall f: nat ::
                f in AllFrames(es, |es|) - {0} - Interval(0x100, PageAlignUp(kernelEnd) / PAGE_SIZE) <==>
                && 0 < f < MAX_FRAMES && !(0x100000 <= f * PAGE_SIZE < kernelEnd)
                && exists i :: 0 <= i < |es| && InRegion(es[i], f)
  {
    hide AllFrames;
    hide Regular;
    hide InRegion;
    hide PageAlignUp;
    if AllRegular(es) && kernelEnd + PAGE_SIZE <= TWO64 {
      AllFramesInRegions(es);
      var k := PageAlignUp(kernelEnd) / PAGE_SIZE;
      forall f: nat
        ensures f in Interval(0x100, k) <==> 0x100000 <= f * PAGE_SIZE < kernelEnd
      {
        AlignedUp(kernelEnd, f);
        assert Between(0x100, f, k) <==> 0x100 <= f < k;
      }
    }
  }

  lemma NothingUsable(e: Region)
    requires e.kind != 1
    ensures FramesOf(e) == {}
  {
  }

  /** Every clearing of a bit bumps the counters once, so they add up region sizes. */
  function TotalLength(es: seq<Region>, n: nat): (total: nat)
    requires n <= |es|
  {
    if n == 0 then 0 else TotalLength(es, n - 1) + EndFrame(es[n - 1]) - FirstFrame(es[n - 1])
  }

  ghost predicate DisjointRegions(es: seq<Region>) {
    Disjoint(Usable(es))
  }

  ghost predicate Disjoint(ss: seq<set<nat>>) {
    forall i, j :: 0 <= i < j < |ss| ==> ss[i] !! ss[j]
  }

  ghost function Union(ss: seq<set<nat>>): (s: set<nat>)
    ensures forall f :: f in s <==> exists i :: 0 <= i < |ss| && f in ss[i]
  {
    if ss == [] then {}
    else
      var front := ss[..|ss| - 1];
      assert forall i :: 0 <= i < |front| ==> front[i] == ss[i];
      Union(front) + ss[|ss| - 1]
  }

  function SumOfSizes(ss: seq<set<nat>>): (n: nat) {
    if ss == [] then 0 else SumOfSizes(ss[..|ss| - 1]) + |ss[|ss| - 1]|
  }

  lemma UnionSize(a: set<nat>, b: set<nat>)
    ensures |a + b| <= |a| + |b|
    ensures |a + b| == |a| + |b| <==> a !! b
  {
    assert a + b == a + (b - a);
    assert b == (b - a) + (b * a);
    assert |b| == |b - a| + |b * a|;
    if b * a == {} {
      assert a !! b;
    }
  }

  lemma DisjointSplit(ss: seq<set<nat>>)
    requires ss != []
    ensures Disjoint(ss) <==> Disjoint(ss[..|ss| - 1]) && Union(ss[..|ss| - 1]) !! ss[|ss| - 1]
  {
    var front, last := ss[..|ss| - 1], ss[|ss| - 1];
    MeetsNone(front, last);
    if Disjoint(front) && Union(front) !! last {
      forall i, j | 0 <= i < j < |ss|
        ensures ss[i] !! ss[j]
      {
        assert ss[i] == front[i];
        if j < |ss| - 1 {
          assert ss[j] == front[j];
        }
      }
    }
    if Disjoint(ss) {
      forall i | 0 <= i < |front|
        ensures front[i] !! last
      {
        assert front[i] == ss[i];
      }
      forall i, j | 0 <= i < j < |front|
        ensures front[i] !! front[j]
      {
        assert front[i] == ss[i] && front[j] == ss[j];
      }
    }
  }

  /** A set misses a union exactly when it misses every part. */
  lemma MeetsNone(ss: seq<set<nat>>, t: set<nat>)
    ensures Union(ss) !! t <==> forall i :: 0 <= i < |ss| ==> ss[i] !! t
  {
    if Union(ss) !! t {
      forall i | 0 <= i < |ss|
        ensures ss[i] !! t
      {
        assert forall f :: f in ss[i] ==> f in Union(ss);
      }
    }
  }

  /** Sizes add up to the size of the union exactly when the sets are pairwise disjoint. */
  lemma {:induction false} SizesAddUpIffDisjoint(ss: seq<set<nat>>)
    ensures |Union(ss)| <= SumOfSizes(ss)
    ensures |Union(ss)| == SumOfSizes(ss) <==> Disjoint(ss)
  {
    if ss != [] {
      SizesAddUpIffDisjoint(ss[..|ss| - 1]);
      UnionSize(Union(ss[..|ss| - 1]), ss[|ss| - 1]);
      DisjointSplit(ss);
    }
  }

  lemma IntervalGrows(lo: nat, hi: nat)
    requires lo <= hi
    ensures Interval(lo, hi + 1) == Interval(lo, hi) + {hi}
  {
  }

  lemma SetsShrink(a: set<nat>, b: set<nat>, f: nat)
    ensures a - (b + {f}) == (a - b) - {f}
  {
  }

  lemma SetsGrow(a: set<nat>, b: set<nat>, f: nat)
    ensures a + (b + {f}) == (a + b) + {f}
  {
  }

  lemma EmptyInterval(lo: nat, hi: nat)
    ensures Interval(lo, lo) == {}
    ensures hi <= lo ==> Interval(lo, hi) == {}
  {
  }

  lemma {:induction false} IntervalSize(lo: nat, hi: nat)
    requires lo <= hi
    ensures |Interval(lo, hi)| == hi - lo
    decreases hi - lo
  {
    if lo < hi {
      IntervalSize(lo, hi - 1);
      IntervalGrows(lo, hi - 1);
    } else {
      EmptyInterval(lo, hi);
    }
  }

  lemma {:induction false} TotalIsSumOfSizes(es: seq<Region>, n: nat)
    requires n <= |es|
    ensures TotalLength(es, n) == SumOfSizes(Usable(es)[..n])
  {
    if n > 0 {
      TotalIsSumOfSizes(es, n - 1);
      IntervalSize(FirstFrame(es[n - 1]), EndFrame(es[n - 1]));
      assert Usable(es)[..n][..n - 1] == Usable(es)[..n - 1];
    }
  }

  /** The counters equal the number of usable frames exactly when no two regions share a frame. */
  lemma CountersExactIffDisjoint(es: seq<Region>)
    ensures |AllFrames(es, |es|)| <= TotalLength(es, |es|)
    ensures |AllFrames(es, |es|)| == TotalLength(es, |es|) <==> DisjointRegions(es)
  {
    TotalIsSumOfSizes(es, |es|);
    assert Usable(es)[..|es|] == Usable(es);
    SizesAddUpIffDisjoint(Usable(es));
  }

  /** Two entries for the same two pages: two frames, counted as four. */
  lemma OverlapCountsTwice()
    ensures var es := [Region(0, 8192, 1), Region(0, 8192, 1)];
            !DisjointRegions(es) && |AllFrames(es, 2)| < TotalLength(es, 2) == 4
  {
    var e := Region(0, 8192, 1);
    var es := [e, e];
    assert PageAlignUp(0) == 0 && PageAlignDown(Wrap64(8192)) == 8192;
    assert FirstFrame(e) == 0 && EndFrame(e) == 2;
    assert Between(0, 1, 2) && 1 in FramesOf(e);
    assert Usable(es)[0] == Usable(es)[1] == FramesOf(e);
    assert !(Usable(es)[0] !! Usable(es)[1]);
    assert TotalLength(es, 1) == 2;
    CountersExactIffDisjoint(es);
  }

  // ---------------------------------------------------------------- the allocator

  class PhysicalFrames {
    const bitmap: array<Word>
    var totalFrames: nat
    var freeFrames: int
    var searchHint: nat

    ghost predicate Shape()
      reads this, bitmap
    {
      bitmap.Length == WORDS && searchHint < WORDS
    }

    ghost function Free(): (s: set<nat>)
      reads bitmap
    {
      FreeIn(bitmap[..])
    }

    ghost function View(): (p: Pool)
      reads this, bitmap
    {
      Pool(Free(), searchHint)
    }

    /** The counter is exact and frame 0 stays reserved, so a NULL return is unambiguous. */
    ghost predicate Valid()
      reads this, bitmap
    {
      && Shape()
      && 0 !in Free()
      && freeFrames == |Free()|
    }

    lemma ViewIsValid()
      requires Shape() && 0 !in Free()
      ensures ValidPool(View())
    {
    }

    constructor ()
      ensures Shape() && fresh(bitmap) && Free() == {}
      ensures totalFrames == 0 && freeFrames == 0
    {
      bitmap := new Word[WORDS](i => FULL);
      totalFrames, freeFrames, searchHint := 0, 0, 0;
      new;
      assert Free() == {};
    }

    method FrameSet(frame: nat)
      requires Shape() && frame < MAX_FRAMES
      modifies bitmap
      ensures Shape() && Free() == old(Free()) - {frame}
    {
      SetBit(bitmap[..], frame);
      ghost var before := bitmap[..];
      bitmap[frame / 64] := bitmap[frame / 64][frame % 64 := true];
      assert bitmap[..] == before[frame / 64 := before[frame / 64][frame % 64 := true]];
    }

    method FrameClear(frame: nat)
      requires Shape() && frame < MAX_FRAMES
      modifies bitmap
      ensures Shape() && Free() == old(Free()) + {frame}
    {
      ClearBit(bitmap[..], frame);
      ghost var before := bitmap[..];
      bitmap[frame / 64] := bitmap[frame / 64][frame % 64 := false];
      assert bitmap[..] == before[frame / 64 := before[frame / 64][frame % 64 := false]];
    }

    function FrameUsed(frame: nat): (used: bool)
      requires Shape() && frame < MAX_FRAMES
      reads this, bitmap
      ensures used <==> frame !in Free()
    {
      bitmap[frame / 64][frame % 64]
    }

    /** The inner loop of pmm_init over one region. */
    method ClearRegion(e: Region)
      requires Shape()
      modifies this, bitmap
      ensures Shape() && searchHint == old(searchHint)
      ensures Free() == old(Free()) + FramesOf(e)
      ensures totalFrames == old(totalFrames) + EndFrame(e) - FirstFrame(e)
      ensures freeFrames == old(freeFrames) + EndFrame(e) - FirstFrame(e)
    {
      hide FreeIn;
      hide Interval;
      EmptyInterval(FirstFrame(e), FirstFrame(e));
      assert Free() + {} == Free();
      if e.kind != 1 {
        return;
      }
      var start := PageAlignUp(e.base);
      var end := PageAlignDown(Wrap64(e.base + e.length));
      if end <= start {
        return;
      }
      var addr := start;
      ghost var n := 0;
      while addr < end
        invariant Shape() && searchHint == old(searchHint)
        invariant addr == start + n * PAGE_SIZE && addr <= end
        invariant FirstFrame(e) + n <= EndFrame(e)
        invariant Free() == old(Free()) + Interval(FirstFrame(e), FirstFrame(e) + n)
        invariant totalFrames == old(totalFrames) + n && freeFrames == old(freeFrames) + n
      {
        var frame := addr / PAGE_SIZE;
        assert frame == FirstFrame(e) + n;
        if frame >= MAX_FRAMES {
          break;
        }
        IntervalGrows(FirstFrame(e), frame);
        SetsGrow(old(Free()), Interval(FirstFrame(e), frame), frame);
        FrameClear(frame);
        totalFrames := totalFrames + 1;
        freeFrames := freeFrames + 1;
        addr := addr + PAGE_SIZE;
        n := n + 1;
      }
    }

    /** Marks one frame used if it was free, keeping count. */
    method Reserve(frame: nat)
      requires Shape() && frame < MAX_FRAMES
      modifies this, bitmap
      ensures Shape() && searchHint == old(searchHint) && totalFrames == old(totalFrames)
      ensures Free() == old(Free()) - {frame}
      ensures freeFrames - |Free()| == old(freeFrames) - |old(Free())|
    {
      if !FrameUsed(frame) {
        FrameSet(frame);
        freeFrames := freeFrames - 1;
      } else {
        assert old(Free()) - {frame} == old(Free());
      }
    }

    /** The loop of pmm_init over the memory map. */
    method ClearUsable(e820: seq<Region>)
      requires Shape() && Free() == {}
      modifies this, bitmap
      ensures Shape()
      ensures Free() == AllFrames(e820, |e820|)
      ensures totalFrames == old(totalFrames) + TotalLength(e820, |e820|)
      ensures freeFrames == old(freeFrames) + TotalLength(e820, |e820|)
    {
      hide FreeIn;
      hide FirstFrame;
      hide EndFrame;
      var i := 0;
      while i < |e820|
        invariant Shape() && i <= |e820|
        invariant Free() == AllFrames(e820, i)
        invariant totalFrames == old(totalFrames) + TotalLength(e820, i)
        invariant freeFrames == old(freeFrames) + TotalLength(e820, i)
      {
        ClearRegion(e820[i]);
        i := i + 1;
        assert Usable(e820)[..i][..i - 1] == Usable(e820)[..i - 1];
      }
    }

    /** The loop of pmm_init over the kernel image, which starts at 1 MiB and ends at page `kend`. */
    method ReserveKernel(kend: nat)
      requires Shape() && kend <= MAX_FRAMES
      modifies this, bitmap
      ensures Shape() && totalFrames == old(totalFrames)
      ensures Free() == old(Free()) - Interval(0x100, kend)
      ensures freeFrames - |Free()| == old(freeFrames) - |old(Free())|
    {
      hide FreeIn;
      hide Interval;
      var a := 0x100000;
      ghost var n := 0x100;
      EmptyInterval(0x100, kend);
      while a < kend * PAGE_SIZE
        invariant Shape() && totalFrames == old(totalFrames)
        invariant a == n * PAGE_SIZE && (n <= kend || n == 0x100)
        invariant Free() == old(Free()) - Interval(0x100, n)
        invariant freeFrames - |Free()| == old(freeFrames) - |old(Free())|
      {
        var f := a / PAGE_SIZE;
        assert f == n < kend;
        IntervalGrows(0x100, f);
        SetsShrink(old(Free()), Interval(0x100, f), f);
        Reserve(f);
        a := a + PAGE_SIZE;
        n := n + 1;
      }
    }

    /** The memset that opens pmm_init. */
    method MarkAllUsed()
      requires Shape()
      modifies bitmap
      ensures Free() == {}
    {
      forall i | 0 <= i < WORDS {
        bitmap[i] := FULL;
      }
    }

    /**
     pmm_init. The kernel image ends inside the range the bitmap covers. The counter of free
     frames comes out right exactly when no two usable regions share a frame.
     */
    method Init(e820: seq<Region>, kernelEnd: U64)
      requires Shape() && freeFrames == 0
      requires PageAlignUp(kernelEnd) / PAGE_SIZE <= MAX_FRAMES
      modifies this, bitmap
      ensures Shape() && 0 !in Free()
      ensures Free() == AllFrames(e820, |e820|) - {0} - Interval(0x100, PageAlignUp(kernelEnd) / PAGE_SIZE)
      ensures AllRegular(e820) && kernelEnd + PAGE_SIZE <= TWO64 ==>
                forall f: nat :: f in Free() <==>
                  && 0 < f < 0x10_0000 && !(0x100000 <= f * PAGE_SIZE < kernelEnd)
                  && exists i :: 0 <= i < |e820| && InRegion(e820[i], f)
      ensures totalFrames == old(totalFrames) + TotalLength(e820, |e820|)
      ensures freeFrames >= |Free()|
      ensures Valid() <==> DisjointRegions(e820)
    {
      MarkAllUsed();
      ClearUsable(e820);
      CountersExactIffDisjoint(e820);
      Reserve(0);
      ReserveKernel(PageAlignUp(kernelEnd) / PAGE_SIZE);
      FreeAfterBoot(e820, kernelEnd);
    }

    /** Hands out the frame the scan found and moves the hint to its word. */
    method Claim(frame: nat, word: nat)
      requires Valid() && ValidPool(View()) && Free() != {} && frame == Pick(View()) && word == frame / 64
      modifies this, bitmap
      ensures Valid() && totalFrames == old(totalFrames)
      ensures ValidPool(old(View())) && ValidPool(View()) && (View(), frame) == Take(old(View()))
    {
      FrameSet(frame);
      freeFrames := freeFrames - 1;
      searchHint := word;
    }

    /** pmm_alloc: the physical address of a page, or 0. */
    method Alloc() returns (phys: nat)
      requires Valid()
      modifies this, bitmap
      ensures Valid() && totalFrames == old(totalFrames)
      ensures ValidPool(old(View())) && ValidPool(View())
      ensures phys == 0 <==> old(Free()) == {}
      ensures phys % PAGE_SIZE == 0
      ensures (View(), phys / PAGE_SIZE) == Take(old(View()))
      ensures phys != 0 ==> phys / PAGE_SIZE in old(Free()) && Free() == old(Free()) - {phys / PAGE_SIZE}
    {
      hide Take;
      hide FreeIn;
      hide Pick;
      hide Rank;
      ViewIsValid();
      var wi := 0;
      while wi < WORDS
        invariant wi <= WORDS
        invariant forall j :: 0 <= j < wi ==> bitmap[WordAt(searchHint, j)] == FULL
      {
        var actual := WordAt(searchHint, wi);
        if bitmap[actual] != FULL {
          var bit := LowestClear(bitmap[actual]);
          var frame := actual * 64 + bit;
          ScanFindsPick(wi, bit, frame);
          FrameBytes(frame);
          Claim(frame, actual);
          phys := frame * PAGE_SIZE;
          return;
        }
        wi := wi + 1;
      }
      AllFull();
      phys := 0;
    }

    /** When every turn of the scan met a full word, no frame is free. */
    lemma AllFull()
      requires Valid() && forall j :: 0 <= j < WORDS ==> bitmap[WordAt(searchHint, j)] == FULL
      ensures Free() == {}
    {
      forall f: nat | f < MAX_FRAMES
        ensures f !in Free()
      {
        assert bitmap[WordAt(searchHint, TurnOf(searchHint, f / 64))] == FULL;
      }
    }

    /** A scan that passed only full words and stops at the lowest clear bit has met Pick. */
    lemma ScanFindsPick(wi: nat, bit: nat, frame: nat)
      requires Valid() && wi < WORDS && bit < 64
      requires frame == WordAt(searchHint, wi) * 64 + bit
      requires forall j :: 0 <= j < wi ==> bitmap[WordAt(searchHint, j)] == FULL
      requires !bitmap[WordAt(searchHint, wi)][bit]
      requires forall j :: 0 <= j < bit ==> bitmap[WordAt(searchHint, wi)][j]
      ensures ValidPool(View()) && frame in Free() && frame < MAX_FRAMES && frame / 64 == WordAt(searchHint, wi)
      ensures frame == Pick(View())
    {
      ViewIsValid();
      var word := WordAt(searchHint, wi);
      assert frame / 64 == word && frame % 64 == bit;
      assert frame in Free();
      assert Rank(frame, searchHint) == wi * 64 + bit;
      var p := Pick(View());
      var turn := TurnOf(searchHint, p / 64);
      assert bitmap[WordAt(searchHint, turn)] != FULL;
      RankInjective(p, frame, searchHint);
    }

    /** pmm_free_page. */
    method FreePage(phys: nat)
      requires Valid()
      modifies this, bitmap
      ensures Valid() && totalFrames == old(totalFrames)
      ensures ValidPool(old(View())) && View() == Give(old(View()), phys / PAGE_SIZE)
      ensures Free() == old(Free()) + (if PAGE_SIZE <= phys < 0x1_0000_0000 then {phys / PAGE_SIZE} else {})
    {
      ViewIsValid();
      var frame := phys / PAGE_SIZE;
      if frame == 0 || frame >= MAX_FRAMES {
        return;
      }
      if !FrameUsed(frame) {
        return;
      }
      FrameClear(frame);
      freeFrames := freeFrames + 1;
    }
  }

  // ---------------------------------------------------------------- runs of the pool

  datatype Request = TakeOne | GiveBack(frame: nat)

  /** The pool, and the frames handed out and not yet returned. */
  datatype Ledger = Ledger(pool: Pool, held: set<nat>)

  /** Free frames and frames handed out partition the usable ones. */
  ghost predicate Balanced(l: Ledger, universe: set<nat>) {
    && ValidPool(l.pool)
    && l.pool.free !! l.held && l.pool.free + l.held == universe
    && (forall f :: f in universe ==> 1 <= f < MAX_FRAMES)
  }

  ghost function Serve(l: Ledger, q: Request): (r: Ledger)
    requires ValidPool(l.pool)
    ensures ValidPool(r.pool)
  {
    match q
    case TakeOne =>
      var (p, f) := Take(l.pool);
      if f == 0 then l else Ledger(p, l.held + {f})
    case GiveBack(f) => Ledger(Give(l.pool, f), l.held - {f})
  }

  /** A frame the client holds, or one that pmm_free_page ignores: free already, frame 0, or out of range. */
  ghost predicate Returnable(l: Ledger, f: nat) {
    f in l.held || f in l.pool.free || f == 0 || f >= MAX_FRAMES
  }

  /** Requests keep the balance exactly when nothing is given back that was reserved. */
  lemma ServeKeepsBalanceIff(l: Ledger, universe: set<nat>, q: Request)
    requires Balanced(l, universe)
    ensures Balanced(Serve(l, q), universe) <==> (q.GiveBack? ==> Returnable(l, q.frame))
  {
    match q
    case TakeOne =>
      var (p, f) := Take(l.pool);
      if f != 0 {
        assert p.free + (l.held + {f}) == universe;
      }
    case GiveBack(f) =>
      var r := Serve(l, q);
      if f in l.held {
        assert r.pool.free + r.held == universe;
      } else if f in l.pool.free || f == 0 || f >= MAX_FRAMES {
        assert r.pool.free == l.pool.free && l.held - {f} == l.held;
      } else {
        assert f in r.pool.free && f !in universe;
      }
  }

  ghost function ServeAll(l: Ledger, qs: seq<Request>): (r: Ledger)
    requires ValidPool(l.pool)
    ensures ValidPool(r.pool)
  {
    if qs == [] then l else Serve(ServeAll(l, qs[..|qs| - 1]), qs[|qs| - 1])
  }

  ghost predicate AllReturnable(l: Ledger, qs: seq<Request>)
    requires ValidPool(l.pool)
  {
    qs == [] ||
    ( && AllReturnable(l, qs[..|qs| - 1])
      && (qs[|qs| - 1].GiveBack? ==> Returnable(ServeAll(l, qs[..|qs| - 1]), qs[|qs| - 1].frame)))
  }

  /** In every run that gives back nothing reserved, no frame is lost and none is handed out twice. */
  lemma {:induction false} RunsConserveFrames(l: Ledger, universe: set<nat>, qs: seq<Request>)
    requires Balanced(l, universe) && AllReturnable(l, qs)
    ensures Balanced(ServeAll(l, qs), universe)
    ensures |ServeAll(l, qs).pool.free| + |ServeAll(l, qs).held| == |universe|
  {
    if qs != [] {
      RunsConserveFrames(l, universe, qs[..|qs| - 1]);
      ServeKeepsBalanceIff(ServeAll(l, qs[..|qs| - 1]), universe, qs[|qs| - 1]);
    }
    var e := ServeAll(l, qs);
    assert |e.pool.free + e.held| == |e.pool.free| + |e.held|;
  }
}
