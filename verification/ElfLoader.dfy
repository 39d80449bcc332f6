/**
 The ELF segment loader: each PT_LOAD segment is mapped page by page, the part of the file that
 overlaps a page copied into the page's frame. The result must be the memory image the program
 headers describe.
 */
module ElfLoader {
  import opened Lists
  import opened Machine
  import opened FrameAllocator
  import opened PageTables
  import opened Addresses
  import opened AddressSpaces
  import opened Ranges
  import opened TableCost
  import opened MemoryManager

  datatype Phdr = Phdr(kind: nat, flags: bv32, offset: U64, vaddr: U64, filesz: U64, memsz: U64)

  const PT_LOAD: nat := 1
  const LOWER_END: nat := 0x8000_0000_0000 // first address above the lower half

  const PF_X: bv32 := 1
  const PF_W: bv32 := 2

  /** elf_flags_to_vmm. */
  function ElfFlags(pf: bv32): (f: Flags) {
    NO_FLAGS.(present := true, user := true, writable := pf & PF_W != 0, noExec := pf & PF_X == 0)
  }

  /** Bit i of a segment's p_flags: execute is bit 0, write is bit 1. */
  predicate Executable(pf: bv32) {
    pf % 2 == 1
  }

  predicate Writable(pf: bv32) {
    (pf >> 1) % 2 == 1
  }

  /** A user page that can be written and executed just as the segment asks. */
  predicate AsAsked(f: Flags, pf: bv32) {
    f.present && f.user && (f.writable <==> Writable(pf)) && (f.noExec <==> !Executable(pf))
  }

  lemma FlagsAsAsked(pf: bv32)
    ensures AsAsked(ElfFlags(pf), pf)
  {
  }

  // ---------------------------------------------------------------- what the headers describe

  /** The segment lies in the lower half, and none of its sums wraps. */
  predicate Sane(ph: Phdr) {
    ph.vaddr + ph.memsz <= LOWER_END && ph.vaddr + ph.filesz < TWO64 && ph.offset + ph.filesz < TWO64
  }

  /** The segment's file bytes are in the file. */
  predicate InFile(ph: Phdr, file: seq<Byte>) {
    ph.filesz == 0 || ph.offset + ph.filesz <= |file|
  }

  function FirstPage(ph: Phdr): (k: nat) {
    ph.vaddr / PAGE_SIZE
  }

  /** (va_end - va_start) / PAGE_SIZE. */
  function PageSpan(ph: Phdr): (c: nat)
    requires Sane(ph)
  {
    (ph.vaddr + ph.memsz + PAGE_SIZE - 1) / PAGE_SIZE - FirstPage(ph)
  }

  /** The pages the segment occupies. */
  predicate Covers(ph: Phdr, va: nat)
    requires Sane(ph)
  {
    ph.memsz > 0 && FirstPage(ph) <= va / PAGE_SIZE < FirstPage(ph) + PageSpan(ph)
  }

  /** The byte the segment puts at address va of its pages. */
  function SegmentByte(ph: Phdr, file: seq<Byte>, va: nat): (b: Byte)
    requires InFile(ph, file)
  {
    if ph.vaddr <= va < ph.vaddr + ph.filesz then file[ph.offset + va - ph.vaddr] else 0
  }

  function PageImage(ph: Phdr, file: seq<Byte>, page: nat): (bs: seq<Byte>)
    requires InFile(ph, file)
    ensures |bs| == PAGE_SIZE
    ensures forall o :: 0 <= o < PAGE_SIZE ==> bs[o] == SegmentByte(ph, file, page * PAGE_SIZE + o)
  {
    seq<Byte>(PAGE_SIZE, o requires 0 <= o < PAGE_SIZE => SegmentByte(ph, file, page * PAGE_SIZE + o))
  }

  function Images(ph: Phdr, file: seq<Byte>): (img: seq<seq<Byte>>)
    requires Sane(ph) && InFile(ph, file)
    ensures |img| == PageSpan(ph)
    ensures forall i :: 0 <= i < |img| ==> img[i] == PageImage(ph, file, FirstPage(ph) + i)
  {
    seq(PageSpan(ph), i requires 0 <= i < PageSpan(ph) => PageImage(ph, file, FirstPage(ph) + i))
  }

  /** The image of the first c headers: the last segment that covers a page owns it. */
  function ImageAt(phs: seq<Phdr>, file: seq<Byte>, c: nat, va: nat): (b: Option<Byte>)
    requires c <= |phs| && forall i :: 0 <= i < c ==> Sane(phs[i]) && InFile(phs[i], file)
  {
    if c == 0 then None
    else if phs[c - 1].kind == 1 && Covers(phs[c - 1], va) then Some(SegmentByte(phs[c - 1], file, va))
    else ImageAt(phs, file, c - 1, va)
  }

  /** What a process reads at va: the byte of the frame its page is mapped to. */
  ghost function ReadByte(s: Memory, r: nat, va: nat): (b: Option<Byte>) {
    var e := Leaf(s.tables, r, PathOf(va));
    if e.None? || e.value.frame !in s.data || |s.data[e.value.frame]| != PAGE_SIZE then None
    else Some(s.data[e.value.frame][va % PAGE_SIZE])
  }

  // ---------------------------------------------------------------- loading on values

  /** One round: a fresh frame mapped at page p and filled with bytes. */
  ghost function FillPage(s: Memory, r: nat, p: Path, bytes: seq<Byte>, flags: Flags): (d: (Memory, bool))
    requires ValidPool(s.pool)
    ensures ValidPool(d.0.pool)
  {
    var (n, f) := AllocMap(s, r, p, flags);
    if f == 0 then (n, false) else (n.(data := n.data[f := bytes]), true)
  }

  /** The loop of elf_map_segment after c rounds, page i filled with img[i]. */
  ghost function FillPages(s: Memory, r: nat, ps: seq<Path>, img: seq<seq<Byte>>, c: nat, flags: Flags)
    : (d: (Memory, bool))
    requires ValidPool(s.pool) && c <= |ps| == |img|
    ensures ValidPool(d.0.pool)
  {
    if c == 0 then (s, true)
    else
      var (m, ok) := FillPages(s, r, ps, img, c - 1, flags);
      if !ok then (m, false) else FillPage(m, r, ps[c - 1], img[c - 1], flags)
  }

  /** elf_map_segment. */
  ghost function MapSegment(s: Memory, r: nat, file: seq<Byte>, ph: Phdr): (d: (Memory, bool))
    requires ValidPool(s.pool) && Sane(ph)
    ensures ValidPool(d.0.pool)
  {
    if ph.memsz == 0 then (s, true)
    else if !InFile(ph, file) then (s, false)
    else FillPages(s, r, PathsFrom(FirstPage(ph), PageSpan(ph)), Images(ph, file), PageSpan(ph), ElfFlags(ph.flags))
  }

  /** The PT_LOAD loop of elf_load after c headers. */
  ghost function LoadSegments(s: Memory, r: nat, file: seq<Byte>, phs: seq<Phdr>, c: nat): (d: (Memory, bool))
    requires ValidPool(s.pool) && c <= |phs| && forall i :: 0 <= i < |phs| ==> Sane(phs[i])
    ensures ValidPool(d.0.pool)
  {
    if c == 0 then (s, true)
    else
      var (m, ok) := LoadSegments(s, r, file, phs, c - 1);
      if !ok then (m, false)
      else if phs[c - 1].kind != PT_LOAD then (m, true)
      else MapSegment(m, r, file, phs[c - 1])
  }

  // ---------------------------------------------------------------- filled ranges

  /** n is s with the first c pages of r backed by distinct fresh frames that hold img. */
  ghost predicate RangeFilled(s: Memory, n: Memory, r: nat, ps: seq<Path>, img: seq<seq<Byte>>, c: nat, flags: Flags)
    requires c <= |ps| == |img|
  {
    && WellFormed(n) && Grows(s.tables, n.tables)
    && Backed(n.tables, r, ps, c, flags)
    && OthersKept(s.tables, n.tables, r, ps, c)
    && Filled(s.data, n, r, ps, img, c)
  }

  ghost predicate Filled(before: map<nat, seq<Byte>>, n: Memory, r: nat, ps: seq<Path>, img: seq<seq<Byte>>, c: nat)
    requires c <= |ps| == |img|
  {
    && (forall f :: f in before ==> f in n.data && n.data[f] == before[f])
    && (forall i :: 0 <= i < c ==>
          FrameAt(n.tables, r, ps[i]) in n.data && n.data[FrameAt(n.tables, r, ps[i])] == img[i])
  }

  lemma FilledStep(before: map<nat, seq<Byte>>, m: Memory, n: Memory, r: nat, ps: seq<Path>, img: seq<seq<Byte>>,
                   c: nat, f: nat, flags: Flags)
    requires Root(m.tables, r) && c < |ps| == |img| && Distinct(ps) && flags.present
    requires Filled(before, m, r, ps, img, c) && f !in m.data
    requires Updated(m.tables, n.tables, r, ps[c], Entry(f, flags)) && n.data == m.data[f := img[c]]
    ensures Filled(before, n, r, ps, img, c + 1)
  {
    hide Leaf;
    assert forall i :: 0 <= i < c ==> FrameAt(n.tables, r, ps[i]) == FrameAt(m.tables, r, ps[i]);
    assert FrameAt(n.tables, r, ps[c]) == f;
  }

  /** One round with frames to spare: the page is mapped to a fresh frame that holds the bytes. */
  lemma FillWrites(m: Memory, r: nat, p: Path, bytes: seq<Byte>, flags: Flags)
    requires WellFormed(m) && Root(m.tables, r) && |bytes| == PAGE_SIZE
    requires |m.pool.free| >= 1 + Missing(m.tables, r, p)
    ensures var (d, f) := AllocMap(m, r, p, flags);
            var n := d.(data := d.data[f := bytes]);
            && f != 0 && f !in m.data && n.data == m.data[f := bytes]
            && WellFormed(n) && Grows(m.tables, n.tables)
            && |n.pool.free| == |m.pool.free| - 1 - Missing(m.tables, r, p)
            && Updated(m.tables, n.tables, r, p, Entry(f, flags))
  {
    hide AllocMap;
    hide Missing;
    hide SameLeaves;
    hide Updated;
    hide Grows;
    hide WellFormed;
    FillKeeps(m, r, p, bytes, flags);
    AllocMapUpdates(m, r, p, flags);
  }

  lemma FillKeeps(m: Memory, r: nat, p: Path, bytes: seq<Byte>, flags: Flags)
    requires WellFormed(m) && Root(m.tables, r) && m.pool.free != {} && |bytes| == PAGE_SIZE
    ensures var (d, f) := AllocMap(m, r, p, flags);
            var n := d.(data := d.data[f := bytes]);
            && f != 0 && f !in m.data && n.data == m.data[f := bytes]
            && WellFormed(n) && Grows(m.tables, n.tables)
  {
    hide AllocMap;
    hide Grows;
    hide Forest;
    AllocMapKeeps(m, r, p, flags);
    var (d, f) := AllocMap(m, r, p, flags);
    Overwritten(m, d, f, bytes);
  }

  lemma Overwritten(m: Memory, d: Memory, f: nat, bytes: seq<Byte>)
    requires WellFormed(m) && WellFormed(d) && f in m.pool.free && |bytes| == PAGE_SIZE
    requires f in d.data && d.data == m.data[f := d.data[f]]
    ensures WellFormed(d.(data := d.data[f := bytes])) && f !in m.data && d.data[f := bytes] == m.data[f := bytes]
  {
    hide Forest;
  }

  lemma FillStep(s: Memory, m: Memory, r: nat, ps: seq<Path>, img: seq<seq<Byte>>, c: nat, flags: Flags)
    requires WellFormed(s) && Root(s.tables, r) && flags.present && c < |ps| == |img| && Distinct(ps)
    requires |img[c]| == PAGE_SIZE
    requires RangeFilled(s, m, r, ps, img, c, flags) && |m.pool.free| >= 1 + Missing(m.tables, r, ps[c])
    ensures var (d, f) := AllocMap(m, r, ps[c], flags);
            var n := d.(data := d.data[f := img[c]]);
            && f != 0 && |n.pool.free| == |m.pool.free| - 1 - Missing(m.tables, r, ps[c])
            && RangeFilled(s, n, r, ps, img, c + 1, flags)
  {
    hide Leaf;
    hide AllocMap;
    hide Missing;
    hide OthersKept;
    hide SameLeaves;
    hide Updated;
    hide Forest;
    hide Filled;
    hide Backed;
    hide FramesOfRange;
    hide Grows;
    hide Distinct;
    RootStays(s.tables, m.tables, r);
    var (d, f) := AllocMap(m, r, ps[c], flags);
    FillWrites(m, r, ps[c], img[c], flags);
    var n := d.(data := d.data[f := img[c]]);
    GrowsTwice(s.tables, m.tables, n.tables);
    assert f !in FramesOfRange(m.tables, r, ps, c) by { FilledFramesAreData(s.data, m, r, ps, img, c); }
    BackedStep(m.tables, n.tables, r, ps, c, f, flags);
    OthersKeptStep(s.tables, m.tables, n.tables, r, ps, c, Entry(f, flags));
    FilledStep(s.data, m, n, r, ps, img, c, f, flags);
  }

  lemma FilledFramesAreData(before: map<nat, seq<Byte>>, m: Memory, r: nat, ps: seq<Path>, img: seq<seq<Byte>>, c: nat)
    requires c <= |ps| == |img| && Filled(before, m, r, ps, img, c)
    ensures FramesOfRange(m.tables, r, ps, c) <= m.data.Keys
  {
    hide Leaf;
  }

  lemma {:induction false} FillRange(s: Memory, r: nat, ps: seq<Path>, img: seq<seq<Byte>>, c: nat, flags: Flags)
    requires WellFormed(s) && Root(s.tables, r) && flags.present && c <= |ps| == |img| && Distinct(ps)
    requires forall i :: 0 <= i < |img| ==> |img[i]| == PAGE_SIZE
    requires |s.pool.free| >= Demand(s.tables, r, ps, c)
    ensures var (n, ok) := FillPages(s, r, ps, img, c, flags);
            && ok && |n.pool.free| == |s.pool.free| - Demand(s.tables, r, ps, c)
            && Made(s.tables, n.tables, r, NeedsOf(s.tables, r, ps, c))
            && RangeFilled(s, n, r, ps, img, c, flags)
  {
    hide Leaf;
    hide AllocMap;
    hide OthersKept;
    hide Backed;
    hide Filled;
    hide Forest;
    hide Made;
    hide Needs;
    hide NeedsOf;
    hide Missing;
    hide Distinct;
    if c == 0 {
      NothingChanged(s.tables, r, ps);
      NothingFilled(s, r, ps, img, flags);
      NoPagesNoCost(s.tables, r, ps);
    } else {
      CostMonotone(s.tables, r, ps, c - 1);
      FillRange(s, r, ps, img, c - 1, flags);
      var m := FillPages(s, r, ps, img, c - 1, flags).0;
      CostGrows(s.tables, m.tables, r, ps, c - 1);
      FillStep(s, m, r, ps, img, c - 1, flags);
      AllocMapMakes(m, r, ps[c - 1], flags);
      MadeTwice(s.tables, m.tables, AllocMap(m, r, ps[c - 1], flags).0.tables, r,
                NeedsOf(s.tables, r, ps, c - 1), Needs(m.tables, r, ps[c - 1]));
    }
  }

  lemma NothingFilled(s: Memory, r: nat, ps: seq<Path>, img: seq<seq<Byte>>, flags: Flags)
    requires |ps| == |img|
    ensures Backed(s.tables, r, ps, 0, flags) && Filled(s.data, s, r, ps, img, 0)
  {
  }

  // ---------------------------------------------------------------- one segment

  /** Lower-half addresses: the page's path, and the page from the path. */
  lemma LowerPath(va: nat)
    requires va < LOWER_END
    ensures PathOf(va) == PathOfPage(va / PAGE_SIZE) && PathOf(va).i4 < 256
  {
    PathOfAddress(va);
  }

  lemma LowerPathInjective(k: nat, j: nat)
    requires k < PAGES && j < PAGES && PathOfPage(k) == PathOfPage(j)
    ensures k == j
  {
    hide PathOfPage;
    PathInverse(k);
    PathInverse(j);
  }

  lemma SpanInLowerHalf(ph: Phdr)
    requires Sane(ph)
    ensures (FirstPage(ph) + PageSpan(ph)) * PAGE_SIZE <= LOWER_END
    ensures FirstPage(ph) + PageSpan(ph) <= PAGES / 2
  {
  }

  /** A segment's page i is the page of its addresses there. */
  lemma PageOfAddress(ph: Phdr, va: nat)
    requires Sane(ph) && va < LOWER_END
    ensures var ps := PathsFrom(FirstPage(ph), PageSpan(ph));
            && (Covers(ph, va) ==> PathOf(va) == ps[va / PAGE_SIZE - FirstPage(ph)])
            && (ph.memsz > 0 && !Covers(ph, va) ==> !InFirst(PathOf(va), ps, |ps|))
  {
    hide PathOf;
    hide PathOfPage;
    LowerPath(va);
    SpanInLowerHalf(ph);
    var ps := PathsFrom(FirstPage(ph), PageSpan(ph));
    if ph.memsz > 0 && !Covers(ph, va) {
      forall i | 0 <= i < |ps|
        ensures ps[i] != PathOf(va)
      {
        if ps[i] == PathOf(va) {
          LowerPathInjective(FirstPage(ph) + i, va / PAGE_SIZE);
        }
      }
    }
  }

  /** What n shows to r at lower-half addresses: the segment where it covers, s elsewhere. */
  ghost predicate ShowsSegment(s: Memory, n: Memory, r: nat, file: seq<Byte>, ph: Phdr)
    requires Sane(ph) && InFile(ph, file)
  {
    forall va :: 0 <= va < LOWER_END ==>
      ReadByte(n, r, va) == if Covers(ph, va) then Some(SegmentByte(ph, file, va)) else ReadByte(s, r, va)
  }

  /** p is the path of one of the segment's pages. */
  ghost predicate CoversPath(ph: Phdr, p: Path)
    requires Sane(ph)
  {
    ph.memsz > 0 && InFirst(p, PathsFrom(FirstPage(ph), PageSpan(ph)), PageSpan(ph))
  }

  lemma CoversByPath(ph: Phdr, va: nat)
    requires Sane(ph) && va < LOWER_END
    ensures CoversPath(ph, PathOf(va)) <==> Covers(ph, va)
  {
    hide PathOf;
    hide PathOfPage;
    PageOfAddress(ph, va);
  }

  /** They are exactly those that hold an address of [vaddr, vaddr + memsz). */
  lemma CoversExactly(ph: Phdr, va: nat)
    requires Sane(ph)
    ensures Covers(ph, va) <==>
            exists a: nat :: ph.vaddr <= a < ph.vaddr + ph.memsz && a / PAGE_SIZE == va / PAGE_SIZE
  {
    var k := va / PAGE_SIZE;
    if Covers(ph, va) {
      var a := if k * PAGE_SIZE < ph.vaddr then ph.vaddr else k * PAGE_SIZE;
      assert ph.vaddr <= a < ph.vaddr + ph.memsz && a / PAGE_SIZE == k;
    }
    if a: nat :| ph.vaddr <= a < ph.vaddr + ph.memsz && a / PAGE_SIZE == k {
      assert ph.vaddr / PAGE_SIZE <= k && a + 1 <= ph.vaddr + ph.memsz;
    }
  }

  lemma CoveredIsLower(ph: Phdr, p: Path)
    requires Sane(ph) && CoversPath(ph, p)
    ensures p.i4 < 256
  {
    hide PathOfPage;
    SpanInLowerHalf(ph);
    var ps := PathsFrom(FirstPage(ph), PageSpan(ph));
    var i :| 0 <= i < PageSpan(ph) && ps[i] == p;
    PageIsLower(FirstPage(ph) + i);
  }

  lemma PageIsLower(k: nat)
    requires k < PAGES / 2
    ensures PathOfPage(k).i4 < 256
  {
  }

  /** Covered pages of r carry the segment's rights; all other leaves, of any space and anywhere, are untouched. */
  ghost predicate MapsSegment(m: Tables, n: Tables, r: nat, ph: Phdr)
    requires Sane(ph)
  {
    forall q, p :: Root(m, q) ==>
      if q == r && CoversPath(ph, p)
      then Leaf(n, q, p).Some? && AsAsked(Leaf(n, q, p).value.flags, ph.flags)
      else Leaf(n, q, p) == Leaf(m, q, p)
  }

  lemma SegmentByteRead(s: Memory, n: Memory, r: nat, file: seq<Byte>, ph: Phdr, va: nat)
    requires Sane(ph) && InFile(ph, file) && ph.memsz > 0 && va < LOWER_END && Root(s.tables, r)
    requires WellFormed(s) && WellFormed(n)
    requires var ps := PathsFrom(FirstPage(ph), PageSpan(ph));
             RangeFilled(s, n, r, ps, Images(ph, file), PageSpan(ph), ElfFlags(ph.flags))
    requires forall p :: Leaf(s.tables, r, p).Some? && p.i4 < 256 ==> Leaf(s.tables, r, p).value.frame in s.data
    ensures ReadByte(n, r, va) == if Covers(ph, va) then Some(SegmentByte(ph, file, va)) else ReadByte(s, r, va)
  {
    hide Leaf;
    hide PathOf;
    hide PathOfPage;
    hide Forest;
    hide SegmentByte;
    PageOfAddress(ph, va);
    LowerPath(va);
    var ps := PathsFrom(FirstPage(ph), PageSpan(ph));
    if Covers(ph, va) {
      var i := va / PAGE_SIZE - FirstPage(ph);
      assert Leaf(n.tables, r, ps[i]) == Some(Entry(FrameAt(n.tables, r, ps[i]), ElfFlags(ph.flags)));
      assert va == (FirstPage(ph) + i) * PAGE_SIZE + va % PAGE_SIZE;
      assert Images(ph, file)[i] == PageImage(ph, file, FirstPage(ph) + i);
    } else {
      assert Leaf(n.tables, r, PathOf(va)) == Leaf(s.tables, r, PathOf(va));
    }
  }

  lemma SegmentLeaf(s: Memory, n: Memory, r: nat, img: seq<seq<Byte>>, ph: Phdr, q: nat, p: Path)
    requires Sane(ph) && ph.memsz > 0 && Root(s.tables, q) && |img| == PageSpan(ph)
    requires RangeFilled(s, n, r, PathsFrom(FirstPage(ph), PageSpan(ph)), img, PageSpan(ph), ElfFlags(ph.flags))
    ensures if q == r && CoversPath(ph, p)
            then Leaf(n.tables, q, p).Some? && AsAsked(Leaf(n.tables, q, p).value.flags, ph.flags)
            else Leaf(n.tables, q, p) == Leaf(s.tables, q, p)
  {
    FlagsAsAsked(ph.flags);
    hide AsAsked;
    hide ElfFlags;
    hide Leaf;
    hide PathOfPage;
    hide Forest;
    hide FirstPage;
    hide PageSpan;
    if CoversPath(ph, p) {
      CoveredIsLower(ph, p);
      var ps := PathsFrom(FirstPage(ph), PageSpan(ph));
      var i :| 0 <= i < PageSpan(ph) && ps[i] == p;
      assert Leaf(n.tables, r, ps[i]) == Some(Entry(FrameAt(n.tables, r, ps[i]), ElfFlags(ph.flags)));
    }
  }

  /** The pages elf_map_segment maps. */
  function SegmentPaths(ph: Phdr): (ps: seq<Path>)
    requires Sane(ph)
  {
    if ph.memsz == 0 then [] else PathsFrom(FirstPage(ph), PageSpan(ph))
  }

  /** The tables a segment needs, and those and its data frames together. */
  function SegmentNeeds(m: Tables, r: nat, ph: Phdr): (s: set<Place>)
    requires Sane(ph)
  {
    NeedsOf(m, r, SegmentPaths(ph), |SegmentPaths(ph)|)
  }

  function SegmentDemand(m: Tables, r: nat, ph: Phdr): (n: nat)
    requires Sane(ph)
  {
    |SegmentPaths(ph)| + |SegmentNeeds(m, r, ph)|
  }

  /** Every lower-half page of r is mapped to a data frame. */
  ghost predicate DataBacked(s: Memory, r: nat) {
    forall p :: Leaf(s.tables, r, p).Some? && p.i4 < 256 ==> Leaf(s.tables, r, p).value.frame in s.data
  }

  /**
   elf_map_segment produces the segment's image: file bytes where the file reaches, zero in the rest
   of the covered pages, the segment's rights on every page, and nothing else changed anywhere.
   */
  lemma SegmentImage(s: Memory, r: nat, file: seq<Byte>, ph: Phdr)
    requires WellFormed(s) && Root(s.tables, r) && DataBacked(s, r)
    requires Sane(ph) && (ph.filesz == 0 || ph.offset + ph.filesz <= |file|)
    requires |s.pool.free| >= SegmentDemand(s.tables, r, ph)
    ensures InFile(ph, file)
    ensures var (n, ok) := MapSegment(s, r, file, ph);
            && ok && WellFormed(n) && Root(n.tables, r) && DataBacked(n, r)
            && ShowsSegment(s, n, r, file, ph) && MapsSegment(s.tables, n.tables, r, ph)
            && (forall f :: f in s.data ==> f in n.data && n.data[f] == s.data[f])
            && |n.pool.free| == |s.pool.free| - SegmentDemand(s.tables, r, ph)
            && Made(s.tables, n.tables, r, SegmentNeeds(s.tables, r, ph))
  {
    hide Leaf;
    hide PathOf;
    hide PathOfPage;
    hide Forest;
    hide SegmentByte;
    hide FillPages;
    hide Backed;
    hide OthersKept;
    hide ReadByte;
    hide Made;
    hide Needs;
    var n := MapSegment(s, r, file, ph).0;
    if ph.memsz == 0 {
      MadeNothing(s.tables, r);
    } else {
      var ps, img, flags := PathsFrom(FirstPage(ph), PageSpan(ph)), Images(ph, file), ElfFlags(ph.flags);
      SpanInLowerHalf(ph);
      RangesAreDistinct(FirstPage(ph), PageSpan(ph));
      FillRange(s, r, ps, img, PageSpan(ph), flags);
      forall va | 0 <= va < LOWER_END
        ensures ReadByte(n, r, va) == if Covers(ph, va) then Some(SegmentByte(ph, file, va)) else ReadByte(s, r, va)
      {
        SegmentByteRead(s, n, r, file, ph, va);
      }
      forall q, p | Root(s.tables, q)
        ensures if q == r && CoversPath(ph, p)
                then Leaf(n.tables, q, p).Some? && AsAsked(Leaf(n.tables, q, p).value.flags, ph.flags)
                else Leaf(n.tables, q, p) == Leaf(s.tables, q, p)
      {
        SegmentLeaf(s, n, r, img, ph, q, p);
      }
      StaysDataBacked(s, n, r, ps, img, flags);
    }
  }

  lemma StaysDataBacked(s: Memory, n: Memory, r: nat, ps: seq<Path>, img: seq<seq<Byte>>, flags: Flags)
    requires |ps| == |img| && Root(s.tables, r) && DataBacked(s, r) && RangeFilled(s, n, r, ps, img, |ps|, flags)
    ensures DataBacked(n, r)
  {
    hide Leaf;
    hide Forest;
    forall p | Leaf(n.tables, r, p).Some? && p.i4 < 256
      ensures Leaf(n.tables, r, p).value.frame in n.data
    {
      if InFirst(p, ps, |ps|) {
        var i :| 0 <= i < |ps| && ps[i] == p;
        assert FrameAt(n.tables, r, ps[i]) in n.data;
      }
    }
  }

  // ---------------------------------------------------------------- the whole program

  /** The data frames and the tables that loading the first c headers takes. */
  function TotalPages(phs: seq<Phdr>, c: nat): (n: nat)
    requires c <= |phs| && forall i :: 0 <= i < |phs| ==> Sane(phs[i])
  {
    if c == 0 then 0
    else TotalPages(phs, c - 1) + (if phs[c - 1].kind == PT_LOAD then |SegmentPaths(phs[c - 1])| else 0)
  }

  function TotalNeeds(m: Tables, r: nat, phs: seq<Phdr>, c: nat): (s: set<Place>)
    requires c <= |phs| && forall i :: 0 <= i < |phs| ==> Sane(phs[i])
  {
    if c == 0 then {}
    else TotalNeeds(m, r, phs, c - 1) + (if phs[c - 1].kind == PT_LOAD then SegmentNeeds(m, r, phs[c - 1]) else {})
  }

  function TotalDemand(m: Tables, r: nat, phs: seq<Phdr>, c: nat): (n: nat)
    requires c <= |phs| && forall i :: 0 <= i < |phs| ==> Sane(phs[i])
  {
    TotalPages(phs, c) + |TotalNeeds(m, r, phs, c)|
  }

  /** What the next segment needs once the earlier ones are loaded, added to what those needed. */
  lemma TotalDemandGrows(m: Tables, n: Tables, r: nat, phs: seq<Phdr>, c: nat)
    requires c < |phs| && phs[c].kind == PT_LOAD && forall i :: 0 <= i < |phs| ==> Sane(phs[i])
    requires Made(m, n, r, TotalNeeds(m, r, phs, c))
    ensures TotalDemand(m, r, phs, c + 1) == TotalDemand(m, r, phs, c) + SegmentDemand(n, r, phs[c])
    ensures TotalNeeds(m, r, phs, c + 1) == TotalNeeds(m, r, phs, c) + SegmentNeeds(n, r, phs[c])
  {
    hide SegmentPaths;
    hide NeedsOf;
    hide Made;
    hide Sane;
    var ps := SegmentPaths(phs[c]);
    var a, b := TotalNeeds(m, r, phs, c), SegmentNeeds(m, r, phs[c]);
    NeedsOfAfter(m, n, r, a, ps, |ps|);
    UnionCount(a, b);
    assert a + (b - a) == a + b;
  }

  /** s shows r exactly the image of the first c headers in the lower half, nothing where there is none. */
  ghost predicate ShowsImage(s: Memory, r: nat, file: seq<Byte>, phs: seq<Phdr>, c: nat)
    requires c <= |phs| && forall i :: 0 <= i < |phs| ==> Sane(phs[i]) && InFile(phs[i], file)
  {
    forall va :: 0 <= va < LOWER_END ==> ReadByte(s, r, va) == ImageAt(phs, file, c, va)
  }

  ghost predicate LowerHalfEmpty(s: Memory, r: nat) {
    forall p: Path :: p.i4 < 256 ==> Leaf(s.tables, r, p) == None
  }

  /** The other spaces keep every translation, r its upper half, and all data frames their contents. */
  ghost predicate Undisturbed(s: Memory, n: Memory, r: nat) {
    && (forall q, p: Path ::
          Root(s.tables, q) && (q != r || p.i4 >= 256) ==> Leaf(n.tables, q, p) == Leaf(s.tables, q, p))
    && (forall f :: f in s.data ==> f in n.data && n.data[f] == s.data[f])
    && (forall q :: Root(s.tables, q) ==> Root(n.tables, q))
  }

  lemma UndisturbedStep(s: Memory, m: Memory, n: Memory, r: nat, ph: Phdr)
    requires Sane(ph) && Undisturbed(s, m, r) && MapsSegment(m.tables, n.tables, r, ph)
    requires forall f :: f in m.data ==> f in n.data && n.data[f] == m.data[f]
    requires Grows(m.tables, n.tables)
    ensures Undisturbed(s, n, r)
  {
    hide Leaf;
    hide CoversPath;
    forall q, p: Path | Root(s.tables, q) && (q != r || p.i4 >= 256)
      ensures Leaf(n.tables, q, p) == Leaf(s.tables, q, p)
    {
      if CoversPath(ph, p) {
        CoveredIsLower(ph, p);
      }
    }
  }

  lemma MapSegmentGrows(s: Memory, r: nat, file: seq<Byte>, ph: Phdr)
    requires WellFormed(s) && Root(s.tables, r) && Sane(ph) && InFile(ph, file)
    requires |s.pool.free| >= SegmentDemand(s.tables, r, ph)
    ensures Grows(s.tables, MapSegment(s, r, file, ph).0.tables)
  {
    hide Leaf;
    hide PathOfPage;
    hide Forest;
    hide FillPages;
    hide Backed;
    hide OthersKept;
    hide Filled;
    if ph.memsz > 0 {
      SpanInLowerHalf(ph);
      RangesAreDistinct(FirstPage(ph), PageSpan(ph));
      FillRange(s, r, PathsFrom(FirstPage(ph), PageSpan(ph)), Images(ph, file), PageSpan(ph), ElfFlags(ph.flags));
    }
  }

  lemma ShowsImageStep(m: Memory, n: Memory, r: nat, file: seq<Byte>, phs: seq<Phdr>, c: nat)
    requires 0 < c <= |phs| && forall i :: 0 <= i < |phs| ==> Sane(phs[i]) && InFile(phs[i], file)
    requires phs[c - 1].kind == PT_LOAD
    requires ShowsImage(m, r, file, phs, c - 1) && ShowsSegment(m, n, r, file, phs[c - 1])
    ensures ShowsImage(n, r, file, phs, c)
  {
    hide ReadByte;
    hide SegmentByte;
    hide Covers;
  }

  /** n is s with the first c headers loaded into r, at the price of exactly their demand. */
  ghost predicate Loaded(s: Memory, n: Memory, r: nat, file: seq<Byte>, phs: seq<Phdr>, c: nat)
    requires c <= |phs| && forall i :: 0 <= i < |phs| ==> Sane(phs[i]) && InFile(phs[i], file)
  {
    && WellFormed(n) && Root(n.tables, r) && DataBacked(n, r)
    && ShowsImage(n, r, file, phs, c)
    && Undisturbed(s, n, r)
    && |n.pool.free| == |s.pool.free| - TotalDemand(s.tables, r, phs, c)
    && Made(s.tables, n.tables, r, TotalNeeds(s.tables, r, phs, c))
  }

  lemma LoadedStep(s: Memory, m: Memory, r: nat, file: seq<Byte>, phs: seq<Phdr>, c: nat)
    requires c < |phs| && forall i :: 0 <= i < |phs| ==> Sane(phs[i]) && InFile(phs[i], file)
    requires phs[c].kind == PT_LOAD && Loaded(s, m, r, file, phs, c)
    requires |s.pool.free| >= TotalDemand(s.tables, r, phs, c + 1)
    ensures var (n, ok) := MapSegment(m, r, file, phs[c]); ok && Loaded(s, n, r, file, phs, c + 1)
  {
    hide Leaf;
    hide PathOf;
    hide Forest;
    hide ShowsImage;
    hide ShowsSegment;
    hide MapsSegment;
    hide MapSegment;
    hide Undisturbed;
    hide DataBacked;
    hide PageSpan;
    hide Grows;
    hide Made;
    hide SegmentNeeds;
    hide SegmentDemand;
    hide TotalDemand;
    hide TotalNeeds;
    hide Sane;
    TotalDemandGrows(s.tables, m.tables, r, phs, c);
    SegmentImage(m, r, file, phs[c]);
    MapSegmentGrows(m, r, file, phs[c]);
    var n := MapSegment(m, r, file, phs[c]).0;
    MadeTwice(s.tables, m.tables, n.tables, r, TotalNeeds(s.tables, r, phs, c), SegmentNeeds(m.tables, r, phs[c]));
    ShowsImageStep(m, n, r, file, phs, c + 1);
    UndisturbedStep(s, m, n, r, phs[c]);
  }

  lemma SkippedStep(s: Memory, m: Memory, r: nat, file: seq<Byte>, phs: seq<Phdr>, c: nat)
    requires c < |phs| && forall i :: 0 <= i < |phs| ==> Sane(phs[i]) && InFile(phs[i], file)
    requires phs[c].kind != PT_LOAD && Loaded(s, m, r, file, phs, c)
    ensures Loaded(s, m, r, file, phs, c + 1)
  {
    hide ShowsImage;
    hide Undisturbed;
    hide DataBacked;
    hide WellFormed;
    SkippedHeader(m, r, file, phs, c + 1);
    assert TotalNeeds(s.tables, r, phs, c + 1) == TotalNeeds(s.tables, r, phs, c);
  }

  /**
   Loading every PT_LOAD segment into an empty lower half leaves exactly the image the program headers
   describe: each address reads the byte of the last segment covering its page, addresses that no
   segment covers are unmapped, and no other space or data frame is disturbed.
   */
  lemma {:induction false} ProgramImage(s: Memory, r: nat, file: seq<Byte>, phs: seq<Phdr>, c: nat)
    requires WellFormed(s) && Root(s.tables, r) && LowerHalfEmpty(s, r) && c <= |phs|
    requires forall i :: 0 <= i < |phs| ==> Sane(phs[i]) && InFile(phs[i], file)
    requires |s.pool.free| >= TotalDemand(s.tables, r, phs, c)
    ensures var (n, ok) := LoadSegments(s, r, file, phs, c); ok && Loaded(s, n, r, file, phs, c)
  {
    hide MapSegment;
    hide Loaded;
    hide TotalDemand;
    hide Sane;
    hide InFile;
    if c == 0 {
      NothingLoaded(s, r, file, phs);
    } else {
      TotalDemandMonotone(s.tables, r, phs, c - 1);
      ProgramImage(s, r, file, phs, c - 1);
      var m := LoadSegments(s, r, file, phs, c - 1).0;
      if phs[c - 1].kind == PT_LOAD {
        LoadedStep(s, m, r, file, phs, c - 1);
      } else {
        SkippedStep(s, m, r, file, phs, c - 1);
      }
    }
  }

  lemma TotalDemandMonotone(m: Tables, r: nat, phs: seq<Phdr>, c: nat)
    requires c < |phs| && forall i :: 0 <= i < |phs| ==> Sane(phs[i])
    ensures TotalDemand(m, r, phs, c) <= TotalDemand(m, r, phs, c + 1)
  {
    hide SegmentNeeds;
    hide SegmentPaths;
    hide Sane;
    UnionCount(TotalNeeds(m, r, phs, c), if phs[c].kind == PT_LOAD then SegmentNeeds(m, r, phs[c]) else {});
  }

  lemma NothingLoaded(s: Memory, r: nat, file: seq<Byte>, phs: seq<Phdr>)
    requires WellFormed(s) && Root(s.tables, r) && LowerHalfEmpty(s, r)
    requires forall i :: 0 <= i < |phs| ==> Sane(phs[i]) && InFile(phs[i], file)
    ensures Loaded(s, s, r, file, phs, 0)
  {
    hide Leaf;
    hide PathOf;
    hide Forest;
    MadeNothing(s.tables, r);
    forall va | 0 <= va < LOWER_END
      ensures ReadByte(s, r, va) == None
    {
      LowerPath(va);
    }
  }

  lemma SkippedHeader(m: Memory, r: nat, file: seq<Byte>, phs: seq<Phdr>, c: nat)
    requires 0 < c <= |phs| && forall i :: 0 <= i < |phs| ==> Sane(phs[i]) && InFile(phs[i], file)
    requires phs[c - 1].kind != PT_LOAD && ShowsImage(m, r, file, phs, c - 1)
    ensures ShowsImage(m, r, file, phs, c)
  {
    hide ReadByte;
  }

  /** When no two segments share a page, every segment reads back whole. */
  lemma {:induction false} DisjointSegmentsIntact(phs: seq<Phdr>, file: seq<Byte>, c: nat, i: nat, va: nat)
    requires i < c <= |phs| && forall j :: 0 <= j < |phs| ==> Sane(phs[j]) && InFile(phs[j], file)
    requires phs[i].kind == PT_LOAD && Covers(phs[i], va)
    requires forall j :: 0 <= j < |phs| && j != i && phs[j].kind == PT_LOAD ==> !Covers(phs[j], va)
    ensures ImageAt(phs, file, c, va) == Some(SegmentByte(phs[i], file, va))
  {
    hide SegmentByte;
    hide Covers;
    if i < c - 1 {
      DisjointSegmentsIntact(phs, file, c - 1, i, va);
    }
  }

  /** The bytes of the file that a segment names are all inside its pages, if it is no larger in the file. */
  lemma FileBytesCovered(ph: Phdr, file: seq<Byte>, k: nat)
    requires Sane(ph) && InFile(ph, file) && ph.filesz <= ph.memsz && k < ph.memsz
    ensures Covers(ph, ph.vaddr + k)
    ensures SegmentByte(ph, file, ph.vaddr + k) == if k < ph.filesz then file[ph.offset + k] else 0
  {
  }

  // ---------------------------------------------------------------- rights

  /** What the processor grants a process on a page of a segment that asks for pf. */
  function Granted(pf: bv32): (r: Rights) {
    Rights(Writable(pf), true, Executable(pf))
  }

  lemma FillKeepsZones(s: Memory, k: nat, r: nat, p: Path, bytes: seq<Byte>, flags: Flags)
    requires WellFormed(s) && Root(s.tables, r) && Zoned(s.tables, k) && r != k && p.i4 < 256 && flags.user
    ensures Zoned(FillPage(s, r, p, bytes, flags).0.tables, k)
  {
    hide Zoned;
    hide Map;
    hide Forest;
    hide Take;
    if s.pool.free != {} {
      TakenIsData(s);
      var (pool, f) := Take(s.pool);
      MapKeepsZones(s.(pool := pool, data := s.data[f := Zeros(PAGE_SIZE)]), k, r, p, f, flags);
    }
  }

  lemma {:induction false} FillsKeepZones(s: Memory, k: nat, r: nat, ps: seq<Path>, img: seq<seq<Byte>>, c: nat,
                                          flags: Flags)
    requires WellFormed(s) && Root(s.tables, r) && Zoned(s.tables, k) && r != k && flags.user && c <= |ps| == |img|
    requires forall i :: 0 <= i < |ps| ==> ps[i].i4 < 256 && |img[i]| == PAGE_SIZE
    ensures var n := FillPages(s, r, ps, img, c, flags).0;
            WellFormed(n) && Root(n.tables, r) && Zoned(n.tables, k)
  {
    hide Zoned;
    hide AllocMap;
    hide Forest;
    hide Grows;
    if c > 0 {
      FillsKeepZones(s, k, r, ps, img, c - 1, flags);
      var (m, ok) := FillPages(s, r, ps, img, c - 1, flags);
      FillKeepsZones(m, k, r, ps[c - 1], img[c - 1], flags);
      AllocMapKeeps(m, r, ps[c - 1], flags);
      if ok && m.pool.free != {} {
        FillKeeps(m, r, ps[c - 1], img[c - 1], flags);
        RootStays(m.tables, AllocMap(m, r, ps[c - 1], flags).0.tables, r);
      }
    }
  }

  lemma SegmentKeepsZones(s: Memory, k: nat, r: nat, file: seq<Byte>, ph: Phdr)
    requires WellFormed(s) && Root(s.tables, r) && Zoned(s.tables, k) && r != k && Sane(ph) && InFile(ph, file)
    ensures Zoned(MapSegment(s, r, file, ph).0.tables, k)
  {
    hide Zoned;
    hide FillPages;
    hide PathOfPage;
    hide Forest;
    if ph.memsz > 0 {
      var ps := PathsFrom(FirstPage(ph), PageSpan(ph));
      SpanInLowerHalf(ph);
      forall i | 0 <= i < |ps|
        ensures ps[i].i4 < 256
      {
        PageIsLower(FirstPage(ph) + i);
      }
      FillsKeepZones(s, k, r, ps, Images(ph, file), PageSpan(ph), ElfFlags(ph.flags));
    }
  }

  /** In a process, every page of a segment can be read, and written or executed exactly as its p_flags say. */
  lemma SegmentRights(s: Memory, k: nat, r: nat, file: seq<Byte>, ph: Phdr, p: Path)
    requires WellFormed(s) && Root(s.tables, r) && DataBacked(s, r) && Zoned(s.tables, k) && r != k
    requires Sane(ph) && InFile(ph, file) && |s.pool.free| >= SegmentDemand(s.tables, r, ph) && CoversPath(ph, p)
    ensures var n := MapSegment(s, r, file, ph).0;
            && Forest(n.tables) && Root(n.tables, r)
            && Effective(n.tables, r, p) == Some(Granted(ph.flags))
  {
    hide Zoned;
    hide MapSegment;
    hide Leaf;
    hide Effective;
    hide Forest;
    hide ShowsSegment;
    hide Made;
    hide SegmentDemand;
    hide SegmentNeeds;
    hide CoversPath;
    hide Writable;
    hide Executable;
    SegmentImage(s, r, file, ph);
    SegmentKeepsZones(s, k, r, file, ph);
    ZonedRights(MapSegment(s, r, file, ph).0.tables, k, r, p);
  }

  /** What the last of the first c segments that covers page p asks for. */
  ghost function AskedAt(phs: seq<Phdr>, c: nat, p: Path): (a: Option<bv32>)
    requires c <= |phs| && forall i :: 0 <= i < c ==> Sane(phs[i])
  {
    if c == 0 then None
    else if phs[c - 1].kind == 1 && CoversPath(phs[c - 1], p) then Some(phs[c - 1].flags)
    else AskedAt(phs, c - 1, p)
  }

  /** The lower half of r is mapped as the first c headers ask, and nowhere else. */
  ghost predicate MappedAsAsked(m: Tables, r: nat, phs: seq<Phdr>, c: nat)
    requires c <= |phs| && forall i :: 0 <= i < |phs| ==> Sane(phs[i])
  {
    forall p: Path :: p.i4 < 256 ==>
      var a := AskedAt(phs, c, p);
      if a.None? then Leaf(m, r, p) == None else Leaf(m, r, p).Some? && AsAsked(Leaf(m, r, p).value.flags, a.value)
  }

  lemma MappedStep(m: Tables, n: Tables, r: nat, phs: seq<Phdr>, c: nat)
    requires c < |phs| && (forall i :: 0 <= i < |phs| ==> Sane(phs[i])) && Root(m, r)
    requires MappedAsAsked(m, r, phs, c)
    requires if phs[c].kind == PT_LOAD then MapsSegment(m, n, r, phs[c]) else n == m
    ensures MappedAsAsked(n, r, phs, c + 1)
  {
    hide Leaf;
    hide CoversPath;
    hide AsAsked;
    hide Sane;
  }

  lemma {:induction false} ProgramMapped(s: Memory, k: nat, r: nat, file: seq<Byte>, phs: seq<Phdr>, c: nat)
    requires WellFormed(s) && Root(s.tables, r) && LowerHalfEmpty(s, r) && c <= |phs| && Zoned(s.tables, k) && r != k
    requires forall i :: 0 <= i < |phs| ==> Sane(phs[i]) && InFile(phs[i], file)
    requires |s.pool.free| >= TotalDemand(s.tables, r, phs, c)
    ensures var n := LoadSegments(s, r, file, phs, c).0;
            WellFormed(n) && Root(n.tables, r) && Zoned(n.tables, k) && MappedAsAsked(n.tables, r, phs, c)
  {
    hide Zoned;
    hide MapSegment;
    hide MappedAsAsked;
    hide TotalDemand;
    hide Sane;
    hide InFile;
    hide Forest;
    hide ShowsImage;
    hide Undisturbed;
    hide DataBacked;
    hide Made;
    hide TotalNeeds;
    ProgramImage(s, r, file, phs, c);
    if c == 0 {
      EmptyAsAsked(s, r, phs);
    } else {
      TotalDemandMonotone(s.tables, r, phs, c - 1);
      ProgramMapped(s, k, r, file, phs, c - 1);
      ProgramImage(s, r, file, phs, c - 1);
      var m := LoadSegments(s, r, file, phs, c - 1).0;
      if phs[c - 1].kind == PT_LOAD {
        NextSegmentMaps(s, m, r, file, phs, c - 1);
        SegmentKeepsZones(m, k, r, file, phs[c - 1]);
      }
      MappedStep(m.tables, LoadSegments(s, r, file, phs, c).0.tables, r, phs, c - 1);
    }
  }

  lemma EmptyAsAsked(s: Memory, r: nat, phs: seq<Phdr>)
    requires LowerHalfEmpty(s, r) && forall i :: 0 <= i < |phs| ==> Sane(phs[i])
    ensures MappedAsAsked(s.tables, r, phs, 0)
  {
  }

  lemma NextSegmentMaps(s: Memory, m: Memory, r: nat, file: seq<Byte>, phs: seq<Phdr>, c: nat)
    requires c < |phs| && forall i :: 0 <= i < |phs| ==> Sane(phs[i]) && InFile(phs[i], file)
    requires phs[c].kind == PT_LOAD && Loaded(s, m, r, file, phs, c)
    requires |s.pool.free| >= TotalDemand(s.tables, r, phs, c + 1)
    ensures MapsSegment(m.tables, MapSegment(m, r, file, phs[c]).0.tables, r, phs[c])
  {
    hide Leaf;
    hide Forest;
    hide ShowsImage;
    hide ShowsSegment;
    hide MapsSegment;
    hide MapSegment;
    hide Undisturbed;
    hide DataBacked;
    hide Made;
    hide SegmentNeeds;
    hide SegmentDemand;
    hide TotalDemand;
    hide TotalNeeds;
    hide Sane;
    TotalDemandGrows(s.tables, m.tables, r, phs, c);
    SegmentImage(m, r, file, phs[c]);
  }

  /**
   Over the whole program: a lower-half page can be used exactly if some segment covers it, and then written or
   executed exactly as the last such segment asks.
   */
  lemma ProgramRights(s: Memory, k: nat, r: nat, file: seq<Byte>, phs: seq<Phdr>, p: Path)
    requires WellFormed(s) && Root(s.tables, r) && LowerHalfEmpty(s, r) && Zoned(s.tables, k) && r != k && p.i4 < 256
    requires forall i :: 0 <= i < |phs| ==> Sane(phs[i]) && InFile(phs[i], file)
    requires |s.pool.free| >= TotalDemand(s.tables, r, phs, |phs|)
    ensures var n := LoadSegments(s, r, file, phs, |phs|).0;
            var a := AskedAt(phs, |phs|, p);
            && Forest(n.tables) && Root(n.tables, r)
            && Effective(n.tables, r, p) == if a.None? then None else Some(Granted(a.value))
  {
    hide Zoned;
    hide LoadSegments;
    hide Leaf;
    hide AskedAt;
    hide TotalDemand;
    hide Sane;
    hide InFile;
    hide Writable;
    hide Executable;
    ProgramMapped(s, k, r, file, phs, |phs|);
    var n := LoadSegments(s, r, file, phs, |phs|).0;
    if Leaf(n.tables, r, p).Some? {
      ZonedRights(n.tables, k, r, p);
    }
  }

  // ---------------------------------------------------------------- the loader

  /** The clipped copy of one round: the overlap of [vaddr, vaddr + filesz) with the page, over a zeroed page. */
  method CopyIntoPage(file: seq<Byte>, ph: Phdr, page: nat) returns (bytes: seq<Byte>)
    requires InFile(ph, file)
    ensures bytes == PageImage(ph, file, page)
  {
    var pageStart := page * PAGE_SIZE;
    var pageEnd := pageStart + PAGE_SIZE;
    var segEnd := ph.vaddr + ph.filesz;
    var copyStart := if ph.vaddr > pageStart then ph.vaddr else pageStart;
    var copyEnd := if segEnd < pageEnd then segEnd else pageEnd;
    bytes := Zeros(PAGE_SIZE);
    if copyStart < copyEnd && copyStart < segEnd {
      var dst := copyStart - pageStart;
      var src := ph.offset + (copyStart - ph.vaddr);
      var len := copyEnd - copyStart;
      bytes := bytes[..dst] + file[src..src + len] + bytes[dst + len..];
    }
    forall o | 0 <= o < PAGE_SIZE
      ensures bytes[o] == SegmentByte(ph, file, pageStart + o)
    {
      var va := pageStart + o;
      if va < ph.vaddr || segEnd <= va {
        assert bytes[o] == 0;
      } else {
        var dst := copyStart - pageStart;
        assert bytes[o] == file[ph.offset + (copyStart - ph.vaddr) + (o - dst)];
      }
    }
  }

  lemma {:induction false} FillFailureSticks(s: Memory, r: nat, ps: seq<Path>, img: seq<seq<Byte>>, i: nat, c: nat,
                                             flags: Flags)
    requires ValidPool(s.pool) && i <= c <= |ps| == |img| && !FillPages(s, r, ps, img, i, flags).1
    ensures FillPages(s, r, ps, img, c, flags) == FillPages(s, r, ps, img, i, flags)
    decreases c
  {
    if i < c {
      FillFailureSticks(s, r, ps, img, i, c - 1, flags);
    }
  }

  method FillPageInto(mm: Mm, root: nat, file: seq<Byte>, ph: Phdr, page: nat) returns (ok: bool)
    requires mm.Valid() && Root(mm.tables, root) && InFile(ph, file) && page * PAGE_SIZE < TWO64
    modifies mm`tables, mm`data, mm.pmm, mm.pmm.bitmap
    ensures mm.Valid() && Root(mm.tables, root) && ValidPool(old(mm.State()).pool)
    ensures (mm.State(), ok) ==
            FillPage(old(mm.State()), root, PathOfPage(page), PageImage(ph, file, page), ElfFlags(ph.flags))
  {
    hide PathOf;
    hide PathOfPage;
    hide AllocMap;
    hide Forest;
    hide FreeIn;
    hide PhysicalFrames.Valid;
    hide SegmentByte;
    PathOfAddress(page * PAGE_SIZE);
    AllocMapKeeps(mm.State(), root, PathOfPage(page), ElfFlags(ph.flags));
    var phys := mm.AllocMapPage(root, page * PAGE_SIZE, ElfFlags(ph.flags));
    if phys == 0 {
      return false;
    }
    var bytes := CopyIntoPage(file, ph, page);
    mm.data := mm.data[phys / PAGE_SIZE := bytes];
    ok := true;
  }

  /** elf_map_segment. */
  method MapSegmentInto(mm: Mm, root: nat, file: seq<Byte>, ph: Phdr) returns (ok: bool)
    requires mm.Valid() && Root(mm.tables, root) && Sane(ph)
    modifies mm`tables, mm`data, mm.pmm, mm.pmm.bitmap
    ensures mm.Valid() && Root(mm.tables, root) && ValidPool(old(mm.State()).pool)
    ensures (mm.State(), ok) == MapSegment(old(mm.State()), root, file, ph)
    ensures ph.memsz == 0 ==> ok && mm.State() == old(mm.State())
    ensures ph.memsz != 0 && ph.filesz != 0 && ph.offset + ph.filesz > |file| ==> !ok && mm.State() == old(mm.State())
  {
    hide PathOfPage;
    hide FillPage;
    hide Forest;
    hide FreeIn;
    hide PhysicalFrames.Valid;
    hide SegmentByte;
    if ph.memsz == 0 {
      return true;
    }
    if ph.filesz > 0 && ph.offset + ph.filesz > |file| {
      return false;
    }
    var pages := PageSpan(ph);
    SpanInLowerHalf(ph);
    ghost var s := mm.State();
    ghost var ps, img, flags := PathsFrom(FirstPage(ph), pages), Images(ph, file), ElfFlags(ph.flags);
    var i := 0;
    while i < pages
      invariant i <= pages && mm.Valid() && Root(mm.tables, root)
      invariant (mm.State(), true) == FillPages(s, root, ps, img, i, flags)
    {
      ok := FillPageInto(mm, root, file, ph, FirstPage(ph) + i);
      i := i + 1;
      if !ok {
        FillFailureSticks(s, root, ps, img, i, pages, flags);
        return false;
      }
    }
    ok := true;
  }

  /** The PT_LOAD loop of elf_load. */
  method LoadInto(mm: Mm, root: nat, file: seq<Byte>, phs: seq<Phdr>) returns (ok: bool)
    requires mm.Valid() && Root(mm.tables, root) && forall i :: 0 <= i < |phs| ==> Sane(phs[i])
    modifies mm`tables, mm`data, mm.pmm, mm.pmm.bitmap
    ensures mm.Valid() && Root(mm.tables, root) && ValidPool(old(mm.State()).pool)
    ensures (mm.State(), ok) == LoadSegments(old(mm.State()), root, file, phs, |phs|)
  {
    hide MapSegment;
    hide Forest;
    hide FreeIn;
    hide Sane;
    ghost var s := mm.State();
    var i := 0;
    while i < |phs|
      invariant i <= |phs| && mm.Valid() && Root(mm.tables, root)
      invariant ValidPool(s.pool) && (mm.State(), true) == LoadSegments(s, root, file, phs, i)
    {
      i := i + 1;
      if phs[i - 1].kind == PT_LOAD {
        ok := MapSegmentInto(mm, root, file, phs[i - 1]);
        if !ok {
          LoadFailureSticks(s, root, file, phs, i, |phs|);
          return false;
        }
      }
    }
    ok := true;
  }

  lemma {:induction false} LoadFailureSticks(s: Memory, r: nat, file: seq<Byte>, phs: seq<Phdr>, i: nat, c: nat)
    requires ValidPool(s.pool) && i <= c <= |phs| && forall j :: 0 <= j < |phs| ==> Sane(phs[j])
    requires !LoadSegments(s, r, file, phs, i).1
    ensures LoadSegments(s, r, file, phs, c) == LoadSegments(s, r, file, phs, i)
    decreases c
  {
    hide MapSegment;
    hide Sane;
    if i < c {
      LoadFailureSticks(s, r, file, phs, i, c - 1);
    }
  }
}
