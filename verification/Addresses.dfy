/**
 Virtual addresses: the index macros, vmm_translate, and what vmm_map and vmm_unmap mean for
 addresses rather than paths.
 */
module Addresses {
  import opened Machine
  import opened PageTables

  const PAGES: nat := 0x10_0000_0000 // 2^36, the pages bits 47..12 can tell apart

  /** PML4_IDX, PDPT_IDX, PD_IDX and PT_IDX. */
  function PathOf(va: nat): (p: Path) {
    Path(va / 0x80_0000_0000 % 512, va / 0x4000_0000 % 512, va / 0x20_0000 % 512, va / 0x1000 % 512)
  }

  /** The path of page number k, and back. */
  function PathOfPage(k: nat): (p: Path) {
    Path(k / 0x800_0000 % 512, k / 0x4_0000 % 512, k / 0x200 % 512, k % 512)
  }

  function PageOfPath(p: Path): (k: nat) {
    p.i4 * 0x800_0000 + p.i3 * 0x4_0000 + p.i2 * 0x200 + p.i1
  }

  lemma PathOfAddress(va: nat)
    ensures PathOf(va) == PathOfPage(va / PAGE_SIZE)
  {
    assert va / PAGE_SIZE / 0x800_0000 == va / 0x80_0000_0000;
    assert va / PAGE_SIZE / 0x4_0000 == va / 0x4000_0000;
    assert va / PAGE_SIZE / 0x200 == va / 0x20_0000;
  }

  lemma PageOfPathInverse(p: Path)
    ensures PageOfPath(p) < PAGES && PathOfPage(PageOfPath(p)) == p
  {
    var k := PageOfPath(p);
    var b := p.i4 * 512 + p.i3;
    var a := b * 512 + p.i2;
    assert k == a * 512 + p.i1;
    Digit(a, p.i1);
    Digit(b, p.i2);
    Digit(p.i4, p.i3);
    DividedTwice(k);
    DividedTwice(a);
  }

  lemma Digit(hi: nat, lo: Index)
    ensures (hi * 512 + lo) / 512 == hi && (hi * 512 + lo) % 512 == lo
  {
  }

  lemma PathInverse(k: nat)
    ensures PageOfPath(PathOfPage(k)) == k % PAGES
  {
    var a, b, c := k / 0x200, k / 0x4_0000, k / 0x800_0000;
    DividedTwice(k);
    DividedTwice(a);
    var d := c / 0x200;
    var x := c % 0x200 * 0x800_0000 + b % 0x200 * 0x4_0000 + a % 0x200 * 0x200 + k % 0x200;
    assert k == d * PAGES + x;
    ResidueOf(d, x);
  }

  lemma DividedTwice(k: nat)
    ensures k / 0x200 / 0x200 == k / 0x4_0000 && k / 0x4_0000 / 0x200 == k / 0x800_0000
  {
  }

  lemma ResidueOf(d: nat, x: nat)
    requires x < PAGES
    ensures (d * PAGES + x) % PAGES == x
  {
  }

  /** Only bits 47..12 of an address are indexed: addresses share a path iff they agree there. */
  lemma SamePathIffSameBits(va: nat, vb: nat)
    ensures PathOf(va) == PathOf(vb) <==> va / PAGE_SIZE % PAGES == vb / PAGE_SIZE % PAGES
  {
    PathOfAddress(va);
    PathOfAddress(vb);
    PathInverse(va / PAGE_SIZE);
    PathInverse(vb / PAGE_SIZE);
    PageOfPathInverse(PathOf(va));
    PageOfPathInverse(PathOf(vb));
  }

  /** Distinct pages of a range have distinct paths, wherever in the 64-bit space it lies. */
  lemma PathsOfRangeDiffer(k: nat, i: nat, j: nat)
    requires i < j < PAGES
    ensures PathOfPage(k + i) != PathOfPage(k + j)
  {
    PathInverse(k + i);
    PathInverse(k + j);
    ResiduesDiffer(k + i, k + j);
  }

  lemma ResiduesDiffer(a: nat, b: nat)
    requires a < b < a + PAGES
    ensures a % PAGES != b % PAGES
  {
    assert a == a / PAGES * PAGES + a % PAGES && b == b / PAGES * PAGES + b % PAGES;
  }

  /** Wrapping a 64-bit address loses no indexed bit. */
  lemma PathOfWrapped(x: nat)
    ensures PathOf(Wrap64(x)) == PathOf(x)
  {
    var y, q := x % TWO64, x / TWO64;
    assert x == q * TWO64 + y;
    assert x / 0x80_0000_0000 == q * 0x1_0000 * 512 + y / 0x80_0000_0000;
    assert x / 0x4000_0000 == q * 0x200_0000 * 512 + y / 0x4000_0000;
    assert x / 0x20_0000 == q * 0x4_0000_0000 * 512 + y / 0x20_0000;
    assert x / 0x1000 == q * 0x800_0000_0000 * 512 + y / 0x1000;
    MultipleDropsOut(q * 0x1_0000, y / 0x80_0000_0000);
    MultipleDropsOut(q * 0x200_0000, y / 0x4000_0000);
    MultipleDropsOut(q * 0x4_0000_0000, y / 0x20_0000);
    MultipleDropsOut(q * 0x800_0000_0000, y / 0x1000);
  }

  lemma MultipleDropsOut(a: nat, b: nat)
    ensures (a * 512 + b) % 512 == b % 512
  {
  }

  /** Page i of a range, at the address the loops compute for it. */
  lemma PathInRange(virt: nat, i: nat)
    ensures PathOf(Wrap64(virt + i * PAGE_SIZE)) == PathOfPage(virt / PAGE_SIZE + i)
  {
    hide PathOf;
    hide PathOfPage;
    PathOfWrapped(virt + i * PAGE_SIZE);
    PathOfAddress(virt + i * PAGE_SIZE);
    assert (virt + i * PAGE_SIZE) / PAGE_SIZE == virt / PAGE_SIZE + i;
  }

  lemma OffsetInRange(virt: nat, i: nat)
    ensures Wrap64(virt + i * PAGE_SIZE) % PAGE_SIZE == virt % PAGE_SIZE
  {
    var x := virt + i * PAGE_SIZE;
    assert x == x / TWO64 * TWO64 + x % TWO64;
    assert x == virt / PAGE_SIZE * PAGE_SIZE + virt % PAGE_SIZE + i * PAGE_SIZE;
  }

  /** The frame number that phys & VMM_PHYS_MASK leaves in an entry. */
  function PhysFrame(phys: nat): (f: nat) {
    phys / PAGE_SIZE % 0x100_0000_0000
  }

  /** Bits 51 to 12, whatever lies outside them. */
  lemma PhysFrameIs(phys: nat, high: nat)
    requires phys < 0x10_0000_0000_0000
    ensures var f := PhysFrame(high * 0x10_0000_0000_0000 + phys);
            f * PAGE_SIZE <= phys < (f + 1) * PAGE_SIZE
  {
    assert (high * 0x10_0000_0000_0000 + phys) / PAGE_SIZE == high * 0x100_0000_0000 + phys / PAGE_SIZE;
  }

  /** vmm_translate, with its branches for 1 GiB and 2 MiB entries. */
  function Translate(m: Tables, r: nat, va: nat): (phys: nat) {
    var p := PathOf(va);
    var t3 := Pdpt(m, r, p);
    if t3.None? || t3.value !in m then 0
    else
      var e3 := m[t3.value].slots[p.i3];
      if !e3.flags.present then 0
      else if e3.flags.huge then e3.frame / 0x4_0000 * 0x4000_0000 + va % 0x4000_0000
      else if e3.frame !in m then 0
      else
        var e2 := m[e3.frame].slots[p.i2];
        if !e2.flags.present then 0
        else if e2.flags.huge then e2.frame / 0x200 * 0x20_0000 + va % 0x20_0000
        else if e2.frame !in m then 0
        else
          var e1 := m[e2.frame].slots[p.i1];
          if !e1.flags.present then 0 else e1.frame * PAGE_SIZE + va % PAGE_SIZE
  }

  function PhysOf(e: Option<Entry>, va: nat): (phys: nat) {
    if e.None? then 0 else e.value.frame * PAGE_SIZE + va % PAGE_SIZE
  }

  /** In a forest vmm_translate never meets a huge entry: it looks the page up in the partial map. */
  lemma TranslateIsLookup(m: Tables, r: nat, va: nat)
    requires Forest(m) && Root(m, r)
    ensures Translate(m, r, va) == PhysOf(Leaf(m, r, PathOf(va)), va)
  {
    var p := PathOf(va);
    if Pdpt(m, r, p).Some? {
      assert Linked(m, r, p.i4);
      var t3 := Pdpt(m, r, p).value;
      if Pd(m, r, p).Some? {
        assert Linked(m, t3, p.i3);
        if Pt(m, r, p).Some? {
          assert Linked(m, Pd(m, r, p).value, p.i2);
        }
      }
    }
  }

  /**
   vmm_map then vmm_translate, for every pair of address spaces and every address: the mapped page
   yields (phys & mask) | offset wherever the root slot is shared, everything else is unchanged.
   */
  lemma MapThenTranslate(s: Memory, r: nat, va: nat, phys: nat, flags: Flags, q: nat, vb: nat)
    requires WellFormed(s) && Root(s.tables, r) && Root(s.tables, q) && flags.present
    ensures var (n, ok) := Map(s, r, PathOf(va), PhysFrame(phys), flags);
            Translate(n.tables, q, vb) ==
              if ok && va / PAGE_SIZE % PAGES == vb / PAGE_SIZE % PAGES && SharesSlot(n.tables, r, q, PathOf(va).i4)
              then PhysFrame(phys) * PAGE_SIZE + vb % PAGE_SIZE
              else Translate(s.tables, q, vb)
  {
    var n := Map(s, r, PathOf(va), PhysFrame(phys), flags).0;
    MapRefinesUpdate(s, r, PathOf(va), PhysFrame(phys), flags);
    assert Root(n.tables, q);
    TranslateIsLookup(s.tables, q, vb);
    TranslateIsLookup(n.tables, q, vb);
    SamePathIffSameBits(va, vb);
  }

  lemma UnmapThenTranslate(s: Memory, r: nat, va: nat, q: nat, vb: nat)
    requires WellFormed(s) && Root(s.tables, r) && Root(s.tables, q)
    ensures var n := Unmap(s, r, PathOf(va));
            Translate(n.tables, q, vb) ==
              if va / PAGE_SIZE % PAGES == vb / PAGE_SIZE % PAGES && SharesSlot(n.tables, r, q, PathOf(va).i4)
              then 0
              else Translate(s.tables, q, vb)
  {
    var n := Unmap(s, r, PathOf(va));
    UnmapRefinesDelete(s, r, PathOf(va));
    assert Root(n.tables, q);
    TranslateIsLookup(s.tables, q, vb);
    TranslateIsLookup(n.tables, q, vb);
    SamePathIffSameBits(va, vb);
  }
}
