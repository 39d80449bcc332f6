/**
 Four-level page tables over frames taken from the frame allocator.

 A page-table entry is its frame number (bits 51..12) and its flag bits; a table is the 512
 entries of one frame. Beside its entries a table carries its origin: the level it was taken
 for and the slot of the table that first pointed at it. The code never reads the origin; it
 is what makes "no two slots lead to the same table, except shared upper-half slots" a
 statement about one slot at a time.

 The data map holds the bytes of frames used as memory rather than as tables. A frame is in
 at most one of free, tables and data, so no page-table walk ever reads user data as entries.
 */
module PageTables {
  import opened Machine
  import opened FrameAllocator

  datatype Flags = Flags(present: bool, writable: bool, user: bool, pwt: bool, pcd: bool,
                         accessed: bool, dirty: bool, huge: bool, global: bool, noExec: bool)

  const NO_FLAGS := Flags(false, false, false, false, false, false, false, false, false, false)
  const KERNEL_RW := NO_FLAGS.(present := true, writable := true, global := true)
  const USER_RW := NO_FLAGS.(present := true, writable := true, user := true)

  /** VMM_PRESENT | VMM_WRITABLE | (flags & VMM_USER), the flags of every inner entry. */
  function MidFlags(user: bool): (f: Flags) {
    NO_FLAGS.(present := true, writable := true, user := user)
  }

  /** The flag bits of an entry as the number in memory. */
  function FlagBits(f: Flags): (w: nat) {
    (if f.present then 0x1 else 0) + (if f.writable then 0x2 else 0) + (if f.user then 0x4 else 0)
    + (if f.pwt then 0x8 else 0) + (if f.pcd then 0x10 else 0) + (if f.accessed then 0x20 else 0)
    + (if f.dirty then 0x40 else 0) + (if f.huge then 0x80 else 0) + (if f.global then 0x100 else 0)
    + (if f.noExec then 0x8000_0000_0000_0000 else 0)
  }

  /** The combinations the kernel uses, as the header gives them, are these records and no others. */
  lemma FlagValues(f: Flags)
    ensures FlagBits(f) == 0x103 <==> f == KERNEL_RW
    ensures FlagBits(f) == 0x7 <==> f == USER_RW || f == MidFlags(true)
    ensures FlagBits(f) == 0x3 <==> f == MidFlags(false)
    ensures FlagBits(f) == 0x8000_0000_0000_0103 <==> f == KERNEL_RW.(noExec := true)
    ensures FlagBits(f) == 0x8000_0000_0000_0007 <==> f == USER_RW.(noExec := true)
  {
  }

  datatype Entry = Entry(frame: nat, flags: Flags)

  const EMPTY := Entry(0, NO_FLAGS)

  type Index = i: nat | i < 512
  type Slots = s: seq<Entry> | |s| == 512 witness seq(512, i => EMPTY)

  /** A zeroed frame read as a table. */
  function EmptySlots(): (s: Slots)
    ensures forall i: Index :: s[i] == EMPTY
  {
    seq(512, i => EMPTY)
  }

  /** The four indices a virtual address selects. */
  datatype Path = Path(i4: Index, i3: Index, i2: Index, i1: Index)

  datatype Origin = Origin(level: nat, parent: nat, index: nat, user: bool)
  datatype Table = Table(slots: Slots, origin: Origin)
  type Tables = map<nat, Table>

  datatype Memory = Memory(pool: Pool, tables: Tables, data: map<nat, seq<Byte>>)

  // ---------------------------------------------------------------- walks

  predicate Root(m: Tables, r: nat) {
    r in m && m[r].origin.level == 4
  }

  /** Follows entry i of table t, if both exist. */
  function Down(m: Tables, t: Option<nat>, i: Index): (c: Option<nat>) {
    if t.Some? && t.value in m && m[t.value].slots[i].flags.present
    then Some(m[t.value].slots[i].frame)
    else None
  }

  function Pdpt(m: Tables, r: nat, p: Path): (t: Option<nat>) {
    Down(m, Some(r), p.i4)
  }

  function Pd(m: Tables, r: nat, p: Path): (t: Option<nat>) {
    Down(m, Pdpt(m, r, p), p.i3)
  }

  function Pt(m: Tables, r: nat, p: Path): (t: Option<nat>) {
    Down(m, Pd(m, r, p), p.i2)
  }

  function IfPresent(e: Entry): (o: Option<Entry>) {
    if e.flags.present then Some(e) else None
  }

  /** The present leaf entry for a page: the partial map a root stands for. */
  function Leaf(m: Tables, r: nat, p: Path): (e: Option<Entry>) {
    var pt := Pt(m, r, p);
    if pt.Some? && pt.value in m then IfPresent(m[pt.value].slots[p.i1]) else None
  }

  /** How many tables are missing on the way to a page. */
  function Missing(m: Tables, r: nat, p: Path): (n: nat)
    ensures n <= 3
  {
    if Pdpt(m, r, p).None? then 3 else MissingBelow(m, Pdpt(m, r, p).value, p)
  }

  function MissingBelow(m: Tables, t3: nat, p: Path): (n: nat) {
    var t2 := Down(m, Some(t3), p.i3);
    if t2.None? then 2 else if Down(m, t2, p.i2).None? then 1 else 0
  }

  // ---------------------------------------------------------------- well-formed forests

  /** Entry i of an inner table t leads to a table of the next level that names it as origin. */
  ghost predicate Linked(m: Tables, t: nat, i: Index)
    requires t in m
  {
    var e := m[t].slots[i];
    && e.flags == MidFlags(e.flags.user)
    && e.frame in m
    && var o := m[e.frame].origin;
       && o.level + 1 == m[t].origin.level
       && o.index == i
       && o.user == e.flags.user
       && (o.parent == t || (o.level == 3 && i >= 256))
  }

  ghost predicate Forest(m: Tables) {
    && (forall t :: t in m ==> 1 <= m[t].origin.level <= 4)
    && (forall t, i: Index :: t in m && m[t].origin.level >= 2 && m[t].slots[i].flags.present ==> Linked(m, t, i))
  }

  ghost predicate WellFormed(s: Memory) {
    && ValidPool(s.pool)
    && Forest(s.tables)
    && (forall f :: f in s.tables ==> 0 < f < MAX_FRAMES && f !in s.pool.free && f !in s.data)
    && (forall f :: f in s.data ==> 0 < f < MAX_FRAMES && f !in s.pool.free && |s.data[f]| == PAGE_SIZE)
  }

  /** What no operation ever undoes: tables stay, and inner entries once present stay as they are. */
  ghost predicate Grows(m: Tables, n: Tables) {
    && m.Keys <= n.Keys
    && (forall t :: t in m ==> n[t].origin == m[t].origin)
    && (forall t, i: Index :: t in m && m[t].origin.level >= 2 && m[t].slots[i].flags.present
          ==> n[t].slots[i] == m[t].slots[i])
  }

  /** Both roots reach the same next-level table through slot i. */
  ghost predicate SharesSlot(m: Tables, r: nat, q: nat, i: Index) {
    Down(m, Some(r), i) == Down(m, Some(q), i)
  }

  // ---------------------------------------------------------------- operations

  function SetSlot(m: Tables, t: nat, i: Index, e: Entry): (n: Tables)
    requires t in m
  {
    m[t := m[t].(slots := m[t].slots[i := e])]
  }

  /** The two writes of get_or_create: the zeroed frame becomes a table, the slot points at it. */
  function Link(m: Tables, t: nat, i: Index, f: nat, user: bool): (n: Tables)
    requires t in m && m[t].origin.level >= 2
  {
    var child := Table(EmptySlots(), Origin(m[t].origin.level - 1, t, i, user));
    SetSlot(m, t, i, Entry(f, MidFlags(user)))[f := child]
  }

  predicate Inner(m: Tables, t: nat) {
    t in m && m[t].origin.level >= 2
  }

  /**
   get_or_create; result 0 is NULL. Called on something that is not an inner table, which
   GetOrCreateKeeps shows never to happen in a well-formed memory, it yields NULL.
   */
  ghost function GetOrCreate(s: Memory, t: nat, i: Index, user: bool): (r: (Memory, nat))
    requires ValidPool(s.pool)
    ensures ValidPool(r.0.pool)
  {
    if !Inner(s.tables, t) then (s, 0)
    else if s.tables[t].slots[i].flags.present then (s, s.tables[t].slots[i].frame)
    else
      var (pool, f) := Take(s.pool);
      if f == 0 then (s, 0)
      else (s.(pool := pool, tables := Link(s.tables, t, i, f, user)), f)
  }

  /** The three get_or_create calls of vmm_map; result 0 means some level ran out of frames. */
  ghost function Descend(s: Memory, r: nat, p: Path, user: bool): (d: (Memory, nat))
    requires ValidPool(s.pool)
    ensures ValidPool(d.0.pool)
  {
    var (s1, t3) := GetOrCreate(s, r, p.i4, user);
    if t3 == 0 then (s1, 0) else DescendBelow(s1, t3, p, user)
  }

  ghost function DescendBelow(s: Memory, t3: nat, p: Path, user: bool): (d: (Memory, nat))
    requires ValidPool(s.pool)
    ensures ValidPool(d.0.pool)
  {
    var (s2, t2) := GetOrCreate(s, t3, p.i3, user);
    if t2 == 0 then (s2, 0) else GetOrCreate(s2, t2, p.i2, user)
  }

  /** vmm_map on the page `p`. The flag tells whether the leaf was written; the code returns nothing. */
  ghost function Map(s: Memory, r: nat, p: Path, frame: nat, flags: Flags): (d: (Memory, bool))
    requires ValidPool(s.pool)
    ensures ValidPool(d.0.pool)
  {
    var (s3, pt) := Descend(s, r, p, flags.user);
    if pt == 0 || pt !in s3.tables then (s3, false)
    else (s3.(tables := SetSlot(s3.tables, pt, p.i1, Entry(frame, flags))), true)
  }

  /** vmm_unmap on the page `p`. */
  ghost function Unmap(s: Memory, r: nat, p: Path): (d: Memory) {
    var pt := Pt(s.tables, r, p);
    if pt.None? || pt.value !in s.tables then s
    else s.(tables := SetSlot(s.tables, pt.value, p.i1, EMPTY))
  }

  /** The PML4 that vmm_create_address_space fills: the kernel's upper half, nothing below. */
  function UpperHalf(k: Slots): (s: Slots) {
    seq(512, i requires 0 <= i < 512 => if i < 256 then EMPTY else k[i])
  }

  /** vmm_create_address_space; result 0 is NULL. */
  ghost function CreateSpace(s: Memory, k: nat): (d: (Memory, nat))
    requires ValidPool(s.pool) && k in s.tables
  {
    var (pool, f) := Take(s.pool);
    if f == 0 then (s, 0)
    else
      var table := Table(UpperHalf(s.tables[k].slots), Origin(4, 0, 0, false));
      (s.(pool := pool, tables := s.tables[f := table]), f)
  }

  // ---------------------------------------------------------------- get_or_create

  lemma LinkKeepsForest(m: Tables, t: nat, i: Index, f: nat, user: bool)
    requires Forest(m) && t in m && m[t].origin.level >= 2 && f !in m
    requires !m[t].slots[i].flags.present
    ensures Forest(Link(m, t, i, f, user)) && Grows(m, Link(m, t, i, f, user))
  {
    var n := Link(m, t, i, f, user);
    forall u, j: Index | u in n && n[u].origin.level >= 2 && n[u].slots[j].flags.present
      ensures Linked(n, u, j)
    {
      assert u in m;
      if u != t || j != i {
        assert n[u].slots[j] == m[u].slots[j];
        assert Linked(m, u, j);
      }
    }
  }

  /** A fresh empty table translates nothing, so linking it changes no translation. */
  lemma LinkKeepsLeaves(m: Tables, t: nat, i: Index, f: nat, user: bool, r: nat, p: Path)
    requires Forest(m) && t in m && m[t].origin.level >= 2 && f !in m && Root(m, r)
    requires !m[t].slots[i].flags.present
    ensures Leaf(Link(m, t, i, f, user), r, p) == Leaf(m, r, p)
  {
    var n := Link(m, t, i, f, user);
    DownAfterLink(m, t, i, f, user, Some(r), p.i4);
    var a := Pdpt(m, r, p);
    if a.Some? {
      assert Linked(m, r, p.i4);
      DownAfterLink(m, t, i, f, user, a, p.i3);
      var b := Pd(m, r, p);
      if b.Some? {
        assert Linked(m, a.value, p.i3);
        DownAfterLink(m, t, i, f, user, b, p.i2);
        var c := Pt(m, r, p);
        if c.Some? {
          assert Linked(m, b.value, p.i2);
        }
      }
    }
  }

  lemma DownAfterLink(m: Tables, t: nat, i: Index, f: nat, user: bool, u: Option<nat>, j: Index)
    requires t in m && m[t].origin.level >= 2 && f !in m && !m[t].slots[i].flags.present
    requires u.Some? && u.value in m
    ensures Down(Link(m, t, i, f, user), u, j) == if u.value == t && j == i then Some(f) else Down(m, u, j)
    ensures forall k: Index :: Down(Link(m, t, i, f, user), Some(f), k) == None
  {
  }

  /** The frames of s that became tables of n are exactly those that left the pool. */
  ghost predicate SpentOnTables(s: Memory, n: Memory) {
    && n.data == s.data
    && n.tables.Keys <= s.tables.Keys + s.pool.free
    && n.pool.free == s.pool.free - n.tables.Keys
  }

  ghost predicate SameLeaves(m: Tables, n: Tables) {
    forall r, p :: Root(m, r) ==> Leaf(n, r, p) == Leaf(m, r, p)
  }

  /** n is s with some free frames turned into empty tables: nothing observable changed. */
  ghost predicate Extended(s: Memory, n: Memory) {
    WellFormed(n) && Grows(s.tables, n.tables) && SpentOnTables(s, n) && SameLeaves(s.tables, n.tables)
  }

  lemma RootStays(m: Tables, n: Tables, r: nat)
    requires Grows(m, n) && Root(m, r)
    ensures Root(n, r)
  {
  }

  lemma GrowsSelf(m: Tables)
    ensures Grows(m, m)
  {
  }

  lemma GrowsTwice(m: Tables, n: Tables, o: Tables)
    requires Grows(m, n) && Grows(n, o)
    ensures Grows(m, o)
  {
  }

  lemma ExtendedTwice(s: Memory, n: Memory, o: Memory)
    requires Extended(s, n) && Extended(n, o)
    ensures Extended(s, o)
  {
    assert o.pool.free == s.pool.free - o.tables.Keys;
  }

  lemma GetOrCreateKeeps(s: Memory, t: nat, i: Index, user: bool)
    requires WellFormed(s) && Inner(s.tables, t)
    ensures var (n, c) := GetOrCreate(s, t, i, user);
            && Extended(s, n)
            && (c == 0 <==> !s.tables[t].slots[i].flags.present && s.pool.free == {})
            && (c != 0 ==> c in n.tables && n.tables[c].origin.level + 1 == s.tables[t].origin.level)
            && (c != 0 ==> Down(n.tables, Some(t), i) == Some(c))
  {
    assert s.pool.free - s.tables.Keys == s.pool.free;
    if s.tables[t].slots[i].flags.present {
      assert Linked(s.tables, t, i);
    } else if s.pool.free != {} {
      var f := Take(s.pool).1;
      LinkKeepsForest(s.tables, t, i, f, user);
      forall r, p | Root(s.tables, r)
        ensures Leaf(Link(s.tables, t, i, f, user), r, p) == Leaf(s.tables, r, p)
      {
        LinkKeepsLeaves(s.tables, t, i, f, user, r, p);
      }
    }
  }

  /** When get_or_create takes a frame, it takes one, and the table it makes is empty. */
  lemma GetOrCreateCosts(s: Memory, t: nat, i: Index, user: bool)
    requires WellFormed(s) && Inner(s.tables, t)
    ensures var (n, c) := GetOrCreate(s, t, i, user);
            && (Down(s.tables, Some(t), i).Some? ==> n == s)
            && (Down(s.tables, Some(t), i).None? && c != 0 ==>
                  |n.pool.free| == |s.pool.free| - 1 && forall k: Index :: Down(n.tables, Some(c), k) == None)
  {
  }

  lemma DescendExtends(s: Memory, r: nat, p: Path, user: bool)
    requires WellFormed(s) && Root(s.tables, r)
    ensures Extended(s, Descend(s, r, p, user).0)
  {
    GetOrCreateKeeps(s, r, p.i4, user);
    var (s1, t3) := GetOrCreate(s, r, p.i4, user);
    if t3 != 0 {
      GetOrCreateKeeps(s1, t3, p.i3, user);
      var (s2, t2) := GetOrCreate(s1, t3, p.i3, user);
      ExtendedTwice(s, s1, s2);
      if t2 != 0 {
        GetOrCreateKeeps(s2, t2, p.i2, user);
        ExtendedTwice(s, s2, GetOrCreate(s2, t2, p.i2, user).0);
      }
    }
  }

  lemma DescendReaches(s: Memory, r: nat, p: Path, user: bool)
    requires WellFormed(s) && Root(s.tables, r)
    ensures var (n, pt) := Descend(s, r, p, user);
            pt != 0 ==> pt in n.tables && n.tables[pt].origin.level == 1 && Pt(n.tables, r, p) == Some(pt)
  {
    hide Leaf;
    hide SameLeaves;
    hide SpentOnTables;
    hide Forest;
    hide GetOrCreate;
    GetOrCreateKeeps(s, r, p.i4, user);
    var (s1, t3) := GetOrCreate(s, r, p.i4, user);
    if t3 != 0 {
      GetOrCreateKeeps(s1, t3, p.i3, user);
      var (s2, t2) := GetOrCreate(s1, t3, p.i3, user);
      if t2 != 0 {
        GetOrCreateKeeps(s2, t2, p.i2, user);
        var n := GetOrCreate(s2, t2, p.i2, user).0.tables;
        assert Down(n, Some(r), p.i4) == Some(t3);
        assert Down(n, Some(t3), p.i3) == Some(t2);
      }
    }
  }

  lemma DescendBelowCosts(s: Memory, t3: nat, p: Path, user: bool)
    requires WellFormed(s) && t3 in s.tables && s.tables[t3].origin.level == 3
    ensures var (n, pt) := DescendBelow(s, t3, p, user);
            && (pt != 0 <==> |s.pool.free| >= MissingBelow(s.tables, t3, p))
            && (pt != 0 ==> |n.pool.free| == |s.pool.free| - MissingBelow(s.tables, t3, p))
  {
    hide GetOrCreate;
    hide Leaf;
    hide SameLeaves;
    hide Forest;
    GetOrCreateKeeps(s, t3, p.i3, user);
    GetOrCreateCosts(s, t3, p.i3, user);
    var (s2, t2) := GetOrCreate(s, t3, p.i3, user);
    if t2 != 0 {
      GetOrCreateKeeps(s2, t2, p.i2, user);
      GetOrCreateCosts(s2, t2, p.i2, user);
    }
  }

  /** Walking down succeeds with exactly one free frame for each missing table. */
  lemma DescendCosts(s: Memory, r: nat, p: Path, user: bool)
    requires WellFormed(s) && Root(s.tables, r)
    ensures var (n, pt) := Descend(s, r, p, user);
            && (pt != 0 <==> |s.pool.free| >= Missing(s.tables, r, p))
            && (pt != 0 ==> |n.pool.free| == |s.pool.free| - Missing(s.tables, r, p))
  {
    GetOrCreateKeeps(s, r, p.i4, user);
    GetOrCreateCosts(s, r, p.i4, user);
    var (s1, t3) := GetOrCreate(s, r, p.i4, user);
    if t3 != 0 {
      DescendBelowCosts(s1, t3, p, user);
    }
  }

  // ---------------------------------------------------------------- writing a leaf

  lemma LeafWriteKeepsForest(m: Tables, pt: nat, i: Index, e: Entry)
    requires Forest(m) && pt in m && m[pt].origin.level == 1
    ensures Forest(SetSlot(m, pt, i, e)) && Grows(m, SetSlot(m, pt, i, e))
  {
    var n := SetSlot(m, pt, i, e);
    forall u, j: Index | u in n && n[u].origin.level >= 2 && n[u].slots[j].flags.present
      ensures Linked(n, u, j)
    {
      assert Linked(m, u, j);
    }
  }

  /** In a forest, the walk to a table determines the path, and the root up to sharing. */
  lemma WalksMeetOnlyIfShared(m: Tables, r: nat, p: Path, q: nat, o: Path)
    requires Forest(m) && Root(m, r) && Root(m, q)
    requires Pt(m, r, p).Some? && Pt(m, r, p) == Pt(m, q, o)
    ensures p.i4 == o.i4 && p.i3 == o.i3 && p.i2 == o.i2
    ensures SharesSlot(m, r, q, p.i4)
    ensures r == q || p.i4 >= 256
  {
    assert Linked(m, r, p.i4) && Linked(m, q, o.i4);
    assert Linked(m, Pdpt(m, r, p).value, p.i3) && Linked(m, Pdpt(m, q, o).value, o.i3);
    assert Linked(m, Pd(m, r, p).value, p.i2) && Linked(m, Pd(m, q, o).value, o.i2);
  }

  lemma WalkEndsInForest(m: Tables, r: nat, p: Path)
    requires Forest(m) && Root(m, r) && Pt(m, r, p).Some?
    ensures Pt(m, r, p).value in m && m[Pt(m, r, p).value].origin.level == 1
  {
    assert Linked(m, r, p.i4);
    assert Linked(m, Pdpt(m, r, p).value, p.i3);
    assert Linked(m, Pd(m, r, p).value, p.i2);
  }

  /** Writing a leaf slot moves no walk. */
  lemma LeafWriteKeepsWalks(m: Tables, pt: nat, i: Index, e: Entry, q: nat, o: Path)
    requires Forest(m) && pt in m && m[pt].origin.level == 1 && Root(m, q)
    ensures Pt(SetSlot(m, pt, i, e), q, o) == Pt(m, q, o)
    ensures Pdpt(SetSlot(m, pt, i, e), q, o) == Pdpt(m, q, o)
    ensures Pd(SetSlot(m, pt, i, e), q, o) == Pd(m, q, o)
  {
    var a := Pdpt(m, q, o);
    if a.Some? {
      assert Linked(m, q, o.i4);
      var b := Pd(m, q, o);
      if b.Some? {
        assert Linked(m, a.value, o.i3);
      }
    }
  }

  /** A leaf write is an update of the partial map, for the root and for those that share the slot. */
  lemma LeafWrite(m: Tables, r: nat, p: Path, e: Entry, q: nat, o: Path)
    requires Forest(m) && Root(m, r) && Root(m, q) && Pt(m, r, p).Some?
    ensures var pt := Pt(m, r, p).value;
            && pt in m
            && Leaf(SetSlot(m, pt, p.i1, e), q, o) ==
               if o == p && SharesSlot(m, r, q, p.i4) then IfPresent(e) else Leaf(m, q, o)
  {
    WalkEndsInForest(m, r, p);
    var pt := Pt(m, r, p).value;
    LeafWriteKeepsWalks(m, pt, p.i1, e, q, o);
    if Pt(m, q, o).Some? {
      WalkEndsInForest(m, q, o);
      if Pt(m, q, o).value == pt {
        WalksMeetOnlyIfShared(m, r, p, q, o);
      }
    }
  }

  // ---------------------------------------------------------------- vmm_map, vmm_unmap

  /** n's leaves are m's with page p set to e, for root r and the roots that share its slot. */
  ghost predicate Updated(m: Tables, n: Tables, r: nat, p: Path, e: Entry) {
    forall q, o :: Root(m, q) ==>
      Leaf(n, q, o) == if o == p && SharesSlot(n, r, q, p.i4) then IfPresent(e) else Leaf(m, q, o)
  }

  lemma LeafWriteUpdates(m: Tables, r: nat, p: Path, e: Entry)
    requires Forest(m) && Root(m, r) && Pt(m, r, p).Some?
    ensures var pt := Pt(m, r, p).value;
            && pt in m && m[pt].origin.level == 1
            && Updated(m, SetSlot(m, pt, p.i1, e), r, p, e)
  {
    WalkEndsInForest(m, r, p);
    var pt := Pt(m, r, p).value;
    var n := SetSlot(m, pt, p.i1, e);
    forall q, o | Root(m, q)
      ensures Leaf(n, q, o) == if o == p && SharesSlot(n, r, q, p.i4) then IfPresent(e) else Leaf(m, q, o)
    {
      LeafWrite(m, r, p, e, q, o);
      LeafWriteKeepsWalks(m, pt, p.i1, e, q, o);
      LeafWriteKeepsWalks(m, pt, p.i1, e, r, p);
    }
  }

  /**
   vmm_map refines map update. It needs one free frame per missing table, no more; when it runs
   out at any level, no translation of any address space changes.
   */
  lemma MapRefinesUpdate(s: Memory, r: nat, p: Path, frame: nat, flags: Flags)
    requires WellFormed(s) && Root(s.tables, r)
    ensures var (n, ok) := Map(s, r, p, frame, flags);
            && WellFormed(n) && Grows(s.tables, n.tables) && SpentOnTables(s, n)
            && (ok <==> |s.pool.free| >= Missing(s.tables, r, p))
            && (ok ==> |n.pool.free| == |s.pool.free| - Missing(s.tables, r, p))
            && (ok ==> Updated(s.tables, n.tables, r, p, Entry(frame, flags)))
            && (!ok ==> SameLeaves(s.tables, n.tables))
  {
    DescendExtends(s, r, p, flags.user);
    DescendReaches(s, r, p, flags.user);
    DescendCosts(s, r, p, flags.user);
    var (d, pt) := Descend(s, r, p, flags.user);
    if pt != 0 {
      var e := Entry(frame, flags);
      LeafWriteUpdates(d.tables, r, p, e);
      LeafWriteSpends(s, d, pt, p.i1, e);
      UpdatedFrom(s.tables, d.tables, SetSlot(d.tables, pt, p.i1, e), r, p, e);
    }
  }

  lemma UpdatedFrom(m: Tables, d: Tables, n: Tables, r: nat, p: Path, e: Entry)
    requires Grows(m, d) && SameLeaves(m, d) && Updated(d, n, r, p, e)
    ensures Updated(m, n, r, p, e)
  {
  }

  lemma LeafWriteSpends(s: Memory, d: Memory, pt: nat, i: Index, e: Entry)
    requires Extended(s, d) && pt in d.tables && d.tables[pt].origin.level == 1
    ensures var n := d.(tables := SetSlot(d.tables, pt, i, e));
            WellFormed(n) && Grows(s.tables, n.tables) && SpentOnTables(s, n)
  {
    LeafWriteKeepsForest(d.tables, pt, i, e);
    assert SetSlot(d.tables, pt, i, e).Keys == d.tables.Keys;
  }

  /** vmm_unmap refines deletion. */
  lemma UnmapRefinesDelete(s: Memory, r: nat, p: Path)
    requires WellFormed(s) && Root(s.tables, r)
    ensures var n := Unmap(s, r, p);
            && WellFormed(n) && Grows(s.tables, n.tables)
            && n.pool == s.pool && n.data == s.data && n.tables.Keys == s.tables.Keys
            && Updated(s.tables, n.tables, r, p, EMPTY)
  {
    if Pt(s.tables, r, p).Some? {
      LeafWriteUpdates(s.tables, r, p, EMPTY);
      LeafWriteKeepsForest(s.tables, Pt(s.tables, r, p).value, p.i1, EMPTY);
    } else {
      forall q, o | Root(s.tables, q) && o == p && SharesSlot(s.tables, r, q, p.i4)
        ensures Leaf(s.tables, q, o) == None
      {
        assert Pdpt(s.tables, q, p) == Pdpt(s.tables, r, p);
      }
    }
  }

  /** vmm_create_address_space: a new root that shows the kernel's upper half and nothing else. */
  lemma CreateSpaceSharesKernel(s: Memory, k: nat)
    requires WellFormed(s) && Root(s.tables, k)
    ensures var (n, r) := CreateSpace(s, k);
            && WellFormed(n) && Grows(s.tables, n.tables) && SpentOnTables(s, n)
            && (r == 0 <==> s.pool.free == {})
            && SameLeaves(s.tables, n.tables)
            && (r != 0 ==> Root(n.tables, r) && r !in s.tables)
            && (r != 0 ==> forall p :: Leaf(n.tables, r, p) == if p.i4 < 256 then None else Leaf(s.tables, k, p))
            && (r != 0 ==> forall i: Index :: i >= 256 ==> n.tables[r].slots[i] == n.tables[k].slots[i])
  {
    var (n, r) := CreateSpace(s, k);
    if r == 0 {
      assert s.pool.free - s.tables.Keys == s.pool.free;
    } else {
      NewRootKeepsForest(s, k);
      hide Forest;
      hide UpperHalf;
      forall q, p | Root(s.tables, q)
        ensures Leaf(n.tables, q, p) == Leaf(s.tables, q, p)
      {
        NewRootKeepsWalk(s.tables, r, n.tables[r], q, p);
      }
      forall p: Path
        ensures Leaf(n.tables, r, p) == if p.i4 < 256 then None else Leaf(s.tables, k, p)
      {
        NewRootKeepsWalk(s.tables, r, n.tables[r], k, p);
        assert p.i4 >= 256 ==> Pdpt(n.tables, r, p) == Pdpt(n.tables, k, p);
      }
    }
  }

  lemma NewRootKeepsForest(s: Memory, k: nat)
    requires WellFormed(s) && Root(s.tables, k) && CreateSpace(s, k).1 != 0
    ensures Forest(CreateSpace(s, k).0.tables) && CreateSpace(s, k).1 !in s.tables
    ensures var (n, r) := CreateSpace(s, k);
            forall i: Index :: n.tables[r].slots[i] == if i >= 256 then s.tables[k].slots[i] else EMPTY
  {
    var (n, r) := CreateSpace(s, k);
    forall u, j: Index | u in n.tables && n.tables[u].origin.level >= 2 && n.tables[u].slots[j].flags.present
      ensures Linked(n.tables, u, j)
    {
      if u == r {
        assert Linked(s.tables, k, j);
      } else {
        assert Linked(s.tables, u, j);
      }
    }
  }

  lemma NewRootKeepsWalk(m: Tables, r: nat, t: Table, q: nat, p: Path)
    requires Forest(m) && r !in m && Root(m, q)
    ensures Pdpt(m[r := t], q, p) == Pdpt(m, q, p)
    ensures Leaf(m[r := t], q, p) == Leaf(m, q, p)
  {
    var a := Pdpt(m, q, p);
    if a.Some? {
      assert Linked(m, q, p.i4);
      var b := Pd(m, q, p);
      if b.Some? {
        assert Linked(m, a.value, p.i3);
        if Pt(m, q, p).Some? {
          assert Linked(m, b.value, p.i2);
        }
      }
    }
  }
}
