/**
 Address spaces over whole runs: what the kernel and its processes share, what they cannot
 disturb in each other, and which rights a page really has.
 */
module AddressSpaces {
  import opened Machine
  import opened FrameAllocator
  import opened PageTables
  import opened Addresses

  // ---------------------------------------------------------------- runs

  datatype Event =
    | MapPage(root: nat, path: Path, frame: nat, flags: Flags)
    | UnmapPage(root: nat, path: Path)
    | NewSpace

  /** One call of vmm_map, vmm_unmap or vmm_create_address_space; roots that do not exist are ignored. */
  ghost function Step(s: Memory, k: nat, e: Event): (n: Memory)
    requires ValidPool(s.pool)
    ensures ValidPool(n.pool)
  {
    match e
    case MapPage(r, p, f, fl) => if Root(s.tables, r) then Map(s, r, p, f, fl).0 else s
    case UnmapPage(r, p) => if Root(s.tables, r) then Unmap(s, r, p) else s
    case NewSpace => if k in s.tables then CreateSpace(s, k).0 else s
  }

  ghost function Run(s: Memory, k: nat, es: seq<Event>): (n: Memory)
    requires ValidPool(s.pool)
    ensures ValidPool(n.pool)
  {
    if es == [] then s else Step(Run(s, k, es[..|es| - 1]), k, es[|es| - 1])
  }

  lemma StepKeeps(s: Memory, k: nat, e: Event)
    requires WellFormed(s) && Root(s.tables, k)
    ensures WellFormed(Step(s, k, e)) && Grows(s.tables, Step(s, k, e).tables)
  {
    match e
    case MapPage(r, p, f, fl) =>
      if Root(s.tables, r) {
        MapRefinesUpdate(s, r, p, f, fl);
      }
    case UnmapPage(r, p) =>
      if Root(s.tables, r) {
        UnmapRefinesDelete(s, r, p);
      }
    case NewSpace =>
      CreateSpaceSharesKernel(s, k);
  }

  lemma {:induction false} RunKeeps(s: Memory, k: nat, es: seq<Event>)
    requires WellFormed(s) && Root(s.tables, k)
    ensures WellFormed(Run(s, k, es)) && Grows(s.tables, Run(s, k, es).tables)
  {
    if es != [] {
      RunKeeps(s, k, es[..|es| - 1]);
      StepKeeps(Run(s, k, es[..|es| - 1]), k, es[|es| - 1]);
    }
  }

  // ---------------------------------------------------------------- sharing

  lemma SameSlotSameLeaves(m: Tables, r: nat, k: nat, p: Path)
    requires r in m && k in m && m[r].slots[p.i4] == m[k].slots[p.i4]
    ensures Leaf(m, r, p) == Leaf(m, k, p)
  {
    assert Pdpt(m, r, p) == Pdpt(m, k, p);
  }

  /** A present slot that two roots have in common stays common, so they agree below it forever. */
  lemma SharedSlotsAgreeForever(s: Memory, k: nat, r: nat, es: seq<Event>, p: Path)
    requires WellFormed(s) && Root(s.tables, k) && Root(s.tables, r)
    requires s.tables[r].slots[p.i4] == s.tables[k].slots[p.i4] && s.tables[k].slots[p.i4].flags.present
    ensures Leaf(Run(s, k, es).tables, r, p) == Leaf(Run(s, k, es).tables, k, p)
  {
    RunKeeps(s, k, es);
    var m := Run(s, k, es).tables;
    assert m[r].slots[p.i4] == m[k].slots[p.i4];
    SameSlotSameLeaves(m, r, k, p);
  }

  /**
   The promise behind vmm_create_address_space: whatever happens before and after, the new space and
   the kernel agree on every page under each upper-half slot the kernel had when it was created.
   */
  lemma NewSpaceSeesKernelForever(s: Memory, k: nat, before: seq<Event>, after: seq<Event>, p: Path)
    requires WellFormed(s) && Root(s.tables, k) && p.i4 >= 256
    requires var s1 := Run(s, k, before); s1.pool.free != {} && k in s1.tables && s1.tables[k].slots[p.i4].flags.present
    ensures var s1 := Run(s, k, before);
            var (s2, r) := CreateSpace(s1, k);
            var s3 := Run(s2, k, after);
            r != 0 && Leaf(s3.tables, r, p) == Leaf(s3.tables, k, p)
  {
    RunKeeps(s, k, before);
    var s1 := Run(s, k, before);
    CreateSpaceSharesKernel(s1, k);
    var (s2, r) := CreateSpace(s1, k);
    SharedSlotsAgreeForever(s2, k, r, after, p);
  }

  /** Below the root, vmm_map neither writes nor creates a PML4. */
  lemma DescendBelowKeepsRoots(s: Memory, t3: nat, p: Path, user: bool, q: nat)
    requires WellFormed(s) && t3 in s.tables && s.tables[t3].origin.level == 3
    ensures var n := DescendBelow(s, t3, p, user).0.tables;
            && (Root(n, q) ==> Root(s.tables, q))
            && (Root(s.tables, q) ==> q in n && n[q] == s.tables[q])
  {
    hide GetOrCreate;
    hide Leaf;
    hide SameLeaves;
    hide SpentOnTables;
    hide Forest;
    GetOrCreateKeeps(s, t3, p.i3, user);
    InnerTableKeepsRoots(s, t3, p.i3, user, q);
    var (s2, t2) := GetOrCreate(s, t3, p.i3, user);
    if t2 != 0 {
      GetOrCreateKeeps(s2, t2, p.i2, user);
      InnerTableKeepsRoots(s2, t2, p.i2, user, q);
    }
  }

  lemma InnerTableKeepsRoots(s: Memory, t: nat, i: Index, user: bool, q: nat)
    requires WellFormed(s) && t in s.tables && 2 <= s.tables[t].origin.level <= 3
    ensures var n := GetOrCreate(s, t, i, user).0.tables;
            && (Root(n, q) ==> Root(s.tables, q))
            && (Root(s.tables, q) ==> q in n && n[q] == s.tables[q])
  {
  }

  /** Table q of n is as in m, or has slot i filled with an inner entry of the given zone. */
  ghost predicate SameBut(m: Tables, n: Tables, q: nat, i: Index, user: bool) {
    && q in m && q in n
    && forall j: Index :: n[q].slots[j] == m[q].slots[j] || (j == i && n[q].slots[j].flags == MidFlags(user))
  }

  lemma GetOrCreateWrites(s: Memory, r: nat, i: Index, user: bool, q: nat)
    requires WellFormed(s) && Root(s.tables, r)
    ensures var n := GetOrCreate(s, r, i, user).0.tables;
            && (Root(n, q) ==> Root(s.tables, q))
            && (Root(s.tables, q) && q != r ==> q in n && n[q] == s.tables[q])
            && SameBut(s.tables, n, r, i, user)
  {
  }

  /** vmm_map writes no PML4 but the one it is given, there only slot p.i4, and creates none. */
  lemma MapWritesRootSlot(s: Memory, r: nat, p: Path, frame: nat, flags: Flags, q: nat)
    requires WellFormed(s) && Root(s.tables, r)
    ensures var n := Map(s, r, p, frame, flags).0.tables;
            && (Root(n, q) ==> Root(s.tables, q))
            && (Root(s.tables, q) && q != r ==> q in n && n[q] == s.tables[q])
            && SameBut(s.tables, n, r, p.i4, flags.user)
  {
    hide GetOrCreate;
    hide DescendBelow;
    hide Leaf;
    hide SameLeaves;
    hide SpentOnTables;
    hide Forest;
    GetOrCreateKeeps(s, r, p.i4, flags.user);
    GetOrCreateWrites(s, r, p.i4, flags.user, q);
    var (s1, t3) := GetOrCreate(s, r, p.i4, flags.user);
    if t3 != 0 {
      DescendBelowKeepsRoots(s1, t3, p, flags.user, q);
      DescendBelowKeepsRoots(s1, t3, p, flags.user, r);
      DescendReaches(s, r, p, flags.user);
    }
  }

  lemma EmptySlotHasNoLeaf(m: Tables, r: nat, p: Path)
    requires r in m && !m[r].slots[p.i4].flags.present
    ensures Leaf(m, r, p) == None
  {
    assert Pdpt(m, r, p) == None;
  }

  /**
   When the kernel maps a page, a space with no table of its own there sees it exactly when it
   already had the kernel's PML4 entry: a slot the kernel fills later stays invisible.
   */
  lemma KernelMappingVisibleIffSlotShared(s: Memory, k: nat, r: nat, p: Path, frame: nat, flags: Flags)
    requires WellFormed(s) && Root(s.tables, k) && Root(s.tables, r) && r != k && flags.present
    requires s.tables[r].slots[p.i4].flags.present ==> s.tables[r].slots[p.i4] == s.tables[k].slots[p.i4]
    requires |s.pool.free| >= Missing(s.tables, k, p)
    ensures var n := Map(s, k, p, frame, flags).0;
            && Leaf(n.tables, k, p) == Some(Entry(frame, flags))
            && (Leaf(n.tables, r, p) == Some(Entry(frame, flags)) <==> s.tables[r].slots[p.i4].flags.present)
  {
    hide Map;
    hide Missing;
    hide Forest;
    hide SameBut;
    hide Leaf;
    hide SpentOnTables;
    hide SameLeaves;
    MapRefinesUpdate(s, k, p, frame, flags);
    MapWritesRootSlot(s, k, p, frame, flags, r);
    var n := Map(s, k, p, frame, flags).0.tables;
    if s.tables[r].slots[p.i4].flags.present {
      assert n[r].slots[p.i4] == n[k].slots[p.i4];
    } else {
      EmptySlotHasNoLeaf(n, r, p);
    }
  }

  // ---------------------------------------------------------------- isolation

  /** No two spaces share a lower-half slot. */
  lemma LowerSlotsPrivate(m: Tables, r: nat, q: nat, i: Index)
    requires Forest(m) && Root(m, r) && Root(m, q) && r != q && i < 256 && m[r].slots[i].flags.present
    ensures !SharesSlot(m, r, q, i)
  {
    assert Linked(m, r, i);
    if m[q].slots[i].flags.present {
      assert Linked(m, q, i);
    }
  }

  /** The event does not concern q: a new space, or a lower-half page of some other space. */
  ghost predicate Foreign(e: Event, q: nat) {
    match e
    case MapPage(r, p, _, _) => r != q && p.i4 < 256
    case UnmapPage(r, p) => r != q && p.i4 < 256
    case NewSpace => true
  }

  lemma StepIsolates(s: Memory, k: nat, e: Event, q: nat)
    requires WellFormed(s) && Root(s.tables, k) && Root(s.tables, q) && Foreign(e, q)
    ensures forall p :: Leaf(Step(s, k, e).tables, q, p) == Leaf(s.tables, q, p)
  {
    match e
    case MapPage(r, p, f, fl) =>
      if Root(s.tables, r) {
        MapRefinesUpdate(s, r, p, f, fl);
        var (n, ok) := Map(s, r, p, f, fl);
        if ok {
          MapLinksRoot(s, r, p, f, fl);
          assert Root(n.tables, r) && Root(n.tables, q);
          LowerSlotsPrivate(n.tables, r, q, p.i4);
        }
      }
    case UnmapPage(r, p) =>
      if Root(s.tables, r) {
        UnmapRefinesDelete(s, r, p);
        var n := Unmap(s, r, p);
        assert Root(n.tables, r) && Root(n.tables, q);
        if n.tables[r].slots[p.i4].flags.present {
          LowerSlotsPrivate(n.tables, r, q, p.i4);
        }
      }
    case NewSpace =>
      CreateSpaceSharesKernel(s, k);
  }

  lemma MapLinksRoot(s: Memory, r: nat, p: Path, frame: nat, flags: Flags)
    requires WellFormed(s) && Root(s.tables, r) && Map(s, r, p, frame, flags).1
    ensures var n := Map(s, r, p, frame, flags).0; r in n.tables && n.tables[r].slots[p.i4].flags.present
  {
    DescendExtends(s, r, p, flags.user);
    DescendReaches(s, r, p, flags.user);
  }

  /** Runs that only work below the upper half of other spaces change no translation of q. */
  lemma {:induction false} LowerHalfIsolation(s: Memory, k: nat, es: seq<Event>, q: nat, p: Path)
    requires WellFormed(s) && Root(s.tables, k) && Root(s.tables, q)
    requires forall i :: 0 <= i < |es| ==> Foreign(es[i], q)
    ensures Leaf(Run(s, k, es).tables, q, p) == Leaf(s.tables, q, p)
  {
    if es != [] {
      var front := es[..|es| - 1];
      LowerHalfIsolation(s, k, front, q, p);
      RunKeeps(s, k, front);
      StepIsolates(Run(s, k, front), k, es[|es| - 1], q);
    }
  }

  // ---------------------------------------------------------------- effective rights

  datatype Rights = Rights(write: bool, user: bool, execute: bool)

  function RightsOf(f: Flags): (r: Rights) {
    Rights(f.writable, f.user, !f.noExec)
  }

  function Both(a: Rights, b: Rights): (r: Rights) {
    Rights(a.write && b.write, a.user && b.user, a.execute && b.execute)
  }

  /** What the processor grants for a page: the AND of the rights of all four entries on the walk. */
  ghost function Effective(m: Tables, r: nat, p: Path): (e: Option<Rights>)
    requires Forest(m) && Root(m, r)
  {
    if Leaf(m, r, p).None? then None
    else
      var t3, t2 := Pdpt(m, r, p).value, Pd(m, r, p).value;
      if t3 !in m || t2 !in m then None
      else
        Some(Both(Both(RightsOf(m[r].slots[p.i4].flags), RightsOf(m[t3].slots[p.i3].flags)),
                  Both(RightsOf(m[t2].slots[p.i2].flags), RightsOf(Leaf(m, r, p).value.flags))))
  }

  /** Every inner entry present on the way to page p lets user mode through. */
  ghost predicate MidsAllowUser(m: Tables, r: nat, p: Path) {
    r in m && m[r].slots[p.i4].flags.present ==>
      m[r].slots[p.i4].flags.user && BelowAllowsUser(m, m[r].slots[p.i4].frame, p)
  }

  ghost predicate BelowAllowsUser(m: Tables, t3: nat, p: Path) {
    t3 in m && m[t3].slots[p.i3].flags.present ==>
      && m[t3].slots[p.i3].flags.user
      && var t2 := m[t3].slots[p.i3].frame;
         t2 in m && m[t2].slots[p.i2].flags.present ==> m[t2].slots[p.i2].flags.user
  }

  /** A page has the rights of its leaf entry exactly when no inner entry withholds user access it grants. */
  lemma EffectiveIffMidsAllow(m: Tables, r: nat, p: Path)
    requires Forest(m) && Root(m, r) && Leaf(m, r, p).Some?
    ensures Effective(m, r, p).Some?
    ensures var leaf := Leaf(m, r, p).value.flags;
            Effective(m, r, p) == Some(RightsOf(leaf)) <==> (leaf.user ==> MidsAllowUser(m, r, p))
  {
    assert Linked(m, r, p.i4);
    assert Linked(m, Pdpt(m, r, p).value, p.i3);
    assert Linked(m, Pd(m, r, p).value, p.i2);
  }

  /**
   The rights a run discipline guarantees: user pages live in the lower half of processes and
   nowhere else. Then an inner table inherits its zone from the slot that leads to it.
   */
  ghost predicate Zoned(m: Tables, k: nat) {
    forall t, i: Index :: t in m && m[t].slots[i].flags.present ==>
      m[t].slots[i].flags.user == if m[t].origin.level == 4 then t != k && i < 256 else m[t].origin.user
  }

  ghost predicate Disciplined(e: Event, k: nat) {
    e.MapPage? ==> (e.flags.user <==> e.root != k && e.path.i4 < 256)
  }

  lemma ZoneOfChild(m: Tables, k: nat, t: nat, i: Index)
    requires Forest(m) && Zoned(m, k) && Inner(m, t) && m[t].slots[i].flags.present
    ensures m[t].slots[i].frame in m
    ensures m[m[t].slots[i].frame].origin.user ==
            if m[t].origin.level == 4 then t != k && i < 256 else m[t].origin.user
  {
    assert Linked(m, t, i);
  }

  lemma GetOrCreateKeepsZones(s: Memory, k: nat, t: nat, i: Index, user: bool)
    requires WellFormed(s) && Zoned(s.tables, k) && Inner(s.tables, t)
    requires user == if s.tables[t].origin.level == 4 then t != k && i < 256 else s.tables[t].origin.user
    ensures var (n, c) := GetOrCreate(s, t, i, user);
            Zoned(n.tables, k) && (c != 0 ==> c in n.tables && n.tables[c].origin.user == user)
  {
    hide Leaf;
    hide SameLeaves;
    hide SpentOnTables;
    hide Forest;
    GetOrCreateKeeps(s, t, i, user);
    if s.tables[t].slots[i].flags.present {
      ZoneOfChild(s.tables, k, t, i);
    }
  }

  lemma DescendBelowKeepsZones(s: Memory, k: nat, t3: nat, p: Path, user: bool)
    requires WellFormed(s) && Zoned(s.tables, k) && t3 in s.tables
    requires s.tables[t3].origin.level == 3 && s.tables[t3].origin.user == user
    ensures var (n, pt) := DescendBelow(s, t3, p, user);
            && Zoned(n.tables, k)
            && (pt != 0 ==> pt in n.tables && n.tables[pt].origin.level == 1 && n.tables[pt].origin.user == user)
  {
    GetOrCreateKeeps(s, t3, p.i3, user);
    GetOrCreateKeepsZones(s, k, t3, p.i3, user);
    var (s2, t2) := GetOrCreate(s, t3, p.i3, user);
    if t2 != 0 {
      GetOrCreateKeeps(s2, t2, p.i2, user);
      GetOrCreateKeepsZones(s2, k, t2, p.i2, user);
    }
  }

  lemma LeafWriteKeepsZones(m: Tables, k: nat, pt: nat, i: Index, e: Entry)
    requires Zoned(m, k) && pt in m && m[pt].origin.level == 1
    requires e.flags.present ==> e.flags.user == m[pt].origin.user
    ensures Zoned(SetSlot(m, pt, i, e), k)
  {
  }

  lemma MapKeepsZones(s: Memory, k: nat, r: nat, p: Path, frame: nat, flags: Flags)
    requires WellFormed(s) && Zoned(s.tables, k) && Root(s.tables, r)
    requires flags.user <==> r != k && p.i4 < 256
    ensures Zoned(Map(s, r, p, frame, flags).0.tables, k)
  {
    hide GetOrCreate;
    hide DescendBelow;
    hide Leaf;
    hide SameLeaves;
    hide SpentOnTables;
    hide Forest;
    hide Zoned;
    GetOrCreateKeeps(s, r, p.i4, flags.user);
    GetOrCreateKeepsZones(s, k, r, p.i4, flags.user);
    var (s1, t3) := GetOrCreate(s, r, p.i4, flags.user);
    if t3 != 0 {
      DescendBelowKeepsZones(s1, k, t3, p, flags.user);
      var (n, pt) := DescendBelow(s1, t3, p, flags.user);
      if pt != 0 {
        LeafWriteKeepsZones(n.tables, k, pt, p.i1, Entry(frame, flags));
      }
    }
  }

  lemma StepKeepsZones(s: Memory, k: nat, e: Event)
    requires WellFormed(s) && Root(s.tables, k) && Zoned(s.tables, k) && Disciplined(e, k)
    ensures Zoned(Step(s, k, e).tables, k)
  {
    match e
    case MapPage(r, p, f, fl) =>
      if Root(s.tables, r) {
        MapKeepsZones(s, k, r, p, f, fl);
      }
    case UnmapPage(r, p) =>
    case NewSpace =>
  }

  lemma {:induction false} RunKeepsZones(s: Memory, k: nat, es: seq<Event>)
    requires WellFormed(s) && Root(s.tables, k) && Zoned(s.tables, k)
    requires forall i :: 0 <= i < |es| ==> Disciplined(es[i], k)
    ensures Zoned(Run(s, k, es).tables, k)
  {
    if es != [] {
      RunKeepsZones(s, k, es[..|es| - 1]);
      RunKeeps(s, k, es[..|es| - 1]);
      StepKeepsZones(Run(s, k, es[..|es| - 1]), k, es[|es| - 1]);
    }
  }

  /** Where every inner entry belongs to its zone, the rights of a page are those of its leaf. */
  lemma ZonedRights(m: Tables, k: nat, r: nat, p: Path)
    requires Forest(m) && Zoned(m, k) && Root(m, r) && Leaf(m, r, p).Some?
    ensures Effective(m, r, p) == Some(RightsOf(Leaf(m, r, p).value.flags))
    ensures Effective(m, r, p).value.user <==> r != k && p.i4 < 256
  {
    EffectiveIffMidsAllow(m, r, p);
    ZoneOfChild(m, k, r, p.i4);
    ZoneOfChild(m, k, Pdpt(m, r, p).value, p.i3);
    ZoneOfChild(m, k, Pd(m, r, p).value, p.i2);
  }

  /**
   In every disciplined run, each mapped page has exactly the rights of its leaf entry, user pages
   are exactly the lower-half pages of processes, and no upper-half page is open to user mode.
   */
  lemma RightsInEveryRun(s: Memory, k: nat, es: seq<Event>, r: nat, p: Path)
    requires WellFormed(s) && Root(s.tables, k) && Zoned(s.tables, k)
    requires forall i :: 0 <= i < |es| ==> Disciplined(es[i], k)
    requires Root(Run(s, k, es).tables, r) && Leaf(Run(s, k, es).tables, r, p).Some?
    ensures var m := Run(s, k, es).tables;
            && Forest(m)
            && Effective(m, r, p) == Some(RightsOf(Leaf(m, r, p).value.flags))
            && (Effective(m, r, p).value.user <==> r != k && p.i4 < 256)
  {
    RunKeeps(s, k, es);
    RunKeepsZones(s, k, es);
    ZonedRights(Run(s, k, es).tables, k, r, p);
  }

  /** A weaker discipline, VMM_USER only below the upper half, already protects the upper half. */
  ghost predicate UpperClosed(m: Tables) {
    forall r, i: Index :: Root(m, r) && i >= 256 && m[r].slots[i].flags.present ==> !m[r].slots[i].flags.user
  }

  ghost predicate UserOnlyBelow(e: Event) {
    e.MapPage? && e.flags.user ==> e.path.i4 < 256
  }

  lemma StepKeepsUpperClosed(s: Memory, k: nat, e: Event)
    requires WellFormed(s) && Root(s.tables, k) && UpperClosed(s.tables) && UserOnlyBelow(e)
    ensures UpperClosed(Step(s, k, e).tables)
  {
    match e
    case MapPage(r, p, f, fl) =>
      if Root(s.tables, r) {
        var n := Map(s, r, p, f, fl).0.tables;
        forall q, i: Index | Root(n, q) && i >= 256 && n[q].slots[i].flags.present
          ensures !n[q].slots[i].flags.user
        {
          MapWritesRootSlot(s, r, p, f, fl, q);
        }
      }
    case UnmapPage(r, p) =>
      if Root(s.tables, r) && Pt(s.tables, r, p).Some? {
        WalkEndsInForest(s.tables, r, p);
      }
    case NewSpace =>
  }

  lemma {:induction false} RunKeepsUpperClosed(s: Memory, k: nat, es: seq<Event>)
    requires WellFormed(s) && Root(s.tables, k) && UpperClosed(s.tables)
    requires forall i :: 0 <= i < |es| ==> UserOnlyBelow(es[i])
    ensures UpperClosed(Run(s, k, es).tables)
  {
    if es != [] {
      RunKeepsUpperClosed(s, k, es[..|es| - 1]);
      RunKeeps(s, k, es[..|es| - 1]);
      StepKeepsUpperClosed(Run(s, k, es[..|es| - 1]), k, es[|es| - 1]);
    }
  }

  /** If VMM_USER is passed only for lower-half addresses, no upper-half page is ever user-accessible. */
  lemma UpperHalfNeverUser(s: Memory, k: nat, es: seq<Event>, r: nat, p: Path)
    requires WellFormed(s) && Root(s.tables, k) && UpperClosed(s.tables) && p.i4 >= 256
    requires forall i :: 0 <= i < |es| ==> UserOnlyBelow(es[i])
    requires Root(Run(s, k, es).tables, r)
    ensures var m := Run(s, k, es).tables;
            Forest(m) && (Effective(m, r, p).Some? ==> !Effective(m, r, p).value.user)
  {
    RunKeeps(s, k, es);
    RunKeepsUpperClosed(s, k, es);
  }

  /** get_or_create leaves an existing entry alone and opens the one it makes. */
  lemma GetOrCreateFlags(s: Memory, t: nat, i: Index)
    requires WellFormed(s) && Inner(s.tables, t)
    ensures var (n, c) := GetOrCreate(s, t, i, true);
            && (s.tables[t].slots[i].flags.present ==> n == s && c == s.tables[t].slots[i].frame)
            && (!s.tables[t].slots[i].flags.present && c != 0 ==>
                  && t in n.tables && n.tables[t].slots[i] == Entry(c, MidFlags(true))
                  && c in n.tables && n.tables[c].slots == EmptySlots())
  {
    GetOrCreateKeeps(s, t, i, true);
  }

  lemma DescendBelowFlags(s: Memory, t3: nat, p: Path)
    requires WellFormed(s) && t3 in s.tables && s.tables[t3].origin.level == 3
    requires DescendBelow(s, t3, p, true).1 != 0
    ensures BelowAllowsUser(DescendBelow(s, t3, p, true).0.tables, t3, p) <==> BelowAllowsUser(s.tables, t3, p)
  {
    GetOrCreateKeeps(s, t3, p.i3, true);
    GetOrCreateFlags(s, t3, p.i3);
    var (s2, t2) := GetOrCreate(s, t3, p.i3, true);
    GetOrCreateKeeps(s2, t2, p.i2, true);
    GetOrCreateFlags(s2, t2, p.i2);
  }

  lemma DescendFlags(s: Memory, r: nat, p: Path)
    requires WellFormed(s) && Root(s.tables, r) && Descend(s, r, p, true).1 != 0
    ensures MidsAllowUser(Descend(s, r, p, true).0.tables, r, p) <==> MidsAllowUser(s.tables, r, p)
  {
    GetOrCreateKeeps(s, r, p.i4, true);
    GetOrCreateFlags(s, r, p.i4);
    var (s1, t3) := GetOrCreate(s, r, p.i4, true);
    DescendBelowFlags(s1, t3, p);
    DescendBelowKeepsRoots(s1, t3, p, true, r);
  }

  lemma LeafWriteKeepsMids(m: Tables, r: nat, p: Path, pt: nat, i: Index, e: Entry)
    requires Forest(m) && Root(m, r) && pt in m && m[pt].origin.level == 1
    ensures MidsAllowUser(SetSlot(m, pt, i, e), r, p) <==> MidsAllowUser(m, r, p)
  {
    if m[r].slots[p.i4].flags.present {
      assert Linked(m, r, p.i4);
      var t3 := m[r].slots[p.i4].frame;
      if m[t3].slots[p.i3].flags.present {
        assert Linked(m, t3, p.i3);
      }
    }
  }

  /**
   get_or_create never raises the rights of a table that is already there. So a page mapped for user
   mode is open to user mode exactly when every inner entry that was there before was.
   */
  lemma UserPageOpenIffMidsWere(s: Memory, r: nat, p: Path, frame: nat, flags: Flags)
    requires WellFormed(s) && Root(s.tables, r) && flags.present && flags.user
    requires |s.pool.free| >= Missing(s.tables, r, p)
    ensures var n := Map(s, r, p, frame, flags).0.tables;
            && Forest(n) && Root(n, r) && Leaf(n, r, p).Some?
            && (Effective(n, r, p) == Some(RightsOf(flags)) <==> MidsAllowUser(s.tables, r, p))
  {
    MapRefinesUpdate(s, r, p, frame, flags);
    var n := Map(s, r, p, frame, flags).0.tables;
    assert Leaf(n, r, p) == Some(Entry(frame, flags));
    EffectiveIffMidsAllow(n, r, p);
    DescendFlags(s, r, p);
    DescendExtends(s, r, p, true);
    DescendReaches(s, r, p, true);
    var (d, pt) := Descend(s, r, p, true);
    LeafWriteKeepsMids(d.tables, r, p, pt, p.i1, Entry(frame, flags));
  }

  // ---------------------------------------------------------------- the kernel's window

  const KERNEL_VIRT_BASE: nat := 0xFFFF_FFFF_8000_0000
  const HEAP_VIRT_BASE: nat := 0xFFFF_FF80_0000_0000
  const HEAP_MAX_SIZE: nat := 256 * 1024 * 1024

  /** The heap window and the kernel image lie under one PML4 slot, so every space sees later heap pages. */
  lemma HeapAndKernelShareSlot(a: nat, b: nat)
    requires HEAP_VIRT_BASE <= a < HEAP_VIRT_BASE + HEAP_MAX_SIZE
    requires KERNEL_VIRT_BASE <= b < TWO64
    ensures PathOf(a).i4 == 511 && PathOf(b).i4 == 511
  {
  }

  // ---------------------------------------------------------------- boot

  /** The first allocation of vmm_init: an empty PML4; 0 if there is no frame for it. */
  ghost function BootRoot(s: Memory): (d: (Memory, nat))
    requires ValidPool(s.pool)
    ensures ValidPool(d.0.pool)
  {
    var (pool, f) := Take(s.pool);
    if f == 0 then (s, 0)
    else (s.(pool := pool, tables := s.tables[f := Table(EmptySlots(), Origin(4, 0, 0, false))]), f)
  }

  /** The state the run theorems start from: a kernel root, nothing mapped, no zone broken. */
  lemma BootRootStarts(s: Memory)
    requires WellFormed(s) && s.tables == map[]
    ensures var (n, k) := BootRoot(s);
            && (k == 0 <==> s.pool.free == {})
            && (k != 0 ==> && WellFormed(n) && Root(n.tables, k)
                           && Zoned(n.tables, k) && UpperClosed(n.tables)
                           && forall p :: Leaf(n.tables, k, p) == None)
  {
  }

  /** Mapping kernel pages into the kernel's own root, as vmm_init does, keeps that start. */
  lemma KernelMapKeepsStart(s: Memory, k: nat, p: Path, f: nat, flags: Flags)
    requires WellFormed(s) && Root(s.tables, k) && Zoned(s.tables, k) && UpperClosed(s.tables)
    requires !flags.user
    ensures var n := Map(s, k, p, f, flags).0;
            WellFormed(n) && Root(n.tables, k) && Zoned(n.tables, k) && UpperClosed(n.tables)
    ensures |s.pool.free| >= 3 ==> Map(s, k, p, f, flags).0.tables[k].slots[p.i4].flags.present
  {
    hide Map;
    hide Zoned;
    hide UpperClosed;
    hide Missing;
    var e := MapPage(k, p, f, flags);
    StepKeeps(s, k, e);
    StepKeepsZones(s, k, e);
    StepKeepsUpperClosed(s, k, e);
    MapRefinesUpdate(s, k, p, f, flags);
    if |s.pool.free| >= 3 {
      MapLinksRoot(s, k, p, f, flags);
    }
  }

  // ---------------------------------------------------------------- runs that show the limits

  /** After boot one frame is gone, the root has no entries, and creating a space costs one more. */
  lemma AfterBoot(s: Memory)
    requires WellFormed(s) && s.tables == map[] && |s.pool.free| >= 2
    ensures var (s1, k) := BootRoot(s);
            && k != 0 && WellFormed(s1) && Root(s1.tables, k) && |s1.pool.free| == |s.pool.free| - 1
            && s1.pool.free != {} && forall i: Index :: s1.tables[k].slots[i] == EMPTY
  {
    hide Forest;
    hide Zoned;
    hide UpperClosed;
    BootRootStarts(s);
  }

  lemma SpaceAfterBoot(s: Memory, k: nat)
    requires WellFormed(s) && Root(s.tables, k) && s.pool.free != {}
    requires forall i: Index :: s.tables[k].slots[i] == EMPTY
    ensures var (n, r) := CreateSpace(s, k);
            && r != 0 && r != k && WellFormed(n) && Root(n.tables, k) && Root(n.tables, r)
            && |n.pool.free| == |s.pool.free| - 1
            && forall i: Index :: n.tables[r].slots[i] == EMPTY
  {
    hide Forest;
    hide Leaf;
    CreateSpaceSharesKernel(s, k);
  }

  /** A kernel page mapped after a space was created, under a slot that was empty then, is not seen there. */
  lemma LateSlotInvisible(s: Memory, p: Path, f: nat, flags: Flags)
    requires WellFormed(s) && s.tables == map[] && |s.pool.free| >= 5 && flags.present
    ensures var (s1, k) := BootRoot(s);
            var (s2, r) := CreateSpace(s1, k);
            var n := Map(s2, k, p, f, flags).0.tables;
            r != 0 && Leaf(n, k, p) == Some(Entry(f, flags)) && Leaf(n, r, p) == None
  {
    hide Leaf;
    hide Map;
    hide Forest;
    hide Missing;
    hide BootRoot;
    hide CreateSpace;
    AfterBoot(s);
    var (s1, k) := BootRoot(s);
    SpaceAfterBoot(s1, k);
    var (s2, r) := CreateSpace(s1, k);
    KernelMappingVisibleIffSlotShared(s2, k, r, p, f, flags);
    MapWritesRootSlot(s2, k, p, f, flags, r);
    EmptySlotHasNoLeaf(Map(s2, k, p, f, flags).0.tables, r, p);
  }

  /** The entry a kernel mapping makes in an empty slot is closed to user mode. */
  lemma KernelEntryIsClosed(s: Memory, k: nat, p: Path, f: nat)
    requires WellFormed(s) && Root(s.tables, k) && |s.pool.free| >= 3 && s.tables[k].slots[p.i4] == EMPTY
    ensures var n := Map(s, k, p, f, KERNEL_RW).0;
            && WellFormed(n) && Root(n.tables, k) && |n.pool.free| >= |s.pool.free| - 3
            && n.tables[k].slots[p.i4].flags == MidFlags(false)
  {
    hide Leaf;
    hide Map;
    hide Forest;
    hide Missing;
    hide Updated;
    hide SameLeaves;
    hide SpentOnTables;
    MapRefinesUpdate(s, k, p, f, KERNEL_RW);
    MapWritesRootSlot(s, k, p, f, KERNEL_RW, k);
    MapLinksRoot(s, k, p, f, KERNEL_RW);
  }

  /** A user page mapped beside a kernel page, under the same inner entries, stays closed to user mode. */
  lemma UserPageBesideKernelPage(s: Memory, f: nat, g: nat)
    requires WellFormed(s) && s.tables == map[] && |s.pool.free| >= 7
    ensures var (s1, k) := BootRoot(s);
            var p, q := Path(0, 0, 0, 0), Path(0, 0, 0, 1);
            var n := Map(Map(s1, k, p, f, KERNEL_RW).0, k, q, g, USER_RW).0.tables;
            && Forest(n) && Root(n, k) && Leaf(n, k, q).Some?
            && Effective(n, k, q) != Some(RightsOf(USER_RW))
  {
    hide Leaf;
    hide Map;
    hide Forest;
    hide Missing;
    hide Effective;
    hide BootRoot;
    AfterBoot(s);
    var (s1, k) := BootRoot(s);
    KernelEntryIsClosed(s1, k, Path(0, 0, 0, 0), f);
    UserPageOpenIffMidsWere(Map(s1, k, Path(0, 0, 0, 0), f, KERNEL_RW).0, k, Path(0, 0, 0, 1), g, USER_RW);
  }
}
