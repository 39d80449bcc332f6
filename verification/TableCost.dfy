/**
 What mapping many pages costs: one frame for each distinct table missing on their paths.
 */
module TableCost {
  import opened Machine
  import opened FrameAllocator
  import opened PageTables

  /** A table of one address space, by the indices that lead to it. */
  datatype Place = AtPdpt(i4: Index) | AtPd(i4: Index, i3: Index) | AtPt(i4: Index, i3: Index, i2: Index)

  /** The tables missing on the way to a page. */
  function Needs(m: Tables, r: nat, p: Path): (s: set<Place>) {
    (if Pdpt(m, r, p).None? then {AtPdpt(p.i4)} else {})
    + (if Pd(m, r, p).None? then {AtPd(p.i4, p.i3)} else {})
    + (if Pt(m, r, p).None? then {AtPt(p.i4, p.i3, p.i2)} else {})
  }

  lemma NeedsAreMissing(m: Tables, r: nat, p: Path)
    ensures |Needs(m, r, p)| == Missing(m, r, p)
  {
    var a, b, c := AtPdpt(p.i4), AtPd(p.i4, p.i3), AtPt(p.i4, p.i3, p.i2);
    assert |{a, b, c}| == 3 && |{b, c}| == 2;
    hide Down;
    if Pdpt(m, r, p).None? {
      NothingBelow(m, r, p);
      assert Needs(m, r, p) == {a, b, c};
    } else if Pd(m, r, p).None? {
      NothingBelow(m, r, p);
      assert Needs(m, r, p) == {b, c};
    } else if Pt(m, r, p).None? {
      assert Needs(m, r, p) == {c};
    } else {
      assert Needs(m, r, p) == {};
    }
  }

  lemma NothingBelow(m: Tables, r: nat, p: Path)
    ensures Pdpt(m, r, p).None? ==> Pd(m, r, p).None?
    ensures Pd(m, r, p).None? ==> Pt(m, r, p).None?
  {
  }

  /** The tables missing on the ways to the first c pages, each once. */
  function NeedsOf(m: Tables, r: nat, ps: seq<Path>, c: nat): (s: set<Place>)
    requires c <= |ps|
  {
    if c == 0 then {} else NeedsOf(m, r, ps, c - 1) + Needs(m, r, ps[c - 1])
  }

  function Cost(m: Tables, r: nat, ps: seq<Path>, c: nat): (n: nat)
    requires c <= |ps|
  {
    |NeedsOf(m, r, ps, c)|
  }

  lemma UnionCount(a: set<Place>, b: set<Place>)
    ensures |a + b| == |a| + |b - a| && |b - a| <= |b|
  {
    assert a + b == a + (b - a);
    assert b == (b - a) + (b * a);
  }

  /** At most three tables per page. */
  lemma {:induction false} CostBounded(m: Tables, r: nat, ps: seq<Path>, c: nat)
    requires c <= |ps|
    ensures Cost(m, r, ps, c) <= 3 * c
  {
    hide Needs;
    hide Missing;
    if c > 0 {
      CostBounded(m, r, ps, c - 1);
      NeedsAreMissing(m, r, ps[c - 1]);
      UnionCount(NeedsOf(m, r, ps, c - 1), Needs(m, r, ps[c - 1]));
    }
  }

  lemma {:induction false} NeedsOfHolds(m: Tables, r: nat, ps: seq<Path>, c: nat, i: nat)
    requires i < c <= |ps|
    ensures Needs(m, r, ps[i]) <= NeedsOf(m, r, ps, c)
  {
    if i < c - 1 {
      NeedsOfHolds(m, r, ps, c - 1, i);
    }
  }

  lemma {:induction false} NeedsOfWithin(m: Tables, r: nat, ps: seq<Path>, c: nat, s: set<Place>)
    requires c <= |ps| && forall i :: 0 <= i < c ==> Needs(m, r, ps[i]) <= s
    ensures NeedsOf(m, r, ps, c) <= s
  {
    if c > 0 {
      NeedsOfWithin(m, r, ps, c - 1, s);
    }
  }

  // ---------------------------------------------------------------- one table made

  /** n needs, on every path of r, what m needs except the tables of s. */
  ghost predicate Made(m: Tables, n: Tables, r: nat, s: set<Place>) {
    forall o :: Needs(n, r, o) == Needs(m, r, o) - s
  }

  lemma MadeTwice(m: Tables, n: Tables, d: Tables, r: nat, s: set<Place>, u: set<Place>)
    requires Made(m, n, r, s) && Made(n, d, r, u)
    ensures Made(m, d, r, s + u)
  {
    hide Needs;
    forall o
      ensures Needs(d, r, o) == Needs(m, r, o) - (s + u)
    {
      assert Needs(n, r, o) == Needs(m, r, o) - s;
    }
  }

  lemma MadeNothing(m: Tables, r: nat)
    ensures Made(m, m, r, {})
  {
  }

  /** Pages need what they needed before, without the tables made since. */
  lemma {:induction false} NeedsOfAfter(m: Tables, n: Tables, r: nat, s: set<Place>, ps: seq<Path>, c: nat)
    requires c <= |ps| && Made(m, n, r, s)
    ensures NeedsOf(n, r, ps, c) == NeedsOf(m, r, ps, c) - s
  {
    hide Needs;
    if c > 0 {
      NeedsOfAfter(m, n, r, s, ps, c - 1);
    }
  }

  lemma LinkMakesPdpt(m: Tables, r: nat, p: Path, f: nat, user: bool)
    requires Forest(m) && Root(m, r) && Pdpt(m, r, p).None? && f !in m
    ensures Made(m, Link(m, r, p.i4, f, user), r, {AtPdpt(p.i4)})
  {
    var n := Link(m, r, p.i4, f, user);
    forall o: Path
      ensures Needs(n, r, o) == Needs(m, r, o) - {AtPdpt(p.i4)}
    {
      DownAfterLink(m, r, p.i4, f, user, Some(r), o.i4);
      if o.i4 != p.i4 {
        OtherWalk(m, r, p.i4, f, user, r, o);
      }
    }
  }

  /** A walk that does not pass the new entry is as before. */
  lemma OtherWalk(m: Tables, t: nat, i: Index, f: nat, user: bool, r: nat, o: Path)
    requires Forest(m) && t in m && m[t].origin.level >= 2 && f !in m && !m[t].slots[i].flags.present
    requires Root(m, r)
    requires !(r == t && o.i4 == i)
    requires !(Pdpt(m, r, o) == Some(t) && o.i3 == i) && !(Pd(m, r, o) == Some(t) && o.i2 == i)
    ensures var n := Link(m, t, i, f, user);
            Pdpt(n, r, o) == Pdpt(m, r, o) && Pd(n, r, o) == Pd(m, r, o) && Pt(n, r, o) == Pt(m, r, o)
  {
    DownAfterLink(m, t, i, f, user, Some(r), o.i4);
    var a := Pdpt(m, r, o);
    if a.Some? {
      assert Linked(m, r, o.i4);
      DownAfterLink(m, t, i, f, user, a, o.i3);
      var b := Pd(m, r, o);
      if b.Some? {
        assert Linked(m, a.value, o.i3);
        DownAfterLink(m, t, i, f, user, b, o.i2);
      }
    }
  }

  lemma LinkMakesPd(m: Tables, r: nat, p: Path, f: nat, user: bool)
    requires Forest(m) && Root(m, r) && Pdpt(m, r, p).Some? && Pd(m, r, p).None? && f !in m
    ensures Inner(m, Pdpt(m, r, p).value)
    ensures Made(m, Link(m, Pdpt(m, r, p).value, p.i3, f, user), r, {AtPd(p.i4, p.i3)})
  {
    assert Linked(m, r, p.i4);
    var t := Pdpt(m, r, p).value;
    var n := Link(m, t, p.i3, f, user);
    forall o: Path
      ensures Needs(n, r, o) == Needs(m, r, o) - {AtPd(p.i4, p.i3)}
    {
      DownAfterLink(m, t, p.i3, f, user, Some(r), o.i4);
      if Pdpt(m, r, o).Some? {
        assert Linked(m, r, o.i4);
        DownAfterLink(m, t, p.i3, f, user, Pdpt(m, r, o), o.i3);
        if Pd(m, r, o).Some? {
          assert Linked(m, Pdpt(m, r, o).value, o.i3);
          OtherWalk(m, t, p.i3, f, user, r, o);
        }
      }
    }
  }

  lemma LinkMakesPt(m: Tables, r: nat, p: Path, f: nat, user: bool)
    requires Forest(m) && Root(m, r) && Pd(m, r, p).Some? && Pt(m, r, p).None? && f !in m
    ensures Inner(m, Pd(m, r, p).value)
    ensures Made(m, Link(m, Pd(m, r, p).value, p.i2, f, user), r, {AtPt(p.i4, p.i3, p.i2)})
  {
    assert Linked(m, r, p.i4) && Linked(m, Pdpt(m, r, p).value, p.i3);
    var t := Pd(m, r, p).value;
    var n := Link(m, t, p.i2, f, user);
    forall o: Path
      ensures Needs(n, r, o) == Needs(m, r, o) - {AtPt(p.i4, p.i3, p.i2)}
    {
      DownAfterLink(m, t, p.i2, f, user, Some(r), o.i4);
      if Pdpt(m, r, o).Some? {
        assert Linked(m, r, o.i4);
        DownAfterLink(m, t, p.i2, f, user, Pdpt(m, r, o), o.i3);
        if Pd(m, r, o).Some? {
          assert Linked(m, Pdpt(m, r, o).value, o.i3);
          DownAfterLink(m, t, p.i2, f, user, Pd(m, r, o), o.i2);
        }
      }
    }
  }
  // ---------------------------------------------------------------- the walk of vmm_map

  lemma MakesPdpt(s: Memory, r: nat, p: Path, user: bool)
    requires WellFormed(s) && Root(s.tables, r) && GetOrCreate(s, r, p.i4, user).1 != 0
    ensures Made(s.tables, GetOrCreate(s, r, p.i4, user).0.tables, r,
                 if Pdpt(s.tables, r, p).None? then {AtPdpt(p.i4)} else {})
  {
    hide Made;
    if Pdpt(s.tables, r, p).None? {
      LinkMakesPdpt(s.tables, r, p, Take(s.pool).1, user);
    } else {
      MadeNothing(s.tables, r);
    }
  }

  lemma MakesPd(s: Memory, r: nat, p: Path, user: bool)
    requires WellFormed(s) && Root(s.tables, r) && Pdpt(s.tables, r, p).Some?
    requires GetOrCreate(s, Pdpt(s.tables, r, p).value, p.i3, user).1 != 0
    ensures Made(s.tables, GetOrCreate(s, Pdpt(s.tables, r, p).value, p.i3, user).0.tables, r,
                 if Pd(s.tables, r, p).None? then {AtPd(p.i4, p.i3)} else {})
  {
    hide Made;
    if Pd(s.tables, r, p).None? {
      LinkMakesPd(s.tables, r, p, Take(s.pool).1, user);
    } else {
      MadeNothing(s.tables, r);
    }
  }

  lemma MakesPt(s: Memory, r: nat, p: Path, user: bool)
    requires WellFormed(s) && Root(s.tables, r) && Pd(s.tables, r, p).Some?
    requires GetOrCreate(s, Pd(s.tables, r, p).value, p.i2, user).1 != 0
    ensures Made(s.tables, GetOrCreate(s, Pd(s.tables, r, p).value, p.i2, user).0.tables, r,
                 if Pt(s.tables, r, p).None? then {AtPt(p.i4, p.i3, p.i2)} else {})
  {
    hide Made;
    if Pt(s.tables, r, p).None? {
      LinkMakesPt(s.tables, r, p, Take(s.pool).1, user);
    } else {
      MadeNothing(s.tables, r);
    }
  }

  /** A walk that succeeds makes exactly the tables it found missing. */
  lemma DescendMakes(s: Memory, r: nat, p: Path, user: bool)
    requires WellFormed(s) && Root(s.tables, r) && Descend(s, r, p, user).1 != 0
    ensures Made(s.tables, Descend(s, r, p, user).0.tables, r, Needs(s.tables, r, p))
  {
    hide GetOrCreate;
    hide Made;
    hide Forest;
    hide Leaf;
    hide SameLeaves;
    hide SpentOnTables;
    GetOrCreateKeeps(s, r, p.i4, user);
    MakesPdpt(s, r, p, user);
    var (s1, t3) := GetOrCreate(s, r, p.i4, user);
    GetOrCreateKeeps(s1, t3, p.i3, user);
    MakesPd(s1, r, p, user);
    var (s2, t2) := GetOrCreate(s1, t3, p.i3, user);
    assert Pd(s2.tables, r, p) == Some(t2);
    MakesPt(s2, r, p, user);
    var s3 := GetOrCreate(s2, t2, p.i2, user).0;
    var a := if Pdpt(s.tables, r, p).None? then {AtPdpt(p.i4)} else {};
    var b := if Pd(s1.tables, r, p).None? then {AtPd(p.i4, p.i3)} else {};
    var c := if Pt(s2.tables, r, p).None? then {AtPt(p.i4, p.i3, p.i2)} else {};
    MadeTwice(s.tables, s1.tables, s2.tables, r, a, b);
    MadeTwice(s.tables, s2.tables, s3.tables, r, a + b, c);
    NeedsInTurn(s.tables, s1.tables, s2.tables, r, p, a, b);
  }

  /** What is missing after the first tables were made is what was missing before, without them. */
  lemma NeedsInTurn(m: Tables, m1: Tables, m2: Tables, r: nat, p: Path, a: set<Place>, b: set<Place>)
    requires Made(m, m1, r, a) && Made(m, m2, r, a + b)
    requires a == (if Pdpt(m, r, p).None? then {AtPdpt(p.i4)} else {})
    requires b == (if Pd(m1, r, p).None? then {AtPd(p.i4, p.i3)} else {})
    ensures a + b + (if Pt(m2, r, p).None? then {AtPt(p.i4, p.i3, p.i2)} else {}) == Needs(m, r, p)
  {
    var x, y := AtPd(p.i4, p.i3), AtPt(p.i4, p.i3, p.i2);
    assert Needs(m1, r, p) == Needs(m, r, p) - a && Needs(m2, r, p) == Needs(m, r, p) - (a + b);
    assert x in Needs(m1, r, p) <==> x in Needs(m, r, p);
    assert y in Needs(m2, r, p) <==> y in Needs(m, r, p);
  }

  lemma LeafWriteMakesNothing(m: Tables, pt: nat, i: Index, e: Entry, r: nat)
    requires Forest(m) && pt in m && m[pt].origin.level == 1 && Root(m, r)
    ensures Made(m, SetSlot(m, pt, i, e), r, {})
  {
    forall o: Path
      ensures Needs(SetSlot(m, pt, i, e), r, o) == Needs(m, r, o)
    {
      LeafWriteKeepsWalks(m, pt, i, e, r, o);
    }
  }

  /** vmm_map, where it succeeds, makes exactly the tables that were missing. */
  lemma MapMakes(s: Memory, r: nat, p: Path, frame: nat, flags: Flags)
    requires WellFormed(s) && Root(s.tables, r) && |s.pool.free| >= Missing(s.tables, r, p)
    ensures Made(s.tables, Map(s, r, p, frame, flags).0.tables, r, Needs(s.tables, r, p))
  {
    hide Descend;
    hide Made;
    hide Needs;
    hide Leaf;
    hide Missing;
    hide SameLeaves;
    hide SpentOnTables;
    DescendExtends(s, r, p, flags.user);
    DescendReaches(s, r, p, flags.user);
    DescendCosts(s, r, p, flags.user);
    DescendMakes(s, r, p, flags.user);
    var (d, pt) := Descend(s, r, p, flags.user);
    LeafWriteMakesNothing(d.tables, pt, p.i1, Entry(frame, flags), r);
    MadeTwice(s.tables, d.tables, Map(s, r, p, frame, flags).0.tables, r, Needs(s.tables, r, p), {});
    assert Needs(s.tables, r, p) + {} == Needs(s.tables, r, p);
  }

  /** What page p needs once the first c pages have their tables, added to what those needed. */
  lemma CostGrows(m: Tables, n: Tables, r: nat, ps: seq<Path>, c: nat)
    requires c < |ps| && Made(m, n, r, NeedsOf(m, r, ps, c))
    ensures Cost(m, r, ps, c + 1) == Cost(m, r, ps, c) + Missing(n, r, ps[c])
    ensures NeedsOf(m, r, ps, c + 1) == NeedsOf(m, r, ps, c) + Needs(n, r, ps[c])
  {
    hide Needs;
    hide Missing;
    var a, b := NeedsOf(m, r, ps, c), Needs(m, r, ps[c]);
    assert Needs(n, r, ps[c]) == b - a;
    NeedsAreMissing(n, r, ps[c]);
    UnionCount(a, b);
  }
}
