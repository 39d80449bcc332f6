/**
 The integer Bresenham line of gfx_draw_line, in every direction.
 */
module Line {
  import opened Divisors

  const INT_MIN: int := -0x8000_0000
  const INT_MAX: int := 0x7FFF_FFFF
  const LIMIT: nat := 715827883 // the largest extent up to which no line overflows an int

  predicate Int32(x: int) {
    INT_MIN <= x <= INT_MAX
  }

  /** A C int: Dafny checks that no operation on it leaves the range. */
  newtype CInt = x: int | Int32(x)

  function Abs(x: int): (n: nat) {
    if x < 0 then -x else x
  }

  function Max(a: nat, b: nat): (m: nat) {
    if a >= b then a else b
  }

  datatype Point = Point(x: int, y: int)

  // ---------------------------------------------------------------- steps from the start

  /** i steps along x and j along y, of a and b in all: how far off the ideal line, times Max(a, b). */
  function Deviation(a: nat, b: nat, i: nat, j: nat): (d: int) {
    a * j - b * i
  }

  /** Inside the box, within half a pixel of the line, and as far along the longer axis as there were steps. */
  predicate OnTrack(a: nat, b: nat, i: nat, j: nat, steps: nat) {
    && i <= a && j <= b
    && 2 * Abs(Deviation(a, b, i, j)) <= Max(a, b)
    && steps == (if a >= b then i else j)
  }

  /** The two tests of the loop: err is Deviation + a - b, and dy is -b. */
  predicate StepsX(a: nat, b: nat, i: nat, j: nat) {
    2 * (Deviation(a, b, i, j) + a - b) + b >= 0
  }

  predicate StepsY(a: nat, b: nat, i: nat, j: nat) {
    2 * (Deviation(a, b, i, j) + a - b) <= a
  }

  lemma DeviationSteps(a: nat, b: nat, i: nat, j: nat)
    ensures Deviation(a, b, i + 1, j) == Deviation(a, b, i, j) - b
    ensures Deviation(a, b, i, j + 1) == Deviation(a, b, i, j) + a
    ensures Deviation(a, b, i + 1, j + 1) == Deviation(a, b, i, j) + a - b
  {
  }

  lemma Grow(n: nat, a: nat, b: nat)
    requires a <= b
    ensures n * a <= n * b && n * (a + 1) == n * a + n
  {
  }

  /** On the longer axis a step is always made; a deviation of at most a half keeps the other inside the box. */
  lemma InsideBox(a: nat, b: nat, i: nat, j: nat)
    requires i <= a && a >= b && 2 * Deviation(a, b, i, j) <= a && a > 0
    ensures j <= b
  {
    if j > b {
      Grow(a, b + 1, j);
      Grow(b, i, a);
      assert false;
    }
  }

  lemma InsideBoxY(a: nat, b: nat, i: nat, j: nat)
    requires j <= b && b > a && 2 * Deviation(a, b, i, j) + b >= 0
    ensures i <= a
  {
    InsideBox(b, a, j, i);
  }

  /** One round keeps the walk on track and moves one step along the longer axis. */
  lemma StepKeepsTrack(a: nat, b: nat, i: nat, j: nat, steps: nat)
    requires OnTrack(a, b, i, j, steps) && steps < Max(a, b)
    ensures var i', j' := (if StepsX(a, b, i, j) then i + 1 else i), (if StepsY(a, b, i, j) then j + 1 else j);
            OnTrack(a, b, i', j', steps + 1)
  {
    DeviationSteps(a, b, i, j);
    var i', j' := (if StepsX(a, b, i, j) then i + 1 else i), (if StepsY(a, b, i, j) then j + 1 else j);
    if a >= b {
      InsideBox(a, b, i', j');
    } else {
      InsideBoxY(a, b, i', j');
    }
  }

  /** At the far end of the longer axis, half a pixel leaves only one place on the other. */
  lemma OnlyEndpoint(n: nat, j: nat, b: nat)
    requires n > 0 && 2 * Abs(n * j - n * b) <= n
    ensures j == b
  {
    if j < b {
      Grow(n, j + 1, b);
      Grow(n, j, b);
      assert false;
    }
    if j > b {
      Grow(n, b + 1, j);
      Grow(n, b, j);
      assert false;
    }
  }

  /** After as many steps as the longer extent, both axes have arrived; not before. */
  lemma ArrivesExactly(a: nat, b: nat, i: nat, j: nat, steps: nat)
    requires OnTrack(a, b, i, j, steps)
    ensures i == a && j == b <==> steps == Max(a, b)
  {
    if steps == Max(a, b) && steps > 0 {
      if a >= b {
        assert b * a == a * b;
        OnlyEndpoint(a, j, b);
      } else {
        assert a * b == b * a;
        OnlyEndpoint(b, i, a);
      }
    }
  }

  /** Until then the longer axis always steps. */
  lemma LongerAxisSteps(a: nat, b: nat, i: nat, j: nat, steps: nat)
    requires OnTrack(a, b, i, j, steps) && steps < Max(a, b)
    ensures a >= b ==> StepsX(a, b, i, j)
    ensures b > a ==> StepsY(a, b, i, j)
  {
  }

  // ---------------------------------------------------------------- lines of points

  /** The point lies in the box of the endpoints. */
  predicate InBox(p: Point, s: Point, e: Point) {
    && (s.x <= p.x <= e.x || e.x <= p.x <= s.x)
    && (s.y <= p.y <= e.y || e.y <= p.y <= s.y)
  }

  /** At most half a pixel off the ideal line, measured along the shorter axis. */
  predicate WithinHalf(p: Point, s: Point, e: Point) {
    2 * Abs((p.y - s.y) * (e.x - s.x) - (p.x - s.x) * (e.y - s.y)) <= Max(Abs(e.x - s.x), Abs(e.y - s.y))
  }

  /** A king's move that advances one pixel along the longer axis. */
  predicate Adjacent(p: Point, q: Point, s: Point, e: Point) {
    && Abs(q.x - p.x) <= 1 && Abs(q.y - p.y) <= 1
    && (if Abs(e.x - s.x) >= Abs(e.y - s.y) then Abs(q.x - p.x) == 1 else Abs(q.y - p.y) == 1)
  }

  /** What gfx_draw_line promises of the pixels it plots, in order. */
  ghost predicate IsLine(pts: seq<Point>, s: Point, e: Point) {
    && |pts| == Max(Abs(e.x - s.x), Abs(e.y - s.y)) + 1
    && pts[0] == s && pts[|pts| - 1] == e
    && (forall k :: 0 <= k < |pts| ==> InBox(pts[k], s, e) && WithinHalf(pts[k], s, e))
    && (forall k :: 0 < k < |pts| ==> Adjacent(pts[k - 1], pts[k], s, e))
  }

  /** i steps along x and j along y, from s towards e. */
  function Pixel(s: Point, e: Point, i: nat, j: nat): (p: Point) {
    Point(if s.x < e.x then s.x + i else s.x - i, if s.y < e.y then s.y + j else s.y - j)
  }

  /** Steps turned into pixels: the box and the half pixel carry over, whatever the directions. */
  lemma TrackIsInLine(s: Point, e: Point, i: nat, j: nat, steps: nat)
    requires OnTrack(Abs(e.x - s.x), Abs(e.y - s.y), i, j, steps)
    ensures InBox(Pixel(s, e, i, j), s, e) && WithinHalf(Pixel(s, e, i, j), s, e)
  {
    var a, b := Abs(e.x - s.x), Abs(e.y - s.y);
    var p := Pixel(s, e, i, j);
    assert Abs((p.y - s.y) * (e.x - s.x) - (p.x - s.x) * (e.y - s.y)) == Abs(Deviation(a, b, i, j)) by {
      SignedProduct(p.y - s.y, e.x - s.x, p.x - s.x, e.y - s.y, a, b, i, j);
    }
  }

  /** Both products change sign together. */
  lemma SignedProduct(u: int, v: int, w: int, z: int, a: nat, b: nat, i: nat, j: nat)
    requires (v == a && w == i) || (v == -(a as int) && w == -(i as int))
    requires (u == j && z == b) || (u == -(j as int) && z == -(b as int))
    ensures Abs(u * v - w * z) == Abs(a * j - b * i)
  {
    assert a * j == j * a && b * i == i * b;
    if v == a && w == i {
      if u != j || z != b {
        assert u * v == -(j * a) && w * z == -(i * b);
      }
    } else if u == j && z == b {
      assert u * v == -(j * a) && w * z == -(i * b);
    } else {
      assert u * v == j * a && w * z == i * b;
    }
  }

  /** Every pixel plotted so far is fine, and they hang together from s on. */
  ghost predicate SoFar(pts: seq<Point>, s: Point, e: Point) {
    && (pts != [] ==> pts[0] == s)
    && (forall k :: 0 <= k < |pts| ==> InBox(pts[k], s, e) && WithinHalf(pts[k], s, e))
    && (forall k :: 0 < k < |pts| ==> Adjacent(pts[k - 1], pts[k], s, e))
  }

  lemma NothingPlotted(s: Point, e: Point)
    ensures SoFar([], s, e)
  {
  }

  lemma PlotNext(pts: seq<Point>, p: Point, s: Point, e: Point)
    requires SoFar(pts, s, e) && InBox(p, s, e) && WithinHalf(p, s, e)
    requires if pts == [] then p == s else Adjacent(pts[|pts| - 1], p, s, e)
    ensures SoFar(pts + [p], s, e)
  {
    hide WithinHalf;
    hide InBox;
    hide Adjacent;
  }

  lemma LineComplete(pts: seq<Point>, s: Point, e: Point)
    requires SoFar(pts, s, e) && |pts| == Max(Abs(e.x - s.x), Abs(e.y - s.y)) + 1 && pts[|pts| - 1] == e
    ensures IsLine(pts, s, e)
  {
    hide WithinHalf;
    hide InBox;
    hide Adjacent;
  }

  lemma MoveIsAdjacent(s: Point, e: Point, i: nat, j: nat, steps: nat)
    requires OnTrack(Abs(e.x - s.x), Abs(e.y - s.y), i, j, steps) && steps < Max(Abs(e.x - s.x), Abs(e.y - s.y))
    ensures var a, b := Abs(e.x - s.x), Abs(e.y - s.y);
            var i', j' := (if StepsX(a, b, i, j) then i + 1 else i), (if StepsY(a, b, i, j) then j + 1 else j);
            Adjacent(Pixel(s, e, i, j), Pixel(s, e, i', j'), s, e)
  {
    hide Deviation;
    LongerAxisSteps(Abs(e.x - s.x), Abs(e.y - s.y), i, j, steps);
  }

  lemma TrackInBounds(a: nat, b: nat, i: nat, j: nat, steps: nat)
    requires OnTrack(a, b, i, j, steps)
    ensures i <= a && j <= b && steps <= Max(a, b)
  {
  }

  lemma TrackStarts(a: nat, b: nat)
    ensures OnTrack(a, b, 0, 0, 0) && Deviation(a, b, 0, 0) == 0
  {
  }

  /** One round. */
  function NextStep(a: nat, b: nat, i: nat, j: nat): (p: (nat, nat)) {
    (if StepsX(a, b, i, j) then i + 1 else i, if StepsY(a, b, i, j) then j + 1 else j)
  }

  /** Where the walk stands after n rounds. */
  function Walk(a: nat, b: nat, n: nat): (p: (nat, nat)) {
    if n == 0 then (0, 0) else NextStep(a, b, Walk(a, b, n - 1).0, Walk(a, b, n - 1).1)
  }

  /** A line of even extent a that rises by one pixel stays level for the first half. */
  lemma {:induction false} LevelFirst(a: nat, n: nat)
    requires a % 2 == 0 && n < a / 2
    ensures Walk(a, 1, n) == (n, 0)
  {
    if n > 0 {
      LevelFirst(a, n - 1);
      assert Deviation(a, 1, n - 1, 0) == 1 - n;
    }
  }

  /** One pixel more and 2 * err overflows, half way along a line that rises by one. */
  lemma LimitIsSharp()
    ensures var a := LIMIT + 1;
            var (i, j) := Walk(a, 1, a / 2);
            (i, j) == (a / 2, 1) && 2 * (Deviation(a, 1, i, j) + a - 1) > INT_MAX
  {
    var a := LIMIT + 1;
    var n := a / 2 - 1;
    LevelFirst(a, n);
    assert Deviation(a, 1, n, 0) == -n;
    assert Deviation(a, 1, n + 1, 1) == a - n - 1;
  }

  // ---------------------------------------------------------------- overflow

  /** The sums of one round, in the order of the source: 2 * err, then err += dy and err += dx where it steps. */
  predicate RoundFits(a: nat, b: nat, i: nat, j: nat) {
    var err := Deviation(a, b, i, j) + a - b;
    var err1 := if StepsX(a, b, i, j) then err - b else err;
    Int32(2 * err) && Int32(err1) && (StepsY(a, b, i, j) ==> Int32(err1 + a))
  }

  ghost predicate RoundFitsAfter(a: nat, b: nat, n: nat) {
    RoundFits(a, b, Walk(a, b, n).0, Walk(a, b, n).1)
  }

  /** No sum of the whole line leaves the range of an int. */
  ghost predicate NeverOverflows(a: nat, b: nat) {
    Int32(a) && Int32(b) && forall n: nat :: n < Max(a, b) ==> RoundFitsAfter(a, b, n)
  }

  /** How far the walk is off after n rounds. */
  function Off(a: nat, b: nat, n: nat): (d: int) {
    Deviation(a, b, Walk(a, b, n).0, Walk(a, b, n).1)
  }

  /** On a flat line every round steps along x, and the deviation stays in a half-open range of length a. */
  lemma {:induction false} FlatWalk(a: nat, b: nat, n: nat)
    requires a >= b && n <= a
    ensures Walk(a, b, n).0 == n && 0 <= a + 2 * Off(a, b, n) && 2 * Off(a, b, n) <= a
    ensures a > 0 ==> 0 < a + 2 * Off(a, b, n)
    ensures StepsX(a, b, n, Walk(a, b, n).1)
    ensures n < a ==> Off(a, b, n + 1) == Off(a, b, n) - b + (if StepsY(a, b, n, Walk(a, b, n).1) then a else 0)
  {
    if n > 0 {
      FlatWalk(a, b, n - 1);
    }
    hide Deviation;
    DeviationSteps(a, b, n, Walk(a, b, n).1);
    TrackStarts(a, b);
  }

  /** The deviation is a multiple of gcd(a, b), so it lies between the dip and the peak. */
  lemma OffBetween(a: nat, b: nat, n: nat)
    requires a >= b && a > 0 && n <= a
    ensures -Dip(a, b) <= Off(a, b, n) <= Peak(a, b)
  {
    hide Peak;
    hide Dip;
    hide Gcd;
    FlatWalk(a, b, n);
    var x, y := GcdDivides(a, b);
    var j := Walk(a, b, n).1;
    var g := Gcd(a, b);
    Regroup(g, x, y, j, n);
    MultipleBetween(a, b, x * j - y * n);
  }

  lemma Regroup(g: int, x: int, y: int, j: int, n: int)
    ensures g * x * j - g * y * n == g * (x * j - y * n)
  {
    assert g * x * j == g * (x * j) && g * y * n == g * (y * n);
  }

  /** Two values of one residue in a half-open range of length a are equal. */
  lemma OneResidue(a: nat, d: int, m: int, k: int)
    requires a > 0 && d - m == a * k && 0 < a + 2 * d && 2 * d <= a && 0 < a + 2 * m && 2 * m <= a
    ensures d == m
  {
    if k > 0 {
      AtLeast(a, k);
    } else if k < 0 {
      AtLeast(a, -k);
      Twice(a, k);
    }
  }

  /** Every multiple of the gcd in that range comes up in some round. */
  lemma EveryMultipleComesUp(a: nat, b: nat, t: int) returns (n: nat)
    requires a >= b && a > 0 && 0 < a + 2 * (Gcd(a, b) * t) && 2 * (Gcd(a, b) * t) <= a
    ensures n < a && Off(a, b, n) == Gcd(a, b) * t
  {
    hide Gcd;
    var x, y := Bezout(a, b);
    var q;
    n, q := Residue(-(y * t), a);
    FlatWalk(a, b, n);
    var j := Walk(a, b, n).1;
    Congruent(a, b, Gcd(a, b), x, y, t, q, j);
    OneResidue(a, Off(a, b, n), Gcd(a, b) * t, j - x * t + b * q);
  }

  lemma Congruent(a: int, b: int, g: int, x: int, y: int, t: int, q: int, j: int)
    requires a * x + b * y == g
    ensures a * j - b * (-(y * t) - a * q) - g * t == a * (j - x * t + b * q)
  {
    TimesBoth(a, x, b, y, t);
    TimesRest(b, y * t, a, q);
    TimesThree(a, j, x * t, b * q);
  }

  lemma TimesBoth(a: int, x: int, b: int, y: int, t: int)
    ensures (a * x + b * y) * t == a * (x * t) + b * (y * t)
  {
    assert (a * x + b * y) * t == a * x * t + b * y * t;
  }

  lemma TimesRest(b: int, p: int, a: int, q: int)
    ensures b * (-p - a * q) == -(b * p) - a * (b * q)
  {
    var z := a * q;
    assert b * (-p - z) == -(b * p) - b * z;
    assert b * (a * q) == a * (b * q);
  }

  lemma TimesThree(a: int, j: int, u: int, v: int)
    ensures a * (j - u + v) == a * j - a * u + a * v
  {
  }

  lemma PeakComesUp(a: nat, b: nat) returns (n: nat)
    requires a >= b && a > 0
    ensures n < a && Off(a, b, n) == Peak(a, b)
  {
    hide Gcd;
    hide Off;
    PeakInRange(a, b);
    n := EveryMultipleComesUp(a, b, a / Gcd(a, b) / 2);
  }

  lemma DipComesUp(a: nat, b: nat) returns (n: nat)
    requires a >= b && a > 0
    ensures n < a && Off(a, b, n) == -Dip(a, b)
  {
    hide Gcd;
    hide Off;
    PeakInRange(a, b);
    var t := (a / Gcd(a, b) - 1) / 2;
    Twice(Gcd(a, b), t);
    n := EveryMultipleComesUp(a, b, -t);
  }

  /** The exact condition on the extents, where the line is at most as steep as the diagonal. */
  ghost predicate FlatFits(a: nat, b: nat)
    requires a >= b
  {
    a == 0 || (2 * (Peak(a, b) + a - b) <= INT_MAX && Dip(a, b) + 2 * b - a <= -INT_MIN)
  }

  lemma FlatRound(a: nat, b: nat, n: nat)
    requires a >= b && n < a && Int32(a)
    ensures var d, d' := Off(a, b, n), Off(a, b, n + 1);
            RoundFitsAfter(a, b, n) <==>
            Int32(2 * (d + a - b)) && Int32(d + a - 2 * b)
            && (StepsY(a, b, n, Walk(a, b, n).1) ==> Int32(d' + a - b))
  {
    FlatWalk(a, b, n);
  }

  lemma FlatNeverOverflowsIff(a: nat, b: nat)
    requires a >= b
    ensures NeverOverflows(a, b) <==> Int32(a) && FlatFits(a, b)
  {
    hide Peak;
    hide Dip;
    hide Off;
    hide RoundFitsAfter;
    if a > 0 && Int32(a) && FlatFits(a, b) {
      PeakInRange(a, b);
      forall n: nat | n < a
        ensures RoundFitsAfter(a, b, n)
      {
        OffBetween(a, b, n);
        OffBetween(a, b, n + 1);
        FlatRound(a, b, n);
      }
    }
    if a > 0 && NeverOverflows(a, b) {
      var n := PeakComesUp(a, b);
      FlatRound(a, b, n);
      var m := DipComesUp(a, b);
      FlatRound(a, b, m);
    }
  }

  /** A steep line is the mirror image of a flat one, rounding included. */
  lemma {:induction false} Mirrored(a: nat, b: nat, n: nat)
    ensures Walk(a, b, n) == (Walk(b, a, n).1, Walk(b, a, n).0)
    ensures Off(a, b, n) == -Off(b, a, n)
  {
    if n > 0 {
      Mirrored(a, b, n - 1);
    }
  }

  /** The condition where it is steeper. There the sums are negated, and dy is added before dx. */
  ghost predicate SteepFits(a: nat, b: nat)
    requires b > a
  {
    2 * (Peak(b, a) + b - a) <= -INT_MIN && (a == 0 || Peak(b, a) + b <= -INT_MIN)
  }

  lemma SteepRound(a: nat, b: nat, n: nat)
    requires b > a && n < b && Int32(b)
    ensures var d, d' := Off(b, a, n), Off(b, a, n + 1);
            var turns := StepsY(b, a, n, Walk(b, a, n).1);
            RoundFitsAfter(a, b, n) <==>
            && Int32(-2 * (d + b - a))
            && (if turns then Int32(-d' - b) else Int32(-(d + b - a)))
            && Int32(-(d' + b - a))
  {
    Mirrored(a, b, n);
    FlatWalk(b, a, n);
  }

  /** The peak is reached by a step along both axes. */
  lemma TurnToPeak(a: nat, b: nat) returns (n: nat)
    requires b > a > 0
    ensures n < b && Off(b, a, n + 1) == Peak(b, a) && StepsY(b, a, n, Walk(b, a, n).1)
  {
    hide Peak;
    hide Dip;
    PeakPositive(a, b);
    var m := PeakComesUp(b, a);
    TrackStarts(b, a);
    n := m - 1;
    OffBetween(b, a, n);
    FlatWalk(b, a, n);
  }

  lemma PeakPositive(a: nat, b: nat)
    requires b > a > 0
    ensures Peak(b, a) > 0
  {
    hide Peak;
    hide Dip;
    hide Gcd;
    var g, x := Halves(b, a);
    var _, y := GcdDivides(b, a);
    MulOrder(g, x, y);
    MulOrder(g, 1, y);
    AtLeast(g, x / 2);
  }

  lemma SteepNeverOverflowsIff(a: nat, b: nat)
    requires b > a
    ensures NeverOverflows(a, b) <==> Int32(b) && SteepFits(a, b)
  {
    hide Peak;
    hide Dip;
    hide Off;
    hide RoundFitsAfter;
    if Int32(b) && SteepFits(a, b) {
      PeakInRange(b, a);
      forall n: nat | n < b
        ensures RoundFitsAfter(a, b, n)
      {
        OffBetween(b, a, n);
        OffBetween(b, a, n + 1);
        SteepRound(a, b, n);
        if a == 0 {
          UprightNeverTurns(b, n);
        }
      }
    }
    if NeverOverflows(a, b) {
      var n := PeakComesUp(b, a);
      SteepRound(a, b, n);
      if a > 0 {
        var m := TurnToPeak(a, b);
        SteepRound(a, b, m);
      }
    }
  }

  lemma UprightNeverTurns(b: nat, n: nat)
    requires b > 0 && n < b
    ensures !StepsY(b, 0, n, Walk(b, 0, n).1)
  {
    hide Peak;
    hide Dip;
    FlatWalk(b, 0, n);
    FlatWalk(b, 0, n + 1);
  }

  /** What gfx_draw_line demands of the extents so that its arithmetic is defined. */
  ghost predicate Fits(a: nat, b: nat) {
    Int32(a) && Int32(b) && if a >= b then FlatFits(a, b) else SteepFits(a, b)
  }

  /** The line never leaves the range of an int exactly when its extents fit. */
  lemma NeverOverflowsIff(a: nat, b: nat)
    ensures NeverOverflows(a, b) <==> Fits(a, b)
  {
    if a >= b {
      FlatNeverOverflowsIff(a, b);
    } else {
      SteepNeverOverflowsIff(a, b);
    }
  }

  /** Up to LIMIT every line fits, and beyond it not every one. */
  lemma UniformLimit(n: nat)
    ensures (forall a: nat, b: nat :: a <= n && b <= n ==> NeverOverflows(a, b)) <==> n <= LIMIT
  {
    hide NeverOverflows;
    if n <= LIMIT {
      forall a: nat, b: nat | a <= n && b <= n
        ensures NeverOverflows(a, b)
      {
        NeverOverflowsIff(a, b);
        if a >= b {
          LimitFits(a, b);
        } else {
          LimitFits(b, a);
        }
      }
    } else {
      NeverOverflowsIff(LIMIT + 1, 1);
      assert Gcd(LIMIT + 1, 1) == 1;
    }
  }

  lemma LimitFits(a: nat, b: nat)
    requires b <= a <= LIMIT
    ensures a > 0 ==> 2 * (Peak(a, b) + a - b) <= INT_MAX && Dip(a, b) <= a && Peak(a, b) <= a
  {
    if a > 0 {
      PeakInRange(a, b);
    }
  }

  // ---------------------------------------------------------------- the code

  /** The two tests and updates of the loop, in C ints. */
  method Advance(s: Point, e: Point, dx: CInt, dy: CInt, sx: int, sy: int, p: Point, err: CInt,
                 ghost a: nat, ghost b: nat, ghost i: nat, ghost j: nat, ghost steps: nat)
    returns (q: Point, err': CInt, ghost i': nat, ghost j': nat)
    requires dx as int == a == Abs(e.x - s.x) && -(dy as int) == b == Abs(e.y - s.y)
    requires sx == (if s.x < e.x then 1 else -1) && sy == (if s.y < e.y then 1 else -1)
    requires p == Pixel(s, e, i, j) && err as int == Deviation(a, b, i, j) + a - b
    requires OnTrack(a, b, i, j, steps) && steps < Max(a, b) && RoundFits(a, b, i, j)
    ensures q == Pixel(s, e, i', j') && err' as int == Deviation(a, b, i', j') + a - b
    ensures OnTrack(a, b, i', j', steps + 1) && Adjacent(p, q, s, e)
    ensures (i', j') == NextStep(a, b, i, j)
  {
    hide OnTrack;
    hide Deviation;
    hide Adjacent;
    MoveIsAdjacent(s, e, i, j, steps);
    StepKeepsTrack(a, b, i, j, steps);
    DeviationSteps(a, b, i, j);
    var e2 := 2 * err;
    q, err' := p, err;
    if e2 >= dy {
      err' := err' + dy;
      q := q.(x := q.x + sx);
    }
    if e2 <= dx {
      err' := err' + dx;
      q := q.(y := q.y + sy);
    }
    i', j' := NextStep(a, b, i, j).0, NextStep(a, b, i, j).1;
  }

  /** gfx_draw_line: the plotted pixels, in order. It is called for when the arithmetic is defined. */
  method DrawLine(s: Point, e: Point) returns (pts: seq<Point>)
    requires Int32(s.x) && Int32(s.y) && Int32(e.x) && Int32(e.y)
    requires Fits(Abs(e.x - s.x), Abs(e.y - s.y))
    ensures IsLine(pts, s, e)
  {
    hide OnTrack;
    hide Deviation;
    hide WithinHalf;
    hide InBox;
    hide Adjacent;
    hide SoFar;
    hide IsLine;
    hide RoundFits;
    ghost var a, b := Abs(e.x - s.x), Abs(e.y - s.y);
    NeverOverflowsIff(a, b);
    hide Fits;
    var dx := (if e.x > s.x then e.x - s.x else s.x - e.x) as CInt;
    var dy := -((if e.y > s.y then e.y - s.y else s.y - e.y) as CInt);
    var sx := if s.x < e.x then 1 else -1;
    var sy := if s.y < e.y then 1 else -1;
    var err := dx + dy;
    var p := s;
    pts := [];
    ghost var i, j := 0, 0;
    TrackStarts(a, b);
    NothingPlotted(s, e);
    while true
      invariant p == Pixel(s, e, i, j) && err as int == Deviation(a, b, i, j) + a - b
      invariant OnTrack(a, b, i, j, |pts|) && SoFar(pts, s, e) && (i, j) == Walk(a, b, |pts|)
      invariant if pts == [] then p == s else Adjacent(pts[|pts| - 1], p, s, e)
      decreases Max(a, b) - |pts|
    {
      TrackIsInLine(s, e, i, j, |pts|);
      TrackInBounds(a, b, i, j, |pts|);
      ArrivesExactly(a, b, i, j, |pts|);
      PlotNext(pts, p, s, e);
      pts := pts + [p];
      if p.x == e.x && p.y == e.y {
        LineComplete(pts, s, e);
        return;
      }
      assert RoundFitsAfter(a, b, |pts| - 1);
      p, err, i, j := Advance(s, e, dx, dy, sx, sy, p, err, a, b, i, j, |pts| - 1);
    }
  }
}
