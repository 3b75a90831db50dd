/** The candidate sub-regions of the grid-sampling path: the footprint's
    bounding box is snapped outwards to multiples of the grid size, the
    snapped box is enumerated row by row into square cells, and a cell is
    kept only when the footprint contains it.

    Coordinates are integers counted in a fixed unit in which the grid size
    is a whole number, so remainders are exact; Dafny's `%` is Euclidean
    (never negative). Footprint containment is an engine geometry test and
    is a parameter of every operation here. */
module Grid {

  /** An axis-aligned rectangle given by its west, south, east and north edges. */
  datatype Rect = Rect(west: int, south: int, east: int, north: int)

  /** `x - x mod g`: the lattice point at or below `x`. */
  function SnapDown(x: int, g: int): (r: int)
    requires g > 0
    ensures r % g == 0
    ensures r <= x < r + g
  {
    MultipleOfSelf(x / g, g);
    x - x % g
  }

  /** `x + (g - x mod g)`: the lattice point strictly above `x`, which is
      `x + g` when `x` is already on the lattice. */
  function SnapUp(x: int, g: int): (r: int)
    requires g > 0
    ensures r % g == 0
    ensures x < r <= x + g
    ensures x % g == 0 ==> r == x + g
  {
    MultipleOfSelf(x / g + 1, g);
    x + (g - x % g)
  }

  lemma {:induction false} MulAtLeast(k: int, g: int)
    requires k >= 1 && g > 0
    ensures k * g >= g
    decreases k
  {
    if k > 1 {
      MulAtLeast(k - 1, g);
      assert k * g == (k - 1) * g + g;
    }
  }

  lemma MulSmall(k: int, g: int)
    requires g > 0 && -g < k * g < g
    ensures k == 0
  {
    if k >= 1 {
      MulAtLeast(k, g);
    } else if k <= -1 {
      MulAtLeast(-k, g);
    }
  }

  lemma DivModUnique(a: int, g: int, q: int, r: int)
    requires g > 0 && a == q * g + r && 0 <= r < g
    ensures a / g == q && a % g == r
  {
    var q', r' := a / g, a % g;
    assert a == q' * g + r';
    assert (q - q') * g == r' - r;
    MulSmall(q - q', g);
  }

  lemma MultipleOfSelf(q: int, g: int)
    requires g > 0
    ensures (q * g) % g == 0
  {
    DivModUnique(q * g, g, q, 0);
  }

  /** Two lattice points closer than one step apart are equal. */
  lemma LatticeGap(a: int, b: int, g: int)
    requires g > 0 && a % g == b % g
    requires a - g < b < a + g
    ensures a == b
  {
    var qa, qb := a / g, b / g;
    assert a == qa * g + a % g;
    assert b == qb * g + b % g;
    assert (qa - qb) * g == a - b;
    MulSmall(qa - qb, g);
  }

  lemma ShiftMod(a: int, g: int)
    requires g > 0
    ensures a % g == (a - g) % g
  {
    var q := a / g;
    assert a == q * g + a % g;
    assert a - g == (q - 1) * g + a % g;
    DivModUnique(a - g, g, q - 1, a % g);
  }
  /** `geom.bounds()` snapped outwards: west and south down, east and north up. */
  function Snap(b: Rect, g: int): (s: Rect)
    requires g > 0
    ensures s.west % g == 0 && s.south % g == 0 && s.east % g == 0 && s.north % g == 0
    ensures s.west <= b.west && s.south <= b.south
    ensures b.east < s.east && b.north < s.north
  {
    Rect(SnapDown(b.west, g), SnapDown(b.south, g), SnapUp(b.east, g), SnapUp(b.north, g))
  }

  /** A bounding box whose edges are on the lattice gains one extra column
      and one extra row from snapping, since east and north move up by a
      whole step. */
  lemma AlignedBoxGrows(b: Rect, g: int)
    requires g > 0
    requires b.west % g == 0 && b.south % g == 0 && b.east % g == 0 && b.north % g == 0
    ensures Snap(b, g) == Rect(b.west, b.south, b.east + g, b.north + g)
  {
    assert SnapDown(b.west, g) == b.west by {
      LatticeGap(SnapDown(b.west, g), b.west, g);
    }
    assert SnapDown(b.south, g) == b.south by {
      LatticeGap(SnapDown(b.south, g), b.south, g);
    }
  }

  /** `ee.List.sequence(start, end, step)`: `start, start + step, ...` up to
      and including `end`; empty when `start > end`. */
  function Sequence(start: int, end: int, step: int): (r: seq<int>)
    requires step > 0
    ensures start > end <==> r == []
    decreases end - start
  {
    if start > end then [] else [start] + Sequence(start + step, end, step)
  }

  /** Element k of the sequence is `start + k * step`. */
  lemma {:induction false} SequenceElement(start: int, end: int, step: int, k: nat)
    requires step > 0 && k < |Sequence(start, end, step)|
    ensures Sequence(start, end, step)[k] == start + k * step
    decreases end - start
  {
    if k > 0 {
      SequenceElement(start + step, end, step, k - 1);
      assert start + step + (k - 1) * step == start + k * step;
    }
  }

  /** The sequence holds exactly the lattice points from `start` to `end`. */
  lemma {:induction false} InSequence(start: int, end: int, step: int, x: int)
    requires step > 0
    ensures x in Sequence(start, end, step) <==> start <= x <= end && (x - start) % step == 0
    decreases end - start
  {
    if start <= end {
      InSequence(start + step, end, step, x);
      ShiftMod(x - start, step);
      if start < x < start + step && (x - start) % step == 0 {
        LatticeGap(x - start, 0, step);
      }
    }
  }

  /** Between two lattice points, the sequence has one element per step plus
      the end point itself. */
  lemma {:induction false} SequenceLength(start: int, end: int, step: int)
    requires step > 0 && start <= end && (end - start) % step == 0
    ensures (|Sequence(start, end, step)| - 1) * step == end - start
    decreases end - start
  {
    if start + step <= end {
      ShiftMod(end - start, step);
      SequenceLength(start + step, end, step);
    } else {
      LatticeGap(end - start, 0, step);
    }
  }

  /** `ee.Geometry.Rectangle(x, y, x + g, y + g)`. */
  function Cell(x: int, y: int, g: int): (c: Rect)
    ensures c.west == x && c.south == y && c.east - c.west == g && c.north - c.south == g
  {
    Rect(x, y, x + g, y + g)
  }

  /** One row of the grid (`contructXGrid` mapped over the columns): the cell
      at each column, dropped when the footprint does not contain it. */
  function Row(y: int, xs: seq<int>, g: int, inside: Rect -> bool): (r: seq<Rect>)
    ensures |r| <= |xs|
    ensures forall c :: c in r <==> c.west in xs && c == Cell(c.west, y, g) && inside(c)
  {
    if xs == [] then []
    else
      var c := Cell(xs[0], y, g);
      (if inside(c) then [c] else []) + Row(y, xs[1..], g, inside)
  }

  /** The rows concatenated (`constuctGrid` mapped over the rows, flattened). */
  function Rows(ys: seq<int>, xs: seq<int>, g: int, inside: Rect -> bool): (r: seq<Rect>)
    ensures forall c :: c in r <==>
      c.south in ys && c.west in xs && c == Cell(c.west, c.south, g) && inside(c)
  {
    if ys == [] then []
    else Row(ys[0], xs, g, inside) + Rows(ys[1..], xs, g, inside)
  }

  /** The candidate cells of a footprint with bounds `b`: rows from the
      snapped south edge to one step below the snapped north edge, columns
      from the snapped west edge to one step below the snapped east edge. */
  function CandidateCells(b: Rect, g: int, inside: Rect -> bool): (r: seq<Rect>)
    requires g > 0
    ensures forall c :: c in r ==> inside(c) && c == Cell(c.west, c.south, g)
  {
    var s := Snap(b, g);
    Rows(Sequence(s.south, s.north - g, g), Sequence(s.west, s.east - g, g), g, inside)
  }

  /** A g-by-g cell whose south-west corner is on the lattice inside `s`. */
  predicate LatticeCell(c: Rect, s: Rect, g: int)
    requires g > 0
  {
    c == Cell(c.west, c.south, g) &&
    c.west % g == 0 && c.south % g == 0 &&
    s.west <= c.west && c.east <= s.east &&
    s.south <= c.south && c.north <= s.north
  }

  /** A cell is a candidate exactly when it is a lattice cell of the snapped
      box and the footprint contains it. */
  lemma CandidateMembership(b: Rect, g: int, inside: Rect -> bool, c: Rect)
    requires g > 0
    ensures c in CandidateCells(b, g, inside) <==> LatticeCell(c, Snap(b, g), g) && inside(c)
  {
    var s := Snap(b, g);
    LatticeStart(c.south, s.south, s.north, g);
    LatticeStart(c.west, s.west, s.east, g);
  }

  /** The starts of the cells between two lattice points `lo` and `hi`. */
  lemma LatticeStart(x: int, lo: int, hi: int, g: int)
    requires g > 0 && lo % g == 0
    ensures x in Sequence(lo, hi - g, g) <==> lo <= x && x + g <= hi && x % g == 0
  {
    InSequence(lo, hi - g, g, x);
    LatticeResidue(x, lo, g);
  }

  lemma LatticeResidue(x: int, origin: int, g: int)
    requires g > 0 && origin % g == 0
    ensures (x - origin) % g == 0 <==> x % g == 0
  {
    var q := origin / g;
    assert origin == q * g;
    assert x - origin == x - q * g;
    ShiftByMultiple(x, q, g);
  }

  lemma {:induction false} ShiftByMultiple(x: int, q: int, g: int)
    requires g > 0
    ensures (x - q * g) % g == x % g
    decreases if q < 0 then -q else q
  {
    if q > 0 {
      ShiftByMultiple(x, q - 1, g);
      ShiftMod(x - (q - 1) * g, g);
      assert x - q * g == x - (q - 1) * g - g;
    } else if q < 0 {
      ShiftByMultiple(x, q + 1, g);
      ShiftMod(x - q * g, g);
      assert x - q * g - g == x - (q + 1) * g;
    }
  }

  /** The containment test that keeps every cell: the grid before filtering. */
  predicate AnyCell(c: Rect)
  {
    true
  }

  /** Rectangles that share interior area. */
  predicate Overlap(a: Rect, b: Rect)
  {
    a.west < b.east && b.west < a.east && a.south < b.north && b.south < a.north
  }

  /** Distinct candidate cells never overlap. */
  lemma CandidatesDisjoint(b: Rect, g: int, inside: Rect -> bool)
    requires g > 0
    ensures forall c1, c2 ::
      (c1 in CandidateCells(b, g, inside) && c2 in CandidateCells(b, g, inside) && Overlap(c1, c2)) ==>
        c1 == c2
  {
    var cells := CandidateCells(b, g, inside);
    forall c1, c2 | c1 in cells && c2 in cells && Overlap(c1, c2) ensures c1 == c2 {
      CandidateMembership(b, g, inside, c1);
      CandidateMembership(b, g, inside, c2);
      OverlappingCells(Snap(b, g), g, c1, c2);
    }
  }

  /** Overlapping g-by-g lattice cells are the same cell. */
  lemma OverlappingCells(s: Rect, g: int, c1: Rect, c2: Rect)
    requires g > 0
    requires LatticeCell(c1, s, g) && LatticeCell(c2, s, g)
    requires Overlap(c1, c2)
    ensures c1 == c2
  {
    LatticeGap(c1.west, c2.west, g);
    LatticeGap(c1.south, c2.south, g);
  }

  /** A point inside a rectangle, with closed west/south and open east/north
      edges, so that adjacent cells do not share a point. */
  predicate PointIn(x: int, y: int, r: Rect)
  {
    r.west <= x < r.east && r.south <= y < r.north
  }

  /** Before the containment filter the cells exactly tile the snapped box:
      every point of the box lies in the cell at its snapped corner, and that
      is the only candidate cell containing it. */
  lemma CandidatesTile(b: Rect, g: int, x: int, y: int)
    requires g > 0
    requires PointIn(x, y, Snap(b, g))
    ensures Cell(SnapDown(x, g), SnapDown(y, g), g) in CandidateCells(b, g, AnyCell)
    ensures PointIn(x, y, Cell(SnapDown(x, g), SnapDown(y, g), g))
    ensures forall c :: c in CandidateCells(b, g, AnyCell) && PointIn(x, y, c) ==>
      c == Cell(SnapDown(x, g), SnapDown(y, g), g)
  {
    var s := Snap(b, g);
    var home := Cell(SnapDown(x, g), SnapDown(y, g), g);
    SnapDownInRange(x, s.west, s.east, g);
    SnapDownInRange(y, s.south, s.north, g);
    CandidateMembership(b, g, AnyCell, home);
    forall c | c in CandidateCells(b, g, AnyCell) && PointIn(x, y, c) ensures c == home {
      CandidateMembership(b, g, AnyCell, c);
      OverlappingCells(s, g, c, home);
    }
  }

  /** The lattice point below a coordinate of an aligned range starts a
      step that lies within that range. */
  lemma SnapDownInRange(x: int, lo: int, hi: int, g: int)
    requires g > 0 && lo % g == 0 && hi % g == 0 && lo <= x < hi
    ensures lo <= SnapDown(x, g) && SnapDown(x, g) + g <= hi
  {
    var d := SnapDown(x, g);
    if d + g > hi {
      ShiftMod(hi, g);
      LatticeGap(d, hi - g, g);
    }
    if d < lo {
      LatticeGap(d, lo, g);
    }
  }

  /** Before the containment filter there are (north - south) / g rows of
      (east - west) / g cells each, for the snapped box. */
  lemma CandidateCount(b: Rect, g: int)
    requires g > 0 && b.west <= b.east && b.south <= b.north
    ensures var s := Snap(b, g);
      |CandidateCells(b, g, AnyCell)| == ((s.north - s.south) / g) * ((s.east - s.west) / g)
  {
    var s := Snap(b, g);
    var ys, xs := Sequence(s.south, s.north - g, g), Sequence(s.west, s.east - g, g);
    var rows, cols := (s.north - s.south) / g, (s.east - s.west) / g;
    assert |ys| == rows by {
      AxisCount(s.south, s.north, g);
    }
    assert |xs| == cols by {
      AxisCount(s.west, s.east, g);
    }
    assert |CandidateCells(b, g, AnyCell)| == |ys| * |xs| by {
      RowsCount(ys, xs, g);
    }
    assert |ys| * |xs| == rows * cols;
  }

  /** An aligned range `lo < hi` holds `(hi - lo) / g` steps. */
  lemma AxisCount(lo: int, hi: int, g: int)
    requires g > 0 && lo % g == 0 && hi % g == 0 && lo < hi
    ensures |Sequence(lo, hi - g, g)| == (hi - lo) / g
  {
    LatticeGapOrder(lo, hi, g);
    AlignedDifference(lo, hi, g);
    SequenceLength(lo, hi - g, g);
    var n := |Sequence(lo, hi - g, g)|;
    assert n * g == hi - lo;
    DivOfMultiple(n, g);
  }

  lemma LatticeGapOrder(lo: int, hi: int, g: int)
    requires g > 0 && lo % g == 0 && hi % g == 0 && lo < hi
    ensures lo + g <= hi
  {
    if hi < lo + g {
      LatticeGap(lo, hi, g);
    }
  }

  lemma AlignedDifference(lo: int, hi: int, g: int)
    requires g > 0 && lo % g == 0 && hi % g == 0
    ensures (hi - g - lo) % g == 0
  {
    LatticeResidue(hi, lo, g);
    ShiftMod(hi - lo, g);
  }

  lemma DivOfMultiple(q: int, g: int)
    requires g > 0
    ensures (q * g) / g == q
  {
    DivModUnique(q * g, g, q, 0);
  }

  lemma {:induction false} RowCount(y: int, xs: seq<int>, g: int)
    ensures |Row(y, xs, g, AnyCell)| == |xs|
  {
    if xs != [] {
      RowCount(y, xs[1..], g);
    }
  }

  lemma {:induction false} RowsCount(ys: seq<int>, xs: seq<int>, g: int)
    ensures |Rows(ys, xs, g, AnyCell)| == |ys| * |xs|
  {
    if ys != [] {
      RowCount(ys[0], xs, g);
      RowsCount(ys[1..], xs, g);
      assert |ys| * |xs| == |xs| + (|ys| - 1) * |xs|;
    }
  }

  /** Every candidate lies inside the snapped box and the footprint contains it. */
  lemma CandidatesInside(b: Rect, g: int, inside: Rect -> bool)
    requires g > 0
    ensures forall c :: c in CandidateCells(b, g, inside) ==>
      inside(c) &&
      Snap(b, g).west <= c.west && c.east <= Snap(b, g).east &&
      Snap(b, g).south <= c.south && c.north <= Snap(b, g).north
  {
    forall c | c in CandidateCells(b, g, inside)
      ensures inside(c)
      ensures Snap(b, g).west <= c.west && c.east <= Snap(b, g).east
      ensures Snap(b, g).south <= c.south && c.north <= Snap(b, g).north
    {
      CandidateMembership(b, g, inside, c);
    }
  }
}
