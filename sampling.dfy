/** Choosing the sub-regions whose pixels feed the histogram on the grid
    path: every candidate cell is scored, cells scoring above the cut-off
    survive, and each survivor is kept when its random key falls below
    `maxBoxes / nBoxes`. This is a probabilistic cap on the sample size,
    not an exact top-K.

    The random keys of `randomColumn(seed)` are a caller-supplied function
    from cell to key, so the same seed and cells give the same sample. The
    cell score is a parameter too: `CalcBmaxAsWritten` is the source's
    `calcBmax`, `CalcBmax` its corrected form. */
module Sampling {
  import opened Common
  import opened Grid
  import opened Bmax

  /** A candidate cell with its `bmax` property set. */
  datatype ScoredCell = ScoredCell(cell: Rect, bmax: real)

  /** `grid.map(calcBmax)`, with the score function given. */
  function ScoreCells(cells: seq<Rect>, statsOf: Rect -> CellStats, score: CellStats -> real)
    : (r: seq<ScoredCell>)
    ensures |r| == |cells|
    ensures forall i :: 0 <= i < |r| ==> r[i].cell == cells[i]
    ensures forall s :: s in r <==> s.cell in cells && s.bmax == score(statsOf(s.cell))
  {
    if cells == [] then []
    else [ScoredCell(cells[0], score(statsOf(cells[0])))] + ScoreCells(cells[1..], statsOf, score)
  }

  /** `filter(ee.Filter.gt('bmax', bmaxThresh))`, keeping the order. */
  function Survivors(scored: seq<ScoredCell>, thresh: real): (r: seq<ScoredCell>)
    ensures |r| <= |scored|
    ensures forall s :: s in r <==> s in scored && s.bmax > thresh
  {
    if scored == [] then []
    else (if scored[0].bmax > thresh then [scored[0]] else []) + Survivors(scored[1..], thresh)
  }

  /** `maxBoxes / nBoxes`; the engine's division by a zero count yields 0,
      and nothing is then left to select. */
  function RandomThreshold(maxBoxes: nat, nBoxes: nat): (t: real)
    ensures t >= 0.0
    ensures nBoxes > 0 ==> t * (nBoxes as real) == maxBoxes as real
  {
    Quotient(maxBoxes as real, nBoxes as real)
  }

  /** `filter(ee.Filter.lt('random', limit))`, keeping the order. */
  function KeepByKey(s: seq<ScoredCell>, key: Rect -> real, limit: real): (r: seq<ScoredCell>)
    ensures |r| <= |s|
    ensures forall x :: x in r <==> x in s && key(x.cell) < limit
    ensures (forall i :: 0 <= i < |s| ==> key(s[i].cell) < limit) ==> r == s
  {
    if s == [] then []
    else (if key(s[0].cell) < limit then [s[0]] else []) + KeepByKey(s[1..], key, limit)
  }

  /** The sample: survivors of the cut-off, capped by their random keys. A
      cell is sampled exactly when it is a candidate carrying its own score,
      that score exceeds the cut-off and its key is below `maxBoxes / nBoxes`. */
  function Select(cells: seq<Rect>, statsOf: Rect -> CellStats, score: CellStats -> real,
                  thresh: real, maxBoxes: nat, key: Rect -> real): (r: seq<ScoredCell>)
    ensures |r| <= |cells|
    ensures var n := |Survivors(ScoreCells(cells, statsOf, score), thresh)|;
      forall s :: s in r <==>
        s.cell in cells && s.bmax == score(statsOf(s.cell)) && s.bmax > thresh &&
        key(s.cell) < RandomThreshold(maxBoxes, n)
  {
    var survivors := Survivors(ScoreCells(cells, statsOf, score), thresh);
    KeepByKey(survivors, key, RandomThreshold(maxBoxes, |survivors|))
  }

  /** Every sampled cell scores above the cut-off and survived it. */
  lemma SelectedAboveThreshold(cells: seq<Rect>, statsOf: Rect -> CellStats,
                               score: CellStats -> real, thresh: real,
                               maxBoxes: nat, key: Rect -> real)
    ensures forall s :: s in Select(cells, statsOf, score, thresh, maxBoxes, key) ==>
      s.bmax > thresh && s in Survivors(ScoreCells(cells, statsOf, score), thresh)
  {
  }

  /** The random keys lie in [0, 1). */
  ghost predicate UnitKeys(key: Rect -> real)
  {
    forall c :: 0.0 <= key(c) < 1.0
  }

  /** With no more survivors than `maxBoxes`, the cap keeps every survivor. */
  lemma KeepAllWhenFew(cells: seq<Rect>, statsOf: Rect -> CellStats,
                       score: CellStats -> real, thresh: real,
                       maxBoxes: nat, key: Rect -> real)
    requires UnitKeys(key)
    requires |Survivors(ScoreCells(cells, statsOf, score), thresh)| <= maxBoxes
    ensures Select(cells, statsOf, score, thresh, maxBoxes, key) ==
      Survivors(ScoreCells(cells, statsOf, score), thresh)
  {
    var survivors := Survivors(ScoreCells(cells, statsOf, score), thresh);
    var n := |survivors|;
    if n > 0 {
      var t := RandomThreshold(maxBoxes, n);
      CapAtLeastOne(maxBoxes, n);
      forall i | 0 <= i < n ensures key(survivors[i].cell) < t {
        assert key(survivors[i].cell) < 1.0;
      }
      assert KeepByKey(survivors, key, t) == survivors;
    }
  }

  /** With no more candidates than `maxBoxes` the cap is at least 1. */
  lemma CapAtLeastOne(maxBoxes: nat, n: nat)
    requires 0 < n <= maxBoxes
    ensures RandomThreshold(maxBoxes, n) >= 1.0
  {
    var t, m, k := RandomThreshold(maxBoxes, n), maxBoxes as real, n as real;
    assert t * k == m;
    if t < 1.0 {
      calc {
        m;
        == t * k;
        < 1.0 * k;
      }
    }
  }

  /** Sampling the grid of a footprint yields only lattice cells of the
      snapped box that the footprint contains, each carrying its own score. */
  lemma SampleFromGrid(b: Rect, g: int, inside: Rect -> bool, statsOf: Rect -> CellStats,
                       score: CellStats -> real, thresh: real, maxBoxes: nat, key: Rect -> real)
    requires g > 0
    ensures forall s :: s in Select(CandidateCells(b, g, inside), statsOf, score, thresh, maxBoxes, key) ==>
      LatticeCell(s.cell, Snap(b, g), g) && inside(s.cell) &&
      s.bmax == score(statsOf(s.cell)) && s.bmax > thresh
  {
    forall s | s in Select(CandidateCells(b, g, inside), statsOf, score, thresh, maxBoxes, key)
      ensures LatticeCell(s.cell, Snap(b, g), g) && inside(s.cell)
      ensures s.bmax == score(statsOf(s.cell)) && s.bmax > thresh
    {
      CandidateMembership(b, g, inside, s.cell);
    }
  }

  /** The cell of the finding on `calcBmax` (no pixel below the initial
      threshold, upper class uniform at -5): with the source's score it
      survives the default cut-off 0.75; with the corrected score it does not. */
  lemma OneClassCellSurvives(c: Rect)
    ensures var st := CellStats(Some(0.0), None, Some(-5.0), Some(0.0));
      Survivors(ScoreCells([c], _ => st, CalcBmaxAsWritten), 0.75) == [ScoredCell(c, 1.98)]
    ensures var st := CellStats(Some(0.0), None, Some(-5.0), Some(0.0));
      Survivors(ScoreCells([c], _ => st, CalcBmax), 0.75) == []
  {
    var st := CellStats(Some(0.0), None, Some(-5.0), Some(0.0));
    AsWrittenScoresOneClassCell();
    var w := ScoreCells([c], _ => st, CalcBmaxAsWritten);
    assert w == [ScoredCell(c, 1.98)];
    assert Survivors(w[1..], 0.75) == [];
    var v := ScoreCells([c], _ => st, CalcBmax);
    assert v == [ScoredCell(c, 0.0)];
    assert Survivors(v[1..], 0.75) == [];
  }
}
