/** The bimodality score of one grid cell. The engine reduces four optional
    statistics over the cell: the fraction `p1` of pixels below the initial
    threshold, the mean `m1` of those pixels, the mean `m2` of the others and
    the variance `sigmat` of all of them. A missing statistic falls back to a
    default, and the score is the between-class variance of the initial
    split divided by the total variance. */
module Bmax {
  import opened Common

  const DefaultP1: real := 0.99
  const DefaultM1: real := -25.0
  const DefaultM2: real := 0.0
  const DefaultSigmaT: real := 2.0

  /** The reductions of one cell; `None` is a null reduction result. */
  datatype CellStats = CellStats(p1: Option<real>, m1: Option<real>, m2: Option<real>, sigmat: Option<real>)

  /** `ee.Algorithms.If(x, x, d)`: the engine treats both a null and a numeric
      zero as false, so either one is replaced by the default. */
  function OrDefault(x: Option<real>, d: real): (r: real)
    ensures x.Some? && x.value != 0.0 ==> r == x.value
    ensures x.None? || x.value == 0.0 ==> r == d
    ensures d != 0.0 ==> r != 0.0
  {
    if x.Some? && x.value != 0.0 then x.value else d
  }

  /** A missing value replaced by the default; a present value is kept,
      zero included. */
  function WhenMissing(x: Option<real>, d: real): (r: real)
    ensures x.Some? ==> r == x.value
    ensures x.None? ==> r == d
  {
    if x.Some? then x.value else d
  }

  /** The statistics after the fallbacks of the source: every default also
      replaces a genuine zero. */
  function AsWrittenStats(st: CellStats): (r: (real, real, real, real))
    ensures r.3 != 0.0
  {
    (OrDefault(st.p1, DefaultP1), OrDefault(st.m1, DefaultM1),
     OrDefault(st.m2, DefaultM2), OrDefault(st.sigmat, DefaultSigmaT))
  }

  /** The statistics with the fallbacks applied only to missing values, but
      with a zero variance still replaced so that the score stays defined. */
  function IntendedStats(st: CellStats): (r: (real, real, real, real))
    ensures r.3 != 0.0
  {
    (WhenMissing(st.p1, DefaultP1), WhenMissing(st.m1, DefaultM1),
     WhenMissing(st.m2, DefaultM2), OrDefault(st.sigmat, DefaultSigmaT))
  }

  /** A present fraction in [0, 1] and a present variance that is not
      negative, as the mean and variance reducers produce them. */
  predicate WellFormed(st: CellStats)
  {
    (st.p1.Some? ==> 0.0 <= st.p1.value <= 1.0) &&
    (st.sigmat.Some? ==> st.sigmat.value >= 0.0)
  }

  /** `sigmab / sigmat` with `sigmab = p1 * (p2 * (m1 - m2)^2)` and
      `p2 = 1 - p1`, over the statistics (p1, m1, m2, sigmat). The score is
      never negative for a fraction in [0, 1] and a positive variance, and a
      cell with only one class (p1 = 0 or 1), or with equal class means, has
      no between-class variance. */
  function Score(v: (real, real, real, real)): (b: real)
    requires v.3 != 0.0
    ensures 0.0 <= v.0 <= 1.0 && v.3 > 0.0 ==> b >= 0.0
    ensures v.0 == 0.0 || v.0 == 1.0 || v.1 == v.2 ==> b == 0.0
  {
    BetweenClassNonNegative(v.0, Sq(v.1 - v.2));
    v.0 * ((1.0 - v.0) * Sq(v.1 - v.2)) / v.3
  }

  /** p·(1−p)·s is non-negative for a fraction p and a non-negative s. */
  lemma BetweenClassNonNegative(p: real, s: real)
    ensures 0.0 <= p <= 1.0 && s >= 0.0 ==> p * ((1.0 - p) * s) >= 0.0
  {
    if 0.0 <= p <= 1.0 && s >= 0.0 {
      var q := (1.0 - p) * s;
      assert q >= 0.0;
    }
  }

  /** The score exactly as the source computes it: defined and never
      negative for well-formed statistics, and 0 for a cell wholly below the
      initial threshold (p1 = 1). */
  function CalcBmaxAsWritten(st: CellStats): (b: real)
    ensures WellFormed(st) ==> b >= 0.0
    ensures st.p1 == Some(1.0) ==> b == 0.0
  {
    Score(AsWrittenStats(st))
  }

  /** The corrected score: defaults stand in for missing reductions only, so
      a cell lying entirely on one side of the initial threshold keeps its
      `p1` of 0 or 1 and scores 0. */
  function CalcBmax(st: CellStats): (b: real)
    ensures WellFormed(st) ==> b >= 0.0
    ensures st.p1 == Some(0.0) || st.p1 == Some(1.0) ==> b == 0.0
  {
    Score(IntendedStats(st))
  }

  /** A cell with no pixel below the initial threshold (p1 = 0, no mean for
      the lower class, a uniform upper class at -5 with variance 0) is scored
      1.98 by the source: the zero fraction is read as missing and becomes
      0.99. With the default cut-off of 0.75 this cell is picked as bimodal. */
  lemma AsWrittenScoresOneClassCell()
    ensures CalcBmaxAsWritten(CellStats(Some(0.0), None, Some(-5.0), Some(0.0))) == 1.98
    ensures CalcBmax(CellStats(Some(0.0), None, Some(-5.0), Some(0.0))) == 0.0
  {
    var st := CellStats(Some(0.0), None, Some(-5.0), Some(0.0));
    var v := AsWrittenStats(st);
    assert v == (0.99, -25.0, -5.0, 2.0);
    assert Sq(v.1 - v.2) == 400.0;
  }

  /** Unless the fraction or the lower mean is exactly zero, the two
      versions agree; a zero upper mean is its own default. */
  lemma AgreeWithoutZeros(st: CellStats)
    requires st.p1 != Some(0.0) && st.m1 != Some(0.0)
    ensures CalcBmax(st) == CalcBmaxAsWritten(st)
  {
    assert IntendedStats(st) == AsWrittenStats(st);
  }

  /** Every default applies to a cell with no reductions at all. */
  lemma NoDataScore()
    ensures CalcBmax(CellStats(None, None, None, None)) == CalcBmaxAsWritten(CellStats(None, None, None, None))
    ensures CalcBmax(CellStats(None, None, None, None)) * DefaultSigmaT
      == DefaultP1 * ((1.0 - DefaultP1) * Sq(DefaultM1 - DefaultM2))
  {
    AgreeWithoutZeros(CellStats(None, None, None, None));
  }
}
