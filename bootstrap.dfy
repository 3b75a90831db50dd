/** The bootstrap thresholding of one date of a time series. The scenes of
    the target day are composited; reference polygons that intersect them
    are listed; three polygon ids are drawn at random (with replacement);
    the edge-buffered histogram over the chosen polygons goes through Otsu
    and the result is capped by an upper bound on plausible water values.
    Without any intersecting polygon the upper bound itself is the
    threshold. The composite is then classified with `lt`.

    The engine's work is abstracted: the number of scenes on the date, the
    ids of the intersecting polygons, the smoothed composite, and the
    histogram over any set of chosen polygons are parameters; the calls to
    `random.randint` are the given `draws`. */
module Bootstrap {
  import opened Common
  import opened OtsuSplit
  import opened Classification

  /** The number of polygon ids drawn. */
  const DrawCount: nat := 3

  /** The source's default `upper_threshold`. */
  const DefaultUpperThreshold: real := -14.0

  /** Three indices of the id list, each in [0, n - 1] as
      `random.randint(0, n - 1)` returns them. */
  predicate ValidDraws(draws: seq<int>, n: nat)
  {
    |draws| == DrawCount && forall i :: 0 <= i < |draws| ==> 0 <= draws[i] < n
  }

  /** `random_ids.map(getRandomIds)`: the ids at the drawn indices. */
  function ChosenIds(ids: seq<int>, draws: seq<int>): seq<int>
    requires ValidDraws(draws, |ids|)
  {
    seq(DrawCount, i requires 0 <= i < DrawCount => ids[draws[i]])
  }

  /** The ids kept by `ee.Filter.inList('id', ...)`. */
  function ChosenSet(ids: seq<int>, draws: seq<int>): (s: set<int>)
    requires ValidDraws(draws, |ids|)
    ensures forall x :: x in s <==> exists i :: 0 <= i < DrawCount && x == ids[draws[i]]
    ensures 1 <= |s| <= DrawCount
    ensures s <= set x | x in ids
  {
    var c := ChosenIds(ids, draws);
    var s := set x | x in c;
    assert s == {c[0], c[1], c[2]};
    assert forall x :: x in s ==> x in ids;
    s
  }

  /** The threshold of the target date. */
  function BootstrapThreshold(nImgs: nat, ids: seq<int>, draws: seq<int>,
                              histogramOf: set<int> -> Histogram, upper: real): (r: Result<real>)
    requires ids != [] ==> ValidDraws(draws, |ids|)
    ensures r == Err(NoImagery) <==> nImgs == 0
    ensures nImgs > 0 && ids == [] ==> r == Ok(upper)
    ensures r.Ok? ==> r.value <= upper
    ensures r.Ok? && r.value != upper ==> r.value in histogramOf(ChosenSet(ids, draws)).bucketMeans
    ensures nImgs > 0 && ids != [] ==> (r.Err? <==> Otsu(histogramOf(ChosenSet(ids, draws))).Err?)
  {
    if nImgs == 0 then Err(NoImagery)
    else if ids == [] then Ok(upper)
    else
      match Otsu(histogramOf(ChosenSet(ids, draws)))
      case Err(e) => Err(e)
      case Ok(t) => Ok(Min(t, upper))
  }

  /** The water map of the target date: the smoothed composite below the
      threshold, with the composite's timestamp. It fails exactly when the
      threshold does, and no pixel at or above `upper_threshold` is water. */
  function BootstrapWater(nImgs: nat, ids: seq<int>, draws: seq<int>,
                          histogramOf: set<int> -> Histogram, target: Scene, upper: real)
    : (r: Result<WaterMap>)
    requires ids != [] ==> ValidDraws(draws, |ids|)
    ensures var t := BootstrapThreshold(nImgs, ids, draws, histogramOf, upper);
      (r.Err? <==> t.Err?) && (r.Ok? ==> r.value == Classify(target, t.value, false))
    ensures r.Ok? ==> forall i :: 0 <= i < |r.value.water| && r.value.water[i] == 1 ==> target.pixels[i] < upper
  {
    match BootstrapThreshold(nImgs, ids, draws, histogramOf, upper)
    case Err(e) => Err(e)
    case Ok(t) => Ok(Classify(target, t, false))
  }

  /** `bootstrapOtsu` step by step: the imagery guard, the polygon branch, the
      loop appending one draw per round, the id lookup, Otsu and the cap. */
  method BootstrapOtsu(nImgs: nat, ids: seq<int>, draws: seq<int>,
                       histogramOf: set<int> -> Histogram, target: Scene, upper: real)
    returns (r: Result<WaterMap>)
    requires ids != [] ==> ValidDraws(draws, |ids|)
    ensures r == BootstrapWater(nImgs, ids, draws, histogramOf, target, upper)
  {
    if nImgs <= 0 {
      return Err(NoImagery);
    }
    var threshold: real;
    if |ids| > 0 {
      var randomIds: seq<int> := [];
      var i := 0;
      while i < DrawCount
        invariant 0 <= i <= DrawCount
        invariant randomIds == draws[..i]
      {
        randomIds := randomIds + [draws[i]];
        i := i + 1;
      }
      var chosen := seq(|randomIds|, k requires 0 <= k < |randomIds| => ids[randomIds[k]]);
      assert chosen == ChosenIds(ids, draws);
      var selected := set x | x in chosen;
      var otsu := Otsu(histogramOf(selected));
      if otsu.Err? {
        return Err(otsu.error);
      }
      threshold := Min(otsu.value, upper);
    } else {
      threshold := upper;
    }
    r := Ok(Classify(target, threshold, false));
  }

  /** With intersecting polygons, an Otsu threshold is capped by the upper
      bound, and an Otsu failure is the result's failure. */
  lemma CappedOtsu(nImgs: nat, ids: seq<int>, draws: seq<int>,
                   histogramOf: set<int> -> Histogram, upper: real)
    requires nImgs > 0 && ids != [] && ValidDraws(draws, |ids|)
    ensures var o := Otsu(histogramOf(ChosenSet(ids, draws)));
      (o.Ok? ==>
        BootstrapThreshold(nImgs, ids, draws, histogramOf, upper) == Ok(if o.value <= upper then o.value else upper)) &&
      (o.Err? ==> BootstrapThreshold(nImgs, ids, draws, histogramOf, upper) == Err(o.error))
  {
  }

  /** Draws may repeat: three draws of the first index choose one polygon. */
  lemma RepeatedDraws(ids: seq<int>)
    requires ids != []
    ensures ChosenSet(ids, [0, 0, 0]) == {ids[0]}
  {
    var s := ChosenSet(ids, [0, 0, 0]);
    assert ids[0] in s;
    forall x | x in s ensures x == ids[0] {
    }
  }
}
