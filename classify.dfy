/** Turning a threshold into a water map, and the two single-scene thresholding
    paths that end in it: the grid path (score cells, sample, histogram,
    Otsu, classify) and the edge path (histogram of the edge buffer, Otsu,
    classify). A raster is a sequence of pixel values and its timestamp. */
module Classification {
  import opened Common
  import opened OtsuSplit
  import opened Grid
  import opened Bmax
  import opened Sampling

  /** A single-band scene and its `system:time_start`. */
  datatype Scene = Scene(pixels: seq<real>, timeStart: int)

  /** The `water` band, one 0/1 value per pixel, and the scene's timestamp. */
  datatype WaterMap = WaterMap(water: seq<int>, timeStart: int)

  /** `img.gt(threshold)` when inverted, `img.lt(threshold)` otherwise. */
  predicate IsWater(x: real, t: real, invert: bool)
  {
    if invert then x > t else x < t
  }

  /** The classification, cast to 8 bits, carrying the scene's timestamp. */
  function Classify(scene: Scene, t: real, invert: bool): (m: WaterMap)
    ensures |m.water| == |scene.pixels| && m.timeStart == scene.timeStart
    ensures forall i :: 0 <= i < |m.water| ==> m.water[i] == 0 || m.water[i] == 1
    ensures forall i :: 0 <= i < |m.water| ==> (m.water[i] == 1 <==> IsWater(scene.pixels[i], t, invert))
  {
    WaterMap(seq(|scene.pixels|, i requires 0 <= i < |scene.pixels| =>
      if IsWater(scene.pixels[i], t, invert) then 1 else 0), scene.timeStart)
  }

  /** Away from the threshold itself, inverting swaps water and land. */
  lemma InvertComplements(scene: Scene, t: real)
    ensures forall i :: 0 <= i < |scene.pixels| && scene.pixels[i] != t ==>
      Classify(scene, t, true).water[i] == 1 - Classify(scene, t, false).water[i]
  {
  }

  /** A pixel equal to the threshold is land in both directions. */
  lemma ThresholdPixelIsLand(x: real, t: real, invert: bool)
    requires x == t
    ensures !IsWater(x, t, invert)
  {
  }

  /** Otsu's threshold applied to a scene; a histogram Otsu rejects yields
      its error and no map. */
  function ApplyThreshold(scene: Scene, h: Histogram, invert: bool): (r: Result<WaterMap>)
    ensures r.Err? <==> !WellShaped(h) || Total(h) == 0
    ensures Otsu(h).Err? ==> r == Err(Otsu(h).error)
    ensures Otsu(h).Ok? ==> r == Ok(Classify(scene, Otsu(h).value, invert))
    ensures r.Ok? ==> exists t :: t in h.bucketMeans && r.value == Classify(scene, t, invert)
  {
    match Otsu(h)
    case Err(e) => Err(e)
    case Ok(t) => Ok(Classify(scene, t, invert))
  }

  /** The edge path: the histogram of the buffered edge pixels is given. It
      fails exactly when that histogram is unusable; otherwise the scene is
      classified at Otsu's threshold, a bucket mean of that histogram. */
  function EdgeOtsu(scene: Scene, edgeHistogram: Histogram, invert: bool): (r: Result<WaterMap>)
    ensures r.Err? <==> !WellShaped(edgeHistogram) || Total(edgeHistogram) == 0
    ensures r.Ok? ==>
      Otsu(edgeHistogram).value in edgeHistogram.bucketMeans &&
      r.value == Classify(scene, Otsu(edgeHistogram).value, invert)
  {
    ApplyThreshold(scene, edgeHistogram, invert)
  }

  /** The grid path. The histogram reducer over the sampled cells is the
      parameter `histogramOf`, and `score` is the cell score. It fails
      exactly when the sample's histogram is unusable. */
  function BmaxOtsu(scene: Scene, bounds: Rect, g: int, inside: Rect -> bool,
                    statsOf: Rect -> CellStats, score: CellStats -> real, bmaxThresh: real,
                    maxBoxes: nat, key: Rect -> real, histogramOf: seq<ScoredCell> -> Histogram,
                    invert: bool): (r: Result<WaterMap>)
    requires g > 0
    ensures var h := histogramOf(Select(CandidateCells(bounds, g, inside), statsOf, score, bmaxThresh, maxBoxes, key));
      r.Err? <==> !WellShaped(h) || Total(h) == 0
  {
    var sample := Select(CandidateCells(bounds, g, inside), statsOf, score, bmaxThresh, maxBoxes, key);
    ApplyThreshold(scene, histogramOf(sample), invert)
  }

  /** A successful grid path classifies the scene at Otsu's threshold of the
      sample's histogram, which is one of its bucket means, and every sampled
      cell is a lattice cell of the snapped box that the footprint contains,
      scoring above the cut-off. */
  lemma BmaxOtsuResult(scene: Scene, bounds: Rect, g: int, inside: Rect -> bool,
                       statsOf: Rect -> CellStats, score: CellStats -> real, bmaxThresh: real,
                       maxBoxes: nat, key: Rect -> real, histogramOf: seq<ScoredCell> -> Histogram,
                       invert: bool)
    requires g > 0
    ensures var sample := Select(CandidateCells(bounds, g, inside), statsOf, score, bmaxThresh, maxBoxes, key);
      var r := BmaxOtsu(scene, bounds, g, inside, statsOf, score, bmaxThresh, maxBoxes, key, histogramOf, invert);
      r.Ok? ==>
        Otsu(histogramOf(sample)).value in histogramOf(sample).bucketMeans &&
        r.value == Classify(scene, Otsu(histogramOf(sample)).value, invert)
    ensures var sample := Select(CandidateCells(bounds, g, inside), statsOf, score, bmaxThresh, maxBoxes, key);
      forall s :: s in sample ==>
        LatticeCell(s.cell, Snap(bounds, g), g) && inside(s.cell) &&
        s.bmax == score(statsOf(s.cell)) && s.bmax > bmaxThresh
  {
    SampleFromGrid(bounds, g, inside, statsOf, score, bmaxThresh, maxBoxes, key);
  }

  /** A sample with no cell gives a histogram with no pixel, so the grid path
      stops with an empty-histogram error rather than a threshold. */
  lemma EmptySampleFails(scene: Scene, bounds: Rect, g: int, inside: Rect -> bool,
                         statsOf: Rect -> CellStats, score: CellStats -> real, bmaxThresh: real,
                         maxBoxes: nat, key: Rect -> real, histogramOf: seq<ScoredCell> -> Histogram,
                         invert: bool)
    requires g > 0
    requires WellShaped(histogramOf([])) && Total(histogramOf([])) == 0
    requires Select(CandidateCells(bounds, g, inside), statsOf, score, bmaxThresh, maxBoxes, key) == []
    ensures BmaxOtsu(scene, bounds, g, inside, statsOf, score, bmaxThresh, maxBoxes, key, histogramOf, invert)
      == Err(EmptyHistogram)
  {
  }

  /** Every pixel value of the scene is one of two values. */
  ghost predicate TwoValued(scene: Scene, lo: real, hi: real)
  {
    forall i :: 0 <= i < |scene.pixels| ==> scene.pixels[i] == lo || scene.pixels[i] == hi
  }

  /** A scene made of two populations, with a histogram whose only populated
      buckets p < q hold them and whose bucket q - 1 lies strictly between:
      the lower population is water and the upper one land. */
  lemma SeparatedPopulations(scene: Scene, h: Histogram, p: nat, q: nat)
    requires OnlyPopulated(h, p, q)
    requires h.bucketMeans[p] < h.bucketMeans[q - 1] < h.bucketMeans[q]
    requires TwoValued(scene, h.bucketMeans[p], h.bucketMeans[q])
    ensures ApplyThreshold(scene, h, false).Ok?
    ensures forall i :: 0 <= i < |scene.pixels| ==>
      (ApplyThreshold(scene, h, false).value.water[i] == 1 <==> scene.pixels[i] == h.bucketMeans[p])
  {
    TwoClusters(h, p, q);
  }

  /** When the two populations sit in adjacent buckets the threshold is the
      lower population's own value, and the strict comparison then classifies
      no pixel as water. */
  lemma AdjacentPopulations(scene: Scene, h: Histogram, p: nat)
    requires OnlyPopulated(h, p, p + 1)
    requires h.bucketMeans[p] < h.bucketMeans[p + 1]
    requires TwoValued(scene, h.bucketMeans[p], h.bucketMeans[p + 1])
    ensures ApplyThreshold(scene, h, false).Ok?
    ensures forall i :: 0 <= i < |scene.pixels| ==> ApplyThreshold(scene, h, false).value.water[i] == 0
  {
    TwoClusters(h, p, p + 1);
  }

  /** A scene half at -20 and half at -5, histogrammed over three buckets:
      the threshold -12.5 lies strictly between the halves, and exactly the
      -20 half is water. */
  lemma HalvesExample(scene: Scene, c: nat)
    requires c > 0
    requires TwoValued(scene, -20.0, -5.0)
    ensures ApplyThreshold(scene, Histogram([-20.0, -12.5, -5.0], [c, 0, c]), false)
      == Ok(Classify(scene, -12.5, false))
    ensures forall i :: 0 <= i < |scene.pixels| ==>
      (Classify(scene, -12.5, false).water[i] == 1 <==> scene.pixels[i] == -20.0)
  {
    TwoClusters(Histogram([-20.0, -12.5, -5.0], [c, 0, c]), 0, 2);
  }
}
