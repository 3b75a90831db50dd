/** Otsu's between-class criterion over a materialised histogram, as the
    `otsu` function of hydrafloods/thresholding.py computes it: for every
    prefix split k = 1..size, the between-class sum of squares of the first k
    buckets against the rest, and the bucket mean of the best split. */
module OtsuSplit {
  import opened Common

  /** Parallel bucket means and bucket counts, as the histogram reducer
      returns them under the keys `bucketMeans` and `histogram`. */
  datatype Histogram = Histogram(bucketMeans: seq<real>, counts: seq<nat>)

  function Size(h: Histogram): nat
  {
    |h.bucketMeans|
  }

  predicate WellShaped(h: Histogram)
  {
    |h.bucketMeans| == |h.counts|
  }

  /** Sum of a sequence of counts. */
  function CountSum(c: seq<nat>): nat
  {
    if c == [] then 0 else c[0] + CountSum(c[1..])
  }

  /** Sum of m[i] * c[i]: the reduction of `means.multiply(counts)`. */
  function WeightedSum(m: seq<real>, c: seq<nat>): real
    requires |m| == |c|
  {
    if c == [] then 0.0 else m[0] * (c[0] as real) + WeightedSum(m[1..], c[1..])
  }

  lemma {:induction false} CountSumConcat(a: seq<nat>, b: seq<nat>)
    ensures CountSum(a + b) == CountSum(a) + CountSum(b)
  {
    if a == [] {
      assert a + b == b;
    } else {
      assert (a + b)[1..] == a[1..] + b;
      CountSumConcat(a[1..], b);
    }
  }

  lemma {:induction false} WeightedSumConcat(m1: seq<real>, c1: seq<nat>, m2: seq<real>, c2: seq<nat>)
    requires |m1| == |c1| && |m2| == |c2|
    ensures WeightedSum(m1 + m2, c1 + c2) == WeightedSum(m1, c1) + WeightedSum(m2, c2)
  {
    if c1 == [] {
      assert m1 + m2 == m2 && c1 + c2 == c2;
    } else {
      assert (m1 + m2)[1..] == m1[1..] + m2;
      assert (c1 + c2)[1..] == c1[1..] + c2;
      WeightedSumConcat(m1[1..], c1[1..], m2, c2);
    }
  }

  /** A run of empty buckets contributes nothing to the weighted sum. */
  lemma {:induction false} WeightedSumOfEmpty(m: seq<real>, c: seq<nat>)
    requires |m| == |c| && CountSum(c) == 0
    ensures WeightedSum(m, c) == 0.0
  {
    if c != [] {
      WeightedSumOfEmpty(m[1..], c[1..]);
    }
  }

  lemma CountSumSplit(c: seq<nat>, k: nat)
    requires k <= |c|
    ensures CountSum(c[..k]) + CountSum(c[k..]) == CountSum(c)
  {
    assert c == c[..k] + c[k..];
    CountSumConcat(c[..k], c[k..]);
  }

  lemma WeightedSumSplit(m: seq<real>, c: seq<nat>, k: nat)
    requires |m| == |c| && k <= |c|
    ensures WeightedSum(m[..k], c[..k]) + WeightedSum(m[k..], c[k..]) == WeightedSum(m, c)
  {
    assert c == c[..k] + c[k..];
    assert m == m[..k] + m[k..];
    WeightedSumConcat(m[..k], c[..k], m[k..], c[k..]);
  }

  // ---------------------------------------------------------------------
  // The quantities of `otsu` and of its `bss_function`
  // ---------------------------------------------------------------------

  function Total(h: Histogram): nat
  {
    CountSum(h.counts)
  }

  function Sums(h: Histogram): real
    requires WellShaped(h)
  {
    WeightedSum(h.bucketMeans, h.counts)
  }

  /** `sums.divide(total)`: the count-weighted mean of the bucket means. */
  function GlobalMean(h: Histogram): (mu: real)
    requires WellShaped(h)
    ensures Total(h) > 0 ==> mu == Sums(h) / (Total(h) as real)
  {
    Quotient(Sums(h), Total(h) as real)
  }

  /** Count of the lower class of split k: the first k buckets. Together
      with the count of the remaining buckets it makes up the total. */
  function ACount(h: Histogram, k: nat): (a: nat)
    requires WellShaped(h) && k <= Size(h)
    ensures a + CountSum(h.counts[k..]) == Total(h)
  {
    CountSumSplit(h.counts, k);
    CountSum(h.counts[..k])
  }

  function ASum(h: Histogram, k: nat): real
    requires WellShaped(h) && k <= Size(h)
  {
    WeightedSum(h.bucketMeans[..k], h.counts[..k])
  }

  /** Mean of the lower class. Its count times it is the class's weighted
      sum, also when the class is empty. */
  function AMean(h: Histogram, k: nat): (ma: real)
    requires WellShaped(h) && k <= Size(h)
    ensures ACount(h, k) > 0 ==> ma == ASum(h, k) / (ACount(h, k) as real)
    ensures (ACount(h, k) as real) * ma == ASum(h, k)
  {
    if ACount(h, k) == 0 then
      WeightedSumOfEmpty(h.bucketMeans[..k], h.counts[..k]);
      Quotient(ASum(h, k), ACount(h, k) as real)
    else
      DivTimes(ASum(h, k), ACount(h, k) as real);
      Quotient(ASum(h, k), ACount(h, k) as real)
  }

  /** Count of the upper class, by subtraction from the total as the source
      does: it is the count of the buckets from k on, so never negative. */
  function BCount(h: Histogram, k: nat): (b: int)
    requires WellShaped(h) && k <= Size(h)
    ensures b == CountSum(h.counts[k..])
  {
    Total(h) - ACount(h, k)
  }

  /** Mean of the upper class, by subtraction from the grand sum as the
      source does: when the upper class is populated it is the mean of the
      buckets from k on. */
  function BMean(h: Histogram, k: nat): (mb: real)
    requires WellShaped(h) && k <= Size(h)
    ensures BCount(h, k) > 0 ==>
      mb == WeightedSum(h.bucketMeans[k..], h.counts[k..]) / (BCount(h, k) as real)
  {
    var rest := Sums(h) - (ACount(h, k) as real) * AMean(h, k);
    WeightedSumSplit(h.bucketMeans, h.counts, k);
    assert rest == WeightedSum(h.bucketMeans[k..], h.counts[k..]);
    Quotient(rest, BCount(h, k) as real)
  }

  /** Weighted squared deviations of two classes (sizes a, b, means ma, mb)
      from a common mean mu. */
  function Spread(a: real, b: real, ma: real, mb: real, mu: real): (r: real)
    ensures a >= 0.0 && b >= 0.0 ==> r >= 0.0
  {
    WeightedSquare(a, ma - mu);
    WeightedSquare(b, mb - mu);
    a * Sq(ma - mu) + b * Sq(mb - mu)
  }

  /** A non-negative weight times a square is non-negative. */
  lemma WeightedSquare(w: real, d: real)
    ensures w >= 0.0 ==> w * Sq(d) >= 0.0
  {
  }

  /** Between-class sum of squares of split k (`bss_function`); never
      negative. */
  function Bss(h: Histogram, k: nat): (r: real)
    requires WellShaped(h) && k <= Size(h)
    ensures r >= 0.0
  {
    assert BCount(h, k) >= 0;
    Spread(ACount(h, k) as real, BCount(h, k) as real, AMean(h, k), BMean(h, k), GlobalMean(h))
  }

  /** `indices.map(bss_function)` with indices = 1..size. */
  function BssList(h: Histogram): (s: seq<real>)
    requires WellShaped(h)
    ensures |s| == Size(h)
    ensures forall i :: 0 <= i < |s| ==> s[i] == Bss(h, i + 1) && s[i] >= 0.0
  {
    seq(Size(h), i requires 0 <= i < Size(h) => Bss(h, i + 1))
  }

  /** Index of the largest element; among equal largest ones, the last.
      This is element -1 of a stable ascending sort by these keys. */
  function LastArgMax(s: seq<real>): (r: nat)
    requires |s| > 0
    ensures r < |s|
    ensures forall i :: 0 <= i < |s| ==> s[i] <= s[r]
    ensures forall i :: r < i < |s| ==> s[i] < s[r]
  {
    if |s| == 1 then 0
    else
      var j := LastArgMax(s[..|s| - 1]);
      if s[j] > s[|s| - 1] then j else |s| - 1
  }

  /** Split k maximises the between-class sum. */
  ghost predicate MaximalSplit(h: Histogram, k: nat)
  {
    WellShaped(h) && 1 <= k <= Size(h) &&
    forall j :: 1 <= j <= Size(h) ==> Bss(h, j) <= Bss(h, k)
  }

  /** Split k maximises the between-class sum and every later split is worse. */
  ghost predicate LastMaximalSplit(h: Histogram, k: nat)
  {
    MaximalSplit(h, k) &&
    forall j :: k < j <= Size(h) ==> Bss(h, j) < Bss(h, k)
  }

  /** The threshold `otsu` returns: the mean of the last bucket of the lower
      class of the last maximal split. */
  function Otsu(h: Histogram): (r: Result<real>)
    ensures r.Err? <==> !WellShaped(h) || Total(h) == 0
    ensures r.Err? ==> r.error == (if WellShaped(h) then EmptyHistogram else ShapeMismatch)
    ensures r.Ok? ==> r.value in h.bucketMeans
    ensures r.Ok? ==> exists k :: LastMaximalSplit(h, k) && r.value == h.bucketMeans[k - 1]
  {
    if !WellShaped(h) then Err(ShapeMismatch)
    else if Total(h) == 0 then Err(EmptyHistogram)
    else
      assert h.counts != [];
      var i := LastArgMax(BssList(h));
      LastArgMaxSplit(h);
      Ok(h.bucketMeans[i])
  }

  /** The split after the last maximum of the score list is the last maximal split. */
  lemma LastArgMaxSplit(h: Histogram)
    requires WellShaped(h) && Size(h) > 0
    ensures LastMaximalSplit(h, LastArgMax(BssList(h)) + 1)
  {
    var s := BssList(h);
    var i := LastArgMax(s);
    forall j | 1 <= j <= Size(h) ensures Bss(h, j) <= Bss(h, i + 1) {
      assert s[j - 1] == Bss(h, j);
    }
    forall j | i + 1 < j <= Size(h) ensures Bss(h, j) < Bss(h, i + 1) {
      assert s[j - 1] == Bss(h, j);
    }
  }

  // ---------------------------------------------------------------------
  // Properties of the prefix/suffix decomposition
  // ---------------------------------------------------------------------

  /** Every split partitions the buckets: the upper class is exactly the
      suffix, its mean computed by subtraction is the suffix mean, and the
      two classes recompose the total count and the grand sum. */
  lemma SplitDecomposition(h: Histogram, k: nat)
    requires WellShaped(h) && k <= Size(h)
    ensures ACount(h, k) + BCount(h, k) == Total(h)
    ensures BCount(h, k) == CountSum(h.counts[k..])
    ensures ACount(h, k) > 0 ==> (ACount(h, k) as real) * AMean(h, k) == ASum(h, k)
    ensures BCount(h, k) > 0 ==>
      BMean(h, k) == WeightedSum(h.bucketMeans[k..], h.counts[k..]) / (BCount(h, k) as real)
    ensures ACount(h, k) > 0 && BCount(h, k) > 0 ==>
      (ACount(h, k) as real) * AMean(h, k) + (BCount(h, k) as real) * BMean(h, k) == Sums(h)
  {
    if ACount(h, k) > 0 && BCount(h, k) > 0 {
      ClassesRecompose(h, k);
    }
  }

  lemma ClassesRecompose(h: Histogram, k: nat)
    requires WellShaped(h) && k <= Size(h) && ACount(h, k) > 0 && BCount(h, k) > 0
    ensures (ACount(h, k) as real) * AMean(h, k) + (BCount(h, k) as real) * BMean(h, k) == Sums(h)
  {
    var b := BCount(h, k) as real;
    var w := WeightedSum(h.bucketMeans[k..], h.counts[k..]);
    assert BMean(h, k) == w / b;
    DivTimes(w, b);
    assert b * BMean(h, k) == w;
    WeightedSumSplit(h.bucketMeans, h.counts, k);
  }

  /** The last split puts every bucket in the lower class: its mean is the
      global mean, the upper class is empty and the split scores 0. */
  lemma FullSplit(h: Histogram)
    requires WellShaped(h) && Total(h) > 0
    ensures ACount(h, Size(h)) == Total(h)
    ensures AMean(h, Size(h)) == GlobalMean(h)
    ensures BCount(h, Size(h)) == 0
    ensures Bss(h, Size(h)) == 0.0
  {
    assert h.counts[..Size(h)] == h.counts;
    assert h.bucketMeans[..Size(h)] == h.bucketMeans;
  }

  /** A split with an empty class scores 0, whatever value the empty class's
      undefined mean is given. */
  lemma EmptyClassScoresZero(h: Histogram, k: nat)
    requires WellShaped(h) && k <= Size(h)
    requires ACount(h, k) == 0 || BCount(h, k) == 0
    ensures Bss(h, k) == 0.0
  {
    var m, c := h.bucketMeans, h.counts;
    SplitDecomposition(h, k);
    assert c == c[..k] + c[k..];
    assert m == m[..k] + m[k..];
    WeightedSumConcat(m[..k], c[..k], m[k..], c[k..]);
    if ACount(h, k) == 0 {
      WeightedSumOfEmpty(m[..k], c[..k]);
      assert BMean(h, k) == GlobalMean(h);
    } else {
      WeightedSumOfEmpty(m[k..], c[k..]);
      assert AMean(h, k) == GlobalMean(h);
    }
  }

  /** A histogram with buckets but no counts scores 0 at every split, so the
      last argmax of the scores, which the source returns the mean of, is the
      last bucket. `Otsu` refuses such a histogram instead. */
  lemma ZeroTotalScoresZero(h: Histogram)
    requires WellShaped(h) && Total(h) == 0
    ensures forall k :: 1 <= k <= Size(h) ==> Bss(h, k) == 0.0
    ensures Size(h) > 0 ==> LastArgMax(BssList(h)) == Size(h) - 1
  {
    forall k | 1 <= k <= Size(h)
      ensures Bss(h, k) == 0.0
    {
      assert ACount(h, k) == 0 && BCount(h, k) == 0;
    }
    if Size(h) > 0 {
      var s := BssList(h);
      var r := LastArgMax(s);
      assert s[r] == 0.0 && s[Size(h) - 1] == 0.0;
    }
  }

  /** The classic form of Otsu's criterion: for two classes of sizes a and b
      with means ma and mb, and mu the mean of their union, the weighted
      squared deviations from mu sum to a * b * (ma - mb)^2 / (a + b). */
  lemma BetweenClassIdentity(a: real, b: real, ma: real, mb: real, mu: real, n: real)
    requires a > 0.0 && b > 0.0 && n == a + b
    requires mu * n == a * ma + b * mb
    ensures a * Sq(ma - mu) + b * Sq(mb - mu) == a * b * Sq(ma - mb) / n
  {
    var d := ma - mb;
    var u, w := ma - mu, mb - mu;
    assert u * n == b * d;
    assert w * n == - (a * d);
    assert Sq(u) * (n * n) == (b * d) * (b * d) by {
      assert Sq(u) * (n * n) == (u * n) * (u * n);
    }
    assert Sq(w) * (n * n) == (a * d) * (a * d) by {
      assert Sq(w) * (n * n) == (w * n) * (w * n);
    }
    var x := a * Sq(u) + b * Sq(w);
    assert x * (n * n) == a * ((b * d) * (b * d)) + b * ((a * d) * (a * d));
    assert a * ((b * d) * (b * d)) + b * ((a * d) * (a * d)) == (a * b * Sq(d)) * n;
    assert x * n == a * b * Sq(d);
  }

  /** Otsu's criterion in closed form for classes of sizes a, b and means ma, mb. */
  function ClassSeparation(a: real, b: real, ma: real, mb: real): real
  {
    Quotient(a * b * Sq(ma - mb), a + b)
  }

  lemma ClosedForm(a: real, b: real, ma: real, mb: real, mu: real, n: real)
    requires a > 0.0 && b > 0.0 && n == a + b
    requires mu * n == a * ma + b * mb
    ensures Spread(a, b, ma, mb, mu) == ClassSeparation(a, b, ma, mb)
  {
    BetweenClassIdentity(a, b, ma, mb, mu, n);
  }

  /** With both classes populated, the between-class sum of split k equals
      aCount * bCount * (aMean - bMean)^2 / total. */
  lemma OtsuIdentity(h: Histogram, k: nat)
    requires WellShaped(h) && k <= Size(h)
    requires ACount(h, k) > 0 && BCount(h, k) > 0
    ensures Bss(h, k) ==
      ClassSeparation(ACount(h, k) as real, BCount(h, k) as real, AMean(h, k), BMean(h, k))
  {
    GlobalMeanOfClasses(h, k);
    ClosedForm(ACount(h, k) as real, BCount(h, k) as real, AMean(h, k), BMean(h, k),
               GlobalMean(h), Total(h) as real);
  }

  /** The global mean is the count-weighted mean of the two class means. */
  lemma GlobalMeanOfClasses(h: Histogram, k: nat)
    requires WellShaped(h) && k <= Size(h)
    requires ACount(h, k) > 0 && BCount(h, k) > 0
    ensures Total(h) as real == (ACount(h, k) as real) + (BCount(h, k) as real)
    ensures GlobalMean(h) * (Total(h) as real) ==
      (ACount(h, k) as real) * AMean(h, k) + (BCount(h, k) as real) * BMean(h, k)
  {
    SplitDecomposition(h, k);
  }

  // ---------------------------------------------------------------------
  // Which bucket mean is selected
  // ---------------------------------------------------------------------

  lemma {:induction false} CountSumOfZeros(c: seq<nat>)
    requires forall i :: 0 <= i < |c| ==> c[i] == 0
    ensures CountSum(c) == 0
  {
    if c != [] {
      CountSumOfZeros(c[1..]);
    }
  }

  /** Sums over buckets of which only bucket j is populated. */
  lemma SingleSupport(m: seq<real>, c: seq<nat>, j: nat)
    requires |m| == |c| && j < |c|
    requires forall i :: 0 <= i < |c| && i != j ==> c[i] == 0
    ensures CountSum(c) == c[j]
    ensures WeightedSum(m, c) == m[j] * (c[j] as real)
  {
    SingleSupportCount(c, j);
    SingleSupportWeighted(m, c, j);
  }

  lemma {:induction false} SingleSupportCount(c: seq<nat>, j: nat)
    requires j < |c|
    requires forall i :: 0 <= i < |c| && i != j ==> c[i] == 0
    ensures CountSum(c) == c[j]
  {
    var rest := c[1..];
    assert forall i :: 0 <= i < |rest| ==> rest[i] == c[i + 1];
    if j == 0 {
      CountSumOfZeros(rest);
    } else {
      SingleSupportCount(rest, j - 1);
    }
  }

  lemma {:induction false} SingleSupportWeighted(m: seq<real>, c: seq<nat>, j: nat)
    requires |m| == |c| && j < |c|
    requires forall i :: 0 <= i < |c| && i != j ==> c[i] == 0
    ensures WeightedSum(m, c) == m[j] * (c[j] as real)
  {
    var rest := c[1..];
    assert forall i :: 0 <= i < |rest| ==> rest[i] == c[i + 1];
    if j == 0 {
      CountSumOfZeros(rest);
      WeightedSumOfEmpty(m[1..], rest);
    } else {
      SingleSupportWeighted(m[1..], rest, j - 1);
    }
  }

  /** No populated bucket among the first k: the lower class is empty. */
  lemma EmptyPrefix(h: Histogram, k: nat)
    requires WellShaped(h) && k <= Size(h)
    requires forall i :: 0 <= i < k ==> h.counts[i] == 0
    ensures ACount(h, k) == 0
  {
    CountSumOfZeros(h.counts[..k]);
  }

  /** No populated bucket from k on: the upper class is empty. */
  lemma EmptySuffix(h: Histogram, k: nat)
    requires WellShaped(h) && k <= Size(h)
    requires forall i :: k <= i < Size(h) ==> h.counts[i] == 0
    ensures BCount(h, k) == 0
  {
    SplitDecomposition(h, k);
    var c := h.counts[k..];
    assert forall i :: 0 <= i < |c| ==> c[i] == h.counts[k + i];
    CountSumOfZeros(c);
  }

  /** Only buckets p and q of h are populated. */
  ghost predicate OnlyPopulated(h: Histogram, p: nat, q: nat)
  {
    WellShaped(h) && p < q < Size(h) && h.counts[p] > 0 && h.counts[q] > 0 &&
    forall i :: 0 <= i < Size(h) && i != p && i != q ==> h.counts[i] == 0
  }

  /** A split between the two populated buckets p < q separates them exactly. */
  lemma TwoClustersSeparated(h: Histogram, p: nat, q: nat, k: nat)
    requires OnlyPopulated(h, p, q) && p < k <= q
    ensures ACount(h, k) == h.counts[p] && AMean(h, k) == h.bucketMeans[p]
    ensures BCount(h, k) == h.counts[q] && BMean(h, k) == h.bucketMeans[q]
  {
    LowerClassSingle(h, p, k);
    UpperClassSingle(h, q, k);
    LowerClassMean(h, p, k);
    UpperClassMean(h, q, k);
  }

  lemma LowerClassMean(h: Histogram, p: nat, k: nat)
    requires WellShaped(h) && p < k <= Size(h) && h.counts[p] > 0
    requires ACount(h, k) == h.counts[p]
    requires ASum(h, k) == h.bucketMeans[p] * (h.counts[p] as real)
    ensures AMean(h, k) == h.bucketMeans[p]
  {
    QuotientOfMultiple(h.bucketMeans[p], h.counts[p] as real);
  }

  lemma UpperClassMean(h: Histogram, q: nat, k: nat)
    requires WellShaped(h) && k <= q < Size(h) && h.counts[q] > 0
    requires CountSum(h.counts[k..]) == h.counts[q]
    requires WeightedSum(h.bucketMeans[k..], h.counts[k..]) == h.bucketMeans[q] * (h.counts[q] as real)
    ensures BCount(h, k) == h.counts[q] && BMean(h, k) == h.bucketMeans[q]
  {
    var mq, cq := h.bucketMeans[q], h.counts[q] as real;
    var w := WeightedSum(h.bucketMeans[k..], h.counts[k..]);
    assert BCount(h, k) as real == cq;
    assert BMean(h, k) == w / cq;
    assert w == mq * cq;
    QuotientOfMultiple(mq, cq);
  }

  lemma LowerClassSingle(h: Histogram, p: nat, k: nat)
    requires WellShaped(h) && p < k <= Size(h)
    requires forall i :: 0 <= i < k && i != p ==> h.counts[i] == 0
    ensures ACount(h, k) == h.counts[p]
    ensures ASum(h, k) == h.bucketMeans[p] * (h.counts[p] as real)
  {
    var lo, mlo := h.counts[..k], h.bucketMeans[..k];
    assert lo[p] == h.counts[p] && mlo[p] == h.bucketMeans[p];
    assert forall i :: 0 <= i < |lo| && i != p ==> lo[i] == 0;
    SingleSupport(mlo, lo, p);
  }

  lemma UpperClassSingle(h: Histogram, q: nat, k: nat)
    requires WellShaped(h) && k <= q < Size(h)
    requires forall i :: k <= i < Size(h) && i != q ==> h.counts[i] == 0
    ensures CountSum(h.counts[k..]) == h.counts[q]
    ensures WeightedSum(h.bucketMeans[k..], h.counts[k..]) == h.bucketMeans[q] * (h.counts[q] as real)
  {
    var hi, mhi := h.counts[k..], h.bucketMeans[k..];
    assert hi[q - k] == h.counts[q] && mhi[q - k] == h.bucketMeans[q];
    assert forall i :: 0 <= i < |hi| && i != q - k ==> hi[i] == 0 by {
      forall i | 0 <= i < |hi| && i != q - k ensures hi[i] == 0 {
        assert hi[i] == h.counts[k + i];
      }
    }
    SingleSupport(mhi, hi, q - k);
  }

  /** The between-class sum of every split that separates buckets p and q. */
  function TwoClusterScore(h: Histogram, p: nat, q: nat): real
    requires WellShaped(h) && p < q < Size(h)
  {
    ClassSeparation(h.counts[p] as real, h.counts[q] as real, h.bucketMeans[p], h.bucketMeans[q])
  }

  /** Between-class sum of split k of a histogram populated only in buckets p < q. */
  lemma TwoClustersBss(h: Histogram, p: nat, q: nat, k: nat)
    requires OnlyPopulated(h, p, q) && 1 <= k <= Size(h)
    ensures Bss(h, k) == if p < k <= q then TwoClusterScore(h, p, q) else 0.0
  {
    if k <= p {
      EmptyPrefix(h, k);
      EmptyClassScoresZero(h, k);
    } else if q < k {
      EmptySuffix(h, k);
      EmptyClassScoresZero(h, k);
    } else {
      TwoClustersBetween(h, p, q, k);
    }
  }

  lemma TwoClustersBetween(h: Histogram, p: nat, q: nat, k: nat)
    requires OnlyPopulated(h, p, q) && p < k <= q
    ensures Bss(h, k) == TwoClusterScore(h, p, q)
  {
    TwoClustersSeparated(h, p, q, k);
    OtsuIdentity(h, k);
  }

  /** A histogram populated in exactly two buckets p < q of distinct means:
      every split between them ties, and the last of them wins, so the
      threshold is the mean of bucket q - 1, the bucket just below the upper
      population. */
  lemma TwoClusters(h: Histogram, p: nat, q: nat)
    requires OnlyPopulated(h, p, q)
    requires h.bucketMeans[p] != h.bucketMeans[q]
    ensures Otsu(h) == Ok(h.bucketMeans[q - 1])
  {
    var cp, cq := h.counts[p] as real, h.counts[q] as real;
    var d := h.bucketMeans[p] - h.bucketMeans[q];
    var v := TwoClusterScore(h, p, q);
    assert v > 0.0 by {
      var sd := Sq(d);
      SqPositive(d);
      var w := cp * cq;
      assert w > 0.0;
      assert w * sd > 0.0;
      assert cp + cq > 0.0;
    }
    forall k | 1 <= k <= Size(h)
      ensures Bss(h, k) == if p < k <= q then v else 0.0
    {
      TwoClustersBss(h, p, q, k);
    }
    assert Total(h) > 0 by {
      TwoClustersSeparated(h, p, q, q);
      SplitDecomposition(h, q);
    }
    var r := Otsu(h);
    assert r.Ok?;
    var k :| LastMaximalSplit(h, k) && r.value == h.bucketMeans[k - 1];
    assert Bss(h, q) == v;
    assert k == q;
  }

  /** A histogram with a single populated bucket scores 0 on every split, so
      the tie rule picks the last split and the threshold is the last bucket
      mean; no error is raised. */
  lemma SinglePopulatedBucket(h: Histogram, p: nat)
    requires WellShaped(h) && p < Size(h) && h.counts[p] > 0
    requires forall i :: 0 <= i < Size(h) && i != p ==> h.counts[i] == 0
    ensures forall k :: 1 <= k <= Size(h) ==> Bss(h, k) == 0.0
    ensures Otsu(h) == Ok(h.bucketMeans[Size(h) - 1])
  {
    forall k | 1 <= k <= Size(h) ensures Bss(h, k) == 0.0 {
      if k <= p {
        EmptyPrefix(h, k);
      } else {
        EmptySuffix(h, k);
      }
      EmptyClassScoresZero(h, k);
    }
    assert Total(h) > 0 by {
      LowerClassSingle(h, p, Size(h));
      SplitDecomposition(h, Size(h));
    }
    var r := Otsu(h);
    assert r.Ok?;
    var k :| LastMaximalSplit(h, k) && r.value == h.bucketMeans[k - 1];
    assert k == Size(h);
  }

  /** Two equally populated buckets at 0 and 10: the only separating split is
      the first, so the threshold is 0, the lower bucket's mean. */
  lemma SymmetricTwoBuckets(c: nat)
    requires c > 0
    ensures Otsu(Histogram([0.0, 10.0], [c, c])) == Ok(0.0)
  {
    TwoClusters(Histogram([0.0, 10.0], [c, c]), 0, 1);
  }

  /** Two populations with an empty bucket between them: splits 1 and 2 tie,
      and the later one wins, selecting the empty middle bucket's mean. */
  lemma TieGoesToLaterSplit(c: nat)
    requires c > 0
    ensures Otsu(Histogram([0.0, 5.0, 10.0], [c, 0, c])) == Ok(5.0)
  {
    TwoClusters(Histogram([0.0, 5.0, 10.0], [c, 0, c]), 0, 2);
  }

  /** Bucket means in ascending order, as the histogram reducer emits them. */
  ghost predicate Ascending(h: Histogram)
  {
    forall i, j :: 0 <= i <= j < Size(h) ==> h.bucketMeans[i] <= h.bucketMeans[j]
  }

  /** With ascending bucket means, ties between maximal splits resolve in
      favour of the larger bucket mean. */
  lemma TieFavoursLargerMean(h: Histogram, k: nat)
    requires Ascending(h) && Otsu(h).Ok? && MaximalSplit(h, k)
    ensures h.bucketMeans[k - 1] <= Otsu(h).value
  {
    var r := Otsu(h);
    var best :| LastMaximalSplit(h, best) && r.value == h.bucketMeans[best - 1];
    assert k <= best;
  }
}
