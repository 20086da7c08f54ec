/**
 * The dataset partitioner: the series is cut at int(len(series) * f) into a
 * training prefix and a validation suffix, and each part is windowed with the
 * same context and horizon lengths.
 *
 * The split fraction f is taken as an exact fraction num / den (den > 0), so
 * the product len * f is exact and `int()` truncates it toward zero. The cut
 * is then applied as a Python slice bound: a bound past the end stops at the
 * end, and a negative bound counts from the end.
 */
module Partition {
  import opened Windowing
  import opened Dataset

  /** Python's `int()` applied to the exact quotient a / b: truncation toward zero. */
  function TruncDiv(a: int, b: int): (q: int)
    requires b > 0
    ensures 0 <= a ==> 0 <= q && q * b <= a < (q + 1) * b
    ensures a < 0 ==> q <= 0 && (q - 1) * b < a <= q * b
  {
    if 0 <= a then a / b else -((-a) / b)
  }

  /** The cut index int(length * num / den). */
  function TrainSize(length: nat, num: int, den: int): int
    requires den > 0
  {
    TruncDiv(length * num, den)
  }

  /** Where a Python slice bound k falls in a sequence of length n. */
  function SliceBound(k: int, n: nat): nat
  {
    if k < 0 then (if n + k < 0 then 0 else n + k)
    else if k <= n then k
    else n
  }

  /**
   * series[:k] and series[k:]: the training part is a prefix, the validation
   * part the rest, and the two concatenate back to the series. A cut inside
   * [0, |s|] is taken as it is; one past the end leaves nothing to validate.
   */
  function SplitSeries<T>(s: seq<T>, k: int): (parts: (seq<T>, seq<T>))
    ensures parts.0 + parts.1 == s
    ensures |parts.0| + |parts.1| == |s|
    ensures 0 <= k <= |s| ==> parts.0 == s[..k] && parts.1 == s[k..]
    ensures |s| <= k ==> parts.0 == s && parts.1 == []
    ensures -|s| <= k < 0 ==> |parts.1| == -k
    ensures k < -|s| ==> parts.0 == [] && parts.1 == s
  {
    var b := SliceBound(k, |s|);
    assert s[..b] + s[b..] == s;
    (s[..b], s[b..])
  }

  /** A factor whose product with a positive number is not negative is not negative. */
  lemma NonNegativeFactor(m: int, d: int)
    requires d > 0 && m * d >= 0
    ensures m >= 0
  {
  }

  /**
   * For a split fraction in [0, 1] the cut lies inside the series and is at
   * most length * num / den: the training part is the first
   * floor(length * f) elements and the validation part the remaining ones.
   */
  lemma TrainSizeInRange(length: nat, num: int, den: int)
    requires den > 0 && 0 <= num <= den
    ensures 0 <= TrainSize(length, num, den) <= length
    ensures TrainSize(length, num, den) * den <= length * num
  {
    var a := length * num;
    assert 0 <= a;
    assert a <= length * den by {
      assert length * den - a == length * (den - num);
    }
    var q := TrainSize(length, num, den);
    assert q * den <= a;
    assert (length - q) * den == length * den - q * den;
    NonNegativeFactor(length - q, den);
  }

  /**
   * Windowing the two parts of a split at k keeps the order of the windows of
   * the whole series: the training windows are its first WindowCount(k)
   * windows, and validation window j is window k + j of the series. Windows
   * that straddle the cut belong to neither part.
   */
  lemma SplitWindows<T>(s: seq<T>, k: nat, C: nat, H: nat)
    requires k <= |s|
    ensures WindowCount(k, C, H) <= |Windows(s, C, H)|
    ensures Windows(SplitSeries(s, k).0, C, H) == Windows(s, C, H)[..WindowCount(k, C, H)]
    ensures forall j :: 0 <= j < |Windows(SplitSeries(s, k).1, C, H)| ==>
              k + j < |Windows(s, C, H)| && Windows(SplitSeries(s, k).1, C, H)[j] == Windows(s, C, H)[k + j]
  {
    assert SplitSeries(s, k) == (s[..k], s[k..]);
    WindowsOfPrefix(s, C, H, k);
    WindowsOfSuffix(s, C, H, k);
  }

  /**
   * Builds the training and validation datasets from one series, cut at
   * int(len(series) * num / den); the default fraction is 0.8.
   */
  method PrepareDatasets<T>(series: seq<T>, contextLength: nat, horizonLength: nat,
                            splitNum: int := 4, splitDen: int := 5)
    returns (trainDataset: TimeSeriesDataset<T>, valDataset: TimeSeriesDataset<T>)
    requires splitDen > 0
    ensures fresh(trainDataset) && fresh(valDataset)
    ensures trainDataset.Valid() && valDataset.Valid()
    ensures trainDataset.series + valDataset.series == series
    ensures (trainDataset.series, valDataset.series) == SplitSeries(series, TrainSize(|series|, splitNum, splitDen))
    ensures trainDataset.contextLength == valDataset.contextLength == contextLength
    ensures trainDataset.horizonLength == valDataset.horizonLength == horizonLength
  {
    var trainSize := TrainSize(|series|, splitNum, splitDen);
    var parts := SplitSeries(series, trainSize);
    var trainData := parts.0;
    var valData := parts.1;
    trainDataset := new TimeSeriesDataset(trainData, contextLength, horizonLength);
    valDataset := new TimeSeriesDataset(valData, contextLength, horizonLength);
  }

  /** With the default fraction 0.8 a series of ten observations splits into eight for training and two for validation. */
  lemma DefaultSplitScenario<T>(s: seq<T>)
    requires |s| == 10
    ensures TrainSize(|s|, 4, 5) == 8
    ensures |SplitSeries(s, TrainSize(|s|, 4, 5)).0| == 8
    ensures SplitSeries(s, TrainSize(|s|, 4, 5)).1 == s[8..]
  {
    assert TrainSize(10, 4, 5) == 8;
  }
}
