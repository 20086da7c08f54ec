/**
 * The dataset adapter: an object that owns a series, a context length and a
 * horizon length, materialises every (context, future) window once when it
 * is constructed, and then answers `len` and indexed lookups.
 *
 * Elements of the series are of an arbitrary type T: the adapter only slices
 * and copies them. The tensors the trainer receives are modelled as
 * sequences; the padding vector is a sequence of real zeros and the
 * frequency tag a one-element integer sequence.
 */
module Dataset {
  import opened Windowing

  /** What one lookup hands to the trainer: context, padding mask, frequency tag, future. */
  datatype Sample<T> = Sample(context: seq<T>, inputPadding: seq<real>, freq: seq<int>, future: seq<T>)

  /** A lookup either finds a sample or fails the way a Python list index does. */
  datatype Lookup<T> = Found(sample: Sample<T>) | IndexError

  /** A vector of n zeros, the padding mask that masks nothing. */
  function Zeros(n: nat): seq<real>
  {
    seq(n, _ => 0.0)
  }

  class TimeSeriesDataset<T> {
    const series: seq<T>
    const contextLength: nat
    const horizonLength: nat
    var samples: seq<Window<T>>

    /** The stored samples are exactly the windows of the series. */
    ghost predicate Valid()
      reads this
    {
      samples == Windows(series, contextLength, horizonLength)
    }

    constructor (series: seq<T>, contextLength: nat, horizonLength: nat)
      ensures this.series == series
      ensures this.contextLength == contextLength && this.horizonLength == horizonLength
      ensures Valid()
      ensures |samples| == WindowCount(|series|, contextLength, horizonLength)
    {
      this.series := series;
      this.contextLength := contextLength;
      this.horizonLength := horizonLength;
      samples := [];
      new;
      PrepareSamples();
      WindowsLength(series, contextLength, horizonLength);
    }

    /**
     * Resets the sample list and appends, for every start position from 0 up to
     * |series| - (C + H), the context slice and the future slice that follow it.
     */
    method PrepareSamples()
      modifies this
      ensures samples == Windows(series, contextLength, horizonLength)
    {
      samples := [];
      var totalLength := contextLength + horizonLength;
      var startIdx := 0;
      while startIdx < |series| - totalLength + 1
        invariant 0 <= startIdx <= WindowCount(|series|, contextLength, horizonLength)
        invariant |samples| == startIdx
        invariant forall k :: 0 <= k < startIdx ==>
                    samples[k] == (series[k..k + contextLength], series[k + contextLength..k + totalLength])
      {
        var endIdx := startIdx + contextLength;
        var xContext := series[startIdx..endIdx];
        var xFuture := series[endIdx..endIdx + horizonLength];
        samples := samples + [(xContext, xFuture)];
        startIdx := startIdx + 1;
      }
      WindowsLength(series, contextLength, horizonLength);
      forall k | 0 <= k < |samples|
        ensures samples[k] == Windows(series, contextLength, horizonLength)[k]
      {
        WindowsAt(series, contextLength, horizonLength, k);
      }
    }

    /** The number of samples: max(0, |series| - (C + H) + 1), zero exactly when the series is too short. */
    function Len(): (n: nat)
      reads this
      requires Valid()
      ensures n == WindowCount(|series|, contextLength, horizonLength)
      ensures n == 0 <==> |series| < contextLength + horizonLength
    {
      WindowsLength(series, contextLength, horizonLength);
      |samples|
    }

    /**
     * Indexed lookup with Python list semantics: an index in [-n, n) finds a
     * sample (a negative one counts from the end), any other index is an
     * IndexError. The sample found at position i holds the context
     * series[i .. i+C), the future series[i+C .. i+C+H), a zero padding mask as
     * long as the context and the frequency tag 0.
     */
    function GetItem(index: int): (r: Lookup<T>)
      reads this
      requires Valid()
      ensures r.Found? <==> 0 <= index + Len() && index < Len()
      ensures r.Found? ==>
                var i := if index < 0 then index + Len() else index;
                0 <= i < Len() &&
                r.sample.context == series[i..i + contextLength] &&
                r.sample.future == series[i + contextLength..i + contextLength + horizonLength] &&
                |r.sample.inputPadding| == |r.sample.context| &&
                (forall j :: 0 <= j < |r.sample.inputPadding| ==> r.sample.inputPadding[j] == 0.0) &&
                r.sample.freq == [0]
    {
      var n := |samples|;
      if index < -n || n <= index then IndexError
      else
        var i := if index < 0 then index + n else index;
        WindowsLength(series, contextLength, horizonLength);
        WindowsAt(series, contextLength, horizonLength, i);
        var (xContext, xFuture) := samples[i];
        Found(Sample(xContext, Zeros(|xContext|), [0], xFuture))
    }
  }
}
