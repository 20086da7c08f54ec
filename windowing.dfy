/**
 * The windowed sample builder: how a one-dimensional series is cut into
 * (context, future) pairs by a window of context length C and horizon
 * length H that slides forward one position at a time.
 *
 * `Windows` is the reference definition: take the series, cut it at C and
 * at C + H, then drop the first element and repeat while at least C + H
 * elements remain. The lemmas below give its length, every element of it
 * by position, and how it behaves on prefixes and suffixes of the series.
 */
module Windowing {

  /** One sample before it is handed to the trainer: (context, future). */
  type Window<T> = (seq<T>, seq<T>)

  /** max(0, L - (C + H) + 1): how many start positions leave room for a full window. */
  function WindowCount(L: nat, C: nat, H: nat): nat
  {
    if C + H <= L then L - (C + H) + 1 else 0
  }

  /** The windows of `s`, ordered by start position, stride 1. */
  function Windows<T>(s: seq<T>, C: nat, H: nat): seq<Window<T>>
    decreases |s|
  {
    if |s| < C + H then []
    else [(s[..C], s[C..C + H])] + (if |s| == C + H then [] else Windows(s[1..], C, H))
  }

  /** There are exactly max(0, |s| - (C + H) + 1) windows; none when the series is too short. */
  lemma {:induction false} WindowsLength<T>(s: seq<T>, C: nat, H: nat)
    ensures |Windows(s, C, H)| == WindowCount(|s|, C, H)
    ensures Windows(s, C, H) == [] <==> |s| < C + H
  {
    if C + H < |s| {
      WindowsLength(s[1..], C, H);
    }
  }

  /**
   * Window i is the context s[i .. i+C) followed by the future s[i+C .. i+C+H):
   * both have their full length and together they are the slice s[i .. i+C+H).
   */
  lemma {:induction false} WindowsAt<T>(s: seq<T>, C: nat, H: nat, i: nat)
    requires i < WindowCount(|s|, C, H)
    ensures |Windows(s, C, H)| == WindowCount(|s|, C, H)
    ensures Windows(s, C, H)[i] == (s[i..i + C], s[i + C..i + C + H])
    ensures |Windows(s, C, H)[i].0| == C && |Windows(s, C, H)[i].1| == H
    ensures Windows(s, C, H)[i].0 + Windows(s, C, H)[i].1 == s[i..i + C + H]
  {
    WindowsLength(s, C, H);
    WindowAtStart(s, C, H, i);
    assert s[i..i + C] + s[i + C..i + C + H] == s[i..i + C + H];
  }

  /** The induction behind WindowsAt: each step drops the first element of the series. */
  lemma {:induction false} WindowAtStart<T>(s: seq<T>, C: nat, H: nat, i: nat)
    requires i + C + H <= |s|
    ensures i < |Windows(s, C, H)| && Windows(s, C, H)[i] == (s[i..i + C], s[i + C..i + C + H])
  {
    if i > 0 {
      var t := s[1..];
      WindowAtStart(t, C, H, i - 1);
      assert Windows(s, C, H) == [(s[..C], s[C..C + H])] + Windows(t, C, H);
      assert t[i - 1..i - 1 + C] == s[i..i + C];
      assert t[i - 1 + C..i - 1 + C + H] == s[i + C..i + C + H];
    }
  }

  /**
   * Windowing a prefix s[..k] keeps exactly the windows of s that end at or
   * before k, in the same order.
   */
  lemma WindowsOfPrefix<T>(s: seq<T>, C: nat, H: nat, k: nat)
    requires k <= |s|
    ensures WindowCount(k, C, H) <= |Windows(s, C, H)|
    ensures Windows(s[..k], C, H) == Windows(s, C, H)[..WindowCount(k, C, H)]
  {
    var n := WindowCount(k, C, H);
    WindowsLength(s, C, H);
    WindowsLength(s[..k], C, H);
    forall i | 0 <= i < n
      ensures Windows(s[..k], C, H)[i] == Windows(s, C, H)[i]
    {
      var p := s[..k];
      WindowAtStart(p, C, H, i);
      WindowAtStart(s, C, H, i);
      assert p[i..i + C] == s[i..i + C];
      assert p[i + C..i + C + H] == s[i + C..i + C + H];
    }
  }

  /** Window j of the suffix s[k..] is window k + j of s. */
  lemma SuffixWindowAt<T>(s: seq<T>, C: nat, H: nat, k: nat, j: nat)
    requires k + j + C + H <= |s|
    ensures j < |Windows(s[k..], C, H)| && k + j < |Windows(s, C, H)|
    ensures Windows(s[k..], C, H)[j] == Windows(s, C, H)[k + j]
  {
    var t := s[k..];
    WindowAtStart(t, C, H, j);
    WindowAtStart(s, C, H, k + j);
    assert t[j..j + C] == s[k + j..k + j + C];
    assert t[j + C..j + C + H] == s[k + j + C..k + j + C + H];
  }

  /**
   * Windowing a suffix s[k..] yields the windows of s that start at or after
   * k, in the same order: window j of the suffix is window k + j of s.
   */
  lemma WindowsOfSuffix<T>(s: seq<T>, C: nat, H: nat, k: nat)
    requires k <= |s|
    ensures |Windows(s[k..], C, H)| == WindowCount(|s| - k, C, H)
    ensures forall j :: 0 <= j < |Windows(s[k..], C, H)| ==>
              k + j < |Windows(s, C, H)| && Windows(s[k..], C, H)[j] == Windows(s, C, H)[k + j]
  {
    var t := s[k..];
    WindowsLength(t, C, H);
    WindowsLength(s, C, H);
    forall j | 0 <= j < |Windows(t, C, H)|
      ensures k + j < |Windows(s, C, H)| && Windows(t, C, H)[j] == Windows(s, C, H)[k + j]
    {
      SuffixWindowAt(s, C, H, k, j);
    }
  }

  /**
   * Stride 1: the windows from start position i on are exactly the windows of
   * the series with its first i elements dropped, so window i is s[i..] cut at
   * C and at C + H, and window i + 1 starts one position after window i.
   */
  lemma WindowsSuffix<T>(s: seq<T>, C: nat, H: nat, i: nat)
    requires i < WindowCount(|s|, C, H)
    ensures |Windows(s, C, H)| == WindowCount(|s|, C, H)
    ensures Windows(s[i..], C, H) == Windows(s, C, H)[i..]
    ensures Windows(s, C, H)[i] == (s[i..][..C], s[i..][C..C + H])
  {
    WindowsLength(s, C, H);
    WindowsOfSuffix(s, C, H, i);
    SuffixWindowAt(s, C, H, i, 0);
    WindowAtStart(s[i..], C, H, 0);
  }

  /** Ten observations 1..10 with C = 3 and H = 2 give six windows, from ([1,2,3],[4,5]) to ([6,7,8],[9,10]). */
  lemma TenObservationsScenario()
    ensures |Windows([1, 2, 3, 4, 5, 6, 7, 8, 9, 10], 3, 2)| == 6
    ensures Windows([1, 2, 3, 4, 5, 6, 7, 8, 9, 10], 3, 2)[0] == ([1, 2, 3], [4, 5])
    ensures Windows([1, 2, 3, 4, 5, 6, 7, 8, 9, 10], 3, 2)[5] == ([6, 7, 8], [9, 10])
  {
    var s := [1, 2, 3, 4, 5, 6, 7, 8, 9, 10];
    WindowsAt(s, 3, 2, 0);
    WindowsAt(s, 3, 2, 5);
    assert s[0..3] == [1, 2, 3] && s[3..5] == [4, 5];
    assert s[5..8] == [6, 7, 8] && s[8..10] == [9, 10];
  }

  /** A series of four observations is too short for C = 3 and H = 2: no window, and no failure. */
  lemma ShortSeriesScenario<T>(s: seq<T>)
    requires |s| == 4
    ensures Windows(s, 3, 2) == []
  {
    WindowsLength(s, 3, 2);
  }
}
