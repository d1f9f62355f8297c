/** The rolling average behind `ScreenPixel.pixel`: one history list per
    (x, y, channel) key, first in first out, at most `average_frames` long,
    whose floor mean is the smoothed channel value. */
module Averaging {
  import opened Stats

  /** The history a key holds once `arrivals` have been fed to it: the last
      `n` of them, or all of them while there are fewer. */
  function LastN(arrivals: seq<int>, n: nat): (h: seq<int>)
  {
    if |arrivals| <= n then arrivals else arrivals[|arrivals| - n..]
  }

  /** One `pixel` step on one key: drop the oldest sample when the list
      already holds `n`, then append the new one. */
  function PushSample(h: seq<int>, v: int, n: int): (r: seq<int>)
    requires n >= 1
    ensures |r| == if |h| >= n then |h| else |h| + 1
    ensures r[|r| - 1] == v
    ensures forall i :: 0 <= i < |r| - 1 ==> r[i] in h
  {
    (if |h| >= n then h[1..] else h) + [v]
  }

  /** Pushing onto the history of the earlier arrivals gives the history of
      all arrivals: the window keeps the last min(count, n) samples in
      arrival order and evicts the oldest once it is full. */
  lemma PushSampleIsLastN(arrivals: seq<int>, v: int, n: int)
    requires n >= 1
    ensures PushSample(LastN(arrivals, n), v, n) == LastN(arrivals + [v], n)
    ensures |LastN(arrivals + [v], n)| == if |arrivals| < n then |arrivals| + 1 else n
  {
    var all := arrivals + [v];
    if |arrivals| >= n {
      assert LastN(arrivals, n)[1..] + [v] == all[|all| - n..];
    }
  }

  /** The smoothed channel: `sum(history) / len(history)`, floored. It lies
      between the smallest and the largest sample in the window. */
  function Mean(h: seq<int>): (m: int)
    requires |h| >= 1
    ensures Min(h) <= m <= Max(h)
  {
    SumWithin(h, Min(h), Max(h));
    DivWithin(Sum(h), |h|, Min(h), Max(h));
    Sum(h) / |h|
  }

  /** Samples that never exceed `cap` average to a value that never exceeds it. */
  lemma MeanAtMost(h: seq<int>, cap: int)
    requires |h| >= 1
    requires forall v :: v in h ==> 0 <= v <= cap
    ensures 0 <= Mean(h) <= cap
  {
  }

  /** With `average_frames` = 2 the samples 10, 20, 30 give back 10, 15, 25. */
  lemma TwoFrameWindowExample()
    ensures Mean(LastN([10], 2)) == 10
    ensures Mean(LastN([10, 20], 2)) == 15
    ensures Mean(LastN([10, 20, 30], 2)) == 25
  {
    assert LastN([10, 20, 30], 2) == [20, 30];
  }
}
