/** The list built-ins the pipeline leans on: `sum`, `min` and `max` over a
    non-empty list of integers. */
module Stats {

  /** `sum(s)`. */
  function Sum(s: seq<int>): (r: int)
    ensures (forall i :: 0 <= i < |s| ==> s[i] >= 0) ==> r >= 0
    ensures |s| == 1 ==> r == s[0]
  {
    if s == [] then 0 else s[0] + Sum(s[1..])
  }

  /** `min(s)`: an element of `s` that no element is below. */
  function Min(s: seq<int>): (m: int)
    requires |s| >= 1
    ensures m in s
    ensures forall v :: v in s ==> m <= v
  {
    if |s| == 1 then s[0]
    else
      assert s == [s[0]] + s[1..];
      var rest := Min(s[1..]);
      if s[0] <= rest then s[0] else rest
  }

  /** `max(s)`: an element of `s` that no element is above. */
  function Max(s: seq<int>): (m: int)
    requires |s| >= 1
    ensures m in s
    ensures forall v :: v in s ==> v <= m
  {
    if |s| == 1 then s[0]
    else
      assert s == [s[0]] + s[1..];
      var rest := Max(s[1..]);
      if s[0] >= rest then s[0] else rest
  }

  /** Swapping the two halves of a list (as reading a ring buffer from its
      write index does) changes neither its minimum nor its maximum. */
  lemma MinMaxSwap(a: seq<int>, b: seq<int>)
    requires |a + b| >= 1
    ensures Min(a + b) == Min(b + a) && Max(a + b) == Max(b + a)
  {
    forall v | v in b + a ensures v in a + b { }
    forall v | v in a + b ensures v in b + a { }
  }

  /** Every sample between `lo` and `hi` puts the sum between
      `|s| * lo` and `|s| * hi`. */
  lemma {:induction false} SumWithin(s: seq<int>, lo: int, hi: int)
    requires forall v :: v in s ==> lo <= v <= hi
    ensures |s| * lo <= Sum(s) <= |s| * hi
  {
    if s != [] {
      assert forall v :: v in s[1..] ==> v in s;
      assert s[0] in s;
      SumWithin(s[1..], lo, hi);
      assert Sum(s) == s[0] + Sum(s[1..]);
      assert |s| * lo == lo + (|s| - 1) * lo;
      assert |s| * hi == hi + (|s| - 1) * hi;
    }
  }

  /** Floor division by a positive divisor keeps the order of its dividends. */
  lemma DivMonotone(a: int, b: int, d: int)
    requires 0 <= a <= b && d >= 1
    ensures a / d <= b / d
  {
    var qa, qb := a / d, b / d;
    if qa > qb {
      MulLeft(d, qb + 1, qa);
      assert false;
    }
  }

  /** A sum between `n * lo` and `n * hi` has its floor mean between `lo` and `hi`. */
  lemma DivWithin(sum: int, n: int, lo: int, hi: int)
    requires n >= 1 && n * lo <= sum <= n * hi
    ensures lo <= sum / n <= hi
  {
    var q := sum / n;
    if q < lo {
      MulLeft(n, q + 1, lo);
      assert false;
    }
    if q > hi {
      MulLeft(n, hi + 1, q);
      assert false;
    }
  }

  /** Dividing a non-negative value by a positive divisor never increases it. */
  lemma DivAtMost(a: int, d: int)
    requires 0 <= a && d >= 1
    ensures 0 <= a / d <= a
  {
    var q := a / d;
    if q >= 1 {
      MulLeft(q, 1, d);
    }
  }

  /** Floor division by a positive divisor gives 0 exactly below the divisor. */
  lemma DivZero(a: int, d: int)
    requires 0 <= a && d >= 1
    ensures a / d == 0 <==> a < d
  {
    var q := a / d;
    if q >= 1 {
      MulLeft(d, 1, q);
    }
  }

  lemma MulLeft(d: int, x: int, y: int)
    requires d >= 0 && x <= y
    ensures d * x <= d * y
  {
  }
}
