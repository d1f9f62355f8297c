/** Letterbox detection shared by both capture scripts: five probe columns,
    a "last black row wins" scan from the top and from the bottom of each,
    the per-tick candidate as the minimum (top) or maximum (bottom) over the
    columns, and two circular windows of past candidates whose minimum and
    maximum are the reported bounds. */
module BlackBar {
  import opened Stats

  /** `int(size_x * 0.75)`: the product is exact in a double for every
      realistic width, and `int` truncates toward zero. */
  function ThreeQuarters(sizeX: int): (q: int)
    ensures sizeX >= 0 ==> 4 * q <= 3 * sizeX < 4 * q + 4
    ensures sizeX < 0 ==> 4 * q - 4 < 3 * sizeX <= 4 * q
  {
    if sizeX >= 0 then (3 * sizeX) / 4 else -((3 * -sizeX) / 4)
  }

  /** `black_bar_probe_points`: left edge, quarter, half, three quarters,
      right edge. */
  function ProbePoints(sizeX: int): (p: seq<int>)
    ensures |p| == 5 && p[0] == 0 && p[4] == sizeX - 1
    ensures sizeX >= 1 ==> forall i :: 0 <= i < 5 ==> 0 <= p[i] < sizeX
    ensures sizeX >= 1 ==> forall i, j :: 0 <= i < j < 5 ==> p[i] <= p[j]
  {
    [0, sizeX / 4, sizeX / 2, ThreeQuarters(sizeX), sizeX - 1]
  }

  /** The index of the last exactly-black (zero) colour, or -1 when there is none. */
  function LastBlack(colours: seq<int>): (r: int)
    ensures -1 <= r < |colours|
    ensures r >= 0 ==> colours[r] == 0
    ensures forall i :: r < i < |colours| ==> colours[i] != 0
  {
    if colours == [] then -1
    else if colours[|colours| - 1] == 0 then |colours| - 1
    else LastBlack(colours[..|colours| - 1])
  }

  /** Scanning one more row: a black one becomes the last black row,
      any other leaves it where it was. */
  lemma LastBlackStep(colours: seq<int>, y: int)
    requires 0 <= y < |colours|
    ensures LastBlack(colours[..y + 1]) == if colours[y] == 0 then y else LastBlack(colours[..y])
  {
    assert colours[..y + 1][..y] == colours[..y];
  }

  /** One more row read: a black one becomes the column's `this_top` or
      `this_bottom`, any other leaves it as it was. */
  lemma ColumnSnoc(colours: seq<int>, c: int, realHeight: int)
    ensures ColumnTop(colours + [c]) == if c == 0 then |colours| + 1 else ColumnTop(colours)
    ensures ColumnBottom(colours + [c], realHeight) == if c == 0 then (realHeight - |colours|) - 1 else ColumnBottom(colours, realHeight)
  {
    assert (colours + [c])[..|colours|] == colours;
  }

  /** `this_top` of one probe column, given the colours read at rows
      0 .. search_height-1: one past the last black row, or 0. */
  function ColumnTop(tops: seq<int>): (t: int)
    ensures 0 <= t <= |tops|
  {
    LastBlack(tops) + 1
  }

  /** `this_top` is 0 exactly when no row read from the top is black, and
      otherwise the row below the last black one. */
  lemma ColumnTopMeaning(tops: seq<int>)
    ensures var t := ColumnTop(tops);
            && (t == 0 <==> forall y :: 0 <= y < |tops| ==> tops[y] != 0)
            && (t > 0 ==> tops[t - 1] == 0 && forall y :: t <= y < |tops| ==> tops[y] != 0)
  {
  }

  /** `this_bottom` of one probe column, given the colours read at rows
      real_height, real_height-1, ...: the row above the last black one
      found going up, or real_height. */
  function ColumnBottom(bottoms: seq<int>, realHeight: int): (b: int)
    ensures realHeight - |bottoms| <= b <= realHeight
  {
    var y := LastBlack(bottoms);
    if y < 0 then realHeight else (realHeight - y) - 1
  }

  /** `this_bottom` is `real_height` exactly when no row read from the
      bottom is black, and otherwise the row above the last black one. */
  lemma ColumnBottomMeaning(bottoms: seq<int>, realHeight: int)
    ensures var b := ColumnBottom(bottoms, realHeight);
            && (b == realHeight <==> forall y :: 0 <= y < |bottoms| ==> bottoms[y] != 0)
            && (b < realHeight ==> bottoms[realHeight - 1 - b] == 0)
            && (b < realHeight ==> forall y :: realHeight - 1 - b < y < |bottoms| ==> bottoms[y] != 0)
  {
  }

  /** The candidates a window of `length` slots holds after the candidates
      `history` were written into it, oldest first: the last `length` of
      them, preceded by the zeros it started with while it has not filled. */
  function LastWindow(history: seq<int>, length: int): (w: seq<int>)
    requires length >= 1
    ensures |w| == length
  {
    if |history| >= length then history[|history| - length..]
    else seq(length - |history|, _ => 0) + history
  }

  /** Writing one more candidate drops the oldest slot's value and appends the new one. */
  lemma LastWindowPush(history: seq<int>, c: int, length: int)
    requires length >= 1
    ensures LastWindow(history + [c], length) == LastWindow(history, length)[1..] + [c]
  {
    var h := history + [c];
    if |history| >= length {
      assert h[|h| - length..] == history[|history| - length..][1..] + [c];
    } else if |history| + 1 == length {
      assert LastWindow(history, length)[1..] == history;
    } else {
      assert seq(length - |history|, _ => 0)[1..] == seq(length - |h|, _ => 0);
    }
  }

  /** The reported top never exceeds this tick's candidate, and the
      reported bottom is never below it. */
  lemma ReportedBracketsCandidate(history: seq<int>, c: int, length: int)
    requires length >= 1
    ensures Min(LastWindow(history + [c], length)) <= c <= Max(LastWindow(history + [c], length))
  {
    LastWindowPush(history, c, length);
    var w := LastWindow(history + [c], length);
    assert w[length - 1] == c;
    assert c in w;
  }

  /** A candidate stays in the window for `length` ticks: until it is
      overwritten the reported top is at most it and the reported bottom at
      least it. */
  lemma RecentCandidateBounds(history: seq<int>, length: int, i: int)
    requires length >= 1
    requires |history| - length <= i < |history| && 0 <= i
    ensures Min(LastWindow(history, length)) <= history[i] <= Max(LastWindow(history, length))
  {
    var w := LastWindow(history, length);
    var k := i - (|history| - length);
    assert w[k] == history[i];
    assert history[i] in w;
  }

  /** The windows start as zeros, so while fewer than `length` candidates
      have been written and all are non-negative, the reported top is 0. */
  lemma ReportedTopZeroWhileFilling(history: seq<int>, length: int)
    requires length >= 1 && |history| < length
    requires forall i :: 0 <= i < |history| ==> history[i] >= 0
    ensures Min(LastWindow(history, length)) == 0
  {
    var w := LastWindow(history, length);
    assert w[0] == 0;
    forall v | v in w ensures v >= 0 {
      var k :| 0 <= k < |w| && w[k] == v;
      if k >= length - |history| {
        assert v == history[k - (length - |history|)];
      }
    }
  }

  /** Once the last `length` candidates are all at least `lo` and at most
      `hi`, so are both reported bounds: a bar that disappears (or appears)
      is recognised once a full window of candidates agrees. */
  lemma FlushedWindowBounds(history: seq<int>, length: int, lo: int, hi: int)
    requires length >= 1 && |history| >= length
    requires forall i :: |history| - length <= i < |history| ==> lo <= history[i] <= hi
    ensures lo <= Min(LastWindow(history, length)) && Max(LastWindow(history, length)) <= hi
  {
    var w := LastWindow(history, length);
    forall v | v in w ensures lo <= v <= hi {
      var k :| 0 <= k < |w| && w[k] == v;
      assert v == history[|history| - length + k];
    }
  }

  /** Every candidate written so far is a row of a raster `rows` high. */
  ghost predicate RowsOf(history: seq<int>, rows: int)
  {
    forall i :: 0 <= i < |history| ==> 0 <= history[i] < rows
  }

  /** Writing a row keeps every candidate a row. */
  lemma RowsOfPush(history: seq<int>, c: int, rows: int)
    requires RowsOf(history, rows) && 0 <= c < rows
    ensures RowsOf(history + [c], rows)
  {
  }

  /** While every candidate is a row, so are both reported bounds. */
  lemma ReportedRows(history: seq<int>, length: int, rows: int)
    requires length >= 1 && rows >= 1 && RowsOf(history, rows)
    ensures 0 <= Min(LastWindow(history, length)) < rows
    ensures 0 <= Max(LastWindow(history, length)) < rows
  {
    WindowWithin(history, length, 0, rows - 1);
    var w := LastWindow(history, length);
    assert w[0] in w;
  }

  /** A window of candidates that all lie in [lo, hi], with the initial zeros
      among them while it fills, reports bounds in [lo, hi]. */
  lemma WindowWithin(history: seq<int>, length: int, lo: int, hi: int)
    requires length >= 1 && lo <= 0 <= hi
    requires forall i :: 0 <= i < |history| ==> lo <= history[i] <= hi
    ensures lo <= Min(LastWindow(history, length)) && Max(LastWindow(history, length)) <= hi
  {
    var w := LastWindow(history, length);
    forall v | v in w ensures lo <= v <= hi {
      var k :| 0 <= k < |w| && w[k] == v;
      if |history| >= length {
        assert v == history[|history| - length + k];
      } else if k >= length - |history| {
        assert v == history[k - (length - |history|)];
      }
    }
  }

  /** `black_bar_top_candidates` or `black_bar_bottom_candidates` with its
      write index: a fixed-length circular array, all zeros at first, one
      slot written per tick. */
  class CandidateWindow {
    var slots: array<int>
    var index: int
    /** Every candidate written so far, oldest first. */
    ghost var History: seq<int>

    /** Reading the array from the write index onward, then wrapping round,
        gives the window's candidates oldest first. */
    ghost predicate Valid()
      reads this, slots
    {
      && slots.Length >= 1
      && 0 <= index < slots.Length
      && slots[index..] + slots[..index] == LastWindow(History, slots.Length)
    }

    /** `[0] * black_bar_candidate_length`, index 0. */
    constructor (length: int)
      requires length >= 1
      ensures Valid() && fresh(slots)
      ensures slots.Length == length && index == 0 && History == []
      ensures forall j :: 0 <= j < length ==> slots[j] == 0
    {
      slots := new int[length](_ => 0);
      index := 0;
      History := [];
      new;
      assert slots[0..] == seq(length, _ => 0);
    }

    /** `candidates[index] = c`, then advance the index, wrapping at the length. */
    method Push(c: int)
      requires Valid()
      modifies this, slots
      ensures Valid() && slots == old(slots)
      ensures History == old(History) + [c]
      ensures slots[..] == old(slots[..])[old(index) := c]
      ensures index == if old(index) + 1 == slots.Length then 0 else old(index) + 1
    {
      ghost var before := slots[..];
      ghost var i := index;
      LastWindowPush(History, c, slots.Length);
      slots[index] := c;
      index := index + 1;
      if index == slots.Length {
        index := 0;
      }
      History := History + [c];
      if i + 1 == slots.Length {
        assert slots[index..] + slots[..index] == before[..i] + [c];
        assert before[i..] + before[..i] == [before[i]] + before[..i];
      } else {
        assert slots[index..] == before[i + 1..];
        assert slots[..index] == before[..i] + [c];
        assert (before[i..] + before[..i])[1..] == before[i + 1..] + before[..i];
      }
    }

    /** `min(*candidates)`: the reported top, the smallest candidate of the
        window. */
    function Lowest(): (m: int)
      reads this, slots
      requires Valid()
      ensures m == Min(LastWindow(History, slots.Length))
    {
      assert slots[..] == slots[..index] + slots[index..];
      MinMaxSwap(slots[..index], slots[index..]);
      Min(slots[..])
    }

    /** `max(*candidates)`: the reported bottom, the largest candidate of the
        window. */
    function Highest(): (m: int)
      reads this, slots
      requires Valid()
      ensures m == Max(LastWindow(History, slots.Length))
    {
      assert slots[..] == slots[..index] + slots[index..];
      MinMaxSwap(slots[..index], slots[index..]);
      Max(slots[..])
    }
  }

  /** This tick's write into both windows: the top candidate into one and
      the bottom candidate into the other, each index advancing and
      wrapping, then the reported bars, the smallest top and the largest
      bottom the windows now hold. */
  method RecordCandidates(tops: CandidateWindow, bottoms: CandidateWindow, top: int, bottom: int, rows: int)
    returns (blackTop: int, blackBottom: int)
    requires tops.Valid() && bottoms.Valid() && tops != bottoms && tops.slots != bottoms.slots
    requires RowsOf(tops.History, rows) && RowsOf(bottoms.History, rows) && 0 <= top < rows && 0 <= bottom < rows
    modifies tops, tops.slots, bottoms, bottoms.slots
    ensures tops.Valid() && bottoms.Valid() && tops.slots == old(tops.slots) && bottoms.slots == old(bottoms.slots)
    ensures tops.History == old(tops.History) + [top] && bottoms.History == old(bottoms.History) + [bottom]
    ensures RowsOf(tops.History, rows) && RowsOf(bottoms.History, rows)
    ensures blackTop == Min(LastWindow(tops.History, tops.slots.Length))
    ensures blackBottom == Max(LastWindow(bottoms.History, bottoms.slots.Length))
    ensures 0 <= blackTop < rows && 0 <= blackBottom < rows
  {
    RowsOfPush(tops.History, top, rows);
    RowsOfPush(bottoms.History, bottom, rows);
    tops.Push(top);
    bottoms.Push(bottom);

    ReportedRows(tops.History, tops.slots.Length, rows);
    ReportedRows(bottoms.History, bottoms.slots.Length, rows);
    blackTop := tops.Lowest();
    blackBottom := bottoms.Highest();
  }

  /** What Python's `min(*xs)` gives: with two or more elements their
      minimum; with one element it becomes `min(x)` on a bare integer and
      raises TypeError, as it does with none. */
  datatype PyValue = Value(v: int) | TypeError

  function PyMinStar(xs: seq<int>): (r: PyValue)
    ensures r.Value? <==> |xs| >= 2
    ensures r.Value? ==> r.v == Min(xs)
  {
    if |xs| >= 2 then Value(Min(xs)) else TypeError
  }

  /** The reported top as the scripts compute it, `min(*black_bar_top_candidates)`. */
  function ReportedTopAsWritten(history: seq<int>, length: int): (r: PyValue)
    requires length >= 1
    ensures r.Value? <==> length >= 2
  {
    PyMinStar(LastWindow(history, length))
  }

  /** With `black_bar_candidate_length` = 1 the report raises on every tick,
      whatever has been written: the configuration that asks for no
      smoothing stops the loop on its first frame. */
  lemma SingleSlotWindowRaises(history: seq<int>)
    ensures ReportedTopAsWritten(history, 1) == TypeError
  {
  }
}
