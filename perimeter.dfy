/** The order in which each tick reads the perimeter, one read per LED of
    the strip: the bottom row (at the detected bottom bar) left to right,
    the right column bottom to top, the top row (at the detected top bar)
    right to left, the left column top to bottom. */
module Perimeter {

  /** `len(range(n))`. */
  function Span(n: int): nat
  {
    if n > 0 then n else 0
  }

  /** `arduino_pixels`, the count the frame header announces. */
  function ArduinoPixels(sizeX: int, sizeY: int): (n: int)
    ensures sizeX >= 2 && sizeY >= 2 ==> n == sizeX * sizeY - (sizeX - 2) * (sizeY - 2)
  {
    ((sizeX * 2) + (sizeY * 2)) - 4
  }

  /** `for x in range(real_width)` at row `black_bottom`. */
  function BottomEdge(sizeX: int, bottom: int): (e: seq<(int, int)>)
    ensures |e| == Span(sizeX - 1)
  {
    seq(Span(sizeX - 1), x => (x, bottom))
  }

  /** `for y in range(real_height, 0, -1)` at column `real_width`. */
  function RightEdge(sizeX: int, sizeY: int): (e: seq<(int, int)>)
    ensures |e| == Span(sizeY - 1)
  {
    seq(Span(sizeY - 1), i => (sizeX - 1, (sizeY - 1) - i))
  }

  /** `for x in range(real_width, 0, -1)` at row `black_top`. */
  function TopEdge(sizeX: int, top: int): (e: seq<(int, int)>)
    ensures |e| == Span(sizeX - 1)
  {
    seq(Span(sizeX - 1), i => ((sizeX - 1) - i, top))
  }

  /** `for y in range(real_height)` at column 0. */
  function LeftEdge(sizeY: int): (e: seq<(int, int)>)
    ensures |e| == Span(sizeY - 1)
  {
    seq(Span(sizeY - 1), y => (0, y))
  }

  /** What each of the four loops visits, read by read: the bottom bar row
      from x = 0 rightwards up to `real_width - 1`, the right column from
      `real_height` up to row 1, the top bar row from `real_width` leftwards
      down to x = 1, the left column from row 0 down to `real_height - 1`.
      Each read moves one pixel on from the one before. */
  lemma EdgeWalks(sizeX: int, sizeY: int, top: int, bottom: int)
    ensures var e := BottomEdge(sizeX, bottom);
            && (forall i :: 0 <= i < |e| ==> e[i].1 == bottom && 0 <= e[i].0 < sizeX - 1)
            && (|e| >= 1 ==> e[0].0 == 0)
            && (forall i :: 0 <= i < |e| - 1 ==> e[i + 1].0 == e[i].0 + 1)
    ensures var e := RightEdge(sizeX, sizeY);
            && (forall i :: 0 <= i < |e| ==> e[i].0 == sizeX - 1 && 1 <= e[i].1 <= sizeY - 1)
            && (|e| >= 1 ==> e[0].1 == sizeY - 1)
            && (forall i :: 0 <= i < |e| - 1 ==> e[i + 1].1 == e[i].1 - 1)
    ensures var e := TopEdge(sizeX, top);
            && (forall i :: 0 <= i < |e| ==> e[i].1 == top && 1 <= e[i].0 <= sizeX - 1)
            && (|e| >= 1 ==> e[0].0 == sizeX - 1)
            && (forall i :: 0 <= i < |e| - 1 ==> e[i + 1].0 == e[i].0 - 1)
    ensures var e := LeftEdge(sizeY);
            && (forall i :: 0 <= i < |e| ==> e[i].0 == 0 && 0 <= e[i].1 < sizeY - 1)
            && (|e| >= 1 ==> e[0].1 == 0)
            && (forall i :: 0 <= i < |e| - 1 ==> e[i + 1].1 == e[i].1 + 1)
  {
  }

  /** The (x, y) reads of one tick's perimeter, in send order. There are
      exactly as many as the header announces, and with the bars inside the
      frame every one is a pixel of the `size_x` by `size_y` raster. */
  function PerimeterOrder(sizeX: int, sizeY: int, top: int, bottom: int): (p: seq<(int, int)>)
    ensures sizeX >= 1 && sizeY >= 1 ==> |p| == ArduinoPixels(sizeX, sizeY)
    ensures sizeX >= 1 && 0 <= top < sizeY && 0 <= bottom < sizeY ==>
              forall i :: 0 <= i < |p| ==> 0 <= p[i].0 < sizeX && 0 <= p[i].1 < sizeY
  {
    var b, r, t, l := BottomEdge(sizeX, bottom), RightEdge(sizeX, sizeY), TopEdge(sizeX, top), LeftEdge(sizeY);
    if sizeX >= 1 && 0 <= top < sizeY && 0 <= bottom < sizeY then
      AppendInFrame(b, r, sizeX, sizeY);
      AppendInFrame(b + r, t, sizeX, sizeY);
      AppendInFrame(b + r + t, l, sizeX, sizeY);
      b + r + t + l
    else
      b + r + t + l
  }

  /** Every read of `e` is a pixel of the `sizeX` by `sizeY` raster. */
  ghost predicate InFrame(e: seq<(int, int)>, sizeX: int, sizeY: int)
  {
    forall i :: 0 <= i < |e| ==> 0 <= e[i].0 < sizeX && 0 <= e[i].1 < sizeY
  }

  lemma AppendInFrame(a: seq<(int, int)>, b: seq<(int, int)>, sizeX: int, sizeY: int)
    requires InFrame(a, sizeX, sizeY) && InFrame(b, sizeX, sizeY)
    ensures InFrame(a + b, sizeX, sizeY)
  {
    forall i | 0 <= i < |a + b|
      ensures 0 <= (a + b)[i].0 < sizeX && 0 <= (a + b)[i].1 < sizeY
    {
      if i >= |a| {
        assert (a + b)[i] == b[i - |a|];
      }
    }
  }

  /** Read i of the perimeter, edge by edge. */
  lemma PerimeterAt(sizeX: int, sizeY: int, top: int, bottom: int, i: int)
    requires sizeX >= 1 && sizeY >= 1 && 0 <= i < ArduinoPixels(sizeX, sizeY)
    ensures var p := PerimeterOrder(sizeX, sizeY, top, bottom);
            var n, m := sizeX - 1, sizeY - 1;
            && (i < n ==> p[i] == (i, bottom))
            && (n <= i < n + m ==> p[i] == (sizeX - 1, (sizeY - 1) - (i - n)))
            && (n + m <= i < 2 * n + m ==> p[i] == ((sizeX - 1) - (i - n - m), top))
            && (2 * n + m <= i ==> p[i] == (0, i - 2 * n - m))
  {
  }

  /** The side columns span the full height whatever bars were detected:
      only the two rows depend on `top` and `bottom`. */
  lemma SidesIgnoreBars(sizeX: int, sizeY: int, top: int, bottom: int, top': int, bottom': int)
    requires sizeX >= 1 && sizeY >= 1
    ensures var p, q := PerimeterOrder(sizeX, sizeY, top, bottom), PerimeterOrder(sizeX, sizeY, top', bottom');
            var n, m := sizeX - 1, sizeY - 1;
            && p[n .. n + m] == q[n .. n + m]
            && p[2 * n + m ..] == q[2 * n + m ..]
            && (forall i :: 0 <= i < n ==> p[i].0 == q[i].0 && p[i].1 == bottom && q[i].1 == bottom')
            && (forall i :: n + m <= i < 2 * n + m ==> p[i].0 == q[i].0 && p[i].1 == top && q[i].1 == top')
  {
    var r, l := RightEdge(sizeX, sizeY), LeftEdge(sizeY);
    var b, t := BottomEdge(sizeX, bottom), TopEdge(sizeX, top);
    var b', t' := BottomEdge(sizeX, bottom'), TopEdge(sizeX, top');
    assert PerimeterOrder(sizeX, sizeY, top, bottom) == b + r + t + l;
    assert PerimeterOrder(sizeX, sizeY, top', bottom') == b' + r + t' + l;
    FourPieces(b, r, t, l);
    FourPieces(b', r, t', l);
  }

  /** Where each of four concatenated pieces sits. */
  lemma FourPieces<T>(a: seq<T>, b: seq<T>, c: seq<T>, d: seq<T>)
    ensures (a + b + c + d)[|a| .. |a| + |b|] == b
    ensures (a + b + c + d)[|a| + |b| + |c| ..] == d
    ensures forall i :: 0 <= i < |a| ==> (a + b + c + d)[i] == a[i]
    ensures forall i :: |a| + |b| <= i < |a| + |b| + |c| ==> (a + b + c + d)[i] == c[i - |a| - |b|]
  {
  }

  predicate Adjacent(a: (int, int), b: (int, int))
  {
    (a.0 == b.0 && (a.1 - b.1 == 1 || b.1 - a.1 == 1)) ||
    (a.1 == b.1 && (a.0 - b.0 == 1 || b.0 - a.0 == 1))
  }

  /** Without bars (top row 0, bottom row size_y-1) consecutive reads are
      neighbouring pixels and the last read neighbours the first: the
      traversal walks round the frame as the LED strip does. */
  lemma PerimeterIsClosedWalk(sizeX: int, sizeY: int)
    requires sizeX >= 2 && sizeY >= 2
    ensures var p := PerimeterOrder(sizeX, sizeY, 0, sizeY - 1);
            && (forall i :: 0 <= i < |p| - 1 ==> Adjacent(p[i], p[i + 1]))
            && Adjacent(p[|p| - 1], p[0])
  {
    var p := PerimeterOrder(sizeX, sizeY, 0, sizeY - 1);
    forall i | 0 <= i < |p| - 1 ensures Adjacent(p[i], p[i + 1]) {
      WalkStep(sizeX, sizeY, i);
    }
    PerimeterAt(sizeX, sizeY, 0, sizeY - 1, |p| - 1);
    PerimeterAt(sizeX, sizeY, 0, sizeY - 1, 0);
  }

  /** Read `i + 1` neighbours read `i` when there are no bars. */
  lemma WalkStep(sizeX: int, sizeY: int, i: int)
    requires sizeX >= 2 && sizeY >= 2 && 0 <= i < ArduinoPixels(sizeX, sizeY) - 1
    ensures var p := PerimeterOrder(sizeX, sizeY, 0, sizeY - 1);
            Adjacent(p[i], p[i + 1])
  {
    PerimeterAt(sizeX, sizeY, 0, sizeY - 1, i);
    PerimeterAt(sizeX, sizeY, 0, sizeY - 1, i + 1);
  }

  predicate OnBorder(sizeX: int, sizeY: int, c: (int, int))
  {
    0 <= c.0 < sizeX && 0 <= c.1 < sizeY &&
    (c.0 == 0 || c.0 == sizeX - 1 || c.1 == 0 || c.1 == sizeY - 1)
  }

  /** Where a border pixel comes in the traversal without bars. */
  function BorderIndex(sizeX: int, sizeY: int, c: (int, int)): int
  {
    var n, m := sizeX - 1, sizeY - 1;
    if c.1 == sizeY - 1 && c.0 < n then c.0
    else if c.0 == sizeX - 1 && c.1 >= 1 then n + (sizeY - 1 - c.1)
    else if c.1 == 0 && c.0 >= 1 then n + m + (sizeX - 1 - c.0)
    else 2 * n + m + c.1
  }

  /** Without bars every border pixel is read, at `BorderIndex`. */
  lemma PerimeterCoversBorder(sizeX: int, sizeY: int, c: (int, int))
    requires sizeX >= 2 && sizeY >= 2 && OnBorder(sizeX, sizeY, c)
    ensures var p := PerimeterOrder(sizeX, sizeY, 0, sizeY - 1);
            0 <= BorderIndex(sizeX, sizeY, c) < |p| && p[BorderIndex(sizeX, sizeY, c)] == c
  {
    PerimeterAt(sizeX, sizeY, 0, sizeY - 1, BorderIndex(sizeX, sizeY, c));
  }

  /** Without bars every read is a border pixel and `BorderIndex` gives its
      position back, so no pixel is read twice. */
  lemma PerimeterReadsOnce(sizeX: int, sizeY: int, i: int, j: int)
    requires sizeX >= 2 && sizeY >= 2
    requires 0 <= i < j < ArduinoPixels(sizeX, sizeY)
    ensures var p := PerimeterOrder(sizeX, sizeY, 0, sizeY - 1);
            OnBorder(sizeX, sizeY, p[i]) && BorderIndex(sizeX, sizeY, p[i]) == i && p[i] != p[j]
  {
    PerimeterAt(sizeX, sizeY, 0, sizeY - 1, i);
    PerimeterAt(sizeX, sizeY, 0, sizeY - 1, j);
  }

  /** A 4 by 3 strip has 10 LEDs, read in this literal order. */
  lemma FourByThreeOrder()
    ensures ArduinoPixels(4, 3) == 10
    ensures PerimeterOrder(4, 3, 0, 2)
         == [(0, 2), (1, 2), (2, 2), (3, 2), (3, 1), (3, 0), (2, 0), (1, 0), (0, 0), (0, 1)]
  {
  }
}
