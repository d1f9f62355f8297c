/** The GTK capture script's per-frame work: the `current_buffer` ring
    index of its averaging buffers, `colourfor`, the black-bar probe over the
    composited pixel array and the perimeter frame. The capture, the scaling
    and the alpha compositing that produce that array are library calls and
    are not modelled: the averaged raster is an input of each tick. */
module GtkCapture {
  import opened Wire
  import opened Stats
  import opened Colour
  import opened BlackBar
  import opened Perimeter
  import opened Commands
  import opened Settings

  datatype Rgb = Rgb(red: Byte, green: Byte, blue: Byte)

  /** `pixel_array`: rows of pixels, indexed `pa[y][x]`. */
  type Raster = seq<seq<Rgb>>

  /** The pixel array of a `width` by `height` pixbuf. */
  ghost predicate Shaped(pa: Raster, width: int, height: int)
  {
    |pa| == height && forall y :: 0 <= y < |pa| ==> |pa[y]| == width
  }

  /** Column `x` exists in every row. */
  ghost predicate ColumnInRange(pa: Raster, x: int)
  {
    forall y :: 0 <= y < |pa| ==> 0 <= x < |pa[y]|
  }

  /** Every row of an array whose column `x` is in range has that column. */
  lemma RowHasColumn(pa: Raster, x: int, y: int)
    requires ColumnInRange(pa, x) && 0 <= y < |pa|
    ensures 0 <= x < |pa[y]|
  {
  }

  /** One channel divided by the colour scale (`pa[y][x][c] / scale`). */
  function Scale(v: Byte, scale: int): (r: Byte)
    requires scale >= 1
    ensures r <= v
  {
    DivAtMost(v, scale);
    v / scale
  }

  /** `colourfor(pa, x, y, scale)`: the pixel's channels, each divided by
      `scale`, packed as a 24-bit colour word. */
  function ColourFor(pa: Raster, x: int, y: int, scale: int): (c: int)
    requires 0 <= y < |pa| && 0 <= x < |pa[y]| && scale >= 1
    ensures 0 <= c < ColourLimit
  {
    var raw := pa[y][x];
    Pack(Scale(raw.red, scale), Scale(raw.green, scale), Scale(raw.blue, scale))
  }

  /** Each channel of the word is the raw channel divided by the scale, and
      the pixel counts as black exactly when every raw channel is below the
      scale. */
  lemma ColourForChannels(pa: Raster, x: int, y: int, scale: int)
    requires 0 <= y < |pa| && 0 <= x < |pa[y]| && scale >= 1
    ensures var c := ColourFor(pa, x, y, scale);
            && RedOf(c) == pa[y][x].red / scale
            && GreenOf(c) == pa[y][x].green / scale
            && BlueOf(c) == pa[y][x].blue / scale
            && (c == 0 <==> pa[y][x].red < scale && pa[y][x].green < scale && pa[y][x].blue < scale)
  {
    var raw := pa[y][x];
    DivAtMost(raw.red, scale);
    DivAtMost(raw.green, scale);
    DivAtMost(raw.blue, scale);
    DivZero(raw.red, scale);
    DivZero(raw.green, scale);
    DivZero(raw.blue, scale);
    PackChannels(raw.red / scale, raw.green / scale, raw.blue / scale);
  }

  /** At the default scale 1 the colour word is exactly 0xRRGGBB, and a
      pixel counts as black only when all three raw channels are 0. */
  lemma ScaleOneIsExact(pa: Raster, x: int, y: int)
    requires 0 <= y < |pa| && 0 <= x < |pa[y]|
    ensures ColourFor(pa, x, y, 1) == pa[y][x].red * 0x1_0000 + pa[y][x].green * 256 + pa[y][x].blue
    ensures ColourFor(pa, x, y, 1) == 0 <==> pa[y][x] == Rgb(0, 0, 0)
  {
    var raw := pa[y][x];
    assert raw.red / 1 == raw.red && raw.green / 1 == raw.green && raw.blue / 1 == raw.blue;
    PackChannels(raw.red, raw.green, raw.blue);
  }

  /** `current_buffer += 1`, back to 0 once it reaches `average_frames`. */
  function NextBuffer(current: int, averageFrames: int): (r: int)
    requires averageFrames >= 1
    ensures 0 <= current < averageFrames ==> 0 <= r < averageFrames && r == (current + 1) % averageFrames
  {
    if current + 1 >= averageFrames then 0 else current + 1
  }

  /** `current_buffer` at the start of tick `tick` (counting from 0). */
  function BufferAt(tick: nat, averageFrames: int): (b: int)
    requires averageFrames >= 1
    ensures 0 <= b < averageFrames
  {
    if tick == 0 then 0 else NextBuffer(BufferAt(tick - 1, averageFrames), averageFrames)
  }

  /** Counting one further steps the remainder by one, back to 0 at `n`. */
  lemma ModNext(m: nat, n: int)
    requires n >= 1
    ensures (m + 1) % n == if m % n + 1 >= n then 0 else m % n + 1
  {
    var q, r := m / n, m % n;
    assert m == q * n + r;
    if r + 1 >= n {
      assert m + 1 == (q + 1) * n + 0 by {
        assert (q + 1) * n == q * n + n;
      }
      DivModSplit(m + 1, q + 1, 0, n);
    } else {
      DivModSplit(m + 1, q, r + 1, n);
    }
  }

  /** Tick t scales into buffer t mod `average_frames`. */
  lemma {:induction false} BufferCycles(tick: nat, averageFrames: int)
    requires averageFrames >= 1
    ensures BufferAt(tick, averageFrames) == tick % averageFrames
  {
    if tick > 0 {
      BufferCycles(tick - 1, averageFrames);
      ModNext(tick - 1, averageFrames);
    }
  }

  /** Any `average_frames` consecutive ticks use distinct buffers, so each
      buffer is rewritten exactly once per cycle. */
  lemma BufferSlotsDistinct(t1: nat, t2: nat, averageFrames: int)
    requires averageFrames >= 1 && t1 < t2 < t1 + averageFrames
    ensures BufferAt(t1, averageFrames) != BufferAt(t2, averageFrames)
  {
    BufferCycles(t1, averageFrames);
    BufferCycles(t2, averageFrames);
    var n := averageFrames;
    var q1, q2 := t1 / n, t2 / n;
    if t1 % n == t2 % n {
      assert t2 - t1 == n * (q2 - q1);
      if q2 - q1 <= 0 {
        MulLeft(n, q2 - q1, 0);
      } else {
        MulLeft(n, 1, q2 - q1);
      }
      assert false;
    }
  }

  /** The colours a probe of column `x` reads going down from row 0. */
  function TopColours(pa: Raster, x: int, searchHeight: int): (cs: seq<int>)
    requires ColumnInRange(pa, x) && 0 <= searchHeight <= |pa|
    ensures |cs| == searchHeight
  {
    seq(searchHeight, y requires 0 <= y < searchHeight =>
      RowHasColumn(pa, x, y);
      ColourFor(pa, x, y, 1))
  }

  /** The colours a probe of column `x` reads going up from row `real_height`. */
  function BottomColours(pa: Raster, x: int, searchHeight: int): (cs: seq<int>)
    requires ColumnInRange(pa, x) && 0 <= searchHeight <= |pa|
    ensures |cs| == searchHeight
  {
    seq(searchHeight, y requires 0 <= y < searchHeight =>
      var row := (|pa| - 1) - y;
      RowHasColumn(pa, x, row);
      ColourFor(pa, x, row, 1))
  }

  /** One probe column: `this_top` and `this_bottom` by scanning
      `black_bar_search_height` rows from each end, the last black row winning. */
  method ScanColumn(pa: Raster, x: int, searchHeight: int) returns (thisTop: int, thisBottom: int)
    requires ColumnInRange(pa, x) && 0 <= searchHeight <= |pa|
    ensures thisTop == ColumnTop(TopColours(pa, x, searchHeight))
    ensures thisBottom == ColumnBottom(BottomColours(pa, x, searchHeight), |pa| - 1)
  {
    var realHeight := |pa| - 1;
    ghost var tops := TopColours(pa, x, searchHeight);
    ghost var bottoms := BottomColours(pa, x, searchHeight);
    thisTop := 0;
    thisBottom := realHeight;
    for y := 0 to searchHeight
      invariant thisTop == LastBlack(tops[..y]) + 1
      invariant thisBottom == if LastBlack(bottoms[..y]) < 0 then realHeight else (realHeight - LastBlack(bottoms[..y])) - 1
    {
      ghost var t, u := tops[y], bottoms[y];
      ghost var topBefore, bottomBefore := LastBlack(tops[..y]), LastBlack(bottoms[..y]);
      LastBlackStep(tops, y);
      LastBlackStep(bottoms, y);
      assert LastBlack(tops[..y + 1]) == if t == 0 then y else topBefore;
      assert LastBlack(bottoms[..y + 1]) == if u == 0 then y else bottomBefore;

      assert 0 <= x < |pa[y]|;
      var colour := ColourFor(pa, x, y, 1);
      assert colour == t;
      if colour == 0 {
        thisTop := y + 1;
      }
      assert 0 <= x < |pa[realHeight - y]|;
      colour := ColourFor(pa, x, realHeight - y, 1);
      assert colour == u;
      if colour == 0 {
        thisBottom := (realHeight - y) - 1;
      }
    }
    assert tops[..searchHeight] == tops && bottoms[..searchHeight] == bottoms;
  }

  ghost predicate ColumnsInRange(pa: Raster, points: seq<int>)
  {
    forall i :: 0 <= i < |points| ==> ColumnInRange(pa, points[i])
  }

  /** `top_candidates`: the `this_top` of every probe column, in order. */
  function ColumnTops(pa: Raster, points: seq<int>, searchHeight: int): (ts: seq<int>)
    requires ColumnsInRange(pa, points) && 0 <= searchHeight <= |pa|
    ensures |ts| == |points|
  {
    seq(|points|, i requires 0 <= i < |points| => ColumnTop(TopColours(pa, points[i], searchHeight)))
  }

  /** `bottom_candidates`: the `this_bottom` of every probe column, in order. */
  function ColumnBottoms(pa: Raster, points: seq<int>, searchHeight: int): (bs: seq<int>)
    requires ColumnsInRange(pa, points) && 0 <= searchHeight <= |pa|
    ensures |bs| == |points|
  {
    seq(|points|, i requires 0 <= i < |points| =>
      ColumnBottom(BottomColours(pa, points[i], searchHeight), |pa| - 1))
  }

  /** This tick's candidates: the smallest `this_top` and the largest
      `this_bottom` over the probe columns. The top lies in
      [0, search_height] and the bottom in
      [real_height - search_height, real_height]. */
  method ProbeCandidates(pa: Raster, points: seq<int>, searchHeight: int) returns (blackTop: int, blackBottom: int)
    requires |points| >= 1 && ColumnsInRange(pa, points) && 0 <= searchHeight <= |pa|
    ensures blackTop == Min(ColumnTops(pa, points, searchHeight))
    ensures blackBottom == Max(ColumnBottoms(pa, points, searchHeight))
    ensures 0 <= blackTop <= searchHeight
    ensures (|pa| - 1) - searchHeight <= blackBottom <= |pa| - 1
  {
    var topCandidates := [];
    var bottomCandidates := [];
    for i := 0 to |points|
      invariant topCandidates == ColumnTops(pa, points, searchHeight)[..i]
      invariant bottomCandidates == ColumnBottoms(pa, points, searchHeight)[..i]
    {
      var thisTop, thisBottom := ScanColumn(pa, points[i], searchHeight);
      topCandidates := topCandidates + [thisTop];
      bottomCandidates := bottomCandidates + [thisBottom];
    }
    assert topCandidates == ColumnTops(pa, points, searchHeight);
    assert bottomCandidates == ColumnBottoms(pa, points, searchHeight);
    blackTop := Min(topCandidates);
    blackBottom := Max(bottomCandidates);
  }

  ghost predicate CoordsInRange(pa: Raster, ps: seq<(int, int)>)
  {
    forall i :: 0 <= i < |ps| ==> 0 <= ps[i].1 < |pa| && 0 <= ps[i].0 < |pa[ps[i].1]|
  }

  /** The colour words of the first `k` reads of `ps`, in order, at the
      given divisor. */
  function ColoursUpTo(pa: Raster, ps: seq<(int, int)>, k: int, divisor: int): (cs: seq<int>)
    requires CoordsInRange(pa, ps) && 0 <= k <= |ps| && divisor >= 1
    ensures |cs| == k && AllU32(cs)
  {
    if k == 0 then [] else ColoursUpTo(pa, ps, k - 1, divisor) + [ColourFor(pa, ps[k - 1].0, ps[k - 1].1, divisor)]
  }

  /** The colour words read at `ps`, in order, at the given divisor. */
  function ColoursAt(pa: Raster, ps: seq<(int, int)>, divisor: int): (cs: seq<int>)
    requires CoordsInRange(pa, ps) && divisor >= 1
    ensures |cs| == |ps| && AllU32(cs)
  {
    ColoursUpTo(pa, ps, |ps|, divisor)
  }

  /** Read k of `ps` extends the words by its colour's word. */
  lemma ReadNext(pa: Raster, ps: seq<(int, int)>, k: int, divisor: int)
    requires CoordsInRange(pa, ps) && 0 <= k < |ps| && divisor >= 1
    ensures Words(ColoursUpTo(pa, ps, k + 1, divisor))
         == Words(ColoursUpTo(pa, ps, k, divisor)) + LE32(ColourFor(pa, ps[k].0, ps[k].1, divisor))
  {
    WordsSnoc(ColoursUpTo(pa, ps, k, divisor), ColourFor(pa, ps[k].0, ps[k].1, divisor));
  }

  /** Reading `a` then `b` reads the colours of `a`, then those of `b`. */
  lemma {:induction false} ColoursUpToAppend(pa: Raster, a: seq<(int, int)>, b: seq<(int, int)>, j: int, divisor: int)
    requires CoordsInRange(pa, a) && CoordsInRange(pa, b) && 0 <= j <= |b| && divisor >= 1
    ensures CoordsInRange(pa, a + b)
    ensures ColoursUpTo(pa, a + b, |a| + j, divisor) == ColoursAt(pa, a, divisor) + ColoursUpTo(pa, b, j, divisor)
  {
    assert forall i :: 0 <= i < |a + b| ==> (a + b)[i] == if i < |a| then a[i] else b[i - |a|];
    if j == 0 {
      ColoursUpToPrefix(pa, a, b, |a|, divisor);
    } else {
      ColoursUpToAppend(pa, a, b, j - 1, divisor);
      assert (a + b)[|a| + j - 1] == b[j - 1];
    }
  }

  lemma {:induction false} ColoursUpToPrefix(pa: Raster, a: seq<(int, int)>, b: seq<(int, int)>, k: int, divisor: int)
    requires CoordsInRange(pa, a + b) && CoordsInRange(pa, a) && 0 <= k <= |a| && divisor >= 1
    ensures ColoursUpTo(pa, a + b, k, divisor) == ColoursUpTo(pa, a, k, divisor)
  {
    if k > 0 {
      ColoursUpToPrefix(pa, a, b, k - 1, divisor);
      assert (a + b)[k - 1] == a[k - 1];
    }
  }

  /** The words of a traversal made of consecutive pieces are the words of
      the pieces, in order. */
  lemma ColoursAtAppend(pa: Raster, a: seq<(int, int)>, b: seq<(int, int)>, divisor: int)
    requires CoordsInRange(pa, a) && CoordsInRange(pa, b) && divisor >= 1
    ensures CoordsInRange(pa, a + b)
    ensures Words(ColoursAt(pa, a + b, divisor)) == Words(ColoursAt(pa, a, divisor)) + Words(ColoursAt(pa, b, divisor))
  {
    ColoursUpToAppend(pa, a, b, |b|, divisor);
    WordsAppend(ColoursAt(pa, a, divisor), ColoursAt(pa, b, divisor));
  }

  /** The perimeter's words are those of its four edges, in order. */
  lemma PerimeterWords(pa: Raster, sizeX: int, sizeY: int, top: int, bottom: int, divisor: int)
    requires sizeX >= 1 && Shaped(pa, sizeX, sizeY) && 0 <= top < sizeY && 0 <= bottom < sizeY && divisor >= 1
    ensures CoordsInRange(pa, PerimeterOrder(sizeX, sizeY, top, bottom))
    ensures CoordsInRange(pa, BottomEdge(sizeX, bottom)) && CoordsInRange(pa, RightEdge(sizeX, sizeY))
    ensures CoordsInRange(pa, TopEdge(sizeX, top)) && CoordsInRange(pa, LeftEdge(sizeY))
    ensures Words(ColoursAt(pa, PerimeterOrder(sizeX, sizeY, top, bottom), divisor))
         == Words(ColoursAt(pa, BottomEdge(sizeX, bottom), divisor)) + Words(ColoursAt(pa, RightEdge(sizeX, sizeY), divisor))
          + Words(ColoursAt(pa, TopEdge(sizeX, top), divisor)) + Words(ColoursAt(pa, LeftEdge(sizeY), divisor))
  {
    var b, r, t, l := BottomEdge(sizeX, bottom), RightEdge(sizeX, sizeY), TopEdge(sizeX, top), LeftEdge(sizeY);
    assert CoordsInRange(pa, b) && CoordsInRange(pa, r) && CoordsInRange(pa, t) && CoordsInRange(pa, l);
    ColoursAtAppend(pa, b, r, divisor);
    ColoursAtAppend(pa, b + r, t, divisor);
    ColoursAtAppend(pa, b + r + t, l, divisor);
  }

  /** The bottom loop: row `black_bottom`, columns 0 .. real_width-1. */
  method AppendBottomRow(message: seq<Byte>, pa: Raster, sizeX: int, sizeY: int, bottom: int, divisor: int)
    returns (message': seq<Byte>)
    requires sizeX >= 1 && Shaped(pa, sizeX, sizeY) && 0 <= bottom < sizeY && divisor >= 1
    ensures CoordsInRange(pa, BottomEdge(sizeX, bottom))
    ensures message' == message + Words(ColoursAt(pa, BottomEdge(sizeX, bottom), divisor))
  {
    ghost var edge := BottomEdge(sizeX, bottom);
    assert CoordsInRange(pa, edge);
    var realWidth := sizeX - 1;
    message' := message;
    var y := bottom;
    var x := 0;
    while x < realWidth
      invariant 0 <= x <= realWidth
      invariant message' == message + Words(ColoursUpTo(pa, edge, x, divisor))
    {
      ReadNext(pa, edge, x, divisor);
      var colour := ColourFor(pa, x, y, divisor);
      message' := message' + LE32(colour);
      x := x + 1;
    }
  }

  /** The right loop: column `real_width`, rows `real_height` down to 1. */
  method AppendRightSide(message: seq<Byte>, pa: Raster, sizeX: int, sizeY: int, divisor: int)
    returns (message': seq<Byte>)
    requires sizeX >= 1 && sizeY >= 1 && Shaped(pa, sizeX, sizeY) && divisor >= 1
    ensures CoordsInRange(pa, RightEdge(sizeX, sizeY))
    ensures message' == message + Words(ColoursAt(pa, RightEdge(sizeX, sizeY), divisor))
  {
    ghost var edge := RightEdge(sizeX, sizeY);
    assert CoordsInRange(pa, edge);
    var realWidth, realHeight := sizeX - 1, sizeY - 1;
    message' := message;
    var x := realWidth;
    var y := realHeight;
    ghost var k := 0;
    while y > 0
      invariant 0 <= y <= realHeight && k == realHeight - y
      invariant message' == message + Words(ColoursUpTo(pa, edge, k, divisor))
    {
      assert edge[k] == (x, y);
      ReadNext(pa, edge, k, divisor);
      var colour := ColourFor(pa, x, y, divisor);
      message' := message' + LE32(colour);
      y, k := y - 1, k + 1;
    }
  }

  /** The top loop: row `black_top`, columns `real_width` down to 1. */
  method AppendTopRow(message: seq<Byte>, pa: Raster, sizeX: int, sizeY: int, top: int, divisor: int)
    returns (message': seq<Byte>)
    requires sizeX >= 1 && Shaped(pa, sizeX, sizeY) && 0 <= top < sizeY && divisor >= 1
    ensures CoordsInRange(pa, TopEdge(sizeX, top))
    ensures message' == message + Words(ColoursAt(pa, TopEdge(sizeX, top), divisor))
  {
    ghost var edge := TopEdge(sizeX, top);
    assert CoordsInRange(pa, edge);
    var realWidth := sizeX - 1;
    message' := message;
    var y := top;
    var x := realWidth;
    ghost var k := 0;
    while x > 0
      invariant 0 <= x <= realWidth && k == realWidth - x
      invariant message' == message + Words(ColoursUpTo(pa, edge, k, divisor))
    {
      assert edge[k] == (x, y);
      ReadNext(pa, edge, k, divisor);
      var colour := ColourFor(pa, x, y, divisor);
      message' := message' + LE32(colour);
      x, k := x - 1, k + 1;
    }
  }

  /** The left loop: column 0, rows 0 .. real_height-1. */
  method AppendLeftSide(message: seq<Byte>, pa: Raster, sizeX: int, sizeY: int, divisor: int)
    returns (message': seq<Byte>)
    requires sizeX >= 1 && sizeY >= 1 && Shaped(pa, sizeX, sizeY) && divisor >= 1
    ensures CoordsInRange(pa, LeftEdge(sizeY))
    ensures message' == message + Words(ColoursAt(pa, LeftEdge(sizeY), divisor))
  {
    ghost var edge := LeftEdge(sizeY);
    assert CoordsInRange(pa, edge);
    var realHeight := sizeY - 1;
    message' := message;
    var x := 0;
    var y := 0;
    while y < realHeight
      invariant 0 <= y <= realHeight
      invariant message' == message + Words(ColoursUpTo(pa, edge, y, divisor))
    {
      ReadNext(pa, edge, y, divisor);
      var colour := ColourFor(pa, x, y, divisor);
      message' := message' + LE32(colour);
      y := y + 1;
    }
  }

  /** The four perimeter loops: one `colourfor` at the colour divisor per
      LED, appended to the frame as a little-endian word, in
      `PerimeterOrder`. */
  method AppendPerimeter(header: seq<Byte>, pa: Raster, sizeX: int, sizeY: int, top: int, bottom: int, divisor: int)
    returns (message: seq<Byte>)
    requires sizeX >= 1 && Shaped(pa, sizeX, sizeY) && 0 <= top < sizeY && 0 <= bottom < sizeY && divisor >= 1
    ensures CoordsInRange(pa, PerimeterOrder(sizeX, sizeY, top, bottom))
    ensures message == header + Words(ColoursAt(pa, PerimeterOrder(sizeX, sizeY, top, bottom), divisor))
  {
    PerimeterWords(pa, sizeX, sizeY, top, bottom, divisor);
    message := AppendBottomRow(header, pa, sizeX, sizeY, bottom, divisor);
    ghost var wb := message[|header|..];
    message := AppendRightSide(message, pa, sizeX, sizeY, divisor);
    ghost var wr := message[|header| + |wb|..];
    message := AppendTopRow(message, pa, sizeX, sizeY, top, divisor);
    ghost var wt := message[|header| + |wb| + |wr|..];
    message := AppendLeftSide(message, pa, sizeX, sizeY, divisor);
    ghost var wl := message[|header| + |wb| + |wr| + |wt|..];
    ConcatAssoc(header, wb, wr, wt, wl);
  }

  /** The black-bar search of one pass: probe the five columns, write this
      tick's candidates into both windows, and report the smallest top and
      the largest bottom the windows hold. Both reported bars are rows of
      the raster. */
  method SearchBlackBars(cfg: Config, pa: Raster, tops: CandidateWindow, bottoms: CandidateWindow)
    returns (blackTop: int, blackBottom: int)
    requires Sane(cfg) && Shaped(pa, cfg.sizeX, cfg.sizeY)
    requires tops.Valid() && bottoms.Valid() && tops != bottoms && tops.slots != bottoms.slots
    requires RowsOf(tops.History, cfg.sizeY) && RowsOf(bottoms.History, cfg.sizeY)
    modifies tops, tops.slots, bottoms, bottoms.slots
    ensures tops.Valid() && bottoms.Valid() && tops.slots == old(tops.slots) && bottoms.slots == old(bottoms.slots)
    ensures ColumnsInRange(pa, ProbePoints(cfg.sizeX))
    ensures tops.History == old(tops.History) + [Min(ColumnTops(pa, ProbePoints(cfg.sizeX), cfg.blackBarSearchHeight))]
    ensures bottoms.History == old(bottoms.History) + [Max(ColumnBottoms(pa, ProbePoints(cfg.sizeX), cfg.blackBarSearchHeight))]
    ensures RowsOf(tops.History, cfg.sizeY) && RowsOf(bottoms.History, cfg.sizeY)
    ensures blackTop == Min(LastWindow(tops.History, tops.slots.Length))
    ensures blackBottom == Max(LastWindow(bottoms.History, bottoms.slots.Length))
    ensures 0 <= blackTop < cfg.sizeY && 0 <= blackBottom < cfg.sizeY
  {
    var points := ProbePoints(cfg.sizeX);
    assert ColumnsInRange(pa, points);
    blackTop, blackBottom := ProbeCandidates(pa, points, cfg.blackBarSearchHeight);
    blackTop, blackBottom := RecordCandidates(tops, bottoms, blackTop, blackBottom, cfg.sizeY);
  }

  /** One pass of the capture loop from the composited pixel array on: the
      ring index of the averaging buffers advances, the black bars are
      searched, and the frame goes out with the perimeter read between the
      reported bars. The frame is a `struct.error` exactly when the input or
      the LED count does not fit its header field. */
  method Tick(cfg: Config, pa: Raster, tops: CandidateWindow, bottoms: CandidateWindow, currentBuffer: int)
    returns (nextBuffer: int, message: Packed)
    requires Sane(cfg) && Shaped(pa, cfg.sizeX, cfg.sizeY) && 0 <= currentBuffer < cfg.averageFrames
    requires tops.Valid() && bottoms.Valid() && tops != bottoms && tops.slots != bottoms.slots
    requires RowsOf(tops.History, cfg.sizeY) && RowsOf(bottoms.History, cfg.sizeY)
    modifies tops, tops.slots, bottoms, bottoms.slots
    ensures nextBuffer == NextBuffer(currentBuffer, cfg.averageFrames)
    ensures tops.Valid() && bottoms.Valid() && tops.slots == old(tops.slots) && bottoms.slots == old(bottoms.slots)
    ensures ColumnsInRange(pa, ProbePoints(cfg.sizeX))
    ensures tops.History == old(tops.History) + [Min(ColumnTops(pa, ProbePoints(cfg.sizeX), cfg.blackBarSearchHeight))]
    ensures bottoms.History == old(bottoms.History) + [Max(ColumnBottoms(pa, ProbePoints(cfg.sizeX), cfg.blackBarSearchHeight))]
    ensures RowsOf(tops.History, cfg.sizeY) && RowsOf(bottoms.History, cfg.sizeY)
    ensures 0 <= tops.Lowest() < cfg.sizeY && 0 <= bottoms.Highest() < cfg.sizeY
    ensures message.Packed? <==> 0 <= cfg.input < 256 && ArduinoPixels(cfg.sizeX, cfg.sizeY) < U16Limit
    ensures message.Packed? ==>
              CoordsInRange(pa, PerimeterOrder(cfg.sizeX, cfg.sizeY, tops.Lowest(), bottoms.Highest())) &&
              message.bytes == PixelHeader(cfg.input, ArduinoPixels(cfg.sizeX, cfg.sizeY)).bytes
                + Words(ColoursAt(pa, PerimeterOrder(cfg.sizeX, cfg.sizeY, tops.Lowest(), bottoms.Highest()), cfg.colourDivisor))
  {
    nextBuffer := currentBuffer + 1;
    if nextBuffer >= cfg.averageFrames {
      nextBuffer := 0;
    }

    var blackTop, blackBottom := SearchBlackBars(cfg, pa, tops, bottoms);
    message := BuildFrame(cfg, pa, blackTop, blackBottom);
  }

  /** The 'P' frame for one tick: the header, then the perimeter from the reported bars. */
  method BuildFrame(cfg: Config, pa: Raster, top: int, bottom: int) returns (message: Packed)
    requires Sane(cfg) && Shaped(pa, cfg.sizeX, cfg.sizeY)
    requires 0 <= top < cfg.sizeY && 0 <= bottom < cfg.sizeY
    ensures message.Packed? <==> 0 <= cfg.input < 256 && ArduinoPixels(cfg.sizeX, cfg.sizeY) < U16Limit
    ensures message.Packed? ==>
              CoordsInRange(pa, PerimeterOrder(cfg.sizeX, cfg.sizeY, top, bottom)) &&
              message.bytes == PixelHeader(cfg.input, ArduinoPixels(cfg.sizeX, cfg.sizeY)).bytes
                + Words(ColoursAt(pa, PerimeterOrder(cfg.sizeX, cfg.sizeY, top, bottom), cfg.colourDivisor))
  {
    var header := PixelHeader(cfg.input, ArduinoPixels(cfg.sizeX, cfg.sizeY));
    if header.StructError? {
      return StructError;
    }
    var bytes := AppendPerimeter(header.bytes, pa, cfg.sizeX, cfg.sizeY, top, bottom, cfg.colourDivisor);
    message := Packed(bytes);
  }
}
