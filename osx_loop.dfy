/** The main loop of the CoreGraphics script: each tick captures a frame,
    probes five columns for black bars through `pixel`, writes this tick's
    candidates into the two circular windows and sends the perimeter, read
    through `pixel` as well, between the reported bars. Since every `pixel`
    call feeds the rolling average, each piece of the tick is specified as a
    `Run` of `pixel` steps over the exact coordinates it reads, in order. */
module OsxLoop {
  import opened Wire
  import opened Stats
  import opened BlackBar
  import opened Perimeter
  import opened Commands
  import opened Settings
  import opened OsxCapture

  /** The reads of one probe column: for each y below the search height,
      `pixel(x, y)` from the top and then `pixel(x, real_height - y)` from
      the bottom. */
  function ColumnReads(x: int, searchHeight: nat, realHeight: int): (ps: seq<(int, int)>)
    ensures |ps| == 2 * searchHeight
  {
    if searchHeight == 0 then []
    else ColumnReads(x, searchHeight - 1, realHeight) + [(x, searchHeight - 1), (x, realHeight - (searchHeight - 1))]
  }

  /** Row y of the scan reads (x, y), then (x, real_height - y). */
  lemma {:induction false} ColumnReadsAt(x: int, searchHeight: nat, realHeight: int, y: int)
    requires 0 <= y < searchHeight
    ensures ColumnReads(x, searchHeight, realHeight)[2 * y] == (x, y)
    ensures ColumnReads(x, searchHeight, realHeight)[2 * y + 1] == (x, realHeight - y)
  {
    if y < searchHeight - 1 {
      ColumnReadsAt(x, searchHeight - 1, realHeight, y);
    }
  }

  /** The colours a column scan read from the top: every other one, from the first. */
  function TopSamples(cs: seq<int>, searchHeight: nat): (ts: seq<int>)
    requires |cs| == 2 * searchHeight
    ensures |ts| == searchHeight
  {
    seq(searchHeight, y requires 0 <= y < searchHeight => cs[2 * y])
  }

  /** The colours a column scan read from the bottom: every other one, from the second. */
  function BottomSamples(cs: seq<int>, searchHeight: nat): (bs: seq<int>)
    requires |cs| == 2 * searchHeight
    ensures |bs| == searchHeight
  {
    seq(searchHeight, y requires 0 <= y < searchHeight => cs[2 * y + 1])
  }

  /** The lists after scanning one probe column, with its `this_top` and `this_bottom`. */
  datatype Column = Column(histories: Histories, top: int, bottom: int)

  /** One probe column scanned from the lists `h`: its `this_top` lies in
      [0, search_height] and its `this_bottom` in
      [real_height - search_height, real_height]. */
  function ColumnScan(step: Step, h: Histories, x: int, searchHeight: nat, realHeight: int): (c: Column)
    ensures 0 <= c.top <= searchHeight && realHeight - searchHeight <= c.bottom <= realHeight
  {
    var t := Run(step, h, ColumnReads(x, searchHeight, realHeight), 2 * searchHeight);
    Column(t.histories, ColumnTop(TopSamples(t.colours, searchHeight)),
           ColumnBottom(BottomSamples(t.colours, searchHeight), realHeight))
  }

  /** The column loop after its first `y` rows: row y-1 reads
      `pixel(x, y-1)`, which makes `this_top` y when black, and then
      `pixel(x, real_height - (y-1))`, which makes `this_bottom` the row
      above it when black. */
  function ColumnAfter(step: Step, h: Histories, x: int, realHeight: int, y: nat): (c: Column)
    ensures 0 <= c.top <= y && realHeight - y <= c.bottom <= realHeight
  {
    if y == 0 then Column(h, 0, realHeight)
    else
      var c := ColumnAfter(step, h, x, realHeight, y - 1);
      var r1 := step(c.histories, (x, y - 1));
      var r2 := step(r1.histories, (x, realHeight - (y - 1)));
      Column(r2.histories,
             if r1.colour == 0 then y else c.top,
             if r2.colour == 0 then (realHeight - (y - 1)) - 1 else c.bottom)
  }

  /** Two more reads add one colour to each side's samples. */
  lemma SamplesSnoc(cs: seq<int>, y: nat, c1: int, c2: int)
    requires y >= 1 && |cs| == 2 * (y - 1)
    ensures TopSamples(cs + [c1, c2], y) == TopSamples(cs, y - 1) + [c1]
    ensures BottomSamples(cs + [c1, c2], y) == BottomSamples(cs, y - 1) + [c2]
  {
    assert forall i :: 0 <= i < y - 1 ==> (cs + [c1, c2])[2 * i] == cs[2 * i];
    assert forall i :: 0 <= i < y - 1 ==> (cs + [c1, c2])[2 * i + 1] == cs[2 * i + 1];
  }

  /** Scanning row y-1 of a column takes two more steps, at the row's top
      and bottom coordinates. */
  lemma ColumnRunStep(step: Step, h: Histories, x: int, y: nat, realHeight: int)
    requires y >= 1
    ensures var t := Run(step, h, ColumnReads(x, y - 1, realHeight), 2 * (y - 1));
            var r1 := step(t.histories, (x, y - 1));
            var r2 := step(r1.histories, (x, realHeight - (y - 1)));
            Run(step, h, ColumnReads(x, y, realHeight), 2 * y) == Traced(r2.histories, t.colours + [r1.colour, r2.colour])
  {
    var n := y - 1;
    var prefix, ps := ColumnReads(x, n, realHeight), ColumnReads(x, y, realHeight);
    var pair := [(x, n), (x, realHeight - n)];
    var m := 2 * n;
    assert ps == prefix + pair && m + 2 == 2 * y;
    RunPrefix(step, h, prefix, pair, m);
    var t := Run(step, h, prefix, m);
    assert ps[m] == (x, n) && ps[m + 1] == (x, realHeight - n);
    var r1 := step(t.histories, (x, n));
    var r2 := step(r1.histories, (x, realHeight - n));
    assert Run(step, h, ps, m + 1) == Traced(r1.histories, t.colours + [r1.colour]);
    assert t.colours + [r1.colour] + [r2.colour] == t.colours + [r1.colour, r2.colour];
  }

  /** One more row of the declarative scan: a black top read makes the top
      the row below it, a black bottom read makes the bottom the row above
      it, and otherwise the rows found before stand. */
  lemma ColumnScanStep(step: Step, h: Histories, x: int, y: nat, realHeight: int)
    requires y >= 1
    ensures var c := ColumnScan(step, h, x, y - 1, realHeight);
            var r1 := step(c.histories, (x, y - 1));
            var r2 := step(r1.histories, (x, realHeight - (y - 1)));
            ColumnScan(step, h, x, y, realHeight)
              == Column(r2.histories,
                        if r1.colour == 0 then y else c.top,
                        if r2.colour == 0 then (realHeight - (y - 1)) - 1 else c.bottom)
  {
    ColumnRunStep(step, h, x, y, realHeight);
    var t := Run(step, h, ColumnReads(x, y - 1, realHeight), 2 * (y - 1));
    var r1 := step(t.histories, (x, y - 1));
    var r2 := step(r1.histories, (x, realHeight - (y - 1)));
    SamplesSnoc(t.colours, y, r1.colour, r2.colour);
    var ts, bs := TopSamples(t.colours, y - 1), BottomSamples(t.colours, y - 1);
    ColumnSnoc(ts, r1.colour, realHeight);
    ColumnSnoc(bs, r2.colour, realHeight);
  }

  /** The loop computes the last black row from each end over the whole
      search height: row by row it arrives at `ColumnScan`. */
  lemma {:induction false} ColumnAfterIsScan(step: Step, h: Histories, x: int, searchHeight: nat, realHeight: int)
    ensures ColumnAfter(step, h, x, realHeight, searchHeight) == ColumnScan(step, h, x, searchHeight, realHeight)
  {
    if searchHeight > 0 {
      ColumnScanStep(step, h, x, searchHeight, realHeight);
      ColumnAfterIsScan(step, h, x, searchHeight - 1, realHeight);
    }
  }

  /** The lists after probing columns, with `top_candidates` and `bottom_candidates`. */
  datatype Probe = Probe(histories: Histories, tops: seq<int>, bottoms: seq<int>)

  /** The first `k` probe columns scanned one after the other, each from
      the lists the one before left: one candidate pair per column, each
      within the bounds of a single column's scan. */
  function ProbeScan(step: Step, h: Histories, points: seq<int>, searchHeight: nat, realHeight: int, k: int): (p: Probe)
    requires 0 <= k <= |points|
    ensures |p.tops| == k && |p.bottoms| == k
    ensures forall i :: 0 <= i < k ==> 0 <= p.tops[i] <= searchHeight
    ensures forall i :: 0 <= i < k ==> realHeight - searchHeight <= p.bottoms[i] <= realHeight
  {
    if k == 0 then Probe(h, [], [])
    else
      var p := ProbeScan(step, h, points, searchHeight, realHeight, k - 1);
      var c := ColumnAfter(step, p.histories, points[k - 1], realHeight, searchHeight);
      Probe(c.histories, p.tops + [c.top], p.bottoms + [c.bottom])
  }

  /** Every read of the first `k` probe columns, in the order they happen. */
  function ProbeReads(points: seq<int>, searchHeight: nat, realHeight: int, k: int): (ps: seq<(int, int)>)
    requires 0 <= k <= |points|
    ensures |ps| == k * (2 * searchHeight)
  {
    if k == 0 then []
    else ProbeReads(points, searchHeight, realHeight, k - 1) + ColumnReads(points[k - 1], searchHeight, realHeight)
  }

  /** Probe column k-1 leaves the lists a run of `pixel` over its reads
      leaves, from the lists the columns before it left. */
  lemma ProbeStep(step: Step, h: Histories, points: seq<int>, searchHeight: nat, realHeight: int, k: int)
    requires 1 <= k <= |points|
    ensures var b := ColumnReads(points[k - 1], searchHeight, realHeight);
            var before := ProbeScan(step, h, points, searchHeight, realHeight, k - 1);
            ProbeScan(step, h, points, searchHeight, realHeight, k).histories == Run(step, before.histories, b, |b|).histories
  {
    var before := ProbeScan(step, h, points, searchHeight, realHeight, k - 1);
    var b := ColumnReads(points[k - 1], searchHeight, realHeight);
    ColumnAfterIsScan(step, before.histories, points[k - 1], searchHeight, realHeight);
    assert |b| == 2 * searchHeight;
  }

  /** Probing column after column leaves the lists that one run of `pixel`
      over all the probe's reads, in order, leaves. */
  lemma {:induction false} ProbeIsOneRun(step: Step, h: Histories, points: seq<int>, searchHeight: nat, realHeight: int, k: int)
    requires 0 <= k <= |points|
    ensures var ps := ProbeReads(points, searchHeight, realHeight, k);
            ProbeScan(step, h, points, searchHeight, realHeight, k).histories == Run(step, h, ps, |ps|).histories
  {
    if k > 0 {
      ProbeIsOneRun(step, h, points, searchHeight, realHeight, k - 1);
      ProbeStep(step, h, points, searchHeight, realHeight, k);
      var a := ProbeReads(points, searchHeight, realHeight, k - 1);
      var b := ColumnReads(points[k - 1], searchHeight, realHeight);
      assert ProbeReads(points, searchHeight, realHeight, k) == a + b;
      RunAppend(step, h, a, b);
    }
  }

  /** One tick of `pixel` calls: the probe's reads, then the perimeter's. */
  lemma TickIsOneRun(step: Step, h: Histories, points: seq<int>, searchHeight: nat, realHeight: int, perimeter: seq<(int, int)>)
    ensures var p := ProbeScan(step, h, points, searchHeight, realHeight, |points|);
            var ps := ProbeReads(points, searchHeight, realHeight, |points|) + perimeter;
            Run(step, p.histories, perimeter, |perimeter|).histories == Run(step, h, ps, |ps|).histories
  {
    var a := ProbeReads(points, searchHeight, realHeight, |points|);
    ProbeIsOneRun(step, h, points, searchHeight, realHeight, |points|);
    RunAppend(step, h, a, perimeter);
  }

  /** One `pixel(x, y)` call, seen as one step: the lists and the colour
      are those `step` gives from the lists before the call. */
  method ReadOne(capture: ScreenPixel, ghost step: Step, x: int, y: int) returns (colour: int)
    requires capture.Valid() && capture.Captured() && IsPixelStep(step, capture.data, capture.Setup())
    requires 0 <= x < capture.width && 0 <= y < capture.height
    modifies capture
    ensures capture.Valid() && capture.data == old(capture.data)
    ensures var r := step(old(capture.lastValues), (x, y));
            capture.lastValues == r.histories && colour == r.colour
  {
    InsideReadable(capture.data, capture.width, capture.height, x, y);
    colour := capture.Pixel(x, y);
  }

  /** One probe column: `this_top` and `this_bottom`, each `pixel` read of
      the column feeding the averager in turn. */
  method ScanColumn(capture: ScreenPixel, ghost step: Step, x: int, searchHeight: nat) returns (thisTop: int, thisBottom: int)
    requires capture.Valid() && capture.Captured() && IsPixelStep(step, capture.data, capture.Setup())
    requires 0 <= x < capture.width && searchHeight <= capture.height
    modifies capture
    ensures capture.Valid() && capture.data == old(capture.data)
    ensures var c := ColumnAfter(step, old(capture.lastValues), x, capture.height - 1, searchHeight);
            capture.lastValues == c.histories && thisTop == c.top && thisBottom == c.bottom
  {
    var realHeight := capture.height - 1;
    ghost var h0 := capture.lastValues;
    thisTop := 0;
    thisBottom := realHeight;
    for y := 0 to searchHeight
      invariant capture.Valid() && capture.data == old(capture.data)
      invariant var c := ColumnAfter(step, h0, x, realHeight, y);
                capture.lastValues == c.histories && thisTop == c.top && thisBottom == c.bottom
    {
      var colour := ReadOne(capture, step, x, y);
      if colour == 0 {
        thisTop := y + 1;
      }
      colour := ReadOne(capture, step, x, realHeight - y);
      if colour == 0 {
        thisBottom := (realHeight - y) - 1;
      }
    }
  }

  /** This tick's candidates: the smallest `this_top` and the largest
      `this_bottom` over the probe columns, scanned in order. */
  method ProbeCandidates(capture: ScreenPixel, ghost step: Step, points: seq<int>, searchHeight: nat)
    returns (blackTop: int, blackBottom: int)
    requires capture.Valid() && capture.Captured() && IsPixelStep(step, capture.data, capture.Setup())
    requires |points| >= 1 && forall i :: 0 <= i < |points| ==> 0 <= points[i] < capture.width
    requires searchHeight <= capture.height
    modifies capture
    ensures capture.Valid() && capture.data == old(capture.data)
    ensures var p := ProbeScan(step, old(capture.lastValues), points, searchHeight, capture.height - 1, |points|);
            capture.lastValues == p.histories && blackTop == Min(p.tops) && blackBottom == Max(p.bottoms)
    ensures 0 <= blackTop <= searchHeight && (capture.height - 1) - searchHeight <= blackBottom <= capture.height - 1
  {
    ghost var h0 := capture.lastValues;
    var topCandidates := [];
    var bottomCandidates := [];
    for i := 0 to |points|
      invariant capture.Valid() && capture.data == old(capture.data)
      invariant var p := ProbeScan(step, h0, points, searchHeight, capture.height - 1, i);
                capture.lastValues == p.histories && topCandidates == p.tops && bottomCandidates == p.bottoms
    {
      var thisTop, thisBottom := ScanColumn(capture, step, points[i], searchHeight);
      topCandidates := topCandidates + [thisTop];
      bottomCandidates := bottomCandidates + [thisBottom];
    }
    blackTop := Min(topCandidates);
    blackBottom := Max(bottomCandidates);
  }

  /** The bottom loop: row `black_bottom`, columns 0 .. real_width-1, each
      `pixel` colour appended as a little-endian word. */
  method AppendBottomRow(capture: ScreenPixel, ghost step: Step, message: seq<Byte>, bottom: int)
    returns (message': seq<Byte>)
    requires capture.Valid() && capture.Captured() && IsPixelStep(step, capture.data, capture.Setup())
    requires capture.width >= 1 && 0 <= bottom < capture.height
    modifies capture
    ensures capture.Valid() && capture.data == old(capture.data)
    ensures var edge := BottomEdge(capture.width, bottom);
            var t := Run(step, old(capture.lastValues), edge, |edge|);
            capture.lastValues == t.histories && message' == message + Words(t.colours)
  {
    ghost var edge := BottomEdge(capture.width, bottom);
    ghost var v0 := capture.lastValues;
    var realWidth := capture.width - 1;
    message' := message;
    var y := bottom;
    var x := 0;
    while x < realWidth
      invariant 0 <= x <= realWidth && |edge| == realWidth
      invariant capture.Valid() && capture.data == old(capture.data)
      invariant capture.lastValues == Run(step, v0, edge, x).histories
      invariant message' == message + Words(Run(step, v0, edge, x).colours)
    {
      assert edge[x] == (x, y);
      var colour := ReadOne(capture, step, x, y);
      RunNext(step, v0, edge, x);
      message' := message' + LE32(colour);
      x := x + 1;
    }
  }

  /** The right loop: column `real_width`, rows `real_height` down to 1. */
  method AppendRightSide(capture: ScreenPixel, ghost step: Step, message: seq<Byte>)
    returns (message': seq<Byte>)
    requires capture.Valid() && capture.Captured() && IsPixelStep(step, capture.data, capture.Setup())
    requires capture.width >= 1 && capture.height >= 1
    modifies capture
    ensures capture.Valid() && capture.data == old(capture.data)
    ensures var edge := RightEdge(capture.width, capture.height);
            var t := Run(step, old(capture.lastValues), edge, |edge|);
            capture.lastValues == t.histories && message' == message + Words(t.colours)
  {
    ghost var edge := RightEdge(capture.width, capture.height);
    ghost var v0 := capture.lastValues;
    var realWidth, realHeight := capture.width - 1, capture.height - 1;
    message' := message;
    var x := realWidth;
    var y := realHeight;
    ghost var k := 0;
    while y > 0
      invariant 0 <= y <= realHeight && k == realHeight - y && |edge| == realHeight
      invariant capture.Valid() && capture.data == old(capture.data)
      invariant capture.lastValues == Run(step, v0, edge, k).histories
      invariant message' == message + Words(Run(step, v0, edge, k).colours)
    {
      assert edge[k] == (x, y);
      var colour := ReadOne(capture, step, x, y);
      RunNext(step, v0, edge, k);
      message' := message' + LE32(colour);
      y, k := y - 1, k + 1;
    }
  }

  /** The top loop: row `black_top`, columns `real_width` down to 1. */
  method AppendTopRow(capture: ScreenPixel, ghost step: Step, message: seq<Byte>, top: int)
    returns (message': seq<Byte>)
    requires capture.Valid() && capture.Captured() && IsPixelStep(step, capture.data, capture.Setup())
    requires capture.width >= 1 && 0 <= top < capture.height
    modifies capture
    ensures capture.Valid() && capture.data == old(capture.data)
    ensures var edge := TopEdge(capture.width, top);
            var t := Run(step, old(capture.lastValues), edge, |edge|);
            capture.lastValues == t.histories && message' == message + Words(t.colours)
  {
    ghost var edge := TopEdge(capture.width, top);
    ghost var v0 := capture.lastValues;
    var realWidth := capture.width - 1;
    message' := message;
    var y := top;
    var x := realWidth;
    ghost var k := 0;
    while x > 0
      invariant 0 <= x <= realWidth && k == realWidth - x && |edge| == realWidth
      invariant capture.Valid() && capture.data == old(capture.data)
      invariant capture.lastValues == Run(step, v0, edge, k).histories
      invariant message' == message + Words(Run(step, v0, edge, k).colours)
    {
      assert edge[k] == (x, y);
      var colour := ReadOne(capture, step, x, y);
      RunNext(step, v0, edge, k);
      message' := message' + LE32(colour);
      x, k := x - 1, k + 1;
    }
  }

  /** The left loop: column 0, rows 0 .. real_height-1. */
  method AppendLeftSide(capture: ScreenPixel, ghost step: Step, message: seq<Byte>)
    returns (message': seq<Byte>)
    requires capture.Valid() && capture.Captured() && IsPixelStep(step, capture.data, capture.Setup())
    requires capture.width >= 1 && capture.height >= 1
    modifies capture
    ensures capture.Valid() && capture.data == old(capture.data)
    ensures var edge := LeftEdge(capture.height);
            var t := Run(step, old(capture.lastValues), edge, |edge|);
            capture.lastValues == t.histories && message' == message + Words(t.colours)
  {
    ghost var edge := LeftEdge(capture.height);
    ghost var v0 := capture.lastValues;
    var realHeight := capture.height - 1;
    message' := message;
    var x := 0;
    var y := 0;
    while y < realHeight
      invariant 0 <= y <= realHeight && |edge| == realHeight
      invariant capture.Valid() && capture.data == old(capture.data)
      invariant capture.lastValues == Run(step, v0, edge, y).histories
      invariant message' == message + Words(Run(step, v0, edge, y).colours)
    {
      assert edge[y] == (x, y);
      var colour := ReadOne(capture, step, x, y);
      RunNext(step, v0, edge, y);
      message' := message' + LE32(colour);
      y := y + 1;
    }
  }

  /** A run through `a` and then `b` leaves what the run through `b` from
      the lists `a` left leaves, and its words are those of `a`'s colours
      followed by those of `b`'s. */
  lemma RunWordsAppend(step: Step, h: Histories, a: seq<(int, int)>, b: seq<(int, int)>)
    ensures var first := Run(step, h, a, |a|);
            var second := Run(step, first.histories, b, |b|);
            var whole := Run(step, h, a + b, |a + b|);
            whole.histories == second.histories && Words(whole.colours) == Words(first.colours) + Words(second.colours)
  {
    RunAppend(step, h, a, b);
    var first := Run(step, h, a, |a|);
    WordsAppend(first.colours, Run(step, first.histories, b, |b|).colours);
  }

  /** The four perimeter loops: one `pixel` read per LED in
      `PerimeterOrder`, each colour appended to the frame as a
      little-endian word, the reads feeding the averager in that order. */
  method AppendPerimeter(capture: ScreenPixel, ghost step: Step, header: seq<Byte>, top: int, bottom: int)
    returns (message: seq<Byte>)
    requires capture.Valid() && capture.Captured() && IsPixelStep(step, capture.data, capture.Setup())
    requires capture.width >= 1 && 0 <= top < capture.height && 0 <= bottom < capture.height
    modifies capture
    ensures capture.Valid() && capture.data == old(capture.data)
    ensures var ps := PerimeterOrder(capture.width, capture.height, top, bottom);
            var t := Run(step, old(capture.lastValues), ps, |ps|);
            capture.lastValues == t.histories && message == header + Words(t.colours)
  {
    ghost var v0 := capture.lastValues;
    ghost var b, r := BottomEdge(capture.width, bottom), RightEdge(capture.width, capture.height);
    ghost var t, l := TopEdge(capture.width, top), LeftEdge(capture.height);
    message := AppendBottomRow(capture, step, header, bottom);
    ghost var wb := message[|header|..];
    message := AppendRightSide(capture, step, message);
    ghost var wr := message[|header| + |wb|..];
    message := AppendTopRow(capture, step, message, top);
    ghost var wt := message[|header| + |wb| + |wr|..];
    message := AppendLeftSide(capture, step, message);
    ghost var wl := message[|header| + |wb| + |wr| + |wt|..];
    RunWordsAppend(step, v0, b, r);
    RunWordsAppend(step, v0, b + r, t);
    RunWordsAppend(step, v0, b + r + t, l);
    ConcatAssoc(header, wb, wr, wt, wl);
  }

  /** The black-bar search of one tick: probe the five columns through
      `pixel`, write this tick's candidates into both windows, and report
      the smallest top and the largest bottom the windows hold. Both
      reported bars are rows of the target image. */
  method SearchBlackBars(cfg: Config, capture: ScreenPixel, ghost step: Step, tops: CandidateWindow, bottoms: CandidateWindow)
    returns (blackTop: int, blackBottom: int)
    requires Sane(cfg) && capture.width == cfg.sizeX && capture.height == cfg.sizeY
    requires capture.Valid() && capture.Captured() && IsPixelStep(step, capture.data, capture.Setup())
    requires tops.Valid() && bottoms.Valid() && tops != bottoms && tops.slots != bottoms.slots
    requires RowsOf(tops.History, cfg.sizeY) && RowsOf(bottoms.History, cfg.sizeY)
    modifies capture, tops, tops.slots, bottoms, bottoms.slots
    ensures capture.Valid() && capture.data == old(capture.data)
    ensures tops.Valid() && bottoms.Valid() && tops.slots == old(tops.slots) && bottoms.slots == old(bottoms.slots)
    ensures var points := ProbePoints(cfg.sizeX);
            var p := ProbeScan(step, old(capture.lastValues), points, cfg.blackBarSearchHeight, capture.height - 1, |points|);
            && capture.lastValues == p.histories
            && tops.History == old(tops.History) + [Min(p.tops)]
            && bottoms.History == old(bottoms.History) + [Max(p.bottoms)]
    ensures RowsOf(tops.History, cfg.sizeY) && RowsOf(bottoms.History, cfg.sizeY)
    ensures blackTop == Min(LastWindow(tops.History, tops.slots.Length))
    ensures blackBottom == Max(LastWindow(bottoms.History, bottoms.slots.Length))
    ensures 0 <= blackTop < cfg.sizeY && 0 <= blackBottom < cfg.sizeY
  {
    var points := ProbePoints(cfg.sizeX);
    blackTop, blackBottom := ProbeCandidates(capture, step, points, cfg.blackBarSearchHeight);
    blackTop, blackBottom := RecordCandidates(tops, bottoms, blackTop, blackBottom, cfg.sizeY);
  }

  /** One pass of the main loop: capture a frame, search the black bars,
      and build the frame with the perimeter read between the reported
      bars. Every `pixel` call of the tick, the probe's and then the
      perimeter's, feeds the averager in turn. The frame is a
      `struct.error` exactly when the input or the LED count does not fit
      its header field, and the probe has run by then. */
  method Tick(cfg: Config, capture: ScreenPixel, ghost step: Step, frame: seq<Byte>, tops: CandidateWindow, bottoms: CandidateWindow)
    returns (message: Packed)
    requires Sane(cfg) && capture.width == cfg.sizeX && capture.height == cfg.sizeY
    requires capture.Valid() && |frame| == 4 * cfg.sizeX * cfg.sizeY && IsPixelStep(step, frame, capture.Setup())
    requires tops.Valid() && bottoms.Valid() && tops != bottoms && tops.slots != bottoms.slots
    requires RowsOf(tops.History, cfg.sizeY) && RowsOf(bottoms.History, cfg.sizeY)
    modifies capture, tops, tops.slots, bottoms, bottoms.slots
    ensures capture.Valid() && capture.data == frame
    ensures tops.Valid() && bottoms.Valid() && tops.slots == old(tops.slots) && bottoms.slots == old(bottoms.slots)
    ensures var points := ProbePoints(cfg.sizeX);
            var p := ProbeScan(step, old(capture.lastValues), points, cfg.blackBarSearchHeight, capture.height - 1, |points|);
            && tops.History == old(tops.History) + [Min(p.tops)]
            && bottoms.History == old(bottoms.History) + [Max(p.bottoms)]
            && (message.StructError? ==> capture.lastValues == p.histories)
    ensures RowsOf(tops.History, cfg.sizeY) && RowsOf(bottoms.History, cfg.sizeY)
    ensures 0 <= tops.Lowest() < cfg.sizeY && 0 <= bottoms.Highest() < cfg.sizeY
    ensures message.Packed? <==> 0 <= cfg.input < 256 && ArduinoPixels(cfg.sizeX, cfg.sizeY) < U16Limit
    ensures message.Packed? ==>
              var ps := PerimeterOrder(cfg.sizeX, cfg.sizeY, tops.Lowest(), bottoms.Highest());
              var points := ProbePoints(cfg.sizeX);
              var t := Run(step, ProbeScan(step, old(capture.lastValues), points, cfg.blackBarSearchHeight, capture.height - 1, |points|).histories, ps, |ps|);
              && message.bytes == PixelHeader(cfg.input, ArduinoPixels(cfg.sizeX, cfg.sizeY)).bytes + Words(t.colours)
              && capture.lastValues == t.histories
  {
    capture.Capture(frame);
    var blackTop, blackBottom := SearchBlackBars(cfg, capture, step, tops, bottoms);

    var header := PixelHeader(cfg.input, ArduinoPixels(cfg.sizeX, cfg.sizeY));
    if header.StructError? {
      return StructError;
    }
    var bytes := AppendPerimeter(capture, step, header.bytes, blackTop, blackBottom);
    message := Packed(bytes);
  }
}
