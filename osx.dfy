/** The CoreGraphics capture script: `ScreenPixel`, whose `pixel` smooths
    every channel it reads with a rolling average kept per (x, y, channel),
    and the per-frame loop that probes for black bars and reads the
    perimeter through it. Every `pixel` call feeds the averager, the probe's
    as well as the perimeter's, so a tick is specified by the exact sequence
    of coordinates it reads. The screen grab and its scaling are library
    calls and are not modelled: the scaled capture is an input of each tick. */
module OsxCapture {
  import opened Wire
  import opened Stats
  import opened Colour
  import opened Averaging
  import opened BlackBar
  import opened Perimeter
  import opened Commands
  import opened Settings

  datatype Channel = Red | Green | Blue

  /** `"%d_%d_r" % (x, y)` and its `_g` and `_b` siblings. Distinct integer
      coordinates or channels format to distinct strings, so a key is
      modelled by what it formats. */
  datatype Key = Key(x: int, y: int, channel: Channel)

  /** `self.last_values`: one list of samples per key. A sample is a byte
      divided by the colour scale, so it fits a byte. */
  type Histories = map<Key, seq<Byte>>

  /** The fields of a `ScreenPixel` that `pixel` reads besides its state:
      `target_width`, `colour_scale` and `average_frames`. */
  datatype PixelSetup = PixelSetup(width: int, colourScale: int, averageFrames: int)

  predicate SetupOk(s: PixelSetup)
  {
    s.colourScale >= 1 && s.averageFrames >= 1
  }

  /** The largest channel value once divided by the colour scale. */
  function Cap(s: PixelSetup): int
    requires s.colourScale >= 1
  {
    255 / s.colourScale
  }

  /** Every sample held lies in [0, Cap]. */
  ghost predicate InRange(h: Histories, s: PixelSetup)
    requires SetupOk(s)
  {
    forall k, v :: k in h && v in h[k] ==> 0 <= v <= Cap(s)
  }

  /** The list kept for `k`; a key not yet seen has none, which `pixel`
      treats as the empty list it creates. */
  function History(h: Histories, k: Key): seq<Byte>
  {
    if k in h then h[k] else []
  }

  /** `4 * ((target_width * y) + x)`: the byte at which pixel (x, y) starts. */
  function Offset(width: int, x: int, y: int): (o: int)
    ensures 0 <= x < width && 0 <= y ==> 4 * (width * y) <= o && o + 4 <= 4 * (width * (y + 1))
  {
    assert width * (y + 1) == width * y + width;
    4 * ((width * y) + x)
  }

  /** `unpack_from("BBBB", data, offset)` finds its four bytes. */
  predicate Readable(data: seq<Byte>, width: int, x: int, y: int)
  {
    0 <= Offset(width, x, y) && Offset(width, x, y) + 4 <= |data|
  }

  /** Every pixel of a `width` by `height` capture can be read. */
  lemma InsideReadable(data: seq<Byte>, width: int, height: int, x: int, y: int)
    requires |data| == 4 * width * height
    requires 0 <= x < width && 0 <= y < height
    ensures Readable(data, width, x, y)
  {
    MulLeft(width, y + 1, height);
    assert width * (y + 1) == width * y + width;
  }

  /** Byte `i` of the capture. Only readable pixels are ever read (an
      unreadable one raises `struct.error` before any state changes), so
      the value outside the capture is never observed. */
  function ByteAt(data: seq<Byte>, i: int): Byte
  {
    if 0 <= i < |data| then data[i] else 0
  }

  /** One channel as `pixel` takes it: the bytes at the offset are alpha,
      red, green and blue in that order, and the channel is divided by the
      colour scale. It never exceeds 255 / colour_scale. */
  function Sample(data: seq<Byte>, s: PixelSetup, x: int, y: int, c: Channel): (v: Byte)
    requires SetupOk(s)
    ensures 0 <= v <= Cap(s)
  {
    var offset := Offset(s.width, x, y);
    var raw: int := match c
      case Red => ByteAt(data, offset + 1)
      case Green => ByteAt(data, offset + 2)
      case Blue => ByteAt(data, offset + 3);
    DivAtMost(raw, s.colourScale);
    DivMonotone(raw, 255, s.colourScale);
    raw / s.colourScale
  }

  /** One key's turn in `pixel`: create the list if missing, drop its
      oldest sample once it holds `average_frames`, append the new one. */
  function Feed(h: Histories, k: Key, v: Byte, n: int): (r: Histories)
    requires n >= 1
    ensures r.Keys == h.Keys + {k}
    ensures |r[k]| >= 1 && r[k][|r[k]| - 1] == v
    ensures |History(h, k)| <= n ==> |r[k]| <= n
  {
    var hk := History(h, k);
    h[k := (if |hk| >= n then hk[1..] else hk) + [v]]
  }

  lemma FeedInRange(h: Histories, s: PixelSetup, k: Key, v: Byte)
    requires SetupOk(s) && InRange(h, s) && 0 <= v <= Cap(s)
    ensures InRange(Feed(h, k, v, s.averageFrames), s)
  {
    var hk := History(h, k);
    var pushed := PushSample(hk, v, s.averageFrames);
    forall w | w in pushed ensures 0 <= w <= Cap(s) {
      var i :| 0 <= i < |pushed| && pushed[i] == w;
      if i < |pushed| - 1 {
        if |hk| >= s.averageFrames {
          assert w == hk[i + 1];
          assert hk[i + 1] in hk;
        } else {
          assert w == hk[i];
          assert hk[i] in hk;
        }
      }
    }
  }

  /** A 24-bit colour word. */
  type Colour24 = c: int | 0 <= c < 0x100_0000

  /** What one `pixel(x, y)` call leaves behind: the new lists and the
      colour it returns. */
  datatype Read = Read(histories: Histories, colour: Colour24)

  /** `pixel(x, y)` on the lists `h`: feed the three divided channels to the
      keys `x_y_r`, `x_y_g` and `x_y_b`, then pack the floor means of the
      three lists. */
  function PixelRead(h: Histories, data: seq<Byte>, s: PixelSetup, x: int, y: int): (r: Read)
    requires SetupOk(s)
    ensures r.histories.Keys == h.Keys + {Key(x, y, Red), Key(x, y, Green), Key(x, y, Blue)}
  {
    var n := s.averageFrames;
    var kr, kg, kb := Key(x, y, Red), Key(x, y, Green), Key(x, y, Blue);
    var h1 := Feed(h, kr, Sample(data, s, x, y, Red), n);
    var h2 := Feed(h1, kg, Sample(data, s, x, y, Green), n);
    var h3 := Feed(h2, kb, Sample(data, s, x, y, Blue), n);
    Read(h3, Pack(Smooth(h3[kr]), Smooth(h3[kg]), Smooth(h3[kb])))
  }

  /** `sum(l) / len(l)` of one list of samples: a byte again. */
  function Smooth(w: seq<Byte>): (m: Byte)
    requires |w| >= 1
    ensures Min(w) <= m <= Max(w)
  {
    MeanAtMost(w, 255);
    Mean(w)
  }

  /** Feeding one more in-range sample to every key keeps every sample in
      range, so no list ever holds a channel above 255 / colour_scale. */
  lemma PixelReadInRange(h: Histories, data: seq<Byte>, s: PixelSetup, x: int, y: int)
    requires SetupOk(s) && InRange(h, s)
    ensures InRange(PixelRead(h, data, s, x, y).histories, s)
  {
    var n := s.averageFrames;
    var kr, kg, kb := Key(x, y, Red), Key(x, y, Green), Key(x, y, Blue);
    var h1 := Feed(h, kr, Sample(data, s, x, y, Red), n);
    var h2 := Feed(h1, kg, Sample(data, s, x, y, Green), n);
    FeedInRange(h, s, kr, Sample(data, s, x, y, Red));
    FeedInRange(h1, s, kg, Sample(data, s, x, y, Green));
    FeedInRange(h2, s, kb, Sample(data, s, x, y, Blue));
  }

  /** A `pixel(x, y)` call feeds each of the keys `x_y_r`, `x_y_g` and
      `x_y_b` its divided channel, evicting that list's oldest sample once
      it holds `average_frames`, and leaves the list of every other
      coordinate as it was. */
  lemma PixelReadHistories(h: Histories, data: seq<Byte>, s: PixelSetup, x: int, y: int)
    requires SetupOk(s)
    ensures var r := PixelRead(h, data, s, x, y);
            && (forall c :: History(r.histories, Key(x, y, c))
                  == PushSample(History(h, Key(x, y, c)), Sample(data, s, x, y, c), s.averageFrames))
            && (forall k: Key :: k.x != x || k.y != y ==> History(r.histories, k) == History(h, k))
            && r.histories.Keys == h.Keys + {Key(x, y, Red), Key(x, y, Green), Key(x, y, Blue)}
  {
    var n := s.averageFrames;
    var kr, kg, kb := Key(x, y, Red), Key(x, y, Green), Key(x, y, Blue);
    var h1 := Feed(h, kr, Sample(data, s, x, y, Red), n);
    var h2 := Feed(h1, kg, Sample(data, s, x, y, Green), n);
    FeedHistory(h, kr, Sample(data, s, x, y, Red), n);
    FeedHistory(h1, kg, Sample(data, s, x, y, Green), n);
    FeedHistory(h2, kb, Sample(data, s, x, y, Blue), n);
    var r := PixelRead(h, data, s, x, y);
    forall c ensures History(r.histories, Key(x, y, c))
                  == PushSample(History(h, Key(x, y, c)), Sample(data, s, x, y, c), n)
    {
      match c
      case Red =>
      case Green =>
      case Blue =>
    }
  }

  /** Feeding key `k` pushes onto its list alone and adds `k` to the keys. */
  lemma FeedHistory(h: Histories, k: Key, v: Byte, n: int)
    requires n >= 1
    ensures History(Feed(h, k, v, n), k) == PushSample(History(h, k), v, n)
    ensures forall k' :: k' != k ==> History(Feed(h, k, v, n), k') == History(h, k')
    ensures Feed(h, k, v, n).Keys == h.Keys + {k}
  {
  }

  /** The colour `pixel` returns packs the floor means of the three lists it
      has just fed: the channels come back out of it by shifting, and it is
      0 (black) exactly when all three means are. */
  lemma PixelReadColour(h: Histories, data: seq<Byte>, s: PixelSetup, x: int, y: int)
    requires SetupOk(s)
    ensures var r := PixelRead(h, data, s, x, y);
            var wr, wg, wb := History(r.histories, Key(x, y, Red)), History(r.histories, Key(x, y, Green)),
                              History(r.histories, Key(x, y, Blue));
            && |wr| >= 1 && |wg| >= 1 && |wb| >= 1
            && RedOf(r.colour) == Mean(wr) && GreenOf(r.colour) == Mean(wg) && BlueOf(r.colour) == Mean(wb)
            && (r.colour == 0 <==> Mean(wr) == 0 && Mean(wg) == 0 && Mean(wb) == 0)
  {
    var r := PixelRead(h, data, s, x, y);
    var wr, wg, wb := r.histories[Key(x, y, Red)], r.histories[Key(x, y, Green)], r.histories[Key(x, y, Blue)];
    PackChannels(Smooth(wr), Smooth(wg), Smooth(wb));
  }

  /** While every list holds samples in range, each smoothed channel `pixel`
      returns lies between its list's smallest and largest sample and never
      exceeds 255 / colour_scale. */
  lemma PixelReadAtMostCap(h: Histories, data: seq<Byte>, s: PixelSetup, x: int, y: int)
    requires SetupOk(s) && InRange(h, s)
    ensures var r := PixelRead(h, data, s, x, y);
            forall c :: |History(r.histories, Key(x, y, c))| >= 1 &&
              var w := History(r.histories, Key(x, y, c));
              Min(w) <= Mean(w) <= Max(w) && 0 <= Mean(w) <= Cap(s)
  {
    var r := PixelRead(h, data, s, x, y);
    PixelReadInRange(h, data, s, x, y);
    PixelReadHistories(h, data, s, x, y);
    forall c ensures |History(r.histories, Key(x, y, c))| >= 1 &&
              var w := History(r.histories, Key(x, y, c));
              Min(w) <= Mean(w) <= Max(w) && 0 <= Mean(w) <= Cap(s)
    {
      var w := History(r.histories, Key(x, y, c));
      assert Key(x, y, c) in r.histories;
      MeanAtMost(w, Cap(s));
    }
  }

  /** Every coordinate of `ps` can be read. */
  ghost predicate AllReadable(data: seq<Byte>, width: int, ps: seq<(int, int)>)
  {
    forall i :: 0 <= i < |ps| ==> Readable(data, width, ps[i].0, ps[i].1)
  }

  /** Coordinates inside a `width` by `height` capture can all be read. */
  lemma ReadableWithin(data: seq<Byte>, width: int, height: int, ps: seq<(int, int)>)
    requires |data| == 4 * width * height
    requires forall i :: 0 <= i < |ps| ==> 0 <= ps[i].0 < width && 0 <= ps[i].1 < height
    ensures AllReadable(data, width, ps)
  {
    forall i | 0 <= i < |ps| ensures Readable(data, width, ps[i].0, ps[i].1) {
      InsideReadable(data, width, height, ps[i].0, ps[i].1);
    }
  }

  /** One step of the averager: the lists after one `pixel` call at a
      coordinate, and the colour it returns. */
  type Step = (Histories, (int, int)) -> Read

  /** `pixel` on one capture with one setup, as a step. */
  function PixelStep(data: seq<Byte>, s: PixelSetup): Step
    requires SetupOk(s)
  {
    (h: Histories, p: (int, int)) => PixelRead(h, data, s, p.0, p.1)
  }

  /** `step` is `pixel` on the capture `data` with the setup `s`: applied
      to any lists at any coordinate it gives what `PixelRead` gives. */
  ghost predicate IsPixelStep(step: Step, data: seq<Byte>, s: PixelSetup)
    requires SetupOk(s)
  {
    forall h, x, y {:trigger PixelRead(h, data, s, x, y)} :: step(h, (x, y)) == PixelRead(h, data, s, x, y)
  }

  lemma PixelStepIsPixelStep(data: seq<Byte>, s: PixelSetup)
    requires SetupOk(s)
    ensures IsPixelStep(PixelStep(data, s), data, s)
  {
  }

  /** The lists and the colours after the first `k` steps at the
      coordinates `ps`, in order, starting from the lists `h`. */
  datatype Traced = Traced(histories: Histories, colours: seq<Colour24>)

  function Run(step: Step, h: Histories, ps: seq<(int, int)>, k: int): (t: Traced)
    requires 0 <= k <= |ps|
    ensures |t.colours| == k
  {
    if k == 0 then Traced(h, [])
    else
      var t := Run(step, h, ps, k - 1);
      var r := step(t.histories, ps[k - 1]);
      Traced(r.histories, t.colours + [r.colour])
  }

  /** Colour i of a run is what step i returned, on the lists the steps
      before it left. */
  lemma {:induction false} RunColourAt(step: Step, h: Histories, ps: seq<(int, int)>, i: int, k: int)
    requires 0 <= i < k <= |ps|
    ensures Run(step, h, ps, k).colours[i] == step(Run(step, h, ps, i).histories, ps[i]).colour
  {
    if i < k - 1 {
      RunColourAt(step, h, ps, i, k - 1);
    }
  }

  /** A later step leaves the colours already returned as they were. */
  lemma {:induction false} RunKeepsColour(step: Step, h: Histories, ps: seq<(int, int)>, i: int, j: int, k: int)
    requires 0 <= i < j <= k <= |ps|
    ensures Run(step, h, ps, k).colours[i] == Run(step, h, ps, j).colours[i]
  {
    if j < k {
      RunKeepsColour(step, h, ps, i, j, k - 1);
    }
  }

  /** One more step extends the frame's words by the word of its colour. */
  lemma RunNext(step: Step, h: Histories, ps: seq<(int, int)>, k: int)
    requires 0 <= k < |ps|
    ensures var r := step(Run(step, h, ps, k).histories, ps[k]);
            && Run(step, h, ps, k + 1).histories == r.histories
            && Words(Run(step, h, ps, k + 1).colours) == Words(Run(step, h, ps, k).colours) + LE32(r.colour)
  {
    var r := step(Run(step, h, ps, k).histories, ps[k]);
    WordsSnoc(Run(step, h, ps, k).colours, r.colour);
  }

  lemma {:induction false} RunPrefix(step: Step, h: Histories, a: seq<(int, int)>, b: seq<(int, int)>, k: int)
    requires 0 <= k <= |a|
    ensures Run(step, h, a + b, k) == Run(step, h, a, k)
  {
    if k > 0 {
      RunPrefix(step, h, a, b, k - 1);
      assert (a + b)[k - 1] == a[k - 1];
    }
  }

  lemma {:induction false} RunAppendUpTo(step: Step, h: Histories, a: seq<(int, int)>, b: seq<(int, int)>, j: int)
    requires 0 <= j <= |b|
    ensures var first := Run(step, h, a, |a|);
            var second := Run(step, first.histories, b, j);
            Run(step, h, a + b, |a| + j) == Traced(second.histories, first.colours + second.colours)
  {
    if j == 0 {
      RunPrefix(step, h, a, b, |a|);
    } else {
      RunAppendUpTo(step, h, a, b, j - 1);
      assert (a + b)[|a| + j - 1] == b[j - 1];
      var first := Run(step, h, a, |a|);
      var second := Run(step, first.histories, b, j - 1);
      var r := step(second.histories, b[j - 1]);
      assert first.colours + second.colours + [r.colour] == first.colours + (second.colours + [r.colour]);
    }
  }

  /** Stepping through `a` and then `b` is stepping through `b` from the
      lists `a` left, the colours of `a` coming first. */
  lemma RunAppend(step: Step, h: Histories, a: seq<(int, int)>, b: seq<(int, int)>)
    ensures var first := Run(step, h, a, |a|);
            var second := Run(step, first.histories, b, |b|);
            Run(step, h, a + b, |a + b|) == Traced(second.histories, first.colours + second.colours)
  {
    RunAppendUpTo(step, h, a, b, |b|);
  }

  /** The samples fed to key `k` so far, one more. */
  function Arrive(arrivals: Histories, k: Key, v: Byte): Histories
  {
    arrivals[k := History(arrivals, k) + [v]]
  }

  /** What `Arrivals` records of one `pixel(x, y)` call. */
  ghost function ArriveAll(arrivals: Histories, data: seq<Byte>, s: PixelSetup, x: int, y: int): Histories
    requires SetupOk(s)
  {
    var a1 := Arrive(arrivals, Key(x, y, Red), Sample(data, s, x, y, Red));
    var a2 := Arrive(a1, Key(x, y, Green), Sample(data, s, x, y, Green));
    Arrive(a2, Key(x, y, Blue), Sample(data, s, x, y, Blue))
  }

  /** Each list holds the last `n` samples fed to its key, or all of them
      while there are fewer. */
  ghost predicate Tracks(h: Histories, arrivals: Histories, n: nat)
  {
    && h.Keys == arrivals.Keys
    && forall k {:trigger LastN(arrivals[k], n)} :: k in h ==> h[k] == LastN(arrivals[k], n)
  }

  /** Feeding a sample to one key keeps every list the last `n` of its
      key's arrivals. */
  lemma FeedTracks(h: Histories, arrivals: Histories, k: Key, v: Byte, n: int)
    requires n >= 1 && Tracks(h, arrivals, n)
    ensures Tracks(Feed(h, k, v, n), Arrive(arrivals, k, v), n)
  {
    PushSampleIsLastN(History(arrivals, k), v, n);
    assert History(h, k) == LastN(History(arrivals, k), n);
  }

  /** Reading one pixel keeps every list the last `n` of its key's arrivals. */
  lemma ReadTracks(h: Histories, arrivals: Histories, data: seq<Byte>, s: PixelSetup, x: int, y: int)
    requires SetupOk(s) && Tracks(h, arrivals, s.averageFrames)
    ensures Tracks(PixelRead(h, data, s, x, y).histories, ArriveAll(arrivals, data, s, x, y), s.averageFrames)
  {
    var n := s.averageFrames;
    var kr, kg, kb := Key(x, y, Red), Key(x, y, Green), Key(x, y, Blue);
    var vr, vg, vb := Sample(data, s, x, y, Red), Sample(data, s, x, y, Green), Sample(data, s, x, y, Blue);
    FeedTracks(h, arrivals, kr, vr, n);
    var h1, a1 := Feed(h, kr, vr, n), Arrive(arrivals, kr, vr);
    FeedTracks(h1, a1, kg, vg, n);
    var h2, a2 := Feed(h1, kg, vg, n), Arrive(a1, kg, vg);
    FeedTracks(h2, a2, kb, vb, n);
  }

  /** The headline promise of `pixel`: each channel of the colour it returns
      is the floor mean of the last `average_frames` samples of that channel
      at (x, y), this call's sample included, or of all of them while there
      are fewer. */
  lemma PixelColourIsMeanOfLastN(h: Histories, arrivals: Histories, data: seq<Byte>, s: PixelSetup, x: int, y: int)
    requires SetupOk(s) && Tracks(h, arrivals, s.averageFrames)
    ensures var r, a, n := PixelRead(h, data, s, x, y), ArriveAll(arrivals, data, s, x, y), s.averageFrames;
            && |LastN(History(a, Key(x, y, Red)), n)| >= 1
            && |LastN(History(a, Key(x, y, Green)), n)| >= 1
            && |LastN(History(a, Key(x, y, Blue)), n)| >= 1
            && RedOf(r.colour) == Mean(LastN(History(a, Key(x, y, Red)), n))
            && GreenOf(r.colour) == Mean(LastN(History(a, Key(x, y, Green)), n))
            && BlueOf(r.colour) == Mean(LastN(History(a, Key(x, y, Blue)), n))
  {
    var r, a, n := PixelRead(h, data, s, x, y), ArriveAll(arrivals, data, s, x, y), s.averageFrames;
    ReadTracks(h, arrivals, data, s, x, y);
    PixelReadColour(h, data, s, x, y);
    var kr, kg, kb := Key(x, y, Red), Key(x, y, Green), Key(x, y, Blue);
    assert r.histories[kr] == LastN(a[kr], n);
    assert r.histories[kg] == LastN(a[kg], n);
    assert r.histories[kb] == LastN(a[kb], n);
  }

  /** The three channels of a readable pixel are the bytes after its alpha
      byte, each divided by the colour scale. */
  lemma SampleBytes(data: seq<Byte>, s: PixelSetup, x: int, y: int)
    requires SetupOk(s) && Readable(data, s.width, x, y)
    ensures Sample(data, s, x, y, Red) == data[Offset(s.width, x, y) + 1] / s.colourScale
    ensures Sample(data, s, x, y, Green) == data[Offset(s.width, x, y) + 2] / s.colourScale
    ensures Sample(data, s, x, y, Blue) == data[Offset(s.width, x, y) + 3] / s.colourScale
  {
  }

  /** `ScreenPixel`: the last capture, scaled to `target_width` by
      `target_height`, and the rolling average of every channel read. */
  class ScreenPixel {
    const width: int
    const height: int
    const colourScale: int
    const averageFrames: int
    /** `self._data`: four bytes per pixel, row after row. */
    var data: seq<Byte>
    var lastValues: Histories
    /** Every sample fed to each key so far, oldest first. */
    ghost var Arrivals: Histories

    function Setup(): PixelSetup
    {
      PixelSetup(width, colourScale, averageFrames)
    }

    /** Each key's list holds the last `average_frames` samples fed to it,
        or all of them while there are fewer, and each sample is a channel
        divided by the colour scale. */
    ghost predicate Valid()
      reads this
    {
      && SetupOk(Setup())
      && Tracks(lastValues, Arrivals, averageFrames)
      && InRange(lastValues, Setup())
    }

    /** A capture of the target size is held. */
    ghost predicate Captured()
      reads this
    {
      |data| == 4 * width * height
    }

    /** `ScreenPixel(config)`: no capture yet and no list. */
    constructor (config: Config)
      requires config.colourDivisor >= 1 && config.averageFrames >= 1
      ensures Valid()
      ensures width == config.sizeX && height == config.sizeY
      ensures colourScale == config.colourDivisor && averageFrames == config.averageFrames
      ensures data == [] && lastValues == map[] && Arrivals == map[]
    {
      width := config.sizeX;
      height := config.sizeY;
      colourScale := config.colourDivisor;
      averageFrames := config.averageFrames;
      data := [];
      lastValues := map[];
      Arrivals := map[];
    }

    /** `capture()`: hold a new frame of the target size; the lists carry
        over from frame to frame. */
    method Capture(frame: seq<Byte>)
      requires Valid() && |frame| == 4 * width * height
      modifies this
      ensures Valid() && Captured() && data == frame
      ensures lastValues == old(lastValues) && Arrivals == old(Arrivals)
    {
      data := frame;
    }

    /** `pixel(x, y)`: read the pixel's red, green and blue, divide each by
        the colour scale, feed each to its key's list and return the floor
        means packed as a colour word. Each of the three keys sees one more
        arrival. */
    method Pixel(x: int, y: int) returns (colour: int)
      requires Valid() && Readable(data, width, x, y)
      modifies this
      ensures Valid() && data == old(data)
      ensures lastValues == PixelRead(old(lastValues), data, Setup(), x, y).histories
      ensures colour == PixelRead(old(lastValues), data, Setup(), x, y).colour
      ensures Arrivals == ArriveAll(old(Arrivals), data, Setup(), x, y)
      ensures |LastN(History(Arrivals, Key(x, y, Red)), averageFrames)| >= 1
      ensures |LastN(History(Arrivals, Key(x, y, Green)), averageFrames)| >= 1
      ensures |LastN(History(Arrivals, Key(x, y, Blue)), averageFrames)| >= 1
      ensures RedOf(colour) == Mean(LastN(History(Arrivals, Key(x, y, Red)), averageFrames))
      ensures GreenOf(colour) == Mean(LastN(History(Arrivals, Key(x, y, Green)), averageFrames))
      ensures BlueOf(colour) == Mean(LastN(History(Arrivals, Key(x, y, Blue)), averageFrames))
    {
      ghost var s := Setup();
      ghost var want := PixelRead(lastValues, data, s, x, y);
      ReadTracks(lastValues, Arrivals, data, s, x, y);
      PixelColourIsMeanOfLastN(lastValues, Arrivals, data, s, x, y);
      PixelReadInRange(lastValues, data, s, x, y);
      SampleBytes(data, s, x, y);
      var offset := Offset(width, x, y);
      // The byte at `offset` is alpha.
      var r, g, b := data[offset + 1], data[offset + 2], data[offset + 3];
      DivAtMost(r, colourScale);
      DivAtMost(g, colourScale);
      DivAtMost(b, colourScale);
      r := r / colourScale;
      g := g / colourScale;
      b := b / colourScale;
      assert r == Sample(data, s, x, y, Red) && g == Sample(data, s, x, y, Green) && b == Sample(data, s, x, y, Blue);

      var kr, kg, kb := Key(x, y, Red), Key(x, y, Green), Key(x, y, Blue);
      var h := Feed(lastValues, kr, r, averageFrames);
      h := Feed(h, kg, g, averageFrames);
      h := Feed(h, kb, b, averageFrames);
      assert h == want.histories;
      Arrivals := ArriveAll(Arrivals, data, s, x, y);
      lastValues := h;

      r := Sum(h[kr]) / |h[kr]|;
      g := Sum(h[kg]) / |h[kg]|;
      b := Sum(h[kb]) / |h[kb]|;
      colour := (r * 256 * 256) + (g * 256) + b;
    }
  }
}
