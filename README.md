# tv-backlight: the per-frame pipeline, modelled and proved in Dafny

tv-backlight drives an LED strip behind a television. The strip has one LED
per pixel on the border of a small `size_x` by `size_y` image of the screen.
On every tick, each capture script does the following:

- grabs the screen and scales it down;
- probes five columns for letterbox bars;
- smooths the bars it finds over a circular window of past ticks;
- reads the border between the bars in a fixed order;
- sends a `'P'` datagram: `'P'`, the input byte, the LED count as a
  little-endian 16-bit word, then one little-endian 32-bit colour word per
  LED.

Two small utilities talk the same protocol. `send-test-commands-network.py`
sends an `'I'` frame and then a `'P'` test frame of 150 colours.
`switch-input.py` sends only an `'I'` frame, which switches the input:
`'I'`, the input byte, then an idle colour word.

This project models that pipeline and proves what it promises. The modules
are:

- `Wire`: the `struct.pack` layouts `<B`, `<H` and `<I`. A value that does
  not fit its layout gives `StructError`, as `struct.error` does.
- `Commands`: the `'I'` and `'P'` frames, their decoders, and the 150-pixel
  test message.
- `Colour`: the 24-bit word `r*256*256 + g*256 + b`.
- `Stats`: `sum`, `min` and `max`.
- `Averaging`: the rolling window of `ScreenPixel.pixel`, specified as "the
  last `average_frames` arrivals".
- `BlackBar`:
  - the probe points;
  - the "last black row wins" column scan;
  - the candidate windows, as a class over an `array<int>` with a wrapping
    index;
  - the `min(*…)` finding.
- `Perimeter`: the order in which the border is read.
- `Settings`: the configuration record and both scripts' defaults.
- `OsxCapture`: `ScreenPixel` as a class.
  - Its `pixel` updates the `last_values` map in place.
  - The map is specified by the pure function `PixelRead`.
- `OsxLoop`: the CoreGraphics script's main loop, as methods driving a
  `ScreenPixel`.
  - Every `pixel` call feeds the averager, so each piece of the tick is
    specified as a `Run` of `pixel` steps over the exact coordinates it
    reads, in order: the probes first, then the perimeter.
- `GtkCapture`: the GTK script's main loop.
  - It covers `colourfor`, the `current_buffer` ring index, the probe and
    the perimeter.
  - It works over the composited pixel array, given as an input.

Python 2 semantics are written out:

- `/` on non-negative integers is floor division, which is Dafny's `/` there.
- `int(size_x * 0.75)` truncates toward zero (`BlackBar.ThreeQuarters`).
- `min(*xs)` raises on a one-element list (see Findings).

## Model

| member | source | states |
|---|---|---|
| Wire.Then | send-test-commands-network.py:26-30 | concatenating packed pieces succeeds exactly when every piece packed, and then the bytes are the pieces in order |
| Wire.LE16 | send-test-commands-network.py:36 | `<H` gives two bytes that decode back to the value |
| Wire.LE16OfDecode | send-test-commands-network.py:36 | every two bytes are the `<H` encoding of exactly the value they decode to |
| Wire.LE32 | send-test-commands-network.py:39-40 | `<I` gives four bytes that decode back to the value |
| Wire.LE32OfDecode | send-test-commands-network.py:39-40 | every four bytes are the `<I` encoding of exactly the value they decode to |
| Wire.PackU8 | send-test-commands-network.py:28 | `<B` packs exactly the values 0..255, as that one byte, and raises otherwise |
| Wire.PackU16 | send-test-commands-network.py:36 | `<H` packs exactly 0..65535, into two bytes that decode to the value, and raises otherwise |
| Wire.PackU32 | send-test-commands-network.py:40 | `<I` packs exactly 0..2^32-1, into four bytes that decode to the value, and raises otherwise |
| Wire.Words | send-test-commands-network.py:39-40 | one `send_pixel` per colour gives exactly four bytes per colour (its inverse is `Wire.DecodeWords`, see `Wire.DecodeOfWords`) |
| Wire.DecodeWords | send-test-commands-network.py:52-55 | a byte string of whole words decodes to one 32-bit value per four bytes |
| Wire.DecodeOfWords | send-test-commands-network.py:52-55 | decoding the words appended for a list of colours gives back that list, in order |
| Wire.WordsOfDecode | send-test-commands-network.py:52-55 | every byte string of whole words is the encoding of what it decodes to |
| Wire.WordsSnoc | capture-and-send-osx.py:300 | appending one packed colour extends the words by exactly its four bytes |
| Wire.WordsAppend | capture-and-send-osx.py:295-321 | the words of two colour lists in a row are the words of the joined list |
| Wire.WordAt | send-test-commands-network.py:52-55 | word i of a frame sits at bytes 4i..4i+3 and is the LE32 of colour i |
| Colour.Pack | capture-and-send-osx.py:216 | three channels below 256 pack into a word below 2^24 |
| Colour.PackChannels | capture-and-send-osx.py:216 | each channel comes back out of the packed word by shifting, and the word is 0 (black) exactly when all three channels are 0 |
| Colour.PackOfChannels | capture-and-send.py:99 | every 24-bit word is the packing of its own three channels, so packing is a bijection |
| Stats.Min | capture-and-send-osx.py:270 | `min` of a non-empty list is one of its elements and no element is below it |
| Stats.Max | capture-and-send-osx.py:271 | `max` of a non-empty list is one of its elements and no element is above it |
| Stats.MinMaxSwap | capture-and-send-osx.py:284-285 | reading a ring array from its write index (the two halves swapped) gives the same min and max |
| Stats.SumWithin | capture-and-send-osx.py:212 | samples in [lo, hi] sum to between len*lo and len*hi |
| Stats.Sum | capture-and-send-osx.py:212 | `sum` of non-negative samples is non-negative, and of a single sample is that sample |
| Stats.DivWithin | capture-and-send-osx.py:212-214 | a sum between n*lo and n*hi has its floor mean in [lo, hi] |
| Stats.DivAtMost | capture-and-send-osx.py:186-188 | dividing a channel by a positive scale never increases it or makes it negative |
| Stats.DivZero | capture-and-send.py:96-98 | a channel divided by the scale is 0 exactly when it is below the scale |
| Averaging.PushSample | capture-and-send-osx.py:201-210 | one push leaves the new sample last; the list keeps its length once it holds `average_frames` (the oldest is dropped) and grows by one before that; every other sample was already in the list |
| Averaging.PushSampleIsLastN | capture-and-send-osx.py:201-210 | evicting at `average_frames` and then appending keeps exactly the last min(count, n) arrivals, in arrival order |
| Averaging.Mean | capture-and-send-osx.py:212-214 | `sum(l) / len(l)` lies between the window's smallest and largest sample |
| OsxCapture.Smooth | capture-and-send-osx.py:212-214 | the smoothed channel lies between the smallest and largest sample of its list |
| Averaging.MeanAtMost | capture-and-send-osx.py:212-214 | samples that never exceed a cap average to a value in [0, cap] |
| Averaging.TwoFrameWindowExample | capture-and-send-osx.py:201-214 | with `average_frames` 2, the samples 10, 20, 30 smooth to 10, 15, 25 |
| Settings.DefaultsAreSane | capture-and-send-osx.py:37-63 | both scripts' default configurations satisfy every assumption the tick relies on |
| Settings.OsxDefaults | capture-and-send-osx.py:37-63 | the CoreGraphics defaults (46 by 26, 32 frames, search height 8, 1024 candidates, divisor 2) keep the given input, are sane, and the top and bottom probes never overlap (2 * search_height <= size_y) |
| Settings.GtkDefaults | capture-and-send.py:29-55 | the GTK defaults (as above with 16 frames) keep the given input, are sane, and the top and bottom probes never overlap |
| BlackBar.ThreeQuarters | capture-and-send-osx.py:228 | `int(size_x * 0.75)` truncates toward zero: for size_x >= 0, 4q <= 3 size_x < 4q + 4, and the mirror bound for negative widths |
| BlackBar.ProbePoints | capture-and-send-osx.py:228 | five probe columns, from 0 to size_x-1, non-decreasing, each a valid column when size_x >= 1 |
| BlackBar.LastBlack | capture-and-send-osx.py:259-265 | the index of the last zero colour, or -1: that colour is 0 and none after it is |
| BlackBar.LastBlackStep | capture-and-send-osx.py:261-262 | one more row read makes it the last black row if it is black, and changes nothing otherwise |
| BlackBar.ColumnSnoc | capture-and-send-osx.py:259-265 | one more black read sets `this_top` to y+1 and `this_bottom` to the row above it; any other read leaves them |
| BlackBar.ColumnTop | capture-and-send-osx.py:257-262 | `this_top` lies in [0, search_height] |
| BlackBar.ColumnTopMeaning | capture-and-send-osx.py:257-262 | `this_top` is 0 exactly when no top read is black, and otherwise it is one past the last black row with no black row after it |
| BlackBar.ColumnBottom | capture-and-send-osx.py:258-265 | `this_bottom` lies in [real_height - search_height, real_height] |
| BlackBar.ColumnBottomMeaning | capture-and-send-osx.py:258-265 | `this_bottom` is real_height exactly when no bottom read is black, and otherwise it is the row above the last black row found going up |
| BlackBar.LastWindow | capture-and-send-osx.py:229-230 | a window of `length` slots always holds exactly `length` values, however many candidates have been written |
| BlackBar.LastWindowPush | capture-and-send-osx.py:273-282 | writing one candidate drops the oldest slot's value and appends the new one |
| BlackBar.ReportedBracketsCandidate | capture-and-send-osx.py:270-285 | the reported top is at most this tick's candidate and the reported bottom at least it |
| BlackBar.RecentCandidateBounds | capture-and-send-osx.py:273-285 | any candidate still in the window bounds the reported top from above and the reported bottom from below |
| BlackBar.ReportedTopZeroWhileFilling | capture-and-send-osx.py:229-285 | because the windows start as zeros, the reported top is 0 until `length` candidates have been written |
| BlackBar.FlushedWindowBounds | capture-and-send-osx.py:284-285 | once a whole window of candidates lies in [lo, hi], so do both reported bars |
| BlackBar.RowsOfPush | capture-and-send-osx.py:273-274 | writing a row index keeps every candidate a row index |
| BlackBar.ReportedRows | capture-and-send-osx.py:284-285 | while every candidate is a row, both reported bars are rows |
| BlackBar.WindowWithin | capture-and-send-osx.py:284-285 | candidates in [lo, hi] (with lo <= 0 <= hi, for the initial zeros) give reported bars in [lo, hi] |
| BlackBar.CandidateWindow.constructor | capture-and-send-osx.py:229-232 | `[0] * length` with index 0: every slot 0, no candidate written |
| BlackBar.CandidateWindow.Push | capture-and-send-osx.py:273-282 | writes exactly the slot at the index, advances the index with wrap-around at the length, and keeps the array read from the index equal to the last `length` candidates |
| BlackBar.CandidateWindow.Lowest | capture-and-send-osx.py:284 | the reported top is the minimum of the window's candidates |
| BlackBar.CandidateWindow.Highest | capture-and-send-osx.py:285 | the reported bottom is the maximum of the window's candidates |
| BlackBar.RecordCandidates | capture-and-send-osx.py:273-285 | this tick's candidates join both windows' histories; the bars returned are the window min and max, both rows of the image |
| BlackBar.PyMinStar | capture-and-send-osx.py:284 | `min(*xs)` gives the minimum exactly when there are at least two elements, and raises otherwise |
| BlackBar.ReportedTopAsWritten | capture-and-send-osx.py:284 | the report as written succeeds exactly when the window has at least two slots |
| BlackBar.SingleSlotWindowRaises | capture-and-send-osx.py:284 | with `black_bar_candidate_length` 1 the report raises whatever was written |
| Commands.ChangeInput | switch-input.py:36-41 | `change_input` packs exactly when the input fits a byte and the colour fits 32 bits; it is then 6 bytes: 'I', the input, and the colour's LE32 |
| Commands.DecodeChangeInput | switch-input.py:36-41 | a frame is accepted only if it is 6 bytes starting with 'I', and the colour read back fits 32 bits |
| Commands.ChangeInputRoundTrip | switch-input.py:36-41 | decoding `change_input(inp, colour)` gives back `inp` and `colour` |
| Commands.ChangeInputOfDecode | send-test-commands-network.py:25-30 | every accepted 'I' frame is exactly `change_input` of what it decodes to |
| Commands.ChangeInputBlack | switch-input.py:48 | the switch sent with colour 0x000000 ends in four zero bytes |
| Commands.PixelHeader | send-test-commands-network.py:32-37 | the header packs exactly when the input fits a byte and the total fits 16 bits; it is then 4 bytes: 'P', the input, and the total's LE16 |
| Commands.PackWords | send-test-commands-network.py:39-40 | one `send_pixel` per colour succeeds exactly when every colour fits 32 bits, and its bytes are the words in order |
| Commands.PixelMessage | send-test-commands-network.py:51-55 | a header and n words pack exactly when the input, the count and every colour fit, into 4 + 4n bytes |
| Commands.DecodePixelMessage | send-test-commands-network.py:32-40 | a frame is accepted only if it starts with 'P' and has as many words as its count field says |
| Commands.PixelMessageRoundTrip | send-test-commands-network.py:32-40 | decoding a packed 'P' frame gives back the input and every colour, in order |
| Commands.PixelMessageOfDecode | send-test-commands-network.py:32-40 | every accepted 'P' frame is exactly the packing of what it decodes to |
| Commands.TestPattern | send-test-commands-network.py:52-55 | the pattern of n colours has n entries, all 32-bit |
| Commands.TestPatternNext | send-test-commands-network.py:52-55 | each pass of the loop extends the pattern by red, green, blue |
| Commands.TestColoursWords | send-test-commands-network.py:53-55 | one pass appends the LE32 words of 0xFF0000, 0x00FF00 and 0x0000FF, in that order |
| Commands.TestPatternStep | send-test-commands-network.py:52-55 | the bytes after pass i+1 are those after pass i, followed by the red, green and blue words |
| Commands.TestPixelMessage | send-test-commands-network.py:48-55 | the test message is 4 + 4*150 bytes, the 'P' frame of 150 colours cycling red, green, blue, and it decodes back to them |
| Commands.TestMessageDecodes | send-test-commands-network.py:48-55 | the header followed by the 50 passes is the packed 'P' frame of the pattern and decodes to it |
| Perimeter.PerimeterOrder | capture-and-send-osx.py:295-321 | the perimeter has exactly `arduino_pixels` = 2*size_x + 2*size_y - 4 reads, all inside the image when the bars are rows |
| Perimeter.ArduinoPixels | capture-and-send-osx.py:227 | for a frame at least 2 by 2, `arduino_pixels` is the number of border pixels: size_x*size_y minus the (size_x-2)*(size_y-2) interior |
| Perimeter.BottomEdge | capture-and-send-osx.py:296-297 | `range(real_width)`: size_x - 1 reads |
| Perimeter.RightEdge | capture-and-send-osx.py:303-304 | `range(real_height, 0, -1)`: size_y - 1 reads |
| Perimeter.TopEdge | capture-and-send-osx.py:310-311 | `range(real_width, 0, -1)`: size_x - 1 reads |
| Perimeter.LeftEdge | capture-and-send-osx.py:317-318 | `range(real_height)`: size_y - 1 reads |
| Perimeter.EdgeWalks | capture-and-send-osx.py:295-321 | the bottom bar row is read from x = 0 rightwards to real_width - 1, the right column from real_height up to row 1, the top bar row from real_width leftwards to x = 1, and the left column from row 0 down to real_height - 1, each read one pixel on from the last |
| Perimeter.PerimeterAt | capture-and-send-osx.py:295-321 | read i is on the bottom bar row, the right column going up, the top bar row going left, or the left column going down, at the position the loops give |
| Perimeter.SidesIgnoreBars | capture-and-send-osx.py:302-321 | only the two rows depend on the detected bars; the side columns always span the full height |
| Perimeter.PerimeterIsClosedWalk | capture-and-send-osx.py:295-321 | without bars, consecutive reads are neighbouring pixels and the last neighbours the first |
| Perimeter.WalkStep | capture-and-send-osx.py:295-321 | without bars, read i+1 is a neighbour of read i |
| Perimeter.PerimeterCoversBorder | capture-and-send-osx.py:295-321 | without bars, every border pixel is read, at a known index |
| Perimeter.PerimeterReadsOnce | capture-and-send-osx.py:295-321 | without bars, every read is a border pixel and no pixel is read twice |
| Perimeter.FourByThreeOrder | capture-and-send-osx.py:295-321 | a 4 by 3 strip has 10 LEDs, read in the literal order the loops give |
| OsxCapture.InsideReadable | capture-and-send-osx.py:178-184 | every pixel of a capture of the target size has its four bytes inside the data |
| OsxCapture.Sample | capture-and-send-osx.py:184-188 | a channel divided by the colour scale lies in [0, 255 / colour_scale] |
| OsxCapture.SampleBytes | capture-and-send-osx.py:178-188 | red, green and blue are the three bytes after the alpha byte at `4*(w*y+x)`, each divided by the scale |
| OsxCapture.Offset | capture-and-send-osx.py:178 | pixel (x, y) of a width-w capture starts at a byte inside row y's stretch [4wy, 4w(y+1)), so its four bytes never spill into the next row |
| OsxCapture.FeedInRange | capture-and-send-osx.py:201-210 | feeding an in-range sample keeps every held sample within [0, 255 / colour_scale] |
| OsxCapture.Feed | capture-and-send-osx.py:194-210 | feeding a key creates its list if missing and adds no other key; the list then ends with the new sample and, if it held at most `average_frames`, still does |
| OsxCapture.PixelReadInRange | capture-and-send-osx.py:186-210 | a `pixel` call keeps every held sample within [0, 255 / colour_scale] |
| OsxCapture.PixelRead | capture-and-send-osx.py:166-217 | after `pixel(x, y)` the keys are the old ones plus the three keys of (x, y) (the lists themselves: `PixelReadHistories`; the colour: `PixelReadColour`) |
| OsxCapture.PixelReadHistories | capture-and-send-osx.py:190-210 | a `pixel(x, y)` call pushes the divided channel onto each of the three keys of (x, y), evicting at `average_frames`, and leaves every other key's list as it was |
| OsxCapture.FeedHistory | capture-and-send-osx.py:194-210 | feeding one key pushes onto its list alone and adds that key if it was missing |
| OsxCapture.PixelReadColour | capture-and-send-osx.py:212-216 | the returned colour packs the floor means of the three lists just fed, and it is 0 exactly when all three means are 0 |
| OsxCapture.PixelColourIsMeanOfLastN | capture-and-send-osx.py:190-216 | each channel of the returned colour is the floor mean of the last `average_frames` samples of that channel at (x, y), this call's included |
| OsxCapture.PixelReadAtMostCap | capture-and-send-osx.py:186-214 | each smoothed channel lies between its list's min and max and never exceeds 255 / colour_scale |
| OsxCapture.ReadableWithin | capture-and-send-osx.py:178-184 | every coordinate inside the target size can be unpacked |
| OsxCapture.PixelStepIsPixelStep | capture-and-send-osx.py:166-217 | the step that `pixel` takes on a given capture meets `IsPixelStep`, so the loops' step parameter can always be supplied |
| OsxCapture.Run | capture-and-send-osx.py:256-321 | a run of k `pixel` calls returns k colours |
| OsxCapture.RunColourAt | capture-and-send-osx.py:256-321 | colour i of a run is what call i returned, on the lists the calls before it left |
| OsxCapture.RunKeepsColour | capture-and-send-osx.py:256-321 | later calls leave the colours already returned unchanged |
| OsxCapture.RunNext | capture-and-send-osx.py:298-300 | one more call extends the frame by the word of its colour |
| OsxCapture.RunPrefix | capture-and-send-osx.py:256-321 | the first k calls of a longer sequence are the first k calls of its prefix |
| OsxCapture.RunAppend | capture-and-send-osx.py:256-321 | calling through a then b is calling through b from the lists a left, a's colours first |
| OsxCapture.FeedTracks | capture-and-send-osx.py:201-210 | feeding one key keeps every list equal to the last `average_frames` arrivals of its key |
| OsxCapture.ReadTracks | capture-and-send-osx.py:190-210 | a whole `pixel` call keeps every list equal to the last `average_frames` arrivals of its key |
| OsxCapture.ScreenPixel.constructor | capture-and-send-osx.py:78-84 | the target size, colour scale and window length are taken from the configuration, with no list yet; the invariant (lists track their arrivals, samples capped) holds |
| OsxCapture.ScreenPixel.Capture | capture-and-send-osx.py:158 | holds the new frame; the lists carry over unchanged |
| OsxCapture.ScreenPixel.Pixel | capture-and-send-osx.py:166-217 | updates `last_values` and returns the colour exactly as `PixelRead` says, each channel the floor mean of the last `average_frames` arrivals of its key, and keeps the invariant: every list is the last `average_frames` arrivals of its key and every sample is at most 255 / colour_scale |
| OsxLoop.ColumnReads | capture-and-send-osx.py:259-265 | a column scan makes 2 * search_height reads |
| OsxLoop.ProbeReads | capture-and-send-osx.py:256-265 | probing k columns makes k * 2 * search_height pixel reads |
| OsxLoop.ColumnReadsAt | capture-and-send-osx.py:259-265 | row y reads (x, y) and then (x, real_height - y) |
| OsxLoop.ColumnScan | capture-and-send-osx.py:256-268 | the column's `this_top` lies in [0, search_height] and its `this_bottom` in [real_height - search_height, real_height] |
| OsxLoop.ColumnAfter | capture-and-send-osx.py:257-265 | after y rows of the loop `this_top` lies in [0, y] and `this_bottom` in [real_height - y, real_height] |
| OsxLoop.SamplesSnoc | capture-and-send-osx.py:259-265 | two more reads add one colour to the top samples and one to the bottom samples |
| OsxLoop.ColumnRunStep | capture-and-send-osx.py:259-265 | scanning row y-1 is two more `pixel` calls, at its top and bottom coordinates |
| OsxLoop.ColumnScanStep | capture-and-send-osx.py:259-265 | one more row: a black top read sets the top to y, a black bottom read sets the bottom above it, else both stand |
| OsxLoop.ColumnAfterIsScan | capture-and-send-osx.py:256-268 | the loop's `this_top`/`this_bottom` are the last-black-row results over the colours the scan's `pixel` calls returned |
| OsxLoop.ProbeScan | capture-and-send-osx.py:256-268 | one candidate pair per probed column, each within the bounds of one column scan |
| OsxLoop.ProbeStep | capture-and-send-osx.py:256-268 | probing column k-1 leaves the lists that a run over its reads leaves |
| OsxLoop.ProbeIsOneRun | capture-and-send-osx.py:256-268 | probing column after column leaves the lists that one run of `pixel` over all the probe's reads leaves |
| OsxLoop.TickIsOneRun | capture-and-send-osx.py:256-321 | a tick's lists are those of one run over the probe's reads followed by the perimeter's |
| OsxLoop.ReadOne | capture-and-send-osx.py:260 | one `pixel` call is one averager step: new lists and colour as the step gives |
| OsxLoop.ScanColumn | capture-and-send-osx.py:257-265 | the column loop returns `this_top`, `this_bottom` and the lists that `ColumnAfter` gives |
| OsxLoop.ProbeCandidates | capture-and-send-osx.py:253-271 | the tick's candidates are the min of `top_candidates` and the max of `bottom_candidates` over the probe, within the search bounds |
| OsxLoop.AppendBottomRow | capture-and-send-osx.py:295-300 | appends the words of `pixel` along the bottom bar row, left to right, feeding the averager in that order |
| OsxLoop.AppendRightSide | capture-and-send-osx.py:302-307 | appends the words of the right column, bottom to top |
| OsxLoop.AppendTopRow | capture-and-send-osx.py:309-314 | appends the words of the top bar row, right to left |
| OsxLoop.AppendLeftSide | capture-and-send-osx.py:316-321 | appends the words of the left column, top to bottom |
| OsxLoop.RunWordsAppend | capture-and-send-osx.py:295-321 | the words of a run through a then b are a's words, then b's |
| OsxLoop.AppendPerimeter | capture-and-send-osx.py:295-321 | the header is followed by one word per read in `PerimeterOrder`, the reads feeding the averager in that order |
| OsxLoop.SearchBlackBars | capture-and-send-osx.py:249-285 | the probe's candidates join both windows, and the reported bars are the window min and max, both rows of the image |
| OsxLoop.Tick | capture-and-send-osx.py:236-321 | the frame is 'P', the input, `arduino_pixels` and the perimeter words between the reported bars, read after the probe; it is a `struct.error` exactly when the input or the count does not fit |
| GtkCapture.Scale | capture-and-send.py:96-98 | a channel divided by the scale never exceeds the raw channel |
| GtkCapture.ColourFor | capture-and-send.py:90-100 | `colourfor` is a 24-bit word |
| GtkCapture.ColourForChannels | capture-and-send.py:95-99 | each channel of the word is the raw channel divided by the scale, and the word is 0 exactly when every raw channel is below the scale |
| GtkCapture.ScaleOneIsExact | capture-and-send.py:90-100 | at the default scale 1 the word is exactly 0xRRGGBB, and black means all three raw channels are 0 |
| GtkCapture.NextBuffer | capture-and-send.py:113-115 | `current_buffer` stays in [0, average_frames) and steps to (current + 1) mod average_frames |
| GtkCapture.BufferAt | capture-and-send.py:113-115 | `current_buffer` at the start of any tick is a valid buffer index, in [0, average_frames) |
| GtkCapture.ModNext | capture-and-send.py:113-115 | counting one further steps the remainder by one, back to 0 at the modulus |
| GtkCapture.BufferCycles | capture-and-send.py:113-115 | tick t scales into buffer t mod `average_frames` |
| GtkCapture.BufferSlotsDistinct | capture-and-send.py:110-115 | any `average_frames` consecutive ticks use distinct buffers |
| GtkCapture.TopColours | capture-and-send.py:143-146 | one colour per row read going down from row 0 |
| GtkCapture.BottomColours | capture-and-send.py:147-149 | one colour per row read going up from `real_height` |
| GtkCapture.ScanColumn | capture-and-send.py:140-149 | the column loop returns the last-black-row `this_top` and `this_bottom` of the colours it reads |
| GtkCapture.ColumnTops | capture-and-send.py:151 | `top_candidates` has one entry per probe column |
| GtkCapture.ColumnBottoms | capture-and-send.py:152 | `bottom_candidates` has one entry per probe column |
| GtkCapture.ProbeCandidates | capture-and-send.py:137-155 | the tick's candidates are the min of the columns' tops and the max of their bottoms, within the search bounds |
| GtkCapture.ColoursUpTo | capture-and-send.py:179-205 | the first k reads give k 32-bit colour words |
| GtkCapture.ColoursAt | capture-and-send.py:179-205 | one 32-bit colour word per read |
| GtkCapture.ReadNext | capture-and-send.py:182-184 | one more read extends the words by that read's colour word |
| GtkCapture.ColoursUpToAppend | capture-and-send.py:179-205 | reading a then the first j of b gives a's colours, then those of b |
| GtkCapture.ColoursAtAppend | capture-and-send.py:179-205 | the words of consecutive pieces of the traversal are the pieces' words in order |
| GtkCapture.PerimeterWords | capture-and-send.py:179-205 | the perimeter's words are those of the bottom row, right column, top row and left column, in order |
| GtkCapture.AppendBottomRow | capture-and-send.py:179-184 | appends the words of the bottom bar row, left to right, at `colour_divisor` |
| GtkCapture.AppendRightSide | capture-and-send.py:186-191 | appends the words of the right column, bottom to top |
| GtkCapture.AppendTopRow | capture-and-send.py:193-198 | appends the words of the top bar row, right to left |
| GtkCapture.AppendLeftSide | capture-and-send.py:200-205 | appends the words of the left column, top to bottom |
| GtkCapture.AppendPerimeter | capture-and-send.py:179-205 | the header is followed by one word per read in `PerimeterOrder`, all reads inside the array |
| GtkCapture.SearchBlackBars | capture-and-send.py:133-169 | this tick's min top and max bottom candidates join both windows; the bars returned are the window min and max, both rows |
| GtkCapture.BuildFrame | capture-and-send.py:175-205 | the frame is the header and the perimeter words between the given bars; it is a `struct.error` exactly when the input or the count does not fit |
| GtkCapture.Tick | capture-and-send.py:102-205 | the ring index steps, the windows get this tick's candidates, and the frame is 'P', the input, `arduino_pixels` and the perimeter words between the reported bars, or a `struct.error` exactly when a header field does not fit |

## Left out

- BlackBar.RecordCandidates: reports the corrected minimum and maximum of the windows (see Findings). With `black_bar_candidate_length` 1, which `Settings.Sane` allows, capture-and-send-osx.py:284 as written raises TypeError instead; that behaviour is `BlackBar.ReportedTopAsWritten`.
- OsxLoop.SearchBlackBars: follows the corrected report, so at window length 1 it returns bars where capture-and-send-osx.py:284 raises TypeError.
- OsxLoop.Tick: follows the corrected report, so at window length 1 it promises a frame (or `struct.error`) where the program as written raises TypeError at line 284, before any frame is built.
- GtkCapture.SearchBlackBars: follows the corrected report, so at window length 1 it returns bars where capture-and-send.py:168 raises TypeError.
- GtkCapture.Tick: follows the corrected report, so at window length 1 it promises a frame (or `struct.error`) where the program as written raises TypeError at capture-and-send.py:168, before any frame is built.
- Screen capture and scaling are not modelled, because they are library
  calls: CoreGraphics in `ScreenPixel.capture` and GTK
  `get_from_drawable`/`scale`. The scaled capture, or the composited pixel
  array, is an input of each tick.
- The GTK `Pixbuf.composite` alpha blending that averages the last
  `average_frames` buffers is not modelled, because its rounding happens
  inside the library. Only the `current_buffer` index that selects the
  buffer is modelled.
- The UDP sockets, the `socket.error` retry with its sleep, and
  `send_message` are left out as network I/O. The test utility's
  `send_message` ignores its host and port arguments; that is not modelled.
- `config.json` loading, `sys.exit`, argv parsing and `int(sys.argv[1])` are
  left out as file and process I/O. The configuration is a `Config` value.
- Timing, the FPS printout, debug prints and the float scale factors are
  left out as wall clock and floating point.
- The even-width `ValueError` in `capture` is left out. It applies only to an
  explicit capture region, which the main loop never passes.
- Reads outside the image are excluded by preconditions. The source would
  raise `struct.error` or `IndexError` there, or wrap a negative Python index
  round. `Settings.Sane` states the configuration under which no read
  leaves the image: `black_bar_search_height <= size_y - 1`, and positive
  sizes, divisor and window lengths. `Settings.DefaultsAreSane` proves that
  both scripts' defaults satisfy it. Of these, `average_frames` >= 1 is
  stricter than one script needs: with `average_frames` 0 the CoreGraphics
  script still works, its window behaving as length 1 (the eviction at
  capture-and-send-osx.py:207-210 empties the list before the append), while
  the GTK script fails at start-up on `255 / 0`
  (capture-and-send.py:73). The model covers the positive case only.
- `OsxCapture.ByteAt` has a default of 0 for positions outside the data.
  That value is never observed, because every read is proved in range.
- The pixel layout follows the unpack at capture-and-send-osx.py:184: alpha,
  red, green, blue. The comment at lines 172-173 calls the layout blue,
  green, red, alpha; the code is what the model follows.
- `int(round(x))` at capture-and-send-osx.py:178 is the identity on the
  integer coordinates the loop passes.
- The key strings `"%d_%d_r"` and their siblings are modelled by
  `OsxCapture.Key`. Distinct integer coordinates format to distinct strings,
  so nothing is lost.
- `OsxLoop` methods take a ghost `step` that stands for `pixel` on the
  current capture.
  - `IsPixelStep` requires it to agree with `PixelRead` everywhere, and
    `OsxCapture.PixelStepIsPixelStep` shows such a step exists.
  - This lets each loop be specified as a `Run` without the whole averager
    in every proof.
- OsxLoop.Tick: when the header does not pack, the tick stops after the
  probe and the window writes. The contract states the lists at that point,
  not the exception itself.
- `print` of the window size and of `arduino_pixels` is not modelled.

## Findings

| source | as written | input that shows it | evidently intended | confidence | as-written member | corrected member |
|---|---|---|---|---|---|---|
| capture-and-send-osx.py:284 | `black_top = min(*black_bar_top_candidates)`, and the same `max(*…)` at line 285 and at capture-and-send.py:168-169 | `black_bar_candidate_length` = 1: the unpacked call is `min(0)`, a bare integer, and raises TypeError on the first tick | the minimum (maximum) of the window's slots, for every window length >= 1 | not executed | BlackBar.SingleSlotWindowRaises | BlackBar.CandidateWindow.Lowest |
