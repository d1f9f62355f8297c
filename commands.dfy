/** The two datagrams of the wire protocol as the test and input-switch
    utilities build them: the 'I' control frame of `change_input`, the 'P'
    pixel frame from `send_pixel_header` and `send_pixel`, and decoders that
    read them back. */
module Commands {
  import opened Wire

  /** 'I': switch the active input and set its idle colour. */
  const InputTag: Byte := 0x49
  /** 'P': a frame of pixel colours. */
  const PixelTag: Byte := 0x50

  /** `change_input(inp, colour)`: 'I', the input byte, the colour as a
      little-endian 32-bit word. */
  function ChangeInput(inp: int, colour: int): (r: Packed)
    ensures r.Packed? <==> 0 <= inp < 256 && 0 <= colour < U32Limit
    ensures r.Packed? ==> |r.bytes| == 6 && r.bytes[0] == InputTag && r.bytes[1] == inp
    ensures r.Packed? ==> DecodeLE32(r.bytes[2..]) == colour
  {
    var r := Then(Then(Packed([InputTag]), PackU8(inp)), PackU32(colour));
    assert r.Packed? ==> r.bytes[2..] == PackU32(colour).bytes;
    r
  }

  datatype InputSwitch = InputSwitch(input: Byte, colour: int)

  /** Reads an 'I' frame back; anything else is not one. */
  function DecodeChangeInput(bs: seq<Byte>): (r: Option<InputSwitch>)
    ensures r.Some? ==> |bs| == 6 && bs[0] == InputTag && 0 <= r.value.colour < U32Limit
  {
    if |bs| == 6 && bs[0] == InputTag then Some(InputSwitch(bs[1], DecodeLE32(bs[2..])))
    else None
  }

  /** Decoding an encoded 'I' frame gives back the input and the colour. */
  lemma ChangeInputRoundTrip(inp: int, colour: int)
    requires 0 <= inp < 256 && 0 <= colour < U32Limit
    ensures DecodeChangeInput(ChangeInput(inp, colour).bytes) == Some(InputSwitch(inp, colour))
  {
  }

  /** Every byte string the decoder accepts is the encoding of what it decodes to. */
  lemma ChangeInputOfDecode(bs: seq<Byte>)
    requires DecodeChangeInput(bs).Some?
    ensures ChangeInput(DecodeChangeInput(bs).value.input, DecodeChangeInput(bs).value.colour) == Packed(bs)
  {
    LE32OfDecode(bs[2..]);
    assert bs == [bs[0], bs[1]] + bs[2..];
  }

  /** `change_input(inp, 0x000000)`, the message both utilities send on an
      input switch: the idle colour is four zero bytes. */
  lemma ChangeInputBlack(inp: int)
    requires 0 <= inp < 256
    ensures ChangeInput(inp, 0) == Packed([InputTag, inp, 0, 0, 0, 0])
  {
  }

  /** `send_pixel_header(inp, total)`: 'P', the input byte, the pixel count
      as a little-endian 16-bit word. */
  function PixelHeader(inp: int, total: int): (r: Packed)
    ensures r.Packed? <==> 0 <= inp < 256 && 0 <= total < U16Limit
    ensures r.Packed? ==> |r.bytes| == 4 && r.bytes[0] == PixelTag && r.bytes[1] == inp
    ensures r.Packed? ==> DecodeLE16(r.bytes[2..]) == total
  {
    var r := Then(Then(Packed([PixelTag]), PackU8(inp)), PackU16(total));
    assert r.Packed? ==> r.bytes[2..] == PackU16(total).bytes;
    r
  }

  /** One `send_pixel(c)` per colour, in order; the first colour outside
      32 bits raises. */
  function PackWords(cs: seq<int>): (r: Packed)
    ensures r.Packed? <==> AllU32(cs)
    ensures r.Packed? ==> r.bytes == Words(cs)
  {
    if AllU32(cs) then Packed(Words(cs)) else StructError
  }

  /** A whole 'P' frame: header with the number of colours, then the words. */
  function PixelMessage(inp: int, cs: seq<int>): (r: Packed)
    ensures r.Packed? <==> 0 <= inp < 256 && |cs| < U16Limit && AllU32(cs)
    ensures r.Packed? ==> |r.bytes| == 4 + 4 * |cs|
  {
    Then(PixelHeader(inp, |cs|), PackWords(cs))
  }

  datatype PixelFrame = PixelFrame(input: Byte, colours: seq<int>)

  /** Reads a 'P' frame back: the count field must match the number of
      words that follow it. */
  function DecodePixelMessage(bs: seq<Byte>): (r: Option<PixelFrame>)
    ensures r.Some? ==> |bs| >= 4 && bs[0] == PixelTag
    ensures r.Some? ==> |r.value.colours| == DecodeLE16(bs[2..4]) && AllU32(r.value.colours)
  {
    if |bs| >= 4 && bs[0] == PixelTag && |bs| == 4 + 4 * DecodeLE16(bs[2..4]) then
      Some(PixelFrame(bs[1], DecodeWords(bs[4..])))
    else
      None
  }

  /** Decoding an encoded 'P' frame gives back the input and every colour,
      in order. */
  lemma PixelMessageRoundTrip(inp: int, cs: seq<int>)
    requires PixelMessage(inp, cs).Packed?
    ensures DecodePixelMessage(PixelMessage(inp, cs).bytes) == Some(PixelFrame(inp, cs))
  {
    var bs := PixelMessage(inp, cs).bytes;
    var header := PixelHeader(inp, |cs|).bytes;
    assert bs == header + Words(cs);
    assert bs[2..4] == header[2..];
    assert bs[4..] == Words(cs);
    DecodeOfWords(cs);
  }

  /** Every byte string the decoder accepts is exactly the encoding of what
      it decodes to. */
  lemma PixelMessageOfDecode(bs: seq<Byte>)
    requires DecodePixelMessage(bs).Some?
    ensures PixelMessage(DecodePixelMessage(bs).value.input, DecodePixelMessage(bs).value.colours) == Packed(bs)
  {
    var f := DecodePixelMessage(bs).value;
    WordsOfDecode(bs[4..]);
    LE16OfDecode(bs[2..4]);
    var m := PixelMessage(f.input, f.colours);
    assert m.bytes == [bs[0], bs[1]] + bs[2..4] + bs[4..];
    assert bs == [bs[0], bs[1]] + bs[2..4] + bs[4..];
  }

  /** The three colours the test message cycles through. */
  const TestColours: seq<int> := [0xFF0000, 0x00FF00, 0x0000FF]

  function TestPattern(n: nat): (cs: seq<int>)
    ensures |cs| == n && AllU32(cs)
  {
    seq(n, i requires 0 <= i => TestColours[i % 3])
  }

  /** Three more test colours extend the pattern by one red, green, blue cycle. */
  lemma TestPatternNext(i: nat)
    ensures TestPattern(3 * i + 3) == TestPattern(3 * i) + TestColours
  {
    var n := 3 * i;
    forall k | 0 <= k < n + 3
      ensures TestPattern(n + 3)[k] == (TestPattern(n) + TestColours)[k]
    {
      if k >= n {
        CycleIndex(i, k - n);
      }
    }
  }

  /** Position `j` of the cycle starting at `3 * i` picks colour `j`. */
  lemma CycleIndex(i: nat, j: int)
    requires 0 <= j < 3
    ensures (3 * i + j) % 3 == j
  {
  }

  /** The bytes of one red, green, blue cycle. */
  lemma TestColoursWords()
    ensures AllU32(TestColours)
    ensures Words(TestColours) == LE32(0xFF0000) + LE32(0x00FF00) + LE32(0x0000FF)
  {
    assert TestColours[1..][1..][1..] == [];
  }

  /** One pass of the test loop adds red, green and blue words, in that order. */
  lemma TestPatternStep(i: nat)
    ensures Words(TestPattern(3 * (i + 1)))
         == Words(TestPattern(3 * i)) + LE32(0xFF0000) + LE32(0x00FF00) + LE32(0x0000FF)
  {
    assert 3 * (i + 1) == 3 * i + 3;
    TestPatternNext(i);
    TestColoursWords();
    WordsAppend(TestPattern(3 * i), TestColours);
  }

  /** Number of pixels the test utility announces and sends. */
  const TestTotal: nat := 150

  /** The pixel message of the test utility: a header announcing `total`
      pixels, then red, green, blue repeated `total / 3` times. */
  method TestPixelMessage() returns (message: seq<Byte>)
    ensures |message| == 4 + 4 * TestTotal
    ensures Packed(message) == PixelMessage(1, TestPattern(TestTotal))
    ensures DecodePixelMessage(message) == Some(PixelFrame(1, TestPattern(TestTotal)))
  {
    var total := TestTotal;
    message := PixelHeader(1, total).bytes;
    var i := 0;
    while i < total / 3
      invariant 0 <= i <= total / 3
      invariant message == PixelHeader(1, total).bytes + Words(TestPattern(3 * i))
    {
      TestPatternStep(i);
      message := message + PackU32(0xFF0000).bytes;
      message := message + PackU32(0x00FF00).bytes;
      message := message + PackU32(0x0000FF).bytes;
      i := i + 1;
    }
    TestMessageDecodes();
  }

  /** The test message is the 'P' frame of the repeated pattern, and it
      decodes back to that pattern. */
  lemma TestMessageDecodes()
    ensures var bytes := PixelHeader(1, TestTotal).bytes + Words(TestPattern(3 * (TestTotal / 3)));
            && Packed(bytes) == PixelMessage(1, TestPattern(TestTotal))
            && DecodePixelMessage(bytes) == Some(PixelFrame(1, TestPattern(TestTotal)))
  {
    assert 3 * (TestTotal / 3) == TestTotal;
    PixelMessageRoundTrip(1, TestPattern(TestTotal));
  }
}
