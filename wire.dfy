/** Byte layouts shared by every datagram: the little-endian integer
    formats that `struct.pack('<B')`, `'<H'` and `'<I'` produce, and the
    `struct.error` raised when a value does not fit its format. */
module Wire {

  /** One octet of a datagram. */
  type Byte = b: int | 0 <= b < 256

  datatype Option<T> = None | Some(value: T)

  const U16Limit: int := 0x1_0000
  const U32Limit: int := 0x1_0000_0000

  /** What a `struct.pack` call gives back: the packed bytes, or the
      `struct.error` it raises when the value is outside its format's range. */
  datatype Packed = Packed(bytes: seq<Byte>) | StructError

  /** `a + b` on two packed pieces: the first error wins, as the raise
      inside `message += struct.pack(...)` aborts the concatenation. */
  function Then(a: Packed, b: Packed): (r: Packed)
    ensures r.Packed? <==> a.Packed? && b.Packed?
    ensures r.Packed? ==> r.bytes == a.bytes + b.bytes
  {
    if a.StructError? || b.StructError? then StructError else Packed(a.bytes + b.bytes)
  }

  /** `struct.pack('<H', v)` for a value known to fit. */
  function LE16(v: int): (r: seq<Byte>)
    requires 0 <= v < U16Limit
    ensures |r| == 2 && DecodeLE16(r) == v
  {
    [v % 256, v / 256]
  }

  function DecodeLE16(bs: seq<Byte>): (v: int)
    requires |bs| == 2
    ensures 0 <= v < U16Limit
  {
    bs[0] as int + 256 * bs[1] as int
  }

  /** Two bytes are the encoding of exactly one 16-bit value. */
  lemma LE16OfDecode(bs: seq<Byte>)
    requires |bs| == 2
    ensures LE16(DecodeLE16(bs)) == bs
  {
    var v := DecodeLE16(bs);
    assert v % 256 == bs[0] && v / 256 == bs[1];
  }

  /** `struct.pack('<I', v)` for a value known to fit. */
  function LE32(v: int): (r: seq<Byte>)
    requires 0 <= v < U32Limit
    ensures |r| == 4 && DecodeLE32(r) == v
  {
    var q := v / 256;
    var q2 := q / 256;
    assert q2 < 0x1_0000;
    [v % 256, q % 256, q2 % 256, q2 / 256]
  }

  function DecodeLE32(bs: seq<Byte>): (v: int)
    requires |bs| == 4
    ensures 0 <= v < U32Limit
  {
    bs[0] as int + 256 * bs[1] as int + 0x1_0000 * bs[2] as int + 0x100_0000 * bs[3] as int
  }

  /** Four bytes are the encoding of exactly one 32-bit value. */
  lemma LE32OfDecode(bs: seq<Byte>)
    requires |bs| == 4
    ensures LE32(DecodeLE32(bs)) == bs
  {
    var v := DecodeLE32(bs);
    var b0, b1, b2, b3: int := bs[0], bs[1], bs[2], bs[3];
    var hi2 := b2 + 256 * b3;
    var hi := b1 + 256 * hi2;
    assert v == b0 + 256 * hi;
    DivModByte(v, b0, hi);
    DivModByte(hi, b1, hi2);
    DivModByte(hi2, b2, b3);
  }

  lemma DivModByte(v: int, lo: int, hi: int)
    requires 0 <= lo < 256 && 0 <= hi && v == lo + 256 * hi
    ensures v % 256 == lo && v / 256 == hi
  {
  }

  /** `struct.pack('<B', v)`. */
  function PackU8(v: int): (r: Packed)
    ensures r.Packed? <==> 0 <= v < 256
    ensures r.Packed? ==> r.bytes == [v]
  {
    if 0 <= v < 256 then Packed([v]) else StructError
  }

  /** `struct.pack('<H', v)`. */
  function PackU16(v: int): (r: Packed)
    ensures r.Packed? <==> 0 <= v < U16Limit
    ensures r.Packed? ==> |r.bytes| == 2 && DecodeLE16(r.bytes) == v
  {
    if 0 <= v < U16Limit then Packed(LE16(v)) else StructError
  }

  /** `struct.pack('<I', v)`. */
  function PackU32(v: int): (r: Packed)
    ensures r.Packed? <==> 0 <= v < U32Limit
    ensures r.Packed? ==> |r.bytes| == 4 && DecodeLE32(r.bytes) == v
  {
    if 0 <= v < U32Limit then Packed(LE32(v)) else StructError
  }

  predicate AllU32(cs: seq<int>) {
    forall i :: 0 <= i < |cs| ==> 0 <= cs[i] < U32Limit
  }

  /** The pixel words of a frame: one `struct.pack('<I', c)` per colour,
      concatenated in order. */
  function Words(cs: seq<int>): (r: seq<Byte>)
    requires AllU32(cs)
    ensures |r| == 4 * |cs|
  {
    if cs == [] then [] else LE32(cs[0]) + Words(cs[1..])
  }

  function DecodeWords(bs: seq<Byte>): (cs: seq<int>)
    requires |bs| % 4 == 0
    ensures 4 * |cs| == |bs|
    ensures AllU32(cs)
  {
    if bs == [] then [] else [DecodeLE32(bs[..4])] + DecodeWords(bs[4..])
  }

  /** Decoding the words of a message gives back its colours. */
  lemma {:induction false} DecodeOfWords(cs: seq<int>)
    requires AllU32(cs)
    ensures DecodeWords(Words(cs)) == cs
  {
    if cs != [] {
      var rest := Words(cs[1..]);
      assert (LE32(cs[0]) + rest)[..4] == LE32(cs[0]);
      assert (LE32(cs[0]) + rest)[4..] == rest;
      DecodeOfWords(cs[1..]);
    }
  }

  /** Appending one more word to a message extends its words by that word. */
  lemma {:induction false} WordsSnoc(cs: seq<int>, c: int)
    requires AllU32(cs) && 0 <= c < U32Limit
    ensures AllU32(cs + [c])
    ensures Words(cs + [c]) == Words(cs) + LE32(c)
  {
    if cs == [] {
      assert [c][1..] == [];
    } else {
      assert (cs + [c])[1..] == cs[1..] + [c];
      WordsSnoc(cs[1..], c);
    }
  }

  /** The words of two colour lists, one after the other, are the words of
      the joined list. */
  lemma {:induction false} WordsAppend(a: seq<int>, b: seq<int>)
    requires AllU32(a) && AllU32(b)
    ensures AllU32(a + b)
    ensures Words(a + b) == Words(a) + Words(b)
  {
    if a != [] {
      assert (a + b)[1..] == a[1..] + b;
      WordsAppend(a[1..], b);
    } else {
      assert a + b == b;
    }
  }

  lemma ConcatAssoc(h: seq<Byte>, a: seq<Byte>, b: seq<Byte>, c: seq<Byte>, d: seq<Byte>)
    ensures h + (a + b + c + d) == h + a + b + c + d
  {
  }

  /** A byte string of whole words is the encoding of its decoded words. */
  lemma {:induction false} WordsOfDecode(bs: seq<Byte>)
    requires |bs| % 4 == 0
    ensures Words(DecodeWords(bs)) == bs
  {
    if bs != [] {
      var cs := DecodeWords(bs);
      assert cs[1..] == DecodeWords(bs[4..]);
      WordsOfDecode(bs[4..]);
      LE32OfDecode(bs[..4]);
      assert bs == bs[..4] + bs[4..];
    }
  }

  /** Word i of a message sits at bytes 4i .. 4i+3. */
  lemma {:induction false} WordAt(cs: seq<int>, i: int)
    requires AllU32(cs) && 0 <= i < |cs|
    ensures Words(cs)[4 * i .. 4 * i + 4] == LE32(cs[i])
  {
    if i > 0 {
      WordAt(cs[1..], i - 1);
      var rest := Words(cs[1..]);
      var head := LE32(cs[0]);
      var j := 4 * (i - 1);
      assert 4 * i == j + 4;
      assert Words(cs) == head + rest;
      assert (head + rest)[j + 4 .. j + 8] == rest[j .. j + 4];
    }
  }
}
