/** The 24-bit colour word both capture scripts send: red in bits 16-23,
    green in bits 8-15, blue in bits 0-7, built as `r*256*256 + g*256 + b`. */
module Colour {

  const ColourLimit: int := 0x100_0000

  /** `(r * 256 * 256) + (g * 256) + b` for channels already averaged and
      divided: a 24-bit word. */
  function Pack(r: int, g: int, b: int): (c: int)
    requires 0 <= r < 256 && 0 <= g < 256 && 0 <= b < 256
    ensures 0 <= c < ColourLimit
  {
    (r * 256 * 256) + (g * 256) + b
  }

  /** The channels come back out of a packed word by shifting, and the word
      is 0 (black) exactly when all three channels are. */
  lemma {:induction false} PackChannels(r: int, g: int, b: int)
    requires 0 <= r < 256 && 0 <= g < 256 && 0 <= b < 256
    ensures RedOf(Pack(r, g, b)) == r && GreenOf(Pack(r, g, b)) == g && BlueOf(Pack(r, g, b)) == b
    ensures Pack(r, g, b) == 0 <==> r == 0 && g == 0 && b == 0
  {
    var c := Pack(r, g, b);
    DivModSplit(c, r, g * 256 + b, 0x1_0000);
    DivModSplit(c, r * 256 + g, b, 256);
    DivModSplit(r * 256 + g, r, g, 256);
  }

  lemma MulAtLeast(d: int, k: int)
    requires d >= 0 && k >= 1
    ensures d * k >= d
  {
  }

  lemma DivModSplit(c: int, q: int, rem: int, d: int)
    requires 0 <= rem < d && c == q * d + rem
    ensures c / d == q && c % d == rem
  {
    var q', r' := c / d, c % d;
    assert d * (q - q') == r' - rem;
    if q > q' {
      MulAtLeast(d, q - q');
    } else if q < q' {
      MulAtLeast(d, q' - q);
    }
  }

  /** `c >> 16` */
  function RedOf(c: int): int { c / 0x1_0000 }
  /** `(c >> 8) & 0xFF` */
  function GreenOf(c: int): int { (c / 256) % 256 }
  /** `c & 0xFF` */
  function BlueOf(c: int): int { c % 256 }

  /** Every 24-bit word is the packing of its own channels, so packing is a
      bijection between channel triples and colour words. */
  lemma PackOfChannels(c: int)
    requires 0 <= c < ColourLimit
    ensures 0 <= RedOf(c) < 256 && 0 <= GreenOf(c) < 256 && 0 <= BlueOf(c) < 256
    ensures Pack(RedOf(c), GreenOf(c), BlueOf(c)) == c
  {
    var q := c / 256;
    assert c == q * 256 + BlueOf(c);
    assert q == (q / 256) * 256 + GreenOf(c);
    DivModSplit(c, q / 256, GreenOf(c) * 256 + BlueOf(c), 0x1_0000);
    assert Pack(RedOf(c), GreenOf(c), BlueOf(c)) == c;
  }
}
