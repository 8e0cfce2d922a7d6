/** The integer side of the pixel adapters (graphdll.cpp): the byte
    extractors that pull one channel out of a packed pixel word, the byte
    packers that build a word from channel bytes, `minMax3`, and the integer
    hue and chroma arithmetic the HCL extractors start from. */
module PixelCodec {
  import opened LittleEndian
  import opened Arith

  /** minMax3: the smallest and the largest of three values, computed with
      the source's comparison order (v2 against v3 first, then v1). */
  function MinMax3(v1: int, v2: int, v3: int): (r: (int, int))
    ensures r.0 <= v1 && r.0 <= v2 && r.0 <= v3
    ensures r.1 >= v1 && r.1 >= v2 && r.1 >= v3
    ensures r.0 == v1 || r.0 == v2 || r.0 == v3
    ensures r.1 == v1 || r.1 == v2 || r.1 == v3
  {
    var (lo, mid) := if v2 <= v3 then (v2, v3) else (v3, v2);
    if v1 <= mid then (if v1 <= lo then v1 else lo, mid)
    else (lo, v1)
  }

  /** Blue sits in bits 0-7 of a packed pixel word. */
  function BlueByte(w: Word): Byte { ByteOf(w, 0) }
  /** Green sits in bits 8-15. */
  function GreenByte(w: Word): Byte { ByteOf(w, 1) }
  /** Red sits in bits 16-23. */
  function RedByte(w: Word): Byte { ByteOf(w, 2) }
  /** Alpha sits in bits 24-31. */
  function AlphaByte(w: Word): Byte { ByteOf(w, 3) }

  /** packBytesRGB: r<<16 | g<<8 | b; the three fields do not overlap, so the
      bitwise or is a sum. */
  function PackBytesRgb(r: Byte, g: Byte, b: Byte): Word {
    r * 0x1_0000 + g * 0x100 + b
  }

  /** packBytesRGBA: a<<24 | r<<16 | g<<8 | b. */
  function PackBytesRgba(r: Byte, g: Byte, b: Byte, a: Byte): Word {
    a * 0x100_0000 + r * 0x1_0000 + g * 0x100 + b
  }

  /** Extracting after packing returns the packed bytes. */
  lemma ExtractAfterPack(r: Byte, g: Byte, b: Byte, a: Byte)
    ensures var p := PackBytesRgba(r, g, b, a);
      RedByte(p) == r && GreenByte(p) == g && BlueByte(p) == b && AlphaByte(p) == a
  {
    DivMod(a * 0x1_0000 + r * 0x100 + g, 0x100, b);
    DivMod(a * 0x100 + r, 0x100, g);
    DivMod(a * 0x100 + r, 0x1_0000, g * 0x100 + b);
    DivMod(a, 0x100, r);
    DivMod(a, 0x100_0000, r * 0x1_0000 + g * 0x100 + b);
    DivMod(0, 0x100, a);
  }

  /** Packing the extracted bytes rebuilds the word: together with
      ExtractAfterPack, packBytesRGBA and the four extractors are inverse
      to each other. */
  lemma PackAfterExtract(w: Word)
    ensures PackBytesRgba(RedByte(w), GreenByte(w), BlueByte(w), AlphaByte(w)) == w
  {
    ByteSum(w);
  }

  /** packBytesRGB is packBytesRGBA with alpha zero, so its red, green and
      blue come back and alpha reads as zero. */
  lemma PackRgbRoundTrip(r: Byte, g: Byte, b: Byte)
    ensures var p := PackBytesRgb(r, g, b);
      RedByte(p) == r && GreenByte(p) == g && BlueByte(p) == b && AlphaByte(p) == 0
  {
    ExtractAfterPack(r, g, b, 0);
    assert PackBytesRgb(r, g, b) == PackBytesRgba(r, g, b, 0);
  }

  /** C's `%` on `int`: the remainder takes the sign of the dividend
      (division truncates toward zero). */
  function CRem(a: int, b: int): (r: int)
    requires b > 0
    ensures a >= 0 ==> r == a % b
    ensures a < 0 ==> -b < r <= 0
  {
    if a >= 0 then a % b else -((-a) % b)
  }

  /** chromaExtractor's integer part: max - min of the red, green and blue
      bytes. */
  function Chroma(w: Word): (c: int)
    ensures 0 <= c <= 255
    ensures c == 0 <==> RedByte(w) == GreenByte(w) == BlueByte(w)
  {
    var (lo, hi) := MinMax3(RedByte(w), GreenByte(w), BlueByte(w));
    hi - lo
  }

  /** The hue a pixel gets before the division h / c: undefined for a grey
      pixel (the extractor stores the sentinel -100), otherwise a numerator
      over the chroma. */
  datatype Hue = Undefined | Sextant(num: int, chroma: int)

  /** hueExtractor's integer part. */
  function HueOf(w: Word): (h: Hue)
    ensures h.Undefined? <==> RedByte(w) == GreenByte(w) == BlueByte(w)
    ensures h.Sextant? ==> h.chroma == Chroma(w) && 0 <= h.num < 6 * h.chroma
  {
    var r, g, b := RedByte(w), GreenByte(w), BlueByte(w);
    var (m0, m1) := MinMax3(r, g, b);
    var c := m1 - m0;
    if c == 0 then Undefined
    else if m1 == r then Sextant(CRem((g - b) + 6 * c, 6 * c), c)
    else if m1 == g then Sextant((b - r) + 2 * c, c)
    else Sextant((r - g) + 4 * c, c)
  }

  /** The sector of the hue follows the largest channel: red largest gives
      [0, c] or [5c, 6c), green largest (and red not) [c, 3c], blue the only
      largest [3c, 5c]; in the red case the C remainder acts on a positive
      dividend, so its truncation never shows. */
  lemma {:induction false} HueSectors(w: Word)
    requires HueOf(w).Sextant?
    ensures var r, g, b, h := RedByte(w), GreenByte(w), BlueByte(w), HueOf(w);
      && (r >= g && r >= b ==> h.num <= h.chroma || 5 * h.chroma <= h.num)
      && (g > r && g >= b ==> h.chroma <= h.num <= 3 * h.chroma)
      && (b > r && b > g ==> 3 * h.chroma <= h.num <= 5 * h.chroma)
  {
    var r, g, b := RedByte(w), GreenByte(w), BlueByte(w);
    var mm := MinMax3(r, g, b);
    var c := mm.1 - mm.0;
    if r >= g && r >= b {
      var d := (g - b) + 6 * c;
      assert HueOf(w) == Sextant(CRem(d, 6 * c), c);
      if d < 6 * c {
        DivMod(0, 6 * c, d);
      } else {
        DivMod(1, 6 * c, d - 6 * c);
      }
    } else if g > r && g >= b {
      assert HueOf(w) == Sextant((b - r) + 2 * c, c);
    } else if b > r && b > g {
      assert HueOf(w) == Sextant((r - g) + 4 * c, c);
    }
  }

  /** A channel of the byte data formats. */
  datatype Channel = Red | Green | Blue | Alpha

  /** The byte extractor bound to a channel under CG_DATA_FORMAT_RGB_BYTES. */
  function ChannelByte(ch: Channel, w: Word): Byte {
    match ch
    case Red => RedByte(w)
    case Green => GreenByte(w)
    case Blue => BlueByte(w)
    case Alpha => AlphaByte(w)
  }

  /** The channel buffer an extractor fills: one byte per pixel word, in the
      order the words arrive. */
  function ExtractChannel(ch: Channel, words: seq<Word>): (out: seq<Byte>)
    ensures |out| == |words|
    ensures forall i :: 0 <= i < |words| ==> out[i] == ChannelByte(ch, words[i])
  {
    seq(|words|, i requires 0 <= i < |words| => ChannelByte(ch, words[i]))
  }

  /** The words packBytesRGB returns for three equally long channel buffers,
      one per pixel in buffer order. */
  function PackRgbChannels(r: seq<Byte>, g: seq<Byte>, b: seq<Byte>): (words: seq<Word>)
    requires |r| == |g| == |b|
    ensures |words| == |r|
    ensures forall i :: 0 <= i < |r| ==> words[i] == PackBytesRgb(r[i], g[i], b[i])
  {
    seq(|r|, i requires 0 <= i < |r| => PackBytesRgb(r[i], g[i], b[i]))
  }

  /** The words packBytesRGBA returns for four equally long channel buffers. */
  function PackRgbaChannels(r: seq<Byte>, g: seq<Byte>, b: seq<Byte>, a: seq<Byte>): (words: seq<Word>)
    requires |r| == |g| == |b| == |a|
    ensures |words| == |r|
    ensures forall i :: 0 <= i < |r| ==> words[i] == PackBytesRgba(r[i], g[i], b[i], a[i])
  {
    seq(|r|, i requires 0 <= i < |r| => PackBytesRgba(r[i], g[i], b[i], a[i]))
  }
}
