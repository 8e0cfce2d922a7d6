/** The layout of a BMP pixel array as the pixel loops of graphdll.cpp walk
    it: `height` rows of `width` pixels of `bpp` bytes (3 or 4), each row
    followed by the zero bytes that bring it to a multiple of four. */
module RowLayout {
  import opened Arith
  import opened LittleEndian

  /** PIXEL_BUFFER_SIZE: the most bytes one fread or fwrite call moves. */
  const PixelBufferSize := 4096

  /** The pad bytes after a row of `pixelBytes` bytes. */
  function PadBytes(pixelBytes: nat): (pad: nat)
    ensures pad < 4 && (pixelBytes + pad) % 4 == 0
    ensures pad == 0 <==> pixelBytes % 4 == 0
  {
    if pixelBytes % 4 == 0 then 0 else 4 - pixelBytes % 4
  }

  datatype Layout = Layout(bpp: nat, width: nat, height: nat) {
    /** The shapes the pixel loops are run on: 24- or 32-bit pixels and a
        non-empty image. */
    predicate Valid() {
      (bpp == 3 || bpp == 4) && 0 < width && 0 < height
    }

    function PixelBytes(): nat { bpp * width }
    function Pad(): nat { PadBytes(PixelBytes()) }
    function RowBytes(): nat { PixelBytes() + Pad() }
    function TotalBytes(): nat { RowBytes() * height }
    function PixelCount(): nat { width * height }

    /** Byte offset of pixel `col` of row `y`; `col == width` is the start
        of the row's padding. */
    function Pos(y: nat, col: nat): nat { y * RowBytes() + bpp * col }

    /** Number of the pixel at column `col` of row `y`, in file order. */
    function Index(y: nat, col: nat): nat { y * width + col }

    /** (y, col) names the start of a field: a pixel, or a row's non-empty
        padding. */
    predicate FieldStart(y: nat, col: nat) {
      col < width || (col == width && Pad() > 0)
    }

    /** An offset where no pixel and no padding is cut in two. */
    predicate AtFieldStart(o: int)
      requires Valid()
    {
      0 <= o <= TotalBytes() && o % RowBytes() % bpp == 0
    }
  }

  /** A row is non-empty, its padding is at most three bytes and a 32-bit
      row needs none. */
  lemma RowShape(L: Layout)
    requires L.Valid()
    ensures 0 < L.PixelBytes() <= L.RowBytes() && L.Pad() <= 3
    ensures L.bpp == 4 ==> L.Pad() == 0 && L.RowBytes() == L.PixelBytes()
    ensures L.PixelBytes() % L.bpp == 0
  {
    MulMonotone(L.bpp, 1, L.width);
    DivMod(L.width, 4, 0);
    DivMod(L.width, L.bpp, 0);
  }

  /** A padded row is the smallest multiple of four that holds its pixels,
      so it grows with them. */
  lemma PaddedMonotone(p1: nat, p2: nat)
    requires p1 <= p2
    ensures p1 + PadBytes(p1) <= p2 + PadBytes(p2)
  {
    var r1, r2 := p1 + PadBytes(p1), p2 + PadBytes(p2);
    DivNonneg(p1, 4);
    DivNonneg(r2, 4);
    assert r2 == r2 / 4 * 4;
    assert r1 == p1 / 4 * 4 + (if p1 % 4 == 0 then 0 else 4);
  }

  /** A larger pixel or a larger image never has a smaller pixel array. */
  lemma TotalMonotone(small: Layout, large: Layout)
    requires small.bpp <= large.bpp && small.width <= large.width && small.height <= large.height
    ensures small.TotalBytes() <= large.TotalBytes()
  {
    MulMonotone(small.bpp, small.width, large.width);
    MulMonotone(large.width, small.bpp, large.bpp);
    PaddedMonotone(small.PixelBytes(), large.PixelBytes());
    MulMonotone(small.height, small.RowBytes(), large.RowBytes());
    MulMonotone(large.RowBytes(), small.height, large.height);
  }

  /** The array ends where row `height` would start. */
  lemma Extent(L: Layout)
    requires L.Valid()
    ensures L.TotalBytes() == L.Pos(L.height, 0) && 0 < L.TotalBytes()
    ensures L.PixelCount() == L.Index(L.height, 0) && 0 < L.PixelCount()
  {
    RowShape(L);
    MulMonotone(L.RowBytes(), 1, L.height);
    MulMonotone(L.width, 1, L.height);
  }

  /** The end of a row's pixels plus its padding is the start of the next row. */
  lemma NextRow(L: Layout, y: nat)
    ensures L.Pos(y, L.width) + L.Pad() == L.Pos(y + 1, 0)
    ensures L.Index(y, L.width) == L.Index(y + 1, 0)
  {
  }

  /** A field start splits into row and column by division by the row size. */
  lemma PosSplit(L: Layout, y: nat, col: nat)
    requires L.Valid() && L.FieldStart(y, col)
    ensures L.Pos(y, col) / L.RowBytes() == y
    ensures L.Pos(y, col) % L.RowBytes() == L.bpp * col
    ensures L.bpp * col / L.bpp == col && L.bpp * col % L.bpp == 0
    ensures L.AtFieldStart(L.Pos(y, col)) <== L.Pos(y, col) <= L.TotalBytes()
  {
    RowShape(L);
    DivMod(col, L.bpp, 0);
    MulMonotone(L.bpp, col, L.width);
    DivMod(y, L.RowBytes(), L.bpp * col);
  }

  /** A multiple of the pixel size inside a row is a pixel start or the
      start of non-empty padding. */
  lemma ColumnInRow(L: Layout, col: nat)
    requires L.Valid() && L.bpp * col < L.RowBytes()
    ensures col < L.width || (col == L.width && L.Pad() > 0)
  {
    RowShape(L);
    assert col > L.width ==> L.bpp * col >= L.PixelBytes() + L.bpp by {
      if col > L.width {
        MulMonotone(L.bpp, L.width + 1, col);
      }
    }
  }

  /** An offset inside the array lies at most `height` rows in. */
  lemma RowAtMostHeight(L: Layout, o: nat)
    requires L.Valid() && o <= L.TotalBytes()
    ensures o / L.RowBytes() <= L.height
  {
    RowShape(L);
    var R := L.RowBytes();
    assert R * (L.height + 1) == L.TotalBytes() + R;
    DivBelow(o, R, L.height + 1);
  }

  /** Every offset that cuts no field is a field start. */
  lemma FieldOf(L: Layout, o: nat) returns (y: nat, col: nat)
    requires L.Valid() && L.AtFieldStart(o)
    ensures L.FieldStart(y, col) && L.Pos(y, col) == o && y <= L.height
  {
    RowShape(L);
    var R := L.RowBytes();
    DivNonneg(o, R);
    var r := o % R;
    DivNonneg(r, L.bpp);
    y, col := o / R, r / L.bpp;
    assert r == L.bpp * col;
    ColumnInRow(L, col);
    RowAtMostHeight(L, o);
  }

  /** Where a field starting at column `col` lies within its row. */
  lemma FieldInRow(L: Layout, col: nat)
    requires L.Valid() && L.FieldStart(0, col)
    ensures L.bpp * col < L.RowBytes()
    ensures col < L.width ==> L.bpp * col + L.bpp <= L.PixelBytes()
    ensures col == L.width ==> L.bpp * col == L.PixelBytes()
  {
    RowShape(L);
    if col < L.width {
      MulMonotone(L.bpp, col + 1, L.width);
    }
  }

  /** Fields do not overlap: between a field start and a later one there is
      room for the whole field. */
  lemma FieldFits(L: Layout, y1: nat, c1: nat, y2: nat, c2: nat)
    requires L.Valid() && L.FieldStart(y1, c1) && L.FieldStart(y2, c2)
    requires L.Pos(y1, c1) < L.Pos(y2, c2)
    ensures c1 < L.width ==> L.Pos(y1, c1) + L.bpp <= L.Pos(y2, c2)
    ensures c1 == L.width ==> L.Pos(y1, c1) + L.Pad() <= L.Pos(y2, c2)
  {
    var R, b := L.RowBytes(), L.bpp;
    FieldInRow(L, c1);
    FieldInRow(L, c2);
    LexBelow(R, y1, b * c1, y2, b * c2);
    if y1 < y2 {
      MulMonotone(R, y1 + 1, y2);
      assert R * (y1 + 1) == y1 * R + R;
    } else {
      SameRowFits(L, c1, c2);
    }
  }

  /** Within one row, a later field start leaves room for the earlier pixel. */
  lemma SameRowFits(L: Layout, c1: nat, c2: nat)
    requires L.Valid() && L.bpp * c1 < L.bpp * c2 && c2 <= L.width
    ensures c1 < L.width && L.bpp * c1 + L.bpp <= L.bpp * c2
  {
    assert c2 <= c1 ==> L.bpp * c2 <= L.bpp * c1 by {
      if c2 <= c1 { MulMonotone(L.bpp, c2, c1); }
    }
    MulMonotone(L.bpp, c1 + 1, c2);
  }

  /** A field that starts inside the array lies in one of its rows. */
  lemma RowInImage(L: Layout, y: nat, col: nat)
    requires L.Valid() && L.FieldStart(y, col) && L.Pos(y, col) < L.TotalBytes()
    ensures y < L.height
  {
    RowShape(L);
    PosSplit(L, y, col);
    DivBelow(L.Pos(y, col), L.RowBytes(), L.height);
  }

  /** Pixel (y, col) of the image: its number is below the pixel count, and
      its bytes lie inside the pixel array. */
  lemma PixelAt(L: Layout, y: nat, col: nat)
    requires L.Valid() && y < L.height && col < L.width
    ensures L.Index(y, col) < L.PixelCount()
    ensures L.Index(y, col) / L.width == y && L.Index(y, col) % L.width == col
    ensures L.Pos(y, col) + L.bpp <= L.Pos(y, L.width) <= L.TotalBytes()
  {
    var R, P := L.RowBytes(), L.PixelBytes();
    RowBound(y, L.height, L.width, col + 1);
    RowBound(y, L.height, R, P);
    RowBound(col, L.width, L.bpp, L.bpp);
    assert L.bpp * (col + 1) == L.bpp * col + L.bpp;
    DivMod(y, L.width, col);
  }

  /** Offset of the `i`-th pixel in file order. */
  function PixelOffset(L: Layout, i: nat): (o: nat)
    requires L.Valid() && i < L.PixelCount()
    ensures o + L.bpp <= L.TotalBytes()
  {
    DivNonneg(i, L.width);
    var y, col := i / L.width, i % L.width;
    DivBelow(i, L.width, L.height);
    PixelAt(L, y, col);
    L.Pos(y, col)
  }

  /** The word a 24-bit pixel's three bytes make when copied over the low
      three bytes of 0xff000000. */
  function Pixel24(b0: Byte, b1: Byte, b2: Byte): Word {
    0xff00_0000 + b0 + 0x100 * b1 + 0x1_0000 * b2
  }

  /** The word the reader hands to the extractors for the pixel whose bytes
      start at `off`: a 24-bit pixel is copied over 0xff000000, a 32-bit one
      fills the whole word. */
  function WordAt(L: Layout, s: seq<Byte>, off: nat): Word
    requires off + L.bpp <= |s| && (L.bpp == 3 || L.bpp == 4)
  {
    if L.bpp == 3 then Pixel24(s[off], s[off + 1], s[off + 2])
    else U32At(s, off)
  }

  /** The pixel words of the pixel array that starts at `base`, one per
      pixel, rows bottom to top and pixels left to right; padding skipped. */
  function DecodePixels(L: Layout, s: seq<Byte>, base: nat): (words: seq<Word>)
    requires L.Valid() && base + L.TotalBytes() <= |s|
    ensures |words| == L.PixelCount()
  {
    seq(L.PixelCount(), i requires 0 <= i < L.PixelCount() =>
      WordAt(L, s, base + PixelOffset(L, i)))
  }

  /** `words` are the first |words| pixel words of the array at `base`. */
  ghost predicate DecodedPrefix(L: Layout, s: seq<Byte>, base: nat, words: seq<Word>)
    requires L.Valid()
  {
    && |words| <= L.PixelCount()
    && forall k :: 0 <= k < |words| ==>
         base + PixelOffset(L, k) + L.bpp <= |s| && words[k] == WordAt(L, s, base + PixelOffset(L, k))
  }

  /** A prefix that has all the pixels is the whole decoding. */
  lemma DecodedAll(L: Layout, s: seq<Byte>, base: nat, words: seq<Word>)
    requires L.Valid() && base + L.TotalBytes() <= |s|
    requires DecodedPrefix(L, s, base, words) && |words| == L.PixelCount()
    ensures words == DecodePixels(L, s, base)
  {
  }

  /** Decoding looks only at the bytes of the array itself, wherever in the
      file it sits. */
  lemma DecodeAfter(L: Layout, head: seq<Byte>, body: seq<Byte>, rest: seq<Byte>)
    requires L.Valid() && |body| == L.TotalBytes()
    ensures DecodePixels(L, head + body + rest, |head|) == DecodePixels(L, body, 0)
  {
    var s := head + body + rest;
    forall i | 0 <= i < L.PixelCount()
      ensures DecodePixels(L, s, |head|)[i] == DecodePixels(L, body, 0)[i]
    {
      var o := PixelOffset(L, i);
      var t := |head| + o;
      assert s[t] == body[o] && s[t + 1] == body[o + 1] && s[t + 2] == body[o + 2];
      assert L.bpp == 4 ==> s[t + 3] == body[o + 3];
    }
  }

  /** Byte `o` of the pixel array written for `words`: a byte of a pixel
      word inside the row's pixels, a zero in the padding. */
  function EncodedByte(L: Layout, words: seq<Word>, o: nat): Byte
    requires L.Valid() && |words| == L.PixelCount() && o < L.TotalBytes()
  {
    RowShape(L);
    var R := L.RowBytes();
    DivNonneg(o, R);
    var y, x := o / R, o % R;
    DivBelow(o, R, L.height);
    if x < L.PixelBytes() then
      DivBelow(x, L.bpp, L.width);
      DivNonneg(x, L.bpp);
      PixelAt(L, y, x / L.bpp);
      ByteOf(words[L.Index(y, x / L.bpp)], x % L.bpp)
    else 0
  }

  /** The first `n` bytes of the pixel array written for `words`, in the
      order the writer emits them. */
  function EncodePrefix(L: Layout, words: seq<Word>, n: nat): (s: seq<Byte>)
    requires L.Valid() && |words| == L.PixelCount() && n <= L.TotalBytes()
    ensures |s| == n
  {
    if n == 0 then [] else EncodePrefix(L, words, n - 1) + [EncodedByte(L, words, n - 1)]
  }

  /** Every byte of a prefix is the byte the layout puts at that offset. */
  lemma {:induction false} EncodePrefixAt(L: Layout, words: seq<Word>, n: nat, o: nat)
    requires L.Valid() && |words| == L.PixelCount() && o < n <= L.TotalBytes()
    ensures EncodePrefix(L, words, n)[o] == EncodedByte(L, words, o)
  {
    if o < n - 1 {
      EncodePrefixAt(L, words, n - 1, o);
    }
  }

  /** The whole pixel array written for `words`. */
  function EncodePixels(L: Layout, words: seq<Word>): (s: seq<Byte>)
    requires L.Valid() && |words| == L.PixelCount()
    ensures |s| == L.TotalBytes()
  {
    EncodePrefix(L, words, L.TotalBytes())
  }

  /** An image with pixels of 3 or 4 bytes has an empty pixel array exactly
      when it has no columns or no rows. */
  lemma EmptyLayout(L: Layout)
    requires L.bpp == 3 || L.bpp == 4
    ensures L.TotalBytes() == 0 <==> L.width == 0 || L.height == 0
    ensures L.TotalBytes() == 0 <==> !L.Valid()
  {
    if L.Valid() {
      Extent(L);
    } else if L.width == 0 {
      assert L.PixelBytes() == 0 && L.Pad() == 0;
    }
  }

  /** The pixel array the writers emit for an image of any size: the
      encoding, which has no bytes when the image has no columns or no
      rows. */
  function PixelArray(L: Layout, words: seq<Word>): (s: seq<Byte>)
    requires (L.bpp == 3 || L.bpp == 4) && |words| == L.PixelCount()
    ensures |s| == L.TotalBytes()
    ensures L.Valid() ==> s == EncodePixels(L, words)
  {
    EmptyLayout(L);
    if L.Valid() then EncodePixels(L, words) else []
  }

  /** Byte `j` of pixel (y, col) of the encoded array is byte `j` of that
      pixel's word. */
  lemma EncodedPixel(L: Layout, words: seq<Word>, y: nat, col: nat, j: nat)
    requires L.Valid() && |words| == L.PixelCount()
    requires y < L.height && col < L.width && j < L.bpp
    ensures L.Index(y, col) < |words| && L.Pos(y, col) + j < L.TotalBytes()
    ensures EncodePixels(L, words)[L.Pos(y, col) + j] == ByteOf(words[L.Index(y, col)], j)
  {
    PixelAt(L, y, col);
    RowShape(L);
    EncodePrefixAt(L, words, L.TotalBytes(), L.Pos(y, col) + j);
    DivMod(col, L.bpp, j);
    MulMonotone(L.bpp, col + 1, L.width);
    DivMod(y, L.RowBytes(), L.bpp * col + j);
  }

  /** The padding of every row is written as zeros. */
  lemma EncodedPad(L: Layout, words: seq<Word>, y: nat, j: nat)
    requires L.Valid() && |words| == L.PixelCount()
    requires y < L.height && j < L.Pad()
    ensures L.Pos(y, L.width) + j < L.TotalBytes()
    ensures EncodePixels(L, words)[L.Pos(y, L.width) + j] == 0
  {
    RowShape(L);
    MulMonotone(L.RowBytes(), y + 1, L.height);
    EncodePrefixAt(L, words, L.TotalBytes(), L.Pos(y, L.width) + j);
    DivMod(y, L.RowBytes(), L.PixelBytes() + j);
  }

  /** What a pixel word becomes after a write and a read: a 24-bit file
      keeps the low three bytes and reads alpha back as 0xff. */
  function Stored(L: Layout, w: Word): Word {
    if L.bpp == 3 then 0xff00_0000 + w % 0x100_0000 else w
  }

  /** The pixel at (y, col) of the encoded array decodes to its word, up to
      what the file keeps of it. */
  lemma DecodedPixelAt(L: Layout, words: seq<Word>, y: nat, col: nat)
    requires L.Valid() && |words| == L.PixelCount() && y < L.height && col < L.width
    ensures L.Index(y, col) < |words| && L.Pos(y, col) + L.bpp <= L.TotalBytes()
    ensures WordAt(L, EncodePixels(L, words), L.Pos(y, col)) == Stored(L, words[L.Index(y, col)])
  {
    PixelAt(L, y, col);
    var w := words[L.Index(y, col)];
    EncodedPixel(L, words, y, col, 0);
    EncodedPixel(L, words, y, col, 1);
    EncodedPixel(L, words, y, col, 2);
    if L.bpp == 4 {
      EncodedPixel(L, words, y, col, 3);
      ByteSum(w);
    } else {
      LowBytes(w);
    }
  }

  /** Pixel `i` of the encoded array decodes to its word, up to what the
      file keeps of it. */
  lemma DecodedPixel(L: Layout, words: seq<Word>, i: nat)
    requires L.Valid() && |words| == L.PixelCount() && i < |words|
    ensures DecodePixels(L, EncodePixels(L, words), 0)[i] == Stored(L, words[i])
  {
    DivNonneg(i, L.width);
    DivBelow(i, L.width, L.height);
    DecodedPixelAt(L, words, i / L.width, i % L.width);
  }

  /** The low three bytes of a word make up its remainder by 2^24. */
  lemma LowBytes(w: Word)
    ensures w % 0x100_0000 == ByteOf(w, 0) + 0x100 * ByteOf(w, 1) + 0x1_0000 * ByteOf(w, 2)
  {
    ByteSum(w);
    DivMod(ByteOf(w, 3), 0x100_0000, ByteOf(w, 0) + 0x100 * ByteOf(w, 1) + 0x1_0000 * ByteOf(w, 2));
  }

  /** Reading back what was written: decoding the encoded array gives every
      word back, up to the alpha byte a 24-bit file cannot hold. */
  lemma DecodeEncode(L: Layout, words: seq<Word>)
    requires L.Valid() && |words| == L.PixelCount()
    ensures DecodePixels(L, EncodePixels(L, words), 0)
         == seq(|words|, i requires 0 <= i < |words| => Stored(L, words[i]))
  {
    forall i | 0 <= i < |words|
      ensures DecodePixels(L, EncodePixels(L, words), 0)[i] == Stored(L, words[i])
    {
      DecodedPixel(L, words, i);
    }
  }

  /** How much of the array a device that has taken `written` bytes and
      accepts `room` in all still takes: all of it, or what fits. */
  function Fitting(L: Layout, written: nat, room: nat): (n: nat)
    requires written <= room
    ensures n <= L.TotalBytes() && n <= room - written
    ensures n == L.TotalBytes() || n == room - written
  {
    if written + L.TotalBytes() <= room then L.TotalBytes() else room - written
  }

  /** The number of bytes one fread call of the reader asks for at offset
      `t`: at most a buffer, shortened so that the read ends at a field
      boundary (24-bit: not inside a pixel nor inside padding; 32-bit: not
      inside a pixel). */
  function ReadChunkLength(L: Layout, t: nat): int
    requires L.Valid() && t < L.TotalBytes()
  {
    var n := if PixelBufferSize < L.TotalBytes() - t then PixelBufferSize else L.TotalBytes() - t;
    var nr := (t + n) % L.RowBytes();
    if L.bpp == 3 then
      if nr < L.PixelBytes() then n - nr % 3 else n - (nr - L.PixelBytes())
    else n - nr % 4
  }

  /** An offset inside a row's pixels, cut back to the start of its pixel,
      is a field boundary. */
  lemma CutInPixels(L: Layout, e: nat)
    requires L.Valid() && e <= L.TotalBytes() && e % L.RowBytes() < L.PixelBytes()
    ensures L.AtFieldStart(e - e % L.RowBytes() % L.bpp)
  {
    RowShape(L);
    var R, b := L.RowBytes(), L.bpp;
    var r := e % R;
    DivNonneg(e, R);
    DivNonneg(r, b);
    CutBack(e, R, r % b);
    CutBack(r, b, r % b);
  }

  /** An offset inside a row's padding (24-bit rows only), cut back to the
      start of the padding, is a field boundary less than three bytes back. */
  lemma CutInPad(L: Layout, e: nat)
    requires L.Valid() && e <= L.TotalBytes() && e % L.RowBytes() >= L.PixelBytes()
    ensures L.bpp == 3 && e % L.RowBytes() - L.PixelBytes() < 3
    ensures L.AtFieldStart(e - (e % L.RowBytes() - L.PixelBytes()))
  {
    RowShape(L);
    var R, P := L.RowBytes(), L.PixelBytes();
    DivNonneg(e, R);
    CutBack(e, R, e % R - P);
  }

  /** The whole array ends at a field boundary. */
  lemma EndIsFieldStart(L: Layout)
    requires L.Valid()
    ensures L.TotalBytes() % L.RowBytes() == 0 && L.AtFieldStart(L.TotalBytes())
  {
    var R, T := L.RowBytes(), L.TotalBytes();
    RowShape(L);
    assert T == L.height * R;
    DivMod(L.height, R, 0);
    assert T % R == 0;
    assert 0 % L.bpp == 0;
  }

  /** A read chunk that starts at a field boundary is non-empty, fits the
      buffer, stays inside the pixel array and ends at a field boundary. */
  lemma ReadChunkEnds(L: Layout, t: nat)
    requires L.Valid() && t < L.TotalBytes() && L.AtFieldStart(t)
    ensures 0 < ReadChunkLength(L, t) <= PixelBufferSize
    ensures L.AtFieldStart(t + ReadChunkLength(L, t))
  {
    RowShape(L);
    var T := L.TotalBytes();
    var n := if PixelBufferSize < T - t then PixelBufferSize else T - t;
    if n == T - t {
      EndIsFieldStart(L);
    } else if (t + n) % L.RowBytes() < L.PixelBytes() {
      CutInPixels(L, t + n);
    } else {
      CutInPad(L, t + n);
    }
  }
}
