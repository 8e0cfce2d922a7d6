/** The BMP container (graphdll.cpp, readBMP and writeBMP).  readBMP reads
    the 14-byte file header and the 40-byte BITMAPINFOHEADER field by field,
    stopping at the first field that is missing or unsupported, moves to the
    pixel array, binds the extractors of the requested data format and runs
    the 24- or 32-bit pixel loop.  writeBMP writes the same 54 header bytes,
    binds the packers of the requested data format and runs the matching
    write loop.  The file read is the byte sequence `file`; the file written
    is a device that has taken `out` and accepts `room` bytes in all. */
module BmpCodec {
  import opened LittleEndian
  import opened CgTypes
  import opened RowLayout
  import opened PixelStream
  import opened PixelCodec

  /** Bytes of the two headers; the pixel array follows them. */
  const HeaderSize := 54
  /** "BM" read as a 16-bit little-endian field. */
  const Magic := 0x4d42
  /** The size of a BITMAPINFOHEADER, the only DIB header accepted. */
  const InfoHeaderSize := 40
  /** The resolution writeBMP records, in pixels per metre. */
  const Resolution := 4000

  /** What readBMP keeps of the headers: the image size, the bytes per
      pixel (3 or 4) and the offset of the pixel array. */
  datatype BmpHeader = BmpHeader(width: int, height: int, bytesPerPixel: nat, offset: Word)

  /** The header cascade of readBMP: each field read may find the file too
      short, and the fields checked may hold an unsupported value.  Missing
      file-header fields make the file INVALID_FORMAT, missing or
      unsupported info-header fields UNSUPPORTED_FORMAT, and a width or
      height above the caller's maximum BAD_DIMENSION.  The checks run in
      file order, so a width above the maximum is BAD_DIMENSION whatever the
      fields after it hold. */
  function ParseHeader(file: seq<Byte>, maxWidth: int, maxHeight: int): (r: Outcome<BmpHeader>)
    ensures r.Failure? ==>
      r.error == InvalidFormat || r.error == UnsupportedFormat || r.error == BadDimension
    ensures r == Failure(InvalidFormat) <==> |file| < 14 || U16At(file, 0) != Magic
    ensures r == Failure(BadDimension) <==>
      && 22 <= |file| && U16At(file, 0) == Magic && U32At(file, 14) == InfoHeaderSize
      && 0 < I32At(file, 18)
      && (maxWidth < I32At(file, 18) || (26 <= |file| && 0 < I32At(file, 22) && maxHeight < I32At(file, 22)))
    ensures r.Success? <==>
      && HeaderSize <= |file| && U16At(file, 0) == Magic && U32At(file, 14) == InfoHeaderSize
      && 0 < I32At(file, 18) <= maxWidth && 0 < I32At(file, 22) <= maxHeight
      && (U16At(file, 28) == 24 || U16At(file, 28) == 32) && U32At(file, 30) == 0
    ensures r.Success? ==>
      && HeaderSize <= |file| && U16At(file, 0) == Magic && U32At(file, 14) == InfoHeaderSize
      && r.value.width == I32At(file, 18) && 0 < r.value.width <= maxWidth
      && r.value.height == I32At(file, 22) && 0 < r.value.height <= maxHeight
      && U16At(file, 28) == 8 * r.value.bytesPerPixel
      && (r.value.bytesPerPixel == 3 || r.value.bytesPerPixel == 4)
      && U32At(file, 30) == 0 && r.value.offset == U32At(file, 10)
  {
    // 0: "BM"; 2, 6, 10: file size, reserved, offset of the pixel array.
    if |file| < 2 || U16At(file, 0) != Magic then Failure(InvalidFormat)
    else if |file| < 14 then Failure(InvalidFormat)
    // 14: DIB header size.
    else if |file| < 18 || U32At(file, 14) != InfoHeaderSize then Failure(UnsupportedFormat)
    // 18: width.
    else if |file| < 22 || I32At(file, 18) <= 0 then Failure(UnsupportedFormat)
    else if I32At(file, 18) > maxWidth then Failure(BadDimension)
    // 22: height.
    else if |file| < 26 || I32At(file, 22) <= 0 then Failure(UnsupportedFormat)
    else if I32At(file, 22) > maxHeight then Failure(BadDimension)
    // 26: colour planes; 28: bits per pixel.
    else if |file| < 30 || (U16At(file, 28) != 24 && U16At(file, 28) != 32) then Failure(UnsupportedFormat)
    // 30: compression (BI_RGB only).
    else if |file| < 34 || U32At(file, 30) != 0 then Failure(UnsupportedFormat)
    // 34 to 50: bitmap size, resolutions, palette size, important colours.
    else if |file| < HeaderSize then Failure(UnsupportedFormat)
    else Success(BmpHeader(I32At(file, 18), I32At(file, 22), U16At(file, 28) / 8, U32At(file, 10)))
  }

  /** The 54 header bytes writeBMP writes for an image of layout `L`: the
      file size (wrapped to 32 bits, as the unsigned sum is), the offset 54,
      a BITMAPINFOHEADER with one plane, 24 or 32 bits per pixel, no
      compression, the array size, 4000 pixels per metre both ways and no
      palette. */
  function HeaderBytes(L: Layout): (h: seq<Byte>)
    requires (L.bpp == 3 || L.bpp == 4) && L.width < 0x8000_0000 && L.height < 0x8000_0000
    requires L.TotalBytes() < 0x1_0000_0000
    ensures |h| == HeaderSize
  {
    [0x42, 0x4d] + U32Bytes((HeaderSize + L.TotalBytes()) % 0x1_0000_0000) + U32Bytes(0)
      + U32Bytes(HeaderSize) + U32Bytes(InfoHeaderSize) + I32Bytes(L.width) + I32Bytes(L.height)
      + U16Bytes(1) + U16Bytes(8 * L.bpp) + U32Bytes(0) + U32Bytes(L.TotalBytes())
      + U32Bytes(Resolution) + U32Bytes(Resolution) + U32Bytes(0) + U32Bytes(0)
  }

  /** Every field of the written file header reads back as the value
      written. */
  lemma FileHeaderFields(L: Layout, rest: seq<Byte>)
    requires (L.bpp == 3 || L.bpp == 4) && L.width < 0x8000_0000 && L.height < 0x8000_0000
    requires L.TotalBytes() < 0x1_0000_0000
    ensures var f := HeaderBytes(L) + rest;
      && U16At(f, 0) == Magic && U32At(f, 2) == (HeaderSize + L.TotalBytes()) % 0x1_0000_0000
      && U32At(f, 6) == 0 && U32At(f, 10) == HeaderSize
  {
  }

  /** Every field of the written info header reads back as the value
      written. */
  lemma InfoHeaderFields(L: Layout, rest: seq<Byte>)
    requires (L.bpp == 3 || L.bpp == 4) && L.width < 0x8000_0000 && L.height < 0x8000_0000
    requires L.TotalBytes() < 0x1_0000_0000
    ensures var f := HeaderBytes(L) + rest;
      && U32At(f, 14) == InfoHeaderSize && I32At(f, 18) == L.width && I32At(f, 22) == L.height
      && U16At(f, 26) == 1 && U16At(f, 28) == 8 * L.bpp && U32At(f, 30) == 0
  {
  }

  /** The fields after the compression method read back as written. */
  lemma SizeFields(L: Layout, rest: seq<Byte>)
    requires (L.bpp == 3 || L.bpp == 4) && L.width < 0x8000_0000 && L.height < 0x8000_0000
    requires L.TotalBytes() < 0x1_0000_0000
    ensures var f := HeaderBytes(L) + rest;
      && U32At(f, 34) == L.TotalBytes() && U32At(f, 38) == Resolution && U32At(f, 42) == Resolution
      && U32At(f, 46) == 0 && U32At(f, 50) == 0
  {
  }

  /** Where the pixel loop starts reading: readBMP seeks forward to the
      recorded offset when it lies past the headers and otherwise reads on
      from byte 54. */
  function PixelStart(h: BmpHeader): (start: nat)
    ensures start == HeaderSize || start == h.offset
    ensures HeaderSize <= start
  {
    if h.offset > HeaderSize then h.offset else HeaderSize
  }

  /** The layout of the pixel array a parsed header describes. */
  function HeaderLayout(h: BmpHeader): Layout
    requires 0 < h.width && 0 < h.height
  {
    Layout(h.bytesPerPixel, h.width, h.height)
  }

  /** What readBMP makes of a file: the result it fails with, or the header
      and the pixel words it hands to the extractors.  Header errors come
      first, then a failed seek, then an unknown data format, then a pixel
      array cut short. */
  function BmpRead(file: seq<Byte>, dataFormat: int, maxWidth: int, maxHeight: int, seekFails: bool)
      : (r: Outcome<(BmpHeader, seq<Word>)>)
    ensures r.Failure? ==> r.error in {InvalidFormat, UnsupportedFormat, BadDimension, SeekError,
                                        InvalidArgument, ReadError}
    ensures r.Success? ==>
      && ParseHeader(file, maxWidth, maxHeight) == Success(r.value.0)
      && SelectorOf(dataFormat).Some?
      && |r.value.1| == r.value.0.width * r.value.0.height
  {
    match ParseHeader(file, maxWidth, maxHeight)
    case Failure(e) => Failure(e)
    case Success(h) =>
      if h.offset > HeaderSize && seekFails then Failure(SeekError)
      else if SelectorOf(dataFormat).None? then Failure(InvalidArgument)
      else if PixelStart(h) + HeaderLayout(h).TotalBytes() <= |file| then
        Success((h, DecodePixels(HeaderLayout(h), file, PixelStart(h))))
      else Failure(ReadError)
  }

  /** readBMP after its header cascade: the seek, the data-format switch
      and the pixel loop for the recorded pixel size.  The caller's maximum
      dimensions keep the pixel array below 4 GiB, so the loops' unsigned
      byte counts do not wrap. */
  method ReadBmp(file: seq<Byte>, dataFormat: int, maxWidth: int, maxHeight: int, seekFails: bool)
      returns (result: CgResult, header: BmpHeader, pixels: seq<Word>)
    requires 0 < maxWidth && 0 < maxHeight ==>
      Layout(4, maxWidth, maxHeight).TotalBytes() < 0x1_0000_0000
    ensures var r := BmpRead(file, dataFormat, maxWidth, maxHeight, seekFails);
      && (r.Failure? ==> result == r.error)
      && (r.Success? ==> result == Ok && header == r.value.0 && pixels == r.value.1)
  {
    header, pixels := BmpHeader(0, 0, 0, 0), [];
    var parsed := ParseHeader(file, maxWidth, maxHeight);
    if parsed.Failure? {
      return parsed.error, header, pixels;
    }
    header := parsed.value;
    var start: nat := HeaderSize;
    if header.offset > HeaderSize {
      if seekFails {
        return SeekError, header, pixels;
      }
      start := header.offset;
    }
    if SelectorOf(dataFormat).None? {
      return InvalidArgument, header, pixels;
    }
    TotalMonotone(HeaderLayout(header), Layout(4, maxWidth, maxHeight));
    if header.bytesPerPixel == 3 {
      result, pixels := Read24bitPixels(file, start, header.width, header.height);
    } else {
      result, pixels := Read32bitPixels(file, start, header.width, header.height);
    }
  }

  /** A file that starts with what writeBMP writes reads back: readBMP
      finds the written size and pixel size and returns every pixel word,
      alpha set to 0xff when the file has 24-bit pixels.  Whether a seek
      would fail does not matter, since the pixels follow the headers. */
  lemma ReadWritten(L: Layout, pixels: seq<Word>, rest: seq<Byte>, dataFormat: int,
                    maxWidth: int, maxHeight: int, seekFails: bool)
    requires L.Valid() && L.width < 0x8000_0000 && L.height < 0x8000_0000
    requires L.TotalBytes() < 0x1_0000_0000 && |pixels| == L.PixelCount()
    requires L.width <= maxWidth && L.height <= maxHeight && 1 <= dataFormat <= 4
    ensures BmpRead(HeaderBytes(L) + EncodePixels(L, pixels) + rest, dataFormat, maxWidth, maxHeight, seekFails)
         == Success((BmpHeader(L.width, L.height, L.bpp, HeaderSize),
                     seq(|pixels|, i requires 0 <= i < |pixels| => Stored(L, pixels[i]))))
  {
    var enc := EncodePixels(L, pixels);
    var file := HeaderBytes(L) + enc + rest;
    assert file == HeaderBytes(L) + (enc + rest);
    FileHeaderFields(L, enc + rest);
    InfoHeaderFields(L, enc + rest);
    var h := BmpHeader(L.width, L.height, L.bpp, HeaderSize);
    assert ParseHeader(file, maxWidth, maxHeight) == Success(h);
    assert HeaderLayout(h) == L;
    DecodeEncode(L, pixels);
    DecodeAfter(L, HeaderBytes(L), enc, rest);
  }

  /** The file writeBMP produces for an image of layout `L` whose packer
      returns the words `pixels`: the headers, then the pixel array. */
  function BmpFile(L: Layout, pixels: seq<Word>): (f: seq<Byte>)
    requires (L.bpp == 3 || L.bpp == 4) && L.width < 0x8000_0000 && L.height < 0x8000_0000
    requires L.TotalBytes() < 0x1_0000_0000 && |pixels| == L.PixelCount()
    ensures |f| == HeaderSize + L.TotalBytes()
    ensures f[..HeaderSize] == HeaderBytes(L)
    ensures L.Valid() ==> f[HeaderSize..] == EncodePixels(L, pixels)
    ensures L.width == 0 || L.height == 0 ==> f == HeaderBytes(L)
  {
    HeaderBytes(L) + PixelArray(L, pixels)
  }

  /** writeBMP: an alpha channel makes the file 32-bit, otherwise it is
      24-bit.  `pixels` are the words the packer bound to the data format
      returns, in order.  The headers go out first, so an unknown data
      format leaves them in the file; the device takes bytes in order until
      it is full, and the result is OK exactly when the whole file fit.
      The dimensions are not checked: an image with no columns or no rows
      is written as the headers alone. */
  method WriteBmp(out0: seq<Byte>, room: nat, dataFormat: int, width: int, height: int,
                  hasAlpha: bool, pixels: seq<Word>)
      returns (result: CgResult, out: seq<Byte>)
    requires 0 <= width < 0x8000_0000 && 0 <= height < 0x8000_0000 && |pixels| == width * height
    requires Layout(if hasAlpha then 4 else 3, width, height).TotalBytes() < 0x1_0000_0000
    requires |out0| <= room
    ensures var f := BmpFile(Layout(if hasAlpha then 4 else 3, width, height), pixels);
      && (room < |out0| + HeaderSize ==> result == WriteError && out == out0 + f[..room - |out0|])
      && (|out0| + HeaderSize <= room && SelectorOf(dataFormat).None? ==>
            result == InvalidArgument && out == out0 + f[..HeaderSize])
      && (|out0| + HeaderSize <= room && SelectorOf(dataFormat).Some? ==>
            && (result == Ok || result == WriteError)
            && (result == Ok <==> |out0| + |f| <= room)
            && out == out0 + f[..if |out0| + |f| <= room then |f| else room - |out0|])
    ensures (width == 0 || height == 0) && |out0| + HeaderSize <= room && SelectorOf(dataFormat).Some? ==>
      result == Ok && out == out0 + HeaderBytes(Layout(if hasAlpha then 4 else 3, width, height))
  {
    var L := Layout(if hasAlpha then 4 else 3, width, height);
    var header := HeaderBytes(L);
    ghost var f := BmpFile(L, pixels);
    if room - |out0| < HeaderSize {
      return WriteError, out0 + header[..room - |out0|];
    }
    out := out0 + header;
    if SelectorOf(dataFormat).None? {
      return InvalidArgument, out;
    }
    if hasAlpha {
      result, out := Write32bitPixels(out, room, width, height, pixels);
    } else {
      result, out := Write24bitPixels(out, room, width, height, pixels);
    }
    PrefixOfAppend(out0, header, PixelArray(L, pixels), Fitting(L, |out0| + HeaderSize, room));
  }

  /** Writing all of `a` and then a prefix of `b` writes a prefix of `a + b`. */
  lemma PrefixOfAppend(out0: seq<Byte>, a: seq<Byte>, b: seq<Byte>, k: nat)
    requires k <= |b|
    ensures out0 + a + b[..k] == out0 + (a + b)[..|a| + k]
  {
    assert a + b[..k] == (a + b)[..|a| + k];
  }

  /** The per-pixel extractors readBMP can bind to a channel buffer. */
  datatype Extractor =
    | NopExtractor
      /** redExtractor and its kin: the channel byte scaled to [0, 1]. */
    | RealChannel(ch: Channel)
      /** redByteExtractor and its kin: the channel byte itself. */
    | ByteChannel(ch: Channel)
    | HueReal | ChromaReal | LumaReal
    | HueByte | ChromaByte | LumaByte

  /** One value per channel buffer: red, green, blue and alpha. */
  datatype Channels<T> = Channels(r: T, g: T, b: T, a: T)

  /** The extractor switch of readBMP, followed by the replacement of the
      extractor of every channel the caller passed no buffer for. */
  function BindExtractors(format: DataFormat, requested: Channels<bool>): (x: Channels<Extractor>)
    requires format != DataNone
    ensures x.r == NopExtractor <==> !requested.r
    ensures x.g == NopExtractor <==> !requested.g
    ensures x.b == NopExtractor <==> !requested.b
    ensures x.a == NopExtractor <==> !requested.a
    ensures requested.a ==>
      x.a == if format == Rgb || format == Hcl then RealChannel(Alpha) else ByteChannel(Alpha)
    ensures format == RgbBytes ==>
      forall e :: e in [x.r, x.g, x.b, x.a] ==> e.NopExtractor? || e.ByteChannel?
  {
    var bound :=
      if format == Rgb then
        Channels(RealChannel(Red), RealChannel(Green), RealChannel(Blue), RealChannel(Alpha))
      else if format == Hcl then
        Channels(HueReal, ChromaReal, LumaReal, RealChannel(Alpha))
      else if format == RgbBytes then
        Channels(ByteChannel(Red), ByteChannel(Green), ByteChannel(Blue), ByteChannel(Alpha))
      else
        Channels(HueByte, ChromaByte, LumaByte, ByteChannel(Alpha));
    Channels(if requested.r then bound.r else NopExtractor,
             if requested.g then bound.g else NopExtractor,
             if requested.b then bound.b else NopExtractor,
             if requested.a then bound.a else NopExtractor)
  }

  /** Byte channels survive a write and a read of a 24-bit BMP: red, green
      and blue come back as written (packBytesRGB, then the RGB_BYTES
      extractors), and alpha reads as 0xff. */
  lemma RgbBytesRoundTrip(L: Layout, r: seq<Byte>, g: seq<Byte>, b: seq<Byte>, rest: seq<Byte>,
                          maxWidth: int, maxHeight: int, seekFails: bool)
    requires L.Valid() && L.bpp == 3 && L.width < 0x8000_0000 && L.height < 0x8000_0000
    requires L.TotalBytes() < 0x1_0000_0000
    requires |r| == |g| == |b| == L.PixelCount()
    requires L.width <= maxWidth && L.height <= maxHeight
    ensures var read := BmpRead(BmpFile(L, PackRgbChannels(r, g, b)) + rest, RgbBytes.Code(),
                                maxWidth, maxHeight, seekFails);
      var x := BindExtractors(RgbBytes, Channels(true, true, true, true));
      && read.Success?
      && x == Channels(ByteChannel(Red), ByteChannel(Green), ByteChannel(Blue), ByteChannel(Alpha))
      && ExtractChannel(Red, read.value.1) == r && ExtractChannel(Green, read.value.1) == g
      && ExtractChannel(Blue, read.value.1) == b
      && ExtractChannel(Alpha, read.value.1) == seq(|r|, _ => 0xff)
  {
    var words := PackRgbChannels(r, g, b);
    ReadWritten(L, words, rest, RgbBytes.Code(), maxWidth, maxHeight, seekFails);
    var back := seq(|words|, i requires 0 <= i < |words| => Stored(L, words[i]));
    forall i | 0 <= i < |words|
      ensures RedByte(back[i]) == r[i] && GreenByte(back[i]) == g[i] && BlueByte(back[i]) == b[i]
      ensures AlphaByte(back[i]) == 0xff
    {
      PackRgbRoundTrip(r[i], g[i], b[i]);
      ExtractAfterPack(r[i], g[i], b[i], 0xff);
      assert back[i] == PackBytesRgba(r[i], g[i], b[i], 0xff);
    }
  }

  /** Byte channels survive a write and a read of a 32-bit BMP, alpha
      included (packBytesRGBA, then the RGB_BYTES extractors). */
  lemma RgbaBytesRoundTrip(L: Layout, r: seq<Byte>, g: seq<Byte>, b: seq<Byte>, a: seq<Byte>,
                           rest: seq<Byte>, maxWidth: int, maxHeight: int, seekFails: bool)
    requires L.Valid() && L.bpp == 4 && L.width < 0x8000_0000 && L.height < 0x8000_0000
    requires L.TotalBytes() < 0x1_0000_0000
    requires |r| == |g| == |b| == |a| == L.PixelCount()
    requires L.width <= maxWidth && L.height <= maxHeight
    ensures var read := BmpRead(BmpFile(L, PackRgbaChannels(r, g, b, a)) + rest, RgbBytes.Code(),
                                maxWidth, maxHeight, seekFails);
      var x := BindExtractors(RgbBytes, Channels(true, true, true, true));
      && read.Success?
      && x == Channels(ByteChannel(Red), ByteChannel(Green), ByteChannel(Blue), ByteChannel(Alpha))
      && ExtractChannel(Red, read.value.1) == r && ExtractChannel(Green, read.value.1) == g
      && ExtractChannel(Blue, read.value.1) == b && ExtractChannel(Alpha, read.value.1) == a
  {
    var words := PackRgbaChannels(r, g, b, a);
    ReadWritten(L, words, rest, RgbBytes.Code(), maxWidth, maxHeight, seekFails);
    forall i | 0 <= i < |words|
      ensures RedByte(words[i]) == r[i] && GreenByte(words[i]) == g[i]
      ensures BlueByte(words[i]) == b[i] && AlphaByte(words[i]) == a[i]
    {
      ExtractAfterPack(r[i], g[i], b[i], a[i]);
    }
  }
}
