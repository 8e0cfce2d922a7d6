/** The four pixel loops of graphdll.cpp (read24bitPixels, read32bitPixels,
    write24bitPixels, write32bitPixels).  Each moves the pixel array through
    a buffer of PIXEL_BUFFER_SIZE bytes, one fread or fwrite per chunk, and
    never splits a pixel or a row's padding between two chunks.  The file
    being read is the byte sequence `file` with the read position at `pos`;
    the file being written is a device that has taken the bytes `out` and
    accepts `room` bytes in all.  A read loop yields the pixel words it hands
    to the extractors, in order; a write loop consumes the words the packer
    returns, in order. */
module PixelStream {
  import opened LittleEndian
  import opened CgTypes
  import opened RowLayout

  /** fread(buffer, 1, n, f) with the file position at `at`: copies the bytes
      that are there, at most `n`, and returns how many. */
  method ReadInto(buffer: array<Byte>, file: seq<Byte>, at: nat, n: nat) returns (got: nat)
    requires n <= buffer.Length
    modifies buffer
    ensures got == if at + n <= |file| then n else if at <= |file| then |file| - at else 0
    ensures forall j :: 0 <= j < got ==> buffer[j] == file[at + j]
  {
    got := if at + n <= |file| then n else if at <= |file| then |file| - at else 0;
    var j := 0;
    while j < got
      invariant 0 <= j <= got
      invariant forall k :: 0 <= k < j ==> buffer[k] == file[at + k]
    {
      buffer[j] := file[at + j];
      j := j + 1;
    }
  }

  /** fwrite(buffer, 1, n, f) on a device that has taken `out` and accepts
      `room` bytes in all: it takes what fits and reports how much. */
  method WriteFrom(buffer: array<Byte>, n: nat, out: seq<Byte>, room: nat)
      returns (written: nat, out': seq<Byte>)
    requires n <= buffer.Length
    ensures written == if |out| + n <= room then n else if |out| <= room then room - |out| else 0
    ensures out' == out + buffer[..written]
  {
    written := if |out| + n <= room then n else if |out| <= room then room - |out| else 0;
    out' := out + buffer[..written];
  }

  /** The extraction loops of read24bitPixels for one chunk of `bytesRead`
      bytes that starts at field (y0, col0) of the array at `pos`: every
      pixel of the chunk goes to the extractors, the padding is skipped. */
  method Extract24(buffer: array<Byte>, bytesRead: nat, width: nat, padBytesPerRow: nat,
                   columnIndex0: nat, pixels0: seq<Word>, ghost L: Layout, ghost file: seq<Byte>,
                   ghost pos: nat, ghost y0: nat, ghost col0: nat)
      returns (pixels: seq<Word>, ghost y: nat, ghost col: nat)
    requires L.Valid() && L.bpp == 3 && L.width == width && L.Pad() == padBytesPerRow
    requires L.FieldStart(y0, col0) && columnIndex0 == col0
    requires bytesRead <= buffer.Length && pos + L.Pos(y0, col0) + bytesRead <= |file|
    requires L.AtFieldStart(L.Pos(y0, col0) + bytesRead)
    requires forall j :: 0 <= j < bytesRead ==> buffer[j] == file[pos + L.Pos(y0, col0) + j]
    requires |pixels0| == L.Index(y0, col0) && DecodedPrefix(L, file, pos, pixels0)
    ensures L.FieldStart(y, col) && L.Pos(y, col) == L.Pos(y0, col0) + bytesRead
    ensures |pixels| == L.Index(y, col) && DecodedPrefix(L, file, pos, pixels)
  {
    ghost var t := L.Pos(y0, col0);
    ghost var endY, endCol := FieldOf(L, t + bytesRead);
    pixels, y, col := pixels0, y0, col0;
    var columnIndex := columnIndex0;
    var bytesExtracted := 0;
    while bytesExtracted < bytesRead
      invariant 0 <= bytesExtracted <= bytesRead
      invariant L.FieldStart(y, col) && t + bytesExtracted == L.Pos(y, col)
      invariant bytesExtracted < bytesRead ==> columnIndex == col
      invariant |pixels| == L.Index(y, col)
      invariant DecodedPrefix(L, file, pos, pixels)
      decreases bytesRead - bytesExtracted
    {
      ghost var extracted0, column0 := bytesExtracted, columnIndex;
      while columnIndex < width && bytesExtracted < bytesRead
        invariant column0 <= columnIndex == col <= width
        invariant bytesExtracted == extracted0 + 3 * (columnIndex - column0) <= bytesRead
        invariant t + bytesExtracted == L.Pos(y, col)
        invariant |pixels| == L.Index(y, col)
        invariant DecodedPrefix(L, file, pos, pixels)
        decreases width - columnIndex
      {
        FieldFits(L, y, col, endY, endCol);
        RowInImage(L, y, col);
        PixelAt(L, y, col);
        var pixel := Pixel24(buffer[bytesExtracted], buffer[bytesExtracted + 1], buffer[bytesExtracted + 2]);
        assert pixel == WordAt(L, file, pos + PixelOffset(L, |pixels|));
        pixels := pixels + [pixel];
        columnIndex := columnIndex + 1;
        bytesExtracted := bytesExtracted + 3;
        col := col + 1;
      }
      if padBytesPerRow > 0 && bytesExtracted < bytesRead {
        FieldFits(L, y, col, endY, endCol);
        bytesExtracted := bytesExtracted + padBytesPerRow;
        NextRow(L, y);
        y, col := y + 1, 0;
      } else if padBytesPerRow == 0 && col == width {
        NextRow(L, y);
        y, col := y + 1, 0;
      }
      columnIndex := 0;
    }
  }

  /** A chunk that holds the next bytes of `s` extends the prefix of `s`
      written so far. */
  lemma ChunkAppended(prefix: seq<Byte>, s: seq<Byte>, t: nat, chunk: seq<Byte>)
    requires t + |chunk| <= |s|
    requires forall j :: 0 <= j < |chunk| ==> chunk[j] == s[t + j]
    ensures prefix + s[..t] + chunk == prefix + s[..t + |chunk|]
  {
    assert s[..t] + chunk == s[..t + |chunk|];
  }

  /** read24bitPixels: reads the 24-bit pixel array at `pos` chunk by chunk.
      It succeeds exactly when the file holds the whole array, and then the
      words handed to the extractors are the decoded pixels in file order. */
  method Read24bitPixels(file: seq<Byte>, pos: nat, width: int, height: int)
      returns (result: CgResult, pixels: seq<Word>)
    requires 0 < width && 0 < height
    requires Layout(3, width, height).TotalBytes() < 0x1_0000_0000
    ensures result == Ok || result == ReadError
    ensures result == Ok <==> pos + Layout(3, width, height).TotalBytes() <= |file|
    ensures result == Ok ==> pixels == DecodePixels(Layout(3, width, height), file, pos)
  {
    var L := Layout(3, width, height);
    RowShape(L);
    Extent(L);
    var buffer := new Byte[PixelBufferSize];
    var pixelBytesPerRow := 3 * width;
    var padBytesPerRow := if pixelBytesPerRow % 4 == 0 then 0 else 4 - pixelBytesPerRow % 4;
    var bytesPerRow := pixelBytesPerRow + padBytesPerRow;
    var totalBytes := bytesPerRow * height;
    var totalBytesRead := 0;
    pixels := [];
    ghost var y: nat, col: nat := 0, 0;
    while totalBytesRead < totalBytes
      invariant L.FieldStart(y, col) && totalBytesRead == L.Pos(y, col) <= totalBytes
      invariant |pixels| == L.Index(y, col)
      invariant totalBytesRead == 0 || pos + totalBytesRead <= |file|
      invariant DecodedPrefix(L, file, pos, pixels)
      decreases totalBytes - totalBytesRead
    {
      var bytesRemaining := totalBytes - totalBytesRead;
      var rowByteIndex := totalBytesRead % bytesPerRow;
      var columnIndex := rowByteIndex / 3;
      PosSplit(L, y, col);
      var bytesToRead := if PixelBufferSize < bytesRemaining then PixelBufferSize else bytesRemaining;
      var newTotalBytesRead := totalBytesRead + bytesToRead;
      var newRowByteIndex := newTotalBytesRead % bytesPerRow;
      if newRowByteIndex < pixelBytesPerRow {
        bytesToRead := bytesToRead - newRowByteIndex % 3;
      } else {
        bytesToRead := bytesToRead - (newRowByteIndex - pixelBytesPerRow);
      }
      assert bytesToRead == ReadChunkLength(L, totalBytesRead);
      ReadChunkEnds(L, totalBytesRead);
      var bytesRead := ReadInto(buffer, file, pos + totalBytesRead, bytesToRead);
      if bytesRead != bytesToRead {
        result := ReadError;
        return;
      }
      pixels, y, col := Extract24(buffer, bytesRead, width, padBytesPerRow, columnIndex, pixels,
                                  L, file, pos, y, col);
      totalBytesRead := totalBytesRead + bytesRead;
    }
    PosSplit(L, y, col);
    PosSplit(L, height, 0);
    DecodedAll(L, file, pos, pixels);
    result := Ok;
  }

  /** The extraction loop of read32bitPixels for one chunk: every pixel of
      the chunk goes to the extractors. */
  method Extract32(buffer: array<Byte>, bytesRead: nat, width: nat,
                   columnIndex0: nat, pixels0: seq<Word>, ghost L: Layout, ghost file: seq<Byte>,
                   ghost pos: nat, ghost y0: nat, ghost col0: nat)
      returns (pixels: seq<Word>, ghost y: nat, ghost col: nat)
    requires L.Valid() && L.bpp == 4 && L.width == width
    requires L.FieldStart(y0, col0) && columnIndex0 == col0
    requires bytesRead <= buffer.Length && pos + L.Pos(y0, col0) + bytesRead <= |file|
    requires L.AtFieldStart(L.Pos(y0, col0) + bytesRead)
    requires forall j :: 0 <= j < bytesRead ==> buffer[j] == file[pos + L.Pos(y0, col0) + j]
    requires |pixels0| == L.Index(y0, col0) && DecodedPrefix(L, file, pos, pixels0)
    ensures L.FieldStart(y, col) && L.Pos(y, col) == L.Pos(y0, col0) + bytesRead
    ensures |pixels| == L.Index(y, col) && DecodedPrefix(L, file, pos, pixels)
  {
    RowShape(L);
    ghost var t := L.Pos(y0, col0);
    ghost var endY, endCol := FieldOf(L, t + bytesRead);
    pixels, y, col := pixels0, y0, col0;
    var columnIndex := columnIndex0;
    var bytesExtracted := 0;
    while bytesExtracted < bytesRead
      invariant 0 <= bytesExtracted <= bytesRead
      invariant L.FieldStart(y, col) && t + bytesExtracted == L.Pos(y, col)
      invariant bytesExtracted < bytesRead ==> columnIndex == col
      invariant |pixels| == L.Index(y, col)
      invariant DecodedPrefix(L, file, pos, pixels)
      decreases bytesRead - bytesExtracted
    {
      ghost var extracted0, column0 := bytesExtracted, columnIndex;
      while columnIndex < width && bytesExtracted < bytesRead
        invariant column0 <= columnIndex == col <= width
        invariant bytesExtracted == extracted0 + 4 * (columnIndex - column0) <= bytesRead
        invariant t + bytesExtracted == L.Pos(y, col)
        invariant |pixels| == L.Index(y, col)
        invariant DecodedPrefix(L, file, pos, pixels)
        decreases width - columnIndex
      {
        FieldFits(L, y, col, endY, endCol);
        RowInImage(L, y, col);
        PixelAt(L, y, col);
        var pixel := U32At(buffer[bytesExtracted..bytesExtracted + 4], 0);
        assert pixel == WordAt(L, file, pos + PixelOffset(L, |pixels|));
        pixels := pixels + [pixel];
        columnIndex := columnIndex + 1;
        bytesExtracted := bytesExtracted + 4;
        col := col + 1;
      }
      if col == width {
        NextRow(L, y);
        y, col := y + 1, 0;
      }
      columnIndex := 0;
    }
  }

  /** read32bitPixels: as read24bitPixels for 4-byte pixels and rows without
      padding; each word is the four bytes of its pixel. */
  method Read32bitPixels(file: seq<Byte>, pos: nat, width: int, height: int)
      returns (result: CgResult, pixels: seq<Word>)
    requires 0 < width && 0 < height
    requires Layout(4, width, height).TotalBytes() < 0x1_0000_0000
    ensures result == Ok || result == ReadError
    ensures result == Ok <==> pos + Layout(4, width, height).TotalBytes() <= |file|
    ensures result == Ok ==> pixels == DecodePixels(Layout(4, width, height), file, pos)
  {
    var L := Layout(4, width, height);
    RowShape(L);
    Extent(L);
    var buffer := new Byte[PixelBufferSize];
    var pixelBytesPerRow := 4 * width;
    var bytesPerRow := pixelBytesPerRow;
    var totalBytes := bytesPerRow * height;
    var totalBytesRead := 0;
    pixels := [];
    ghost var y: nat, col: nat := 0, 0;
    while totalBytesRead < totalBytes
      invariant L.FieldStart(y, col) && totalBytesRead == L.Pos(y, col) <= totalBytes
      invariant |pixels| == L.Index(y, col)
      invariant totalBytesRead == 0 || pos + totalBytesRead <= |file|
      invariant DecodedPrefix(L, file, pos, pixels)
      decreases totalBytes - totalBytesRead
    {
      var bytesRemaining := totalBytes - totalBytesRead;
      var rowByteIndex := totalBytesRead % bytesPerRow;
      var columnIndex := rowByteIndex / 4;
      PosSplit(L, y, col);
      var bytesToRead := if PixelBufferSize < bytesRemaining then PixelBufferSize else bytesRemaining;
      var newTotalBytesRead := totalBytesRead + bytesToRead;
      var newRowByteIndex := newTotalBytesRead % bytesPerRow;
      bytesToRead := bytesToRead - newRowByteIndex % 4;
      assert bytesToRead == ReadChunkLength(L, totalBytesRead);
      ReadChunkEnds(L, totalBytesRead);
      var bytesRead := ReadInto(buffer, file, pos + totalBytesRead, bytesToRead);
      if bytesRead != bytesToRead {
        result := ReadError;
        return;
      }
      pixels, y, col := Extract32(buffer, bytesRead, width, columnIndex, pixels, L, file, pos, y, col);
      totalBytesRead := totalBytesRead + bytesRead;
    }
    PosSplit(L, y, col);
    PosSplit(L, height, 0);
    DecodedAll(L, file, pos, pixels);
    result := Ok;
  }

  /** A pixel of a row that starts inside the array lies wholly inside it,
      and its bytes there are the packer's word, low byte first. */
  lemma PixelInRow(L: Layout, words: seq<Word>, y: nat, col: nat)
    requires L.Valid() && |words| == L.PixelCount()
    requires col < L.width && L.Pos(y, col) < L.TotalBytes()
    ensures L.Index(y, col) < |words| && L.Pos(y, col) + L.bpp <= L.TotalBytes()
    ensures L.Pos(y, col + 1) == L.Pos(y, col) + L.bpp && L.Index(y, col + 1) == L.Index(y, col) + 1
    ensures forall j :: 0 <= j < L.bpp ==>
      EncodePixels(L, words)[L.Pos(y, col) + j] == ByteOf(words[L.Index(y, col)], j)
  {
    RowInImage(L, y, col);
    PixelAt(L, y, col);
    forall j | 0 <= j < L.bpp
      ensures EncodePixels(L, words)[L.Pos(y, col) + j] == ByteOf(words[L.Index(y, col)], j)
    {
      EncodedPixel(L, words, y, col, j);
    }
  }

  /** Stores the low `n` bytes of a packed pixel at `b`, low byte first,
      as the buffering loops of write24bitPixels and write32bitPixels do. */
  method StoreWord(buffer: array<Byte>, b: nat, pixel: Word, n: nat)
    requires 3 <= n <= 4 && b + n <= buffer.Length
    modifies buffer
    ensures forall j :: 0 <= j < buffer.Length && !(b <= j < b + n) ==> buffer[j] == old(buffer[j])
    ensures buffer[b] == ByteOf(pixel, 0) && buffer[b + 1] == ByteOf(pixel, 1)
    ensures buffer[b + 2] == ByteOf(pixel, 2) && (n == 4 ==> buffer[b + 3] == ByteOf(pixel, 3))
  {
    buffer[b] := ByteOf(pixel, 0);
    buffer[b + 1] := ByteOf(pixel, 1);
    buffer[b + 2] := ByteOf(pixel, 2);
    if n == 4 {
      buffer[b + 3] := ByteOf(pixel, 3);
    }
  }

  /** The inner loop of write24bitPixels' buffering: the pixels of row `y`
      from column `columnIndex0` on are buffered, three bytes each, until the
      row ends or at least `maxBytesBuffered` bytes are buffered. */
  method BufferRow24(buffer: array<Byte>, maxBytesBuffered: nat, width: nat, columnIndex0: nat,
                     pixels: seq<Word>, next0: nat, buffered0: nat, ghost L: Layout,
                     ghost y: nat, ghost t: nat)
      returns (bytesBuffered: nat, next: nat, columnIndex: nat)
    requires L.Valid() && L.bpp == 3 && L.width == width && |pixels| == L.PixelCount()
    requires columnIndex0 <= width && next0 == L.Index(y, columnIndex0)
    requires buffer.Length == PixelBufferSize && maxBytesBuffered <= PixelBufferSize - 2
    requires t + buffered0 == L.Pos(y, columnIndex0) <= L.TotalBytes()
    requires buffered0 < maxBytesBuffered && t + maxBytesBuffered <= L.TotalBytes()
    modifies buffer
    ensures columnIndex0 <= columnIndex <= width
    ensures bytesBuffered == buffered0 + 3 * (columnIndex - columnIndex0)
    ensures bytesBuffered <= maxBytesBuffered + 2
    ensures columnIndex == width || maxBytesBuffered <= bytesBuffered
    ensures next == L.Index(y, columnIndex)
    ensures L.Pos(y, columnIndex) <= L.TotalBytes()
    ensures forall j :: 0 <= j < buffered0 ==> buffer[j] == old(buffer[j])
    ensures forall j :: buffered0 <= j < bytesBuffered ==>
      buffer[j] == EncodePixels(L, pixels)[t + j]
  {
    ghost var enc := EncodePixels(L, pixels);
    columnIndex, next, bytesBuffered := columnIndex0, next0, buffered0;
    while columnIndex < width && bytesBuffered < maxBytesBuffered
      invariant columnIndex0 <= columnIndex <= width
      invariant bytesBuffered == buffered0 + 3 * (columnIndex - columnIndex0) <= maxBytesBuffered + 2
      invariant t + bytesBuffered == L.Pos(y, columnIndex) <= L.TotalBytes()
      invariant next == L.Index(y, columnIndex)
      invariant forall j :: 0 <= j < buffered0 ==> buffer[j] == old(buffer[j])
      invariant forall j :: buffered0 <= j < bytesBuffered ==> buffer[j] == enc[t + j]
      decreases width - columnIndex
    {
      PixelInRow(L, pixels, y, columnIndex);
      var pixel := pixels[next];
      next := next + 1;
      ghost var b := bytesBuffered;
      assert enc[t + b] == ByteOf(pixel, 0) && enc[t + b + 1] == ByteOf(pixel, 1);
      assert enc[t + b + 2] == ByteOf(pixel, 2);
      StoreWord(buffer, bytesBuffered, pixel, 3);
      assert forall j :: b <= j < b + 3 ==> buffer[j] == enc[t + j];
      columnIndex := columnIndex + 1;
      bytesBuffered := bytesBuffered + 3;
    }
  }

  /** The buffering loops of write24bitPixels for one chunk: starting at
      field (y0, col0), pixels from the packer (the words from `next0` on)
      and zero padding are buffered until at least `maxBytesBuffered` bytes
      are; the buffer then holds the next bytes of the encoded array. */
  method Buffer24(buffer: array<Byte>, maxBytesBuffered: nat, width: nat, padBytesPerRow: nat,
                  columnIndex0: nat, pixels: seq<Word>, next0: nat, ghost L: Layout,
                  ghost y0: nat, ghost col0: nat)
      returns (bytesBuffered: nat, next: nat, ghost y: nat, ghost col: nat)
    requires L.Valid() && L.bpp == 3 && L.width == width && L.Pad() == padBytesPerRow
    requires |pixels| == L.PixelCount()
    requires L.FieldStart(y0, col0) && columnIndex0 == col0 && next0 == L.Index(y0, col0)
    requires buffer.Length == PixelBufferSize && 0 < maxBytesBuffered <= PixelBufferSize - 2
    requires L.Pos(y0, col0) + maxBytesBuffered <= L.TotalBytes()
    modifies buffer
    ensures maxBytesBuffered <= bytesBuffered <= maxBytesBuffered + 2
    ensures L.FieldStart(y, col) && L.Pos(y, col) == L.Pos(y0, col0) + bytesBuffered <= L.TotalBytes()
    ensures next == L.Index(y, col)
    ensures forall j :: 0 <= j < bytesBuffered ==>
      buffer[j] == EncodePixels(L, pixels)[L.Pos(y0, col0) + j]
  {
    ghost var t := L.Pos(y0, col0);
    ghost var enc := EncodePixels(L, pixels);
    Extent(L);
    y, col, next := y0, col0, next0;
    var columnIndex := columnIndex0;
    bytesBuffered := 0;
    while bytesBuffered < maxBytesBuffered
      invariant 0 <= bytesBuffered <= maxBytesBuffered + 2
      invariant L.FieldStart(y, col) && t + bytesBuffered == L.Pos(y, col) <= L.TotalBytes()
      invariant bytesBuffered < maxBytesBuffered ==> columnIndex == col
      invariant next == L.Index(y, col)
      invariant forall j :: 0 <= j < bytesBuffered ==> buffer[j] == enc[t + j]
      decreases maxBytesBuffered - bytesBuffered
    {
      bytesBuffered, next, columnIndex := BufferRow24(buffer, maxBytesBuffered, width, columnIndex,
                                                      pixels, next, bytesBuffered, L, y, t);
      col := columnIndex;
      if padBytesPerRow > 0 && bytesBuffered < maxBytesBuffered {
        FieldFits(L, y, col, L.height, 0);
        RowInImage(L, y, col);
        forall j | bytesBuffered <= j < bytesBuffered + padBytesPerRow {
          buffer[j] := 0;
        }
        forall o | t + bytesBuffered <= o < t + bytesBuffered + padBytesPerRow
          ensures enc[o] == 0
        {
          EncodedPad(L, pixels, y, o - (t + bytesBuffered));
        }
        bytesBuffered := bytesBuffered + padBytesPerRow;
        NextRow(L, y);
        y, col := y + 1, 0;
      } else if padBytesPerRow == 0 && col == width {
        NextRow(L, y);
        y, col := y + 1, 0;
      }
      columnIndex := 0;
    }
  }

  /** write24bitPixels: writes the 24-bit pixel array for the packed words
      `pixels` chunk by chunk.  The device receives exactly the encoded array
      or, when it runs out of room, the part of it that fit; the result is OK
      exactly when all of it fit.  An image with no columns or no rows has
      an empty array: the loop never runs and the result is OK. */
  method Write24bitPixels(out0: seq<Byte>, room: nat, width: int, height: int, pixels: seq<Word>)
      returns (result: CgResult, out: seq<Byte>)
    requires 0 <= width && 0 <= height && |pixels| == width * height
    requires Layout(3, width, height).TotalBytes() < 0x1_0000_0000
    requires |out0| <= room
    ensures result == Ok || result == WriteError
    ensures result == Ok <==> |out0| + Layout(3, width, height).TotalBytes() <= room
    ensures width == 0 || height == 0 ==> result == Ok && out == out0
    ensures out == out0 + PixelArray(Layout(3, width, height), pixels)[..Fitting(Layout(3, width, height), |out0|, room)]
  {
    var L := Layout(3, width, height);
    EmptyLayout(L);
    if L.Valid() {
      RowShape(L);
      Extent(L);
    }
    ghost var enc := PixelArray(L, pixels);
    var buffer := new Byte[PixelBufferSize];
    var pixelBytesPerRow := 3 * width;
    var padBytesPerRow := if pixelBytesPerRow % 4 == 0 then 0 else 4 - pixelBytesPerRow % 4;
    var bytesPerRow := pixelBytesPerRow + padBytesPerRow;
    var totalBytes := bytesPerRow * height;
    var totalBytesWritten := 0;
    var next := 0;
    out := out0;
    ghost var y: nat, col: nat := 0, 0;
    while totalBytesWritten < totalBytes
      invariant totalBytesWritten <= totalBytes
      invariant 0 < totalBytes ==> L.FieldStart(y, col) && totalBytesWritten == L.Pos(y, col)
      invariant 0 < totalBytes ==> next == L.Index(y, col)
      invariant out == out0 + enc[..totalBytesWritten] && |out0| + totalBytesWritten <= room
      decreases totalBytes - totalBytesWritten
    {
      var bytesRemaining := totalBytes - totalBytesWritten;
      var maxBytesBuffered := if PixelBufferSize - 2 < bytesRemaining then PixelBufferSize - 2 else bytesRemaining;
      var columnIndex := (totalBytesWritten % bytesPerRow) / 3;
      PosSplit(L, y, col);
      var bytesBuffered;
      bytesBuffered, next, y, col := Buffer24(buffer, maxBytesBuffered, width, padBytesPerRow,
                                              columnIndex, pixels, next, L, y, col);
      var bytesWritten, out' := WriteFrom(buffer, bytesBuffered, out, room);
      ChunkAppended(out0, enc, totalBytesWritten, buffer[..bytesWritten]);
      out := out';
      if bytesWritten != bytesBuffered {
        result := WriteError;
        return;
      }
      totalBytesWritten := totalBytesWritten + bytesWritten;
    }
    result := Ok;
  }

  /** The inner loop of write32bitPixels' buffering: the pixels of row `y`
      from column `columnIndex0` on are buffered, four bytes each, until the
      row ends or at least `maxBytesBuffered` bytes are buffered. */
  method BufferRow32(buffer: array<Byte>, maxBytesBuffered: nat, width: nat, columnIndex0: nat,
                     pixels: seq<Word>, next0: nat, buffered0: nat, ghost L: Layout,
                     ghost y: nat, ghost t: nat)
      returns (bytesBuffered: nat, next: nat, columnIndex: nat)
    requires L.Valid() && L.bpp == 4 && L.width == width && |pixels| == L.PixelCount()
    requires columnIndex0 <= width && next0 == L.Index(y, columnIndex0)
    requires buffer.Length == PixelBufferSize && maxBytesBuffered <= PixelBufferSize - 3
    requires t + buffered0 == L.Pos(y, columnIndex0) <= L.TotalBytes()
    requires buffered0 < maxBytesBuffered && t + maxBytesBuffered <= L.TotalBytes()
    modifies buffer
    ensures columnIndex0 <= columnIndex <= width
    ensures bytesBuffered == buffered0 + 4 * (columnIndex - columnIndex0)
    ensures bytesBuffered <= maxBytesBuffered + 3
    ensures columnIndex == width || maxBytesBuffered <= bytesBuffered
    ensures next == L.Index(y, columnIndex)
    ensures L.Pos(y, columnIndex) <= L.TotalBytes()
    ensures forall j :: 0 <= j < buffered0 ==> buffer[j] == old(buffer[j])
    ensures forall j :: buffered0 <= j < bytesBuffered ==>
      buffer[j] == EncodePixels(L, pixels)[t + j]
  {
    ghost var enc := EncodePixels(L, pixels);
    columnIndex, next, bytesBuffered := columnIndex0, next0, buffered0;
    while columnIndex < width && bytesBuffered < maxBytesBuffered
      invariant columnIndex0 <= columnIndex <= width
      invariant bytesBuffered == buffered0 + 4 * (columnIndex - columnIndex0) <= maxBytesBuffered + 3
      invariant t + bytesBuffered == L.Pos(y, columnIndex) <= L.TotalBytes()
      invariant next == L.Index(y, columnIndex)
      invariant forall j :: 0 <= j < buffered0 ==> buffer[j] == old(buffer[j])
      invariant forall j :: buffered0 <= j < bytesBuffered ==> buffer[j] == enc[t + j]
      decreases width - columnIndex
    {
      PixelInRow(L, pixels, y, columnIndex);
      var pixel := pixels[next];
      next := next + 1;
      ghost var b := bytesBuffered;
      assert enc[t + b] == ByteOf(pixel, 0) && enc[t + b + 1] == ByteOf(pixel, 1);
      assert enc[t + b + 2] == ByteOf(pixel, 2) && enc[t + b + 3] == ByteOf(pixel, 3);
      StoreWord(buffer, bytesBuffered, pixel, 4);
      columnIndex := columnIndex + 1;
      bytesBuffered := bytesBuffered + 4;
      assert forall j :: b <= j < bytesBuffered ==> buffer[j] == enc[t + j];
    }
  }

  /** The buffering loop of write32bitPixels for one chunk: whole pixels
      from the packer are buffered until at least `maxBytesBuffered` bytes
      are. */
  method Buffer32(buffer: array<Byte>, maxBytesBuffered: nat, width: nat,
                  columnIndex0: nat, pixels: seq<Word>, next0: nat, ghost L: Layout,
                  ghost y0: nat, ghost col0: nat)
      returns (bytesBuffered: nat, next: nat, ghost y: nat, ghost col: nat)
    requires L.Valid() && L.bpp == 4 && L.width == width
    requires |pixels| == L.PixelCount()
    requires L.FieldStart(y0, col0) && columnIndex0 == col0 && next0 == L.Index(y0, col0)
    requires buffer.Length == PixelBufferSize && 0 < maxBytesBuffered <= PixelBufferSize - 3
    requires L.Pos(y0, col0) + maxBytesBuffered <= L.TotalBytes()
    modifies buffer
    ensures maxBytesBuffered <= bytesBuffered <= maxBytesBuffered + 3
    ensures L.FieldStart(y, col) && L.Pos(y, col) == L.Pos(y0, col0) + bytesBuffered <= L.TotalBytes()
    ensures next == L.Index(y, col)
    ensures forall j :: 0 <= j < bytesBuffered ==>
      buffer[j] == EncodePixels(L, pixels)[L.Pos(y0, col0) + j]
  {
    ghost var t := L.Pos(y0, col0);
    ghost var enc := EncodePixels(L, pixels);
    RowShape(L);
    Extent(L);
    y, col, next := y0, col0, next0;
    var columnIndex := columnIndex0;
    bytesBuffered := 0;
    while bytesBuffered < maxBytesBuffered
      invariant 0 <= bytesBuffered <= maxBytesBuffered + 3
      invariant L.FieldStart(y, col) && t + bytesBuffered == L.Pos(y, col) <= L.TotalBytes()
      invariant bytesBuffered < maxBytesBuffered ==> columnIndex == col
      invariant next == L.Index(y, col)
      invariant forall j :: 0 <= j < bytesBuffered ==> buffer[j] == enc[t + j]
      decreases maxBytesBuffered - bytesBuffered
    {
      bytesBuffered, next, columnIndex := BufferRow32(buffer, maxBytesBuffered, width, columnIndex,
                                                      pixels, next, bytesBuffered, L, y, t);
      col := columnIndex;
      if col == width {
        NextRow(L, y);
        y, col := y + 1, 0;
      }
      columnIndex := 0;
    }
  }

  /** write32bitPixels: as write24bitPixels for 4-byte pixels and rows
      without padding. */
  method Write32bitPixels(out0: seq<Byte>, room: nat, width: int, height: int, pixels: seq<Word>)
      returns (result: CgResult, out: seq<Byte>)
    requires 0 <= width && 0 <= height && |pixels| == width * height
    requires Layout(4, width, height).TotalBytes() < 0x1_0000_0000
    requires |out0| <= room
    ensures result == Ok || result == WriteError
    ensures result == Ok <==> |out0| + Layout(4, width, height).TotalBytes() <= room
    ensures width == 0 || height == 0 ==> result == Ok && out == out0
    ensures out == out0 + PixelArray(Layout(4, width, height), pixels)[..Fitting(Layout(4, width, height), |out0|, room)]
  {
    var L := Layout(4, width, height);
    EmptyLayout(L);
    if L.Valid() {
      RowShape(L);
      Extent(L);
    }
    ghost var enc := PixelArray(L, pixels);
    var buffer := new Byte[PixelBufferSize];
    var pixelBytesPerRow := 4 * width;
    var bytesPerRow := pixelBytesPerRow;
    var totalBytes := bytesPerRow * height;
    var totalBytesWritten := 0;
    var next := 0;
    out := out0;
    ghost var y: nat, col: nat := 0, 0;
    while totalBytesWritten < totalBytes
      invariant totalBytesWritten <= totalBytes
      invariant 0 < totalBytes ==> L.FieldStart(y, col) && totalBytesWritten == L.Pos(y, col)
      invariant 0 < totalBytes ==> next == L.Index(y, col)
      invariant out == out0 + enc[..totalBytesWritten] && |out0| + totalBytesWritten <= room
      decreases totalBytes - totalBytesWritten
    {
      var bytesRemaining := totalBytes - totalBytesWritten;
      var maxBytesBuffered := if PixelBufferSize - 3 < bytesRemaining then PixelBufferSize - 3 else bytesRemaining;
      var columnIndex := (totalBytesWritten % bytesPerRow) / 4;
      PosSplit(L, y, col);
      var bytesBuffered;
      bytesBuffered, next, y, col := Buffer32(buffer, maxBytesBuffered, width,
                                              columnIndex, pixels, next, L, y, col);
      var bytesWritten, out' := WriteFrom(buffer, bytesBuffered, out, room);
      ChunkAppended(out0, enc, totalBytesWritten, buffer[..bytesWritten]);
      out := out';
      if bytesWritten != bytesBuffered {
        result := WriteError;
        return;
      }
      totalBytesWritten := totalBytesWritten + bytesWritten;
    }
    result := Ok;
  }
}
