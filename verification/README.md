# graphics_demo image core in Dafny

This project models the integer and byte core of the `graphics_demo`
image library.

- **Public header** (`graphdll.hpp`): result codes, container and
  data-format selectors, and the pixel-index convention.
- **BMP codec** (`graphdll.cpp`):
  - choosing a container from a path (`getExtension`, `getImageFormat`);
  - parsing and writing the 54-byte BITMAPFILEHEADER/BITMAPINFOHEADER
    pair (`readBMP`, `writeBMP`);
  - streaming 24- and 32-bit pixel rows through a 4096-byte buffer, with
    rows padded to four bytes (`read24bitPixels`, `read32bitPixels`,
    `write24bitPixels`, `write32bitPixels`);
  - the byte channel extractors and packers, `minMax3`, and the integer
    part of the hue and chroma extractors;
  - the result-code logic of `readImage` and `writeImage`.
- **Histogram equalisation** (`leveleq.cpp`): `equalizeLevels`, which
  rewrites an 8-bit channel in place so that every level holds `n / 256`
  or `n / 256 + 1` of the `n` pixels. It keeps the order of levels, and
  within one source level an earlier pixel never gets a lower target than
  a later one, because each level's stack is popped from its top.

How the model is built:

- A file is a byte sequence. Reads consume it from a cursor, and a short
  read is the end of the data.
- A written file is a sequence of bytes that a device accepts up to
  `room` bytes. It then refuses the rest, which is the short write.
- The pixel loops keep the source's buffer as an `array<Byte>`, and its
  while loops are methods with invariants. Each loop is proved against a
  specification function:
  - `RowLayout.DecodePixels` for the readers;
  - `RowLayout.EncodePixels` for the writers.

  `RowLayout.DecodeEncode` proves these two are inverse, up to the opaque
  alpha byte that a 24-bit read adds.
- `equalizeLevels` is imperative over arrays: the level counters, the
  target capacities, the 256 stacks of `(count, level)` entries and the
  pixels. `LevelEq.EqualizeLevels` is proved to leave the pixels equal to
  `LevelEq.Equalized` of their old contents. That function is a
  closed-form reference: the pixel of rank `k` in (level, reverse scan)
  order goes to the level whose capacity band contains `k`. Within a
  level, the first pixel in scan order takes the highest rank of the
  level's block. The lemmas about
  it prove:
  - the exact target histogram;
  - monotonicity in the source level;
  - that within a level, targets never increase in scan order;
  - idempotence.

Behaviour of the code worth noting:

- A failing `fclose` replaces whatever result the codec had produced,
  including an earlier error.
- Only the extensions/types `bmp`, `Bmp` and `BMP` select the BMP
  container. Other capitalisations select none.
- `equalizeLevels` as written can move its target cursor past the last
  of the 256 capacities (see Findings). The model keeps the cursor on the
  last level.

## Model

| member | source | states |
|---|---|---|
| CgTypes.CodesDistinct | graphics_demo/graphdll.hpp:47-65 | OK is code 0, every other result is negative, and no two results share a code |
| CgTypes.ResultOfCode | graphics_demo/graphdll.hpp:47-65 | an integer maps back to the one result carrying that code, and to none when no result has it |
| CgTypes.SelectorOf | graphics_demo/graphdll.hpp:73-79 | a data-format code is accepted exactly when it is 1 to 4, and then names the format with that code, never NONE |
| CgTypes.SelectorRoundTrip | graphics_demo/graphdll.hpp:73-79 | every format except NONE is accepted under its own code; NONE is refused |
| CgTypes.PixelIndexBijective | graphics_demo/graphdll.hpp:81-84 | index `x + W*y` of a pixel in a W-by-H image lies in `0 .. W*H-1`, and column and row come back as index mod W and div W |
| LittleEndian.U16At | graphics_demo/graphdll.cpp:541-544 | a 2-byte little-endian field read from the file is below 2^16 |
| LittleEndian.I32At | graphics_demo/graphdll.cpp:565-577 | a 4-byte field read into a signed int is in the 32-bit range and is non-negative exactly when its unsigned reading is below 2^31 |
| LittleEndian.U16Bytes | graphics_demo/graphdll.cpp:834-842 | writing a 16-bit field then reading it back gives the value |
| LittleEndian.U32Bytes | graphics_demo/graphdll.cpp:805-824 | the 4 bytes written for a 32-bit field are its bytes, lowest first, and read back as the value |
| LittleEndian.I32Bytes | graphics_demo/graphdll.cpp:826-832 | a signed width or height written as 4 bytes reads back as the same signed value |
| LittleEndian.ByteSum | graphics_demo/graphdll.cpp:507-508 | a pixel word is the sum of its four bytes, lowest first, which is what memcpy of 4 bytes reconstructs |
| LittleEndian.U32AtAppend | graphics_demo/graphdll.cpp:541-613 | a field read at an offset past a prefix is the field of the rest at the shifted offset |
| PixelCodec.MinMax3 | graphics_demo/graphdll.cpp:60-80 | the first result is the minimum and the second the maximum of the three values, each one of them |
| PixelCodec.ExtractAfterPack | graphics_demo/graphdll.cpp:188-210 | the red, green, blue and alpha byte extractors return the bytes packBytesRGBA packed |
| PixelCodec.PackAfterExtract | graphics_demo/graphdll.cpp:354-364 | packBytesRGBA of a word's four extracted bytes is the word again |
| PixelCodec.PackRgbRoundTrip | graphics_demo/graphdll.cpp:309-316 | packBytesRGB returns its red, green and blue to the extractors and has alpha 0 |
| PixelCodec.CRem | graphics_demo/graphdll.cpp:225-226 | C's `%`: the usual remainder for a non-negative dividend, and in `(-b, 0]` for a negative one |
| PixelCodec.Chroma | graphics_demo/graphdll.cpp:238-247 | chroma is max minus min of the RGB bytes, in 0..255, and 0 exactly for a grey pixel |
| PixelCodec.HueOf | graphics_demo/graphdll.cpp:212-236 | hue is undefined exactly for a grey pixel; otherwise its numerator lies in `[0, 6c)` over the chroma c |
| PixelCodec.HueSectors | graphics_demo/graphdll.cpp:219-230 | the hue numerator lies in the sector of the largest channel: red `[0,c]` or `[5c,6c)`, green `[c,3c]`, blue `[3c,5c]` |
| PixelCodec.ExtractChannel | graphics_demo/graphdll.cpp:436-448 | a channel buffer has one byte per pixel word, the word's channel byte, in arrival order |
| PixelCodec.PackRgbChannels | graphics_demo/graphdll.cpp:309-316 | one packed word per pixel, built from the three channel bytes at the same index |
| PixelCodec.PackRgbaChannels | graphics_demo/graphdll.cpp:354-364 | one packed word per pixel, built from the four channel bytes at the same index |
| RowLayout.PadBytes | graphics_demo/graphdll.cpp:406-408 | pad is below 4, pads the row to a multiple of 4, and is 0 exactly when the row already is one |
| RowLayout.RowShape | graphics_demo/graphdll.cpp:477-478 | a row holds its pixel bytes plus at most 3 pad bytes, and 32-bit rows have no padding |
| RowLayout.TotalMonotone | graphics_demo/graphdll.cpp:406-409 | the bitmap size grows with bytes per pixel, width and height, so the maximal-dimension bound covers every admitted image |
| RowLayout.DecodePixels | graphics_demo/graphdll.cpp:396-465 | decoding a bitmap yields one word per pixel, in file order |
| RowLayout.DecodedAll | graphics_demo/graphdll.cpp:433-459 | words decoded chunk by chunk that cover every pixel are the decoding of the whole bitmap |
| RowLayout.DecodeAfter | graphics_demo/graphdll.cpp:618-622 | the decoding of a bitmap does not depend on the bytes before or after it |
| RowLayout.EncodePixels | graphics_demo/graphdll.cpp:676-731 | encoding yields exactly the bitmap size in bytes |
| RowLayout.EmptyLayout | graphics_demo/graphdll.cpp:685-688 | the bitmap size is 0 exactly when the width or the height is 0 |
| RowLayout.PixelArray | graphics_demo/graphdll.cpp:685-692 | the array the writers emit has the bitmap size, and is the encoding whenever the image has pixels |
| RowLayout.EncodedPixel | graphics_demo/graphdll.cpp:700-706 | byte j of pixel (y, col) in the encoding is byte j of that pixel's word |
| RowLayout.EncodedPad | graphics_demo/graphdll.cpp:709-712 | every pad byte of the encoding is 0 |
| RowLayout.DecodedPixelAt | graphics_demo/graphdll.cpp:439-440 | the word decoded at a pixel's offset is the word written there, with alpha forced to 0xff in 24-bit files |
| RowLayout.DecodeEncode | graphics_demo/graphdll.cpp:396-465 | decoding the encoding of a pixel sequence returns each word as stored: whole for 32-bit, with alpha 0xff for 24-bit |
| RowLayout.Fitting | graphics_demo/graphdll.cpp:718-722 | the bytes a device of limited room accepts are the whole bitmap or exactly the room left |
| RowLayout.ReadChunkEnds | graphics_demo/graphdll.cpp:416-429 | each read chunk is non-empty, at most 4096 bytes, and ends on a field boundary, never inside a pixel or a pad |
| RowLayout.CutInPixels | graphics_demo/graphdll.cpp:426-427 | an end inside a row's pixels, cut back to a multiple of 3, is a pixel boundary |
| RowLayout.CutInPad | graphics_demo/graphdll.cpp:428-429 | an end inside a row's padding, cut back to the start of the pad, is a field boundary, and only 24-bit rows have padding |
| PixelStream.ReadInto | graphics_demo/graphdll.cpp:431 | fread: the bytes that remain, up to the request, land in the buffer |
| PixelStream.WriteFrom | graphics_demo/graphdll.cpp:718 | fwrite: the device takes the buffer up to its remaining room |
| PixelStream.Extract24 | graphics_demo/graphdll.cpp:436-456 | extracting a chunk of whole fields moves the (row, column) cursor exactly over the chunk and appends the decoding of every pixel in it |
| PixelStream.ChunkAppended | graphics_demo/graphdll.cpp:431-458 | the bytes read so far followed by the new chunk are the next prefix of the file |
| PixelStream.Read24bitPixels | graphics_demo/graphdll.cpp:396-465 | OK exactly when the file holds the whole bitmap, which is then decoded; otherwise READ_ERROR |
| PixelStream.Extract32 | graphics_demo/graphdll.cpp:503-519 | as Extract24 for 4-byte pixels and unpadded rows |
| PixelStream.Read32bitPixels | graphics_demo/graphdll.cpp:467-530 | OK exactly when the file holds the whole bitmap, which is then decoded; otherwise READ_ERROR |
| PixelStream.BufferRow24 | graphics_demo/graphdll.cpp:701-707 | the inner loop fills the buffer with the encoding of the row's next pixels and stops at the row end or the buffer limit |
| PixelStream.Buffer24 | graphics_demo/graphdll.cpp:692-716 | one buffer holds the next 4094 to 4096 bytes of the encoding (or all that remain) and ends on a field boundary |
| PixelStream.Write24bitPixels | graphics_demo/graphdll.cpp:676-731 | the device receives the longest prefix of the encoding that fits, and the result is OK exactly when all of it fits, else WRITE_ERROR; a width or height of 0 writes nothing and is OK |
| PixelStream.BufferRow32 | graphics_demo/graphdll.cpp:757-763 | as BufferRow24 for 4-byte pixels |
| PixelStream.Buffer32 | graphics_demo/graphdll.cpp:748-767 | one buffer holds the next 4093 to 4096 bytes of the encoding (or all that remain) |
| PixelStream.Write32bitPixels | graphics_demo/graphdll.cpp:733-782 | the device receives the longest prefix of the encoding that fits, and the result is OK exactly when all of it fits, else WRITE_ERROR; a width or height of 0 writes nothing and is OK |
| BmpCodec.ParseHeader | graphics_demo/graphdll.cpp:541-613 | INVALID_FORMAT exactly when the file header or magic "BM" is missing; BAD_DIMENSION exactly when, after a valid magic and a 40-byte info header, the positive width exceeds its maximum or the positive height that follows does, whatever the later fields hold; success exactly for a 54-byte header with a 40-byte info header, positive dimensions within bounds, 24 or 32 bits and no compression, and then the header carries those fields |
| BmpCodec.HeaderBytes | graphics_demo/graphdll.cpp:801-871 | the written header is 54 bytes |
| BmpCodec.FileHeaderFields | graphics_demo/graphdll.cpp:801-819 | the file header holds "BM", the file size 54 + bitmap size, zero reserved fields and the pixel offset 54 |
| BmpCodec.InfoHeaderFields | graphics_demo/graphdll.cpp:820-847 | the info header holds size 40, the width, the height, 1 plane, 8 times the bytes per pixel and no compression |
| BmpCodec.SizeFields | graphics_demo/graphdll.cpp:849-871 | the info header holds the bitmap size, 4000 pixels per metre both ways, and zero palette and important-colour counts |
| BmpCodec.PixelStart | graphics_demo/graphdll.cpp:616-622 | pixels start at the header's offset when it is above 54, and right after the header otherwise |
| BmpCodec.BmpRead | graphics_demo/graphdll.cpp:532-672 | readBMP's outcome: a failure carries one of the header, seek, argument or read errors; a success carries the parsed header, an accepted data format and one word per pixel |
| BmpCodec.ReadBmp | graphics_demo/graphdll.cpp:532-672 | the method reports the outcome BmpRead specifies, with the header and pixels on success |
| BmpCodec.ReadWritten | graphics_demo/graphdll.cpp:786-912 | reading back a file writeBMP produced succeeds with the written dimensions and the stored form of every written word |
| BmpCodec.BmpFile | graphics_demo/graphdll.cpp:786-912 | the file writeBMP produces is 54 + bitmap size bytes: the header, then the encoding; with no columns or no rows, the header alone |
| BmpCodec.WriteBmp | graphics_demo/graphdll.cpp:786-912 | a short header write is WRITE_ERROR; an unknown data format is INVALID_ARGUMENT after the whole header is written; otherwise OK exactly when the whole file fits; the output is always the prefix of the file that was written; a width or height of 0 is written as the header alone, with OK |
| BmpCodec.PrefixOfAppend | graphics_demo/graphdll.cpp:900-908 | header then a prefix of the pixels is a prefix of the whole file |
| BmpCodec.BindExtractors | graphics_demo/graphdll.cpp:626-658 | a channel gets the no-op extractor exactly when its buffer is absent; a present alpha buffer always gets an alpha extractor; RGB_BYTES binds only byte extractors |
| BmpCodec.RgbBytesRoundTrip | graphics_demo/graphdll.cpp:786-912 | the RGB_BYTES switch binds the four byte extractors, and channels packed by packBytesRGB into a 24-bit file read back through them as the same red, green and blue, and alpha 0xff |
| BmpCodec.RgbaBytesRoundTrip | graphics_demo/graphdll.cpp:786-912 | the RGB_BYTES switch binds the four byte extractors, and channels packed by packBytesRGBA into a 32-bit file read back through them as the same four channels |
| ImageIo.LastDot | graphics_demo/graphdll.cpp:139 | find_last_of: the index of a dot with no dot after it, and none exactly when the path has no dot |
| ImageIo.GetExtension | graphics_demo/graphdll.cpp:136-144 | the extension is dot-free; it is empty exactly when the path has no dot or ends with one; otherwise it is the suffix after the last dot |
| ImageIo.ExtensionOfName | graphics_demo/graphdll.cpp:136-144 | a stem, a dot and a dot-free extension give back that extension, whatever dots the stem holds |
| ImageIo.GetImageFormat | graphics_demo/graphdll.cpp:146-158 | BMP exactly when the type, or the extension if the type is empty, is bmp, Bmp or BMP |
| ImageIo.NeverRaw | graphics_demo/graphdll.cpp:146-158 | the RAW container is never selected |
| ImageIo.FormatFromName | graphics_demo/graphdll.cpp:146-158 | with no type the extension decides, and an explicit type overrides the extension |
| ImageIo.ReadImage | graphics_demo/graphdll.cpp:914-945 | UNSUPPORTED_FORMAT before opening an unknown container; FOPEN_FAILED; FCLOSE_FAILED overriding any result; otherwise readBMP's result, header and pixels |
| ImageIo.WriteImage | graphics_demo/graphdll.cpp:947-978 | as ReadImage around writeBMP; nothing is written for an unknown container or an unopened file; any width and height from 0 up are accepted |
| LevelEq.CountLevels | graphics_demo/leveleq.cpp:55-59 | the counter of each level is the number of pixels at that level |
| LevelEq.TargetCapacities | graphics_demo/leveleq.cpp:61-66 | the capacities are n/256 plus one for the first n mod 256 levels, and the cursor starts at level 0 |
| LevelEq.CapacitiesTotal | graphics_demo/leveleq.cpp:61-66 | the 256 capacities add up to the number of pixels |
| LevelEq.CapSumClosed | graphics_demo/leveleq.cpp:61-66 | the running sum of capacities has the closed form used for the bands |
| LevelEq.CapMonotone | graphics_demo/leveleq.cpp:65-66 | the running sum of capacities never decreases |
| LevelEq.CapBelowTotal | graphics_demo/leveleq.cpp:65-66 | the running sum of capacities is at most the number of pixels |
| LevelEq.CapPositive | graphics_demo/leveleq.cpp:73-84 | a level below which fewer than n slots lie has room, so the cursor can stop on it |
| LevelEq.TargetOfRank | graphics_demo/leveleq.cpp:69-85 | the pixel of rank k goes to the level whose capacity band contains k |
| LevelEq.SlotUnique | graphics_demo/leveleq.cpp:69-85 | the capacity bands are disjoint, so that level is unique |
| LevelEq.TargetMonotone | graphics_demo/leveleq.cpp:69-85 | a higher rank never goes to a lower level |
| LevelEq.ShortBands | graphics_demo/leveleq.cpp:66 | ranks in the first n mod 256 bands fall in the level given by division by n/256+1 |
| LevelEq.LongBands | graphics_demo/leveleq.cpp:66 | ranks past those bands fall in the level given by division by n/256 |
| LevelEq.Rank | graphics_demo/leveleq.cpp:88-94 | a pixel's rank in (level, reverse scan) order lies in its level's block of ranks |
| LevelEq.RankInjective | graphics_demo/leveleq.cpp:88-94 | no two pixels share a rank |
| LevelEq.Equalized | graphics_demo/leveleq.cpp:49-101 | the equalised channel has one target level per pixel |
| LevelEq.EqualizedMonotone | graphics_demo/leveleq.cpp:69-85 | a darker source pixel never gets a brighter target than a brighter source pixel |
| LevelEq.ScanOrderWithinLevel | graphics_demo/leveleq.cpp:88-94 | within one source level, later pixels get targets no higher than earlier ones, because the stack is popped from the top |
| LevelEq.CountAtMostCap | graphics_demo/leveleq.cpp:69-94 | no target level receives more pixels than its capacity |
| LevelEq.EqualizedHistogram | graphics_demo/leveleq.cpp:49-101 | every target level receives exactly its capacity: n/256, plus one for the first n mod 256 levels |
| LevelEq.EqualizedFixed | graphics_demo/leveleq.cpp:49-101 | a channel whose histogram already is flat is left unchanged |
| LevelEq.EqualizeIdempotent | graphics_demo/leveleq.cpp:49-101 | equalising twice is equalising once |
| LevelEq.BelowAll | graphics_demo/leveleq.cpp:58-59 | the pixels below level 256 are all pixels |
| LevelEq.TilesPush | graphics_demo/leveleq.cpp:74-81 | pushing an entry with a higher level that fits its band keeps the stack tiling a contiguous range of ranks |
| LevelEq.TilesConsistent | graphics_demo/leveleq.cpp:40-45 | a tiling stack's counts add up to the range it covers, are positive, and its levels strictly increase |
| LevelEq.FillSlots | graphics_demo/leveleq.cpp:73-78 | the inner while loop fills whole capacities, advancing the cursor and pushing one entry per filled level, and leaves a positive remainder that fits the current level |
| LevelEq.UseUpSlot | graphics_demo/leveleq.cpp:74-77 | one pass of that loop: the current level's remaining room is pushed on the stack, its counter drops to 0, the cursor moves to the next level, whose band starts where the placed pixels now end, and a positive number of pixels is still left |
| LevelEq.PlaceLevel | graphics_demo/leveleq.cpp:70-85 | one source level's pixels are placed in the next ranks; its stack tiles exactly its block of ranks; the capacities left and the cursor are updated accordingly |
| LevelEq.MappedExtend | graphics_demo/leveleq.cpp:70-85 | each finished source level extends the set of levels whose stacks tile their blocks |
| LevelEq.MapLevels | graphics_demo/leveleq.cpp:69-85 | after the pass, the stack of every occurring level tiles that level's block of ranks |
| LevelEq.TilesPop | graphics_demo/leveleq.cpp:90-93 | the top entry's level holds the highest remaining rank, and decrementing or popping it keeps the stack tiling one rank fewer |
| LevelEq.TopIsTarget | graphics_demo/leveleq.cpp:89-91 | the top of the stack of pixel i's level is the target of pixel i's rank |
| LevelEq.RewriteStep | graphics_demo/leveleq.cpp:92-93 | decrementing or popping the top keeps every stack tiling the ranks still to be rewritten |
| LevelEq.PendingStart | graphics_demo/leveleq.cpp:88 | before the rewrite, every stack covers all of its level's ranks |
| LevelEq.PendingStep | graphics_demo/leveleq.cpp:88-94 | after pixel i, the stack of its level covers one rank fewer and the others are untouched |
| LevelEq.EqualizedPrefix | graphics_demo/leveleq.cpp:88-94 | the first m equalised pixels, one per position |
| LevelEq.PrefixOfEqualized | graphics_demo/leveleq.cpp:88-94 | the rewritten prefix is a prefix of the equalised channel, and the whole of it at the end |
| LevelEq.Spliced | graphics_demo/leveleq.cpp:89-91 | writing the target at position i extends the rewritten prefix by one, and position i still holds the source level |
| LevelEq.RewritePixel | graphics_demo/leveleq.cpp:89-93 | one iteration rewrites pixel i to its target and keeps the stacks covering the ranks still to come |
| LevelEq.RewritePixels | graphics_demo/leveleq.cpp:88-94 | the swap pass turns the channel into its equalisation |
| LevelEq.EqualizeLevels | graphics_demo/leveleq.cpp:49-101 | the pixels end up equal to the equalisation of their old contents, and the call returns 0 |
| LevelEq.PlaceAsWritten | graphics_demo/leveleq.cpp:70-85 | one source level as written either reads the counter one past the last, or yields 256 counters and a cursor at most 256 |
| LevelEq.ZerosOverrun | graphics_demo/leveleq.cpp:70-85 | as written, with every counter used up and the cursor ahead of the source level, the empty levels left push the cursor to index 256 |
| LevelEq.CursorOverrun | graphics_demo/leveleq.cpp:69-85 | as written, two pixels at level 0 make the mapping pass read `trgpixcounts[256]` |

## Left out

- The floating-point extractors and packers are not modelled: the RGB and
  HCL doubles, the luma computation, `doubleTo8bit`/`doubleFrom8bit`, and
  the float side of hue and chroma. The model covers the byte extractors,
  the byte packers and the integer hue/chroma arithmetic. For other data
  formats, the readers and writers stop at the sequence of pixel words
  handed to or taken from the bound extractors and packers.
- The HCL byte extractors and packers (`hueByteExtractor`,
  `packBytesHCLinRGB` and the rest) compute through doubles. They are
  bound by name only.
- Allocation failure (`ALLOC_FAILED`) is not modelled. Allocation always
  succeeds.
- Logging to `std::cerr` in `equalizeLevels` is not modelled.
- On a read error, the channel buffers keep the pixels extracted before
  the error. The model returns no pixels in that case.
- `readBMP` writes `width` and `height` to its out-parameters as soon as
  they are read, even when it later fails. The model returns the header
  only on success.
- The writer's separate `fwrite` calls for each header field are modelled
  as one write of the 54 header bytes. The byte count that reaches the
  device is the same.
- `fopen`, `fseek` and `fclose` are boolean parameters saying whether
  they fail. `fread` and `fwrite` are `PixelStream.ReadInto` and
  `PixelStream.WriteFrom` over the byte sequence and the device room.
- The extractor and packer function pointers are datatype values, not
  callbacks.
- The model always binds every channel of the BMP round trips to a
  present buffer. The absent-buffer no-op extractor appears only in
  `BmpCodec.BindExtractors`.
- BmpCodec.WriteBmp: requires width and height between 0 and 2^31 - 1
  and a bitmap size below 2^32. A width or height of 0 is modelled (the
  headers alone are written). A negative dimension is not: the source
  converts it to an unsigned byte count that wraps. Above the upper
  limits, which the source's own comment leaves unenforced, the unsigned
  size fields wrap too.
- ImageIo.WriteImage: the same bounds as BmpCodec.WriteBmp, for the same
  reason.
- BmpCodec.ReadBmp: requires that a 32-bit image of the maximal
  dimensions has a bitmap size below 2^32. This keeps the unsigned byte
  counters of the read loops from wrapping.
- ImageIo.ReadImage: the same bound as BmpCodec.ReadBmp.
- PixelStream.Read24bitPixels / PixelStream.Read32bitPixels: require
  positive dimensions and a bitmap size below 2^32. Their only caller,
  readBMP, rejects a width or height that is not positive before it
  calls them. 32-bit unsigned wrap-around of the byte counters is not
  modelled.
- PixelStream.Write24bitPixels / PixelStream.Write32bitPixels: require
  dimensions of 0 or more and a bitmap size below 2^32. A negative
  dimension and 32-bit unsigned wrap-around of the byte counters are not
  modelled, for the reasons given for BmpCodec.WriteBmp.
- LevelEq.EqualizeLevels: `nPixels` is the length of the pixel array. A
  negative or mismatched `nPixels` is not modelled.
- LevelEq.EqualizeLevels: the stacks are held in an array of sequences
  rather than 256 `std::vector`s, and their memory is not released.
- LevelEq.MapLevels: the source pushes an entry with count 0 for a level
  with no pixels. The model pushes it too, but states nothing about that
  stack, because it is never read.
- LevelEq.PlaceLevel: models the corrected cursor, which stays on level
  255 (see Findings).

## Findings

| source | as written | input that shows it | evidently intended | confidence | as-written member | corrected member |
|---|---|---|---|---|---|---|
| graphics_demo/leveleq.cpp:69-85 | after a level's last capacity is used up, `trgpixcount++` moves the cursor even past level 255; every later source level, empty ones included, then reads `*trgpixcount`, which is `trgpixcounts[256]`, one past the allocation | a channel of two pixels, both at level 0 (`nPixels == 2`): the capacities are 1, 1, 0, …; level 0 fills levels 0 and 1, and each of the 254 empty source levels that follow advances the cursor by one, until source level 255 reads index 256 | the cursor never moves past the last level, so every read stays within the 256 counters | not executed | LevelEq.CursorOverrun | LevelEq.PlaceLevel |
