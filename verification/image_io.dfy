/** The file-level entry points of graphdll.cpp: the choice of container
    from a path and a type string (getExtension, getImageFormat) and the
    result-code logic of readImage and writeImage around fopen, the BMP
    codec and fclose.  Whether fopen, fseek or fclose fail is a parameter;
    the file read is its byte sequence and the file written a device that
    accepts `room` bytes. */
module ImageIo {
  import opened LittleEndian
  import opened CgTypes
  import opened RowLayout
  import opened BmpCodec

  /** std::string::find_last_of('.'): the index of the last dot, if any. */
  function LastDot(path: string): (i: Option<nat>)
    ensures i.None? <==> '.' !in path
    ensures i.Some? ==> i.value < |path| && path[i.value] == '.' && '.' !in path[i.value + 1..]
  {
    if |path| == 0 then None
    else if path[|path| - 1] == '.' then Some(|path| - 1)
    else
      var i := LastDot(path[..|path| - 1]);
      assert path[..|path| - 1] + [path[|path| - 1]] == path;
      i
  }

  /** getExtension: what follows the last dot of the path; empty when the
      path has no dot or ends with one. */
  function GetExtension(path: string): (ext: string)
    ensures '.' !in ext
    ensures ext == [] <==> '.' !in path || path[|path| - 1] == '.'
    ensures ext != [] ==>
      |ext| < |path| && path[|path| - |ext| - 1] == '.' && path[|path| - |ext|..] == ext
  {
    match LastDot(path)
    case None => []
    case Some(i) => path[i + 1..]
  }

  /** The extension of a name built from a stem, a dot and a dot-free
      extension is that extension, whatever dots the stem holds. */
  lemma {:induction false} ExtensionOfName(stem: string, ext: string)
    requires '.' !in ext
    ensures GetExtension(stem + "." + ext) == ext
  {
    var path := stem + "." + ext;
    assert path[|stem|] == '.';
    assert path[|stem| + 1..] == ext;
  }

  /** The type strings that name the BMP container. */
  predicate NamesBmp(t: string) {
    t == "bmp" || t == "Bmp" || t == "BMP"
  }

  /** getImageFormat: the type string, or the path's extension when the
      type is empty, chooses the container; only the three spellings of
      "bmp" are recognised. */
  function GetImageFormat(path: string, fileType: string): (f: FileFormat)
    ensures fileType != [] ==> (f == Bmp <==> NamesBmp(fileType))
    ensures fileType == [] ==> (f == Bmp <==> NamesBmp(GetExtension(path)))
  {
    var t := if fileType == [] then GetExtension(path) else fileType;
    if NamesBmp(t) then Bmp else FileNone
  }

  /** No path and type select the RAW container, which has no codec. */
  lemma NeverRaw(path: string, fileType: string)
    ensures GetImageFormat(path, fileType) != Raw
  {
  }

  /** The extension decides when no type is given, and an explicit type
      overrides the extension. */
  lemma FormatFromName(stem: string, ext: string, fileType: string)
    requires '.' !in ext
    ensures fileType == [] ==> (GetImageFormat(stem + "." + ext, fileType) == Bmp <==> NamesBmp(ext))
    ensures fileType != [] ==> GetImageFormat(stem + "." + ext, fileType) == GetImageFormat("", fileType)
  {
    ExtensionOfName(stem, ext);
  }

  /** readImage: an unrecognised container is UNSUPPORTED_FORMAT before
      anything is opened; a failed fopen is FOPEN_FAILED; otherwise the BMP
      reader runs and a failed fclose replaces whatever it reported. */
  method ReadImage(path: string, fileType: string, dataFormat: int, maxWidth: int, maxHeight: int,
                   file: seq<Byte>, fopenFails: bool, seekFails: bool, fcloseFails: bool)
      returns (result: CgResult, header: BmpHeader, pixels: seq<Word>)
    requires 0 < maxWidth && 0 < maxHeight ==>
      Layout(4, maxWidth, maxHeight).TotalBytes() < 0x1_0000_0000
    ensures result != IncompleteRead && result != AllocFailed && result != Unspecified
    ensures GetImageFormat(path, fileType) == FileNone ==> result == UnsupportedFormat
    ensures GetImageFormat(path, fileType) != FileNone ==>
      var r := BmpRead(file, dataFormat, maxWidth, maxHeight, seekFails);
      && (fopenFails ==> result == FopenFailed)
      && (!fopenFails && fcloseFails ==> result == FcloseFailed)
      && (!fopenFails && !fcloseFails && r.Failure? ==> result == r.error)
      && (!fopenFails && !fcloseFails && r.Success? ==>
            result == Ok && header == r.value.0 && pixels == r.value.1)
  {
    header, pixels := BmpHeader(0, 0, 0, 0), [];
    var imageFormat := GetImageFormat(path, fileType);
    if imageFormat == FileNone {
      return UnsupportedFormat, header, pixels;
    }
    if fopenFails {
      return FopenFailed, header, pixels;
    }
    result := Ok;
    NeverRaw(path, fileType);
    match imageFormat {
      case Bmp =>
        result, header, pixels := ReadBmp(file, dataFormat, maxWidth, maxHeight, seekFails);
    }
    if fcloseFails {
      result := FcloseFailed;
    }
  }

  /** writeImage: as readImage, around the BMP writer.  The file is
      created empty, so what it holds afterwards is what the writer put
      out. */
  method WriteImage(path: string, fileType: string, dataFormat: int, width: int, height: int,
                    hasAlpha: bool, pixels: seq<Word>, room: nat, fopenFails: bool, fcloseFails: bool)
      returns (result: CgResult, out: seq<Byte>)
    requires 0 <= width < 0x8000_0000 && 0 <= height < 0x8000_0000 && |pixels| == width * height
    requires Layout(if hasAlpha then 4 else 3, width, height).TotalBytes() < 0x1_0000_0000
    ensures result != IncompleteWrite && result != AllocFailed && result != Unspecified
    ensures GetImageFormat(path, fileType) == FileNone || fopenFails ==> out == []
    ensures GetImageFormat(path, fileType) == FileNone ==> result == UnsupportedFormat
    ensures GetImageFormat(path, fileType) != FileNone ==>
      var f := BmpFile(Layout(if hasAlpha then 4 else 3, width, height), pixels);
      && (fopenFails ==> result == FopenFailed)
      && (!fopenFails && fcloseFails ==> result == FcloseFailed)
      && (!fopenFails && !fcloseFails ==>
            (result == Ok <==> SelectorOf(dataFormat).Some? && |f| <= room))
      && (!fopenFails && !fcloseFails && result != Ok ==>
            result == if room < HeaderSize || SelectorOf(dataFormat).Some? then WriteError
                      else InvalidArgument)
      && (!fopenFails ==>
            out == f[..if room < HeaderSize then room
                       else if SelectorOf(dataFormat).None? then HeaderSize
                       else if |f| <= room then |f| else room])
  {
    out := [];
    var imageFormat := GetImageFormat(path, fileType);
    if imageFormat == FileNone {
      return UnsupportedFormat, out;
    }
    if fopenFails {
      return FopenFailed, out;
    }
    result := Ok;
    NeverRaw(path, fileType);
    match imageFormat {
      case Bmp =>
        result, out := WriteBmp([], room, dataFormat, width, height, hasAlpha, pixels);
    }
    if fcloseFails {
      result := FcloseFailed;
    }
  }
}
