/** Result codes, file formats, data-format selectors and the pixel-index
    convention of the image library's public header (graphdll.hpp). */
module CgTypes {
  import opened Arith

  /** The closed set of result codes an operation reports. */
  datatype CgResult =
    | Ok
    | InvalidArgument
    | AllocFailed
    | FopenFailed
    | InvalidFormat
    | UnsupportedFormat
    | ReadError
    | SeekError
    | WriteError
    | IncompleteRead
    | IncompleteWrite
    | BadDimension
    | FcloseFailed
    | Unspecified
  {
    /** The integer the C interface hands back for this result. */
    function Code(): int {
      match this
      case Ok => 0
      case InvalidArgument => -2
      case AllocFailed => -3
      case FopenFailed => -4
      case InvalidFormat => -5
      case UnsupportedFormat => -6
      case ReadError => -7
      case SeekError => -8
      case WriteError => -9
      case IncompleteRead => -10
      case IncompleteWrite => -11
      case BadDimension => -12
      case FcloseFailed => -13
      case Unspecified => -1000
    }
  }

  /** OK is 0, every failure is negative, and no two results share a code. */
  lemma CodesDistinct(x: CgResult, y: CgResult)
    ensures x.Code() == 0 <==> x == Ok
    ensures x != Ok ==> x.Code() < 0
    ensures x.Code() == y.Code() ==> x == y
  {
  }

  /** The integer code read back into a result, if it is one. */
  function ResultOfCode(code: int): (r: Option<CgResult>)
    ensures r.Some? ==> r.value.Code() == code
    ensures forall x: CgResult :: x.Code() == code ==> r == Some(x)
  {
    match code
    case 0 => Some(Ok)
    case -2 => Some(InvalidArgument)
    case -3 => Some(AllocFailed)
    case -4 => Some(FopenFailed)
    case -5 => Some(InvalidFormat)
    case -6 => Some(UnsupportedFormat)
    case -7 => Some(ReadError)
    case -8 => Some(SeekError)
    case -9 => Some(WriteError)
    case -10 => Some(IncompleteRead)
    case -11 => Some(IncompleteWrite)
    case -12 => Some(BadDimension)
    case -13 => Some(FcloseFailed)
    case -1000 => Some(Unspecified)
    case _ => None
  }

  datatype Option<T> = None | Some(value: T)

  /** A step that either fails with a result code or yields a value. */
  datatype Outcome<T> = Failure(error: CgResult) | Success(value: T)

  /** Container formats; only BMP is ever recognised. */
  datatype FileFormat = FileNone | Raw | Bmp {
    function Code(): int {
      match this
      case FileNone => 0
      case Raw => 1
      case Bmp => 2
    }
  }

  /** Channel representations a read or write call can be bound to. */
  datatype DataFormat = DataNone | Rgb | Hcl | RgbBytes | HclBytes {
    function Code(): int {
      match this
      case DataNone => 0
      case Rgb => 1
      case Hcl => 2
      case RgbBytes => 3
      case HclBytes => 4
    }
  }

  /** The selector a read or write accepts: exactly the codes 1 to 4. */
  function SelectorOf(code: int): (f: Option<DataFormat>)
    ensures f.Some? <==> 1 <= code <= 4
    ensures f.Some? ==> f.value.Code() == code && f.value != DataNone
  {
    if code == 1 then Some(Rgb)
    else if code == 2 then Some(Hcl)
    else if code == 3 then Some(RgbBytes)
    else if code == 4 then Some(HclBytes)
    else None
  }

  /** Every data format other than NONE is accepted under its own code. */
  lemma SelectorRoundTrip(f: DataFormat)
    ensures f != DataNone ==> SelectorOf(f.Code()) == Some(f)
    ensures f == DataNone ==> SelectorOf(f.Code()) == None
  {
  }

  /** Flat index of the channel value of pixel (x, y) of a width-`w` image:
      rows run left to right and bottom to top, the origin is the lower
      left corner. */
  function PixelIndex(x: int, y: int, w: int): int {
    x + w * y
  }

  /** The index is a bijection between the w-by-h grid and 0 .. w*h-1:
      it is in range, and the column and row are recovered from it. */
  lemma {:induction false} PixelIndexBijective(x: int, y: int, w: int, h: int)
    requires 0 <= x < w && 0 <= y < h
    ensures 0 <= PixelIndex(x, y, w) < w * h
    ensures PixelIndex(x, y, w) % w == x && PixelIndex(x, y, w) / w == y
  {
    var i := PixelIndex(x, y, w);
    assert w * y + w <= w * h by { MulMonotone(w, y + 1, h); }
    DivMod(y, w, x);
  }
}
