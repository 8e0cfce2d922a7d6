/** Bytes and little-endian fields.  The library copies 2-, 3- and 4-byte
    fields between files and `unsigned int`/`int` variables with fread,
    fwrite and memcpy; on the little-endian hosts it targets, those copies
    are the explicit decodings and encodings below. */
module LittleEndian {
  import opened Arith

  type Byte = b: int | 0 <= b < 0x100

  /** A 32-bit unsigned machine word. */
  type Word = w: int | 0 <= w < 0x1_0000_0000

  /** The 16-bit unsigned field stored at `off`. */
  function U16At(s: seq<Byte>, off: nat): (v: nat)
    requires off + 2 <= |s|
    ensures v < 0x1_0000
  {
    s[off] as int + 0x100 * (s[off + 1] as int)
  }

  /** The 32-bit unsigned field stored at `off`. */
  function U32At(s: seq<Byte>, off: nat): (v: Word)
    requires off + 4 <= |s|
  {
    s[off] as int + 0x100 * (s[off + 1] as int) + 0x1_0000 * (s[off + 2] as int)
      + 0x100_0000 * (s[off + 3] as int)
  }

  /** The 32-bit field at `off` read into a signed `int` (two's complement). */
  function I32At(s: seq<Byte>, off: nat): (v: int)
    requires off + 4 <= |s|
    ensures -0x8000_0000 <= v < 0x8000_0000
    ensures v >= 0 <==> U32At(s, off) < 0x8000_0000
  {
    var u := U32At(s, off);
    if u < 0x8000_0000 then u else u - 0x1_0000_0000
  }

  /** Byte `k` (0 = least significant) of a word. */
  function ByteOf(w: Word, k: nat): (b: Byte)
    requires k < 4
  {
    if k == 0 then w % 0x100
    else if k == 1 then w / 0x100 % 0x100
    else if k == 2 then w / 0x1_0000 % 0x100
    else w / 0x100_0000
  }

  /** The two bytes fwrite emits for a 16-bit field. */
  function U16Bytes(v: nat): (s: seq<Byte>)
    requires v < 0x1_0000
    ensures |s| == 2 && U16At(s, 0) == v
  {
    [v % 0x100, v / 0x100]
  }

  /** A word is the little-endian sum of its four bytes. */
  lemma ByteSum(w: Word)
    ensures w == ByteOf(w, 0) + 0x100 * ByteOf(w, 1) + 0x1_0000 * ByteOf(w, 2)
      + 0x100_0000 * ByteOf(w, 3)
  {
    var b0, w1 := w % 0x100, w / 0x100;
    var b1, w2 := w1 % 0x100, w1 / 0x100;
    var b2, w3 := w2 % 0x100, w2 / 0x100;
    assert w == w3 * 0x100_0000 + b2 * 0x1_0000 + b1 * 0x100 + b0;
    DivMod(w2, 0x1_0000, b1 * 0x100 + b0);
    DivMod(w3, 0x100_0000, b2 * 0x1_0000 + b1 * 0x100 + b0);
  }

  /** The four bytes fwrite emits for a 32-bit unsigned field. */
  function U32Bytes(w: Word): (s: seq<Byte>)
    ensures |s| == 4 && U32At(s, 0) == w
    ensures forall k :: 0 <= k < 4 ==> s[k] == ByteOf(w, k)
  {
    ByteSum(w);
    [ByteOf(w, 0), ByteOf(w, 1), ByteOf(w, 2), ByteOf(w, 3)]
  }

  /** The four bytes fwrite emits for a signed 32-bit `int`. */
  function I32Bytes(x: int): (s: seq<Byte>)
    requires -0x8000_0000 <= x < 0x8000_0000
    ensures |s| == 4 && I32At(s, 0) == x
  {
    U32Bytes(if x >= 0 then x else x + 0x1_0000_0000)
  }

  /** A field read at `off` of `a + b` lies wholly in `b` when `off` is past `a`. */
  lemma U32AtAppend(a: seq<Byte>, b: seq<Byte>, off: nat)
    requires |a| <= off && off + 4 <= |a| + |b|
    ensures U32At(a + b, off) == U32At(b, off - |a|)
    ensures I32At(a + b, off) == I32At(b, off - |a|)
  {
  }
}
