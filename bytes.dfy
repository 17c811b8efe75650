/**
 * Octets, big-endian numbers and the buffer operations the cache code relies on:
 * the `get`/`put` reads and writes of its ByteBuffer and Node's `Buffer.copy`.
 */
module Bytes {
  import opened Wrappers
  import opened JsValues

  /** One octet of a channel or a buffer. */
  type byte = b: int | 0 <= b < 256

  /** A byte buffer with its read and write cursors. */
  datatype ByteBuffer = ByteBuffer(bytes: seq<byte>, readerIndex: nat, writerIndex: nat)

  function Pow256(width: nat): (p: nat)
    ensures p > 0
  {
    if width == 0 then 1 else 256 * Pow256(width - 1)
  }

  /** The bytes read as one unsigned big-endian number. */
  function BigEndian(bytes: seq<byte>): (n: nat)
    ensures n < Pow256(|bytes|)
  {
    if bytes == [] then 0
    else
      var high := BigEndian(bytes[..|bytes| - 1]);
      assert high * 256 <= (Pow256(|bytes| - 1) - 1) * 256;
      high * 256 + bytes[|bytes| - 1]
  }

  /** `n` written as `width` big-endian bytes, as ByteBuffer's `put` writes it. */
  function ToBigEndian(n: nat, width: nat): (bytes: seq<byte>)
    requires n < Pow256(width)
    ensures |bytes| == width
    ensures BigEndian(bytes) == n
  {
    if width == 0 then []
    else
      var high := ToBigEndian(n / 256, width - 1);
      var bytes := high + [n % 256];
      assert bytes[..|bytes| - 1] == high;
      bytes
  }

  /** The `width`-byte unsigned big-endian number at `pos`; None when the buffer ends first. */
  function ReadUnsigned(buf: seq<byte>, pos: nat, width: nat): (r: Option<nat>)
    ensures r.Some? <==> pos + width <= |buf|
    ensures r.Some? ==> r.value < Pow256(width)
  {
    if pos + width <= |buf| then Some(BigEndian(buf[pos..pos + width])) else None
  }

  /** Reinterprets a 32-bit pattern as a two's-complement signed number. */
  function Signed32(u: nat): (s: int)
    requires u < TWO_POW_32
    ensures -TWO_POW_31 <= s < TWO_POW_31
    ensures (s - u) % TWO_POW_32 == 0
  {
    if u < TWO_POW_31 then u else u - TWO_POW_32
  }

  /** `get('int')`: a signed 32-bit big-endian number at `pos`. */
  function ReadInt32(buf: seq<byte>, pos: nat): (r: Option<int>)
    ensures r.Some? <==> pos + 4 <= |buf|
    ensures r.Some? ==> -TWO_POW_31 <= r.value < TWO_POW_31
  {
    match ReadUnsigned(buf, pos, 4)
    case Some(u) => Some(Signed32(u))
    case None => None
  }

  function Zeros(n: nat): (z: seq<byte>)
    ensures |z| == n && forall i :: 0 <= i < n ==> z[i] == 0
  {
    seq(n, _ => 0)
  }

  function Min(a: int, b: int): int {
    if a < b then a else b
  }

  /**
   * `src.copy(target, targetStart, srcStart, srcEnd)` as Node's `Buffer.copy`
   * performs it: `srcEnd` is an absolute index, clamped to the source, and the
   * copy stops at the end of the target; the target keeps its length.
   */
  function Copy(target: seq<byte>, targetStart: nat, src: seq<byte>, srcStart: nat, srcEnd: int): (r: seq<byte>)
    requires srcStart <= |src|
    ensures |r| == |target|
    ensures r[..Min(targetStart, |target|)] == target[..Min(targetStart, |target|)]
  {
    var end := Min(srcEnd, |src|);
    if targetStart >= |target| || srcStart >= end then target
    else
      var n := Min(end - srcStart, |target| - targetStart);
      target[..targetStart] + src[srcStart..srcStart + n] + target[targetStart + n..]
  }

  /** What a copy into a fresh zero-filled buffer of `size` bytes holds. */
  lemma {:induction false} CopyIntoZeros(size: nat, src: seq<byte>, srcStart: nat, srcEnd: int)
    requires srcStart <= |src|
    ensures var n := if srcStart >= Min(srcEnd, |src|) then 0 else Min(Min(srcEnd, |src|) - srcStart, size);
            Copy(Zeros(size), 0, src, srcStart, srcEnd) == src[srcStart..srcStart + n] + Zeros(size - n)
  {
    var end := Min(srcEnd, |src|);
    if size == 0 || srcStart >= end {
      assert Zeros(size) == [] + Zeros(size);
    } else {
      var n := Min(end - srcStart, size);
      assert Zeros(size)[n..] == Zeros(size - n);
    }
  }
}
