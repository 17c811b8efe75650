/**
 * The compressed-container framing every stored file uses:
 *
 *   [kind: 1 byte][compressed length: 4 bytes][original length: 4 bytes, kind != 0]
 *   [payload][version: 2 bytes, optional]
 *
 * all big-endian. Kind 0 stores the payload as is, kind 1 is bzip2 and any
 * other kind takes the gzip path. The compression and cipher libraries are
 * parameters (`Backends`); only the framing around them is modelled here. The
 * stateful `compress`/`decompress`/`decrypt`/`setData` methods live on the
 * file class and are specified by the functions of this module.
 */
module StoreFileBase {
  import opened Wrappers
  import opened Bytes
  import opened JsValues
  import StoreConfig

  const NONE: byte := 0
  const BZIP: byte := 1
  const GZIP: byte := 2

  /**
   * The library calls the framing delegates to. A decompressor yields None
   * where the library throws.
   */
  datatype Backends = Backends(
    bzip2Compress: seq<byte> -> seq<byte>,
    gzipCompress: seq<byte> -> seq<byte>,
    bzip2Decompress: seq<byte> -> Option<seq<byte>>,
    gzipDecompress: seq<byte> -> Option<seq<byte>>,
    validKeys: seq<int> -> bool,
    xteaDecrypt: (seq<byte>, nat, seq<int>, int) -> seq<byte>)

  /** What `decompress` fails with: a header read past the end of a buffer shorter than five bytes. */
  datatype DecodeError = HeaderOutOfRange

  // ---------------------------------------------------------------- compress

  /** The kind-0 container: the kind byte, the payload length, the payload. */
  function NoneContainer(payload: seq<byte>): (c: seq<byte>)
    requires |payload| < TWO_POW_31
    ensures |c| == |payload| + 5
    ensures c[0] == NONE && BigEndian(c[1..5]) == |payload| && c[5..] == payload
  {
    var header := [NONE] + ToBigEndian(|payload|, 4);
    assert (header + payload)[1..5] == header[1..];
    header + payload
  }

  /**
   * The bzip2/gzip container: the kind byte, the compressed length, the
   * original length, the compressed bytes.
   */
  function PackedContainer(kind: byte, packed: seq<byte>, originalLength: nat): (c: seq<byte>)
    requires |packed| < TWO_POW_31 && originalLength < TWO_POW_31
    ensures |c| == |packed| + 9
    ensures c[0] == kind && BigEndian(c[1..5]) == |packed| && BigEndian(c[5..9]) == originalLength
    ensures c[9..] == packed
  {
    var header := [kind] + ToBigEndian(|packed|, 4) + ToBigEndian(originalLength, 4);
    assert (header + packed)[1..5] == header[1..5];
    assert (header + packed)[5..9] == header[5..9];
    header + packed
  }

  /** The compressor `compress` calls for a non-zero kind: bzip2 for kind 1, gzip otherwise. */
  function Pack(kind: byte, payload: seq<byte>, b: Backends): seq<byte> {
    if kind == BZIP then b.bzip2Compress(payload) else b.gzipCompress(payload)
  }

  /** The lengths `compress` writes with `put(…, 'int')` fit a signed 32-bit field. */
  predicate Packable(kind: byte, payload: seq<byte>, b: Backends) {
    |payload| < TWO_POW_31 && (kind != NONE ==> |Pack(kind, payload, b)| < TWO_POW_31)
  }

  /** The container `compress` builds for `payload` under the resolved compression `kind`. */
  function Container(kind: byte, payload: seq<byte>, b: Backends): (c: seq<byte>)
    requires Packable(kind, payload, b)
    ensures kind == NONE ==> |c| == |payload| + 5
    ensures kind != NONE ==> |c| == |Pack(kind, payload, b)| + 9
    ensures c[0] == kind
  {
    if kind == NONE then NoneContainer(payload) else PackedContainer(kind, Pack(kind, payload, b), |payload|)
  }

  // --------------------------------------------------------------- decompress

  /** How far the body read got: the payload (None where the source throws) and the cursor after it. */
  datatype Body = Body(payload: Option<seq<byte>>, cursor: nat)

  /** A kind-0 payload: `clen` bytes copied from offset 5 up to offset `5 + clen`. */
  function NoneBody(clen: nat, src: seq<byte>): (p: seq<byte>)
    requires |src| >= 5
    ensures |p| == clen
  {
    Copy(Zeros(clen), 0, src, 5, 5 + clen)
  }

  /**
   * A kind-0 payload as the source copies it: the copy's end offset is `clen`,
   * not `5 + clen`, so only `clen - 5` bytes arrive and the rest stay zero.
   */
  function NoneBodyAsWritten(clen: nat, src: seq<byte>): (p: seq<byte>)
    requires |src| >= 5
    ensures |p| == clen
  {
    Copy(Zeros(clen), 0, src, 5, clen)
  }

  /**
   * The input buffer handed to the decompressor: `decompressedLength` bytes for
   * bzip2, the remaining bytes plus two for gzip, filled from offset 9.
   */
  function PackedInput(kind: byte, dlen: nat, src: seq<byte>): (p: seq<byte>)
    requires |src| >= 9
    ensures |p| == if kind == BZIP then dlen else |src| - 7
    ensures var n := Min(|src| - 9, |p|);
            p == src[9..9 + n] + Zeros(|p| - n)
  {
    var size := if kind == BZIP then dlen else |src| - 9 + 2;
    CopyIntoZeros(size, src, 9, |src|);
    Copy(Zeros(size), 0, src, 9, |src|)
  }

  function Unpack(kind: byte, input: seq<byte>, b: Backends): Option<seq<byte>> {
    if kind == BZIP then b.bzip2Decompress(input) else b.gzipDecompress(input)
  }

  /**
   * Reads the body after the 5-byte header. A short buffer, a throwing
   * decompressor or an output whose length differs from the recorded original
   * length yields no payload; the cursor is wherever the source had moved it.
   */
  function ReadBody(kind: byte, clen: nat, src: seq<byte>, b: Backends): (r: Body)
    requires |src| >= 5
    ensures kind == NONE ==> r == Body(Some(NoneBody(clen, src)), 5 + clen)
    ensures kind != NONE && |src| < 9 ==> r == Body(None, 5)
    ensures kind != NONE && r.payload.Some? ==>
              |src| >= 9 && r.cursor == 9 + clen && |r.payload.value| == BigEndian(src[5..9])
  {
    if kind == NONE then Body(Some(NoneBody(clen, src)), 5 + clen)
    else if |src| < 9 then Body(None, 5)
    else
      var dlen := BigEndian(src[5..9]);
      match Unpack(kind, PackedInput(kind, dlen, src), b)
      case None => Body(None, 9)
      case Some(out) => if |out| != dlen then Body(None, 9 + clen) else Body(Some(out), 9 + clen)
  }

  /** The trailing version, read only when at least two bytes remain after the cursor. */
  function Footer(src: seq<byte>, cursor: nat): (v: Option<nat>)
    ensures v.Some? <==> cursor + 2 <= |src|
    ensures v.Some? ==> v.value < 0x1_0000 && v.value == BigEndian(src[cursor..cursor + 2])
  {
    if |src| - cursor >= 2 then Some(BigEndian(src[cursor..cursor + 2])) else None
  }

  /** What `decompress` leaves behind: the stored payload and the version read, if any. */
  datatype Unpacked = Unpacked(payload: seq<byte>, version: Option<nat>)

  /**
   * The payload and trailing version `decompress` stores, with the kind-0 copy
   * corrected: a kind-0 body is `NoneBody`, the `clen` bytes after the header
   * (the copy as the source writes it is `NoneBodyAsWritten`); a compressed
   * body is empty unless it unpacks to its recorded length; the version is
   * read when two bytes follow the body.
   */
  function UnpackBody(kind: byte, clen: nat, src: seq<byte>, b: Backends): (r: Unpacked)
    requires |src| >= 5
    ensures kind == NONE ==> r.payload == NoneBody(clen, src) && (r.version.Some? <==> 7 + clen <= |src|)
    ensures kind != NONE && |src| < 9 ==> r.payload == [] && (r.version.Some? <==> 7 <= |src|)
    ensures kind != NONE && r.payload != [] ==>
              |src| >= 9 && |r.payload| == BigEndian(src[5..9]) && (r.version.Some? <==> 11 + clen <= |src|)
    ensures r.version.Some? ==> r.version.value < 0x1_0000
  {
    var body := ReadBody(kind, clen, src, b);
    Unpacked(body.payload.GetOr([]), Footer(src, body.cursor))
  }

  // ----------------------------------------------------------------- decrypt

  /**
   * How many bytes `decrypt` hands to the cipher: everything after the header,
   * less a trailing version when two bytes remain past the payload.
   */
  function DecryptLength(length: nat, readerIndex: nat, clen: nat): (n: int)
    ensures n == length - readerIndex - 2 <==> readerIndex + 4 + clen + 2 <= length
    ensures n == length - readerIndex - 2 || n == length - readerIndex
  {
    var lengthOffset := if length - (clen + readerIndex + 4) >= 2 then readerIndex + 2 else readerIndex;
    length - lengthOffset
  }

  /** The cipher output for the key set, when there is a valid key. */
  function Deciphered(bytes: seq<byte>, readerIndex: nat, clen: nat, keySet: Option<StoreConfig.XteaKeys>, b: Backends): Option<seq<byte>> {
    if keySet.Some? && keySet.value.key.Some? && b.validKeys(keySet.value.key.value)
    then Some(b.xteaDecrypt(bytes, readerIndex, keySet.value.key.value, DecryptLength(|bytes|, readerIndex, clen)))
    else None
  }

  /**
   * `decrypt` on a copy of `bytes`: null without a valid key or when the cipher
   * yields fewer than five bytes; otherwise the copy with the cipher output
   * written over it from `readerIndex` on. The bytes before `readerIndex` and
   * the length never change.
   */
  function Decrypted(bytes: seq<byte>, readerIndex: nat, clen: nat, keySet: Option<StoreConfig.XteaKeys>, b: Backends): (r: Option<seq<byte>>)
    requires readerIndex <= |bytes|
    ensures r.Some? <==> (var d := Deciphered(bytes, readerIndex, clen, keySet, b); d.Some? && |d.value| >= 5)
    ensures r.Some? ==> |r.value| == |bytes| && r.value[..readerIndex] == bytes[..readerIndex]
    ensures r.Some? ==> var d := Deciphered(bytes, readerIndex, clen, keySet, b).value;
                        var n := Min(|d|, |bytes| - readerIndex);
                        r.value[readerIndex..readerIndex + n] == d[..n] && r.value[readerIndex + n..] == bytes[readerIndex + n..]
  {
    match Deciphered(bytes, readerIndex, clen, keySet, b)
    case Some(d) =>
      if |d| >= 5 then
        var r := Copy(bytes, readerIndex, d, 0, |d|);
        assert readerIndex < |bytes| ==> r == bytes[..readerIndex] + d[..Min(|d|, |bytes| - readerIndex)] + bytes[readerIndex + Min(|d|, |bytes| - readerIndex)..];
        Some(r)
      else None
    case None => None
  }

  /** The key sets `decompress` tries: those the configuration lists for a non-empty name. */
  function KeySetsFor(config: StoreConfig.StoreConfig, name: Option<string>): (r: seq<StoreConfig.XteaKeys>)
    ensures name.None? || name.value == "" ==> r == []
  {
    if name.Some? && name.value != "" then
      match StoreConfig.GetXteaKey(config, name.value)
      case NoKey => []
      case OneKey(k) => [k]
      case KeyList(ks) => ks
    else []
  }

  /** The encryption settings under which `decompress` tries to decrypt: XTEA with a non-zero game version. */
  predicate TriesXtea(encryption: string, gameVersion: Option<int>): (r: bool)
    ensures r ==> encryption == "xtea"
    ensures gameVersion.None? || gameVersion == Some(0) ==> !r
    ensures encryption == "xtea" && gameVersion.Some? && gameVersion.value != 0 ==> r
  {
    encryption == "xtea" && gameVersion.Some? && gameVersion.value != 0
  }

  /**
   * The bytes the body is read from: the decrypted copy when decryption is
   * attempted and succeeds, the stored bytes otherwise.
   */
  function CompressedSource(bytes: seq<byte>, encryption: string, gameVersion: Option<int>, name: Option<string>,
                            config: StoreConfig.StoreConfig, b: Backends): (src: seq<byte>)
    requires |bytes| >= 5
    ensures |src| == |bytes| && src[..5] == bytes[..5]
    ensures !TriesXtea(encryption, gameVersion) ==> src == bytes
  {
    if TriesXtea(encryption, gameVersion) then
      var keySet := StoreConfig.FindKeySet(KeySetsFor(config, name), gameVersion);
      var clen := BigEndian(bytes[1..5]);
      match Decrypted(bytes, 5, clen, keySet, b)
      case Some(d) => d
      case None => bytes
    else bytes
  }

  /** The whole of `decompress` on a container of at least five bytes. */
  function Decompressed(bytes: seq<byte>, encryption: string, gameVersion: Option<int>, name: Option<string>,
                        config: StoreConfig.StoreConfig, b: Backends): (r: Unpacked)
    requires |bytes| >= 5
    ensures !TriesXtea(encryption, gameVersion) ==> r == UnpackBody(bytes[0], BigEndian(bytes[1..5]), bytes, b)
    ensures bytes[0] == NONE ==> |r.payload| == BigEndian(bytes[1..5])
    ensures r.version.Some? ==> r.version.value < 0x1_0000
  {
    var src := CompressedSource(bytes, encryption, gameVersion, name, config, b);
    UnpackBody(bytes[0], BigEndian(bytes[1..5]), src, b)
  }

  // ------------------------------------------------------------------ lemmas

  /** A kind-0 container decodes to the payload it was built from, with no version after it. */
  lemma NoneRoundTrip(payload: seq<byte>, encryption: string, gameVersion: Option<int>, name: Option<string>,
                      config: StoreConfig.StoreConfig, b: Backends)
    requires |payload| < TWO_POW_31
    requires !TriesXtea(encryption, gameVersion)
    ensures Decompressed(NoneContainer(payload), encryption, gameVersion, name, config, b) == Unpacked(payload, None)
  {
    var c := NoneContainer(payload);
    CopyIntoZeros(|payload|, c, 5, 5 + |payload|);
    assert c[5..5 + |payload|] == payload;
  }

  /**
   * A bzip2 or gzip container decodes to the original payload when the library
   * inverts its own compression on the zero-padded buffer `decompress` builds,
   * and no version follows it.
   */
  lemma PackedRoundTrip(kind: byte, payload: seq<byte>, encryption: string, gameVersion: Option<int>, name: Option<string>,
                        config: StoreConfig.StoreConfig, b: Backends)
    requires kind != NONE && Packable(kind, payload, b)
    requires !TriesXtea(encryption, gameVersion)
    requires var packed := Pack(kind, payload, b);
             if kind == BZIP then |packed| <= |payload| && b.bzip2Decompress(packed + Zeros(|payload| - |packed|)) == Some(payload)
             else b.gzipDecompress(packed + Zeros(2)) == Some(payload)
    ensures Decompressed(Container(kind, payload, b), encryption, gameVersion, name, config, b) == Unpacked(payload, None)
  {
    var packed := Pack(kind, payload, b);
    var c := Container(kind, payload, b);
    assert c[1..5] == c[..9][1..5];
    var size := if kind == BZIP then |payload| else |c| - 9 + 2;
    CopyIntoZeros(size, c, 9, |c|);
    assert c[9..9 + |packed|] == packed;
  }

  /**
   * With at most one byte after the body, no version is read; with two or
   * more, the version is the two bytes at the cursor.
   */
  lemma VersionOnlyWithTrailingBytes(kind: byte, clen: nat, src: seq<byte>, b: Backends)
    requires |src| >= 5
    ensures var body := ReadBody(kind, clen, src, b);
            UnpackBody(kind, clen, src, b).version.Some? <==> body.cursor + 2 <= |src|
  {
  }

  /**
   * A throwing decompressor or an output of the wrong length leaves an empty
   * payload behind.
   */
  lemma FailedUnpackLeavesEmpty(kind: byte, clen: nat, src: seq<byte>, b: Backends)
    requires kind != NONE && |src| >= 9
    requires var out := Unpack(kind, PackedInput(kind, BigEndian(src[5..9]), src), b);
             out.None? || |out.value| != BigEndian(src[5..9])
    ensures UnpackBody(kind, clen, src, b).payload == []
  {
  }

  /**
   * The kind-0 body as written loses the payload's last five bytes: they come
   * back as zeros, and a payload of five bytes or fewer comes back all zero.
   */
  lemma NoneRoundTripAsWritten(payload: seq<byte>)
    requires |payload| < TWO_POW_31
    ensures var p := NoneBodyAsWritten(|payload|, NoneContainer(payload));
            if |payload| > 5 then p == payload[..|payload| - 5] + Zeros(5) else p == Zeros(|payload|)
  {
    var c := NoneContainer(payload);
    CopyIntoZeros(|payload|, c, 5, |payload|);
    if |payload| > 5 {
      assert c[5..|payload|] == payload[..|payload| - 5];
    }
  }

  /** A concrete payload on which the as-written copy differs from the payload. */
  lemma NoneRoundTripAsWrittenExample()
    ensures NoneBodyAsWritten(6, NoneContainer([1, 2, 3, 4, 5, 6])) == [1, 0, 0, 0, 0, 0]
    ensures NoneBody(6, NoneContainer([1, 2, 3, 4, 5, 6])) == [1, 2, 3, 4, 5, 6]
  {
    NoneRoundTripAsWritten([1, 2, 3, 4, 5, 6]);
    var c := NoneContainer([1, 2, 3, 4, 5, 6]);
    CopyIntoZeros(6, c, 5, 11);
    assert c[5..11] == [1, 2, 3, 4, 5, 6];
  }

  // ------------------------------------------------------------- set data

  /**
   * `setData` as written on a null buffer: the buffer is replaced by an empty
   * one, but `data.length` is then read from the null argument and throws.
   * None stands for the throw; otherwise the stored bytes and the new size.
   */
  function SetDataAsWritten(data: Option<seq<byte>>): (r: Option<(seq<byte>, nat)>)
    ensures r.None? <==> data.None?
    ensures r.Some? ==> r.value == (data.value, |data.value|)
  {
    match data
    case Some(bytes) => Some((bytes, |bytes|))
    case None => None
  }

  /**
   * `setData` as its callers evidently intend it: a null buffer stores an empty
   * one, and the size is always the stored length.
   */
  function SetDataCorrected(data: Option<seq<byte>>): (r: (seq<byte>, nat))
    ensures r.1 == |r.0|
    ensures data.Some? ==> r.0 == data.value
    ensures data.None? ==> r.0 == []
  {
    (data.GetOr([]), |data.GetOr([])|)
  }

  /**
   * The file constructor's `setData(null, true)`: as written it throws; as
   * intended it stores an empty buffer of size 0.
   */
  lemma SetDataOfNull()
    ensures SetDataAsWritten(None).None?
    ensures SetDataCorrected(None) == ([], 0)
  {
  }
}
