/**
 * A file of the JS5 store: the state its base class keeps (data buffer,
 * compressed flag, compression kind, name and hash, version, size) plus the
 * first sector and the owning archive, and the operations that change it:
 * reassembling the file from the index and data channels, and packing and
 * unpacking its container.
 *
 * The sector layout: the index channel holds a 6-byte record per file id
 * (3-byte size, 3-byte first sector); the data channel is a run of 520-byte
 * sectors, each an 8-byte header (2-byte file id, 2-byte chunk number, 3-byte
 * next sector, 1-byte archive index) followed by 512 payload bytes.
 */
module Js5File {
  import opened Wrappers
  import opened Bytes
  import opened JsValues
  import NameHash
  import StoreConfig
  import SFB = StoreFileBase

  const INDEX_DATA_LENGTH: nat := 6
  const SECTOR_DATA_LENGTH: nat := 512
  const FULL_SECTOR_LENGTH: nat := 520

  /** The errors `extractPackedFile` throws. `MissingArchive` is the dereference of an absent archive. */
  datatype ExtractError =
    | FileNotFound
    | NotEnoughIndexData
    | NotEnoughSectorData
    | MissingArchive
    | FileTypeMismatch
    | FileIdMismatch
    | ChunkMismatch

  // ------------------------------------------------------------ index record

  /** The size and first sector an index record holds. */
  datatype IndexRecord = IndexRecord(size: nat, sector: nat)

  /**
   * Looks up the 6-byte record of file `id` at offset `id * 6`: File Not Found
   * when the offset lies outside the channel, an index-data error when fewer
   * than six bytes remain there (or the id is not a number).
   */
  function ReadIndexRecord(id: JsNumber, indexChannel: seq<byte>): (r: Result<IndexRecord, ExtractError>)
    ensures r == Failure(FileNotFound) <==> id.Num? && (id.value * 6 < 0 || id.value * 6 >= |indexChannel|)
    ensures r.Success? <==> id.Num? && 0 <= id.value * 6 && id.value * 6 + INDEX_DATA_LENGTH <= |indexChannel|
    ensures r.Success? ==> var p := id.value * 6;
                           r.value.size == BigEndian(indexChannel[p..p + 3]) && r.value.sector == BigEndian(indexChannel[p + 3..p + 6]) &&
                           r.value.size < 0x100_0000 && r.value.sector < 0x100_0000
  {
    if id.NaN? then Failure(NotEnoughIndexData)
    else
      var pointer := id.value * INDEX_DATA_LENGTH;
      if pointer < 0 || pointer >= |indexChannel| then Failure(FileNotFound)
      else if pointer + INDEX_DATA_LENGTH > |indexChannel| then Failure(NotEnoughIndexData)
      else
        assert Pow256(3) == 0x100_0000;
        Success(IndexRecord(BigEndian(indexChannel[pointer..pointer + 3]), BigEndian(indexChannel[pointer + 3..pointer + 6])))
  }

  // ----------------------------------------------------------- sector fields

  predicate SectorInChannel(dataChannel: seq<byte>, pointer: nat) {
    pointer + FULL_SECTOR_LENGTH <= |dataChannel|
  }

  function SectorFileId(dataChannel: seq<byte>, pointer: nat): nat
    requires SectorInChannel(dataChannel, pointer)
  {
    BigEndian(dataChannel[pointer..pointer + 2])
  }

  function SectorChunk(dataChannel: seq<byte>, pointer: nat): nat
    requires SectorInChannel(dataChannel, pointer)
  {
    BigEndian(dataChannel[pointer + 2..pointer + 4])
  }

  function NextSector(dataChannel: seq<byte>, pointer: nat): nat
    requires SectorInChannel(dataChannel, pointer)
  {
    BigEndian(dataChannel[pointer + 4..pointer + 7])
  }

  function SectorArchive(dataChannel: seq<byte>, pointer: nat): nat
    requires SectorInChannel(dataChannel, pointer)
  {
    dataChannel[pointer + 7]
  }

  function SectorPayload(dataChannel: seq<byte>, pointer: nat): (p: seq<byte>)
    requires SectorInChannel(dataChannel, pointer)
    ensures |p| == SECTOR_DATA_LENGTH
  {
    dataChannel[pointer + 8..pointer + FULL_SECTOR_LENGTH]
  }

  /** A non-final sector's header names the owning archive, this file and the expected chunk. */
  predicate HeaderMatches(fileId: JsNumber, owner: Option<JsNumber>, dataChannel: seq<byte>, pointer: nat, chunk: nat)
    requires SectorInChannel(dataChannel, pointer)
  {
    owner.Some? && Num(SectorArchive(dataChannel, pointer)) == owner.value &&
    Num(SectorFileId(dataChannel, pointer)) == fileId && SectorChunk(dataChannel, pointer) == chunk
  }

  // ------------------------------------------------------------- the chain

  /** Prefixes a successful read with bytes already gathered. */
  function Prepend(prefix: seq<byte>, r: Result<seq<byte>, ExtractError>): Result<seq<byte>, ExtractError> {
    match r
    case Success(s) => Success(prefix + s)
    case Failure(e) => Failure(e)
  }

  lemma PrependNothing(r: Result<seq<byte>, ExtractError>)
    ensures Prepend([], r) == r
  {
    if r.Success? {
      assert [] + r.value == r.value;
    }
  }

  lemma PrependTwice(a: seq<byte>, b: seq<byte>, r: Result<seq<byte>, ExtractError>)
    ensures Prepend(a + b, r) == Prepend(a, Prepend(b, r))
  {
    if r.Success? {
      assert (a + b) + r.value == a + (b + r.value);
    }
  }

  /**
   * The bytes of a file with `remaining` bytes left, read from the sector at
   * `pointer`, whose chunk number should be `chunk`. A sector with more than
   * 512 bytes still to come contributes its whole payload and must pass the
   * header checks (archive, then file id, then chunk); the last sector
   * contributes only what remains and is not checked.
   */
  function ReadChain(fileId: JsNumber, owner: Option<JsNumber>, dataChannel: seq<byte>, pointer: nat, remaining: nat, chunk: nat)
    : (r: Result<seq<byte>, ExtractError>)
    ensures r.Success? ==> |r.value| == remaining
    ensures remaining <= SECTOR_DATA_LENGTH ==> (r.Success? <==> SectorInChannel(dataChannel, pointer))
    ensures !SectorInChannel(dataChannel, pointer) ==> r == Failure(NotEnoughSectorData)
    decreases remaining
  {
    if !SectorInChannel(dataChannel, pointer) then Failure(NotEnoughSectorData)
    else if remaining > SECTOR_DATA_LENGTH then
      if owner.None? then Failure(MissingArchive)
      else if Num(SectorArchive(dataChannel, pointer)) != owner.value then Failure(FileTypeMismatch)
      else if Num(SectorFileId(dataChannel, pointer)) != fileId then Failure(FileIdMismatch)
      else if SectorChunk(dataChannel, pointer) != chunk then Failure(ChunkMismatch)
      else
        Prepend(SectorPayload(dataChannel, pointer),
                ReadChain(fileId, owner, dataChannel, NextSector(dataChannel, pointer) * FULL_SECTOR_LENGTH,
                          remaining - SECTOR_DATA_LENGTH, chunk + 1))
    else Success(SectorPayload(dataChannel, pointer)[..remaining])
  }

  /** How many sectors a file of `remaining` bytes occupies: at least one, even when empty. */
  function SectorCount(remaining: nat): (n: nat)
    ensures n >= 1
    ensures (n - 1) * SECTOR_DATA_LENGTH < remaining + (if remaining == 0 then 1 else 0) <= n * SECTOR_DATA_LENGTH + (if remaining == 0 then 1 else 0)
    decreases remaining
  {
    if remaining <= SECTOR_DATA_LENGTH then 1 else 1 + SectorCount(remaining - SECTOR_DATA_LENGTH)
  }

  /** The position of the `k`-th sector reached by following next-sector links from `pointer`. */
  function Follow(dataChannel: seq<byte>, pointer: nat, k: nat): nat
    decreases k
  {
    if k == 0 || !SectorInChannel(dataChannel, pointer) then pointer
    else Follow(dataChannel, NextSector(dataChannel, pointer) * FULL_SECTOR_LENGTH, k - 1)
  }

  /**
   * The chain as a whole is sound: every sector the file occupies lies in the
   * channel, and every one but the last carries the right archive, file id and
   * chunk number (counting on from `chunk`).
   */
  ghost predicate ChainIntact(fileId: JsNumber, owner: Option<JsNumber>, dataChannel: seq<byte>, pointer: nat, remaining: nat, chunk: nat) {
    forall k :: 0 <= k < SectorCount(remaining) ==>
      SectorInChannel(dataChannel, Follow(dataChannel, pointer, k)) &&
      (k < SectorCount(remaining) - 1 ==> HeaderMatches(fileId, owner, dataChannel, Follow(dataChannel, pointer, k), chunk + k))
  }

  /** Reassembly succeeds exactly when the chain is sound. */
  lemma {:induction false} ReadChainSucceedsIffIntact(fileId: JsNumber, owner: Option<JsNumber>, dataChannel: seq<byte>,
                                                      pointer: nat, remaining: nat, chunk: nat)
    ensures ReadChain(fileId, owner, dataChannel, pointer, remaining, chunk).Success? <==>
            ChainIntact(fileId, owner, dataChannel, pointer, remaining, chunk)
    decreases remaining
  {
    if remaining <= SECTOR_DATA_LENGTH {
      assert SectorCount(remaining) == 1;
      assert Follow(dataChannel, pointer, 0) == pointer;
    } else if SectorInChannel(dataChannel, pointer) {
      var next := NextSector(dataChannel, pointer) * FULL_SECTOR_LENGTH;
      ReadChainSucceedsIffIntact(fileId, owner, dataChannel, next, remaining - SECTOR_DATA_LENGTH, chunk + 1);
      IntactStep(fileId, owner, dataChannel, pointer, remaining, chunk);
    } else {
      assert !SectorInChannel(dataChannel, Follow(dataChannel, pointer, 0));
    }
  }

  /**
   * A chain of more than one sector is sound exactly when its first sector
   * passes the header checks and the chain from the next sector is sound.
   */
  lemma IntactStep(fileId: JsNumber, owner: Option<JsNumber>, dataChannel: seq<byte>, pointer: nat, remaining: nat, chunk: nat)
    requires SectorInChannel(dataChannel, pointer) && remaining > SECTOR_DATA_LENGTH
    ensures ChainIntact(fileId, owner, dataChannel, pointer, remaining, chunk) <==>
            HeaderMatches(fileId, owner, dataChannel, pointer, chunk) &&
            ChainIntact(fileId, owner, dataChannel, NextSector(dataChannel, pointer) * FULL_SECTOR_LENGTH,
                        remaining - SECTOR_DATA_LENGTH, chunk + 1)
  {
    var next := NextSector(dataChannel, pointer) * FULL_SECTOR_LENGTH;
    var rest := remaining - SECTOR_DATA_LENGTH;
    var n := SectorCount(remaining);
    assert n == SectorCount(rest) + 1;
    assert Follow(dataChannel, pointer, 0) == pointer;
    assert forall k :: 1 <= k ==> Follow(dataChannel, pointer, k) == Follow(dataChannel, next, k - 1);
    if ChainIntact(fileId, owner, dataChannel, pointer, remaining, chunk) {
      forall k | 0 <= k < SectorCount(rest)
        ensures SectorInChannel(dataChannel, Follow(dataChannel, next, k)) &&
                (k < SectorCount(rest) - 1 ==> HeaderMatches(fileId, owner, dataChannel, Follow(dataChannel, next, k), chunk + 1 + k))
      {
        assert Follow(dataChannel, pointer, k + 1) == Follow(dataChannel, next, k);
      }
    }
  }

  /**
   * Byte `i` of `s` is byte `i % 512` of the payload of the `i / 512`-th
   * sector of the chain that starts at `pointer`.
   */
  ghost predicate BytesFollowChain(dataChannel: seq<byte>, pointer: nat, s: seq<byte>) {
    forall i :: 0 <= i < |s| ==>
      Follow(dataChannel, pointer, i / SECTOR_DATA_LENGTH) + FULL_SECTOR_LENGTH <= |dataChannel| &&
      s[i] == dataChannel[Follow(dataChannel, pointer, i / SECTOR_DATA_LENGTH) + 8 + i % SECTOR_DATA_LENGTH]
  }

  /** Every byte of a reassembled file comes from its place in the chain. */
  lemma {:induction false} ReadChainBytes(fileId: JsNumber, owner: Option<JsNumber>, dataChannel: seq<byte>,
                                          pointer: nat, remaining: nat, chunk: nat)
    requires ReadChain(fileId, owner, dataChannel, pointer, remaining, chunk).Success?
    ensures BytesFollowChain(dataChannel, pointer, ReadChain(fileId, owner, dataChannel, pointer, remaining, chunk).value)
    decreases remaining
  {
    if remaining > SECTOR_DATA_LENGTH {
      var next := NextSector(dataChannel, pointer) * FULL_SECTOR_LENGTH;
      var rest := remaining - SECTOR_DATA_LENGTH;
      ReadChainBytes(fileId, owner, dataChannel, next, rest, chunk + 1);
      var tail := ReadChain(fileId, owner, dataChannel, next, rest, chunk + 1).value;
      PayloadThenChain(dataChannel, pointer, tail);
    } else {
      PayloadOnly(dataChannel, pointer, remaining);
    }
  }

  /** A sector's payload followed by bytes that follow the next sector's chain follows this chain. */
  lemma PayloadThenChain(dataChannel: seq<byte>, pointer: nat, tail: seq<byte>)
    requires SectorInChannel(dataChannel, pointer)
    requires BytesFollowChain(dataChannel, NextSector(dataChannel, pointer) * FULL_SECTOR_LENGTH, tail)
    ensures BytesFollowChain(dataChannel, pointer, SectorPayload(dataChannel, pointer) + tail)
  {
    var s := SectorPayload(dataChannel, pointer) + tail;
    forall i | 0 <= i < |s|
      ensures Follow(dataChannel, pointer, i / SECTOR_DATA_LENGTH) + FULL_SECTOR_LENGTH <= |dataChannel| &&
              s[i] == dataChannel[Follow(dataChannel, pointer, i / SECTOR_DATA_LENGTH) + 8 + i % SECTOR_DATA_LENGTH]
    {
      if i >= SECTOR_DATA_LENGTH {
        FollowOneMore(dataChannel, pointer, i);
        assert s[i] == tail[i - SECTOR_DATA_LENGTH];
      } else {
        SectorOffset(i);
      }
    }
  }

  /** The first `remaining` bytes of one sector's payload follow the chain from that sector. */
  lemma PayloadOnly(dataChannel: seq<byte>, pointer: nat, remaining: nat)
    requires SectorInChannel(dataChannel, pointer) && remaining <= SECTOR_DATA_LENGTH
    ensures BytesFollowChain(dataChannel, pointer, SectorPayload(dataChannel, pointer)[..remaining])
  {
    forall i | 0 <= i < remaining
      ensures i / SECTOR_DATA_LENGTH == 0 && i % SECTOR_DATA_LENGTH == i
    {
      SectorOffset(i);
    }
  }

  /** Byte `i` of a chain is byte `i - 512` of the chain that starts at the next sector. */
  lemma FollowOneMore(dataChannel: seq<byte>, pointer: nat, i: nat)
    requires SectorInChannel(dataChannel, pointer) && i >= SECTOR_DATA_LENGTH
    ensures Follow(dataChannel, pointer, i / SECTOR_DATA_LENGTH) ==
            Follow(dataChannel, NextSector(dataChannel, pointer) * FULL_SECTOR_LENGTH, (i - SECTOR_DATA_LENGTH) / SECTOR_DATA_LENGTH)
    ensures i % SECTOR_DATA_LENGTH == (i - SECTOR_DATA_LENGTH) % SECTOR_DATA_LENGTH
  {
    SectorOffset(i);
  }

  /** Where byte `i` of a file falls: one sector further on than byte `i - 512`, at the same offset. */
  lemma SectorOffset(i: nat)
    ensures i < SECTOR_DATA_LENGTH ==> i / SECTOR_DATA_LENGTH == 0 && i % SECTOR_DATA_LENGTH == i
    ensures i >= SECTOR_DATA_LENGTH ==>
              i / SECTOR_DATA_LENGTH == (i - SECTOR_DATA_LENGTH) / SECTOR_DATA_LENGTH + 1 &&
              i % SECTOR_DATA_LENGTH == (i - SECTOR_DATA_LENGTH) % SECTOR_DATA_LENGTH
  {
  }

  /**
   * The do-while reads one sector even for an empty file: reassembling zero
   * bytes succeeds, with nothing, exactly when a whole sector is there.
   */
  lemma EmptyFileReadsOneSector(fileId: JsNumber, owner: Option<JsNumber>, dataChannel: seq<byte>, pointer: nat)
    ensures ReadChain(fileId, owner, dataChannel, pointer, 0, 0) ==
            if pointer + FULL_SECTOR_LENGTH <= |dataChannel| then Success([]) else Failure(NotEnoughSectorData)
  {
  }

  // ----------------------------------------------------------------- buffers

  /** Writes `bytes` into `buf` at `at`, as `putBytes` at a writer cursor; returns the advanced cursor. */
  method PutBytes(buf: array<byte>, at: nat, bytes: seq<byte>) returns (next: nat)
    requires at + |bytes| <= buf.Length
    modifies buf
    ensures next == at + |bytes|
    ensures buf[..] == old(buf[..at]) + bytes + old(buf[at + |bytes|..])
  {
    forall k | 0 <= k < |bytes| {
      buf[at + k] := bytes[k];
    }
    assert buf[..] == old(buf[..at]) + bytes + old(buf[at + |bytes|..]);
    next := at + |bytes|;
  }

  /**
   * The body read of `decompress`, from the cursor after the 5-byte header:
   * a kind-0 payload is copied out (up to offset `5 + clen`); otherwise the
   * original length is read, the rest of the buffer is handed to the
   * decompressor and its output is kept only when its length matches.
   */
  method ReadCompressedBody(kind: byte, compressedLength: nat, compressedData: seq<byte>, b: SFB.Backends)
    returns (payload: Option<seq<byte>>, cursor: nat)
    requires |compressedData| >= 5
    ensures SFB.Body(payload, cursor) == SFB.ReadBody(kind, compressedLength, compressedData, b)
  {
    cursor := 5;
    if kind == SFB.NONE {
      payload := Some(Copy(Zeros(compressedLength), 0, compressedData, cursor, cursor + compressedLength));
      cursor := cursor + compressedLength;
    } else if |compressedData| < cursor + 4 {
      payload := None;
    } else {
      var decompressedLength := BigEndian(compressedData[cursor..cursor + 4]);
      cursor := cursor + 4;
      var bufferSize := if kind == SFB.BZIP then decompressedLength else |compressedData| - cursor + 2;
      var decompressedData := Copy(Zeros(bufferSize), 0, compressedData, cursor, |compressedData|);
      var out := SFB.Unpack(kind, decompressedData, b);
      if out.None? {
        payload := None;
      } else {
        cursor := cursor + compressedLength;
        payload := if |out.value| != decompressedLength then None else out;
      }
    }
  }

  /** The buffer `compress` writes for kind 0: the kind byte and the length, then the data. */
  method WriteNoneContainer(decompressedData: seq<byte>) returns (container: seq<byte>)
    requires |decompressedData| < TWO_POW_31
    ensures container == SFB.NoneContainer(decompressedData)
  {
    var out := new byte[|decompressedData| + 5](_ => 0);
    var header := [SFB.NONE] + ToBigEndian(|decompressedData|, 4);
    var cursor := PutBytes(out, 0, header);
    cursor := PutBytes(out, cursor, decompressedData);
    assert out[..] == header + decompressedData;
    container := out[..];
  }

  /**
   * The buffer `compress` writes for bzip2 and gzip: the kind byte, the
   * packed length and the original length, then the packed bytes.
   */
  method WritePackedContainer(kind: byte, compressedData: seq<byte>, originalLength: nat) returns (container: seq<byte>)
    requires |compressedData| < TWO_POW_31 && originalLength < TWO_POW_31
    ensures container == SFB.PackedContainer(kind, compressedData, originalLength)
  {
    var out := new byte[|compressedData| + 9](_ => 0);
    var header := [kind] + ToBigEndian(|compressedData|, 4) + ToBigEndian(originalLength, 4);
    var cursor := PutBytes(out, 0, header);
    cursor := PutBytes(out, cursor, compressedData);
    assert out[..] == header + compressedData;
    container := out[..];
  }

  /**
   * The rest of `decompress` after the 5-byte header: the body, then a
   * trailing version when two bytes remain; an absent or empty payload
   * leaves an empty buffer.
   */
  method UnpackAfterHeader(kind: byte, compressedLength: nat, compressedData: seq<byte>, b: SFB.Backends)
    returns (u: SFB.Unpacked)
    requires |compressedData| >= 5
    ensures u == SFB.UnpackBody(kind, compressedLength, compressedData, b)
  {
    var payload, cursor := ReadCompressedBody(kind, compressedLength, compressedData, b);
    var version := None;
    if |compressedData| - cursor >= 2 {
      version := Some(BigEndian(compressedData[cursor..cursor + 2]));
    }
    if payload.Some? && |payload.value| > 0 {
      u := SFB.Unpacked(payload.value, version);
    } else {
      u := SFB.Unpacked([], version);
    }
  }

  /**
   * The do-while of `extractPackedFile`: copies each sector's payload into a
   * buffer of `size` bytes at the writer cursor, checks the header of every
   * sector with more than 512 bytes still to come, and follows the
   * next-sector links until the file is complete.
   */
  method WalkChain(fileId: JsNumber, owner: Option<JsNumber>, dataChannel: seq<byte>, start: nat, size: nat)
    returns (r: Result<seq<byte>, ExtractError>)
    ensures r == ReadChain(fileId, owner, dataChannel, start, size, 0)
  {
    var buffer := new byte[size](_ => 0);
    var written: nat := 0;
    var chunk: nat := 0;
    var remaining: nat := size;
    var pointer: nat := start;
    ghost var whole := ReadChain(fileId, owner, dataChannel, start, size, 0);
    assert buffer[..written] == [];
    PrependNothing(whole);

    while true
      invariant buffer.Length == size && written + remaining == size && written <= buffer.Length
      invariant Prepend(buffer[..written], ReadChain(fileId, owner, dataChannel, pointer, remaining, chunk)) == whole
      decreases remaining
    {
      if pointer + FULL_SECTOR_LENGTH > |dataChannel| {
        return Failure(NotEnoughSectorData);
      }
      var sectorId := BigEndian(dataChannel[pointer..pointer + 2]);
      var sectorChunk := BigEndian(dataChannel[pointer + 2..pointer + 4]);
      var nextSector := BigEndian(dataChannel[pointer + 4..pointer + 7]);
      var sectorIndex := dataChannel[pointer + 7];
      var sectorData := dataChannel[pointer + 8..pointer + FULL_SECTOR_LENGTH];

      if remaining > SECTOR_DATA_LENGTH {
        ghost var before := buffer[..written];
        written := PutBytes(buffer, written, sectorData);
        assert buffer[..written] == before + sectorData;
        remaining := remaining - SECTOR_DATA_LENGTH;
        if owner.None? {
          return Failure(MissingArchive);
        }
        if Num(sectorIndex) != owner.value {
          return Failure(FileTypeMismatch);
        }
        if Num(sectorId) != fileId {
          return Failure(FileIdMismatch);
        }
        if sectorChunk != chunk {
          return Failure(ChunkMismatch);
        }
        PrependTwice(before, sectorData, ReadChain(fileId, owner, dataChannel, nextSector * FULL_SECTOR_LENGTH, remaining, chunk + 1));
        chunk := chunk + 1;
        pointer := nextSector * FULL_SECTOR_LENGTH;
      } else {
        ghost var before := buffer[..written];
        written := PutBytes(buffer, written, sectorData[..remaining]);
        assert buffer[..written] == before + sectorData[..remaining];
        assert whole == Success(buffer[..written]);
        remaining := 0;
        break;
      }
    }
    assert buffer[..] == buffer[..written];
    return Success(buffer[..]);
  }

  // ------------------------------------------------------------------- class

  /** A snapshot of a file's changeable state. */
  datatype FileFields = FileFields(
    data: ByteBuffer,
    compression: Option<byte>,
    compressed: bool,
    name: Option<string>,
    nameHash: Option<int>,
    version: Option<int>,
    size: nat,
    sector: Option<nat>,
    crc32: Option<int>)

  /** The state of a freshly constructed file with the given index. */
  function Initial(index: string): FileFields {
    FileFields(ByteBuffer([], 0, 0), None, true, Some(index), None, Some(0), 0, None, None)
  }

  /** Whether `extractPackedFile` completes: the index record is there and its sector chain is intact. */
  predicate ChainReads(id: JsNumber, owner: Option<JsNumber>, indexChannel: seq<byte>, dataChannel: seq<byte>) {
    var record := ReadIndexRecord(id, indexChannel);
    record.Success? &&
    ReadChain(id, owner, dataChannel, record.value.sector * FULL_SECTOR_LENGTH, record.value.size, 0).Success?
  }

  /**
   * The state `extractPackedFile` leaves: size and first sector once the
   * record is read, and the chain's bytes, flagged compressed, once the
   * walk completes.
   */
  function ExtractedFields(f: FileFields, id: JsNumber, owner: Option<JsNumber>, indexChannel: seq<byte>,
                           dataChannel: seq<byte>): (r: FileFields)
    ensures r.name == f.name && r.nameHash == f.nameHash && r.version == f.version &&
            r.crc32 == f.crc32 && r.compression == f.compression
    ensures ReadIndexRecord(id, indexChannel).Failure? ==> r == f
    ensures ChainReads(id, owner, indexChannel, dataChannel) ==>
              r.compressed && r.data.readerIndex == 0 && |r.data.bytes| == r.size && r.sector.Some? &&
              ReadChain(id, owner, dataChannel, r.sector.value * FULL_SECTOR_LENGTH, r.size, 0) == Success(r.data.bytes)
    ensures !ChainReads(id, owner, indexChannel, dataChannel) ==> r.data == f.data && r.compressed == f.compressed
  {
    match ReadIndexRecord(id, indexChannel)
    case Failure(_) => f
    case Success(record) =>
      var g := f.(size := record.size, sector := Some(record.sector));
      match ReadChain(id, owner, dataChannel, record.sector * FULL_SECTOR_LENGTH, record.size, 0)
      case Failure(_) => g
      case Success(bytes) => g.(data := ByteBuffer(bytes, 0, 0), compressed := true)
  }

  /**
   * The state `decompress` with no game version leaves: an uncompressed or
   * empty entry is kept; a short header records the kind and moves the
   * cursor past it; otherwise the unpacked payload is stored uncompressed
   * with its size, and a trailing version is kept.
   */
  function DecompressedFields(f: FileFields, b: SFB.Backends): (r: FileFields)
    ensures r.name == f.name && r.nameHash == f.nameHash && r.sector == f.sector && r.crc32 == f.crc32
    ensures r.compressed <==> f.compressed && |f.data.bytes| < 5
    ensures !f.compressed ==> r == f
    ensures f.compressed && !r.compressed ==> r.size == |r.data.bytes|
  {
    if !f.compressed || |f.data.bytes| == 0 then f
    else if |f.data.bytes| < 5 then f.(data := f.data.(readerIndex := 1), compression := Some(f.data.bytes[0]))
    else
      var bytes := f.data.bytes;
      var u := SFB.UnpackBody(bytes[0], BigEndian(bytes[1..5]), bytes, b);
      f.(data := ByteBuffer(u.payload, 0, 0), compressed := false, compression := Some(bytes[0]), size := |u.payload|,
         version := if u.version.Some? then Some(u.version.value) else f.version)
  }

  /** What the `nameHash` setter leaves: a non-zero hash also renames through the name table. */
  function AfterNameHash(f: FileFields, newHash: int, config: StoreConfig.StoreConfig): (r: FileFields)
    ensures r.nameHash == Some(newHash)
    ensures newHash == 0 ==> r.name == f.name
    ensures r == f.(nameHash := r.nameHash, name := r.name)
  {
    f.(nameHash := Some(newHash),
       name := if newHash != 0 then StoreConfig.GetFileName(config, NumIndex(newHash)) else f.name)
  }

  class Js5File {
    const index: string
    /** The archive the file belongs to; absent for the main index's own archive. */
    const archive: Js5File?
    /** Distance from the end of the archive chain, and the files on it. */
    ghost const depth: nat
    ghost const chain: set<Js5File>

    var data: ByteBuffer
    var compression: Option<byte>
    var compressed: bool
    var name: Option<string>
    var nameHash: Option<int>
    var version: Option<int>
    var size: nat
    var sector: Option<nat>
    var crc32: Option<int>

    /** The chain of owning archives ends. */
    ghost predicate Chained()
      decreases depth
    {
      archive != null ==> archive.depth < depth && archive in chain && archive.chain <= chain && archive.Chained()
    }

    /**
     * A new file: named after its id, version 0, holding an empty buffer
     * flagged compressed, with size 0.
     */
    constructor(id: Index, owner: Js5File?)
      requires owner != null ==> owner.Chained()
      ensures index == Key(id) && archive == owner && Chained()
      ensures Fields() == Initial(Key(id))
      ensures name == Some(Key(id)) && nameHash.None? && version == Some(0)
      ensures data == ByteBuffer([], 0, 0) && compressed && size == 0
      ensures compression.None? && sector.None? && crc32.None?
    {
      index := Key(id);
      archive := owner;
      depth := if owner == null then 0 else owner.depth + 1;
      chain := if owner == null then {} else {owner} + owner.chain;
      version := Some(0);
      size := 0;
      name := Some(Key(id));
      nameHash := None;
      compression := None;
      sector := None;
      crc32 := None;
      var (bytes, length) := SFB.SetDataCorrected(None);
      data := ByteBuffer(bytes, 0, 0);
      compressed := true;
      size := length;
    }

    /** `numericIndex`: `Number(index)`. */
    function NumericIndex(): (n: JsNumber)
      ensures forall k: int :: index == DecimalString(k) ==> n == Num(k)
    {
      NumbersOfDecimalStrings();
      ParseNumber(index)
    }

    /** The file's changeable state. */
    function Fields(): FileFields
      reads this
    {
      FileFields(data, compression, compressed, name, nameHash, version, size, sector, crc32)
    }

    /** The numeric index of the owning archive, if there is one. */
    function OwnerIndex(): (o: Option<JsNumber>)
      ensures o.None? <==> archive == null
    {
      if archive == null then None else Some(archive.NumericIndex())
    }

    /** `compression`: the file's own kind, else its archive's, else uncompressed. */
    function Compression(): (c: byte)
      requires Chained()
      reads this, chain
      ensures compression.Some? ==> c == compression.value
      ensures compression.None? && archive == null ==> c == SFB.NONE
      ensures compression.None? && archive != null ==> c == archive.Compression()
      decreases depth
    {
      if compression.Some? then compression.value
      else if archive == null then SFB.NONE
      else archive.Compression()
    }

    /** `setData` on a buffer: stored with both cursors reset; the size follows its length. */
    method SetData(newData: ByteBuffer, isCompressed: bool)
      modifies this
      ensures data == ByteBuffer(newData.bytes, 0, 0) && compressed == isCompressed && size == |newData.bytes|
      ensures compression == old(compression) && name == old(name) && nameHash == old(nameHash)
      ensures version == old(version) && sector == old(sector) && crc32 == old(crc32)
    {
      data := ByteBuffer(newData.bytes, 0, 0);
      compressed := isCompressed;
      size := |newData.bytes|;
    }

    /** The `name` setter: a non-empty name also sets the hash. */
    method SetName(newName: string)
      modifies this
      ensures name == Some(newName)
      ensures nameHash == if newName != "" then Some(NameHash.FileNameHash(newName)) else old(nameHash)
      ensures data == old(data) && compressed == old(compressed) && size == old(size) && compression == old(compression)
      ensures version == old(version) && sector == old(sector) && crc32 == old(crc32)
    {
      name := Some(newName);
      if newName != "" {
        var h := StoreConfig.HashFileName(newName);
        nameHash := Some(h);
      }
    }

    /** The `nameHash` setter: a non-zero hash also looks the name up in the name table. */
    method SetNameHash(newHash: int, config: StoreConfig.StoreConfig)
      modifies this
      ensures Fields() == AfterNameHash(old(Fields()), newHash, config)
      ensures nameHash == Some(newHash)
      ensures name == if newHash != 0 then StoreConfig.GetFileName(config, NumIndex(newHash)) else old(name)
      ensures data == old(data) && compressed == old(compressed) && size == old(size) && compression == old(compression)
      ensures version == old(version) && sector == old(sector) && crc32 == old(crc32)
    {
      nameHash := Some(newHash);
      if newHash != 0 {
        name := StoreConfig.GetFileName(config, NumIndex(newHash));
      }
    }

    /** Takes on a whole snapshot of changeable state, as a decoded table entry describes it. */
    method Assign(f: FileFields)
      modifies this
      ensures Fields() == f
    {
      data, compression, compressed, name, nameHash := f.data, f.compression, f.compressed, f.name, f.nameHash;
      version, size, sector, crc32 := f.version, f.size, f.sector, f.crc32;
    }

    /**
     * `extractPackedFile`: reads the index record, records size and first
     * sector, then follows the sector chain. Only a complete walk replaces the
     * data (flagged compressed); a failed one leaves it, though the size and
     * sector may already be overwritten.
     */
    method ExtractPackedFile(indexChannel: seq<byte>, dataChannel: seq<byte>) returns (r: Result<ByteBuffer, ExtractError>)
      modifies this
      ensures name == old(name) && nameHash == old(nameHash) && version == old(version)
      ensures compression == old(compression) && crc32 == old(crc32)
      ensures var record := ReadIndexRecord(NumericIndex(), indexChannel);
              record.Failure? ==>
                r == Failure(record.error) && size == old(size) && sector == old(sector) &&
                data == old(data) && compressed == old(compressed)
      ensures var record := ReadIndexRecord(NumericIndex(), indexChannel);
              record.Success? ==>
                size == record.value.size && sector == Some(record.value.sector) &&
                var walk := ReadChain(NumericIndex(), OwnerIndex(), dataChannel,
                                      record.value.sector * FULL_SECTOR_LENGTH, record.value.size, 0);
                (walk.Failure? ==> r == Failure(walk.error) && data == old(data) && compressed == old(compressed)) &&
                (walk.Success? ==> r == Success(data) && data == ByteBuffer(walk.value, 0, 0) && compressed)
      ensures Fields() == ExtractedFields(old(Fields()), NumericIndex(), OwnerIndex(), indexChannel, dataChannel)
    {
      var id := NumericIndex();
      var record := ReadIndexRecord(id, indexChannel);
      if record.Failure? {
        return Failure(record.error);
      }
      size := record.value.size;
      sector := Some(record.value.sector);

      var walk := WalkChain(id, OwnerIndex(), dataChannel, sector.value * FULL_SECTOR_LENGTH, size);
      if walk.Failure? {
        return Failure(walk.error);
      }
      SetData(ByteBuffer(walk.value, 0, 0), true);
      return Success(data);
    }

    /**
     * `compress`: an entry already compressed is returned as is; otherwise the
     * data is replaced by its container under the resolved compression kind
     * and flagged compressed.
     */
    method Compress(b: SFB.Backends) returns (r: ByteBuffer)
      requires Chained()
      requires !compressed ==> SFB.Packable(Compression(), data.bytes, b)
      modifies this
      ensures old(compressed) ==> r == data && data == old(data) && size == old(size) && compressed
      ensures !old(compressed) ==>
                data == ByteBuffer(SFB.Container(old(Compression()), old(data.bytes), b), 0, 0) &&
                compressed && size == |data.bytes| && r == data
      ensures compression == old(compression) && name == old(name) && nameHash == old(nameHash)
      ensures version == old(version) && sector == old(sector) && crc32 == old(crc32)
    {
      if compressed {
        return data;
      }
      var kind := Compression();
      var container;
      if kind == SFB.NONE {
        container := WriteNoneContainer(data.bytes);
      } else {
        container := WritePackedContainer(kind, SFB.Pack(kind, data.bytes, b), |data.bytes|);
      }
      SetData(ByteBuffer(container, 0, 0), true);
      return data;
    }

    /**
     * `decrypt`: works on a copy of the data, so the stored buffer never
     * changes; see `StoreFileBase.Decrypted` for what the copy holds.
     */
    method Decrypt(readerIndex: nat, compressedLength: nat, keySet: Option<StoreConfig.XteaKeys>, b: SFB.Backends)
      returns (r: Option<ByteBuffer>)
      requires readerIndex <= |data.bytes|
      ensures r.None? <==> SFB.Decrypted(data.bytes, readerIndex, compressedLength, keySet, b).None?
      ensures r.Some? ==> r.value.bytes == SFB.Decrypted(data.bytes, readerIndex, compressedLength, keySet, b).value &&
                          r.value.readerIndex == readerIndex
    {
      if keySet.None? || keySet.value.key.None? || !b.validKeys(keySet.value.key.value) {
        return None;
      }
      var dataCopy := data.(readerIndex := readerIndex);
      var lengthOffset := readerIndex;
      if |dataCopy.bytes| - (compressedLength + readerIndex + 4) >= 2 {
        lengthOffset := lengthOffset + 2;
      }
      var decryptedData := b.xteaDecrypt(dataCopy.bytes, readerIndex, keySet.value.key.value, |dataCopy.bytes| - lengthOffset);
      if |decryptedData| >= 5 {
        dataCopy := dataCopy.(bytes := Copy(dataCopy.bytes, readerIndex, decryptedData, 0, |decryptedData|));
        return Some(dataCopy);
      }
      return None;
    }

    /**
     * The base class's `decompress`. An entry not flagged compressed is
     * returned as is; an empty one yields null; fewer than five bytes make the
     * header read throw after the kind is recorded. Otherwise the kind is
     * recorded, the body is read (from a decrypted copy when XTEA applies and a
     * key works), a trailing version is taken when two bytes remain, and the
     * payload (empty on any decompression failure) is stored uncompressed.
     */
    method DecompressBase(encryption: string, gameVersion: Option<int>, config: StoreConfig.StoreConfig, b: SFB.Backends)
      returns (r: Result<Option<ByteBuffer>, SFB.DecodeError>)
      modifies this
      ensures name == old(name) && nameHash == old(nameHash) && sector == old(sector) && crc32 == old(crc32)
      ensures !old(compressed) ==>
                r == Success(Some(data)) && data == old(data) && !compressed && size == old(size) &&
                compression == old(compression) && version == old(version)
      ensures old(compressed) && |old(data.bytes)| == 0 ==>
                r == Success(None) && data == old(data) && compressed && size == old(size) &&
                compression == old(compression) && version == old(version)
      ensures old(compressed) && 0 < |old(data.bytes)| < 5 ==>
                r == Failure(SFB.HeaderOutOfRange) && data == old(data).(readerIndex := 1) && compressed &&
                size == old(size) && compression == Some(old(data.bytes)[0]) && version == old(version)
      ensures old(compressed) && |old(data.bytes)| >= 5 ==>
                var u := SFB.Decompressed(old(data.bytes), encryption, gameVersion, old(name), config, b);
                compression == Some(old(data.bytes)[0]) && data == ByteBuffer(u.payload, 0, 0) && !compressed &&
                size == |u.payload| && version == (if u.version.Some? then Some(u.version.value) else old(version)) &&
                r == Success(Some(data))
    {
      if !compressed {
        return Success(Some(data));
      }
      if |data.bytes| == 0 {
        return Success(None);
      }
      data := data.(readerIndex := 0);
      compression := Some(data.bytes[0]);
      data := data.(readerIndex := 1);
      if |data.bytes| < 5 {
        return Failure(SFB.HeaderOutOfRange);
      }
      var compressedLength := BigEndian(data.bytes[1..5]);
      data := data.(readerIndex := 5);
      var readerIndex := data.readerIndex;
      var compressedData := data.bytes;

      if SFB.TriesXtea(encryption, gameVersion) {
        var keySets := SFB.KeySetsFor(config, name);
        var keySet := StoreConfig.FindKeySet(keySets, gameVersion);
        var decryptedData := Decrypt(readerIndex, compressedLength, keySet, b);
        if decryptedData.Some? {
          compressedData := decryptedData.value.bytes;
        }
      }
      assert compressedData == SFB.CompressedSource(data.bytes, encryption, gameVersion, name, config, b);

      var u := UnpackAfterHeader(compression.value, compressedLength, compressedData, b);
      if u.version.Some? {
        version := Some(u.version.value);
      }
      SetData(ByteBuffer(u.payload, 0, 0), false);
      return Success(Some(data));
    }

    /**
     * `decompress` of a JS5 file: the base operation under the archive's
     * encryption setting, with no game version passed on, so no XTEA key is
     * ever tried from here.
     */
    method Decompress(encryption: string, config: StoreConfig.StoreConfig, b: SFB.Backends)
      returns (r: Result<Option<ByteBuffer>, SFB.DecodeError>)
      modifies this
      ensures name == old(name) && nameHash == old(nameHash) && sector == old(sector) && crc32 == old(crc32)
      ensures !old(compressed) ==>
                r == Success(Some(data)) && data == old(data) && !compressed && size == old(size) &&
                compression == old(compression) && version == old(version)
      ensures old(compressed) && |old(data.bytes)| == 0 ==>
                r == Success(None) && data == old(data) && compressed && size == old(size) &&
                compression == old(compression) && version == old(version)
      ensures old(compressed) && 0 < |old(data.bytes)| < 5 ==>
                r == Failure(SFB.HeaderOutOfRange) && data == old(data).(readerIndex := 1) && compressed &&
                size == old(size) && compression == Some(old(data.bytes)[0]) && version == old(version)
      ensures old(compressed) && |old(data.bytes)| >= 5 ==>
                var bytes := old(data.bytes);
                var u := SFB.UnpackBody(bytes[0], BigEndian(bytes[1..5]), bytes, b);
                compression == Some(bytes[0]) && data == ByteBuffer(u.payload, 0, 0) && !compressed &&
                size == |u.payload| && version == (if u.version.Some? then Some(u.version.value) else old(version)) &&
                r == Success(Some(data))
      ensures Fields() == DecompressedFields(old(Fields()), b)
    {
      r := DecompressBase(encryption, None, config, b);
    }
  }
}
