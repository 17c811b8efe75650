# JS5 cache reader core, in Dafny

This project models the byte-layout core of a reader for the JS5 game-asset
cache and proves properties of the model. The cache stores each file as a
chain of 520-byte sectors in a data channel. A 6-byte record per file id in
an index channel holds the file's size and first sector. A reassembled file
is a compressed container: a kind byte, the compressed length, for bzip2 and
gzip also the original length, then the payload and an optional 2-byte
version. An archive's own unpacked file is a metadata table describing its
groups and their files.

Modules, one per source file or concern:

- `Js5File` (`js5_file.dfy`) holds a file's state and its operations.
  - The class keeps the state that `StoreFileBase` and `Js5File` share: data buffer, compressed flag, compression kind, name and name hash, version, size, sector and owning archive.
  - `ExtractPackedFile` walks the sector chain in a loop and is proved equal to the recursive definition `ReadChain`. Lemmas say exactly when `ReadChain` succeeds and where every byte comes from.
  - `Compress`, `Decrypt` and `Decompress` change the file in place, and each is proved equal to a framing function of `StoreFileBase`.
- `StoreFileBase` (`store_file_base.dfy`) holds the container framing as functions: the two container layouts, the body and footer reads, the decrypted copy and the key-set choice. It also proves the round trips.
- `ArchiveIndex` (`archive_index.dfy`) gives the metadata table on values. Each section is the change it makes to the group table, applied in reading order, so a repeated id behaves as in the source: the later entry wins.
- `Js5Archive` (`js5_archive.dfy`) holds the archive class. Its section readers are loops, each proved equal to its `ArchiveIndex` function. `Decode` names the archive, extracts and unpacks its file, parses the table and installs the groups as new group and file objects.
- `Js5FileGroup` (`js5_file_group.dfy`) is a group: its own file, plus a map of member files that iterates in insertion order.
- `IndexedFile` (`indexed_file.dfy`) is the older indexed-file entry and its setters.
- `NameHash` (`name_hash.dfy`) is the 32-bit polynomial name hash and the lookup of a name by its hash.
- `StoreConfig` (`store_config.dfy`) holds the store configuration's lookups over its tables, passed in as values.
- `StringUtil` (`string_util.dfy`) is `plurality`.
- Shared modules:
  - `JsValues` gives `String(n)`, `Number(s)`, ToInt32 and UTF-16 code units.
  - `Bytes` gives big-endian reads and `Buffer.copy`.
  - `Wrappers` gives `Option`, `Result` and `Outcome`.

The compression libraries, the XTEA cipher and its key check are fields of a
`Backends` value. These are functions with no stated properties beyond what
a lemma explicitly assumes of them.

## Model

| member | source | states |
|---|---|---|
| JsValues.NumberOfDecimalString | src/store-file-base.ts:225-227 | `Number(String(n)) == n` for every integer, so a numeric id's key converts back to the id |
| JsValues.NumbersOfDecimalStrings | src/indexed-file.ts:35-37 | the same fact for all integers at once, as the `numericIndex` getters use it |
| JsValues.DecimalStringInjective | src/js5-file-group.ts:22-24 | distinct numeric ids give distinct string keys |
| JsValues.KeysOfNumbers | src/js5-archive.ts:122-132 | two numeric ids address the same map entry if and only if they are equal |
| JsValues.ParseNumber | src/indexed-file.ts:35-37 | `Number(s)`: a string of decimal digits (the empty one included) is its value, a sign followed by digits is the signed value, and anything else, and only that, is NaN |
| JsValues.ToInt32 | src/hash/name-hash.ts:32 | the bitwise-or with 0 (ToInt32 of `x`) lies in the signed 32-bit range and is congruent to `x` modulo 2^32 |
| JsValues.ShiftLeft5 | src/hash/name-hash.ts:29 | `x << 5` lies in the signed 32-bit range |
| JsValues.Utf16 | src/hash/name-hash.ts:28-29 | `length` counts at least one code unit per character, and every `charCodeAt` is below 0x10000 |
| Bytes.ToBigEndian | src/store-file-base.ts:50 | `put(n, 'int')` writes `width` bytes that read back as `n` |
| Bytes.ReadUnsigned | src/js5-file.ts:57-58 | a big-endian read succeeds exactly when the bytes are there, and its value fits the width |
| Bytes.ReadInt32 | src/js5-archive.ts:61 | `get('int')` succeeds exactly when four bytes remain, with a signed 32-bit result |
| Bytes.Copy | src/store-file-base.ts:132 | `Buffer.copy` keeps the target's length and the bytes before the target offset |
| Bytes.CopyIntoZeros | src/store-file-base.ts:131-132 | copying into a fresh zero buffer yields the copied source bytes followed by zeros |
| StringUtil.Plurality | src/util/string.ts:1-11 | unchanged for amount 1; otherwise one character longer with the word as prefix, ending in an apostrophe exactly when the word ends in "s" |
| StringUtil.PluralEndsInS | src/util/string.ts:6-10 | for any amount other than 1 the result ends in "s" or in "s'" |
| NameHash.Fold31 | src/hash/name-hash.ts:28-30 | the reference fold `h := (31h + unit) mod 2^32` stays below 2^32 |
| NameHash.StepAgreesWithFold | src/hash/name-hash.ts:29 | one loop step `unit + ((h << 5) - h)` equals one fold step modulo 2^32, whatever the unbounded `h` |
| NameHash.HashFileName | src/hash/name-hash.ts:25-33 | the loop's result is the fold over the UTF-16 code units, read as signed 32-bit, in the signed 32-bit range |
| NameHash.WrapFirst | src/hash/name-hash.ts:32 | the final bitwise-or with 0 depends only on the residue modulo 2^32 |
| NameHash.FoldSnoc | src/hash/name-hash.ts:28-30 | loop-proof step: one more code unit advances the fold by one step |
| NameHash.SingleCharacterHash | src/hash/name-hash.ts:29 | a one-character name in the basic plane hashes to its code unit |
| NameHash.SingleCodeUnit | src/hash/name-hash.ts:29 | a basic-plane character is one code unit |
| NameHash.EmptyNameHash | src/hash/name-hash.ts:26-32 | the empty name hashes to 0 |
| NameHash.GetFileNameForHash | src/hash/name-hash.ts:14-22 | null exactly for an undefined hash |
| NameHash.FileNameForHashResolves | src/hash/name-hash.ts:19-21 | a hash the table names resolves to that name; any other resolves to its decimal string, which `Number` turns back into the hash |
| StoreConfig.FindKeySet | src/config/store-config.ts:63 | `find` yields nothing exactly when no key set has the version; otherwise the first key set that has it |
| StoreConfig.GetXteaKey | src/config/store-config.ts:47-67 | null for an empty key table or an unlisted name; with a game version, never the list: the first matching key set, or null exactly when none matches; without one, the whole list |
| StoreConfig.GetArchiveDetails | src/config/store-config.ts:69-75 | absent exactly when no entry has the index; otherwise an entry under that index |
| StoreConfig.LookupArchive | src/config/store-config.ts:74 | `Map.get` over the entries in insertion order: absent exactly when no entry has the key |
| StoreConfig.GetArchiveGroupNames | src/config/store-config.ts:77-79 | non-empty only when that archive's content lists default names, and `{}` for an unknown archive |
| StoreConfig.GroupNamesOfListedArchive | src/config/store-config.ts:77-79 | for a listed archive, its default names, or `{}` when the content or the names are missing |
| StoreConfig.GetArchiveIndex | src/config/store-config.ts:85-93 | the early-return loop yields the first index in insertion order whose name matches, and undefined exactly when none does |
| StoreConfig.HashFileName | src/config/store-config.ts:95-102 | the same wrapping fold as the name-hash helper |
| StoreConfig.GetFileName | src/config/store-config.ts:104-114 | a string hash is converted with `Number` first; the recorded name, or undefined exactly when none is recorded |
| StoreConfig.HashKey | src/config/store-config.ts:105-107 | a numeric hash is looked up as itself, and a hash given as the decimal string of `h` is looked up under `h` |
| StoreConfig.FileNameOfHashString | src/config/store-config.ts:105-107 | a hash given as its decimal string finds the same name as the number |
| IndexedFile.IndexedFile.constructor | src/indexed-file.ts:19-21 | the id is kept as `String(id)`; everything else is undefined |
| IndexedFile.IndexedFile.NumericIndex | src/indexed-file.ts:35-37 | `Number(index)` gives back the numeric id the file was keyed by |
| IndexedFile.NumericIndexOfNumericId | src/indexed-file.ts:19-21 | a file created with a numeric id reports that id |
| IndexedFile.IndexedFile.SetData | src/indexed-file.ts:23-33 | non-empty data stored with both cursors reset; null or empty data clears it; `compressed` is the flag; size is the length or 0; nothing else changes |
| IndexedFile.IndexedFile.Compression | src/indexed-file.ts:39-41 | uncompressed unless set |
| IndexedFile.IndexedFile.SetName | src/indexed-file.ts:76-79 | the name is set and the hash always follows it; nothing else changes |
| IndexedFile.IndexedFile.SetNameHash | src/indexed-file.ts:67-70 | the hash is set and the name always follows it through the name table |
| StoreFileBase.NoneContainer | src/store-file-base.ts:42-53 | kind 0: byte 0, the payload length in four bytes, the payload; five bytes longer than the payload |
| StoreFileBase.PackedContainer | src/store-file-base.ts:54-75 | bzip2/gzip: the kind, the packed length, the original length, the packed bytes; nine bytes longer |
| StoreFileBase.Container | src/store-file-base.ts:42-75 | the container starts with the resolved kind and has the right length for it |
| StoreFileBase.NoneBody | src/store-file-base.ts:129-133 | the corrected kind-0 body: `clen` bytes copied from offset 5 up to `5 + clen` |
| StoreFileBase.NoneBodyAsWritten | src/store-file-base.ts:131-132 | the kind-0 body as written: `clen` bytes, copied only up to offset `clen` |
| StoreFileBase.ReadBody | src/store-file-base.ts:129-163 | kind 0 copies and moves the cursor by `clen`; a short or failed packed body gives no payload; a kept payload has the recorded original length |
| StoreFileBase.PackedInput | src/store-file-base.ts:144-148 | the decompressor's input is `decompressedLength` bytes for bzip2 and the remaining length plus two for gzip, holding the bytes from offset 9 and zeros after them |
| StoreFileBase.Footer | src/store-file-base.ts:166-168 | a version exactly when two bytes remain after the cursor, the unsigned short there |
| StoreFileBase.UnpackBody | src/store-file-base.ts:125-174 | with the kind-0 copy corrected (`NoneBody`), kind 0 stores the `clen` bytes after the header; a packed body is empty unless it unpacks to its recorded length; a version is read exactly when two bytes follow the body, and fits 16 bits |
| StoreFileBase.Decrypted | src/store-file-base.ts:192-213 | null without a valid key or with cipher output under five bytes; otherwise a copy of the same length, unchanged before `readerIndex`, with the cipher output over it from there |
| StoreFileBase.DecryptLength | src/store-file-base.ts:200-203 | the cipher is given everything after the header, less two bytes exactly when two bytes remain past the length field and the payload |
| StoreFileBase.KeySetsFor | src/store-file-base.ts:100-110 | no key sets are tried for an absent or empty name |
| StoreFileBase.TriesXtea | src/store-file-base.ts:99 | decryption is tried only for XTEA, never for a missing or zero game version, and always for XTEA with a non-zero one |
| StoreFileBase.CompressedSource | src/store-file-base.ts:96-127 | the body source has the stored length and header, and is the stored bytes unless XTEA with a game version applies |
| StoreFileBase.Decompressed | src/store-file-base.ts:81-177 | `decompress` on a container, with the kind-0 copy corrected: the stored bytes are read as they are unless decryption is tried; a kind-0 payload has the recorded length; a version fits 16 bits |
| StoreFileBase.NoneRoundTrip | src/store-file-base.ts:44-53 | with the corrected copy, decompressing a kind-0 container gives back its payload and reads no version |
| StoreFileBase.PackedRoundTrip | src/store-file-base.ts:54-75 | a bzip2/gzip container decompresses to its payload when the library inverts its compression on the input buffer `decompress` builds, and no version is read |
| StoreFileBase.VersionOnlyWithTrailingBytes | src/store-file-base.ts:166-168 | a version is read if and only if two bytes remain after the body |
| StoreFileBase.FailedUnpackLeavesEmpty | src/store-file-base.ts:156-161 | a throwing decompressor or a length mismatch leaves an empty payload |
| StoreFileBase.NoneRoundTripAsWritten | src/store-file-base.ts:131-132 | as written, the kind-0 round trip loses the payload's last five bytes to zeros |
| StoreFileBase.NoneRoundTripAsWrittenExample | src/store-file-base.ts:131-132 | the payload 1..6 comes back as `[1,0,0,0,0,0]` as written, and whole when corrected |
| StoreFileBase.SetDataAsWritten | src/store-file-base.ts:179-190 | as written, a null buffer throws; any other buffer is stored with its length as size |
| StoreFileBase.SetDataCorrected | src/store-file-base.ts:179-190 | as intended, null stores an empty buffer, and the size is always the stored length |
| StoreFileBase.SetDataOfNull | src/js5-file.ts:34 | the constructor's `setData(null, true)` throws as written, and stores an empty buffer of size 0 when corrected |
| Js5File.ReadIndexRecord | src/js5-file.ts:45-58 | File Not Found exactly when `id*6` is negative or at or past the end; success exactly when six bytes are there; size and sector are the two 3-byte big-endian values |
| Js5File.ReadChain | src/js5-file.ts:60-105 | a reassembled file has exactly `size` bytes; a missing sector fails with the sector-data error; a final sector succeeds exactly when it is whole |
| Js5File.SectorCount | src/js5-file.ts:67-105 | the do-while visits at least one sector, enough to hold the size, and no more |
| Js5File.ReadChainSucceedsIffIntact | src/js5-file.ts:67-105 | reassembly succeeds if and only if every sector lies in the channel and every non-final one names the archive, the file and the next chunk number |
| Js5File.IntactStep | src/js5-file.ts:82-99 | a multi-sector chain is sound exactly when its first sector passes the checks and the chain from the next sector is sound |
| Js5File.ReadChainBytes | src/js5-file.ts:80-104 | byte `i` of the file is byte `i % 512` of the payload of the `i / 512`-th sector along the chain |
| Js5File.PayloadThenChain | src/js5-file.ts:83-84 | a sector's payload followed by bytes that follow the next chain follows this chain |
| Js5File.PayloadOnly | src/js5-file.ts:101-102 | the final sector contributes its first `remaining` payload bytes |
| Js5File.FollowOneMore | src/js5-file.ts:99 | byte `i` of a chain is byte `i - 512` of the chain from the next sector |
| Js5File.EmptyFileReadsOneSector | src/js5-file.ts:64-73 | size 0 still needs a whole sector at the first position, and yields nothing |
| Js5File.PutBytes | src/store-file-base.ts:53 | `putBytes` writes the bytes at the cursor, advances it and leaves the rest of the buffer |
| Js5File.ReadCompressedBody | src/store-file-base.ts:129-163 | the body read, with its cursor moves, equals `ReadBody` |
| Js5File.WriteNoneContainer | src/store-file-base.ts:44-53 | the buffer written for kind 0 is the kind-0 container |
| Js5File.WritePackedContainer | src/store-file-base.ts:62-74 | the buffer written for bzip2/gzip is the packed container |
| Js5File.UnpackAfterHeader | src/store-file-base.ts:125-174 | body, footer and the empty-buffer fallback equal `UnpackBody` |
| Js5File.WalkChain | src/js5-file.ts:60-105 | the do-while with its writer cursor, chunk counter and pointer returns exactly `ReadChain` |
| Js5File.AfterNameHash | src/store-file-base.ts:265-270 | the hash is set; a zero hash keeps the name; nothing else changes |
| Js5File.Js5File.constructor | src/js5-file.ts:18-35 | named after its id, version 0, an empty buffer flagged compressed, size 0, under the given archive |
| Js5File.Js5File.NumericIndex | src/store-file-base.ts:225-227 | `Number(index)` gives back the numeric id |
| Js5File.Js5File.OwnerIndex | src/js5-file.ts:87 | the archive's numeric index, absent exactly when there is no archive |
| Js5File.Js5File.Compression | src/js5-file.ts:111-113 | the file's own kind, else the archive's, else uncompressed |
| Js5File.Js5File.SetData | src/store-file-base.ts:179-190 | a buffer is stored with both cursors reset, the flag is set, and the size is its length; nothing else changes |
| Js5File.Js5File.SetName | src/store-file-base.ts:276-281 | the name is set; a non-empty name also sets the hash; nothing else changes |
| Js5File.Js5File.SetNameHash | src/store-file-base.ts:265-270 | the hash is set; a non-zero hash also renames through the name table |
| Js5File.Js5File.ExtractPackedFile | src/js5-file.ts:42-109 | an index-record failure throws and changes nothing; otherwise size and sector are recorded, and only a complete walk replaces the data, with the chain's bytes, flagged compressed; the new fields are `ExtractedFields` of the old |
| Js5File.ExtractedFields | src/js5-file.ts:42-109 | the file state extraction leaves: name, hash, version, CRC and compression kept; a record failure changes nothing; a sound chain gives data of exactly `size` bytes, the chain's bytes from its first sector, flagged compressed; otherwise data and flag are kept |
| Js5File.Js5File.Assign | src/js5-archive.ts:56-73 | the file's whole changeable state (data, compression, name, hash, version, size, sector, CRC) becomes the given table state, as the metadata sections' setters leave a group's file |
| Js5File.Js5File.Compress | src/store-file-base.ts:34-79 | an already compressed entry is returned unchanged; otherwise the data becomes the container for the resolved kind, flagged compressed, with its size |
| Js5File.Js5File.Decrypt | src/store-file-base.ts:192-213 | works on a copy, so the data never changes; the result is `Decrypted`, null in exactly the same cases |
| Js5File.Js5File.DecompressBase | src/store-file-base.ts:81-177 | an uncompressed entry is returned unchanged; empty data gives null and changes nothing; a short header throws after the kind is recorded; otherwise the data becomes the `Decompressed` payload, uncompressed, and a trailing version is kept |
| Js5File.Js5File.Decompress | src/js5-file.ts:37-40 | the base operation with no game version, stated branch by branch with the full new state (data, flag, size, compression, version), and as `DecompressedFields` of the old fields |
| Js5File.DecompressedFields | src/store-file-base.ts:81-177 | the file state `decompress` leaves, with the kind-0 copy corrected: name, hash, sector and CRC kept; still compressed exactly when it was and the data is under five bytes; an entry that was uncompressed is returned as it was, and one that it uncompresses has its data length as size |
| Js5FileGroup.Js5FileGroup.constructor | src/js5-file-group.ts:11-15 | a new group of the archive under its id: no files, encoded |
| Js5FileGroup.Js5FileGroup.SetFile | src/js5-file-group.ts:22-24 | the entry under `String(id)` is set and no other changes; a new key goes last in iteration order, a known one keeps its place |
| Js5FileGroup.Js5FileGroup.GetFile | src/js5-file-group.ts:30-32 | the file under `String(id)`, or null exactly when absent |
| Js5FileGroup.Js5FileGroup.Encoded | src/js5-file-group.ts:34-36 | always true |
| Js5FileGroup.Js5FileGroup.HoldsValid | src/js5-file-group.ts:22-24 | a group built from an ordered table state keeps its map and its order in step |
| Js5FileGroup.SameEntryForNumberAndString | src/js5-file-group.ts:30-32 | a numeric id and its decimal string address the same entry |
| ArchiveIndex.IdKeysPrefix | src/js5-archive.ts:53-57 | one more id adds its key to the keys of the run |
| ArchiveIndex.IdKeysMembers | src/js5-archive.ts:53-57 | the run's keys are exactly the keys of its ids |
| ArchiveIndex.Shorts | src/js5-archive.ts:54 | `n` 2-byte reads give `n` values |
| ArchiveIndex.Ints | src/js5-archive.ts:102 | `n` 4-byte reads give `n` values |
| ArchiveIndex.ShortsAt | src/js5-archive.ts:54 | the `i`-th delta is the short at `pos + 2i` |
| ArchiveIndex.IntsAt | src/js5-archive.ts:102 | the `i`-th hash is the int at `pos + 4i` |
| ArchiveIndex.RunningSums | src/js5-archive.ts:52-57 | one id per delta |
| ArchiveIndex.RunningSumsSteps | src/js5-archive.ts:55 | the first id is the first delta; each later id is the previous id plus its delta |
| ArchiveIndex.RunningSumsNonDecreasing | src/js5-archive.ts:52-57 | ids never decrease in read order |
| ArchiveIndex.RunningSumsIncreasing | src/js5-archive.ts:52-57 | with every later delta positive, ids strictly increase, so no group is overwritten |
| ArchiveIndex.PlacedMembers | src/js5-file-group.ts:22-24 | the keys placed by an order are exactly the keys in it |
| ArchiveIndex.OrderStep | src/js5-archive.ts:101 | the next key of a group's order is one of its files not placed yet |
| ArchiveIndex.PlacedAll | src/js5-archive.ts:101 | a group's whole order places exactly its files |
| ArchiveIndex.Created | src/js5-archive.ts:53-57 | after the id section there is a new group under each id's key, and no other |
| ArchiveIndex.Stamp | src/js5-archive.ts:61-72 | a section entry sets its own field (name hash, CRC or version) to the value; CRC and version entries keep name and hash; nothing but these four fields changes |
| ArchiveIndex.Stamped | src/js5-archive.ts:59-73 | a 4-byte section changes only the groups' own files, each taking its ids' entries in read order: keys, orders and member files are unchanged |
| ArchiveIndex.CountsMap | src/js5-archive.ts:76-81 | every id of the section gets a child count |
| ArchiveIndex.CountsMapKeys | src/js5-archive.ts:76-81 | the counts map holds no key but the section's ids |
| ArchiveIndex.CountsMapValues | src/js5-archive.ts:76-81 | an id that no later id repeats maps to its own count, so a repeated id keeps the later count |
| ArchiveIndex.CountsRead | src/js5-archive.ts:78-80 | the count of an id no later id repeats is the short at its own offset in the counts section |
| ArchiveIndex.SetChild | src/js5-archive.ts:92 | `setFile` with a new file: its key joins the files, and a group whose map and order are in step stays so |
| ArchiveIndex.AddChildren | src/js5-archive.ts:88-93 | adding a run of children keeps the group's own file and keeps map and order in step |
| ArchiveIndex.AddChildrenFiles | src/js5-archive.ts:88-93 | the group's files gain exactly the keys of the run's ids, each new key holding a fresh file, and earlier files the run does not name keep their state |
| ArchiveIndex.Children | src/js5-archive.ts:84-94 | the children section keeps the set of groups and every group's own file, stays within the buffer and keeps every group in step |
| ArchiveIndex.ChildrenFrame | src/js5-archive.ts:84-94 | the children section from one id on leaves the group of an id it no longer reaches as it was |
| ArchiveIndex.ChildrenRunFirst | src/js5-archive.ts:84-94 | the group of an id no later id repeats ends with exactly its earlier keys plus the keys of its own run |
| ArchiveIndex.FirstRun | src/js5-archive.ts:76-94 | over fresh groups, the first id's group, when no other id repeats it, holds exactly the keys of the first run, as long as the first child count |
| ArchiveIndex.Run | src/js5-archive.ts:85-93 | one group's run of child ids, summed from 0, is read exactly when its deltas are there, ends right after them, adds exactly the run's keys to that group, and leaves every other group and every group's own file as it was |
| ArchiveIndex.NameChildren | src/js5-archive.ts:101-106 | naming children changes neither the group's own file nor its order nor its keys |
| ArchiveIndex.NameChildrenAt | src/js5-archive.ts:101-105 | the `j`-th file in insertion order takes the `j`-th hash through the `nameHash` setter, and a file past the last hash is unchanged |
| ArchiveIndex.ChildrenNamed | src/js5-archive.ts:97-108 | the child-name section keeps the set of groups, each group's own file, its keys and its order, stays within the buffer and keeps every group in step |
| ArchiveIndex.ChildrenNamedLength | src/js5-archive.ts:97-108 | the child-name section succeeds exactly when four bytes per child of every id are there, and ends right after them |
| ArchiveIndex.NamesLengthByOrders | src/js5-archive.ts:97-108 | the section's length depends only on the groups' orders |
| ArchiveIndex.ChildrenNamedFrame | src/js5-archive.ts:97-108 | the child-name section from one id on leaves the group of an id it no longer reaches as it was |
| ArchiveIndex.ChildrenNamedLast | src/js5-archive.ts:99-106 | the group of an id no later id repeats ends with its `j`-th file named by the int at the run's offset plus `4j` |
| ArchiveIndex.NameRun | src/js5-archive.ts:99-106 | one group's hashes, one per file in insertion order, are read exactly when `4` bytes per file are there, and the run ends right after them; the group's keys and order and every other group are kept |
| ArchiveIndex.NameRunFiles | src/js5-archive.ts:101-105 | after a run, the group's `j`-th file in insertion order has the int at `at + 4j` as its name hash, through the setter |
| ArchiveIndex.OrderedByKeys | src/js5-archive.ts:104 | renaming files keeps a group in step |
| ArchiveIndex.NamedFlag | src/js5-archive.ts:44 | files are named exactly when bit 0 of the flags byte is set (`& 0x01`) |
| ArchiveIndex.FixedSections | src/js5-archive.ts:59-73 | after the name, CRC and version sections the groups are those of the ids, still with no files, and the group of each id no later id repeats holds that id's name-hash entry when named, and its CRC and version entries |
| ArchiveIndex.StampFileEntry | src/js5-archive.ts:59-73 | a group whose id no later id repeats ends a name-hash, CRC or version section with its id's own entry |
| ArchiveIndex.StampedName | src/js5-archive.ts:59-63 | the name-hash section leaves such a group with its id's hash |
| ArchiveIndex.NumbersKeepNameHash | src/js5-archive.ts:65-73 | the CRC and version sections leave every name hash as it was |
| ArchiveIndex.NamesStamped | src/js5-archive.ts:59-63 | after the name-hash section, every id no later id repeats has its own hash entry |
| ArchiveIndex.StampedCrc | src/js5-archive.ts:65-68 | the CRC section leaves such a group with its id's CRC entry |
| ArchiveIndex.StampedVersion | src/js5-archive.ts:70-73 | the version section leaves such a group with its id's version entry |
| ArchiveIndex.VersionsKeepCrc | src/js5-archive.ts:70-73 | the version section leaves every CRC as it was |
| ArchiveIndex.CrcsThenVersions | src/js5-archive.ts:65-73 | after the CRC then the version section, every id no later id repeats has its own CRC and version entries, and keeps the name hash it had |
| ArchiveIndex.BareGroupsOrdered | src/js5-archive.ts:56 | groups with no files are in step and cover every id |
| ArchiveIndex.Tables | src/js5-archive.ts:59-108 | the sections after the header yield a group for each id, every group in step, ending within the buffer; each unrepeated id's group holds its name hash when named, its CRC and version entries, and an unrepeated first id's group holds exactly the keys of the first child run |
| ArchiveIndex.ChildSections | src/js5-archive.ts:76-108 | the counts, children and child-name sections keep the groups and their own files, end within the buffer, and give an unrepeated first id's group exactly the keys of the first child run |
| ArchiveIndex.DecodeIndex | src/js5-archive.ts:43-108 | format is byte 0 and naming is bit 0 of byte 1; the ids are the running sums of the N deltas; the groups are exactly the ids' groups, in step, and the read ends within the buffer |
| ArchiveIndex.DecodedEntries | src/js5-archive.ts:59-94 | in a decoded table, the group of every id no later id repeats holds that id's name hash when named, and its CRC and version entries; an unrepeated first id's group holds exactly the keys of the first child run |
| ArchiveIndex.AddChildrenStep | src/js5-archive.ts:89-92 | one more child delta sets one more child, whose id is the accumulator plus that delta |
| ArchiveIndex.AddChildrenSnoc | src/js5-archive.ts:92 | loop-proof step: children from one more id are the earlier children, then that id set |
| ArchiveIndex.NameChildrenStep | src/js5-archive.ts:101-105 | loop-proof step: one more hash renames the next file in insertion order, if it is there |
| ArchiveIndex.CreatedSnoc | src/js5-archive.ts:56 | loop-proof step: one more id adds or replaces a new group under its key |
| ArchiveIndex.GroupIdsStep | src/js5-archive.ts:53-57 | one round of the id loop extends ids, accumulator and groups consistently |
| ArchiveIndex.SumsSnoc | src/js5-archive.ts:54-55 | one more delta read gives one more id, the last one plus the delta |
| ArchiveIndex.StampedStep | src/js5-archive.ts:60-73 | loop-proof step: one more section entry applies its setter to its id's group |
| Js5Archive.ArchiveData | src/js5-archive.ts:34-41 | the archive's packed file, unpacked with the kind-0 copy corrected: an extraction failure exactly when the index record or the sector chain fails; an empty chain gives empty data; a header-range failure only for a chain of one to four bytes |
| Js5Archive.ReadGroupIds | src/js5-archive.ts:46-57 | the id loop succeeds exactly when the N deltas are there, yielding the running sums and a new group per id |
| Js5Archive.NextGroupId | src/js5-archive.ts:54-56 | one round: the accumulator takes the delta, the id is kept, and a new group is set under it |
| Js5Archive.StampSection | src/js5-archive.ts:59-73 | a 4-byte section succeeds exactly when it is in the buffer, and equals `Stamped` |
| Js5Archive.StampAll | src/js5-archive.ts:60-73 | the section's loop over the ids equals `Stamped` |
| Js5Archive.NextStamp | src/js5-archive.ts:61-72 | one round: the id's group takes the next int through the setter |
| Js5Archive.ReadChildCounts | src/js5-archive.ts:76-81 | the counts section succeeds exactly when it is there, and equals `CountsMap` |
| Js5Archive.ReadRun | src/js5-archive.ts:88-93 | a group's child loop, with the accumulator reset to 0, equals `Run` |
| Js5Archive.ReadChildren | src/js5-archive.ts:84-94 | the children loop equals `Children`, failing where a run goes past the end |
| Js5Archive.ReadNames | src/js5-archive.ts:99-106 | a group's name loop, in insertion order, equals `NameRun`: it fails exactly when the hashes are not all there, and otherwise names the `j`-th file with the `j`-th int |
| Js5Archive.ReadChildNames | src/js5-archive.ts:97-108 | the child-name loop equals `ChildrenNamed`, so it succeeds exactly when four bytes per child are there and names each group's files in insertion order |
| Js5Archive.ReadFixedSections | src/js5-archive.ts:59-73 | names when flagged, then CRCs and versions, succeed exactly when all are there, and equal `FixedSections` |
| Js5Archive.ParseIndex | src/js5-archive.ts:43-108 | the section-by-section read equals `DecodeIndex` |
| Js5Archive.ReadTables | src/js5-archive.ts:83-108 | children then, when named, child names equal `Tables` |
| Js5Archive.Js5Archive.constructor | src/js5-archive.ts:17-22 | a new archive file under its id, with no groups |
| Js5Archive.Js5Archive.SetGroup | src/js5-archive.ts:122-124 | the entry under `String(id)` is set or replaced, and no other changes |
| Js5Archive.Js5Archive.GetGroup | src/js5-archive.ts:130-132 | the group under `String(id)`, absent exactly when there is none |
| Js5Archive.Js5Archive.BuildGroup | src/js5-archive.ts:56-106 | a new group holding a table state: its own file's state, and a new file of this archive per key of the order, in that order, each holding its state |
| Js5Archive.Js5Archive.FillNext | src/js5-archive.ts:92 | setting the next key of the order keeps the partly built group in step with the state |
| Js5Archive.Js5Archive.NewFile | src/js5-archive.ts:92 | a new file of this archive under the key, holding the state |
| Js5Archive.Js5Archive.Install | src/js5-archive.ts:53-106 | each id's group holds its table state; other groups are kept; nothing else changes |
| Js5Archive.Js5Archive.InstallNext | src/js5-archive.ts:56 | one id's group is built and set; every other entry stays |
| Js5Archive.Js5Archive.ReadIndex | src/js5-archive.ts:43-108 | format is the first byte; naming is read when there is a second; a read past the end fails; otherwise every group of the decoded table is installed |
| Js5Archive.Js5Archive.Decode | src/js5-archive.ts:24-108 | the archive is named and hashed; archive 255 stops there with nothing else changed; an extraction failure throws; empty unpacked data adds no groups; otherwise the table is read and installed; the file's fields are `LoadedFields` of the named ones |
| Js5Archive.Js5Archive.Load | src/js5-archive.ts:34-108 | extraction, decompression and the table read, with the name left as set; the file's fields become `LoadedFields` of the old |
| Js5Archive.LoadedFields | src/js5-archive.ts:34-36 | the archive file after extraction and decompression, with the kind-0 copy corrected: name, hash and CRC kept; a sound chain whose unpacked data is non-empty leaves exactly that data, uncompressed, with its length as size; an unsound chain leaves the extracted state with the old data |

## Left out

- Compression and cipher libraries: bzip2, gzip, the XTEA cipher and its key check are functions in `Backends` with no properties of their own. Only the framing around them is modelled.
- Checksums: `generateCrc32` and `generateSha256` call an unseen CRC module and Node's crypto, and are not modelled. The CRC field is only set from the metadata table.
- The store's file reading, and configuration loading from disk. Each configuration table is a value passed in, and the archive's configuration entry is reduced to its name.
- Logging and the one-time XTEA warning flag have no behaviour to model.
- The encryption method and game version: `Js5File.decompress` reads these from the store and archive through types that do not line up, so they are parameters here.
  - `Decompress` passes no game version, as the source does.
  - `DecompressBase` takes the game version explicitly.
- Decode's name hash: `decode` calls `archiveConfig.hashFileName`, which the archive configuration class does not define. The model uses the store configuration's `hashFileName`, the same fold.
- The per-group `decode()` call after the table (js5-archive.ts:110-114): the group class defines no such method, so the archive model ends after the metadata parse. Stripe counts and sizes are never used and are not modelled.
- Js5Archive.Js5Archive.Install: the model decodes the whole table on values first, then creates the group and file objects from it.
  - The source creates them while reading.
  - The objects and their states are the same on success.
  - A read past the end throws partway in the source, leaving the groups set so far. The model states only the failure, not that partial state.
- Js5Archive.Js5Archive.Decode: the result of a thrown exception is an `Outcome` value. Partial state left by a throw is not stated beyond what each contract says.
- Js5File.Js5File.ExtractPackedFile: the failure cases state the error and the fields they keep. The writes into the fresh output buffer are proved in `WalkChain`.
- Js5File.Js5File.Compress: requires that the payload and packed lengths fit the signed 32-bit field that `put(…, 'int')` writes. Larger buffers are not modelled.
- StoreFileBase.PackedRoundTrip: for bzip2 it requires the packed bytes to be no longer than the payload. The source sizes the decompressor's input by the original length (store-file-base.ts:144-147), and this lemma does not cover longer packed data.
- JsValues.ParseNumber: `Number(s)` is modelled for the empty string and optionally signed decimal digits. Other inputs give NaN, which leaves out whitespace, hexadecimal, exponents and fractions.
- Js5File.ReadIndexRecord and Js5File.ReadChain: the "not enough readable data" checks (js5-file.ts:53, js5-file.ts:71) are modelled as "fewer bytes were copied than asked for". This assumes that a fresh buffer's `readable` after `copy` counts the bytes delivered.
  - The ByteBuffer library is not part of this model, so that assumption cannot be checked here.
  - If `readable` is `length - readerIndex`, the checks never fire, and a short read comes back padded with zeros.
  - If it is `writerIndex - readerIndex`, and `copy` leaves the writer index at 0, the checks always fire.
- StoreFileBase.Footer: the footer test (store-file-base.ts:166) reads `readable` as `length - readerIndex`, the reading the line above rejects for the index-record and sector checks. The model therefore reads `readable` two ways: as bytes delivered for a fresh copy target, and as bytes left before the end for the decompressed container, whose cursor the body read has moved.
- StoreFileBase.ReadBody, Js5File.ReadCompressedBody, Js5File.UnpackAfterHeader, Js5File.Js5File.DecompressBase, Js5File.Js5File.Decompress, Js5Archive.Js5Archive.Decode and Js5Archive.Js5Archive.Load: these use the kind-0 body copy corrected as in "## Findings" (`NoneBody`). The copy as written is modelled only by `NoneBodyAsWritten` and the lemmas about it.
- UnpackBody: a kind-0 body is the corrected copy `NoneBody`, not the `clen - 5` bytes store-file-base.ts:132 copies as written (see "## Findings").
- Decompressed: built on `UnpackBody`, so a kind-0 payload is the corrected copy.
- DecompressedFields: the data it stores for kind 0 is the corrected copy, through `UnpackBody`.
- LoadedFields: the archive's unpacked data is `DecompressedFields`' data, so for kind 0 the corrected copy.
- ArchiveData: the archive's unpacked data is `UnpackBody`'s payload, so for kind 0 the corrected copy.
- ArchiveIndex.DecodedEntries: it states the name hash (when named), CRC and version of every group whose id is not repeated later, and the child keys of the first group. The child keys of later groups and the child name hashes are stated one run at a time (`Run`, `ChildrenRunFirst`, `NameRunFiles`, `ChildrenNamedLast`) and are not lifted to absolute offsets in the buffer, because those offsets depend on every earlier group's child count.
- Numbers are integers: no floating point, no non-integer hashes or ids.
- The store-config `hashFileName` reuses the name-hash loop instead of a second copy of it.

## Findings

| source | as written | input that shows it | evidently intended | confidence | as-written member | corrected member |
|---|---|---|---|---|---|---|
| src/store-file-base.ts:132 | the kind-0 body copy ends at absolute offset `compressedLength`, so only `compressedLength - 5` payload bytes arrive and the last five stay zero | `compress` then `decompress` of the payload 1,2,3,4,5,6 with no compression gives 1,0,0,0,0,0 | copy up to `readerIndex + compressedLength` | not executed; assumes `copy` follows Node's `Buffer.copy`, as the index-record copy at js5-file.ts:51 does | StoreFileBase.NoneRoundTripAsWrittenExample | StoreFileBase.NoneRoundTrip |
| src/store-file-base.ts:189 | `setData(null, …)` replaces the data with an empty buffer, then reads `data.length` from the null argument and throws; every file constructor makes that call (js5-file.ts:34) | `setData(null, true)` | size 0 with an empty buffer, as the branch above it prepares | not executed | StoreFileBase.SetDataOfNull | StoreFileBase.SetDataCorrected |
