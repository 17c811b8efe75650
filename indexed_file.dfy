/**
 * The indexed file entry: an id kept as a string, optional data with its
 * compressed flag and size, and a name kept in step with its hash.
 */
module IndexedFile {
  import opened Wrappers
  import opened Bytes
  import opened JsValues
  import NameHash
  import StoreConfig

  /** The `uncompressed` member of the compression enumeration. */
  const UNCOMPRESSED: int := 0

  class IndexedFile {
    /** The id, as `String(id)` for a numeric id. */
    const index: string

    var compression: Option<int>
    var crc32: Option<int>
    var name: Option<string>
    var version: Option<int>
    var nameHash: Option<int>
    var data: Option<ByteBuffer>
    var compressed: Option<bool>
    var size: Option<nat>

    /** Stored data is never empty, and a stored size is the stored data's length. */
    ghost predicate Valid()
      reads this
    {
      (data.Some? ==> |data.value.bytes| > 0 && size == Some(|data.value.bytes|)) &&
      (data.None? && size.Some? ==> size.value == 0)
    }

    /** Every field but the id starts out undefined. */
    constructor(id: Index)
      ensures index == Key(id)
      ensures compression.None? && crc32.None? && name.None? && version.None? && nameHash.None?
      ensures data.None? && compressed.None? && size.None?
      ensures Valid()
    {
      index := Key(id);
      compression := None;
      crc32 := None;
      name := None;
      version := None;
      nameHash := None;
      data := None;
      compressed := None;
      size := None;
    }

    /** `numericIndex`: `Number(index)`. */
    function NumericIndex(): (n: JsNumber)
      ensures forall k: int :: index == DecimalString(k) ==> n == Num(k)
    {
      NumbersOfDecimalStrings();
      ParseNumber(index)
    }

    /**
     * `setData`: non-empty data is stored with both cursors reset; null or
     * empty data clears the entry. The size is the argument's length, 0 for null.
     */
    method SetData(newData: Option<ByteBuffer>, isCompressed: bool)
      modifies this
      ensures newData.Some? && |newData.value.bytes| > 0 ==> data == Some(ByteBuffer(newData.value.bytes, 0, 0))
      ensures newData.None? || |newData.value.bytes| == 0 ==> data.None?
      ensures compressed == Some(isCompressed)
      ensures size == Some(if newData.Some? then |newData.value.bytes| else 0)
      ensures compression == old(compression) && crc32 == old(crc32) && name == old(name)
      ensures version == old(version) && nameHash == old(nameHash)
      ensures Valid()
    {
      if newData.Some? && |newData.value.bytes| > 0 {
        data := Some(ByteBuffer(newData.value.bytes, 0, 0));
      } else {
        data := None;
      }
      compressed := Some(isCompressed);
      size := Some(if newData.Some? then |newData.value.bytes| else 0);
    }

    /** `compression`: uncompressed unless set. */
    function Compression(): (c: int)
      reads this
      ensures compression.None? ==> c == UNCOMPRESSED
      ensures compression.Some? ==> c == compression.value
    {
      compression.GetOr(UNCOMPRESSED)
    }

    /** The `name` setter: the hash always follows the name, even for an empty name. */
    method SetName(newName: string)
      modifies this
      ensures name == Some(newName) && nameHash == Some(NameHash.FileNameHash(newName))
      ensures data == old(data) && compressed == old(compressed) && size == old(size)
      ensures compression == old(compression) && crc32 == old(crc32) && version == old(version)
    {
      name := Some(newName);
      var h := StoreConfig.HashFileName(newName);
      nameHash := Some(h);
    }

    /** The `nameHash` setter: the name always follows the hash, through the name table. */
    method SetNameHash(newHash: int, config: StoreConfig.StoreConfig)
      modifies this
      ensures nameHash == Some(newHash) && name == StoreConfig.GetFileName(config, NumIndex(newHash))
      ensures data == old(data) && compressed == old(compressed) && size == old(size)
      ensures compression == old(compression) && crc32 == old(crc32) && version == old(version)
    {
      nameHash := Some(newHash);
      name := StoreConfig.GetFileName(config, NumIndex(newHash));
    }
  }

  /** A file created with a numeric id reports that id as its numeric index. */
  lemma NumericIndexOfNumericId(f: IndexedFile, k: int)
    requires f.index == Key(NumIndex(k))
    ensures f.NumericIndex() == Num(k)
  {
  }
}
