/**
 * The store configuration's lookups over its in-memory tables: XTEA key sets
 * by file name, archive details by index, archive index by name, and file names
 * by name hash.
 */
module StoreConfig {
  import opened Wrappers
  import opened JsValues
  import NameHash

  /** One XTEA key set as the key files list it. */
  datatype XteaKeys = XteaKeys(gameVersion: Option<int>, key: Option<seq<int>>)

  /** The optional `content` block of an archive's configuration. */
  datatype ArchiveContentDetails = ArchiveContentDetails(
    encryption: Option<string>,
    fileExtension: Option<string>,
    saveFileNames: Option<bool>,
    defaultFileNames: Option<map<string, int>>)

  /** An archive's configuration entry. */
  datatype ArchiveDetails = ArchiveDetails(
    index: int,
    name: string,
    format: Option<int>,
    compression: string,
    content: Option<ArchiveContentDetails>)

  /** One entry of the archive table, in the table's insertion order. */
  datatype ArchiveEntry = ArchiveEntry(archiveIndex: string, details: ArchiveDetails)

  /** What `getXteaKey` hands back: null, a single key set, or the whole list. */
  datatype XteaKeySelection = NoKey | OneKey(keySet: XteaKeys) | KeyList(keySets: seq<XteaKeys>)

  /**
   * The configuration's tables after loading: the game version it was
   * registered with, the archive table as an ordered map, the file-name table
   * keyed by number and the XTEA key sets keyed by file name.
   */
  datatype StoreConfig = StoreConfig(
    gameVersion: Option<int>,
    archives: seq<ArchiveEntry>,
    fileNames: map<JsNumber, string>,
    xteaKeys: map<string, seq<XteaKeys>>)
  {
    /** A `Map` holds each key once. */
    ghost predicate Valid() {
      forall i, j :: 0 <= i < j < |archives| ==> archives[i].archiveIndex != archives[j].archiveIndex
    }
  }

  /**
   * `keySets.find(k => k.gameVersion === version)`: the first key set recorded
   * for the version, if any.
   */
  function FindKeySet(keySets: seq<XteaKeys>, version: Option<int>): (r: Option<XteaKeys>)
    ensures r.None? <==> forall i :: 0 <= i < |keySets| ==> keySets[i].gameVersion != version
    ensures r.Some? ==> exists i :: 0 <= i < |keySets| && keySets[i] == r.value && r.value.gameVersion == version &&
                                     forall j :: 0 <= j < i ==> keySets[j].gameVersion != version
  {
    if keySets == [] then None
    else if keySets[0].gameVersion == version then Some(keySets[0])
    else
      var r := FindKeySet(keySets[1..], version);
      assert forall i :: 1 <= i < |keySets| ==> keySets[i] == keySets[1..][i - 1];
      if r.Some? then
        ghost var i :| 0 <= i < |keySets[1..]| && keySets[1..][i] == r.value && r.value.gameVersion == version &&
                       forall j :: 0 <= j < i ==> keySets[1..][j].gameVersion != version;
        assert keySets[i + 1] == r.value;
        r
      else r
  }

  /**
   * `getXteaKey`: null when no key sets are loaded or none are listed for the
   * name; with a registered game version the first key set for that version
   * (or null); without one the whole list.
   */
  function GetXteaKey(config: StoreConfig, fileName: string): (r: XteaKeySelection)
    ensures |config.xteaKeys| == 0 || fileName !in config.xteaKeys ==> r == NoKey
    ensures fileName in config.xteaKeys && config.gameVersion.None? ==> r == KeyList(config.xteaKeys[fileName])
    ensures config.gameVersion.Some? ==> !r.KeyList?
    ensures r.OneKey? ==>
              fileName in config.xteaKeys &&
              var keySets := config.xteaKeys[fileName];
              exists i :: 0 <= i < |keySets| && keySets[i] == r.keySet && r.keySet.gameVersion == config.gameVersion &&
                          forall j :: 0 <= j < i ==> keySets[j].gameVersion != config.gameVersion
    ensures fileName in config.xteaKeys && config.gameVersion.Some? ==>
              (r.NoKey? <==> forall k :: k in config.xteaKeys[fileName] ==> k.gameVersion != config.gameVersion)
  {
    if |config.xteaKeys| == 0 || fileName !in config.xteaKeys then NoKey
    else
      var keySets := config.xteaKeys[fileName];
      match config.gameVersion
      case Some(_) =>
        (match FindKeySet(keySets, config.gameVersion)
         case Some(k) => OneKey(k)
         case None => NoKey)
      case None => KeyList(keySets)
  }

  /** `archives.get(archiveIndex)`. */
  function GetArchiveDetails(config: StoreConfig, archiveIndex: string): (r: Option<ArchiveDetails>)
    ensures r.None? <==> forall i :: 0 <= i < |config.archives| ==> config.archives[i].archiveIndex != archiveIndex
    ensures r.Some? ==> exists i :: 0 <= i < |config.archives| && config.archives[i] == ArchiveEntry(archiveIndex, r.value)
  {
    LookupArchive(config.archives, archiveIndex)
  }

  function LookupArchive(entries: seq<ArchiveEntry>, archiveIndex: string): (r: Option<ArchiveDetails>)
    ensures r.None? <==> forall i :: 0 <= i < |entries| ==> entries[i].archiveIndex != archiveIndex
    ensures r.Some? ==> exists i :: 0 <= i < |entries| && entries[i] == ArchiveEntry(archiveIndex, r.value)
  {
    if entries == [] then None
    else if entries[0].archiveIndex == archiveIndex then Some(entries[0].details)
    else
      var r := LookupArchive(entries[1..], archiveIndex);
      assert forall i :: 1 <= i < |entries| ==> entries[i] == entries[1..][i - 1];
      if r.Some? then
        ghost var i :| 0 <= i < |entries[1..]| && entries[1..][i] == ArchiveEntry(archiveIndex, r.value);
        assert entries[i + 1] == ArchiveEntry(archiveIndex, r.value);
        r
      else r
  }

  /**
   * `getArchiveGroupNames`: the archive's default file names, or an empty table
   * when the archive, its content block or the names are missing.
   */
  function GetArchiveGroupNames(config: StoreConfig, archiveIndex: string): (r: map<string, int>)
    ensures r != map[] ==> exists i :: 0 <= i < |config.archives| && config.archives[i].archiveIndex == archiveIndex &&
                                       config.archives[i].details.content.Some? &&
                                       config.archives[i].details.content.value.defaultFileNames == Some(r)
    ensures (forall i :: 0 <= i < |config.archives| ==> config.archives[i].archiveIndex != archiveIndex) ==> r == map[]
  {
    match GetArchiveDetails(config, archiveIndex)
    case Some(details) =>
      (match details.content
       case Some(content) => content.defaultFileNames.GetOr(map[])
       case None => map[])
    case None => map[]
  }

  /** In a valid table the entry found for an index is the only one under that index. */
  lemma GroupNamesOfListedArchive(config: StoreConfig, i: int)
    requires config.Valid() && 0 <= i < |config.archives|
    ensures var details := config.archives[i].details;
            GetArchiveGroupNames(config, config.archives[i].archiveIndex) ==
              if details.content.Some? && details.content.value.defaultFileNames.Some?
              then details.content.value.defaultFileNames.value else map[]
  {
    var found := GetArchiveDetails(config, config.archives[i].archiveIndex);
    var j :| 0 <= j < |config.archives| && config.archives[j] == ArchiveEntry(config.archives[i].archiveIndex, found.value);
    assert j == i;
  }

  /**
   * `getArchiveIndex`: the index of the first archive, in the table's
   * insertion order, whose name is `archiveName`.
   */
  method GetArchiveIndex(config: StoreConfig, archiveName: string) returns (r: Option<string>)
    ensures r.None? <==> forall i :: 0 <= i < |config.archives| ==> config.archives[i].details.name != archiveName
    ensures r.Some? ==> exists i :: 0 <= i < |config.archives| && config.archives[i].archiveIndex == r.value &&
                                     config.archives[i].details.name == archiveName &&
                                     forall j :: 0 <= j < i ==> config.archives[j].details.name != archiveName
  {
    var archives := config.archives;
    for i := 0 to |archives|
      invariant forall j :: 0 <= j < i ==> archives[j].details.name != archiveName
    {
      if archives[i].details.name == archiveName {
        return Some(archives[i].archiveIndex);
      }
    }
    return None;
  }

  /** `hashFileName`: the same wrapping hash as the name-hash helper. */
  method HashFileName(fileName: string) returns (hash: int)
    ensures hash == NameHash.FileNameHash(fileName)
    ensures -TWO_POW_31 <= hash < TWO_POW_31
  {
    hash := NameHash.HashFileName(fileName);
  }

  /** The number a `string | number` hash is looked up under: `Number(s)` for a string. */
  function HashKey(nameHash: Index): (r: JsNumber)
    ensures nameHash.NumIndex? ==> r == Num(nameHash.n)
    ensures forall h :: nameHash == StrIndex(DecimalString(h)) ==> r == Num(h)
  {
    match nameHash
    case NumIndex(n) => Num(n)
    case StrIndex(s) => NumbersOfDecimalStrings(); ParseNumber(s)
  }

  /** `getFileName`: the name recorded for the hash, or undefined. */
  function GetFileName(config: StoreConfig, nameHash: Index): (r: Option<string>)
    ensures r.Some? <==> HashKey(nameHash) in config.fileNames
    ensures r.Some? ==> r.value == config.fileNames[HashKey(nameHash)]
  {
    var key := HashKey(nameHash);
    if key in config.fileNames then Some(config.fileNames[key]) else None
  }

  /** A hash given as its decimal string finds the same name as the number itself. */
  lemma FileNameOfHashString(config: StoreConfig, h: int)
    ensures GetFileName(config, StrIndex(DecimalString(h))) == GetFileName(config, NumIndex(h))
  {
    NumberOfDecimalString(h);
  }
}
