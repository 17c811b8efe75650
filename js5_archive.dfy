/**
 * An archive of the JS5 store: a file of its own whose unpacked data is the
 * metadata table of its groups, and the table of groups that decoding that
 * data fills in, keyed by group id as a string.
 */
module Js5Archive {
  import opened Wrappers
  import opened Bytes
  import opened JsValues
  import StoreConfig
  import NameHash
  import J = Js5File
  import SFB = StoreFileBase
  import AI = ArchiveIndex
  import G = Js5FileGroup

  /** Why `decode` stops with an exception. */
  datatype DecodeError =
    | ExtractFailed(cause: J.ExtractError)
    | HeaderOutOfRange
    | IndexOutOfRange

  /**
   * What the archive's own packed file unpacks to: the bytes of its sector
   * chain, opened as a container. An empty chain gives no data.
   */
  function ArchiveData(id: JsNumber, owner: Option<JsNumber>, indexChannel: seq<byte>, dataChannel: seq<byte>,
                       b: SFB.Backends): (r: Result<seq<byte>, DecodeError>)
    ensures var rec := J.ReadIndexRecord(id, indexChannel);
            (r.Failure? && r.error.ExtractFailed?) <==>
              (rec.Failure? || J.ReadChain(id, owner, dataChannel, rec.value.sector * J.FULL_SECTOR_LENGTH, rec.value.size, 0).Failure?)
    ensures r == Success([]) <== var rec := J.ReadIndexRecord(id, indexChannel);
              rec.Success? && rec.value.size == 0 && J.ReadChain(id, owner, dataChannel, rec.value.sector * J.FULL_SECTOR_LENGTH, 0, 0).Success?
    ensures r == Failure(HeaderOutOfRange) ==> var rec := J.ReadIndexRecord(id, indexChannel);
              rec.Success? && 0 < rec.value.size < 5
  {
    match J.ReadIndexRecord(id, indexChannel)
    case Failure(e) => Failure(ExtractFailed(e))
    case Success(record) =>
      match J.ReadChain(id, owner, dataChannel, record.sector * J.FULL_SECTOR_LENGTH, record.size, 0)
      case Failure(e) => Failure(ExtractFailed(e))
      case Success(packed) =>
        if |packed| == 0 then Success([])
        else if |packed| < 5 then Failure(HeaderOutOfRange)
        else Success(SFB.UnpackBody(packed[0], BigEndian(packed[1..5]), packed, b).payload)
  }

  /**
   * The archive file's own state after `extractPackedFile` and `decompress`:
   * unpacked when the packed file was read in full, otherwise as the failed
   * extraction left it.
   */
  function LoadedFields(f: J.FileFields, id: JsNumber, owner: Option<JsNumber>, indexChannel: seq<byte>,
                        dataChannel: seq<byte>, b: SFB.Backends): (r: J.FileFields)
    ensures r.name == f.name && r.nameHash == f.nameHash && r.crc32 == f.crc32
    ensures J.ChainReads(id, owner, indexChannel, dataChannel) ==>
              var d := ArchiveData(id, owner, indexChannel, dataChannel, b);
              d.Success? && |d.value| > 0 ==> !r.compressed && r.data == ByteBuffer(d.value, 0, 0) && r.size == |d.value|
    ensures !J.ChainReads(id, owner, indexChannel, dataChannel) ==>
              r == J.ExtractedFields(f, id, owner, indexChannel, dataChannel) && r.data == f.data
  {
    var e := J.ExtractedFields(f, id, owner, indexChannel, dataChannel);
    if J.ChainReads(id, owner, indexChannel, dataChannel) then J.DecompressedFields(e, b) else e
  }

  // ------------------------------------------------ the sections, one by one

  /** The group-id section: `n` deltas summed into ids, a new group under each. */
  method ReadGroupIds(buf: seq<byte>, n: nat) returns (ok: bool, ids: seq<nat>, table: map<string, AI.GroupState>)
    ensures ok <==> AI.NamesAt(n) <= |buf|
    ensures ok ==> ids == AI.RunningSums(AI.Shorts(buf, 4, n)) && table == AI.Created(ids)
  {
    ids, table := [], map[];
    if |buf| < AI.NamesAt(n) {
      return false, ids, table;
    }
    var accumulator: nat := 0;
    for i := 0 to n
      invariant ids == AI.RunningSums(AI.Shorts(buf, 4, i)) && accumulator == AI.Total(ids)
      invariant table == AI.Created(ids)
    {
      ids, table, accumulator := NextGroupId(buf, i, ids, table, accumulator);
    }
    return true, ids, table;
  }

  /** One round of the id loop: the next delta raises the running id, which gets a new group. */
  method NextGroupId(buf: seq<byte>, i: nat, ids: seq<nat>, table: map<string, AI.GroupState>, accumulator: nat)
    returns (ids': seq<nat>, table': map<string, AI.GroupState>, accumulator': nat)
    requires AI.NamesAt(i + 1) <= |buf|
    requires ids == AI.RunningSums(AI.Shorts(buf, 4, i)) && accumulator == AI.Total(ids) && table == AI.Created(ids)
    ensures ids' == AI.RunningSums(AI.Shorts(buf, 4, i + 1)) && accumulator' == AI.Total(ids')
    ensures table' == AI.Created(ids')
  {
    AI.GroupIdsStep(buf, i, ids, table, accumulator);
    accumulator' := accumulator + AI.U16(buf, 4 + 2 * i);
    ids' := ids + [accumulator'];
    table' := table[AI.IdKey(accumulator') := AI.NewGroup(AI.IdKey(accumulator'))];
  }

  /** A 4-byte section at `pos`: each id's group takes its entry through the section's setter. */
  method StampSection(buf: seq<byte>, pos: nat, ids: seq<nat>, section: AI.Section, config: StoreConfig.StoreConfig,
                      table: map<string, AI.GroupState>) returns (ok: bool, stamped: map<string, AI.GroupState>)
    requires AI.Covers(table, ids)
    ensures ok <==> pos + 4 * |ids| <= |buf|
    ensures ok ==> stamped == AI.Stamped(table, ids, buf, pos, |ids|, section, config)
  {
    if |buf| < pos + 4 * |ids| {
      return false, table;
    }
    stamped := StampAll(buf, pos, ids, section, config, table);
    return true, stamped;
  }

  /** The loop of a 4-byte section that is wholly inside the buffer. */
  method StampAll(buf: seq<byte>, pos: nat, ids: seq<nat>, section: AI.Section, config: StoreConfig.StoreConfig,
                  table: map<string, AI.GroupState>) returns (stamped: map<string, AI.GroupState>)
    requires AI.Covers(table, ids) && pos + 4 * |ids| <= |buf|
    ensures stamped == AI.Stamped(table, ids, buf, pos, |ids|, section, config)
  {
    stamped := table;
    for i := 0 to |ids|
      invariant stamped == AI.Stamped(table, ids, buf, pos, i, section, config)
    {
      stamped := NextStamp(buf, pos, ids, section, config, table, i, stamped);
    }
  }

  /** One round of a 4-byte section's loop: the `i`-th id's group takes the `i`-th value. */
  method NextStamp(buf: seq<byte>, pos: nat, ids: seq<nat>, section: AI.Section, config: StoreConfig.StoreConfig,
                   table: map<string, AI.GroupState>, i: nat, stamped: map<string, AI.GroupState>)
    returns (stamped': map<string, AI.GroupState>)
    requires AI.Covers(table, ids) && i < |ids| && pos + 4 * |ids| <= |buf|
    requires stamped == AI.Stamped(table, ids, buf, pos, i, section, config)
    ensures stamped' == AI.Stamped(table, ids, buf, pos, i + 1, section, config)
  {
    AI.StampedStep(table, ids, buf, pos, i, section, config);
    var key := AI.IdKey(ids[i]);
    stamped' := stamped[key := stamped[key].(file := AI.Stamp(stamped[key].file, section, AI.I32(buf, pos + 4 * i), config))];
  }

  /** The child-count section read into `groupChildCounts`. */
  method ReadChildCounts(buf: seq<byte>, pos: nat, ids: seq<nat>) returns (ok: bool, counts: map<nat, nat>)
    ensures ok <==> pos + 2 * |ids| <= |buf|
    ensures ok ==> counts == AI.CountsMap(ids, AI.Shorts(buf, pos, |ids|))
  {
    counts := map[];
    if |buf| < pos + 2 * |ids| {
      return false, counts;
    }
    var at := pos;
    for i := 0 to |ids|
      invariant at == pos + 2 * i
      invariant counts == AI.CountsMap(ids[..i], AI.Shorts(buf, pos, i))
    {
      assert ids[..i + 1][..i] == ids[..i];
      assert AI.Shorts(buf, pos, i + 1)[..i] == AI.Shorts(buf, pos, i);
      counts := counts[ids[i] := AI.U16(buf, at)];
      at := at + 2;
    }
    assert ids[..|ids|] == ids;
    return true, counts;
  }

  /** One group's run of `count` child-id deltas, summed from 0, each id set on the group in turn. */
  method ReadRun(buf: seq<byte>, at: nat, key: string, count: nat, table: map<string, AI.GroupState>)
    returns (ok: bool, next: nat, after: map<string, AI.GroupState>)
    requires at <= |buf| && key in table
    ensures AI.Run(table, at, key, count, buf) == if ok then Some((after, next)) else None
  {
    if |buf| < at + 2 * count {
      return false, at, table;
    }
    var group := table[key];
    var accumulator := 0;
    next := at;
    for j := 0 to count
      invariant next == at + 2 * j
      invariant accumulator == AI.Total(AI.RunningSums(AI.Shorts(buf, at, j)))
      invariant group == AI.AddChildren(table[key], AI.RunningSums(AI.Shorts(buf, at, j)))
    {
      AI.AddChildrenStep(table[key], buf, at, j);
      accumulator := accumulator + AI.U16(buf, next);
      group := AI.SetChild(group, AI.IdKey(accumulator));
      next := next + 2;
    }
    return true, next, table[key := group];
  }

  /** The children section: each group id in turn reads its run, as long as its child count. */
  method ReadChildren(buf: seq<byte>, pos: nat, ids: seq<nat>, counts: map<nat, nat>, table: map<string, AI.GroupState>)
    returns (ok: bool, end: nat, after: map<string, AI.GroupState>)
    requires pos <= |buf| && AI.Covers(table, ids) && forall i :: 0 <= i < |ids| ==> ids[i] in counts
    ensures AI.Children(table, ids, counts, buf, pos, 0) == if ok then Some((after, end)) else None
  {
    after, end := table, pos;
    for i := 0 to |ids|
      invariant end <= |buf| && after.Keys == table.Keys
      invariant AI.Children(table, ids, counts, buf, pos, 0) == AI.Children(after, ids, counts, buf, end, i)
    {
      var next, cur;
      ok, next, cur := ReadRun(buf, end, AI.IdKey(ids[i]), counts[ids[i]], after);
      if !ok {
        return false, end, after;
      }
      after, end := cur, next;
    }
    return true, end, after;
  }

  /** One group's name hashes: one per file, in the group's insertion order. */
  method ReadNames(buf: seq<byte>, at: nat, key: string, config: StoreConfig.StoreConfig, table: map<string, AI.GroupState>)
    returns (ok: bool, next: nat, after: map<string, AI.GroupState>)
    requires at <= |buf| && key in table
    ensures AI.NameRun(table, at, key, buf, config) == if ok then Some((after, next)) else None
  {
    var group := table[key];
    var order := group.order;
    if |buf| < at + 4 * |order| {
      return false, at, table;
    }
    next := at;
    for j := 0 to |order|
      invariant next == at + 4 * j
      invariant group == AI.NameChildren(table[key], AI.Ints(buf, at, j), config)
    {
      AI.NameChildrenStep(table[key], buf, at, j, config);
      var c := order[j];
      if c in group.files {
        group := group.(files := group.files[c := J.AfterNameHash(group.files[c], AI.I32(buf, next), config)]);
      }
      next := next + 4;
    }
    return true, next, table[key := group];
  }

  /** The child-name section: each group id in turn reads its hashes. */
  method ReadChildNames(buf: seq<byte>, pos: nat, ids: seq<nat>, config: StoreConfig.StoreConfig,
                        table: map<string, AI.GroupState>) returns (ok: bool, end: nat, after: map<string, AI.GroupState>)
    requires pos <= |buf| && AI.Covers(table, ids)
    ensures AI.ChildrenNamed(table, ids, buf, pos, config, 0) == if ok then Some((after, end)) else None
  {
    after, end := table, pos;
    for i := 0 to |ids|
      invariant end <= |buf| && after.Keys == table.Keys
      invariant AI.ChildrenNamed(table, ids, buf, pos, config, 0) == AI.ChildrenNamed(after, ids, buf, end, config, i)
    {
      var next, cur;
      ok, next, cur := ReadNames(buf, end, AI.IdKey(ids[i]), config, after);
      if !ok {
        return false, end, after;
      }
      after, end := cur, next;
    }
    return true, end, after;
  }

  /** The name-hash (when files are named), CRC and version sections, in that order. */
  method ReadFixedSections(buf: seq<byte>, n: nat, named: bool, ids: seq<nat>, config: StoreConfig.StoreConfig,
                           table: map<string, AI.GroupState>) returns (ok: bool, stamped: map<string, AI.GroupState>)
    requires |ids| == n && AI.NamesAt(n) <= |buf| && table == AI.Created(ids)
    ensures ok <==> AI.CountsAt(n, named) <= |buf|
    ensures ok ==> stamped == AI.FixedSections(buf, n, named, ids, config)
  {
    AI.IdKeysMembers(ids);
    stamped := table;
    if named {
      ok, stamped := StampSection(buf, AI.NamesAt(n), ids, AI.NameHashes, config, stamped);
      if !ok {
        return false, stamped;
      }
    }
    assert AI.Covers(stamped, ids);
    ok, stamped := StampSection(buf, AI.CrcsAt(n, named), ids, AI.Crcs, config, stamped);
    if !ok {
      return false, stamped;
    }
    assert AI.Covers(stamped, ids);
    ok, stamped := StampSection(buf, AI.VersionsAt(n, named), ids, AI.Versions, config, stamped);
  }

  /**
   * The metadata table, read section by section as `decode` reads it:
   * format, flags, group count, group ids, the fixed-size sections, child
   * counts, children and, when files are named, child names.
   */
  method ParseIndex(buf: seq<byte>, config: StoreConfig.StoreConfig) returns (r: Option<AI.Decoded>)
    ensures r == AI.DecodeIndex(buf, config)
  {
    if |buf| < 4 {
      return None;
    }
    var named := AI.NamedFlag(buf[1]);
    var n := AI.U16(buf, 2);
    var ok, ids, table := ReadGroupIds(buf, n);
    if !ok {
      return None;
    }
    ok, table := ReadFixedSections(buf, n, named, ids, config, table);
    if !ok {
      return None;
    }
    var counts;
    ok, counts := ReadChildCounts(buf, AI.CountsAt(n, named), ids);
    if !ok {
      return None;
    }
    var groups, end := ReadTables(buf, n, named, ids, config, table, counts);
    r := if groups.Some? then Some(AI.Decoded(buf[0], named, ids, groups.value, end)) else None;
  }

  /** The children and child-name sections, from the table the fixed-size sections left. */
  method ReadTables(buf: seq<byte>, n: nat, named: bool, ids: seq<nat>, config: StoreConfig.StoreConfig,
                    table: map<string, AI.GroupState>, counts: map<nat, nat>)
    returns (groups: Option<map<string, AI.GroupState>>, end: nat)
    requires AI.ChildrenAt(n, named) <= |buf| && ids == AI.RunningSums(AI.Shorts(buf, 4, n))
    requires table == AI.FixedSections(buf, n, named, ids, config)
    requires counts == AI.CountsMap(ids, AI.Shorts(buf, AI.CountsAt(n, named), n))
    ensures var t := AI.Tables(buf, n, named, config);
            t == if groups.Some? then Some((groups.value, end)) else None
  {
    AI.BareGroupsOrdered(table, ids);
    var ok, after;
    ok, end, after := ReadChildren(buf, AI.ChildrenAt(n, named), ids, counts, table);
    if !ok {
      return None, end;
    }
    if named {
      assert AI.Covers(after, ids);
      ok, end, after := ReadChildNames(buf, end, ids, config, after);
      if !ok {
        return None, end;
      }
    }
    return Some(after), end;
  }

  class Js5Archive {
    const file: J.Js5File
    /** The archive's name in the archive configuration. */
    const configName: string
    var groups: map<string, G.Js5FileGroup>
    var format: Option<byte>
    var filesNamed: Option<bool>

    /** A new archive: a new file under the index, no groups, format and naming not yet read. */
    constructor(index: Index, owner: J.Js5File?, name: string)
      requires owner != null ==> owner.Chained()
      ensures fresh(file) && file.index == Key(index) && file.archive == owner && file.Chained()
      ensures file.Fields() == J.Initial(Key(index))
      ensures configName == name && groups == map[] && format.None? && filesNamed.None?
    {
      file := new J.Js5File(index, owner);
      configName := name;
      groups := map[];
      format := None;
      filesNamed := None;
    }

    /** `setGroup`: stores the group under `String(id)`, replacing any entry there. */
    method SetGroup(fileIndex: Index, group: G.Js5FileGroup)
      modifies this
      ensures groups == old(groups)[Key(fileIndex) := group]
      ensures format == old(format) && filesNamed == old(filesNamed)
    {
      groups := groups[Key(fileIndex) := group];
    }

    /** `getGroup`: the group under `String(id)`, or undefined. */
    function GetGroup(fileIndex: Index): (r: Option<G.Js5FileGroup>)
      reads this
      ensures r.Some? <==> Key(fileIndex) in groups
      ensures r.Some? ==> r.value == groups[Key(fileIndex)]
    {
      var key := Key(fileIndex);
      if key in groups then Some(groups[key]) else None
    }

    /**
     * A new group under `key` holding the state `s`: its own file, then one
     * new file of this archive per entry of the order, in that order.
     */
    method BuildGroup(key: string, s: AI.GroupState) returns (g: G.Js5FileGroup)
      requires file.Chained() && AI.Ordered(s)
      ensures fresh(g) && fresh(g.file) && g.Holds(s, key, file)
    {
      g := new G.Js5FileGroup(StrIndex(key), file);
      g.file.Assign(s.file);
      for j := 0 to |s.order|
        invariant Filling(g, s, key, j)
      {
        FillNext(g, s, key, j);
      }
      assert s.order[..|s.order|] == s.order;
      AI.PlacedAll(s);
    }

    /** `g` holds `s`, except that of its files only the first `j` in order are there yet. */
    ghost predicate Filling(g: G.Js5FileGroup, s: AI.GroupState, key: string, j: nat)
      reads g, g.repr
    {
      j <= |s.order| && g.file in g.repr && (forall c :: c in g.files ==> g.files[c] in g.repr) &&
      g.encoded && g.file.index == key && g.file.archive == file && g.file.Fields() == s.file &&
      g.fileOrder == s.order[..j] && g.files.Keys == AI.Placed(s.order[..j]) &&
      forall c :: c in g.files ==> c in s.files && G.Member(g.files[c], c, file, s.files[c])
    }

    /** Sets the next file of the order on the group, as a new file holding its state. */
    method FillNext(g: G.Js5FileGroup, s: AI.GroupState, key: string, j: nat)
      requires file.Chained() && AI.Ordered(s) && j < |s.order| && Filling(g, s, key, j)
      modifies g
      ensures Filling(g, s, key, j + 1)
    {
      var c := s.order[j];
      AI.OrderStep(s, j);
      var child := NewFile(c, s.files[c]);
      g.SetFile(StrIndex(c), child);
      forall d | d in g.files && d != c
        ensures g.files[d] in g.repr && d in s.files && G.Member(g.files[d], d, file, s.files[d])
      {
        assert g.files[d] == old(g.files[d]);
      }
    }

    /** A new file of this archive under `key`, holding the state `f`. */
    method NewFile(key: string, f: J.FileFields) returns (child: J.Js5File)
      requires file.Chained()
      ensures fresh(child) && G.Member(child, key, file, f)
    {
      child := new J.Js5File(StrIndex(key), file);
      child.Assign(f);
    }

    /** Stores a new group for each id of the run, holding the state the table gives it. */
    method Install(ids: seq<nat>, table: map<string, AI.GroupState>)
      requires file.Chained() && table.Keys == AI.IdKeys(ids) && AI.AllOrdered(table)
      modifies this
      ensures format == old(format) && filesNamed == old(filesNamed)
      ensures groups.Keys == old(groups).Keys + AI.IdKeys(ids)
      ensures forall k :: k in old(groups) && k !in AI.IdKeys(ids) ==> groups[k] == old(groups)[k]
      ensures forall k :: k in table ==> groups[k].Holds(table[k], k, file)
    {
      AI.IdKeysMembers(ids);
      for i := 0 to |ids|
        invariant format == old(format) && filesNamed == old(filesNamed)
        invariant groups.Keys == old(groups).Keys + AI.IdKeys(ids[..i])
        invariant forall k :: k in old(groups) && k !in AI.IdKeys(ids[..i]) ==> groups[k] == old(groups)[k]
        invariant forall k :: k in AI.IdKeys(ids[..i]) ==> k in table && groups[k].Holds(table[k], k, file)
      {
        AI.IdKeysPrefix(ids, i);
        InstallNext(ids, table, i);
      }
      assert ids[..|ids|] == ids;
    }

    /** One round of the install loop: the group of the `i`-th id is built and set; the others stay. */
    method InstallNext(ids: seq<nat>, table: map<string, AI.GroupState>, i: nat)
      requires file.Chained() && AI.AllOrdered(table) && i < |ids| && AI.IdKey(ids[i]) in table
      requires AI.IdKeys(ids[..i]) <= groups.Keys
      requires forall k :: k in AI.IdKeys(ids[..i]) ==> k in table && groups[k].Holds(table[k], k, file)
      requires AI.IdKeys(ids[..i + 1]) == AI.IdKeys(ids[..i]) + {AI.IdKey(ids[i])}
      modifies this
      ensures format == old(format) && filesNamed == old(filesNamed)
      ensures AI.IdKey(ids[i]) in groups && groups == old(groups)[AI.IdKey(ids[i]) := groups[AI.IdKey(ids[i])]]
      ensures forall k :: k in AI.IdKeys(ids[..i + 1]) ==> k in groups && k in table && groups[k].Holds(table[k], k, file)
    {
      var key := AI.IdKey(ids[i]);
      var group := BuildGroup(key, table[key]);
      SetGroup(NumIndex(ids[i]), group);
    }

    /**
     * The table read from the archive's unpacked data: the format byte, the
     * naming flag when there is a second byte, then, when the whole table
     * is there, a new group for each group id. A read past the end fails.
     */
    method ReadIndex(archiveData: seq<byte>, config: StoreConfig.StoreConfig) returns (r: Outcome<DecodeError>)
      requires file.Chained() && |archiveData| > 0
      modifies this
      ensures format == Some(archiveData[0])
      ensures filesNamed == if |archiveData| >= 2 then Some(AI.NamedFlag(archiveData[1])) else old(filesNamed)
      ensures var t := AI.DecodeIndex(archiveData, config);
              (t.None? ==> r == Fail(IndexOutOfRange)) &&
              (t.Some? ==> r == Pass && Installed(t.value.groups, old(groups)))
    {
      format := Some(archiveData[0]);
      if |archiveData| < 2 {
        return Fail(IndexOutOfRange);
      }
      filesNamed := Some(AI.NamedFlag(archiveData[1]));
      var parsed := ParseIndex(archiveData, config);
      if parsed.None? {
        return Fail(IndexOutOfRange);
      }
      Install(parsed.value.groupIds, parsed.value.groups);
      return Pass;
    }

    /**
     * `decode`: names the archive after its configuration entry and hashes
     * that name; archive 255 stops there. Any other archive reads its own
     * packed file from the channels, unpacks it and, when that gives data,
     * reads its group table from it.
     */
    method Decode(indexChannel: seq<byte>, dataChannel: seq<byte>, encryption: string,
                  config: StoreConfig.StoreConfig, b: SFB.Backends) returns (r: Outcome<DecodeError>)
      requires file.Chained()
      modifies this, file
      ensures file.name == Some(configName) && file.nameHash == Some(NameHash.FileNameHash(configName))
      ensures file.index == "255" ==>
                r == Pass && groups == old(groups) && format == old(format) && filesNamed == old(filesNamed) &&
                file.Fields() == old(file.Fields()).(name := file.name, nameHash := file.nameHash)
      ensures file.index != "255" ==>
                var named := old(file.Fields()).(name := file.name, nameHash := file.nameHash);
                file.Fields() == LoadedFields(named, file.NumericIndex(), file.OwnerIndex(), indexChannel, dataChannel, b)
      ensures file.index != "255" ==>
                var d := ArchiveData(file.NumericIndex(), file.OwnerIndex(), indexChannel, dataChannel, b);
                (d.Failure? ==> r == Fail(d.error)) &&
                (d.Success? && d.value == [] ==>
                   r == Pass && groups == old(groups) && format == old(format) && filesNamed == old(filesNamed)) &&
                (d.Success? && d.value != [] ==>
                   format == Some(d.value[0]) &&
                   filesNamed == (if |d.value| >= 2 then Some(AI.NamedFlag(d.value[1])) else old(filesNamed)) &&
                   var t := AI.DecodeIndex(d.value, config);
                   (t.None? ==> r == Fail(IndexOutOfRange)) &&
                   (t.Some? ==> r == Pass && Installed(t.value.groups, old(groups))))
    {
      var hash := StoreConfig.HashFileName(configName);
      file.nameHash := Some(hash);
      file.name := Some(configName);
      if file.index == "255" {
        return Pass;
      }
      r := Load(indexChannel, dataChannel, encryption, config, b);
    }

    /** Everything `decode` does after naming the archive. */
    method Load(indexChannel: seq<byte>, dataChannel: seq<byte>, encryption: string,
                config: StoreConfig.StoreConfig, b: SFB.Backends) returns (r: Outcome<DecodeError>)
      requires file.Chained()
      modifies this, file
      ensures file.name == old(file.name) && file.nameHash == old(file.nameHash)
      ensures file.Fields() == LoadedFields(old(file.Fields()), file.NumericIndex(), file.OwnerIndex(), indexChannel, dataChannel, b)
      ensures var d := ArchiveData(file.NumericIndex(), file.OwnerIndex(), indexChannel, dataChannel, b);
              (d.Failure? ==> r == Fail(d.error)) &&
              (d.Success? && d.value == [] ==>
                 r == Pass && groups == old(groups) && format == old(format) && filesNamed == old(filesNamed)) &&
              (d.Success? && d.value != [] ==>
                 format == Some(d.value[0]) &&
                 filesNamed == (if |d.value| >= 2 then Some(AI.NamedFlag(d.value[1])) else old(filesNamed)) &&
                 var t := AI.DecodeIndex(d.value, config);
                 (t.None? ==> r == Fail(IndexOutOfRange)) &&
                 (t.Some? ==> r == Pass && Installed(t.value.groups, old(groups))))
    {
      var extracted := file.ExtractPackedFile(indexChannel, dataChannel);
      if extracted.Failure? {
        return Fail(ExtractFailed(extracted.error));
      }
      var unpacked := file.Decompress(encryption, config, b);
      if unpacked.Failure? {
        return Fail(HeaderOutOfRange);
      }
      if unpacked.value.None? || |unpacked.value.value.bytes| == 0 {
        return Pass;
      }
      r := ReadIndex(unpacked.value.value.bytes, config);
    }

    /**
     * The group table holds a group for each group of `table`, holding its
     * state, and keeps the groups of `before` that `table` does not replace.
     */
    ghost predicate Installed(table: map<string, AI.GroupState>, before: map<string, G.Js5FileGroup>)
      reads this, groups.Values, set g, f | g in groups.Values && f in g.repr :: f
    {
      groups.Keys == before.Keys + table.Keys &&
      (forall k :: k in before && k !in table ==> groups[k] == before[k]) &&
      forall k :: k in table ==> groups[k].Holds(table[k], k, file)
    }
  }
}
