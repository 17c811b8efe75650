/**
 * The metadata table at the head of an archive's unpacked data, read on
 * values. The table is a header (format byte, flags byte, 2-byte group count
 * N) followed by sections of N entries each: 2-byte group-id deltas, 4-byte
 * group name hashes (only when the flags' bit 0 is set), 4-byte CRCs, 4-byte
 * versions, 2-byte child counts; then, per group, its child-id deltas; then,
 * when named, a 4-byte name hash per child in each group's insertion order.
 *
 * Each section is given here as the change it makes to the archive's group
 * table, in the order the sections are read, so that a repeated group id
 * behaves as it does in the archive: the later entry wins.
 */
module ArchiveIndex {
  import opened Wrappers
  import opened Bytes
  import opened JsValues
  import StoreConfig
  import J = Js5File

  /** The key a numeric id is stored under: `String(id)`. */
  function IdKey(id: nat): string {
    Key(NumIndex(id))
  }

  /** The keys of a run of ids. */
  function IdKeys(ids: seq<nat>): set<string>
    decreases |ids|
  {
    if ids == [] then {} else IdKeys(ids[..|ids| - 1]) + {IdKey(ids[|ids| - 1])}
  }

  lemma IdKeysSnoc(ids: seq<nat>, id: nat)
    ensures IdKeys(ids + [id]) == IdKeys(ids) + {IdKey(id)}
  {
    assert (ids + [id])[..|ids|] == ids;
  }

  /** The keys of one more id of a run. */
  lemma IdKeysPrefix(ids: seq<nat>, i: nat)
    requires i < |ids|
    ensures IdKeys(ids[..i + 1]) == IdKeys(ids[..i]) + {IdKey(ids[i])}
  {
    assert ids[..i + 1] == ids[..i] + [ids[i]];
    IdKeysSnoc(ids[..i], ids[i]);
  }

  /** Every id of the run has its key among the run's keys, and nothing else does. */
  lemma {:induction false} IdKeysMembers(ids: seq<nat>)
    ensures forall i :: 0 <= i < |ids| ==> IdKey(ids[i]) in IdKeys(ids)
    ensures forall k :: k in IdKeys(ids) ==> exists i :: 0 <= i < |ids| && IdKey(ids[i]) == k
    decreases |ids|
  {
    if ids != [] {
      var n := |ids| - 1;
      IdKeysMembers(ids[..n]);
      assert forall i :: 0 <= i < n ==> ids[..n][i] == ids[i];
    }
  }

  // ------------------------------------------------------------------ reads

  /** An unsigned 16-bit big-endian read. */
  function U16(buf: seq<byte>, pos: nat): nat
    requires pos + 2 <= |buf|
  {
    ReadUnsigned(buf, pos, 2).value
  }

  /** A signed 32-bit big-endian read. */
  function I32(buf: seq<byte>, pos: nat): int
    requires pos + 4 <= |buf|
  {
    ReadInt32(buf, pos).value
  }

  /** `n` consecutive unsigned 16-bit values from `pos`. */
  function Shorts(buf: seq<byte>, pos: nat, n: nat): (r: seq<nat>)
    requires pos + 2 * n <= |buf|
    ensures |r| == n
  {
    if n == 0 then [] else Shorts(buf, pos, n - 1) + [U16(buf, pos + 2 * (n - 1))]
  }

  /** `n` consecutive signed 32-bit values from `pos`. */
  function Ints(buf: seq<byte>, pos: nat, n: nat): (r: seq<int>)
    requires pos + 4 * n <= |buf|
    ensures |r| == n
  {
    if n == 0 then [] else Ints(buf, pos, n - 1) + [I32(buf, pos + 4 * (n - 1))]
  }

  /** The `i`th value read is the one at `pos + 2i`. */
  lemma {:induction false} ShortsAt(buf: seq<byte>, pos: nat, n: nat, i: nat)
    requires pos + 2 * n <= |buf| && i < n
    ensures Shorts(buf, pos, n)[i] == U16(buf, pos + 2 * i)
    decreases n
  {
    if i < n - 1 {
      ShortsAt(buf, pos, n - 1, i);
    }
  }

  /** The `i`th value read is the one at `pos + 4i`. */
  lemma {:induction false} IntsAt(buf: seq<byte>, pos: nat, n: nat, i: nat)
    requires pos + 4 * n <= |buf| && i < n
    ensures Ints(buf, pos, n)[i] == I32(buf, pos + 4 * i)
    decreases n
  {
    if i < n - 1 {
      IntsAt(buf, pos, n - 1, i);
    }
  }

  // ----------------------------------------------------------- running sums

  /** The last of a run of sums, or 0 for none: the accumulator. */
  function Total(sums: seq<nat>): nat {
    if sums == [] then 0 else sums[|sums| - 1]
  }

  /** Ids from deltas: each id is the previous one plus its delta, starting from 0. */
  function RunningSums(deltas: seq<nat>): (sums: seq<nat>)
    ensures |sums| == |deltas|
    decreases |deltas|
  {
    if deltas == [] then []
    else
      var prefix := RunningSums(deltas[..|deltas| - 1]);
      prefix + [Total(prefix) + deltas[|deltas| - 1]]
  }

  /** The first id is the first delta, and each later one adds its delta to the one before. */
  lemma {:induction false} RunningSumsSteps(deltas: seq<nat>)
    ensures var sums := RunningSums(deltas);
            (|deltas| > 0 ==> sums[0] == deltas[0]) &&
            forall i :: 0 < i < |deltas| ==> sums[i] == sums[i - 1] + deltas[i]
    decreases |deltas|
  {
    if deltas != [] {
      var n := |deltas| - 1;
      RunningSumsSteps(deltas[..n]);
      var prefix := RunningSums(deltas[..n]);
      assert RunningSums(deltas) == prefix + [Total(prefix) + deltas[n]];
      forall i | 0 < i < |deltas|
        ensures RunningSums(deltas)[i] == RunningSums(deltas)[i - 1] + deltas[i]
      {
        if i < n {
          assert deltas[..n][i] == deltas[i];
        }
      }
    }
  }

  /** Ids read as running sums never decrease, so a repeated id can only repeat the one before it. */
  lemma RunningSumsNonDecreasing(deltas: seq<nat>)
    ensures var sums := RunningSums(deltas);
            forall i, j :: 0 <= i <= j < |sums| ==> sums[i] <= sums[j]
  {
    var sums := RunningSums(deltas);
    RunningSumsSteps(deltas);
    forall i, j | 0 <= i <= j < |sums|
      ensures sums[i] <= sums[j]
    {
      var k := i;
      while k < j
        invariant i <= k <= j && sums[i] <= sums[k]
      {
        k := k + 1;
      }
    }
  }

  /** With every delta after the first positive, the ids are strictly increasing, hence all distinct. */
  lemma RunningSumsIncreasing(deltas: seq<nat>)
    requires forall i :: 0 < i < |deltas| ==> deltas[i] > 0
    ensures var sums := RunningSums(deltas);
            forall i, j :: 0 <= i < j < |sums| ==> sums[i] < sums[j]
  {
    var sums := RunningSums(deltas);
    RunningSumsSteps(deltas);
    forall i, j | 0 <= i < j < |sums|
      ensures sums[i] < sums[j]
    {
      var k := i + 1;
      while k < j
        invariant i < k <= j && sums[i] < sums[k]
      {
        k := k + 1;
      }
    }
  }

  // ------------------------------------------------------------ group table

  /** What one group holds: its own file state, its files' insertion order and their states. */
  datatype GroupState = GroupState(file: J.FileFields, order: seq<string>, files: map<string, J.FileFields>)

  /** The `files` map and its insertion order hold the same keys, each once. */
  ghost predicate Ordered(g: GroupState) {
    (forall i, j :: 0 <= i < j < |g.order| ==> g.order[i] != g.order[j]) &&
    (forall i :: 0 <= i < |g.order| ==> g.order[i] in g.files) &&
    (forall c :: c in g.files ==> c in g.order)
  }

  /** The keys an insertion order has placed so far. */
  function Placed(order: seq<string>): set<string>
    decreases |order|
  {
    if order == [] then {} else Placed(order[..|order| - 1]) + {order[|order| - 1]}
  }

  /** A key is placed exactly when it occurs in the order. */
  lemma {:induction false} PlacedMembers(order: seq<string>)
    ensures forall c :: c in Placed(order) <==> c in order
    decreases |order|
  {
    if order != [] {
      var n := |order| - 1;
      PlacedMembers(order[..n]);
      assert order == order[..n] + [order[n]];
    }
  }

  /** The next entry of a group's order is a file of the group that the order has not placed yet. */
  lemma OrderStep(g: GroupState, j: nat)
    requires Ordered(g) && j < |g.order|
    ensures g.order[..j + 1] == g.order[..j] + [g.order[j]]
    ensures Placed(g.order[..j + 1]) == Placed(g.order[..j]) + {g.order[j]}
    ensures g.order[j] in g.files && g.order[j] !in Placed(g.order[..j])
  {
    assert g.order[..j + 1][..j] == g.order[..j];
    PlacedMembers(g.order[..j]);
  }

  /** A group's whole order places exactly its files. */
  lemma PlacedAll(g: GroupState)
    requires Ordered(g)
    ensures Placed(g.order) == g.files.Keys
  {
    PlacedMembers(g.order);
  }

  /** A fresh group under `key`. */
  function NewGroup(key: string): GroupState {
    GroupState(J.Initial(key), [], map[])
  }

  /** The new groups after the group-id section: a fresh group under each id. */
  function Created(ids: seq<nat>): (gs: map<string, GroupState>)
    ensures gs.Keys == IdKeys(ids)
    ensures forall k :: k in gs ==> gs[k] == NewGroup(k)
  {
    map k | k in IdKeys(ids) :: NewGroup(k)
  }

  /** The 4-byte sections read per group. */
  datatype Section = NameHashes | Crcs | Versions

  /** One section entry applied to a group's file: the `nameHash`, `crc32` or `version` setter. */
  function Stamp(f: J.FileFields, section: Section, v: int, config: StoreConfig.StoreConfig): (r: J.FileFields)
    ensures section == NameHashes ==> r.nameHash == Some(v)
    ensures section == Crcs ==> r.crc32 == Some(v)
    ensures section == Versions ==> r.version == Some(v)
    ensures section != NameHashes ==> r.nameHash == f.nameHash && r.name == f.name
    ensures r == f.(nameHash := r.nameHash, name := r.name, crc32 := r.crc32, version := r.version)
  {
    match section
    case NameHashes => J.AfterNameHash(f, v, config)
    case Crcs => f.(crc32 := Some(v))
    case Versions => f.(version := Some(v))
  }

  /** Every id of the run has a group. */
  ghost predicate Covers(gs: map<string, GroupState>, ids: seq<nat>) {
    forall i :: 0 <= i < |ids| ==> IdKey(ids[i]) in gs
  }

  /** The file of the group under `k` after the first `n` entries of a 4-byte section at `pos`: the entries of `k`'s ids, in order. */
  function StampFile(f: J.FileFields, k: string, ids: seq<nat>, buf: seq<byte>, pos: nat, n: nat, section: Section,
                     config: StoreConfig.StoreConfig): J.FileFields
    requires n <= |ids| && pos + 4 * n <= |buf|
    decreases n
  {
    if n == 0 then f
    else
      var prev := StampFile(f, k, ids, buf, pos, n - 1, section, config);
      if IdKey(ids[n - 1]) == k then Stamp(prev, section, I32(buf, pos + 4 * (n - 1)), config) else prev
  }

  /** The table after the first `n` entries of a 4-byte section at `pos`: each id's group takes its entry, in order. */
  function Stamped(gs: map<string, GroupState>, ids: seq<nat>, buf: seq<byte>, pos: nat, n: nat, section: Section,
                   config: StoreConfig.StoreConfig): (r: map<string, GroupState>)
    requires n <= |ids| && pos + 4 * n <= |buf| && Covers(gs, ids)
    ensures r.Keys == gs.Keys
    ensures forall k :: k in r ==> r[k] == gs[k].(file := StampFile(gs[k].file, k, ids, buf, pos, n, section, config))
    decreases n
  {
    if n == 0 then gs
    else
      var prev := Stamped(gs, ids, buf, pos, n - 1, section, config);
      var k := IdKey(ids[n - 1]);
      prev[k := prev[k].(file := Stamp(prev[k].file, section, I32(buf, pos + 4 * (n - 1)), config))]
  }

  /** `groupChildCounts`: each id's child count, a repeated id keeping the later one. */
  function CountsMap(ids: seq<nat>, counts: seq<nat>): (m: map<nat, nat>)
    requires |counts| == |ids|
    ensures forall i :: 0 <= i < |ids| ==> ids[i] in m
    decreases |ids|
  {
    if ids == [] then map[]
    else
      var n := |ids| - 1;
      CountsMap(ids[..n], counts[..n])[ids[n] := counts[n]]
  }

  /** `setFile` with a fresh file under `key`: a known key keeps its place in the order. */
  function SetChild(g: GroupState, key: string): (r: GroupState)
    ensures r.file == g.file && r.files.Keys == g.files.Keys + {key} && r.files[key] == J.Initial(key)
    ensures Ordered(g) ==> Ordered(r)
  {
    var order := if key in g.files then g.order else g.order + [key];
    g.(files := g.files[key := J.Initial(key)], order := order)
  }

  /** A group after a run of child ids, each set in turn. */
  function AddChildren(g: GroupState, childIds: seq<nat>): (r: GroupState)
    ensures r.file == g.file
    ensures Ordered(g) ==> Ordered(r)
    decreases |childIds|
  {
    if childIds == [] then g
    else
      var n := |childIds| - 1;
      SetChild(AddChildren(g, childIds[..n]), IdKey(childIds[n]))
  }

  /** Every group of the table keeps its order and its files in step. */
  ghost predicate AllOrdered(gs: map<string, GroupState>) {
    forall k :: k in gs ==> Ordered(gs[k])
  }

  /**
   * The children section from the `i`th id on, read at `at`: each id's
   * group takes, in turn, a run of child-id deltas as long as that id's
   * count, summed from 0. None when the data runs out.
   */
  function Children(gs: map<string, GroupState>, ids: seq<nat>, counts: map<nat, nat>, buf: seq<byte>, at: nat,
                    i: nat): (r: Option<(map<string, GroupState>, nat)>)
    requires i <= |ids| && at <= |buf| && Covers(gs, ids)
    requires forall j :: 0 <= j < |ids| ==> ids[j] in counts
    ensures r.Some? ==> r.value.0.Keys == gs.Keys && at <= r.value.1 <= |buf|
    ensures r.Some? && AllOrdered(gs) ==> AllOrdered(r.value.0)
    ensures r.Some? ==> forall k :: k in gs ==> r.value.0[k].file == gs[k].file
    decreases |ids| - i
  {
    if i == |ids| then Some((gs, at))
    else
      match Run(gs, at, IdKey(ids[i]), counts[ids[i]], buf)
      case None => None
      case Some((next, after)) =>
        assert Covers(next, ids);
        Children(next, ids, counts, buf, after, i + 1)
  }

  /** One group's run of `count` child-id deltas at `at`, read into the group under `k`; None when the data runs out. */
  function Run(gs: map<string, GroupState>, at: nat, k: string, count: nat, buf: seq<byte>): (r: Option<(map<string, GroupState>, nat)>)
    requires at <= |buf| && k in gs
    ensures r.Some? <==> at + 2 * count <= |buf|
    ensures r.Some? ==> r.value.0.Keys == gs.Keys && r.value.1 == at + 2 * count
    ensures r.Some? && AllOrdered(gs) ==> AllOrdered(r.value.0)
    ensures r.Some? ==> forall k' :: k' in gs ==> r.value.0[k'].file == gs[k'].file
    ensures r.Some? ==> forall k' :: k' in gs && k' != k ==> r.value.0[k'] == gs[k']
    ensures r.Some? ==> r.value.0[k].files.Keys == gs[k].files.Keys + IdKeys(RunningSums(Shorts(buf, at, count)))
  {
    if at + 2 * count <= |buf| then
      AddChildrenFiles(gs[k], RunningSums(Shorts(buf, at, count)));
      Some((gs[k := AddChildren(gs[k], RunningSums(Shorts(buf, at, count)))], at + 2 * count))
    else None
  }

  /**
   * A group after the first `|hashes|` of its files, in insertion order, take
   * their name hashes; an entry with no file is skipped.
   */
  function NameChildren(g: GroupState, hashes: seq<int>, config: StoreConfig.StoreConfig): (r: GroupState)
    requires |hashes| <= |g.order|
    ensures r.file == g.file && r.order == g.order && r.files.Keys == g.files.Keys
    decreases |hashes|
  {
    if hashes == [] then g
    else
      var n := |hashes| - 1;
      var prev := NameChildren(g, hashes[..n], config);
      var c := g.order[n];
      if c in prev.files then prev.(files := prev.files[c := J.AfterNameHash(prev.files[c], hashes[n], config)])
      else prev
  }

  /**
   * In a group in step, the `j`th file in insertion order has taken the
   * `j`th hash through the setter when there is one, and is untouched otherwise.
   */
  lemma {:induction false} NameChildrenAt(g: GroupState, hashes: seq<int>, config: StoreConfig.StoreConfig, j: nat)
    requires forall a, b :: 0 <= a < b < |g.order| ==> g.order[a] != g.order[b]
    requires forall a :: 0 <= a < |g.order| ==> g.order[a] in g.files
    requires |hashes| <= |g.order| && j < |g.order|
    ensures var r := NameChildren(g, hashes, config);
            g.order[j] in r.files &&
            r.files[g.order[j]] == if j < |hashes| then J.AfterNameHash(g.files[g.order[j]], hashes[j], config)
                                   else g.files[g.order[j]]
    decreases |hashes|
  {
    if hashes != [] {
      var n := |hashes| - 1;
      var prev := NameChildren(g, hashes[..n], config);
      var c := g.order[n];
      NameChildrenAt(g, hashes[..n], config, n);
      assert c in prev.files && prev.files[c] == g.files[c];
      var r := prev.(files := prev.files[c := J.AfterNameHash(prev.files[c], hashes[n], config)]);
      assert NameChildren(g, hashes, config) == r;
      if j != n {
        NameChildrenAt(g, hashes[..n], config, j);
        assert g.order[j] != c;
      }
    }
  }

  /**
   * The child-name section from the `i`th id on, read at `at`: for each id
   * in turn, one 4-byte hash per file of its group. None when the data runs out.
   */
  function ChildrenNamed(gs: map<string, GroupState>, ids: seq<nat>, buf: seq<byte>, at: nat,
                         config: StoreConfig.StoreConfig, i: nat): (r: Option<(map<string, GroupState>, nat)>)
    requires i <= |ids| && at <= |buf| && Covers(gs, ids)
    ensures r.Some? ==> at <= r.value.1 <= |buf| && SameShape(gs, r.value.0)
    ensures r.Some? && AllOrdered(gs) ==> AllOrdered(r.value.0)
    decreases |ids| - i
  {
    if i == |ids| then Some((gs, at))
    else
      match NameRun(gs, at, IdKey(ids[i]), buf, config)
      case None => None
      case Some((next, after)) =>
        assert Covers(next, ids);
        var r := ChildrenNamed(next, ids, buf, after, config, i + 1);
        if r.Some? then SameShapeTrans(gs, next, r.value.0); r else r
  }

  /** Naming changes no group's own file, its files' keys or its order, and keeps the set of groups. */
  ghost predicate SameShape(gs: map<string, GroupState>, r: map<string, GroupState>) {
    r.Keys == gs.Keys &&
    forall k :: k in gs ==> r[k].file == gs[k].file && r[k].files.Keys == gs[k].files.Keys && r[k].order == gs[k].order
  }

  lemma SameShapeTrans(a: map<string, GroupState>, b: map<string, GroupState>, c: map<string, GroupState>)
    requires SameShape(a, b) && SameShape(b, c)
    ensures SameShape(a, c)
  {
  }

  /** How many hashes the child-name section holds from the `i`th id on: one per file of each id's group. */
  function NamesLength(gs: map<string, GroupState>, ids: seq<nat>, i: nat): nat
    requires i <= |ids| && Covers(gs, ids)
    decreases |ids| - i
  {
    if i == |ids| then 0 else |gs[IdKey(ids[i])].order| + NamesLength(gs, ids, i + 1)
  }

  /** The child-name section from the `i`th id on leaves the group of an id it no longer reaches as it was. */
  lemma {:induction false} ChildrenNamedFrame(gs: map<string, GroupState>, ids: seq<nat>, buf: seq<byte>, at: nat,
                                              config: StoreConfig.StoreConfig, i: nat, id: nat)
    requires i <= |ids| && at <= |buf| && Covers(gs, ids)
    requires ChildrenNamed(gs, ids, buf, at, config, i).Some? && IdKey(id) in gs
    requires forall m :: i <= m < |ids| ==> ids[m] != id
    ensures ChildrenNamed(gs, ids, buf, at, config, i).value.0[IdKey(id)] == gs[IdKey(id)]
    decreases |ids| - i
  {
    if i < |ids| {
      var run := NameRun(gs, at, IdKey(ids[i]), buf, config);
      var (next, after) := run.value;
      assert Covers(next, ids);
      assert ChildrenNamed(gs, ids, buf, at, config, i) == ChildrenNamed(next, ids, buf, after, config, i + 1);
      KeysOfNumbers(ids[i], id);
      ChildrenNamedFrame(next, ids, buf, after, config, i + 1, id);
    }
  }

  /**
   * The group of an id no later id repeats keeps the names its own run
   * gives: the `j`th file in insertion order holds the `j`th hash read
   * from where that run starts, taken through the setter.
   */
  lemma ChildrenNamedLast(gs: map<string, GroupState>, ids: seq<nat>, buf: seq<byte>, at: nat,
                          config: StoreConfig.StoreConfig, i: nat, j: nat)
    requires i < |ids| && at <= |buf| && Covers(gs, ids)
    requires ChildrenNamed(gs, ids, buf, at, config, i).Some? && LastAmong(ids, i, |ids|)
    requires Ordered(gs[IdKey(ids[i])]) && j < |gs[IdKey(ids[i])].order|
    ensures var g := gs[IdKey(ids[i])];
            var r := ChildrenNamed(gs, ids, buf, at, config, i).value.0[IdKey(ids[i])];
            at + 4 * |g.order| <= |buf| && g.order[j] in r.files &&
            r.files[g.order[j]] == J.AfterNameHash(g.files[g.order[j]], I32(buf, at + 4 * j), config)
  {
    var k := IdKey(ids[i]);
    var run := NameRun(gs, at, k, buf, config);
    var (next, after) := run.value;
    assert Covers(next, ids);
    assert ChildrenNamed(gs, ids, buf, at, config, i) == ChildrenNamed(next, ids, buf, after, config, i + 1);
    ChildrenNamedFrame(next, ids, buf, after, config, i + 1, ids[i]);
    NameRunFiles(gs, at, k, buf, config, j);
  }

  /**
   * The child-name section succeeds exactly when its hashes, one per file of
   * each id's group, are all in the buffer, and ends right after them.
   */
  lemma {:induction false} ChildrenNamedLength(gs: map<string, GroupState>, ids: seq<nat>, buf: seq<byte>, at: nat,
                                               config: StoreConfig.StoreConfig, i: nat)
    requires i <= |ids| && at <= |buf| && Covers(gs, ids)
    ensures var r := ChildrenNamed(gs, ids, buf, at, config, i);
            (r.Some? <==> at + 4 * NamesLength(gs, ids, i) <= |buf|) &&
            (r.Some? ==> r.value.1 == at + 4 * NamesLength(gs, ids, i))
    decreases |ids| - i
  {
    if i < |ids| {
      var k := IdKey(ids[i]);
      if at + 4 * |gs[k].order| <= |buf| {
        var run := NameRun(gs, at, k, buf, config);
        var (next, after) := run.value;
        assert Covers(next, ids);
        assert ChildrenNamed(gs, ids, buf, at, config, i) == ChildrenNamed(next, ids, buf, after, config, i + 1);
        NamesLengthByOrders(gs, next, ids, i + 1);
        ChildrenNamedLength(next, ids, buf, after, config, i + 1);
      }
    }
  }

  /** The section's length depends only on the groups' orders. */
  lemma {:induction false} NamesLengthByOrders(gs: map<string, GroupState>, next: map<string, GroupState>, ids: seq<nat>, i: nat)
    requires i <= |ids| && Covers(gs, ids) && Covers(next, ids)
    requires forall k :: k in gs ==> k in next && next[k].order == gs[k].order
    ensures NamesLength(next, ids, i) == NamesLength(gs, ids, i)
    decreases |ids| - i
  {
    if i < |ids| {
      NamesLengthByOrders(gs, next, ids, i + 1);
    }
  }

  /** One group's hashes at `at`, one per file, read into the group under `k`; None when the data runs out. */
  function NameRun(gs: map<string, GroupState>, at: nat, k: string, buf: seq<byte>, config: StoreConfig.StoreConfig)
    : (r: Option<(map<string, GroupState>, nat)>)
    requires at <= |buf| && k in gs
    ensures r.Some? <==> at + 4 * |gs[k].order| <= |buf|
    ensures r.Some? ==> r.value.1 == at + 4 * |gs[k].order| && SameShape(gs, r.value.0)
    ensures r.Some? && AllOrdered(gs) ==> AllOrdered(r.value.0)
    ensures r.Some? ==> forall k' :: k' in gs && k' != k ==> r.value.0[k'] == gs[k']
  {
    var count := |gs[k].order|;
    if at + 4 * count <= |buf| then
      var named := NameChildren(gs[k], Ints(buf, at, count), config);
      OrderedByKeys(gs[k], named);
      Some((gs[k := named], at + 4 * count))
    else None
  }

  /** The `j`th file of the named group, in insertion order, has taken the `j`th hash of the run through the setter. */
  lemma NameRunFiles(gs: map<string, GroupState>, at: nat, k: string, buf: seq<byte>, config: StoreConfig.StoreConfig, j: nat)
    requires at <= |buf| && k in gs && Ordered(gs[k]) && at + 4 * |gs[k].order| <= |buf| && j < |gs[k].order|
    ensures var c := gs[k].order[j];
            var r := NameRun(gs, at, k, buf, config).value.0;
            c in r[k].files && r[k].files[c] == J.AfterNameHash(gs[k].files[c], I32(buf, at + 4 * j), config)
  {
    var count := |gs[k].order|;
    NameChildrenAt(gs[k], Ints(buf, at, count), config, j);
    IntsAt(buf, at, count, j);
  }

  // ---------------------------------------------------------- the whole table

  /** The header's fields and where each section starts, for a group count `n`. */
  function NamesAt(n: nat): nat { 4 + 2 * n }
  function CrcsAt(n: nat, named: bool): nat { NamesAt(n) + (if named then 4 * n else 0) }
  function VersionsAt(n: nat, named: bool): nat { CrcsAt(n, named) + 4 * n }
  function CountsAt(n: nat, named: bool): nat { VersionsAt(n, named) + 4 * n }
  function ChildrenAt(n: nat, named: bool): nat { CountsAt(n, named) + 2 * n }

  /** Whether a group is in step depends only on its order and the keys of its files. */
  lemma OrderedByKeys(g: GroupState, r: GroupState)
    requires r.order == g.order && r.files.Keys == g.files.Keys
    ensures Ordered(g) ==> Ordered(r)
  {
    assert forall c :: c in r.files <==> c in g.files;
  }

  /** Bit 0 of the flags byte. */
  predicate NamedFlag(flags: byte): (r: bool)
    ensures r <==> (flags as bv8) & 1 == 1
  {
    flags % 2 == 1
  }

  /** What a complete table yields: format, naming flag, group ids, the new groups and where reading stopped. */
  datatype Decoded = Decoded(format: byte, filesNamed: bool, groupIds: seq<nat>, groups: map<string, GroupState>, end: nat)

  /** The group table before the children section, from the fixed-size sections. */
  function FixedSections(buf: seq<byte>, n: nat, named: bool, ids: seq<nat>, config: StoreConfig.StoreConfig): (gs: map<string, GroupState>)
    requires |ids| == n && CountsAt(n, named) <= |buf|
    ensures gs.Keys == IdKeys(ids)
    ensures forall k :: k in gs ==> gs[k].order == [] && gs[k].files == map[]
    ensures HoldsEntries(gs, ids, buf, n, named)
  {
    var created := Created(ids);
    IdKeysMembers(ids);
    assert Covers(created, ids);
    var hashed := if named then Stamped(created, ids, buf, NamesAt(n), n, NameHashes, config) else created;
    assert hashed.Keys == created.Keys;
    assert named ==> HoldsNames(hashed, ids, buf, n) by {
      if named {
        NamesStamped(created, hashed, buf, n, ids, config);
      }
    }
    var crcs := Stamped(hashed, ids, buf, CrcsAt(n, named), n, Crcs, config);
    var versions := Stamped(crcs, ids, buf, VersionsAt(n, named), n, Versions, config);
    CrcsThenVersions(hashed, crcs, versions, buf, n, named, ids, config);
    versions
  }

  /** Groups with no files are trivially in step with their order. */
  lemma BareGroupsOrdered(gs: map<string, GroupState>, ids: seq<nat>)
    requires gs.Keys == IdKeys(ids)
    requires forall k :: k in gs ==> gs[k].order == [] && gs[k].files == map[]
    ensures AllOrdered(gs) && Covers(gs, ids)
  {
    IdKeysMembers(ids);
  }

  /**
   * The group table from the sections after the header, for `n` groups:
   * the fixed-size sections, the children and, when files are named, the
   * child names; with where reading stopped. None when a run goes past the end.
   */
  function Tables(buf: seq<byte>, n: nat, named: bool, config: StoreConfig.StoreConfig)
    : (r: Option<(map<string, GroupState>, nat)>)
    requires ChildrenAt(n, named) <= |buf|
    ensures r.Some? ==> r.value.0.Keys == IdKeys(RunningSums(Shorts(buf, 4, n))) && r.value.1 <= |buf|
    ensures r.Some? ==> AllOrdered(r.value.0)
    ensures r.Some? ==> HoldsEntries(r.value.0, RunningSums(Shorts(buf, 4, n)), buf, n, named)
    ensures r.Some? && 0 < n && LastAmong(RunningSums(Shorts(buf, 4, n)), 0, n) ==>
              FirstRunFrom(r.value.0, RunningSums(Shorts(buf, 4, n)), {}, buf, ChildrenAt(n, named), U16(buf, CountsAt(n, named)))
  {
    var ids := RunningSums(Shorts(buf, 4, n));
    var fixed := FixedSections(buf, n, named, ids, config);
    BareGroupsOrdered(fixed, ids);
    var counts := CountsMap(ids, Shorts(buf, CountsAt(n, named), n));
    var r := ChildSections(fixed, ids, counts, buf, n, named, config);
    CarriesStamps(buf, n, named, ids, config, r);
    r
  }

  /** The children section and, when files are named, the child-name section after it, read into `fixed`. */
  function ChildSections(fixed: map<string, GroupState>, ids: seq<nat>, counts: map<nat, nat>, buf: seq<byte>, n: nat,
                         named: bool, config: StoreConfig.StoreConfig): (r: Option<(map<string, GroupState>, nat)>)
    requires |ids| == n && ChildrenAt(n, named) <= |buf| && Covers(fixed, ids)
    requires forall k :: k in fixed ==> fixed[k].order == [] && fixed[k].files == map[]
    requires counts == CountsMap(ids, Shorts(buf, CountsAt(n, named), n))
    ensures r.Some? ==> r.value.0.Keys == fixed.Keys && r.value.1 <= |buf|
    ensures r.Some? && AllOrdered(fixed) ==> AllOrdered(r.value.0)
    ensures r.Some? ==> forall k :: k in fixed ==> r.value.0[k].file == fixed[k].file
    ensures r.Some? && 0 < n && LastAmong(ids, 0, n) ==>
              FirstRunFrom(r.value.0, ids, {}, buf, ChildrenAt(n, named), U16(buf, CountsAt(n, named)))
  {
    FirstRun(fixed, ids, counts, buf, CountsAt(n, named), ChildrenAt(n, named));
    match Children(fixed, ids, counts, buf, ChildrenAt(n, named), 0)
    case None => None
    case Some((children, at)) =>
      if !named then Some((children, at))
      else
        assert Covers(children, ids);
        ChildrenNamed(children, ids, buf, at, config, 0)
  }

  /** Sections that keep every group's own file keep the CRCs and versions the fixed sections gave it. */
  lemma CarriesStamps(buf: seq<byte>, n: nat, named: bool, ids: seq<nat>, config: StoreConfig.StoreConfig,
                      r: Option<(map<string, GroupState>, nat)>)
    requires |ids| == n && CountsAt(n, named) <= |buf|
    requires var fixed := FixedSections(buf, n, named, ids, config);
             r.Some? ==> r.value.0.Keys == fixed.Keys && forall k :: k in fixed ==> r.value.0[k].file == fixed[k].file
    ensures r.Some? ==> HoldsEntries(r.value.0, ids, buf, n, named)
  {
  }

  /**
   * The whole table of a buffer, section by section; None when the header
   * or any later read runs past the end.
   */
  function DecodeIndex(buf: seq<byte>, config: StoreConfig.StoreConfig): (r: Option<Decoded>)
    ensures r.Some? ==> |buf| >= 4 && r.value.format == buf[0] && r.value.filesNamed == NamedFlag(buf[1])
    ensures r.Some? ==> ChildrenAt(U16(buf, 2), NamedFlag(buf[1])) <= |buf| &&
                        r.value.groupIds == RunningSums(Shorts(buf, 4, U16(buf, 2)))
    ensures r.Some? ==> r.value.groups.Keys == IdKeys(r.value.groupIds) && r.value.end <= |buf|
    ensures r.Some? ==> AllOrdered(r.value.groups)
  {
    if |buf| < 4 then None
    else
      var named := NamedFlag(buf[1]);
      var n := U16(buf, 2);
      if ChildrenAt(n, named) > |buf| then None
      else
        match Tables(buf, n, named, config)
        case None => None
        case Some((gs, end)) => Some(Decoded(buf[0], named, RunningSums(Shorts(buf, 4, n)), gs, end))
  }

  /**
   * What a decoded table stores: the group of every id no later id repeats
   * holds that id's CRC and version entries, and the first id's group, when
   * no other id repeats it, holds exactly the keys of the first child run.
   */
  lemma DecodedEntries(buf: seq<byte>, config: StoreConfig.StoreConfig)
    ensures var r := DecodeIndex(buf, config);
            r.Some? ==> HoldsEntries(r.value.groups, r.value.groupIds, buf, U16(buf, 2), r.value.filesNamed)
    ensures var r := DecodeIndex(buf, config);
            r.Some? && 0 < U16(buf, 2) && LastAmong(r.value.groupIds, 0, U16(buf, 2)) ==>
              FirstRunFrom(r.value.groups, r.value.groupIds, {}, buf, ChildrenAt(U16(buf, 2), r.value.filesNamed),
                           U16(buf, CountsAt(U16(buf, 2), r.value.filesNamed)))
  {
  }

  // ------------------------------------------------ what each section stores

  /** No id after the `i`th among the first `n` repeats it: the `i`th entry is the one that wins. */
  ghost predicate LastAmong(ids: seq<nat>, i: nat, n: nat)
    requires n <= |ids|
  {
    forall j :: i < j < n ==> ids[j] != ids[i]
  }

  /**
   * Every group whose id no later id repeats holds that id's own entries
   * of the CRC and version sections, and of the name section when the
   * table is named, for `n` ids and the naming flag.
   */
  ghost predicate HoldsEntries(groups: map<string, GroupState>, ids: seq<nat>, buf: seq<byte>, n: nat, named: bool)
    requires |ids| == n && CountsAt(n, named) <= |buf|
  {
    forall i :: 0 <= i < n && LastAmong(ids, i, n) ==>
      IdKey(ids[i]) in groups &&
      groups[IdKey(ids[i])].file.crc32 == Some(I32(buf, CrcsAt(n, named) + 4 * i)) &&
      groups[IdKey(ids[i])].file.version == Some(I32(buf, VersionsAt(n, named) + 4 * i)) &&
      (named ==> groups[IdKey(ids[i])].file.nameHash == Some(I32(buf, NamesAt(n) + 4 * i)))
  }

  /** Every group whose id no later id repeats holds that id's own entry of the name section. */
  ghost predicate HoldsNames(groups: map<string, GroupState>, ids: seq<nat>, buf: seq<byte>, n: nat)
    requires |ids| == n && NamesAt(n) + 4 * n <= |buf|
  {
    forall i :: 0 <= i < n && LastAmong(ids, i, n) ==>
      IdKey(ids[i]) in groups && groups[IdKey(ids[i])].file.nameHash == Some(I32(buf, NamesAt(n) + 4 * i))
  }

  /**
   * The group of the first id holds exactly the keys in `base` and those of
   * the run of `count` child-id deltas at `at`.
   */
  ghost predicate FirstRunFrom(groups: map<string, GroupState>, ids: seq<nat>, base: set<string>, buf: seq<byte>,
                               at: nat, count: nat)
    requires 0 < |ids|
  {
    at + 2 * count <= |buf| && IdKey(ids[0]) in groups &&
    groups[IdKey(ids[0])].files.Keys == base + IdKeys(RunningSums(Shorts(buf, at, count)))
  }

  /** `groupChildCounts` holds exactly the ids. */
  lemma {:induction false} CountsMapKeys(ids: seq<nat>, counts: seq<nat>)
    requires |counts| == |ids|
    ensures forall x :: x in CountsMap(ids, counts) ==> x in ids
    decreases |ids|
  {
    if ids != [] {
      var n := |ids| - 1;
      CountsMapKeys(ids[..n], counts[..n]);
      assert ids == ids[..n] + [ids[n]];
    }
  }

  /** In `groupChildCounts`, each id has the count of its last entry. */
  lemma {:induction false} CountsMapValues(ids: seq<nat>, counts: seq<nat>, i: nat)
    requires |counts| == |ids| && i < |ids| && LastAmong(ids, i, |ids|)
    ensures CountsMap(ids, counts)[ids[i]] == counts[i]
    decreases |ids|
  {
    var n := |ids| - 1;
    if i < n {
      assert ids[..n][i] == ids[i] && counts[..n][i] == counts[i];
      assert LastAmong(ids[..n], i, n);
      CountsMapValues(ids[..n], counts[..n], i);
    }
  }

  /** A run of child ids adds exactly their keys to the group's files, each a fresh file; other files stay. */
  lemma {:induction false} AddChildrenFiles(g: GroupState, childIds: seq<nat>)
    ensures var r := AddChildren(g, childIds);
            r.files.Keys == g.files.Keys + IdKeys(childIds) &&
            (forall k :: k in IdKeys(childIds) ==> r.files[k] == J.Initial(k)) &&
            (forall k :: k in g.files && k !in IdKeys(childIds) ==> r.files[k] == g.files[k])
    decreases |childIds|
  {
    if childIds != [] {
      AddChildrenFiles(g, childIds[..|childIds| - 1]);
    }
  }

  /** The entry of the `i`th id, when no later one repeats it, is the one its group's file keeps. */
  lemma {:induction false} StampFileEntry(f: J.FileFields, ids: seq<nat>, buf: seq<byte>, pos: nat, n: nat,
                                          section: Section, config: StoreConfig.StoreConfig, i: nat)
    requires n <= |ids| && pos + 4 * n <= |buf|
    requires i < n && LastAmong(ids, i, n)
    ensures var g := StampFile(f, IdKey(ids[i]), ids, buf, pos, n, section, config);
            (section == NameHashes ==> g.nameHash == Some(I32(buf, pos + 4 * i))) &&
            (section == Crcs ==> g.crc32 == Some(I32(buf, pos + 4 * i))) &&
            (section == Versions ==> g.version == Some(I32(buf, pos + 4 * i)))
    decreases n
  {
    if i < n - 1 {
      assert LastAmong(ids, i, n - 1);
      StampFileEntry(f, ids, buf, pos, n - 1, section, config, i);
      KeysOfNumbers(ids[n - 1], ids[i]);
    }
  }

  /** The name hash a group's file takes from the name section, its CRC from the CRC section, its version from the versions section. */
  lemma StampedName(f: J.FileFields, ids: seq<nat>, buf: seq<byte>, pos: nat, n: nat, config: StoreConfig.StoreConfig, i: nat)
    requires n <= |ids| && pos + 4 * n <= |buf|
    requires i < n && LastAmong(ids, i, n)
    ensures StampFile(f, IdKey(ids[i]), ids, buf, pos, n, NameHashes, config).nameHash == Some(I32(buf, pos + 4 * i))
  {
    StampFileEntry(f, ids, buf, pos, n, NameHashes, config, i);
  }

  lemma StampedCrc(f: J.FileFields, ids: seq<nat>, buf: seq<byte>, pos: nat, n: nat, config: StoreConfig.StoreConfig, i: nat)
    requires n <= |ids| && pos + 4 * n <= |buf|
    requires i < n && LastAmong(ids, i, n)
    ensures StampFile(f, IdKey(ids[i]), ids, buf, pos, n, Crcs, config).crc32 == Some(I32(buf, pos + 4 * i))
  {
    StampFileEntry(f, ids, buf, pos, n, Crcs, config, i);
  }

  lemma StampedVersion(f: J.FileFields, ids: seq<nat>, buf: seq<byte>, pos: nat, n: nat, config: StoreConfig.StoreConfig, i: nat)
    requires n <= |ids| && pos + 4 * n <= |buf|
    requires i < n && LastAmong(ids, i, n)
    ensures StampFile(f, IdKey(ids[i]), ids, buf, pos, n, Versions, config).version == Some(I32(buf, pos + 4 * i))
  {
    StampFileEntry(f, ids, buf, pos, n, Versions, config, i);
  }

  /** The version section leaves every file's CRC as it was. */
  lemma {:induction false} VersionsKeepCrc(f: J.FileFields, k: string, ids: seq<nat>, buf: seq<byte>, pos: nat, n: nat,
                                           config: StoreConfig.StoreConfig)
    requires n <= |ids| && pos + 4 * n <= |buf|
    ensures StampFile(f, k, ids, buf, pos, n, Versions, config).crc32 == f.crc32
    decreases n
  {
    if n > 0 {
      VersionsKeepCrc(f, k, ids, buf, pos, n - 1, config);
    }
  }

  /** The CRC and version sections leave every file's name hash as it was. */
  lemma {:induction false} NumbersKeepNameHash(f: J.FileFields, k: string, ids: seq<nat>, buf: seq<byte>, pos: nat, n: nat,
                                               section: Section, config: StoreConfig.StoreConfig)
    requires n <= |ids| && pos + 4 * n <= |buf| && section != NameHashes
    ensures StampFile(f, k, ids, buf, pos, n, section, config).nameHash == f.nameHash
    decreases n
  {
    if n > 0 {
      NumbersKeepNameHash(f, k, ids, buf, pos, n - 1, section, config);
    }
  }

  /**
   * Any table whose files took their name hashes from the name section
   * holds, for an id no later id repeats, that id's own hash.
   */
  lemma NamesStamped(gs: map<string, GroupState>, hashed: map<string, GroupState>, buf: seq<byte>, n: nat, ids: seq<nat>,
                     config: StoreConfig.StoreConfig)
    requires |ids| == n && NamesAt(n) + 4 * n <= |buf| && Covers(gs, ids)
    requires hashed.Keys == gs.Keys
    requires forall k :: k in hashed ==> hashed[k].file == StampFile(gs[k].file, k, ids, buf, NamesAt(n), n, NameHashes, config)
    ensures HoldsNames(hashed, ids, buf, n)
  {
    forall i | 0 <= i < n && LastAmong(ids, i, n)
      ensures hashed[IdKey(ids[i])].file.nameHash == Some(I32(buf, NamesAt(n) + 4 * i))
    {
      StampedName(gs[IdKey(ids[i])].file, ids, buf, NamesAt(n), n, config, i);
    }
  }

  /**
   * Any table whose files took their CRCs from the CRC section and then
   * their versions from the versions section holds, for an id no later id
   * repeats, that id's own entries of both.
   */
  lemma CrcsThenVersions(gs: map<string, GroupState>, crcs: map<string, GroupState>, versions: map<string, GroupState>,
                         buf: seq<byte>, n: nat, named: bool, ids: seq<nat>, config: StoreConfig.StoreConfig)
    requires |ids| == n && CountsAt(n, named) <= |buf| && Covers(gs, ids)
    requires crcs.Keys == gs.Keys
    requires forall k :: k in crcs ==> crcs[k].file == StampFile(gs[k].file, k, ids, buf, CrcsAt(n, named), n, Crcs, config)
    requires versions.Keys == crcs.Keys
    requires forall k :: k in versions ==>
               versions[k].file == StampFile(crcs[k].file, k, ids, buf, VersionsAt(n, named), n, Versions, config)
    requires named ==> HoldsNames(gs, ids, buf, n)
    ensures HoldsEntries(versions, ids, buf, n, named)
  {
    forall i | 0 <= i < n && LastAmong(ids, i, n)
      ensures versions[IdKey(ids[i])].file.crc32 == Some(I32(buf, CrcsAt(n, named) + 4 * i)) &&
              versions[IdKey(ids[i])].file.version == Some(I32(buf, VersionsAt(n, named) + 4 * i)) &&
              versions[IdKey(ids[i])].file.nameHash == gs[IdKey(ids[i])].file.nameHash
    {
      var k := IdKey(ids[i]);
      StampedCrc(gs[k].file, ids, buf, CrcsAt(n, named), n, config, i);
      VersionsKeepCrc(crcs[k].file, k, ids, buf, VersionsAt(n, named), n, config);
      StampedVersion(crcs[k].file, ids, buf, VersionsAt(n, named), n, config, i);
      NumbersKeepNameHash(gs[k].file, k, ids, buf, CrcsAt(n, named), n, Crcs, config);
      NumbersKeepNameHash(crcs[k].file, k, ids, buf, VersionsAt(n, named), n, Versions, config);
    }
  }

  /** The children section from the `i`th id on leaves the group of an id it no longer reaches as it was. */
  lemma {:induction false} ChildrenFrame(gs: map<string, GroupState>, ids: seq<nat>, counts: map<nat, nat>, buf: seq<byte>,
                                         at: nat, i: nat, id: nat)
    requires i <= |ids| && at <= |buf| && Covers(gs, ids)
    requires forall j :: 0 <= j < |ids| ==> ids[j] in counts
    requires Children(gs, ids, counts, buf, at, i).Some? && IdKey(id) in gs
    requires forall m :: i <= m < |ids| ==> ids[m] != id
    ensures Children(gs, ids, counts, buf, at, i).value.0[IdKey(id)] == gs[IdKey(id)]
    decreases |ids| - i
  {
    if i < |ids| {
      var run := Run(gs, at, IdKey(ids[i]), counts[ids[i]], buf);
      var (next, after) := run.value;
      assert Covers(next, ids);
      assert Children(gs, ids, counts, buf, at, i) == Children(next, ids, counts, buf, after, i + 1);
      KeysOfNumbers(ids[i], id);
      ChildrenFrame(next, ids, counts, buf, after, i + 1, id);
    }
  }

  /** The `i`th id's group, when no later id repeats it, keeps exactly the keys its own run adds. */
  lemma ChildrenRunFirst(gs: map<string, GroupState>, ids: seq<nat>, counts: map<nat, nat>, buf: seq<byte>, at: nat, i: nat)
    requires i < |ids| && at <= |buf| && Covers(gs, ids)
    requires forall m :: 0 <= m < |ids| ==> ids[m] in counts
    requires Children(gs, ids, counts, buf, at, i).Some? && LastAmong(ids, i, |ids|)
    ensures at + 2 * counts[ids[i]] <= |buf|
    ensures Children(gs, ids, counts, buf, at, i).value.0[IdKey(ids[i])].files.Keys ==
              gs[IdKey(ids[i])].files.Keys + IdKeys(RunningSums(Shorts(buf, at, counts[ids[i]])))
  {
    var run := Run(gs, at, IdKey(ids[i]), counts[ids[i]], buf);
    var (next, after) := run.value;
    assert Covers(next, ids);
    assert Children(gs, ids, counts, buf, at, i) == Children(next, ids, counts, buf, after, i + 1);
    ChildrenFrame(next, ids, counts, buf, after, i + 1, ids[i]);
  }

  /**
   * The children section read from the first id on, over groups with no
   * files yet, gives the first id's group, when no other id repeats it,
   * exactly the keys of the first run, as long as the first child count.
   */
  lemma FirstRun(gs: map<string, GroupState>, ids: seq<nat>, counts: map<nat, nat>, buf: seq<byte>, pos: nat, at: nat)
    requires at <= |buf| && pos + 2 * |ids| <= |buf| && Covers(gs, ids)
    requires forall k :: k in gs ==> gs[k].order == [] && gs[k].files == map[]
    requires counts == CountsMap(ids, Shorts(buf, pos, |ids|))
    ensures Children(gs, ids, counts, buf, at, 0).Some? && 0 < |ids| && LastAmong(ids, 0, |ids|) ==>
              FirstRunFrom(Children(gs, ids, counts, buf, at, 0).value.0, ids, {}, buf, at, U16(buf, pos))
  {
    if Children(gs, ids, counts, buf, at, 0).Some? && 0 < |ids| && LastAmong(ids, 0, |ids|) {
      CountsRead(ids, buf, pos, 0);
      ChildrenRunFirst(gs, ids, counts, buf, at, 0);
      assert gs[IdKey(ids[0])].files.Keys == {};
    }
  }

  /** The child count read for an id that no later id repeats is its own entry of the counts section. */
  lemma CountsRead(ids: seq<nat>, buf: seq<byte>, pos: nat, i: nat)
    requires pos + 2 * |ids| <= |buf| && i < |ids| && LastAmong(ids, i, |ids|)
    ensures CountsMap(ids, Shorts(buf, pos, |ids|))[ids[i]] == U16(buf, pos + 2 * i)
  {
    CountsMapValues(ids, Shorts(buf, pos, |ids|), i);
    ShortsAt(buf, pos, |ids|, i);
  }

  // ------------------------------------------------------ one entry at a time

  lemma AddChildrenStep(g: GroupState, buf: seq<byte>, at: nat, j: nat)
    requires at + 2 * (j + 1) <= |buf|
    ensures var sums := RunningSums(Shorts(buf, at, j));
            var id := Total(sums) + U16(buf, at + 2 * j);
            Total(RunningSums(Shorts(buf, at, j + 1))) == id &&
            AddChildren(g, RunningSums(Shorts(buf, at, j + 1))) == SetChild(AddChildren(g, sums), IdKey(id))
  {
    var deltas := Shorts(buf, at, j);
    var delta := U16(buf, at + 2 * j);
    var sums := RunningSums(deltas);
    assert Shorts(buf, at, j + 1) == deltas + [delta];
    assert (deltas + [delta])[..|deltas|] == deltas;
    assert RunningSums(deltas + [delta]) == sums + [Total(sums) + delta];
    AddChildrenSnoc(g, sums, Total(sums) + delta);
  }

  /** Children from one more id: the earlier ones, then that id set. */
  lemma AddChildrenSnoc(g: GroupState, childIds: seq<nat>, id: nat)
    ensures AddChildren(g, childIds + [id]) == SetChild(AddChildren(g, childIds), IdKey(id))
  {
    assert (childIds + [id])[..|childIds|] == childIds;
  }

  /** One more file of a group, in insertion order, takes its hash. */
  lemma NameChildrenStep(g: GroupState, buf: seq<byte>, at: nat, j: nat, config: StoreConfig.StoreConfig)
    requires j < |g.order| && at + 4 * (j + 1) <= |buf|
    ensures var prev := NameChildren(g, Ints(buf, at, j), config);
            var c := g.order[j];
            NameChildren(g, Ints(buf, at, j + 1), config) ==
              if c in prev.files then prev.(files := prev.files[c := J.AfterNameHash(prev.files[c], I32(buf, at + 4 * j), config)])
              else prev
  {
    var hashes := Ints(buf, at, j + 1);
    assert hashes == Ints(buf, at, j) + [I32(buf, at + 4 * j)];
    assert hashes[..j] == Ints(buf, at, j) && hashes[j] == I32(buf, at + 4 * j);
  }

  // ------------------------------------------------ one section entry at a time

  /** One more id gives one more new group, under that id. */
  lemma CreatedSnoc(ids: seq<nat>, id: nat)
    ensures Created(ids + [id]) == Created(ids)[IdKey(id) := NewGroup(IdKey(id))]
  {
    IdKeysSnoc(ids, id);
  }

  /** The group-id section one entry further on: one more id, one more new group under it. */
  lemma GroupIdsStep(buf: seq<byte>, i: nat, ids: seq<nat>, table: map<string, GroupState>, accumulator: nat)
    requires NamesAt(i + 1) <= |buf|
    requires ids == RunningSums(Shorts(buf, 4, i)) && accumulator == Total(ids) && table == Created(ids)
    ensures var id := accumulator + U16(buf, 4 + 2 * i);
            ids + [id] == RunningSums(Shorts(buf, 4, i + 1)) && id == Total(ids + [id]) &&
            table[IdKey(id) := NewGroup(IdKey(id))] == Created(ids + [id])
  {
    SumsSnoc(buf, 4, i);
    CreatedSnoc(ids, accumulator + U16(buf, 4 + 2 * i));
  }

  /** One more delta read from the buffer gives one more id: the last one plus that delta. */
  lemma SumsSnoc(buf: seq<byte>, pos: nat, i: nat)
    requires pos + 2 * (i + 1) <= |buf|
    ensures var sums := RunningSums(Shorts(buf, pos, i));
            var id := Total(sums) + U16(buf, pos + 2 * i);
            RunningSums(Shorts(buf, pos, i + 1)) == sums + [id] && Total(sums + [id]) == id
  {
    var deltas := Shorts(buf, pos, i);
    assert Shorts(buf, pos, i + 1) == deltas + [U16(buf, pos + 2 * i)];
    assert (deltas + [U16(buf, pos + 2 * i)])[..i] == deltas;
  }

  /** A 4-byte section one entry further on: that entry's id takes it. */
  lemma StampedStep(gs: map<string, GroupState>, ids: seq<nat>, buf: seq<byte>, pos: nat, i: nat, section: Section,
                    config: StoreConfig.StoreConfig)
    requires i < |ids| && pos + 4 * (i + 1) <= |buf| && Covers(gs, ids)
    ensures var prev := Stamped(gs, ids, buf, pos, i, section, config);
            var k := IdKey(ids[i]);
            k in prev &&
            Stamped(gs, ids, buf, pos, i + 1, section, config) ==
              prev[k := prev[k].(file := Stamp(prev[k].file, section, I32(buf, pos + 4 * i), config))]
  {
    assert IdKey(ids[i]) in gs;
  }
}
