/**
 * A group of an archive: a file of its own (the part it shares with every
 * JS5 file) and a table of member files keyed by their ids as strings,
 * which iterates in insertion order.
 */
module Js5FileGroup {
  import opened Wrappers
  import opened JsValues
  import J = Js5File
  import AI = ArchiveIndex

  class Js5FileGroup {
    /** The group's own file state. */
    const file: J.Js5File
    var files: map<string, J.Js5File>
    /** The keys of `files` in insertion order, the order the table iterates in. */
    var fileOrder: seq<string>
    const encoded: bool
    /** The group's own file and every member file it has held: the objects its state lives in. */
    ghost var repr: set<J.Js5File>

    /** The table and its order hold the same keys, each once, and the group is encoded. */
    ghost predicate Valid()
      reads this
    {
      encoded &&
      (forall i, j :: 0 <= i < j < |fileOrder| ==> fileOrder[i] != fileOrder[j]) &&
      (forall i :: 0 <= i < |fileOrder| ==> fileOrder[i] in files) &&
      (forall c :: c in files ==> c in fileOrder)
    }

    /** A new group: a new file under the id in the archive, no members, encoded. */
    constructor(id: Index, archive: J.Js5File)
      requires archive.Chained()
      ensures fresh(file) && file.index == Key(id) && file.archive == archive
      ensures file.Fields() == J.Initial(Key(id))
      ensures files == map[] && fileOrder == [] && Valid()
      ensures repr == {file}
    {
      file := new J.Js5File(id, archive);
      files := map[];
      fileOrder := [];
      encoded := true;
      repr := {file};
    }

    /**
     * `setFile`: stores the file under `String(id)`, replacing any entry
     * there; a new key goes to the end of the order, a known one keeps its place.
     */
    method SetFile(fileIndex: Index, f: J.Js5File)
      modifies this
      ensures old(Valid()) ==> Valid()
      ensures files == old(files)[Key(fileIndex) := f]
      ensures fileOrder == if Key(fileIndex) in old(files) then old(fileOrder) else old(fileOrder) + [Key(fileIndex)]
      ensures repr == old(repr) + {f}
    {
      var key := Key(fileIndex);
      if key !in files {
        fileOrder := fileOrder + [key];
      }
      files := files[key := f];
      repr := repr + {f};
    }

    /** `getFile`: the file under `String(id)`, or null. */
    function GetFile(fileIndex: Index): (r: Option<J.Js5File>)
      reads this
      ensures r.Some? <==> Key(fileIndex) in files
      ensures r.Some? ==> r.value == files[Key(fileIndex)]
    {
      var key := Key(fileIndex);
      if key in files then Some(files[key]) else None
    }

    /** `encoded`: always true, as nothing ever clears it. */
    function Encoded(): (e: bool)
      requires Valid()
      reads this
      ensures e
    {
      encoded
    }

    /**
     * The group holds the state `s` and sits under `key` in the archive
     * `owner`: its own file and each member file carry their ids, belong to
     * that archive and hold the states `s` gives them.
     */
    ghost predicate Holds(s: AI.GroupState, key: string, owner: J.Js5File)
      reads this, repr
    {
      file in repr && (forall c :: c in files ==> files[c] in repr) &&
      encoded && file.index == key && file.archive == owner && file.Fields() == s.file &&
      fileOrder == s.order && files.Keys == s.files.Keys &&
      forall c :: c in files ==> c in s.files && Member(files[c], c, owner, s.files[c])
    }

    /** A group holding a state whose order and files agree is valid. */
    lemma HoldsValid(s: AI.GroupState, key: string, owner: J.Js5File)
      requires Holds(s, key, owner) && AI.Ordered(s)
      ensures Valid()
    {
    }
  }

  /** `f` is the file under `key` of the archive `owner` and holds the state `fs`. */
  ghost predicate Member(f: J.Js5File, key: string, owner: J.Js5File, fs: J.FileFields)
    reads f
  {
    f.index == key && f.archive == owner && f.Fields() == fs
  }

  /** Storing under a numeric id and under its decimal string address the same entry. */
  lemma SameEntryForNumberAndString(g: Js5FileGroup, n: int)
    ensures g.GetFile(NumIndex(n)) == g.GetFile(StrIndex(DecimalString(n)))
  {
  }
}
