/**
 * The 32-bit polynomial name hash the cache stores in place of file and group
 * names, and the lookup of a recorded name by its hash.
 */
module NameHash {
  import opened Wrappers
  import opened JsValues

  /** The hash as a fold over code units: `h := (31 * h + unit) mod 2^32`, from 0. */
  function Fold31(units: seq<int>): (h: nat)
    ensures h < TWO_POW_32
  {
    if units == [] then 0 else (31 * Fold31(units[..|units| - 1]) + units[|units| - 1]) % TWO_POW_32
  }

  /** The name hash of a string: the fold over its UTF-16 code units as a signed 32-bit number. */
  function FileNameHash(name: string): int {
    ToInt32(Fold31(Utf16(name)))
  }

  /** One loop step of `hashFileName` agrees with one step of the fold, modulo 2^32. */
  lemma StepAgreesWithFold(h: int, unit: int)
    ensures (unit + (ShiftLeft5(h) - h)) % TWO_POW_32 == (31 * (h % TWO_POW_32) + unit) % TWO_POW_32
  {
    var t := ToInt32(h);
    var s := ShiftLeft5(h);
    var k1 := (s - t * 32) / TWO_POW_32;
    var k2 := (t - h) / TWO_POW_32;
    assert s - t * 32 == k1 * TWO_POW_32;
    assert t - h == k2 * TWO_POW_32;
    var q := h / TWO_POW_32;
    assert h == q * TWO_POW_32 + h % TWO_POW_32;
    var lhs := unit + (s - h);
    var rhs := 31 * (h % TWO_POW_32) + unit;
    assert lhs == rhs + (k1 + 32 * k2 + 31 * q) * TWO_POW_32;
    ModuloShift(rhs, k1 + 32 * k2 + 31 * q);
  }

  lemma ModuloShift(x: int, k: int)
    ensures (x + k * TWO_POW_32) % TWO_POW_32 == x % TWO_POW_32
  {
  }

  /**
   * `hashFileName` (src/hash/name-hash.ts): the running value is kept as an
   * unbounded number, as JavaScript keeps it, and wrapped to 32 bits at the end.
   */
  method HashFileName(str: string) returns (hash: int)
    ensures hash == FileNameHash(str)
    ensures -TWO_POW_31 <= hash < TWO_POW_31
  {
    var units := Utf16(str);
    var h := 0;
    for i := 0 to |units|
      invariant h % TWO_POW_32 == Fold31(units[..i])
    {
      StepAgreesWithFold(h, units[i]);
      assert units[..i + 1] == units[..i] + [units[i]];
      FoldSnoc(units[..i], units[i]);
      h := units[i] + (ShiftLeft5(h) - h);
    }
    assert units[..|units|] == units;
    hash := ToInt32(h);
    WrapFirst(h);
  }

  /** `ToInt32` sees only the residue modulo 2^32. */
  lemma WrapFirst(x: int)
    ensures ToInt32(x) == ToInt32(x % TWO_POW_32)
  {
  }

  /** The empty name hashes to zero. */
  lemma EmptyNameHash()
    ensures FileNameHash("") == 0
  {
  }

  /** Appending one code unit advances the fold by one step. */
  lemma FoldSnoc(units: seq<int>, unit: int)
    ensures Fold31(units + [unit]) == (31 * Fold31(units) + unit) % TWO_POW_32
  {
    assert (units + [unit])[..|units|] == units;
  }

  /** A one-character name in the basic plane hashes to its code unit. */
  lemma SingleCharacterHash(c: char)
    requires c as int < 0x1_0000
    ensures FileNameHash([c]) == c as int
  {
    var v := c as int;
    SingleCodeUnit(c);
    FoldSnoc([], v);
    assert [] + [v] == [v];
  }

  lemma SingleCodeUnit(c: char)
    requires c as int < 0x1_0000
    ensures Utf16([c]) == [c as int]
  {
    assert [c][..0] == [];
  }

  /**
   * `getFileNameForHash`: null for an undefined hash; otherwise the name the
   * table records for the hash's decimal string, or that string itself.
   */
  function GetFileNameForHash(fileNames: map<string, Option<string>>, nameHash: Option<int>): (r: Option<string>)
    ensures r.None? <==> nameHash.None?
  {
    match nameHash
    case None => None
    case Some(h) =>
      var hashString := DecimalString(h);
      if hashString in fileNames && fileNames[hashString].Some? then fileNames[hashString] else Some(hashString)
  }

  /**
   * A hash the table names resolves to that name; any other hash resolves to a
   * label that `Number` turns back into the hash.
   */
  lemma FileNameForHashResolves(fileNames: map<string, Option<string>>, h: int)
    ensures var key := DecimalString(h);
            var r := GetFileNameForHash(fileNames, Some(h));
            (key in fileNames && fileNames[key].Some? ==> r == fileNames[key]) &&
            (!(key in fileNames && fileNames[key].Some?) ==> ParseNumber(r.value) == Num(h))
  {
    NumberOfDecimalString(h);
  }
}
