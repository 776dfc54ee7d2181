/** Writing a `.lang` file (frostlang.go, jsonToLang and the body of
    ConvertJSONToLang): every string leaf of a JSON value becomes one
    record, the leaf's path joined with `/` as its tag and its runes, cut to
    16 bits each, as its units; the file is an 8-byte header followed by the
    records.

    The JSON value is what json.Unmarshal leaves in a
    `map[string]interface{}`: strings, objects, and anything else (numbers,
    booleans, arrays, null), which is skipped. A Go string coming out of
    json.Unmarshal is valid UTF-8, so it is modelled as its sequence of
    scalar values. */
module Encode {
  import opened Bytes
  import opened Unicode

  /** A decoded JSON value, as far as jsonToLang looks at it. */
  datatype JVal = JStr(s: string) | JObj(fields: map<string, JVal>) | JOther

  /** A string leaf: the keys leading to it and its text. */
  type Leaf = (seq<string>, string)

  /** The units of a text: for each rune `binary.LittleEndian.PutUint16`
      of `uint16(r)`, so a rune above U+FFFF keeps only its low 16 bits. */
  function Units(text: string): (r: seq<Byte>)
    ensures |r| == 2 * |text| && |r| % 2 == 0 && |r| / 2 == |text|
    ensures forall j :: 0 <= j < |text| ==> ReadLE16(r, 2 * j) == U16(text[j] as int)
    decreases |text|
  {
    if text == [] then []
    else
      var rest := Units(text[1..]);
      var r := LE16(U16(text[0] as int)) + rest;
      assert forall j :: 1 <= j < |text| ==> ReadLE16(r, 2 * j) == ReadLE16(rest, 2 * (j - 1));
      r
  }

  /** The units of a text followed by one more rune. */
  lemma {:induction false} UnitsSnoc(text: string, c: char)
    ensures Units(text + [c]) == Units(text) + LE16(U16(c as int))
    decreases |text|
  {
    if text == [] {
      assert [c][1..] == [];
    } else {
      assert (text + [c])[1..] == text[1..] + [c];
      UnitsSnoc(text[1..], c);
    }
  }

  /** The tag of a leaf: `[]byte(strings.Join(parentTags, "/"))`. */
  function TagBytes(path: seq<string>): seq<Byte>
  {
    Utf8(Join(path, '/'))
  }

  /** The record of one leaf: the tag length and the rune count, each cut to
      16 bits, around the tag and the units. */
  function EncodeRecord(path: seq<string>, text: string): (r: seq<Byte>)
    ensures |r| == 4 + |TagBytes(path)| + 2 * |text|
  {
    var tag := TagBytes(path);
    LE16(U16(|tag|)) + tag + LE16(U16(|text|)) + Units(text)
  }

  /** The records of the leaves, one after the other. */
  function EncodeAll(leaves: seq<Leaf>): (r: seq<Byte>)
    ensures leaves != [] ==> |r| >= 4
    decreases |leaves|
  {
    if leaves == [] then [] else EncodeRecord(leaves[0].0, leaves[0].1) + EncodeAll(leaves[1..])
  }

  /** The records of two lists of leaves are the records of their
      concatenation. */
  lemma {:induction false} EncodeAllAppend(a: seq<Leaf>, b: seq<Leaf>)
    ensures EncodeAll(a + b) == EncodeAll(a) + EncodeAll(b)
    decreases |a|
  {
    if a == [] {
      assert a + b == b;
    } else {
      assert (a + b)[1..] == a[1..] + b;
      EncodeAllAppend(a[1..], b);
    }
  }

  /** The string leaves below `v`, reached from `p`, counted with
      multiplicity but in no particular order. */
  ghost function Leaves(p: seq<string>, v: JVal): multiset<Leaf>
    decreases v, 1
  {
    match v
    case JStr(s) => multiset{(p, s)}
    case JObj(m) => LeavesOf(p, m, m.Keys)
    case JOther => multiset{}
  }

  /** The leaves below the members `keys` of the object `m` at `p`. */
  ghost function LeavesOf(p: seq<string>, m: map<string, JVal>, keys: set<string>): multiset<Leaf>
    requires keys <= m.Keys
    decreases JObj(m), 0, |keys|
  {
    if keys == {} then multiset{}
    else
      var k :| k in keys;
      Leaves(p + [k], m[k]) + LeavesOf(p, m, keys - {k})
  }

  /** The leaves of a set of members can be collected starting from any
      member: the order in which a Go map is ranged over does not matter. */
  lemma {:induction false} LeavesOfAny(p: seq<string>, m: map<string, JVal>, keys: set<string>, k: string)
    requires keys <= m.Keys && k in keys
    ensures LeavesOf(p, m, keys) == Leaves(p + [k], m[k]) + LeavesOf(p, m, keys - {k})
    decreases |keys|
  {
    var k' :| k' in keys && LeavesOf(p, m, keys) == Leaves(p + [k'], m[k']) + LeavesOf(p, m, keys - {k'});
    if k' != k {
      LeavesOfAny(p, m, keys - {k'}, k);
      LeavesOfAny(p, m, keys - {k}, k');
      assert keys - {k'} - {k} == keys - {k} - {k'};
    }
  }

  /** The rune loop of jsonToLang: counts the runes of `text` and appends
      the 16-bit value of each to `runeText`. */
  method EncodeRunes(text: string) returns (runeCount: nat, runeText: seq<Byte>)
    ensures runeCount == |text|
    ensures runeText == Units(text)
  {
    runeCount := 0;
    runeText := [];
    var i := 0;
    while i < |text|
      invariant i <= |text| && runeCount == i
      invariant runeText == Units(text[..i])
      decreases |text| - i
    {
      runeCount := runeCount + 1;
      UnitsSnoc(text[..i], text[i]);
      assert text[..i + 1] == text[..i] + [text[i]];
      runeText := runeText + LE16(U16(text[i] as int));
      i := i + 1;
    }
    assert text[..i] == text;
  }

  /** jsonToLang: the records of the string leaves below `innerJson`, whose
      path so far is `parentTags`, and their number. `leaves` lists the
      leaves in the order the records were written; which order that is
      depends on how each map is ranged over. */
  method JsonToLang(parentTags: seq<string>, innerJson: JVal)
    returns (langText: seq<Byte>, entries: nat, ghost leaves: seq<Leaf>)
    ensures langText == EncodeAll(leaves)
    ensures multiset(leaves) == Leaves(parentTags, innerJson)
    ensures entries == |leaves| == |Leaves(parentTags, innerJson)|
    decreases innerJson, 1
  {
    match innerJson
    case JStr(text) =>
      langText := EncodeLeaf(parentTags, text);
      entries := 1;
      leaves := [(parentTags, text)];
      assert EncodeAll(leaves) == EncodeRecord(parentTags, text) + EncodeAll([]);
    case JObj(subJson) =>
      langText, entries, leaves := EncodeMembers(parentTags, subJson);
    case JOther =>
      langText, entries, leaves := [], 0, [];
  }

  /** The string case of jsonToLang: the record of one leaf, written field
      by field. */
  method EncodeLeaf(parentTags: seq<string>, text: string) returns (langText: seq<Byte>)
    ensures langText == EncodeRecord(parentTags, text)
  {
    langText := [];
    var tagBytes := Utf8(Join(parentTags, '/'));
    langText := langText + LE16(U16(|tagBytes|));
    langText := langText + tagBytes;
    var runeCount, runeText := EncodeRunes(text);
    langText := langText + LE16(U16(runeCount));
    langText := langText + runeText;
  }

  /** The object case of jsonToLang: the records of each member in turn, in
      whatever order the map is ranged over, and the sum of their counts. */
  method EncodeMembers(parentTags: seq<string>, subJson: map<string, JVal>)
    returns (langText: seq<Byte>, entries: nat, ghost leaves: seq<Leaf>)
    ensures langText == EncodeAll(leaves)
    ensures multiset(leaves) == LeavesOf(parentTags, subJson, subJson.Keys)
    ensures entries == |leaves| == |LeavesOf(parentTags, subJson, subJson.Keys)|
    decreases JObj(subJson), 0
  {
    langText := [];
    entries := 0;
    leaves := [];
    var rest := subJson.Keys;
    while rest != {}
      invariant rest <= subJson.Keys
      invariant langText == EncodeAll(leaves)
      invariant multiset(leaves) + LeavesOf(parentTags, subJson, rest) == LeavesOf(parentTags, subJson, subJson.Keys)
      invariant entries == |leaves|
      decreases |rest|
    {
      var tag :| tag in rest;
      var subLang, subEntries, subLeaves := JsonToLang(parentTags + [tag], subJson[tag]);
      LeavesOfAny(parentTags, subJson, rest, tag);
      EncodeAllAppend(leaves, subLeaves);
      langText := langText + subLang;
      entries := entries + subEntries;
      leaves := leaves + subLeaves;
      rest := rest - {tag};
    }
  }

  /** The body length depends only on which leaves are written, not on
      their order. */
  lemma {:induction false} EncodeAllLength(a: seq<Leaf>, b: seq<Leaf>)
    requires multiset(a) == multiset(b)
    ensures |EncodeAll(a)| == |EncodeAll(b)|
    decreases |a|
  {
    if a == [] {
      assert |b| == |multiset(b)| == 0;
    } else {
      var x := a[0];
      assert x in multiset(b);
      var k :| 0 <= k < |b| && b[k] == x;
      var b1, b2 := b[..k], b[k + 1..];
      assert b == b1 + [x] + b2;
      assert a == [x] + a[1..];
      MultisetRemove(x, a[1..], b1, b2);
      EncodeAllLength(a[1..], b1 + b2);
      EncodeAllAppend(b1 + [x], b2);
      EncodeAllAppend(b1, [x]);
      EncodeAllAppend(b1, b2);
      assert EncodeAll([x]) == EncodeRecord(x.0, x.1) + EncodeAll([]);
    }
  }

  /** The 8-byte header: the body length plus 4, then the entry count, each
      as a little-endian uint32. */
  function Header(bodyLength: nat, entries: nat): (h: seq<Byte>)
    ensures |h| == 8
    ensures ReadLE32(h, 0) == U32(bodyLength + 4) && ReadLE32(h, 4) == U32(entries)
  {
    var h := LE32(U32(bodyLength + 4)) + LE32(U32(entries));
    assert h[4..] == LE32(U32(entries));
    h
  }

  /** ConvertJSONToLang for one file whose top-level object json.Unmarshal
      produced as `result`: the header, then the records. */
  method ConvertJsonToLang(result: map<string, JVal>) returns (file: seq<Byte>, ghost leaves: seq<Leaf>)
    ensures multiset(leaves) == Leaves([], JObj(result))
    ensures file == Header(|EncodeAll(leaves)|, |leaves|) + EncodeAll(leaves)
    ensures |file| >= 8 && ReadLE32(file, 4) == U32(|Leaves([], JObj(result))|)
  {
    var langText, entries;
    langText, entries, leaves := JsonToLang([], JObj(result));
    file := Header(|langText|, entries) + langText;
  }

  /** Two runs of ConvertJSONToLang on the same object, ranging over its
      maps in different orders, write the same records (in some order), the
      same number of them, bodies of the same length and the same header. */
  lemma ConvertOrderFree(result: map<string, JVal>, leaves1: seq<Leaf>, leaves2: seq<Leaf>)
    requires multiset(leaves1) == Leaves([], JObj(result))
    requires multiset(leaves2) == Leaves([], JObj(result))
    ensures multiset(leaves1) == multiset(leaves2) && |leaves1| == |leaves2|
    ensures |EncodeAll(leaves1)| == |EncodeAll(leaves2)|
    ensures Header(|EncodeAll(leaves1)|, |leaves1|) == Header(|EncodeAll(leaves2)|, |leaves2|)
  {
    assert |leaves1| == |multiset(leaves1)| == |multiset(leaves2)| == |leaves2|;
    EncodeAllLength(leaves1, leaves2);
  }
}
