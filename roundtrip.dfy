/** What a `.lang` file written by ConvertJSONToLang reads back as in
    ConvertLangToJSON. The decoder recovers every leaf's path (as the UTF-8
    bytes of each key) and its text exactly, in the order the records were
    written, when the leaf fits the format: at least one key, no key with a
    `/`, a tag shorter than 65536 bytes, fewer than 32768 runes (so that
    neither the rune count nor its double wraps in 16 bits), and only runes
    of the Basic Multilingual Plane. */
module RoundTrip {
  import opened Bytes
  import opened Unicode
  import opened TagTree
  import opened Decode
  import opened Encode

  /** The entry the decoder makes of a leaf: each key as its UTF-8 bytes,
      and the text. */
  function DecodedLeaf(e: Leaf): (r: Entry)
    ensures |r.0| == |e.0|
  {
    (Utf8Each(e.0), e.1)
  }

  function DecodedLeaves(ls: seq<Leaf>): (r: seq<Entry>)
    ensures |r| == |ls|
    ensures forall i :: 0 <= i < |ls| ==> r[i] == DecodedLeaf(ls[i])
  {
    if ls == [] then [] else [DecodedLeaf(ls[0])] + DecodedLeaves(ls[1..])
  }

  /** A leaf that the format carries without loss. */
  predicate Encodable(e: Leaf)
  {
    && |e.0| >= 1
    && (forall i :: 0 <= i < |e.0| ==> '/' !in e.0[i])
    && |TagBytes(e.0)| < 0x1_0000
    && |e.1| < 0x8000
    && (forall i :: 0 <= i < |e.1| ==> e.1[i] as int < 0x1_0000)
  }

  predicate AllEncodable(ls: seq<Leaf>)
  {
    forall i :: 0 <= i < |ls| ==> Encodable(ls[i])
  }

  /** Units of BMP runes decode back to the runes: no unit is a surrogate,
      since a rune never is. */
  lemma DecodeUnitsOfUnits(text: string)
    requires forall i :: 0 <= i < |text| ==> text[i] as int < 0x1_0000
    ensures DecodeUnits(Units(text)) == text
  {
    var t := DecodeUnits(Units(text));
    forall j | 0 <= j < |text|
      ensures t[j] == text[j]
    {
      assert ReadLE16(Units(text), 2 * j) == text[j] as int;
    }
  }

  /** A tag made of keys without `/` splits back into the keys' bytes. */
  lemma SplitTag(path: seq<string>)
    requires |path| >= 1 && forall i :: 0 <= i < |path| ==> '/' !in path[i]
    ensures Split(TagBytes(path), Slash) == Utf8Each(path)
  {
    Utf8Join(path);
    forall i | 0 <= i < |path|
      ensures Slash !in Utf8Each(path)[i]
    {
      Utf8NoSlash(path[i]);
    }
    SplitJoin(Utf8Each(path), Slash);
  }

  /** The record of an encodable leaf, anywhere in a body, is read back as
      a record with the leaf's tag bytes and units, ending where it ends. */
  lemma ParseEncodedRecord(pre: seq<Byte>, e: Leaf, rest: seq<Byte>)
    requires Encodable(e)
    ensures var r := EncodeRecord(e.0, e.1);
      ParseRecord(pre + r + rest, |pre|) == Record(TagBytes(e.0), Units(e.1), |pre| + |r|)
  {
    var tag := TagBytes(e.0);
    var units := Units(e.1);
    RecordLayout(pre, tag, units, rest);
    assert U16(|tag|) == |tag| && U16(|e.1|) == |units| / 2;
    assert EncodeRecord(e.0, e.1) == Layout(tag, |units| / 2, units);
  }

  /** The record of an encodable leaf, found at offset `i` of a body, is
      read back there. */
  lemma EncodedRecordAt(body: seq<Byte>, i: nat, e: Leaf, more: seq<Byte>)
    requires Encodable(e) && i <= |body| && body[i..] == EncodeRecord(e.0, e.1) + more
    ensures i < |body|
    ensures ParseRecord(body, i) == Record(TagBytes(e.0), Units(e.1), i + |EncodeRecord(e.0, e.1)|)
  {
    assert body == body[..i] + EncodeRecord(e.0, e.1) + more;
    ParseEncodedRecord(body[..i], e, more);
  }

  /** Reading from an offset where the record of an encodable leaf starts
      gives that leaf's entry, then whatever follows. */
  lemma EncodedStep(body: seq<Byte>, i: nat, e: Leaf, next: nat, d: seq<Entry>)
    requires Encodable(e) && i < |body|
    requires ParseRecord(body, i) == Record(TagBytes(e.0), Units(e.1), next)
    requires ParseFrom(body, next) == Complete(d)
    ensures ParseFrom(body, i) == Complete([DecodedLeaf(e)] + d)
  {
    SplitTag(e.0);
    DecodeUnitsOfUnits(e.1);
  }

  /** The records of encodable leaves, from offset `i` to the end of a
      body, read back as the leaves' entries in order. */
  lemma {:induction false} ParseEncodedAt(body: seq<Byte>, i: nat, ls: seq<Leaf>)
    requires AllEncodable(ls) && i <= |body| && body[i..] == EncodeAll(ls)
    ensures ParseFrom(body, i) == Complete(DecodedLeaves(ls))
    decreases |ls|
  {
    if ls != [] {
      var e := ls[0];
      var r := EncodeRecord(e.0, e.1);
      var more := EncodeAll(ls[1..]);
      EncodedRecordAt(body, i, e, more);
      assert body[i + |r|..] == (r + more)[|r|..] == more;
      ParseEncodedAt(body, i + |r|, ls[1..]);
      EncodedStep(body, i, e, i + |r|, DecodedLeaves(ls[1..]));
      assert DecodedLeaves(ls) == [DecodedLeaf(e)] + DecodedLeaves(ls[1..]);
    }
  }

  /** The records of encodable leaves, after anything, read back as the
      leaves' entries in order, with nothing left over. */
  lemma ParseEncoded(pre: seq<Byte>, ls: seq<Leaf>)
    requires AllEncodable(ls)
    ensures ParseFrom(pre + EncodeAll(ls), |pre|) == Complete(DecodedLeaves(ls))
  {
    ParseEncodedAt(pre + EncodeAll(ls), |pre|, ls);
  }

  /** The file written for a list of encodable leaves converts back to the
      JSON of the tree built from their entries; a list without leaves gives
      a bare header, which is skipped. */
  lemma FileRoundTrip(ls: seq<Leaf>)
    requires AllEncodable(ls)
    ensures var body := EncodeAll(ls);
      LangToJson(Header(|body|, |ls|) + body)
        == if ls == [] then Skipped else Converted(Render(AddAll(NewTree([]), DecodedLeaves(ls))))
  {
    var body := EncodeAll(ls);
    var file := Header(|body|, |ls|) + body;
    assert file[8..] == body;
    ParseEncoded([], ls);
    assert [] + body == body;
  }

  /** ConvertJSONToLang followed by ConvertLangToJSON: when every leaf of
      the object fits the format, the records of the written file are the
      leaves, in the order they were written. */
  lemma JsonRoundTrip(result: map<string, JVal>, file: seq<Byte>, leaves: seq<Leaf>)
    requires multiset(leaves) == Leaves([], JObj(result))
    requires file == Header(|EncodeAll(leaves)|, |leaves|) + EncodeAll(leaves)
    requires forall e :: e in Leaves([], JObj(result)) ==> Encodable(e)
    ensures AllEncodable(leaves)
    ensures LangToJson(file)
      == if leaves == [] then Skipped else Converted(Render(AddAll(NewTree([]), DecodedLeaves(leaves))))
  {
    forall i | 0 <= i < |leaves|
      ensures Encodable(leaves[i])
    {
      assert leaves[i] in multiset(leaves);
    }
    FileRoundTrip(leaves);
  }

  /** A rune outside the Basic Multilingual Plane does not come back: only
      its low 16 bits are written, and they read back as a rune of the
      Basic Multilingual Plane (or as U+FFFD). */
  lemma RuneTruncated(c: char)
    requires c as int >= 0x1_0000
    ensures DecodeUnits(Units([c])) != [c]
  {
    var t := DecodeUnits(Units([c]));
    assert ReadLE16(Units([c]), 0) == U16(c as int);
    assert t[0] == ScalarOfUnit(U16(c as int));
  }

  /** A text of 32768 to 65535 runes does not come back: its record is
      written with the true count, but reading it back doubles the count in
      16 bits, so only `2L - 65536` bytes of its units are taken as its text
      and the rest is read as the next record. */
  lemma LongTextTruncated(path: seq<string>, text: string, rest: seq<Byte>)
    requires |TagBytes(path)| < 0x1_0000 && 0x8000 <= |text| < 0x1_0000
    ensures var r := ParseRecord(EncodeRecord(path, text) + rest, 0);
      && r.Record? && r.tag == TagBytes(path)
      && |r.units| == 2 * |text| - 0x1_0000
      && DecodeUnits(r.units) != text
  {
    var tag := TagBytes(path);
    var units := Units(text);
    assert U16(|tag|) == |tag| && U16(|text|) == |text|;
    assert EncodeRecord(path, text) + rest == [] + Layout(tag, |text|, []) + (units + rest);
    CountWraps([], tag, |text|, units + rest);
  }
}
