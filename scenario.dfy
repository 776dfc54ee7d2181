/** The conversion the repository's test performs (frostlang_test.go): a
    file of eight header bytes and two records, `tag/sub1` with the text
    `text` and `tag/sub2` with the text `test`, converts to a five-line
    nested JSON object. */
module Scenario {
  import opened Bytes
  import opened Unicode
  import opened JsonString
  import opened TagTree
  import opened Decode

  const TagKey: Key := [0x74, 0x61, 0x67]
  const Sub1Key: Key := [0x73, 0x75, 0x62, 0x31]
  const Sub2Key: Key := [0x73, 0x75, 0x62, 0x32]

  /** The units of `text` and of `test`, two bytes per character. */
  const TextUnits: seq<Byte> := [0x74, 0x00, 0x65, 0x00, 0x78, 0x00, 0x74, 0x00]
  const TestUnits: seq<Byte> := [0x74, 0x00, 0x65, 0x00, 0x73, 0x00, 0x74, 0x00]

  /** The test's input: eight `0` digits as the header, then the two
      records, each a tag length of 8, the tag, a unit count of 4 and the
      units. */
  const TestHeader: seq<Byte> := [0x30, 0x30, 0x30, 0x30, 0x30, 0x30, 0x30, 0x30]
  const Record1: seq<Byte> := [0x08, 0x00] + (TagKey + [Slash] + Sub1Key) + [0x04, 0x00] + TextUnits
  const Record2: seq<Byte> := [0x08, 0x00] + (TagKey + [Slash] + Sub2Key) + [0x04, 0x00] + TestUnits
  const TestInput: seq<Byte> := TestHeader + Record1 + Record2

  /** The test's expected text, byte for byte: five lines joined by
      newlines, with no final newline. Each line is written as its
      indentation, its quoted key, `:` and its value. */
  const Text1: seq<Byte> := [0x7B]
    // {
  const Text2: seq<Byte> := [0x20, 0x20] + [0x22, 0x74, 0x61, 0x67, 0x22] + [0x3A] + [0x7B]
    //   "tag":{
  const Text3: seq<Byte> :=
    [0x20, 0x20, 0x20, 0x20] + [0x22, 0x73, 0x75, 0x62, 0x31, 0x22] + [0x3A] + [0x22, 0x74, 0x65, 0x78, 0x74, 0x22] + [0x2C]
    //     "sub1":"text",
  const Text4: seq<Byte> :=
    [0x20, 0x20, 0x20, 0x20] + [0x22, 0x73, 0x75, 0x62, 0x32, 0x22] + [0x3A] + [0x22, 0x74, 0x65, 0x73, 0x74, 0x22]
    //     "sub2":"test"
  const Text5: seq<Byte> := [0x20, 0x20] + [0x7D]
    //   }
  const Text6: seq<Byte> := [0x7D]
    // }
  const ExpectedJson: seq<Byte> :=
    Text1 + ([Newline] + Text2) + ([Newline] + Text3) + ([Newline] + Text4) + ([Newline] + Text5) + ([Newline] + Text6)

  // ---------------------------------------------------------------------
  // Reading the records

  lemma Layouts()
    ensures Record1 == Layout(TagKey + [Slash] + Sub1Key, 4, TextUnits)
    ensures Record2 == Layout(TagKey + [Slash] + Sub2Key, 4, TestUnits)
  {
    assert |TagKey + [Slash] + Sub1Key| == 8;
    assert LE16(8) == [0x08, 0x00] && LE16(4) == [0x04, 0x00];
  }

  lemma Texts()
    ensures DecodeUnits(TextUnits) == "text" && DecodeUnits(TestUnits) == "test"
  {
    assert ReadLE16(TextUnits, 0) == 0x74 && ReadLE16(TextUnits, 2) == 0x65;
    assert ReadLE16(TextUnits, 4) == 0x78 && ReadLE16(TextUnits, 6) == 0x74;
    assert ReadLE16(TestUnits, 0) == 0x74 && ReadLE16(TestUnits, 2) == 0x65;
    assert ReadLE16(TestUnits, 4) == 0x73 && ReadLE16(TestUnits, 6) == 0x74;
  }

  lemma Splits()
    ensures Split(TagKey + [Slash] + Sub1Key, Slash) == [TagKey, Sub1Key]
    ensures Split(TagKey + [Slash] + Sub2Key, Slash) == [TagKey, Sub2Key]
  {
    SplitAfterSegment(TagKey, Slash, Sub1Key);
    SplitSegment(Sub1Key, Slash);
    SplitAfterSegment(TagKey, Slash, Sub2Key);
    SplitSegment(Sub2Key, Slash);
  }

  lemma RecordsAt()
    ensures ParseRecord(Record1 + Record2, 0) == Record(TagKey + [Slash] + Sub1Key, TextUnits, 20)
    ensures ParseRecord(Record1 + Record2, 20) == Record(TagKey + [Slash] + Sub2Key, TestUnits, 40)
  {
    Layouts();
    RecordLayout([], TagKey + [Slash] + Sub1Key, TextUnits, Record2);
    assert [] + Record1 + Record2 == Record1 + Record2;
    RecordLayout(Record1, TagKey + [Slash] + Sub2Key, TestUnits, []);
    assert Record1 + Record2 + [] == Record1 + Record2;
  }

  lemma SecondRecord()
    ensures ParseFrom(Record1 + Record2, 20) == Complete([([TagKey, Sub2Key], "test")])
  {
    RecordsAt();
    Texts();
    Splits();
    assert ParseFrom(Record1 + Record2, 40) == Complete([]);
  }

  lemma BothRecords()
    ensures ParseFrom(Record1 + Record2, 0) == Complete([([TagKey, Sub1Key], "text"), ([TagKey, Sub2Key], "test")])
  {
    RecordsAt();
    Texts();
    Splits();
    SecondRecord();
  }

  /** The body of the test's input reads as its two records, in file
      order, with nothing left over. */
  lemma TestRecords()
    ensures TestInput[8..] == Record1 + Record2
    ensures ParseFrom(TestInput[8..], 0) == Complete([([TagKey, Sub1Key], "text"), ([TagKey, Sub2Key], "test")])
  {
    assert TestInput[8..] == Record1 + Record2;
    BothRecords();
  }

  // ---------------------------------------------------------------------
  // Building the tree

  const Leaf1: Tree := Tree(Sub1Key, "text", map[], 0, 2)
  const Leaf2: Tree := Tree(Sub2Key, "test", map[], 0, 2)
  const TagNode: Tree := Tree(TagKey, "", map[Sub1Key := Leaf1, Sub2Key := Leaf2], 2, 1)

  /** The root after both records: one child `tag`, two levels of depth,
      and an `Elements` count of 2 on each branch (each Add passes through
      both). */
  const TestTree: Tree := Tree([], "", map[TagKey := TagNode], 2, 0)

  lemma FirstAdd()
    ensures TreeAdd(NewTree([]), [TagKey, Sub1Key], "text")
      == Tree([], "", map[TagKey := Tree(TagKey, "", map[Sub1Key := Leaf1], 1, 1)], 1, 0)
  {
    assert [TagKey, Sub1Key][1..] == [Sub1Key];
  }

  lemma SecondAdd()
    ensures TreeAdd(Tree([], "", map[TagKey := Tree(TagKey, "", map[Sub1Key := Leaf1], 1, 1)], 1, 0),
        [TagKey, Sub2Key], "test") == TestTree
  {
    assert [TagKey, Sub2Key][1..] == [Sub2Key];
    assert Sub1Key != Sub2Key by { assert Sub1Key[3] != Sub2Key[3]; }
  }

  /** Adding the two records to a new root gives TestTree. */
  lemma TestBuild()
    ensures AddAll(NewTree([]), [([TagKey, Sub1Key], "text"), ([TagKey, Sub2Key], "test")]) == TestTree
  {
    var es: seq<(seq<Key>, string)> := [([TagKey, Sub1Key], "text"), ([TagKey, Sub2Key], "test")];
    var t1 := TreeAdd(NewTree([]), es[0].0, es[0].1);
    FirstAdd();
    SecondAdd();
    var rest: seq<(seq<Key>, string)> := es[1..];
    assert rest[1..] == [];
    assert AddAll(t1, rest) == AddAll(TreeAdd(t1, rest[0].0, rest[0].1), rest[1..]);
  }

  // ---------------------------------------------------------------------
  // Rendering the tree

  lemma KeysApart()
    ensures Sub1Key != Sub2Key && Less(Sub1Key, Sub2Key)
  {
    assert Sub1Key[3] != Sub2Key[3];
  }

  lemma KeyOrder()
    ensures SortedKeys(TestTree.children.Keys) == [TagKey]
    ensures SortedKeys(TagNode.children.Keys) == [Sub1Key, Sub2Key]
  {
    KeysApart();
    assert TestTree.children.Keys == {TagKey};
    SortedKeysUnique([TagKey], {TagKey});
    assert TagNode.children.Keys == {Sub1Key, Sub2Key};
    SortedKeysUnique([Sub1Key, Sub2Key], {Sub1Key, Sub2Key});
  }

  /** A node with one child renders as an object with one member. */
  lemma OneMember(t: Tree, a: Key)
    requires t.children.Keys == {a} && SortedKeys({a}) == [a]
    ensures Render(t) == [OpenBrace]
      + MemberText(t.children[a].depth, t.children[a].tag, Render(t.children[a]), false)
      + [Newline] + Indent(t.depth) + [CloseBrace]
  {
    var keys := [a];
    assert Members(t, keys, 1) == [] + Member(t, keys, 0) == Member(t, keys, 0);
  }

  /** A node with two children renders as an object with two members, the
      smaller key first and followed by a comma. */
  lemma TwoMembers(t: Tree, a: Key, b: Key)
    requires t.children.Keys == {a, b} && SortedKeys({a, b}) == [a, b]
    ensures Render(t) == [OpenBrace]
      + (MemberText(t.children[a].depth, t.children[a].tag, Render(t.children[a]), true)
        + MemberText(t.children[b].depth, t.children[b].tag, Render(t.children[b]), false))
      + [Newline] + Indent(t.depth) + [CloseBrace]
  {
    var keys := [a, b];
    assert keys[0] in t.children && keys[1] in t.children;
    var m0, m1 := Member(t, keys, 0), Member(t, keys, 1);
    assert Members(t, keys, 1) == m0 by { assert Members(t, keys, 1) == [] + m0; }
    assert Members(t, keys, 2) == m0 + m1;
  }

  /** A leaf renders as its text, quoted; `text` and `test` need no
      escaping. */
  lemma LeafJson(t: Tree, json: seq<Byte>)
    requires |t.children| == 0 && (t.text == "text" || t.text == "test")
    requires json == [Quote] + Ascii(t.text) + [Quote]
    ensures Render(t) == json
  {
    AsciiIsUtf8(t.text);
    EscapePlain(Ascii(t.text), false);
  }

  /** A member's text is a newline and then its line. */
  lemma MemberLine(d: nat, k: Key, json: seq<Byte>, more: bool, line: seq<Byte>)
    requires line == Indent(d) + QuoteString(k, true) + [Colon] + json + (if more then [Comma] else [])
    ensures MemberText(d, k, json, more) == [Newline] + line
  {
    var i, q, c := Indent(d), QuoteString(k, true), if more then [Comma] else [];
    Associative([Newline], i, q);
    Associative([Newline], i + q, [Colon]);
    Associative([Newline], i + q + [Colon], json);
    Associative([Newline], i + q + [Colon] + json, c);
  }

  /** The tag member's line up to its value. */
  lemma TagPiece()
    ensures Text2 == Indent(1) + QuoteString(TagKey, true) + [Colon] + [OpenBrace]
  {
    EscapePlain(TagKey, true);
    assert QuoteString(TagKey, true) == [0x22, 0x74, 0x61, 0x67, 0x22];
  }

  /** The leaf member `sub1` is the third line. */
  lemma Sub1Piece()
    ensures MemberText(2, Sub1Key, [Quote] + Ascii("text") + [Quote], true) == [Newline] + Text3
  {
    EscapePlain(Sub1Key, true);
    assert Indent(2) == [0x20, 0x20, 0x20, 0x20];
    assert QuoteString(Sub1Key, true) == [0x22, 0x73, 0x75, 0x62, 0x31, 0x22];
    assert [Quote] + Ascii("text") + [Quote] == [0x22, 0x74, 0x65, 0x78, 0x74, 0x22];
    MemberLine(2, Sub1Key, [Quote] + Ascii("text") + [Quote], true, Text3);
  }

  /** The leaf member `sub2` is the fourth line. */
  lemma Sub2Piece()
    ensures MemberText(2, Sub2Key, [Quote] + Ascii("test") + [Quote], false) == [Newline] + Text4
  {
    EscapePlain(Sub2Key, true);
    assert Indent(2) == [0x20, 0x20, 0x20, 0x20];
    assert QuoteString(Sub2Key, true) == [0x22, 0x73, 0x75, 0x62, 0x32, 0x22];
    assert [Quote] + Ascii("test") + [Quote] == [0x22, 0x74, 0x65, 0x73, 0x74, 0x22];
    assert Text4 + [] == Text4;
    MemberLine(2, Sub2Key, [Quote] + Ascii("test") + [Quote], false, Text4);
  }

  /** The node `tag` renders as an object holding the third and fourth
      lines. */
  lemma TagNodeRender()
    ensures Render(TagNode) == [OpenBrace] + (([Newline] + Text3) + ([Newline] + Text4)) + [Newline] + Indent(1) + [CloseBrace]
  {
    KeyOrder();
    KeysApart();
    LeafJson(Leaf1, [Quote] + Ascii("text") + [Quote]);
    LeafJson(Leaf2, [Quote] + Ascii("test") + [Quote]);
    TwoMembers(TagNode, Sub1Key, Sub2Key);
    Sub1Piece();
    Sub2Piece();
  }

  /** The regrouping of the rendering into lines, over abstract pieces. */
  lemma Regroup<T>(ob: seq<T>, nl: seq<T>, cb: seq<T>, colon: seq<T>, i0: seq<T>, i1: seq<T>, q: seq<T>,
                   m1: seq<T>, m2: seq<T>, r: seq<T>, e: seq<T>,
                   t2: seq<T>, t3: seq<T>, t4: seq<T>, t5: seq<T>, t6: seq<T>)
    requires r == ob + (m1 + m2) + nl + i1 + cb
    requires e == ob + (nl + i1 + q + colon + r + []) + nl + i0 + cb
    requires t2 == i1 + q + colon + ob && m1 == nl + t3 && m2 == nl + t4
    requires t5 == i1 + cb && t6 == i0 + cb
    ensures e == ob + (nl + t2) + (nl + t3) + (nl + t4) + (nl + t5) + (nl + t6)
  {
  }

  /** TestTree renders as the test's expected text. */
  lemma TestRender()
    ensures Render(TestTree) == ExpectedJson
  {
    KeyOrder();
    OneMember(TestTree, TagKey);
    TagNodeRender();
    TagPiece();
    assert Text5 == Indent(1) + [CloseBrace] && Text6 == Indent(0) + [CloseBrace];
    Regroup([OpenBrace], [Newline], [CloseBrace], [Colon], Indent(0), Indent(1), QuoteString(TagKey, true),
      [Newline] + Text3, [Newline] + Text4, Render(TagNode), Render(TestTree),
      Text2, Text3, Text4, Text5, Text6);
  }

  /** The test: converting its input gives exactly the expected text, the
      bytes of the Go string the test compares the output with. */
  lemma TestConvertLangToJson()
    ensures LangToJson(TestInput) == Converted(ExpectedJson)
  {
    TestRecords();
    TestBuild();
    TestRender();
  }
}
