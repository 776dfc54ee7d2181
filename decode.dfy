/** Reading a `.lang` file (frostlang.go, the body of ConvertLangToJSON):
    an 8-byte header that is ignored, then records of
      2 bytes  tag length T (little endian)
      T bytes  the tag, whose segments are separated by `/`
      2 bytes  unit count L (little endian)
      2L bytes L little-endian 16-bit code units, one character each
    each of which is added to a tree that is then rendered as JSON.

    The program does no bounds checking of its own. Its slices are checked
    against the capacity of the buffer the file was read into: an overrun
    beyond that capacity panics, and one within it reads zeros and the file
    is still converted. The model reports the failure `Truncated` in both
    cases. The byte count `L * 2` is computed in 16 bits
    and wraps for L >= 32768; the model keeps the wrap. */
module Decode {
  import opened Bytes
  import opened Unicode
  import opened JsonString
  import opened TagTree
  import opened Nodes

  /** One decoded record: the tag's segments and the text. */
  type Entry = (seq<Key>, string)

  /** Every entry has at least one segment (bytes.Split never returns an
      empty list), as Add needs. */
  predicate HasPaths(es: seq<Entry>)
  {
    forall i :: 0 <= i < |es| ==> |es[i].0| >= 1
  }

  /** The records read from a body: all of them, or those before the one
      that runs past the end at offset `at`. */
  datatype Decoded = Complete(entries: seq<Entry>) | Truncated(entries: seq<Entry>, at: nat)

  /** `int(textLength * 2)` with `textLength` a uint16: the product wraps. */
  function TextByteCount(units: nat): (n: nat)
    requires units < 0x1_0000
    ensures n % 2 == 0 && n < 0x1_0000
    ensures units < 0x8000 ==> n == 2 * units
    ensures units >= 0x8000 ==> n == 2 * units - 0x1_0000
  {
    U16(units * 2)
  }

  /** The text of a run of code units: one character per unit, see
      Unicode.ScalarOfUnit. */
  function DecodeUnits(s: seq<Byte>): (t: string)
    requires |s| % 2 == 0
    ensures |t| == |s| / 2
    ensures forall j :: 0 <= j < |t| ==> t[j] == ScalarOfUnit(ReadLE16(s, 2 * j))
    decreases |s|
  {
    if s == [] then []
    else
      var rest := DecodeUnits(s[2..]);
      assert forall j :: 1 <= j < |s| / 2 ==> ReadLE16(s[2..], 2 * (j - 1)) == ReadLE16(s, 2 * j);
      [ScalarOfUnit(ReadLE16(s, 0))] + rest
  }

  /** The outcome of reading the record that starts at `i`: its tag bytes,
      the bytes of its text and the offset after it, or the offset of the
      first field (tag length, tag, unit count or units) that does not
      fit. */
  datatype Step = Record(tag: seq<Byte>, units: seq<Byte>, next: nat) | Short(at: nat)

  /** One record at offset `i`, or `Short` at the first field that does not
      fit in the body. */
  function ParseRecord(body: seq<Byte>, i: nat): (r: Step)
    requires i < |body|
    ensures r.Record? ==> r.next == i + 4 + |r.tag| + |r.units| <= |body| && |r.units| % 2 == 0
    ensures r.Short? ==> i <= r.at <= |body|
  {
    if i + 2 > |body| then Short(i)
    else
      var j := i + 2;
      var tagLength := ReadLE16(body, i);
      if j + tagLength > |body| then Short(j)
      else
        var k := j + tagLength;
        if k + 2 > |body| then Short(k)
        else
          var m := k + 2;
          var n := TextByteCount(ReadLE16(body, k));
          if m + n > |body| then Short(m)
          else Record(body[j..k], body[m..m + n], m + n)
  }

  /** The bytes of one record: the tag length, the tag, the unit count and
      the units. */
  function Layout(tag: seq<Byte>, count: nat, units: seq<Byte>): (r: seq<Byte>)
    requires |tag| < 0x1_0000 && count < 0x1_0000
    ensures |r| == 4 + |tag| + |units|
    ensures ReadLE16(r, 0) == |tag| && ReadLE16(r, 2 + |tag|) == count
    ensures r[2..2 + |tag|] == tag && r[4 + |tag|..] == units
  {
    var r := LE16(|tag|) + tag + LE16(count) + units;
    assert r[2 + |tag|] == LE16(count)[0] && r[3 + |tag|] == LE16(count)[1];
    r
  }

  /** The fields of a record in the middle of a body are read at their
      offsets. */
  lemma LayoutAt(pre: seq<Byte>, tag: seq<Byte>, count: nat, units: seq<Byte>, rest: seq<Byte>)
    requires |tag| < 0x1_0000 && count < 0x1_0000
    ensures var body := pre + Layout(tag, count, units) + rest;
      var j := |pre| + 2;
      var m := j + |tag| + 2;
      && |body| == m + |units| + |rest|
      && ReadLE16(body, |pre|) == |tag| && ReadLE16(body, j + |tag|) == count
      && body[j..j + |tag|] == tag && body[m..] == units + rest
  {
    var r := Layout(tag, count, units);
    var body := pre + r + rest;
    var j := |pre| + 2;
    var m := j + |tag| + 2;
    assert forall x :: 0 <= x < |r| ==> body[|pre| + x] == r[x];
    assert body[j..j + |tag|] == r[2..2 + |tag|];
    assert body[m..] == r[4 + |tag|..] + rest;
  }

  /** The record layout: a record in a body with anything before and after
      is read back as itself when its count is below 32768 (so that `L * 2`
      does not wrap). */
  lemma RecordLayout(pre: seq<Byte>, tag: seq<Byte>, units: seq<Byte>, rest: seq<Byte>)
    requires |tag| < 0x1_0000 && |units| % 2 == 0 && |units| < 0x1_0000
    ensures ParseRecord(pre + Layout(tag, |units| / 2, units) + rest, |pre|)
      == Record(tag, units, |pre| + 4 + |tag| + |units|)
  {
    LayoutAt(pre, tag, |units| / 2, units, rest);
    var m := |pre| + 4 + |tag|;
    assert (units + rest)[..|units|] == units;
  }

  /** The 16-bit product wraps: a unit count `L` of 32768 or more reads only
      `2L - 65536` bytes of text, and the next record is looked for right
      after them. A count of exactly 32768 gives an empty text. */
  lemma CountWraps(pre: seq<Byte>, tag: seq<Byte>, count: nat, rest: seq<Byte>)
    requires |tag| < 0x1_0000 && 0x8000 <= count < 0x1_0000 && 2 * count - 0x1_0000 <= |rest|
    ensures var n := 2 * count - 0x1_0000;
      ParseRecord(pre + Layout(tag, count, []) + rest, |pre|)
        == Record(tag, rest[..n], |pre| + 4 + |tag| + n)
  {
    LayoutAt(pre, tag, count, [], rest);
    assert [] + rest == rest;
  }

  /** Puts `es` in front of the entries of `d`. */
  function Prefixed(es: seq<Entry>, d: Decoded): (r: Decoded)
    ensures r.entries == es + d.entries && r.Complete? == d.Complete?
  {
    match d
    case Complete(rest) => Complete(es + rest)
    case Truncated(rest, at) => Truncated(es + rest, at)
  }

  /** Putting two lists in front, one after the other, is putting their
      concatenation in front. */
  lemma PrefixedAppend(a: seq<Entry>, b: seq<Entry>, d: Decoded)
    ensures Prefixed(a, Prefixed(b, d)) == Prefixed(a + b, d)
  {
    assert a + (b + d.entries) == (a + b) + d.entries;
  }

  /** The records from offset `i` to the end of the body, in file order. */
  function ParseFrom(body: seq<Byte>, i: nat): (r: Decoded)
    requires i <= |body|
    ensures HasPaths(r.entries)
    ensures r.Truncated? ==> i <= r.at <= |body|
    decreases |body| - i
  {
    if i == |body| then Complete([])
    else
      match ParseRecord(body, i)
      case Short(at) => Truncated([], at)
      case Record(tag, units, next) =>
        Prefixed([(Split(tag, Slash), DecodeUnits(units))], ParseFrom(body, next))
  }

  /** `done` are the records before offset `i`: the records of the whole
      body are `done` followed by those from `i` on. */
  ghost predicate ReadUpTo(body: seq<Byte>, i: nat, done: seq<Entry>)
    requires i <= |body|
  {
    ParseFrom(body, 0) == Prefixed(done, ParseFrom(body, i))
  }

  /** Nothing has been read before offset 0. */
  lemma ReadNothing(body: seq<Byte>)
    ensures ReadUpTo(body, 0, [])
  {
    assert [] + ParseFrom(body, 0).entries == ParseFrom(body, 0).entries;
  }

  /** Reading one more complete record moves it from the rest of the body
      to the records read so far. */
  lemma ReadStep(body: seq<Byte>, i: nat, done: seq<Entry>)
    requires i < |body| && ParseRecord(body, i).Record?
    requires ReadUpTo(body, i, done) && HasPaths(done)
    ensures var s := ParseRecord(body, i);
      var e := (Split(s.tag, Slash), DecodeUnits(s.units));
      && ReadUpTo(body, s.next, done + [e])
      && HasPaths(done + [e])
      && AddAll(NewTree([]), done + [e]) == TreeAdd(AddAll(NewTree([]), done), e.0, e.1)
  {
    var s := ParseRecord(body, i);
    var e := (Split(s.tag, Slash), DecodeUnits(s.units));
    PrefixedAppend(done, [e], ParseFrom(body, s.next));
    AddAllAppend(NewTree([]), done, [e]);
  }

  /** A record that does not fit ends the reading there. */
  lemma ReadShort(body: seq<Byte>, i: nat, done: seq<Entry>)
    requires i < |body| && ParseRecord(body, i).Short? && ReadUpTo(body, i, done)
    ensures ParseFrom(body, 0) == Truncated(done, ParseRecord(body, i).at)
  {
    assert done + [] == done;
  }

  /** At the end of the body everything has been read. */
  lemma ReadAll(body: seq<Byte>, done: seq<Entry>)
    requires ReadUpTo(body, |body|, done)
    ensures ParseFrom(body, 0) == Complete(done)
  {
    assert done + [] == done;
  }

  /** What converting one `.lang` file gives: nothing for a file of 8 bytes
      or fewer, a failure at a byte offset of the file, or the JSON text. */
  datatype Outcome = Skipped | Failed(at: nat) | Converted(json: seq<Byte>)

  /** The conversion of a file's content, as functions. */
  ghost function LangToJson(content: seq<Byte>): (r: Outcome)
    ensures r == Skipped <==> |content| <= 8
    ensures r.Failed? ==> 8 <= r.at <= |content|
  {
    if |content| <= 8 then Skipped
    else
      match ParseFrom(content[8..], 0)
      case Truncated(_, at) => Failed(8 + at)
      case Complete(es) => Converted(Render(AddAll(NewTree([]), es)))
  }

  /** No file converts to the rendering of an empty root, `""`: a body of
      at least one byte either breaks off in its first record or adds that
      record, and a root with a child renders as an object. */
  lemma NeverEmptyString(content: seq<Byte>)
    ensures LangToJson(content) != Converted([Quote, Quote])
  {
    if |content| > 8 {
      var body := content[8..];
      var d := ParseFrom(body, 0);
      if d.Complete? {
        assert ParseRecord(body, 0).Record?;
        assert d.entries != [];
        AddAllHasChild(NewTree([]), d.entries);
        BranchRendersObject(AddAll(NewTree([]), d.entries));
      }
    }
  }

  /** The eight header bytes are skipped unread: files that differ only
      there convert alike. */
  lemma HeaderIgnored(h1: seq<Byte>, h2: seq<Byte>, body: seq<Byte>)
    requires |h1| == 8 && |h2| == 8
    ensures LangToJson(h1 + body) == LangToJson(h2 + body)
  {
    assert (h1 + body)[8..] == body == (h2 + body)[8..];
  }

  /** The loop of ConvertLangToJSON: makes the root node, reads the records
      of `body` one after the other and adds each to it. Returns what was
      read, the root and the `elements` counter. On a record that runs past
      the end of `body` it stops with `Truncated`, the records before it
      having been added. The program instead panics when the overrun goes
      beyond the capacity of its buffer, and reads zeros and still converts
      the file when it stays within it. */
  method DecodeBody(body: seq<Byte>) returns (r: Decoded, data: Node, elements: nat)
    ensures r == ParseFrom(body, 0)
    ensures data.Valid() && fresh(data.repr)
    ensures data.model == AddAll(NewTree([]), r.entries)
    ensures elements == |r.entries|
  {
    data := new Node([]);
    var done: seq<Entry> := [];
    var i := 0;
    elements := 0;
    ReadNothing(body);
    while i < |body|
      invariant i <= |body|
      invariant data.Valid() && fresh(data.repr)
      invariant HasPaths(done) && data.model == AddAll(NewTree([]), done)
      invariant elements == |done|
      invariant ReadUpTo(body, i, done)
      decreases |body| - i
    {
      var step := ParseRecord(body, i);
      if step.Short? {
        ReadShort(body, i, done);
        return Truncated(done, step.at), data, elements;
      }
      ReadStep(body, i, done);
      AddRecord(data, step.tag, step.units);
      elements := elements + 1;
      done := done + [(Split(step.tag, Slash), DecodeUnits(step.units))];
      i := step.next;
    }
    ReadAll(body, done);
    r := Complete(done);
  }

  /** The rest of one turn of the loop: the tag split at each `/`, the
      text decoded, and the pair added below `data`. */
  method AddRecord(data: Node, tag: seq<Byte>, units: seq<Byte>)
    requires data.Valid() && |units| % 2 == 0
    modifies data.repr
    ensures data.Valid() && fresh(data.repr - old(data.repr))
    ensures data.model == TreeAdd(old(data.model), Split(tag, Slash), DecodeUnits(units))
  {
    var tags := Split(tag, Slash);
    var text := DecodeText(units);
    data.Add(tags, text);
  }

  /** The inner loop: one character per 16-bit unit, appended in order. */
  method DecodeText(splittext: seq<Byte>) returns (text: string)
    requires |splittext| % 2 == 0
    ensures text == DecodeUnits(splittext)
  {
    text := "";
    var c := 0;
    while c < |splittext|
      invariant c <= |splittext| && c % 2 == 0 && |text| == c / 2
      invariant forall j :: 0 <= j < |text| ==> text[j] == ScalarOfUnit(ReadLE16(splittext, 2 * j))
      decreases |splittext| - c
    {
      var val := ReadLE16(splittext, c);
      text := text + [ScalarOfUnit(val)];
      c := c + 2;
    }
  }

  /** ConvertLangToJSON for one file's content: a file of more than 8 bytes
      has its header skipped, its records added to a fresh root with an
      empty tag and, when none is truncated, the root's JSON is the file to
      write. */
  method ConvertLangToJson(content: seq<Byte>) returns (r: Outcome)
    ensures r == LangToJson(content)
  {
    if |content| <= 8 {
      return Skipped;
    }
    var body := content[8..];
    var d, data, elements := DecodeBody(body);
    if d.Truncated? {
      return Failed(8 + d.at);
    }
    var json := data.ToJSON();
    return Converted(json);
  }
}
