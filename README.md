# frostlang in Dafny

frostlang converts between `.lang` string tables and JSON. A `.lang` file
is an 8-byte header followed by records. Each record holds a 16-bit tag
length, the tag, a 16-bit character count and that many 16-bit code
units. The tag is a path whose segments are separated by `/`.

- `ConvertLangToJSON` reads the records of a file into a tree of `Node`s
  (one child per path segment, the text on the last node). It then writes
  the tree's `ToJSON` text, a nested JSON object with sorted keys.
- `ConvertJSONToLang` goes the other way. It walks the object with
  `jsonToLang`, writes one record per string leaf, and puts the header in
  front.

The model has one module per part of the program:

- `Bytes`: little-endian 16- and 32-bit fields, the explicit 16-/32-bit
  wrap of Go's integer conversions, and `bytes.Split` / `strings.Join`.
- `Unicode`: Go's `string(uint16)` (a lone surrogate becomes U+FFFD) and
  UTF-8.
- `JsonString`: JSON string literals as encoding/json writes them
  (section 7 of RFC 8259), with and without HTML escaping, and their
  reading back.
- `TagTree`: the node tree as a value. It gives `Add` and `ToJSON` as
  functions, with the properties they have.
- `Nodes`: the `Node` struct as a class updated in place. Each node owns
  its children. `Valid()` keeps the class equal to its `TagTree` value.
- `Decode`: the read loop of `ConvertLangToJSON`, as a method, and the
  function that specifies it.
- `Encode`: `jsonToLang` and the header of `ConvertJSONToLang`.
- `RoundTrip`: what a written file reads back as.
- `Scenario`: the repository's test, from its input bytes to its expected
  text.

Go ranges over a map in an unspecified order. The model picks each key
with `:|`, so every proof holds for every order.

Three behaviours of the program that the model keeps as they are:

- A tree without children renders as the JSON string of its text, so an
  empty root would render as `""`, not as an empty object (see
  `TagTree.EmptyRendersEmptyString`). No file reaches that case: a body
  of at least one byte either breaks off in its first record or adds it,
  and a root with a child renders as an object (`Decode.NeverEmptyString`).
- The header is not checked at all.
- The text byte count `textLength*2` is computed in 16 bits, so it wraps
  when a record declares 32768 characters or more (see
  `Decode.CountWraps`). A text of 32768 to 65535 runes therefore does not
  survive a round trip (`RoundTrip.LongTextTruncated`).

## Model

| member | source | states |
|---|---|---|
| Bytes.U16 | frostlang.go:147 | Go's `uint16(n)`: the result is below 2^16 and equals `n` when `n` fits |
| Bytes.U32 | frostlang.go:126-128 | Go's `uint32(n)`: the result is below 2^32 and equals `n` when `n` fits |
| Bytes.ReadLE16 | frostlang.go:54 | `binary.LittleEndian.Uint16` of two bytes gives a value below 2^16 |
| Bytes.ReadLE32 | frostlang.go:126 | the 32-bit little-endian reading of four bytes gives a value below 2^32 |
| Bytes.LE16 | frostlang.go:146-147 | `PutUint16` writes two bytes that read back as the value |
| Bytes.LE32 | frostlang.go:125-126 | `PutUint32` writes four bytes that read back as the value |
| Bytes.Join | frostlang.go:145 | `strings.Join` of a single part is that part |
| Bytes.Split | frostlang.go:58 | `bytes.Split` gives one more part than there are separators, no part holds the separator, and joining the parts gives back the input |
| Bytes.JoinConsFirst | frostlang.go:145 | a byte put at the front of the first part is at the front of the joined text |
| Bytes.SplitAfterSegment | frostlang.go:58 | a segment without separator followed by a separator splits off as the first part |
| Bytes.SplitSegment | frostlang.go:58 | a segment without separator splits as itself alone |
| Bytes.SplitJoin | frostlang.go:58 | splitting the join of separator-free parts gives the parts back |
| Bytes.Associative | frostlang.go:251 | concatenation regroups; a helper for the member texts |
| Bytes.MultisetRemove | frostlang.go:171 | removing one element from both sides of equal multisets keeps them equal; a helper for the order-independence proofs |
| Unicode.ScalarOfUnit | frostlang.go:69 | `string(val)`: a surrogate unit becomes U+FFFD, every other unit the character of that value |
| Unicode.EncodeScalar | frostlang.go:145 | a character's UTF-8 encoding has 1 to 4 bytes, ASCII is its own byte and every byte of a longer encoding is at least 0x80 |
| Unicode.Utf8 | frostlang.go:145 | a string's UTF-8 bytes are at least as many as its characters |
| Unicode.Utf8Append | frostlang.go:145 | UTF-8 of a concatenation is the concatenation of the encodings |
| Unicode.Utf8NoSlash | frostlang.go:145 | a string without `/` has no byte 0x2F in its UTF-8 |
| Unicode.Utf8Each | frostlang.go:172 | the keys of a path, each with its own UTF-8 bytes |
| Unicode.Utf8Join | frostlang.go:145 | UTF-8 of the keys joined by `/` is their encodings joined by byte 0x2F |
| Unicode.AsciiIsUtf8 | frostlang.go:145 | an ASCII string is its own UTF-8, one byte per character |
| JsonString.Hex | frostlang.go:250 | a `\u00XX` digit reads back as its value |
| JsonString.HexValue | frostlang.go:250 | a hex digit's value is below 16 |
| JsonString.EscapeByte | frostlang.go:229-237 | the escape of a byte is printable (no byte below 0x20); in HTML mode it contains no `<`, `>` or `&`, and those three start with a backslash |
| JsonString.Escape | frostlang.go:229-237 | the body of a JSON string literal: each byte escaped in turn, U+2028 and U+2029 as `\u2028` and `\u2029` (definition) |
| JsonString.QuoteString | frostlang.go:250 | the JSON string literal of a byte string: `"`, the escaped body, `"` (definition) |
| JsonString.Unescape | frostlang.go:250 | the reader of an escaped body: undoes each escape, or fails on a malformed one (definition, the partner of Escape) |
| JsonString.QuoteStringReadsBack | frostlang.go:250 | a JSON literal starts and ends with `"` and its body unescapes to exactly the input bytes |
| JsonString.UnescapeByte | frostlang.go:229-237 | each byte's escape reads back as that byte, whatever follows |
| JsonString.UnescapeLineSeparator | frostlang.go:229-237 | the `\u2028` or `\u2029` escape of a line separator reads back as its three UTF-8 bytes |
| JsonString.EscapeRoundTrip | frostlang.go:250 | the escaped body of any byte string unescapes to that string |
| JsonString.EscapeIsPrintable | frostlang.go:229-237 | an escaped body has no byte below 0x20, and in HTML mode no `<`, `>` or `&` |
| JsonString.EscapeHtmlOnlyAffectsHtmlBytes | frostlang.go:231 | `SetEscapeHTML(false)` changes nothing for a text without `<`, `>`, `&` |
| JsonString.EscapePlain | frostlang.go:250 | printable ASCII other than `"`, `\` (and the HTML bytes in HTML mode) is written unescaped |
| TagTree.ChildOrNew | frostlang.go:208-212 | a missing child is created empty, with no children, a count of 0 and one level deeper |
| TagTree.NewTree | frostlang.go:199-201 | NewNode: the given tag, no text, no children, count 0, depth 0 (definition) |
| TagTree.TreeAdd | frostlang.go:204-223 | Add on the value: walk the path creating each missing child one level deeper, set the last node's text, and count one more element on every node left on the way (definition) |
| TagTree.AddAll | frostlang.go:53-75 | the Adds of the read loop: each entry added in order, from the first (definition) |
| TagTree.WithChild | frostlang.go:208-212 | after the existence check the child is present, and the keys grow by that key alone |
| TagTree.AddBelowChild | frostlang.go:214-222 | the part of Add after the existence check: only the child under the key changes (its text is set, or the walk goes on below it), the other children, the tag, the text and the depth are kept, and `Elements` grows by one |
| TagTree.TreeAddSteps | frostlang.go:204-223 | Add makes sure the first child exists, then works below it |
| TagTree.AddSetsText | frostlang.go:214-220 | after Add(p, x) the node at `p` exists and has text `x`; its children and count are those it had |
| TagTree.AddAlongPath | frostlang.go:207-222 | each node Add passes on its way gains the next key as a child and one element; its tag, text and depth stay |
| TagTree.AddLeavesOthers | frostlang.go:204-223 | Add leaves every node that is not on its path exactly as it was |
| TagTree.AddWellFormed | frostlang.go:193 | Add keeps every child's tag equal to its key and its depth one more than its parent's |
| TagTree.AddAllWellFormed | frostlang.go:53-75 | the tree the read loop builds from a well-formed root (such as a new one) is well formed |
| TagTree.AddAllHasChild | frostlang.go:53-75 | adding at least one entry leaves the root with a child |
| TagTree.ReachDepth | frostlang.go:193 | in a well-formed tree the node at path `q` lies as many levels below the root as `q` has keys, and has the last key as its tag |
| TagTree.ReachFound | frostlang.go:215 | where a path exists, the node Add walks to is the node found there |
| TagTree.SameShapeReflexive | frostlang.go:183-189 | every tree has its own shape |
| TagTree.LastWriteWins | frostlang.go:219 | adding `a` and then `b` at the same path leaves text `b` there, with the same shape as adding `b` alone (only the counts differ) |
| TagTree.AddKeepsRootText | frostlang.go:204-223 | Add does not look at or change the text of the node it starts from |
| TagTree.AddCommutesApart | frostlang.go:204-223 | two Adds whose paths start with different keys give the same tree in either order |
| TagTree.AddCommutesBelow | frostlang.go:204-223 | two Adds at different paths through the same first child give the same tree in either order |
| TagTree.AddCommutes | frostlang.go:204-223 | two Adds at different paths give the same tree, counts included, in either order |
| TagTree.AddAllAppend | frostlang.go:53-75 | adding two lists of records is adding the first, then the second |
| TagTree.AddPastAll | frostlang.go:53-75 | a record whose path no later record uses can be added last instead |
| TagTree.DistinctWithout | frostlang.go:53-75 | removing a record keeps the paths distinct; a helper for AddAllPermutation |
| TagTree.TakeFirst | frostlang.go:53-75 | the first record of one ordering sits somewhere in another, and the rests are again orderings of each other; a helper for AddAllPermutation |
| TagTree.AddAllPermutation | frostlang.go:53-75 | records whose paths are all distinct give the same tree in any order |
| TagTree.Less | frostlang.go:247 | Go's string order that `sort.Strings` sorts the keys by: at the first differing byte the smaller byte comes first, and a proper prefix comes before the longer key |
| TagTree.LessIrreflexive | frostlang.go:247 | the byte order of `sort.Strings` is irreflexive |
| TagTree.LessTransitive | frostlang.go:247 | the byte order of `sort.Strings` is transitive |
| TagTree.LessTotal | frostlang.go:247 | of two different keys exactly one is smaller |
| TagTree.LeastExists | frostlang.go:247 | a non-empty set of keys has a smallest key |
| TagTree.SortedKeys | frostlang.go:243-247 | the children's keys in strictly increasing byte order, each exactly once |
| TagTree.FirstIsLeast | frostlang.go:247 | the first of a sorted list is the smallest key |
| TagTree.LeastUnique | frostlang.go:247 | a set has only one smallest key |
| TagTree.SortedKeysHead | frostlang.go:247 | the sorted keys are the least key, then the sorted rest |
| TagTree.TailOfSorted | frostlang.go:247 | the tail of a sorted list is the sorted list of the other keys |
| TagTree.SortedKeysUnique | frostlang.go:243-247 | any strictly sorted list of a set's keys is the sorted key list, whatever order the map was ranged in |
| TagTree.Indent | frostlang.go:251 | `strings.Repeat("  ", d)` is `2d` spaces |
| TagTree.Render | frostlang.go:226-259 | ToJSON on the value: a node without children is the JSON literal of its text without HTML escaping; any other node is `{`, its members in sorted key order, a newline, its indentation and `}` (definition) |
| TagTree.Members | frostlang.go:248-255 | the first `i` members of an object, in key order (definition) |
| TagTree.Member | frostlang.go:249-254 | the member for one child, with a comma unless it is the last (definition) |
| TagTree.MemberText | frostlang.go:251-254 | a newline, the child's indentation, its tag quoted with HTML escaping, `:`, its JSON, and a comma when more follow (definition) |
| TagTree.BranchRendersObject | frostlang.go:241-258 | a node with children renders as an object: `{` first, `}` last |
| TagTree.LeafRendersText | frostlang.go:228-238 | a node without children renders as a JSON literal, the encoder's newline cut, that reads back as its text's UTF-8 |
| TagTree.MembersOnlyChildren | frostlang.go:248-255 | the members of an object depend on the children alone |
| TagTree.BranchTextDropped | frostlang.go:240-258 | the text of a node that has children is not rendered |
| TagTree.EmptyRendersEmptyString | frostlang.go:228-238 | a node with neither children nor text renders as `""` |
| TagTree.MemberOfWellFormed | frostlang.go:249-254 | in a well-formed tree a member is a newline, one level more of indentation, the key quoted with HTML escaping, `:` and the child's JSON, then a comma if more follow |
| TagTree.RenderSameShape | frostlang.go:226-259 | the rendering ignores the `Elements` counts |
| TagTree.MembersSameShape | frostlang.go:248-255 | the members ignore the `Elements` counts |
| TagTree.LastWriteWinsRendered | frostlang.go:219 | writing a path twice renders as writing it once with the second text |
| Nodes.Node.constructor | frostlang.go:199-201 | NewNode: a valid root with no text, no children, a count of 0 and depth 0 |
| Nodes.Node.Child | frostlang.go:193 | a valid node with no text, no children and a count of 0, at the given depth |
| Nodes.Node.AppendChild | frostlang.go:192-196 | stores a new empty child one level deeper under the key; the tag, text, depth, count and other children are unchanged |
| Nodes.Node.ChildrenApartFrom | frostlang.go:186 | each child is valid, matches its value, and is disjoint from its siblings and from a node new to the tree |
| Nodes.Node.Adopt | frostlang.go:194 | stores `c` under the key; the value gains that child and nothing else changes |
| Nodes.Node.Add | frostlang.go:204-223 | the node's new value is `TreeAdd` of its old value, so every TagTree property of Add holds for it |
| Nodes.Node.AddBelow | frostlang.go:214-222 | the part of Add below an existing child: recursion, or the text set, and the count incremented |
| Nodes.Node.ChildChanged | frostlang.go:217 | after the child changes in place, its siblings are still valid, unchanged and disjoint from it |
| Nodes.Node.Absorb | frostlang.go:222 | takes the child's new value and adds one to the count |
| Nodes.Node.Assemble | frostlang.go:183-189 | the node is valid again once its parts are |
| Nodes.Node.SetText | frostlang.go:219 | `child.Text = stext` sets the text and nothing else |
| Nodes.Node.ChildIsValid | frostlang.go:249 | a child is valid, below its parent, and carries the value the parent records for it |
| Nodes.Node.ToJSON | frostlang.go:226-259 | the produced text is `Render` of the node's value |
| Nodes.Node.MembersJSON | frostlang.go:241-255 | `{` followed by the members for the keys in order |
| Nodes.Node.MemberJSON | frostlang.go:249-254 | one member: newline, the child's indentation, its tag quoted, `:`, its JSON, and a comma if more follow |
| Nodes.SortedChildKeys | frostlang.go:243-247 | collecting and sorting the keys gives the sorted key list |
| Nodes.StillValid | frostlang.go:183-189 | a node none of whose objects changed keeps its validity and value |
| Nodes.AppendMember | frostlang.go:251-254 | one turn of the member loop appends the next member |
| Nodes.CollectKeys | frostlang.go:243-246 | every key of the map once, in whatever order the map yields |
| Nodes.SortStrings | frostlang.go:247 | the same keys, in strictly increasing byte order |
| Decode.TextByteCount | frostlang.go:62-63 | `int(textLength*2)` is even and below 2^16: twice the count below 32768, twice the count minus 65536 from there |
| Decode.DecodeUnits | frostlang.go:66-70 | one character per 16-bit unit, in order, each being `string(val)` of the unit |
| Decode.ParseRecord | frostlang.go:54-63 | a record ends after 4 bytes, its tag and an even number of text bytes, within the body; otherwise a truncation offset within the body is reported |
| Decode.Layout | frostlang.go:46-50 | the record format: the tag length field, the tag, the count field, the units |
| Decode.LayoutAt | frostlang.go:54-62 | the fields of a record laid out anywhere in a body read as its tag length, tag, count and units |
| Decode.RecordLayout | frostlang.go:54-63 | a well-formed record anywhere in a body reads back exactly, and reading resumes right after it |
| Decode.CountWraps | frostlang.go:62-63 | a record declaring 32768 or more characters reads only `2*count - 65536` text bytes, because the product wraps |
| Decode.Prefixed | frostlang.go:53-75 | the records before a point come first in what is read, and success or truncation is kept |
| Decode.PrefixedAppend | frostlang.go:53-75 | prefixing twice is prefixing with the concatenation |
| Decode.ParseFrom | frostlang.go:53-75 | every record read has at least one segment, and a truncation lies within the body |
| Decode.ReadNothing | frostlang.go:51-52 | before the loop nothing has been read |
| Decode.ReadStep | frostlang.go:53-74 | a complete record extends what was read by its entry, and the tree by one Add of it |
| Decode.ReadShort | frostlang.go:54-62 | a record running past the end truncates the read there, after the records before it |
| Decode.ReadAll | frostlang.go:53 | a body consumed exactly is read completely |
| Decode.LangToJson | frostlang.go:38-80 | a file is skipped if and only if it has 8 bytes or fewer; a failure lies within the file |
| Decode.NeverEmptyString | frostlang.go:38-80 | no file converts to `""`, the rendering of an empty root |
| Decode.HeaderIgnored | frostlang.go:38-40 | files that differ only in their first 8 bytes convert identically |
| Decode.DecodeBody | frostlang.go:44-75 | the loop reads exactly `ParseFrom(body, 0)`; the root is valid and its value is the tree of every record read, added in order; `elements` counts the records |
| Decode.AddRecord | frostlang.go:58-73 | the tag is split at `/`, the units decoded, and the pair added to the tree |
| Decode.DecodeText | frostlang.go:66-70 | the inner loop produces `DecodeUnits` of the text bytes |
| Decode.ConvertLangToJson | frostlang.go:38-80 | the conversion of one file's content is `LangToJson` of it |
| Encode.Units | frostlang.go:155-162 | two bytes per rune, each pair holding the rune's low 16 bits |
| Encode.TagBytes | frostlang.go:145 | a leaf's tag: the UTF-8 bytes of its keys joined by `/` (definition) |
| Encode.UnitsSnoc | frostlang.go:160 | appending a rune appends its two bytes |
| Encode.EncodeRecord | frostlang.go:144-169 | one record has 4 bytes of fields, the tag bytes and two bytes per rune |
| Encode.EncodeAll | frostlang.go:170-176 | a non-empty list of leaves gives at least 4 bytes |
| Encode.EncodeAllAppend | frostlang.go:171-175 | the records of a concatenation are the concatenated records |
| Encode.Leaves | frostlang.go:141-179 | the string leaves below a value, with their paths, as a multiset: one for a string, those of every member for an object, none otherwise (definition) |
| Encode.LeavesOf | frostlang.go:170-176 | the leaves below a set of members of an object (definition) |
| Encode.LeavesOfAny | frostlang.go:171 | the leaves of an object are the same whichever member is ranged first |
| Encode.EncodeRunes | frostlang.go:152-162 | the rune loop counts the runes and writes the units of the text |
| Encode.JsonToLang | frostlang.go:141-179 | the bytes are the records of an ordering of exactly the string leaves below the value, and the count is the number of those leaves, whatever the order |
| Encode.EncodeLeaf | frostlang.go:145-169 | a string writes the record of its path and text |
| Encode.EncodeMembers | frostlang.go:170-176 | an object writes the records of all its members' leaves, in some order of its members, and its count is the number of those leaves |
| Encode.EncodeAllLength | frostlang.go:170-176 | the body length depends only on which leaves are written, not on their order |
| Encode.Header | frostlang.go:125-128 | 8 bytes: the body length plus 4, then the entry count, each as a wrapped little-endian uint32 |
| Encode.ConvertJsonToLang | frostlang.go:116-132 | the file is the header for the records, then the records of the object's leaves; bytes 4-7 hold the (wrapped) number of string leaves |
| Encode.ConvertOrderFree | frostlang.go:116-132 | two range orders give the same leaves, the same count, the same body length and the same header |
| RoundTrip.DecodedLeaf | frostlang.go:58 | a leaf as read back keeps one segment per key |
| RoundTrip.DecodedLeaves | frostlang.go:53-75 | the leaves as read back, one entry per leaf, in order |
| RoundTrip.DecodeUnitsOfUnits | frostlang.go:66-70 | the units of runes from the Basic Multilingual Plane decode back to the runes |
| RoundTrip.SplitTag | frostlang.go:58 | a tag made of keys without `/` splits back into the keys' bytes |
| RoundTrip.ParseEncodedRecord | frostlang.go:54-63 | a written record that fits the format reads back with its tag bytes and units |
| RoundTrip.EncodedRecordAt | frostlang.go:54-63 | the same, found at any offset of a body |
| RoundTrip.EncodedStep | frostlang.go:53-75 | reading at a written record gives its leaf, then what follows |
| RoundTrip.ParseEncodedAt | frostlang.go:53-75 | written records read back as their leaves, in order, with nothing left over |
| RoundTrip.ParseEncoded | frostlang.go:53-75 | the written body after any prefix reads back as the leaves |
| RoundTrip.FileRoundTrip | frostlang.go:38-75 | a written file converts back to the JSON of the tree of its leaves; a file without leaves (a bare header) is skipped |
| RoundTrip.JsonRoundTrip | frostlang.go:116-132 | JSON to `.lang` to JSON: if every leaf fits the format, the file reads back as its leaves in the order they were written |
| RoundTrip.RuneTruncated | frostlang.go:159 | no rune outside the Basic Multilingual Plane comes back: its low 16 bits decode to another rune or to U+FFFD |
| RoundTrip.LongTextTruncated | frostlang.go:60-63 | a text of 32768 to 65535 runes does not come back: the record written for it reads back with only `2L - 65536` text bytes, because the doubled count wraps in 16 bits |
| Scenario.Layouts | frostlang_test.go:13 | the test's two records have the record format |
| Scenario.Texts | frostlang_test.go:13 | their units read as `text` and `test` |
| Scenario.Splits | frostlang_test.go:13 | their tags split into `tag` and `sub1`, and `tag` and `sub2` |
| Scenario.RecordsAt | frostlang_test.go:13 | the records are read at offsets 0 and 20 of the body, ending at 20 and 40 |
| Scenario.SecondRecord | frostlang_test.go:13 | reading from the second record gives its entry alone |
| Scenario.BothRecords | frostlang_test.go:13 | the body reads as both records, in file order |
| Scenario.TestRecords | frostlang_test.go:13 | the bytes after the header are the two records, read completely |
| Scenario.FirstAdd | frostlang_test.go:13 | the tree after the first record |
| Scenario.SecondAdd | frostlang_test.go:13 | the tree after the second record |
| Scenario.TestBuild | frostlang_test.go:13 | adding both records to a new root gives the expected tree |
| Scenario.KeysApart | frostlang_test.go:16-17 | `sub1` sorts before `sub2` |
| Scenario.KeyOrder | frostlang_test.go:14-18 | the sorted keys are `tag`, and `sub1` then `sub2` |
| Scenario.OneMember | frostlang.go:241-258 | a node with one child renders as an object with one member |
| Scenario.TwoMembers | frostlang.go:241-258 | a node with two children renders as an object with two members, the smaller key first and followed by a comma |
| Scenario.LeafJson | frostlang.go:228-238 | the leaves `text` and `test` render as their quoted text |
| Scenario.MemberLine | frostlang.go:251 | a member's text is a newline, then its line |
| Scenario.Regroup | frostlang_test.go:14-19 | the rendering's pieces regroup into the expected lines; a helper for TestRender |
| Scenario.TagPiece | frostlang_test.go:15 | the second line is the tag member up to its value |
| Scenario.Sub1Piece | frostlang_test.go:16 | the member `sub1` is the third line |
| Scenario.Sub2Piece | frostlang_test.go:17 | the member `sub2` is the fourth line |
| Scenario.TagNodeRender | frostlang_test.go:15-18 | the node `tag` renders as an object holding the third and fourth lines |
| Scenario.TestRender | frostlang_test.go:14-19 | the expected tree renders as the test's expected text |
| Scenario.TestConvertLangToJson | frostlang_test.go:13-19 | converting the test's input gives exactly the test's expected text |

## Left out

- File-system work is left out: walking the directory, the extension
  filters, the overwrite check, reading and writing files, `os.Create`,
  `checkError` and its panics. The model works on one file's content.
- `json.Unmarshal` is left out. The model starts from the value it
  produces: strings, objects, and anything else, which `jsonToLang` skips.
  A JSON file that does not parse is not modelled.
- Decode.ParseRecord: a record that runs past the end of the file is the
  failure `Truncated`, and nothing is converted. In Go, slicing is checked
  against the capacity of the slice `ioutil.ReadFile` returned, not its
  length. An overrun beyond the capacity panics. An overrun that stays
  within the spare capacity does not: the missing bytes are read as
  zeros (U+0000 characters, shorter or wrong tags), the loop ends because
  `i` has passed the length, and a `.json` is written. The model reports
  `Truncated` in both cases, because the capacity is not known.
- Nodes.Node.AppendChild: the `Node` copy that the Go function returns is
  never used by its caller, so the model returns nothing.
- JsonString.EscapeByte models the Go releases that write `\u0008` and
  `\u000c`. Newer releases write `\b` and `\f` instead.
- JsonString.EscapeByte leaves out encoding/json's replacement of bytes
  that are not valid UTF-8 by `\ufffd`. Texts are sequences of scalars, so
  their bytes are always valid UTF-8 and nothing is lost there.
- TagTree.Key: tags are raw file bytes (frostlang.go:56-58). A tag segment
  that is not valid UTF-8 is written with `\ufffd` by the program, while
  the model writes its bytes as they are, so for such a tag the model's
  output differs from the program's and is not valid UTF-8.
- Encode.EncodeRunes steps over characters (scalars) rather than over
  UTF-8 bytes. A Go string from `json.Unmarshal` is valid UTF-8, so the
  two loops see the same runes.
- Decode.DecodeBody reads each record through the function ParseRecord,
  which gives the offsets of the fields, instead of updating `i` field by
  field.
- Helper methods: `Adopt`, `Absorb`, `AddBelow`, `AddRecord`, `EncodeLeaf`,
  `EncodeMembers`, `MembersJSON` and `MemberJSON` split single Go
  functions into steps. They add no behaviour.
- Order independence is proved on both sides:
  - for the decoder, records with distinct paths build the same tree in
    any order (TagTree.AddAllPermutation);
  - for the encoder, the written leaves, their count, the body length and
    the header do not depend on the map order (Encode.ConvertOrderFree).
  
  Not proved: that a whole JSON to `.lang` to JSON round trip gives the
  same text for every map order. That would need UTF-8 to be injective on
  keys. It is also false when keys contain `/`: such leaves can collide on
  one path, and then the last one written wins.
- Concurrency, timing and error values are not part of the core and are
  left out.
