/** JSON string literals as Go's encoding/json writes them (section 7 of
    RFC 8259), over the UTF-8 bytes of the string. With the HTML flag the
    bytes `<`, `>` and `&` are also escaped, as json.Marshal does; without
    it they are written literally, as an Encoder after SetEscapeHTML(false)
    does. `Unescape` reads such a literal's body back. */
module JsonString {
  import opened Bytes
  import opened Unicode

  const Quote: Byte := 0x22
  const Backslash: Byte := 0x5C

  /** Lower-case hexadecimal digit, as encoding/json writes them. */
  function Hex(d: nat): (r: Byte)
    requires d < 16
    ensures IsHex(r) && HexValue(r) == d
  {
    if d < 10 then 0x30 + d else 0x61 + d - 10
  }

  predicate IsHex(b: Byte)
  {
    (0x30 <= b <= 0x39) || (0x61 <= b <= 0x66) || (0x41 <= b <= 0x46)
  }

  function HexValue(b: Byte): (d: nat)
    requires IsHex(b)
    ensures d < 16
  {
    if b <= 0x39 then b - 0x30 else if b <= 0x46 then b - 0x41 + 10 else b - 0x61 + 10
  }

  /** The bytes where the string has U+2028 or U+2029 (E2 80 A8 / E2 80 A9),
      which encoding/json always escapes. */
  predicate AtLineSeparator(s: seq<Byte>)
  {
    |s| >= 3 && s[0] == 0xE2 && s[1] == 0x80 && (s[2] == 0xA8 || s[2] == 0xA9)
  }

  /** The escape of one byte: `"` and `\` get a backslash; newline, carriage
      return and tab get their short forms; every other byte below 0x20, and
      with `html` the bytes `<`, `>`, `&`, become `\u00XX`; anything else,
      including 0x7F and every byte of a multi-byte sequence, is itself. */
  function EscapeByte(b: Byte, html: bool): (r: seq<Byte>)
    ensures |r| >= 1
    ensures forall i :: 0 <= i < |r| ==> r[i] >= 0x20
    ensures html && (b == 0x3C || b == 0x3E || b == 0x26) ==> r[0] == Backslash
    ensures html ==> forall i :: 0 <= i < |r| ==> r[i] != 0x3C && r[i] != 0x3E && r[i] != 0x26
  {
    if b == Quote || b == Backslash then [Backslash, b]
    else if b == 0x0A then [Backslash, 0x6E]
    else if b == 0x0D then [Backslash, 0x72]
    else if b == 0x09 then [Backslash, 0x74]
    else if b < 0x20 || (html && (b == 0x3C || b == 0x3E || b == 0x26)) then
      [Backslash, 0x75, 0x30, 0x30, Hex(b / 16), Hex(b % 16)]
    else [b]
  }

  /** The body of the JSON literal for the bytes `s` (without the quotes). */
  function Escape(s: seq<Byte>, html: bool): (r: seq<Byte>)
    decreases |s|
  {
    if s == [] then []
    else if AtLineSeparator(s) then
      [Backslash, 0x75, 0x32, 0x30, 0x32, Hex(s[2] % 16)] + Escape(s[3..], html)
    else EscapeByte(s[0], html) + Escape(s[1..], html)
  }

  /** The complete JSON string literal: `"`, the escaped body, `"`. */
  function QuoteString(s: seq<Byte>, html: bool): (r: seq<Byte>)
  {
    [Quote] + Escape(s, html) + [Quote]
  }

  /** A quoted string is delimited by `"` and its body reads back as the
      original bytes. */
  lemma QuoteStringReadsBack(s: seq<Byte>, html: bool)
    ensures var r := QuoteString(s, html);
      |r| >= 2 && r[0] == Quote && r[|r| - 1] == Quote && Unescape(r[1..|r| - 1]) == Some(s)
  {
    EscapeRoundTrip(s, html);
    var r := QuoteString(s, html);
    assert r[1..|r| - 1] == Escape(s, html);
  }

  datatype Option<T> = None | Some(value: T)

  /** Reads the body of a JSON string literal back into bytes. A raw `"` or
      control byte, a dangling backslash, an unknown escape, a `\u` without
      four hexadecimal digits or naming a surrogate is rejected. */
  function Unescape(e: seq<Byte>): (r: Option<seq<Byte>>)
    decreases |e|
  {
    if e == [] then Some([])
    else if e[0] == Quote || e[0] < 0x20 then None
    else if e[0] != Backslash then Prepend([e[0]], Unescape(e[1..]))
    else if |e| < 2 then None
    else if e[1] == Quote || e[1] == Backslash || e[1] == Slash then Prepend([e[1]], Unescape(e[2..]))
    else if e[1] == 0x6E then Prepend([0x0A], Unescape(e[2..]))
    else if e[1] == 0x72 then Prepend([0x0D], Unescape(e[2..]))
    else if e[1] == 0x74 then Prepend([0x09], Unescape(e[2..]))
    else if e[1] == 0x62 then Prepend([0x08], Unescape(e[2..]))
    else if e[1] == 0x66 then Prepend([0x0C], Unescape(e[2..]))
    else if e[1] == 0x75 && |e| >= 6 && IsHex(e[2]) && IsHex(e[3]) && IsHex(e[4]) && IsHex(e[5]) then
      var v := 0x1000 * HexValue(e[2]) + 0x100 * HexValue(e[3]) + 0x10 * HexValue(e[4]) + HexValue(e[5]);
      if 0xD800 <= v < 0xE000 then None
      else Prepend(EncodeScalar(v as char), Unescape(e[6..]))
    else None
  }

  function Prepend(p: seq<Byte>, r: Option<seq<Byte>>): Option<seq<Byte>>
  {
    if r.Some? then Some(p + r.value) else None
  }

  /** Reading back one escaped byte followed by more input. */
  lemma UnescapeByte(b: Byte, html: bool, rest: seq<Byte>)
    ensures Unescape(EscapeByte(b, html) + rest) == Prepend([b], Unescape(rest))
  {
    var e := EscapeByte(b, html) + rest;
    if b == Quote || b == Backslash || b == 0x0A || b == 0x0D || b == 0x09 {
      assert e[2..] == rest;
    } else if b < 0x20 || (html && (b == 0x3C || b == 0x3E || b == 0x26)) {
      assert e[6..] == rest;
      assert EncodeScalar(b as char) == [b];
    } else {
      assert e[1..] == rest;
    }
  }

  /** Reading back an escaped line or paragraph separator. */
  lemma UnescapeLineSeparator(s: seq<Byte>, html: bool, rest: seq<Byte>)
    requires AtLineSeparator(s)
    ensures Unescape([Backslash, 0x75, 0x32, 0x30, 0x32, Hex(s[2] % 16)] + rest)
         == Prepend(s[..3], Unescape(rest))
  {
    var e := [Backslash, 0x75, 0x32, 0x30, 0x32, Hex(s[2] % 16)] + rest;
    assert e[6..] == rest;
    var v: int := 0x2020 + s[2] as int % 16;
    assert v == 0x2028 || v == 0x2029;
    assert EncodeScalar(v as char) == s[..3];
  }

  /** Escaping loses nothing: the body reads back as the original bytes. */
  lemma {:induction false} EscapeRoundTrip(s: seq<Byte>, html: bool)
    ensures Unescape(Escape(s, html)) == Some(s)
    decreases |s|
  {
    if s != [] {
      EscapeRoundTrip(s[if AtLineSeparator(s) then 3 else 1..], html);
      if AtLineSeparator(s) {
        UnescapeLineSeparator(s, html, Escape(s[3..], html));
        assert s[..3] + s[3..] == s;
      } else {
        UnescapeByte(s[0], html, Escape(s[1..], html));
        assert [s[0]] + s[1..] == s;
      }
    }
  }

  /** An escaped body holds no control byte, and with `html` none of `<`,
      `>`, `&`. */
  lemma {:induction false} EscapeIsPrintable(s: seq<Byte>, html: bool)
    ensures forall i :: 0 <= i < |Escape(s, html)| ==> Escape(s, html)[i] >= 0x20
    ensures html ==> forall i :: 0 <= i < |Escape(s, html)| ==>
      Escape(s, html)[i] != 0x3C && Escape(s, html)[i] != 0x3E && Escape(s, html)[i] != 0x26
    decreases |s|
  {
    if s != [] {
      EscapeIsPrintable(s[if AtLineSeparator(s) then 3 else 1..], html);
    }
  }

  /** The HTML flag changes nothing for bytes that hold no `<`, `>` or `&`. */
  lemma {:induction false} EscapeHtmlOnlyAffectsHtmlBytes(s: seq<Byte>)
    requires forall i :: 0 <= i < |s| ==> s[i] != 0x3C && s[i] != 0x3E && s[i] != 0x26
    ensures Escape(s, true) == Escape(s, false)
    decreases |s|
  {
    if s != [] {
      EscapeHtmlOnlyAffectsHtmlBytes(s[if AtLineSeparator(s) then 3 else 1..]);
    }
  }

  /** A byte encoding/json writes as it is: printable ASCII other than `"`
      and `\`, and with `html` other than `<`, `>` and `&`. */
  predicate Plain(b: Byte, html: bool)
  {
    0x20 <= b < 0x80 && b != Quote && b != Backslash && !(html && (b == 0x3C || b == 0x3E || b == 0x26))
  }

  /** A run of plain bytes is its own escape. */
  lemma {:induction false} EscapePlain(s: seq<Byte>, html: bool)
    requires forall i :: 0 <= i < |s| ==> Plain(s[i], html)
    ensures Escape(s, html) == s
    decreases |s|
  {
    if s != [] {
      assert !AtLineSeparator(s);
      EscapePlain(s[1..], html);
      assert s == [s[0]] + s[1..];
    }
  }
}
