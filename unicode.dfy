/** Conversions between Go strings (UTF-8 bytes) and Unicode scalar values.
    A Dafny `char` is a Unicode scalar value: it is never a surrogate. */
module Unicode {
  import opened Bytes

  /** The replacement character U+FFFD. */
  const Replacement: char := '\U{FFFD}'

  /** Go's `string(v)` for a 16-bit value `v`, read as one character: a
      surrogate code unit (0xD800-0xDFFF) cannot stand alone and becomes
      U+FFFD; every other unit is the scalar with the same value. No
      surrogate pairs are combined. */
  function ScalarOfUnit(u: nat): (c: char)
    requires u < 0x1_0000
    ensures 0xD800 <= u < 0xE000 ==> c == Replacement
    ensures !(0xD800 <= u < 0xE000) ==> c as int == u
  {
    if 0xD800 <= u < 0xE000 then Replacement else u as char
  }

  /** The UTF-8 encoding of one scalar value. An ASCII character is its own
      single byte; every byte of a longer encoding has its top bit set. */
  function EncodeScalar(c: char): (r: seq<Byte>)
    ensures 1 <= |r| <= 4
    ensures c as int < 0x80 ==> r == [c as int]
    ensures c as int >= 0x80 ==> forall i :: 0 <= i < |r| ==> r[i] >= 0x80
  {
    var n := c as int;
    if n < 0x80 then [n]
    else if n < 0x800 then [0xC0 + n / 0x40, 0x80 + n % 0x40]
    else if n < 0x1_0000 then [0xE0 + n / 0x1000, 0x80 + (n / 0x40) % 0x40, 0x80 + n % 0x40]
    else [0xF0 + n / 0x4_0000, 0x80 + (n / 0x1000) % 0x40, 0x80 + (n / 0x40) % 0x40, 0x80 + n % 0x40]
  }

  /** The UTF-8 bytes of a string: Go's `[]byte(s)` for a Go string made of
      the scalars `s`. */
  function Utf8(s: seq<char>): (r: seq<Byte>)
    ensures |r| >= |s|
  {
    if s == [] then [] else EncodeScalar(s[0]) + Utf8(s[1..])
  }

  /** UTF-8 encoding distributes over concatenation. */
  lemma {:induction false} Utf8Append(a: seq<char>, b: seq<char>)
    ensures Utf8(a + b) == Utf8(a) + Utf8(b)
    decreases |a|
  {
    if a == [] {
      assert a + b == b;
    } else {
      assert (a + b)[1..] == a[1..] + b;
      Utf8Append(a[1..], b);
    }
  }

  /** The `/` byte occurs in the UTF-8 encoding of a string only where the
      string has a `/` character. */
  lemma {:induction false} Utf8NoSlash(s: seq<char>)
    requires '/' !in s
    ensures Slash !in Utf8(s)
    decreases |s|
  {
    if s != [] {
      assert s[0] != '/';
      Utf8NoSlash(s[1..]);
    }
  }

  /** The UTF-8 encodings of the parts, one per part. */
  function Utf8Each(parts: seq<seq<char>>): (r: seq<seq<Byte>>)
    ensures |r| == |parts|
    ensures forall i :: 0 <= i < |parts| ==> r[i] == Utf8(parts[i])
  {
    if parts == [] then [] else [Utf8(parts[0])] + Utf8Each(parts[1..])
  }

  /** Encoding a `/`-joined string is joining the encoded parts with the
      `/` byte: `[]byte(strings.Join(p, "/"))` is the byte-level join. */
  lemma {:induction false} Utf8Join(parts: seq<seq<char>>)
    ensures Utf8(Join(parts, '/')) == Join(Utf8Each(parts), Slash)
    decreases |parts|
  {
    if |parts| > 1 {
      Utf8Join(parts[1..]);
      Utf8Append(parts[0] + ['/'], Join(parts[1..], '/'));
      Utf8Append(parts[0], ['/']);
      assert Utf8(['/']) == [Slash];
      assert Utf8Each(parts)[1..] == Utf8Each(parts[1..]);
    }
  }

  /** The bytes of a string of ASCII characters, one per character (the
      low eight bits of each code). */
  function Ascii(s: seq<char>): (r: seq<Byte>)
  {
    seq(|s|, i requires 0 <= i < |s| => s[i] as int % 0x100)
  }

  /** An ASCII string's UTF-8 encoding is its characters' codes, one byte
      each. */
  lemma {:induction false} AsciiIsUtf8(s: seq<char>)
    requires forall i :: 0 <= i < |s| ==> s[i] as int < 0x80
    ensures Utf8(s) == Ascii(s)
    decreases |s|
  {
    if s != [] {
      AsciiIsUtf8(s[1..]);
      assert Ascii(s) == [s[0] as int] + Ascii(s[1..]);
    }
  }
}
