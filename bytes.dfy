/** Byte-level helpers shared by the decoder and the encoder: the byte type,
    little-endian 16- and 32-bit fields (Go's binary.LittleEndian), Go's
    unsigned conversions, and bytes.Split / strings.Join on a separator. */
module Bytes {

  /** One octet. Go's `byte`. */
  type Byte = x: int | 0 <= x < 0x100

  /** The `/` byte (0x2F) that separates the segments of a tag. */
  const Slash: Byte := 0x2F

  /** Go's `uint16(n)` for a non-negative `n`: wraps modulo 2^16. */
  function U16(n: nat): (r: nat)
    ensures r < 0x1_0000
    ensures n < 0x1_0000 ==> r == n
  {
    n % 0x1_0000
  }

  /** Go's `uint32(n)` for a non-negative `n`: wraps modulo 2^32. */
  function U32(n: nat): (r: nat)
    ensures r < 0x1_0000_0000
    ensures n < 0x1_0000_0000 ==> r == n
  {
    n % 0x1_0000_0000
  }

  /** The value of the two bytes at `i`, least significant first
      (binary.LittleEndian.Uint16). */
  function ReadLE16(s: seq<Byte>, i: nat): (v: nat)
    requires i + 2 <= |s|
    ensures v < 0x1_0000
  {
    s[i] as int + 0x100 * s[i + 1] as int
  }

  /** The value of the four bytes at `i`, least significant first
      (binary.LittleEndian.Uint32). */
  function ReadLE32(s: seq<Byte>, i: nat): (v: nat)
    requires i + 4 <= |s|
    ensures v < 0x1_0000_0000
  {
    s[i] as int + 0x100 * s[i + 1] as int + 0x1_0000 * s[i + 2] as int + 0x100_0000 * s[i + 3] as int
  }

  /** binary.LittleEndian.PutUint16: two bytes that read back as `n`. */
  function LE16(n: nat): (r: seq<Byte>)
    requires n < 0x1_0000
    ensures |r| == 2 && ReadLE16(r, 0) == n
  {
    [n % 0x100, n / 0x100]
  }

  /** binary.LittleEndian.PutUint32: four bytes that read back as `n`. */
  function LE32(n: nat): (r: seq<Byte>)
    requires n < 0x1_0000_0000
    ensures |r| == 4 && ReadLE32(r, 0) == n
  {
    [n % 0x100, (n / 0x100) % 0x100, (n / 0x1_0000) % 0x100, n / 0x100_0000]
  }

  /** strings.Join: the parts with one `sep` between neighbours. */
  function Join<T>(parts: seq<seq<T>>, sep: T): (r: seq<T>)
    ensures |parts| == 1 ==> r == parts[0]
    decreases |parts|
  {
    if |parts| == 0 then []
    else if |parts| == 1 then parts[0]
    else parts[0] + [sep] + Join(parts[1..], sep)
  }

  /** Number of occurrences of `x` in `s`. */
  function Count<T(==)>(s: seq<T>, x: T): nat
  {
    if s == [] then 0 else (if s[0] == x then 1 else 0) + Count(s[1..], x)
  }

  /** bytes.Split: the maximal runs of `s` between occurrences of `sep`.
      There is always at least one segment, empty segments are kept, no
      segment contains the separator and joining the segments gives `s`
      back. */
  function Split<T(==)>(s: seq<T>, sep: T): (r: seq<seq<T>>)
    ensures |r| == Count(s, sep) + 1
    ensures forall i :: 0 <= i < |r| ==> sep !in r[i]
    ensures Join(r, sep) == s
    decreases |s|
  {
    if s == [] then [[]]
    else if s[0] == sep then [[]] + Split(s[1..], sep)
    else
      var rest := Split(s[1..], sep);
      assert Join(rest, sep) == s[1..];
      JoinConsFirst(rest, s[0], sep);
      [[s[0]] + rest[0]] + rest[1..]
  }

  /** Prepending one element to the first part prepends it to the join. */
  lemma JoinConsFirst<T>(parts: seq<seq<T>>, x: T, sep: T)
    requires |parts| >= 1
    ensures Join([[x] + parts[0]] + parts[1..], sep) == [x] + Join(parts, sep)
  {
    var q := [[x] + parts[0]] + parts[1..];
    assert q[0] == [x] + parts[0] && q[1..] == parts[1..];
    if |parts| > 1 {
      var j := Join(parts[1..], sep);
      Associative([x], parts[0], [sep] + j);
      Associative(parts[0], [sep], j);
      Associative([x] + parts[0], [sep], j);
    }
  }

  lemma Associative<T>(a: seq<T>, b: seq<T>, c: seq<T>)
    ensures (a + b) + c == a + (b + c)
  {
  }

  /** A segment free of the separator, then the separator, starts the split
      of the rest with that segment. */
  lemma {:induction false} SplitAfterSegment<T>(p: seq<T>, sep: T, t: seq<T>)
    requires sep !in p
    ensures Split(p + [sep] + t, sep) == [p] + Split(t, sep)
    decreases |p|
  {
    var s := p + [sep] + t;
    if p != [] {
      assert s[1..] == p[1..] + [sep] + t;
      SplitAfterSegment(p[1..], sep, t);
      var rest := Split(s[1..], sep);
      assert rest[0] == p[1..] && rest[1..] == Split(t, sep);
      assert [p[0]] + p[1..] == p;
    } else {
      assert s[1..] == t;
    }
  }

  /** A segment free of the separator splits into itself. */
  lemma {:induction false} SplitSegment<T>(p: seq<T>, sep: T)
    requires sep !in p
    ensures Split(p, sep) == [p]
    decreases |p|
  {
    if p != [] {
      SplitSegment(p[1..], sep);
      assert [p[0]] + p[1..] == p;
    }
  }

  /** Splitting a join gives the parts back, provided there is at least one
      part and no part contains the separator. */
  lemma {:induction false} SplitJoin<T>(parts: seq<seq<T>>, sep: T)
    requires |parts| >= 1
    requires forall i :: 0 <= i < |parts| ==> sep !in parts[i]
    ensures Split(Join(parts, sep), sep) == parts
    decreases |parts|
  {
    if |parts| == 1 {
      SplitSegment(parts[0], sep);
    } else {
      SplitJoin(parts[1..], sep);
      SplitAfterSegment(parts[0], sep, Join(parts[1..], sep));
      assert parts == [parts[0]] + parts[1..];
    }
  }

  /** Removing the same element from two lists with the same elements
      leaves two lists with the same elements. */
  lemma MultisetRemove<T>(x: T, a: seq<T>, b1: seq<T>, b2: seq<T>)
    requires multiset([x] + a) == multiset(b1 + [x] + b2)
    ensures multiset(a) == multiset(b1 + b2)
  {
    var l, r := multiset(a), multiset(b1 + b2);
    assert multiset([x] + a) == multiset{x} + l;
    assert multiset(b1 + [x] + b2) == multiset{x} + r;
    assert l == multiset{x} + l - multiset{x};
    assert r == multiset{x} + r - multiset{x};
  }
}
