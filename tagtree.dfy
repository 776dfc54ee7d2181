/** The value view of the `Node` hierarchy: what `Add` does to it and what
    `ToJSON` renders from it, as functions, with the properties the program
    relies on. The class in node.dfy is kept equal to this view. */
module TagTree {
  import opened Bytes
  import opened Unicode
  import opened JsonString

  /** A map key of `Children` and a `Tag`: a Go string holding raw bytes. */
  type Key = seq<Byte>

  /** One node: its tag, its text, its children by key, its `Elements`
      count and its `Depth`. */
  datatype Tree = Tree(tag: Key, text: string, children: map<Key, Tree>, elements: nat, depth: nat)

  /** NewNode(tag): no text, no children, zero count, depth 0. */
  function NewTree(tag: Key): Tree
  {
    Tree(tag, "", map[], 0, 0)
  }

  /** The child stored under `k`, or the node AppendChild(k) would create:
      no text, no children, zero count, one deeper than `t`. */
  function ChildOrNew(t: Tree, k: Key): (c: Tree)
    ensures k !in t.children ==> c == Tree(k, "", map[], 0, t.depth + 1)
  {
    if k in t.children then t.children[k] else Tree(k, "", map[], 0, t.depth + 1)
  }

  /** Add(path, x): walk `path` from `t`, creating each missing child; the
      last node gets `x` as its text; every node the walk leaves (all but
      the last) counts one more element. */
  function TreeAdd(t: Tree, path: seq<Key>, x: string): Tree
    requires |path| >= 1
    decreases |path|
  {
    var c := ChildOrNew(t, path[0]);
    var c' := if |path| > 1 then TreeAdd(c, path[1..], x) else c.(text := x);
    t.(children := t.children[path[0] := c'], elements := t.elements + 1)
  }

  /** AppendChild on the model, when `k` is missing: an empty child one
      level deeper under `k`. */
  function WithChild(t: Tree, k: Key): (r: Tree)
    ensures k in r.children && r.children[k] == ChildOrNew(t, k)
    ensures r.children.Keys == t.children.Keys + {k}
  {
    if k in t.children then t else t.(children := t.children[k := Tree(k, "", map[], 0, t.depth + 1)])
  }

  /** The part of Add below an existing child `k`: the walk goes on with
      `rest` from it, or sets its text when `rest` is empty, and `t` counts
      one more element. */
  function AddBelowChild(t: Tree, k: Key, rest: seq<Key>, x: string): (r: Tree)
    requires k in t.children
    ensures r.tag == t.tag && r.text == t.text && r.depth == t.depth
    ensures r.elements == t.elements + 1 && r.children.Keys == t.children.Keys
    ensures forall k' :: k' in t.children && k' != k ==> r.children[k'] == t.children[k']
    ensures rest == [] ==> r.children[k].text == x
  {
    var c := t.children[k];
    t.(children := t.children[k := if rest == [] then c.(text := x) else TreeAdd(c, rest, x)],
       elements := t.elements + 1)
  }

  /** Add is: make sure the first child exists, then add below it. */
  lemma TreeAddSteps(t: Tree, path: seq<Key>, x: string)
    requires |path| >= 1
    ensures TreeAdd(t, path, x) == AddBelowChild(WithChild(t, path[0]), path[0], path[1..], x)
  {
    var k := path[0];
    var c := ChildOrNew(t, k);
    var c' := if |path| > 1 then TreeAdd(c, path[1..], x) else c.(text := x);
    assert WithChild(t, k).children[k := c'] == t.children[k := c'];
  }

  /** The tree after adding every entry in order, from the first. */
  function AddAll(t: Tree, entries: seq<(seq<Key>, string)>): Tree
    requires forall i :: 0 <= i < |entries| ==> |entries[i].0| >= 1
    decreases |entries|
  {
    if entries == [] then t
    else AddAll(TreeAdd(t, entries[0].0, entries[0].1), entries[1..])
  }

  /** The node reached from `t` by following `q`, if every step exists. */
  function Find(t: Tree, q: seq<Key>): Option<Tree>
    decreases |q|
  {
    if q == [] then Some(t)
    else if q[0] in t.children then Find(t.children[q[0]], q[1..])
    else None
  }

  /** The node reached by following `q`, creating missing steps the way
      `Add` creates them: the node `Add` works on at that point. */
  function Reach(t: Tree, q: seq<Key>): Tree
    decreases |q|
  {
    if q == [] then t else Reach(ChildOrNew(t, q[0]), q[1..])
  }

  predicate IsPrefix(q: seq<Key>, p: seq<Key>)
  {
    |q| <= |p| && q == p[..|q|]
  }

  /** Every child's tag is its key and its depth is one more than its
      parent's, all the way down. */
  ghost predicate WellFormed(t: Tree)
    decreases t
  {
    forall k :: k in t.children ==>
      t.children[k].tag == k && t.children[k].depth == t.depth + 1 && WellFormed(t.children[k])
  }

  // ---------------------------------------------------------------------
  // Properties of Add

  /** After Add(p, x) the node at `p` exists and carries `x`; apart from its
      text it is the node that was there (or a fresh one): its children and
      its count are untouched. */
  lemma {:induction false} AddSetsText(t: Tree, p: seq<Key>, x: string)
    requires |p| >= 1
    ensures Find(TreeAdd(t, p, x), p) == Some(Reach(t, p).(text := x))
    decreases |p|
  {
    var c := ChildOrNew(t, p[0]);
    if |p| > 1 {
      AddSetsText(c, p[1..], x);
    }
  }

  /** After Add(p, x) each node strictly above the end of `p` exists, has
      gained exactly the next segment of `p` as a key and counts exactly one
      more element; its tag, text and depth are as before. */
  lemma {:induction false} AddAlongPath(t: Tree, p: seq<Key>, x: string, i: nat)
    requires i < |p|
    ensures Find(TreeAdd(t, p, x), p[..i]).Some?
    ensures var n, r := Find(TreeAdd(t, p, x), p[..i]).value, Reach(t, p[..i]);
      && n.children.Keys == r.children.Keys + {p[i]}
      && n.elements == r.elements + 1
      && n.tag == r.tag && n.text == r.text && n.depth == r.depth
    decreases i
  {
    if i > 0 {
      var c := ChildOrNew(t, p[0]);
      assert p[..i][1..] == p[1..][..i - 1];
      assert p[..i][0] == p[0];
      AddAlongPath(c, p[1..], x, i - 1);
    }
  }

  /** Add(p, x) changes no node off the path: a node reached by a key
      sequence that is not a prefix of `p` is exactly what it was, and so
      is its absence. */
  lemma {:induction false} AddLeavesOthers(t: Tree, p: seq<Key>, x: string, q: seq<Key>)
    requires |p| >= 1
    requires !IsPrefix(q, p)
    ensures Find(TreeAdd(t, p, x), q) == Find(t, q)
    decreases |q|
  {
    var c := ChildOrNew(t, p[0]);
    if q[0] == p[0] {
      if |p| > 1 {
        assert q == [p[0]] + q[1..];
        assert |q| <= |p| ==> p[..|q|] == [p[0]] + p[1..][..|q| - 1];
        AddLeavesOthers(c, p[1..], x, q[1..]);
      } else {
        assert |q| > 1;
        if q[0] !in t.children {
          assert Find(c.(text := x), q[1..]) == None;
        }
      }
    }
  }

  /** A new child gets the depth one below its parent and its key as tag,
      so Add keeps a well-formed tree well formed. */
  lemma {:induction false} AddWellFormed(t: Tree, p: seq<Key>, x: string)
    requires |p| >= 1 && WellFormed(t)
    ensures WellFormed(TreeAdd(t, p, x))
    decreases |p|
  {
    var c := ChildOrNew(t, p[0]);
    if |p| > 1 {
      AddWellFormed(c, p[1..], x);
    }
  }

  /** Adding a list of entries keeps a well-formed tree well formed; in
      particular the tree the read loop builds from a new root is. */
  lemma {:induction false} AddAllWellFormed(t: Tree, es: seq<(seq<Key>, string)>)
    requires forall i :: 0 <= i < |es| ==> |es[i].0| >= 1
    requires WellFormed(t)
    ensures WellFormed(AddAll(t, es))
    decreases |es|
  {
    if es != [] {
      AddWellFormed(t, es[0].0, es[0].1);
      AddAllWellFormed(TreeAdd(t, es[0].0, es[0].1), es[1..]);
    }
  }

  /** Adding at least one entry leaves the tree with a child. */
  lemma {:induction false} AddAllHasChild(t: Tree, es: seq<(seq<Key>, string)>)
    requires forall i :: 0 <= i < |es| ==> |es[i].0| >= 1
    requires es != [] || |t.children| > 0
    ensures |AddAll(t, es).children| > 0
    decreases |es|
  {
    if es != [] {
      var t' := TreeAdd(t, es[0].0, es[0].1);
      assert es[0].0[0] in t'.children;
      AddAllHasChild(t', es[1..]);
    }
  }

  /** In a well-formed tree the node `Add` works on at depth |q| below `t`
      is |q| deeper than `t` and is tagged with the last segment of `q`. */
  lemma {:induction false} ReachDepth(t: Tree, q: seq<Key>)
    requires WellFormed(t)
    ensures Reach(t, q).depth == t.depth + |q|
    ensures |q| >= 1 ==> Reach(t, q).tag == q[|q| - 1]
    ensures WellFormed(Reach(t, q))
    decreases |q|
  {
    if q != [] {
      ReachDepth(ChildOrNew(t, q[0]), q[1..]);
      if |q| > 1 {
        assert q[1..][|q| - 2] == q[|q| - 1];
      }
    }
  }

  /** Where a node exists, it is the node `Add` works on. */
  lemma {:induction false} ReachFound(t: Tree, q: seq<Key>)
    requires Find(t, q).Some?
    ensures Reach(t, q) == Find(t, q).value
    decreases |q|
  {
    if q != [] {
      ReachFound(t.children[q[0]], q[1..]);
    }
  }

  /** The two trees agree in everything but element counts: everything
      `ToJSON` can see. */
  ghost predicate SameShape(a: Tree, b: Tree)
    decreases a
  {
    && a.tag == b.tag && a.text == b.text && a.depth == b.depth
    && a.children.Keys == b.children.Keys
    && forall k :: k in a.children ==> SameShape(a.children[k], b.children[k])
  }

  lemma {:induction false} SameShapeReflexive(t: Tree)
    ensures SameShape(t, t)
    decreases t
  {
    forall k | k in t.children ensures SameShape(t.children[k], t.children[k]) {
      SameShapeReflexive(t.children[k]);
    }
  }

  /** Last write wins: adding the same path twice leaves the tree Add of the
      second text alone would give, apart from element counts. No child is
      duplicated and the first text is gone. */
  lemma {:induction false} LastWriteWins(t: Tree, p: seq<Key>, a: string, b: string)
    requires |p| >= 1
    ensures SameShape(TreeAdd(TreeAdd(t, p, a), p, b), TreeAdd(t, p, b))
    ensures Find(TreeAdd(TreeAdd(t, p, a), p, b), p).Some?
    ensures Find(TreeAdd(TreeAdd(t, p, a), p, b), p).value.text == b
    decreases |p|
  {
    var c0 := ChildOrNew(t, p[0]);
    var t1 := TreeAdd(t, p, a);
    var c1 := t1.children[p[0]];
    assert ChildOrNew(t1, p[0]) == c1;
    var t2 := TreeAdd(t1, p, b);
    var t' := TreeAdd(t, p, b);
    if |p| > 1 {
      LastWriteWins(c0, p[1..], a, b);
    } else {
      SameShapeReflexive(c0.(text := b));
    }
    forall k | k in t2.children ensures SameShape(t2.children[k], t'.children[k]) {
      if k != p[0] { SameShapeReflexive(t.children[k]); }
    }
    AddSetsText(t1, p, b);
  }

  /** Add does not look at or change the text of the node it starts from. */
  lemma AddKeepsRootText(c: Tree, q: seq<Key>, y: string, z: string)
    requires |q| >= 1
    ensures TreeAdd(c.(text := y), q, z) == TreeAdd(c, q, z).(text := y)
  {
    assert ChildOrNew(c.(text := y), q[0]) == ChildOrNew(c, q[0]);
  }

  /** Adds below different children of `t` touch different subtrees. */
  lemma AddCommutesApart(t: Tree, p1: seq<Key>, x1: string, p2: seq<Key>, x2: string)
    requires |p1| >= 1 && |p2| >= 1 && p1[0] != p2[0]
    ensures TreeAdd(TreeAdd(t, p1, x1), p2, x2) == TreeAdd(TreeAdd(t, p2, x2), p1, x1)
  {
    var t1, t2 := TreeAdd(t, p1, x1), TreeAdd(t, p2, x2);
    assert ChildOrNew(t1, p2[0]) == ChildOrNew(t, p2[0]);
    assert ChildOrNew(t2, p1[0]) == ChildOrNew(t, p1[0]);
    assert TreeAdd(t1, p2, x2).children == TreeAdd(t2, p1, x1).children;
  }

  /** Adds at different paths commute: the tree does not depend on the
      order in which entries with distinct paths arrive. */
  lemma {:induction false} AddCommutes(t: Tree, p1: seq<Key>, x1: string, p2: seq<Key>, x2: string)
    requires |p1| >= 1 && |p2| >= 1 && p1 != p2
    ensures TreeAdd(TreeAdd(t, p1, x1), p2, x2) == TreeAdd(TreeAdd(t, p2, x2), p1, x1)
    decreases |p1| + |p2|, 1
  {
    if p1[0] != p2[0] {
      AddCommutesApart(t, p1, x1, p2, x2);
    } else {
      AddCommutesBelow(t, p1, x1, p2, x2);
    }
  }

  /** Adds at different paths through the same first child commute. */
  lemma {:induction false} AddCommutesBelow(t: Tree, p1: seq<Key>, x1: string, p2: seq<Key>, x2: string)
    requires |p1| >= 1 && |p2| >= 1 && p1 != p2 && p1[0] == p2[0]
    ensures TreeAdd(TreeAdd(t, p1, x1), p2, x2) == TreeAdd(TreeAdd(t, p2, x2), p1, x1)
    decreases |p1| + |p2|, 0
  {
    var k := p1[0];
    var t1, t2 := TreeAdd(t, p1, x1), TreeAdd(t, p2, x2);
    var a, b := TreeAdd(t1, p2, x2), TreeAdd(t2, p1, x1);
    var c0 := ChildOrNew(t, k);
    assert ChildOrNew(t1, k) == t1.children[k];
    assert ChildOrNew(t2, k) == t2.children[k];
    if |p1| == 1 {
      AddKeepsRootText(c0, p2[1..], x1, x2);
    } else if |p2| == 1 {
      AddKeepsRootText(c0, p1[1..], x2, x1);
    } else {
      assert p1[1..] != p2[1..] by {
        assert p1 == [k] + p1[1..] && p2 == [k] + p2[1..];
      }
      AddCommutes(c0, p1[1..], x1, p2[1..], x2);
    }
    assert a.children == b.children;
  }

  /** Adding a concatenation of entry lists is adding one list after the
      other. */
  lemma {:induction false} AddAllAppend(t: Tree, a: seq<(seq<Key>, string)>, b: seq<(seq<Key>, string)>)
    requires forall i :: 0 <= i < |a| ==> |a[i].0| >= 1
    requires forall i :: 0 <= i < |b| ==> |b[i].0| >= 1
    ensures forall i :: 0 <= i < |a + b| ==> |(a + b)[i].0| >= 1
    ensures AddAll(t, a + b) == AddAll(AddAll(t, a), b)
    decreases |a|
  {
    assert forall i :: 0 <= i < |a + b| ==> (a + b)[i] == if i < |a| then a[i] else b[i - |a|];
    if a == [] {
      assert a + b == b;
    } else {
      assert (a + b)[1..] == a[1..] + b;
      AddAllAppend(TreeAdd(t, a[0].0, a[0].1), a[1..], b);
    }
  }

  /** No two entries of the list have the same path. */
  predicate DistinctPaths(es: seq<(seq<Key>, string)>)
  {
    forall i, j :: 0 <= i < j < |es| ==> es[i].0 != es[j].0
  }

  /** An entry whose path differs from every path of `es` can be added
      before them or after them. */
  lemma {:induction false} AddPastAll(t: Tree, x: (seq<Key>, string), es: seq<(seq<Key>, string)>)
    requires |x.0| >= 1 && forall i :: 0 <= i < |es| ==> |es[i].0| >= 1 && es[i].0 != x.0
    ensures AddAll(TreeAdd(t, x.0, x.1), es) == TreeAdd(AddAll(t, es), x.0, x.1)
    decreases |es|
  {
    if es != [] {
      var y := es[0];
      AddCommutes(t, x.0, x.1, y.0, y.1);
      AddPastAll(TreeAdd(t, y.0, y.1), x, es[1..]);
    }
  }

  /** Dropping one entry keeps the paths distinct. */
  lemma DistinctWithout(b: seq<(seq<Key>, string)>, k: nat)
    requires k < |b| && DistinctPaths(b)
    ensures DistinctPaths(b[..k] + b[k + 1..])
  {
    var rest := b[..k] + b[k + 1..];
    assert forall i :: 0 <= i < |rest| ==> rest[i] == if i < k then b[i] else b[i + 1];
  }

  /** Taking the first entry of `a` off both lists: where it sits in `b`,
      and what remains of `b` without it. */
  lemma TakeFirst(a: seq<(seq<Key>, string)>, b: seq<(seq<Key>, string)>) returns (k: nat)
    requires a != [] && multiset(a) == multiset(b) && DistinctPaths(b)
    ensures k < |b| && b[k] == a[0]
    ensures multiset(a[1..]) == multiset(b[..k] + b[k + 1..])
    ensures DistinctPaths(b[..k] + b[k + 1..])
  {
    var x := a[0];
    assert x in multiset(b);
    k :| 0 <= k < |b| && b[k] == x;
    assert b == b[..k] + [x] + b[k + 1..];
    assert a == [x] + a[1..];
    MultisetRemove(x, a[1..], b[..k], b[k + 1..]);
    DistinctWithout(b, k);
  }

  /** The insertion order does not matter: two lists holding the same
      entries, where no path occurs twice, build the same tree. */
  lemma {:induction false} AddAllPermutation(t: Tree, a: seq<(seq<Key>, string)>, b: seq<(seq<Key>, string)>)
    requires forall i :: 0 <= i < |a| ==> |a[i].0| >= 1
    requires forall i :: 0 <= i < |b| ==> |b[i].0| >= 1
    requires multiset(a) == multiset(b) && DistinctPaths(a) && DistinctPaths(b)
    ensures AddAll(t, a) == AddAll(t, b)
    decreases |a|
  {
    if a == [] {
      assert |b| == |multiset(b)| == 0;
    } else {
      var x := a[0];
      var k := TakeFirst(a, b);
      var b1, b2 := b[..k], b[k + 1..];
      assert b == b1 + [x] + b2;
      AddAllPermutation(TreeAdd(t, x.0, x.1), a[1..], b1 + b2);
      AddAllAppend(t, b1 + [x], b2);
      AddAllAppend(t, b1, [x]);
      AddPastAll(t, x, b1);
      AddAllAppend(TreeAdd(t, x.0, x.1), b1, b2);
    }
  }

  // ---------------------------------------------------------------------
  // Byte order of keys (Go's string comparison, used by sort.Strings)

  /** `a` sorts before `b`: at the first difference its byte is smaller, or
      it is a proper prefix. */
  predicate Less(a: Key, b: Key)
    decreases |a|
  {
    if a == [] then b != []
    else if b == [] then false
    else if a[0] != b[0] then a[0] < b[0]
    else Less(a[1..], b[1..])
  }

  lemma {:induction false} LessIrreflexive(a: Key)
    ensures !Less(a, a)
    decreases |a|
  {
    if a != [] { LessIrreflexive(a[1..]); }
  }

  lemma {:induction false} LessTransitive(a: Key, b: Key, c: Key)
    requires Less(a, b) && Less(b, c)
    ensures Less(a, c)
    decreases |a|
  {
    if a != [] && a[0] == b[0] && b[0] == c[0] {
      LessTransitive(a[1..], b[1..], c[1..]);
    }
  }

  lemma {:induction false} LessTotal(a: Key, b: Key)
    requires a != b
    ensures Less(a, b) != Less(b, a)
    decreases |a|
  {
    if a != [] && b != [] && a[0] == b[0] {
      assert a == [a[0]] + a[1..] && b == [b[0]] + b[1..];
      LessTotal(a[1..], b[1..]);
    }
  }

  predicate StrictlySorted(r: seq<Key>)
  {
    forall i, j {:trigger Less(r[i], r[j])} :: 0 <= i < j < |r| ==> Less(r[i], r[j])
  }

  ghost predicate IsLeast(m: Key, s: set<Key>)
  {
    m in s && forall k :: k in s && k != m ==> Less(m, k)
  }

  /** A finite non-empty set of keys has a least element. */
  lemma {:induction false} LeastExists(s: set<Key>)
    requires s != {}
    ensures exists m :: IsLeast(m, s)
    decreases |s|
  {
    var x :| x in s;
    if s != {x} {
      LeastExists(s - {x});
      var m :| IsLeast(m, s - {x});
      if Less(m, x) {
        forall k | k in s && k != m ensures Less(m, k) {
          if k == x { } else { assert k in s - {x}; }
        }
        assert IsLeast(m, s);
      } else {
        LessTotal(m, x);
        forall k | k in s && k != x ensures Less(x, k) {
          if k != m { LessTransitive(x, m, k); }
        }
        assert IsLeast(x, s);
      }
    } else {
      assert IsLeast(x, s);
    }
  }

  /** The keys of `s` in increasing byte order: the list sort.Strings
      produces from them. */
  ghost function SortedKeys(s: set<Key>): (r: seq<Key>)
    ensures StrictlySorted(r)
    ensures forall k :: k in r <==> k in s
    ensures |r| == |s|
    decreases |s|
  {
    if s == {} then []
    else
      LeastExists(s);
      var m :| IsLeast(m, s);
      var rest := SortedKeys(s - {m});
      assert forall i :: 0 <= i < |rest| ==> Less(m, rest[i]) by {
        forall i | 0 <= i < |rest| ensures Less(m, rest[i]) {
          assert rest[i] in s - {m};
        }
      }
      [m] + rest
  }

  /** The first key of a strictly increasing list is the least of its set. */
  lemma FirstIsLeast(r: seq<Key>, s: set<Key>)
    requires StrictlySorted(r) && r != []
    requires forall k :: k in r <==> k in s
    ensures IsLeast(r[0], s)
  {
    forall k | k in s && k != r[0] ensures Less(r[0], k) {
      var j :| 0 <= j < |r| && r[j] == k;
    }
  }

  lemma LeastUnique(m: Key, m': Key, s: set<Key>)
    requires IsLeast(m, s) && IsLeast(m', s)
    ensures m == m'
  {
    if m != m' {
      LessTotal(m, m');
    }
  }

  /** The sorted list starts with the least key, followed by the sorted
      list of the others. */
  lemma SortedKeysHead(s: set<Key>)
    requires s != {}
    ensures var q := SortedKeys(s);
      q != [] && IsLeast(q[0], s) && q[1..] == SortedKeys(s - {q[0]})
  {
  }

  /** The tail of a strictly increasing list of `s` lists `s` without its
      head. */
  lemma TailOfSorted(r: seq<Key>, s: set<Key>)
    requires StrictlySorted(r) && r != []
    requires forall k :: k in r <==> k in s
    ensures StrictlySorted(r[1..])
    ensures forall k :: k in r[1..] <==> k in s - {r[0]}
  {
    forall k ensures k in r[1..] <==> k in s - {r[0]} {
      if k in r[1..] {
        var j :| 1 <= j < |r| && r[j] == k;
        assert Less(r[0], r[j]);
        LessIrreflexive(k);
      }
      if k in s - {r[0]} {
        var j :| 0 <= j < |r| && r[j] == k;
        assert r[1..][j - 1] == k;
      }
    }
  }

  /** There is only one strictly increasing list of a given set of keys. */
  lemma {:induction false} SortedKeysUnique(r: seq<Key>, s: set<Key>)
    requires StrictlySorted(r)
    requires forall k :: k in r <==> k in s
    ensures r == SortedKeys(s)
    decreases |r|
  {
    if r == [] {
      assert s == set k | k in r;
    } else {
      FirstIsLeast(r, s);
      assert r[0] in s;
      SortedKeysHead(s);
      var q := SortedKeys(s);
      LeastUnique(r[0], q[0], s);
      TailOfSorted(r, s);
      SortedKeysUnique(r[1..], s - {r[0]});
      assert r == [r[0]] + r[1..];
    }
  }

  // ---------------------------------------------------------------------
  // Rendering (ToJSON)

  /** strings.Repeat("  ", d): two spaces per level. */
  function Indent(d: nat): (r: seq<Byte>)
    ensures |r| == 2 * d && forall i :: 0 <= i < |r| ==> r[i] == 0x20
  {
    if d == 0 then [] else [0x20, 0x20] + Indent(d - 1)
  }

  /** Byte constants of the rendering. */
  const OpenBrace: Byte := 0x7B
  const CloseBrace: Byte := 0x7D
  const Newline: Byte := 0x0A
  const Colon: Byte := 0x3A
  const Comma: Byte := 0x2C

  /** The JSON text ToJSON produces for a node. A node without children is
      the JSON string of its text (no HTML escaping, no newline); any other
      node is `{`, one member per child in sorted key order, a newline, the
      node's indentation and `}`. */
  ghost function Render(t: Tree): seq<Byte>
    decreases t, 2
  {
    if |t.children| == 0 then QuoteString(Utf8(t.text), false)
    else
      var keys := SortedKeys(t.children.Keys);
      [OpenBrace] + Members(t, keys, |keys|) + [Newline] + Indent(t.depth) + [CloseBrace]
  }

  /** The first `i` members of the rendering of `t`, for the key list `keys`. */
  ghost function Members(t: Tree, keys: seq<Key>, i: nat): seq<Byte>
    requires i <= |keys|
    requires forall j :: 0 <= j < |keys| ==> keys[j] in t.children
    decreases t, 1, i
  {
    if i == 0 then [] else Members(t, keys, i - 1) + Member(t, keys, i - 1)
  }

  /** Member `j`: the text of child `keys[j]` (see MemberText), with a comma
      unless it is the last. */
  ghost function Member(t: Tree, keys: seq<Key>, j: nat): seq<Byte>
    requires j < |keys|
    requires forall j :: 0 <= j < |keys| ==> keys[j] in t.children
    decreases t, 0
  {
    var c := t.children[keys[j]];
    MemberText(c.depth, c.tag, Render(c), j < |keys| - 1)
  }

  /** One member of a JSON object: a newline, the indentation for `depth`,
      the tag as a JSON string (HTML-escaped, as json.Marshal does), `:`, the
      child's JSON, and a comma when more members follow. */
  function MemberText(depth: nat, tag: Key, json: seq<Byte>, more: bool): seq<Byte>
  {
    [Newline] + Indent(depth) + QuoteString(tag, true) + [Colon] + json + (if more then [Comma] else [])
  }

  /** A node without children renders as a JSON string literal that reads
      back as the UTF-8 bytes of its text. */
  lemma LeafRendersText(t: Tree)
    requires |t.children| == 0
    ensures var r := Render(t);
      |r| >= 2 && r[0] == Quote && r[|r| - 1] == Quote && Unescape(r[1..|r| - 1]) == Some(Utf8(t.text))
  {
    QuoteStringReadsBack(Utf8(t.text), false);
  }

  /** A node with children renders as a JSON object: `{` first, `}` last. */
  lemma BranchRendersObject(t: Tree)
    requires |t.children| > 0
    ensures var r := Render(t); |r| >= 2 && r[0] == OpenBrace && r[|r| - 1] == CloseBrace
  {
  }

  /** Members depend on the children only. */
  lemma {:induction false} MembersOnlyChildren(a: Tree, b: Tree, keys: seq<Key>, i: nat)
    requires a.children == b.children
    requires i <= |keys|
    requires forall j :: 0 <= j < |keys| ==> keys[j] in a.children
    ensures Members(a, keys, i) == Members(b, keys, i)
    decreases i
  {
    if i > 0 { MembersOnlyChildren(a, b, keys, i - 1); }
  }

  /** The text of a node that has children is not rendered. */
  lemma BranchTextDropped(t: Tree, x: string)
    requires |t.children| > 0
    ensures Render(t.(text := x)) == Render(t)
  {
    var keys := SortedKeys(t.children.Keys);
    MembersOnlyChildren(t.(text := x), t, keys, |keys|);
  }

  /** An empty tree renders as the empty JSON string `""`. */
  lemma EmptyRendersEmptyString(tag: Key)
    ensures Render(NewTree(tag)) == [Quote, Quote]
  {
  }

  /** In a well-formed tree each member is the key itself quoted, at the
      indentation one level below the node. */
  lemma MemberOfWellFormed(t: Tree, keys: seq<Key>, j: nat)
    requires WellFormed(t)
    requires j < |keys|
    requires forall j :: 0 <= j < |keys| ==> keys[j] in t.children
    ensures Member(t, keys, j) ==
      [Newline] + Indent(t.depth + 1) + QuoteString(keys[j], true) + [Colon]
        + Render(t.children[keys[j]]) + (if j < |keys| - 1 then [Comma] else [])
  {
  }

  /** Rendering ignores element counts. */
  lemma {:induction false} RenderSameShape(a: Tree, b: Tree)
    requires SameShape(a, b)
    ensures Render(a) == Render(b)
    decreases a, 2
  {
    if |a.children| != 0 {
      var keys := SortedKeys(a.children.Keys);
      MembersSameShape(a, b, keys, |keys|);
    }
  }

  lemma {:induction false} MembersSameShape(a: Tree, b: Tree, keys: seq<Key>, i: nat)
    requires SameShape(a, b)
    requires i <= |keys|
    requires forall j :: 0 <= j < |keys| ==> keys[j] in a.children
    ensures forall j :: 0 <= j < |keys| ==> keys[j] in b.children
    ensures Members(a, keys, i) == Members(b, keys, i)
    decreases a, 1, i
  {
    if i > 0 {
      MembersSameShape(a, b, keys, i - 1);
      RenderSameShape(a.children[keys[i - 1]], b.children[keys[i - 1]]);
    }
  }

  /** Last write wins in the output too: adding a path twice renders as
      adding it once with the second text. */
  lemma LastWriteWinsRendered(t: Tree, p: seq<Key>, a: string, b: string)
    requires |p| >= 1
    ensures Render(TreeAdd(TreeAdd(t, p, a), p, b)) == Render(TreeAdd(t, p, b))
  {
    LastWriteWins(t, p, a, b);
    RenderSameShape(TreeAdd(TreeAdd(t, p, a), p, b), TreeAdd(t, p, b));
  }
}
