/** The `Node` structure of frostlang.go, updated in place. Each node owns
    its children exclusively (`repr` is its footprint: itself and everything
    below it, disjoint between siblings), and `model` is its value as a
    TagTree.Tree, kept equal to the real fields by `Valid()`. */
module Nodes {
  import opened Bytes
  import opened Unicode
  import opened JsonString
  import opened TagTree

  class Node {
    var tag: Key
    var text: string
    var children: map<Key, Node>
    var elements: nat
    var depth: nat

    ghost var repr: set<object>
    ghost var model: Tree

    ghost predicate Valid()
      reads this, repr
      decreases repr
    {
      && this in repr
      && (forall k :: k in children ==>
            && children[k] in repr
            && children[k].repr <= repr
            && this !in children[k].repr
            && children[k].Valid())
      && (forall k, k' {:trigger Apart(children[k].repr, children[k'].repr)} ::
            k in children && k' in children && k != k' ==> Apart(children[k].repr, children[k'].repr))
      && model.tag == tag && model.text == text
      && model.elements == elements && model.depth == depth
      && model.children.Keys == children.Keys
      && (forall k :: k in children ==> children[k].model == model.children[k])
    }

    /** NewNode(tag): a root with no text, no children, count 0, depth 0. */
    constructor (tag: Key)
      ensures Valid() && fresh(repr)
      ensures model == NewTree(tag)
    {
      this.tag := tag;
      text := "";
      children := map[];
      elements := 0;
      depth := 0;
      repr := {this};
      model := NewTree(tag);
    }

    /** A node for AppendChild: no text, no children, count 0, at `depth`. */
    constructor Child(tag: Key, depth: nat)
      ensures Valid() && fresh(repr) && repr == {this}
      ensures model == Tree(tag, "", map[], 0, depth)
    {
      this.tag := tag;
      text := "";
      children := map[];
      elements := 0;
      this.depth := depth;
      repr := {this};
      model := Tree(tag, "", map[], 0, depth);
    }

    /** AppendChild(tag): store a new empty child one level deeper under
        `tag`. (The copy the Go code returns is never used.) */
    method AppendChild(k: Key)
      requires Valid()
      modifies this
      ensures Valid() && fresh(repr - old(repr))
      ensures k in children && fresh(children[k])
      ensures model == old(model).(children := old(model.children)[k := Tree(k, "", map[], 0, depth + 1)])
      ensures k !in old(children) ==> model == WithChild(old(model), k)
      ensures tag == old(tag) && text == old(text) && depth == old(depth) && elements == old(elements)
      ensures children == old(children)[k := children[k]]
    {
      var c := new Node.Child(k, depth + 1);
      ChildrenApartFrom(c);
      Adopt(k, c);
    }

    /** What `Valid()` says about the children, and that a node whose
        footprint is new to the tree is apart from all of them. */
    lemma ChildrenApartFrom(c: Node)
      requires Valid() && c.repr !! repr
      ensures this in repr && this !in c.repr
      ensures model.tag == tag && model.text == text && model.depth == depth && model.elements == elements && model.children.Keys == children.Keys
      ensures forall j :: j in children ==>
        && children[j] in repr && children[j].repr <= repr && this !in children[j].repr
        && children[j].Valid() && children[j].model == model.children[j]
        && Apart(children[j].repr, c.repr) && Apart(c.repr, children[j].repr)
      ensures forall j, j' {:trigger Apart(children[j].repr, children[j'].repr)} ::
        j in children && j' in children && j != j' ==> Apart(children[j].repr, children[j'].repr)
    {
    }

    /** Stores the valid node `c`, whose footprint is new to this tree,
        under `k`. */
    method Adopt(k: Key, c: Node)
      requires this in repr && c.Valid() && this !in c.repr
      requires model.tag == tag && model.text == text && model.depth == depth && model.elements == elements && model.children.Keys == children.Keys
      requires forall j :: j in children ==>
        && children[j] in repr && children[j].repr <= repr && this !in children[j].repr
        && children[j].Valid() && children[j].model == model.children[j]
        && Apart(children[j].repr, c.repr) && Apart(c.repr, children[j].repr)
      requires forall j, j' {:trigger Apart(children[j].repr, children[j'].repr)} ::
        j in children && j' in children && j != j' ==> Apart(children[j].repr, children[j'].repr)
      modifies this
      ensures Valid() && repr == old(repr) + c.repr
      ensures children == old(children)[k := c]
      ensures model == old(model).(children := old(model.children)[k := c.model])
      ensures tag == old(tag) && text == old(text) && depth == old(depth) && elements == old(elements)
    {
      children := children[k := c];
      repr := repr + c.repr;
      model := model.(children := model.children[k := c.model]);
      forall j | j in children && j != k
        ensures children[j] == old(children[j])
        ensures children[j].Valid() && children[j].repr == old(children[j].repr) && children[j].model == model.children[j]
        ensures children[j] in repr && children[j].repr <= repr && this !in children[j].repr
        ensures Apart(children[j].repr, c.repr) && Apart(c.repr, children[j].repr)
      {
        StillValid(children[j]);
      }
      forall j, j' | j in children && j' in children && j != j' && j != k && j' != k
        ensures Apart(children[j].repr, children[j'].repr)
      {
        assert old(Apart(children[j].repr, children[j'].repr));
      }
      StillValid(c);
      Assemble(k);
    }

    /** Add(tags, text): the node reached by `path` gets `x` as its text,
        creating missing children on the way, and each node the walk leaves
        counts one more element. */
    method Add(path: seq<Key>, x: string)
      requires Valid() && |path| >= 1
      modifies repr
      ensures Valid() && fresh(repr - old(repr))
      ensures model == TreeAdd(old(model), path, x)
      decreases |path|, 0
    {
      var k := path[0];
      ghost var t0 := model;
      if k !in children {
        AppendChild(k);
      }
      assert model == WithChild(t0, k);
      AddBelow(k, path[1..], x);
      TreeAddSteps(t0, path, x);
    }

    /** The rest of Add once child `k` exists: the walk goes on below it (or
        sets its text when `rest` is empty), and this node counts one more
        element. */
    method AddBelow(k: Key, rest: seq<Key>, x: string)
      requires Valid() && k in children
      modifies repr
      ensures Valid() && fresh(repr - old(repr))
      ensures model == AddBelowChild(old(model), k, rest, x)
      decreases |rest|, 1
    {
      var child := children[k];
      ChildIsValid(k);
      if rest != [] {
        child.Add(rest, x);
      } else {
        child.SetText(x);
      }
      ChildChanged(k);
      Absorb(k);
    }

    /** After child `k` changed on its own, within its footprint and fresh
        objects, the rest of the tree is as valid as before. */
    twostate lemma ChildChanged(k: Key)
      requires old(Valid()) && k in old(children)
      requires unchanged(this) && unchanged(old(repr) - old(children[k].repr) - {this})
      requires children[k].Valid() && fresh(children[k].repr - old(children[k].repr))
      ensures this in repr && k in children && this !in children[k].repr
      ensures model.tag == tag && model.text == text && model.depth == depth && model.elements == elements && model.children.Keys == children.Keys
      ensures forall j :: j in children && j != k ==>
        && children[j] in repr && children[j].repr <= repr && this !in children[j].repr
        && children[j].Valid() && children[j].model == model.children[j]
        && Apart(children[j].repr, children[k].repr) && Apart(children[k].repr, children[j].repr)
      ensures forall j, j' {:trigger Apart(children[j].repr, children[j'].repr)} ::
        j in children && j' in children && j != j' && j != k && j' != k ==> Apart(children[j].repr, children[j'].repr)
    {
      forall j | j in children && j != k
        ensures children[j].Valid() && children[j].repr == old(children[j].repr)
        ensures children[j].model == old(children[j].model)
        ensures children[j] in repr && children[j].repr <= repr && this !in children[j].repr
        ensures Apart(children[j].repr, children[k].repr) && Apart(children[k].repr, children[j].repr)
      {
        assert old(this !in children[j].repr && children[j].repr <= repr);
        assert old(Apart(children[j].repr, children[k].repr));
        StillValid(children[j]);
      }
      forall j, j' | j in children && j' in children && j != j' && j != k && j' != k
        ensures Apart(children[j].repr, children[j'].repr)
      {
        assert old(Apart(children[j].repr, children[j'].repr));
      }
    }

    /** This node takes in the new state of child `k`: its footprint and
        model follow the child's and it counts one more element. */
    method Absorb(k: Key)
      requires this in repr && k in children && this !in children[k].repr && children[k].Valid()
      requires model.tag == tag && model.text == text && model.depth == depth && model.elements == elements && model.children.Keys == children.Keys
      requires forall j :: j in children && j != k ==>
        && children[j] in repr && children[j].repr <= repr && this !in children[j].repr
        && children[j].Valid() && children[j].model == model.children[j]
        && Apart(children[j].repr, children[k].repr) && Apart(children[k].repr, children[j].repr)
      requires forall j, j' {:trigger Apart(children[j].repr, children[j'].repr)} ::
        j in children && j' in children && j != j' && j != k && j' != k ==> Apart(children[j].repr, children[j'].repr)
      modifies this
      ensures Valid() && children == old(children)
      ensures repr == old(repr) + children[k].repr
      ensures model == old(model).(children := old(model.children)[k := children[k].model], elements := old(model.elements) + 1)
    {
      elements := elements + 1;
      repr := repr + children[k].repr;
      model := model.(children := model.children[k := children[k].model], elements := model.elements + 1);
      forall j | j in children
        ensures children[j].Valid() && children[j].repr == old(children[j].repr) && children[j].model == old(children[j].model)
      {
        StillValid(children[j]);
      }
      Assemble(k);
    }

    /** `Valid()` from its parts, with child `k` stated apart. */
    lemma Assemble(k: Key)
      requires this in repr && k in children && this !in children[k].repr && children[k].Valid()
      requires children[k].repr <= repr
      requires model.tag == tag && model.text == text && model.depth == depth && model.elements == elements
      requires model.children.Keys == children.Keys && children[k].model == model.children[k]
      requires forall j :: j in children && j != k ==>
        && children[j] in repr && children[j].repr <= repr && this !in children[j].repr
        && children[j].Valid() && children[j].model == model.children[j]
        && Apart(children[j].repr, children[k].repr) && Apart(children[k].repr, children[j].repr)
      requires forall j, j' {:trigger Apart(children[j].repr, children[j'].repr)} ::
        j in children && j' in children && j != j' && j != k && j' != k ==> Apart(children[j].repr, children[j'].repr)
      ensures Valid()
    {
    }

    /** The text of a single node, set in place. */
    method SetText(x: string)
      requires Valid()
      modifies this
      ensures Valid() && repr == old(repr)
      ensures model == old(model).(text := x)
    {
      text := x;
      model := model.(text := x);
    }

    /** What `Valid()` says about one child. */
    lemma ChildIsValid(k: Key)
      requires Valid() && k in children
      ensures children[k].Valid() && children[k].repr < repr && this !in children[k].repr
      ensures children[k].model == model.children[k]
      ensures children[k].depth == model.children[k].depth && children[k].tag == model.children[k].tag
    {
      assert this in repr && this !in children[k].repr;
    }

    /** ToJSON(): the JSON text of this node (see TagTree.Render). */
    method ToJSON() returns (out: seq<Byte>)
      requires Valid()
      ensures out == Render(model)
      decreases repr, 2
    {
      assert |children| == |model.children| by {
        assert children.Keys == model.children.Keys;
      }
      if |children| == 0 {
        //  The JSON encoder without HTML escaping, its trailing newline cut.
        return QuoteString(Utf8(text), false);
      }
      var keys := SortedChildKeys(children);
      out := MembersJSON(keys);
      out := out + [Newline] + Indent(depth) + [CloseBrace];
    }

    /** `{` and the members for `keys`, in order. */
    method MembersJSON(keys: seq<Key>) returns (out: seq<Byte>)
      requires Valid() && forall j :: 0 <= j < |keys| ==> keys[j] in children
      ensures forall j :: 0 <= j < |keys| ==> keys[j] in model.children
      ensures out == [OpenBrace] + Members(model, keys, |keys|)
      decreases repr, 1
    {
      out := [OpenBrace];
      ghost var m := model;
      assert forall j :: 0 <= j < |keys| ==> keys[j] in m.children;
      for i := 0 to |keys|
        invariant Valid() && model == m
        invariant out == [OpenBrace] + Members(m, keys, i)
      {
        var member := MemberJSON(keys[i], i < |keys| - 1);
        AppendMember(m, keys, i, out, member);
        out := out + member;
      }
    }

    /** The member for child `k`, with a comma when `more` follow. */
    method MemberJSON(k: Key, more: bool) returns (member: seq<Byte>)
      requires Valid() && k in children
      ensures k in model.children
      ensures var c := model.children[k]; member == MemberText(c.depth, c.tag, Render(c), more)
      decreases repr, 0
    {
      var child := children[k];
      ChildIsValid(k);
      var s := child.ToJSON();
      member := MemberText(child.depth, child.tag, s, more);
    }
  }

  method SortedChildKeys(m: map<Key, Node>) returns (keys: seq<Key>)
    ensures keys == SortedKeys(m.Keys)
  {
    keys := CollectKeys(m);
    keys := SortStrings(keys);
    SortedKeysUnique(keys, m.Keys);
  }

  /** A node none of whose footprint has changed is as valid as before. */
  twostate lemma StillValid(n: Node)
    requires old(n.Valid()) && unchanged(old(n.repr))
    ensures n.Valid() && n.repr == old(n.repr) && n.model == old(n.model)
  {
  }

  /** Two footprints share no object. */
  ghost predicate Apart(a: set<object>, b: set<object>)
  {
    a !! b
  }

  /** One turn of ToJSON's loop appends member `i`. */
  lemma AppendMember(t: Tree, keys: seq<Key>, i: nat, out: seq<Byte>, member: seq<Byte>)
    requires i < |keys|
    requires forall j :: 0 <= j < |keys| ==> keys[j] in t.children
    requires out == [OpenBrace] + Members(t, keys, i)
    requires var c := t.children[keys[i]]; member == MemberText(c.depth, c.tag, Render(c), i < |keys| - 1)
    ensures out + member == [OpenBrace] + Members(t, keys, i + 1)
  {
  }

  /** `for k := range m { keys = append(keys, k) }`: every key once, in
      whatever order the map yields them. */
  method CollectKeys<V>(m: map<Key, V>) returns (keys: seq<Key>)
    ensures forall k :: k in keys <==> k in m
    ensures forall i, j :: 0 <= i < j < |keys| ==> keys[i] != keys[j]
  {
    keys := [];
    var rest := m.Keys;
    while rest != {}
      invariant rest <= m.Keys
      invariant forall k :: k in keys <==> k in m.Keys - rest
      invariant forall i, j :: 0 <= i < j < |keys| ==> keys[i] != keys[j]
      decreases |rest|
    {
      var k :| k in rest;
      assert k !in keys;
      keys := keys + [k];
      rest := rest - {k};
    }
  }

  /** sort.Strings on a list of distinct keys: the same keys in increasing
      byte order. */
  method SortStrings(ks: seq<Key>) returns (r: seq<Key>)
    requires forall i, j :: 0 <= i < j < |ks| ==> ks[i] != ks[j]
    ensures StrictlySorted(r)
    ensures forall k :: k in r <==> k in ks
  {
    r := [];
    for n := 0 to |ks|
      invariant StrictlySorted(r)
      invariant forall k :: k in r <==> k in ks[..n]
    {
      var x := ks[n];
      assert forall m :: 0 <= m < n ==> ks[m] != x;
      assert x !in ks[..n];
      var i := 0;
      while i < |r| && Less(r[i], x)
        invariant 0 <= i <= |r|
        invariant forall j :: 0 <= j < i ==> Less(r[j], x)
      {
        i := i + 1;
      }
      if i < |r| {
        LessTotal(r[i], x);
        forall j | i < j < |r| ensures Less(x, r[j]) {
          LessTransitive(x, r[i], r[j]);
        }
      }
      r := r[..i] + [x] + r[i..];
      assert ks[..n + 1] == ks[..n] + [x];
    }
    assert ks[..|ks|] == ks;
  }
}
