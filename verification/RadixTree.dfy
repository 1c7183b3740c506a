/**
 * Compressed byte tries as values: what a root digest stands for.
 *
 * `Lookup` gives a trie its meaning, `Put` is the edit that one update performs, and
 * `SameBindingsSameTree` says that a canonical trie is determined by its bindings.
 */
module RadixTree {
  import opened Base
  import opened Names
  import opened RadixKey
  import opened RadixNode

  datatype Tree = Tree(lbl: Bytes, binding: Option<Digest>, kids: seq<Child<Tree>>)

  const EMPTY := Tree([], None, [])

  // ----- children, ordered by edge -----

  /** First child with the edge (`iter().find`). */
  function FindChild<X>(cs: seq<Child<X>>, edge: byte): (r: Option<X>)
    ensures r.Some? ==> exists i :: 0 <= i < |cs| && cs[i] == Child(edge, r.value)
    ensures r.None? ==> forall i :: 0 <= i < |cs| ==> cs[i].edge != edge
  {
    if cs == [] then None
    else if cs[0].edge == edge then
      assert cs[0] == Child(edge, cs[0].target);
      Some(cs[0].target)
    else
      var r := FindChild(cs[1..], edge);
      assert r.Some? ==> exists i :: 0 <= i < |cs| - 1 && cs[1..][i] == Child(edge, r.value) && cs[i + 1] == cs[1..][i];
      r
  }

  /** Where the edge is, or would be inserted (`binary_search_by_key`). */
  function Position<X>(cs: seq<Child<X>>, edge: byte): (p: nat)
    ensures p <= |cs|
    ensures forall i :: 0 <= i < p ==> cs[i].edge < edge
    ensures p < |cs| ==> edge <= cs[p].edge
  {
    if cs == [] || edge <= cs[0].edge then 0 else 1 + Position(cs[1..], edge)
  }

  /** Replace, insert or remove the child under one edge. */
  function SetChild<X>(cs: seq<Child<X>>, edge: byte, target: Option<X>): seq<Child<X>> {
    var p := Position(cs, edge);
    if p < |cs| && cs[p].edge == edge then
      match target
      case Some(x) => cs[p := Child(edge, x)]
      case None => cs[..p] + cs[p + 1..]
    else
      match target
      case Some(x) => cs[..p] + [Child(edge, x)] + cs[p..]
      case None => cs
  }

  lemma SetChildAscends<X>(cs: seq<Child<X>>, edge: byte, target: Option<X>)
    requires EdgesAscend(cs)
    ensures EdgesAscend(SetChild(cs, edge, target))
  {
  }

  lemma FindAt<X>(cs: seq<Child<X>>, i: nat)
    requires EdgesAscend(cs) && i < |cs|
    ensures FindChild(cs, cs[i].edge) == Some(cs[i].target)
  {
    forall j | 0 <= j < |cs| && cs[j].edge == cs[i].edge
      ensures j == i
    {
      if j < i { AscendingIsSorted(cs, j, i); }
      if i < j { AscendingIsSorted(cs, i, j); }
    }
  }

  lemma FindAbsent<X>(cs: seq<Child<X>>, edge: byte)
    requires forall i :: 0 <= i < |cs| ==> cs[i].edge != edge
    ensures FindChild(cs, edge) == None
  {
  }

  lemma FindAfterSet<X>(cs: seq<Child<X>>, edge: byte, target: Option<X>, e: byte)
    requires EdgesAscend(cs)
    ensures FindChild(SetChild(cs, edge, target), e) == if e == edge then target else FindChild(cs, e)
  {
    SetChildAscends(cs, edge, target);
    if e == edge {
      FindAfterSetSame(cs, edge, target);
    } else if FindChild(cs, e).Some? {
      var i :| 0 <= i < |cs| && cs[i] == Child(e, FindChild(cs, e).value);
      var j := SetChildKeepsAt(cs, edge, target, i);
      FindAt(SetChild(cs, edge, target), j);
    } else {
      forall j | 0 <= j < |SetChild(cs, edge, target)| ensures SetChild(cs, edge, target)[j].edge != e {
        SetChildMembers(cs, edge, target, j);
      }
      FindAbsent(SetChild(cs, edge, target), e);
    }
  }

  lemma FindAfterSetSame<X>(cs: seq<Child<X>>, edge: byte, target: Option<X>)
    requires EdgesAscend(cs) && EdgesAscend(SetChild(cs, edge, target))
    ensures FindChild(SetChild(cs, edge, target), edge) == target
  {
    var p := Position(cs, edge);
    var ds := SetChild(cs, edge, target);
    if target.Some? {
      assert ds[p] == Child(edge, target.value);
      FindAt(ds, p);
    } else {
      forall i | p < i < |cs| ensures cs[p].edge < cs[i].edge {
        AscendingIsSorted(cs, p, i);
      }
      FindAbsent(ds, edge);
    }
  }

  /** A child under another edge is still there after the edit. */
  lemma SetChildKeepsAt<X>(cs: seq<Child<X>>, edge: byte, target: Option<X>, i: nat) returns (j: nat)
    requires EdgesAscend(cs) && i < |cs| && cs[i].edge != edge
    ensures j < |SetChild(cs, edge, target)| && SetChild(cs, edge, target)[j] == cs[i]
  {
    var p := Position(cs, edge);
    var ds := SetChild(cs, edge, target);
    if |ds| == |cs| || i < p {
      j := i;
    } else if |ds| < |cs| {
      j := i - 1;
      assert ds[j] == cs[p + 1..][i - p - 1];
    } else {
      j := i + 1;
      assert ds[j] == cs[p..][i - p];
    }
  }

  /** Every child after the edit is an old one or the new one. */
  lemma SetChildMembers<X>(cs: seq<Child<X>>, edge: byte, target: Option<X>, j: nat)
    requires j < |SetChild(cs, edge, target)|
    ensures var c := SetChild(cs, edge, target)[j];
            (exists i :: 0 <= i < |cs| && c == cs[i]) || (target.Some? && c == Child(edge, target.value))
  {
    var p := Position(cs, edge);
    var ds := SetChild(cs, edge, target);
    if |ds| == |cs| {
      assert ds[j] == cs[j] || ds[j] == Child(edge, target.value);
    } else if |ds| < |cs| {
      assert ds[j] == cs[if j < p then j else j + 1];
    } else if j != p {
      assert ds[j] == cs[if j < p then j else j - 1];
    }
  }

  /** Ascending children are determined by what is found under each edge. */
  lemma {:induction false} FindDetermines<X>(cs: seq<Child<X>>, ds: seq<Child<X>>)
    requires EdgesAscend(cs) && EdgesAscend(ds)
    requires forall e :: FindChild(cs, e) == FindChild(ds, e)
    ensures cs == ds
  {
    if cs != [] { FindAt(cs, 0); }
    if ds != [] { FindAt(ds, 0); }
    if cs != [] && ds != [] {
      FirstEdge(cs, ds[0].edge);
      FirstEdge(ds, cs[0].edge);
      assert cs[0] == ds[0];
      forall e ensures FindChild(cs[1..], e) == FindChild(ds[1..], e) {
        if e == cs[0].edge {
          forall i | 0 <= i < |cs[1..]| ensures cs[1..][i].edge != e { AscendingIsSorted(cs, 0, i + 1); }
          forall i | 0 <= i < |ds[1..]| ensures ds[1..][i].edge != e { AscendingIsSorted(ds, 0, i + 1); }
          FindAbsent(cs[1..], e);
          FindAbsent(ds[1..], e);
        } else {
          assert FindChild(cs, e) == FindChild(cs[1..], e) && FindChild(ds, e) == FindChild(ds[1..], e);
        }
      }
      FindDetermines(cs[1..], ds[1..]);
    }
  }

  lemma FirstEdge<X>(cs: seq<Child<X>>, e: byte)
    requires EdgesAscend(cs) && cs != [] && FindChild(cs, e).Some?
    ensures cs[0].edge <= e
  {
    var i :| 0 <= i < |cs| && cs[i] == Child(e, FindChild(cs, e).value);
    if 0 < i { AscendingIsSorted(cs, 0, i); }
  }

  // ----- meaning of a trie -----

  /** The binding reached by consuming the whole key along labels and edges. */
  function Lookup(t: Tree, key: Bytes): Option<Digest> {
    if !(t.lbl <= key) then None
    else if |key| == |t.lbl| then t.binding
    else
      var rest := key[|t.lbl|..];
      match FindChild(t.kids, rest[0])
      case None => None
      case Some(c) =>
        assert exists i :: 0 <= i < |t.kids| && t.kids[i] == Child(rest[0], c);
        Lookup(c, rest)
  }

  function LookupOpt(t: Option<Tree>, key: Bytes): Option<Digest> {
    match t
    case None => None
    case Some(u) => Lookup(u, key)
  }

  /** Every node is locally canonical and every child carries the label byte its edge announces. */
  ghost predicate Shape(t: Tree) {
    && EdgesAscend(t.kids)
    && Compressed(t.lbl, t.binding.Some?, |t.kids|)
    && forall i :: 0 <= i < |t.kids| ==> Announced(t.kids[i]) && Shape(t.kids[i].target)
  }

  ghost predicate Announced(c: Child<Tree>) {
    c.target.lbl != [] && c.target.lbl[0] == c.edge
  }

  /** Below `prefix`, assembled keys stay in the path limit and bound ones decode to a path. */
  ghost predicate Placed(t: Tree, prefix: Bytes) {
    && |prefix| + |t.lbl| <= PATH_MAX_BYTES
    && (t.binding.Some? ==> DecodeKey(prefix + t.lbl).Ok?)
    && forall i :: 0 <= i < |t.kids| ==> Placed(t.kids[i].target, prefix + t.lbl)
  }

  /** Below a child's edge, the trie is that child. */
  lemma LookupKid(t: Tree, i: nat, rest: Bytes)
    requires EdgesAscend(t.kids) && i < |t.kids|
    requires rest != [] && rest[0] == t.kids[i].edge
    ensures Lookup(t, t.lbl + rest) == Lookup(t.kids[i].target, rest)
  {
    FindAt(t.kids, i);
    assert (t.lbl + rest)[|t.lbl|..] == rest;
  }

  /** A canonical trie other than the empty root binds something. */
  lemma {:induction false} SomeKey(t: Tree) returns (key: Bytes)
    requires Shape(t) && t != EMPTY
    ensures Lookup(t, key).Some? && t.lbl <= key
    ensures t.binding.None? ==> |key| > |t.lbl|
  {
    if t.binding.Some? {
      key := t.lbl;
    } else {
      key := SomeKeyBelow(t, 0);
    }
  }

  lemma {:induction false} SomeKeyBelow(t: Tree, i: nat) returns (key: Bytes)
    requires Shape(t) && i < |t.kids|
    ensures Lookup(t, key).Some? && t.lbl <= key && |key| > |t.lbl| && key[|t.lbl|] == t.kids[i].edge
  {
    var rest := SomeKey(t.kids[i].target);
    assert Announced(t.kids[i]);
    assert rest[0] == t.kids[i].target.lbl[0];
    key := t.lbl + rest;
    LookupKid(t, i, rest);
  }

  /** The label is the longest common prefix of the bound keys. */
  lemma LabelIsLongest(t: Tree, p: Bytes)
    requires Shape(t) && t != EMPTY
    requires forall k :: Lookup(t, k).Some? ==> p <= k
    ensures p <= t.lbl
  {
    if t.binding.Some? {
      assert Lookup(t, t.lbl).Some?;
    } else {
      var a := SomeKeyBelow(t, 0);
      var b := SomeKeyBelow(t, 1);
      assert p <= a && p <= b;
      assert t.kids[0].edge < t.kids[1].edge;
      assert a[|t.lbl|] != b[|t.lbl|];
    }
  }

  /**
   * A canonical trie is determined by what it binds. This is why the root digest of an index does
   * not depend on the history of updates that produced it.
   */
  lemma {:induction false} SameBindingsSameTree(t: Tree, u: Tree)
    requires Shape(t) && Shape(u)
    requires forall k :: Lookup(t, k) == Lookup(u, k)
    ensures t == u
    decreases t, 1
  {
    if t == EMPTY {
      if u != EMPTY {
        var k := SomeKey(u);
      }
    } else if u == EMPTY {
      var k := SomeKey(t);
    } else {
      LabelIsLongest(t, u.lbl);
      LabelIsLongest(u, t.lbl);
      assert t.lbl == u.lbl;
      assert Lookup(t, t.lbl) == Lookup(u, t.lbl);
      forall e ensures FindChild(t.kids, e) == FindChild(u.kids, e) {
        if FindChild(u.kids, e).Some? {
          var j :| 0 <= j < |u.kids| && u.kids[j] == Child(e, FindChild(u.kids, e).value);
          var k := SomeKeyBelow(u, j);
          assert Lookup(t, k).Some?;
        }
        SameKid(t, u, e);
      }
      FindDetermines(t.kids, u.kids);
    }
  }

  lemma {:induction false} SameKid(t: Tree, u: Tree, e: byte)
    requires Shape(t) && Shape(u) && t.lbl == u.lbl
    requires forall k :: Lookup(t, k) == Lookup(u, k)
    ensures FindChild(t.kids, e).Some? ==> FindChild(t.kids, e) == FindChild(u.kids, e)
    decreases t, 0
  {
    if FindChild(t.kids, e).Some? {
      var i :| 0 <= i < |t.kids| && t.kids[i] == Child(e, FindChild(t.kids, e).value);
      var k := SomeKeyBelow(t, i);
      assert Lookup(u, k).Some?;
      var j :| 0 <= j < |u.kids| && u.kids[j] == Child(e, FindChild(u.kids, e).value);
      var c, d := t.kids[i].target, u.kids[j].target;
      assert Announced(t.kids[i]) && Announced(u.kids[j]);
      forall rest ensures Lookup(c, rest) == Lookup(d, rest) {
        if rest != [] && rest[0] == e {
          LookupKid(t, i, rest);
          LookupKid(u, j, rest);
        }
      }
      SameBindingsSameTree(c, d);
    }
  }

  // ----- the edit -----

  function Leaf(lbl: Bytes, binding: Digest): Tree {
    Tree(lbl, Some(binding), [])
  }

  /** What saving an edited node keeps: nothing, the node merged with its only child, or the node. */
  function Compress(lbl: Bytes, binding: Option<Digest>, kids: seq<Child<Tree>>): Option<Tree> {
    if binding.Some? || |kids| >= 2 then Some(Tree(lbl, binding, kids))
    else if kids == [] then None
    else Some(Tree(lbl + kids[0].target.lbl, kids[0].target.binding, kids[0].target.kids))
  }

  /** The node of `t` cut after `common` label bytes, as a child of its own upper half. */
  function LowerHalf(t: Tree, common: nat): Child<Tree>
    requires common < |t.lbl|
  {
    Child(t.lbl[common], Tree(t.lbl[common..], t.binding, t.kids))
  }

  /** Replacement of the subtree `t` after binding (or unbinding) `key`; `None` when nothing is left. */
  function Put(t: Tree, key: Bytes, b: Option<Digest>): Option<Tree> {
    var common := Common(key, t.lbl);
    var rest := key[common..];
    if common < |t.lbl| then
      if b.None? then Some(t)
      else if rest == [] then Compress(t.lbl[..common], b, [LowerHalf(t, common)])
      else Compress(t.lbl[..common], None, SetChild([LowerHalf(t, common)], rest[0], Some(Leaf(rest, b.value))))
    else if rest == [] then Compress(t.lbl, b, t.kids)
    else
      match FindChild(t.kids, rest[0])
      case Some(c) =>
        assert exists i :: 0 <= i < |t.kids| && t.kids[i] == Child(rest[0], c);
        Compress(t.lbl, t.binding, SetChild(t.kids, rest[0], Put(c, rest, b)))
      case None =>
        if b.None? then Some(t)
        else Compress(t.lbl, t.binding, SetChild(t.kids, rest[0], Some(Leaf(rest, b.value))))
  }

  /** The trie after the edit of a root. */
  function PutRoot(t: Tree, key: Bytes, b: Option<Digest>): Tree {
    match Put(t, key, b)
    case None => EMPTY
    case Some(u) => u
  }

  /** Compression does not change what is bound. */
  lemma CompressMeans(lbl: Bytes, binding: Option<Digest>, kids: seq<Child<Tree>>, k: Bytes)
    requires forall i :: 0 <= i < |kids| ==> Announced(kids[i])
    ensures LookupOpt(Compress(lbl, binding, kids), k) == Lookup(Tree(lbl, binding, kids), k)
  {
    var t := Tree(lbl, binding, kids);
    if binding.None? && |kids| == 1 && lbl <= k {
      var c := kids[0].target;
      var rest := k[|lbl|..];
      assert Announced(kids[0]);
      PrefixOfConcat(lbl, c.lbl, k);
      if rest != [] && rest[0] == kids[0].edge {
        FindAt(kids, 0);
        assert Lookup(t, k) == Lookup(c, rest);
      } else {
        assert Lookup(t, k) == None;
        assert !(c.lbl <= rest);
      }
    }
  }

  /** Editing one child changes only the keys that go through its edge. */
  lemma SetChildMeans(lbl: Bytes, binding: Option<Digest>, kids: seq<Child<Tree>>, edge: byte, c: Option<Tree>,
                      k: Bytes)
    requires EdgesAscend(kids)
    ensures Lookup(Tree(lbl, binding, SetChild(kids, edge, c)), k) ==
            if lbl <= k && |k| > |lbl| && k[|lbl|] == edge then LookupOpt(c, k[|lbl|..])
            else Lookup(Tree(lbl, binding, kids), k)
  {
    if lbl <= k && |k| > |lbl| {
      FindAfterSet(kids, edge, c, k[|lbl|]);
    }
  }

  lemma LeafMeans(lbl: Bytes, b: Digest, k: Bytes)
    ensures Lookup(Leaf(lbl, b), k) == if k == lbl then Some(b) else None
  {
  }

  /** Cutting a label in two does not change what is bound. */
  lemma CutMeans(t: Tree, common: nat, k: Bytes)
    requires common < |t.lbl|
    ensures Lookup(Tree(t.lbl[..common], None, [LowerHalf(t, common)]), k) == Lookup(t, k)
  {
    var half := LowerHalf(t, common);
    CompressMeans(t.lbl[..common], None, [half], k);
    assert t.lbl[..common] + half.target.lbl == t.lbl;
  }

  /** The edit binds exactly the given key to the given value, or unbinds it, and nothing else changes. */
  lemma {:induction false} PutMeans(t: Tree, key: Bytes, b: Option<Digest>, k: Bytes)
    requires Shape(t)
    ensures LookupOpt(Put(t, key, b), k) == if k == key then b else Lookup(t, k)
    decreases t, 1
  {
    var common := Common(key, t.lbl);
    var rest := key[common..];
    assert key == key[..common] + rest;
    if common < |t.lbl| {
      PutSplitMeans(t, key, b, k);
    } else if rest == [] {
      assert key == t.lbl;
      CompressMeans(t.lbl, b, t.kids, k);
    } else {
      PutBelowMeans(t, key, b, k);
    }
  }

  lemma PutSplitMeans(t: Tree, key: Bytes, b: Option<Digest>, k: Bytes)
    requires Common(key, t.lbl) < |t.lbl|
    ensures LookupOpt(Put(t, key, b), k) == if k == key then b else Lookup(t, k)
  {
    var common := Common(key, t.lbl);
    var rest := key[common..];
    assert key == t.lbl[..common] + rest;
    assert Lookup(t, key) == None;
    if b.Some? && rest == [] {
      assert key == t.lbl[..common];
      CutAndBindMeans(t, common, b.value, k);
    } else if b.Some? {
      CutAndBranchMeans(t, common, rest, b.value, k);
    }
  }

  lemma CutAndBindMeans(t: Tree, common: nat, b: Digest, k: Bytes)
    requires common < |t.lbl|
    ensures Lookup(Tree(t.lbl[..common], Some(b), [LowerHalf(t, common)]), k)
         == if k == t.lbl[..common] then Some(b) else Lookup(t, k)
  {
    CutMeans(t, common, k);
  }

  lemma CutAndBranchMeans(t: Tree, common: nat, rest: Bytes, b: Digest, k: Bytes)
    requires common < |t.lbl| && rest != [] && rest[0] != t.lbl[common]
    ensures LookupOpt(Compress(t.lbl[..common], None, SetChild([LowerHalf(t, common)], rest[0], Some(Leaf(rest, b)))),
                      k)
         == if k == t.lbl[..common] + rest then Some(b) else Lookup(t, k)
  {
    var upper, half := t.lbl[..common], LowerHalf(t, common);
    assert |SetChild([half], rest[0], Some(Leaf(rest, b)))| == 2;
    SetChildMeans(upper, None, [half], rest[0], Some(Leaf(rest, b)), k);
    CutMeans(t, common, k);
    if upper <= k && |k| > |upper| && k[|upper|] == rest[0] {
      LeafMeans(rest, b, k[|upper|..]);
      assert k == upper + k[|upper|..];
      assert k[common] != t.lbl[common];
      assert Lookup(t, k) == None;
    } else {
      assert k != upper + rest;
    }
  }

  /** Editing one child and compressing changes only the keys that go through its edge. */
  lemma EditKidMeans(t: Tree, edge: byte, c: Option<Tree>, k: Bytes)
    requires Shape(t) && (c.Some? ==> Announced(Child(edge, c.value)))
    ensures LookupOpt(Compress(t.lbl, t.binding, SetChild(t.kids, edge, c)), k) ==
            if t.lbl <= k && |k| > |t.lbl| && k[|t.lbl|] == edge then LookupOpt(c, k[|t.lbl|..])
            else Lookup(t, k)
  {
    var kids := SetChild(t.kids, edge, c);
    forall j | 0 <= j < |kids| ensures Announced(kids[j]) {
      SetChildMembers(t.kids, edge, c, j);
    }
    CompressMeans(t.lbl, t.binding, kids, k);
    SetChildMeans(t.lbl, t.binding, t.kids, edge, c, k);
  }

  /** An edit below an edge leaves a node announced by that edge. */
  lemma PutAnnounced(t: Tree, key: Bytes, b: Option<Digest>)
    requires t.lbl != [] && key != [] && t.lbl[0] == key[0]
    ensures Put(t, key, b).Some? ==> Announced(Child(key[0], Put(t, key, b).value))
  {
    assert Common(key, t.lbl) >= 1;
  }

  lemma {:induction false} PutBelowMeans(t: Tree, key: Bytes, b: Option<Digest>, k: Bytes)
    requires Shape(t) && t.lbl <= key && |key| > |t.lbl|
    ensures LookupOpt(Put(t, key, b), k) == if k == key then b else Lookup(t, k)
    decreases t, 0
  {
    assert Common(key, t.lbl) == |t.lbl|;
    var rest := key[|t.lbl|..];
    assert key == t.lbl + rest;
    assert t.lbl <= k ==> k == t.lbl + k[|t.lbl|..];
    match FindChild(t.kids, rest[0])
    case Some(c) =>
      var i :| 0 <= i < |t.kids| && t.kids[i] == Child(rest[0], c);
      assert Announced(t.kids[i]);
      PutAnnounced(c, rest, b);
      EditKidMeans(t, rest[0], Put(c, rest, b), k);
      if t.lbl <= k && |k| > |t.lbl| && k[|t.lbl|] == rest[0] {
        PutMeans(c, rest, b, k[|t.lbl|..]);
      }
    case None =>
      if b.Some? {
        EditKidMeans(t, rest[0], Some(Leaf(rest, b.value)), k);
        if t.lbl <= k && |k| > |t.lbl| {
          LeafMeans(rest, b.value, k[|t.lbl|..]);
        }
      }
  }

  // ----- the edit keeps tries canonical -----

  ghost predicate GoodKids(kids: seq<Child<Tree>>, prefix: Bytes) {
    && EdgesAscend(kids)
    && forall i :: 0 <= i < |kids| ==> GoodKid(kids[i], prefix)
  }

  ghost predicate GoodKid(c: Child<Tree>, prefix: Bytes) {
    Announced(c) && Shape(c.target) && Placed(c.target, prefix)
  }

  lemma CompressKeeps(lbl: Bytes, binding: Option<Digest>, kids: seq<Child<Tree>>, prefix: Bytes)
    requires GoodKids(kids, prefix + lbl)
    requires |prefix| + |lbl| <= PATH_MAX_BYTES
    requires binding.Some? ==> DecodeKey(prefix + lbl).Ok?
    ensures var r := Compress(lbl, binding, kids); r.Some? ==> Shape(r.value) && Placed(r.value, prefix)
  {
    if binding.Some? || |kids| >= 2 {
      WholeKeeps(Tree(lbl, binding, kids), prefix);
    } else if |kids| == 1 {
      assert GoodKid(kids[0], prefix + lbl);
      MergeKeeps(lbl, kids[0].target, prefix);
    }
  }

  lemma WholeKeeps(t: Tree, prefix: Bytes)
    requires GoodKids(t.kids, prefix + t.lbl)
    requires |prefix| + |t.lbl| <= PATH_MAX_BYTES
    requires t.binding.Some? || |t.kids| >= 2
    requires t.binding.Some? ==> DecodeKey(prefix + t.lbl).Ok?
    ensures Shape(t) && Placed(t, prefix)
  {
    assert forall i :: 0 <= i < |t.kids| ==> GoodKid(t.kids[i], prefix + t.lbl);
  }

  /** An unbound node with one child is that child with the label prepended. */
  lemma MergeKeeps(lbl: Bytes, c: Tree, prefix: Bytes)
    requires Shape(c) && Placed(c, prefix + lbl) && c.lbl != []
    ensures Shape(Tree(lbl + c.lbl, c.binding, c.kids)) && Placed(Tree(lbl + c.lbl, c.binding, c.kids), prefix)
  {
    assert prefix + (lbl + c.lbl) == prefix + lbl + c.lbl;
  }

  lemma SetChildKeeps(kids: seq<Child<Tree>>, edge: byte, c: Option<Tree>, prefix: Bytes)
    requires GoodKids(kids, prefix)
    requires c.Some? ==> GoodKid(Child(edge, c.value), prefix)
    ensures GoodKids(SetChild(kids, edge, c), prefix)
  {
    SetChildAscends(kids, edge, c);
    forall j | 0 <= j < |SetChild(kids, edge, c)| ensures GoodKid(SetChild(kids, edge, c)[j], prefix) {
      SetChildMembers(kids, edge, c, j);
    }
  }

  lemma KidsAreGood(t: Tree, prefix: Bytes)
    requires Shape(t) && Placed(t, prefix)
    ensures GoodKids(t.kids, prefix + t.lbl) && |prefix| + |t.lbl| <= PATH_MAX_BYTES
  {
    forall i | 0 <= i < |t.kids| ensures GoodKid(t.kids[i], prefix + t.lbl) {
      assert Announced(t.kids[i]);
    }
  }

  lemma FoundKidIsGood(t: Tree, edge: byte, c: Tree, prefix: Bytes)
    requires Shape(t) && Placed(t, prefix) && FindChild(t.kids, edge) == Some(c)
    ensures GoodKid(Child(edge, c), prefix + t.lbl)
  {
    KidsAreGood(t, prefix);
    hide Shape, Placed;
    var i :| 0 <= i < |t.kids| && t.kids[i] == Child(edge, c);
    assert GoodKid(t.kids[i], prefix + t.lbl);
  }

  lemma LeafIsGood(rest: Bytes, b: Digest, prefix: Bytes)
    requires rest != [] && DecodeKey(prefix + rest).Ok?
    ensures GoodKid(Child(rest[0], Leaf(rest, b)), prefix)
  {
  }

  lemma LowerHalfIsGood(t: Tree, common: nat, prefix: Bytes)
    requires Shape(t) && Placed(t, prefix) && common < |t.lbl|
    ensures GoodKid(LowerHalf(t, common), prefix + t.lbl[..common])
  {
    assert prefix + t.lbl[..common] + t.lbl[common..] == prefix + t.lbl;
  }

  /** The edit of a canonical, well-placed trie is canonical and well-placed again. */
  lemma {:induction false} PutKeeps(t: Tree, key: Bytes, b: Option<Digest>, prefix: Bytes)
    requires Shape(t) && Placed(t, prefix)
    requires DecodeKey(prefix + key).Ok?
    ensures var r := Put(t, key, b); r.Some? ==> Shape(r.value) && Placed(r.value, prefix)
  {
    hide DecodeKey, Shape, Placed, Compress;
    if Common(key, t.lbl) < |t.lbl| {
      PutSplitKeeps(t, key, b, prefix);
    } else {
      var rest := key[|t.lbl|..];
      var below := prefix + t.lbl;
      assert prefix + key == below + rest;
      if rest == [] {
        KidsAreGood(t, prefix);
        assert below + rest == below;
        CompressKeeps(t.lbl, b, t.kids, prefix);
      } else {
        match FindChild(t.kids, rest[0])
        case Some(c) =>
          FoundKidIsGood(t, rest[0], c, prefix);
          PutKeeps(c, rest, b, below);
          PutAnnounced(c, rest, b);
          EditKidKeeps(t, rest[0], Put(c, rest, b), prefix);
        case None =>
          if b.Some? {
            LeafIsGood(rest, b.value, below);
            EditKidKeeps(t, rest[0], Some(Leaf(rest, b.value)), prefix);
          }
      }
    }
  }

  lemma EditKidKeeps(t: Tree, edge: byte, c: Option<Tree>, prefix: Bytes)
    requires Shape(t) && Placed(t, prefix)
    requires c.Some? ==> GoodKid(Child(edge, c.value), prefix + t.lbl)
    ensures var r := Compress(t.lbl, t.binding, SetChild(t.kids, edge, c));
            r.Some? ==> Shape(r.value) && Placed(r.value, prefix)
  {
    KidsAreGood(t, prefix);
    SetChildKeeps(t.kids, edge, c, prefix + t.lbl);
    CompressKeeps(t.lbl, t.binding, SetChild(t.kids, edge, c), prefix);
  }

  lemma PutSplitKeeps(t: Tree, key: Bytes, b: Option<Digest>, prefix: Bytes)
    requires Shape(t) && Placed(t, prefix) && Common(key, t.lbl) < |t.lbl|
    requires DecodeKey(prefix + key).Ok?
    ensures var r := Put(t, key, b); r.Some? ==> Shape(r.value) && Placed(r.value, prefix)
  {
    hide DecodeKey;
    var common := Common(key, t.lbl);
    var rest, half, upper := key[common..], LowerHalf(t, common), prefix + key[..common];
    assert prefix + key == upper + rest;
    LowerHalfIsGood(t, common, prefix);
    if b.Some? && rest == [] {
      assert upper + rest == upper;
      CompressKeeps(key[..common], b, [half], prefix);
    } else if b.Some? {
      var leaf := Leaf(rest, b.value);
      LeafIsGood(rest, b.value, upper);
      SetChildKeeps([half], rest[0], Some(leaf), upper);
      CompressKeeps(key[..common], None, SetChild([half], rest[0], Some(leaf)), prefix);
    }
  }

  /** The edit of a root, in one statement: canonical, placed, and exactly one key changed. */
  lemma PutRootMeans(t: Tree, key: Bytes, b: Option<Digest>)
    requires Shape(t) && Placed(t, []) && DecodeKey(key).Ok?
    ensures Shape(PutRoot(t, key, b)) && Placed(PutRoot(t, key, b), [])
    ensures forall k :: Lookup(PutRoot(t, key, b), k) == if k == key then b else Lookup(t, k)
  {
    assert [] + key == key;
    PutKeeps(t, key, b, []);
    forall k ensures Lookup(PutRoot(t, key, b), k) == if k == key then b else Lookup(t, k) {
      PutMeans(t, key, b, k);
    }
  }

  /** An edit that would not change any binding leaves the very same trie. */
  lemma PutNothing(t: Tree, key: Bytes, b: Option<Digest>)
    requires Shape(t) && Placed(t, []) && DecodeKey(key).Ok? && Lookup(t, key) == b
    ensures PutRoot(t, key, b) == t
  {
    PutRootMeans(t, key, b);
    SameBindingsSameTree(PutRoot(t, key, b), t);
  }

  // ----- the finite map of a trie -----

  /** The bound keys. */
  function BoundKeys(t: Tree): set<Bytes> {
    (if t.binding.Some? then {t.lbl} else {})
    + set c, rest | c in t.kids && rest in BoundKeys(c.target) :: t.lbl + rest
  }

  lemma {:induction false} BoundKeysMeans(t: Tree, k: Bytes)
    requires Shape(t)
    ensures k in BoundKeys(t) <==> Lookup(t, k).Some?
  {
    if Lookup(t, k).Some? {
      BoundIsListed(t, k);
    }
    if k in BoundKeys(t) {
      ListedIsBound(t, k);
    }
  }

  /** Where a binding strictly below the label comes from. */
  lemma FoundBelow(t: Tree, k: Bytes) returns (i: nat)
    requires Lookup(t, k).Some? && |k| > |t.lbl|
    ensures t.lbl <= k && k == t.lbl + k[|t.lbl|..]
    ensures i < |t.kids| && Lookup(t.kids[i].target, k[|t.lbl|..]) == Lookup(t, k)
  {
    var rest := k[|t.lbl|..];
    i :| 0 <= i < |t.kids| && t.kids[i] == Child(rest[0], FindChild(t.kids, rest[0]).value);
  }

  lemma {:induction false} BoundIsListed(t: Tree, k: Bytes)
    requires Lookup(t, k).Some?
    ensures k in BoundKeys(t)
  {
    if |k| > |t.lbl| {
      var i := FoundBelow(t, k);
      var c, rest := t.kids[i], k[|t.lbl|..];
      BoundIsListed(c.target, rest);
      assert c in t.kids && rest in BoundKeys(c.target) && k == t.lbl + rest;
    } else {
      assert k == t.lbl;
    }
  }

  lemma {:induction false} ListedIsBound(t: Tree, k: Bytes)
    requires Shape(t) && k in BoundKeys(t)
    ensures Lookup(t, k).Some?
  {
    if !(t.binding.Some? && k == t.lbl) {
      var c, rest :| c in t.kids && rest in BoundKeys(c.target) && k == t.lbl + rest;
      var i :| 0 <= i < |t.kids| && t.kids[i] == c;
      ListedIsBound(c.target, rest);
      assert Announced(t.kids[i]);
      LookupKid(t, i, rest);
    }
  }

  /** Every bound key is the key of a path. */
  lemma {:induction false} BoundKeyDecodes(t: Tree, prefix: Bytes, k: Bytes)
    requires Placed(t, prefix) && Lookup(t, k).Some?
    ensures DecodeKey(prefix + k).Ok?
  {
    hide DecodeKey;
    if |k| > |t.lbl| {
      var i := FoundBelow(t, k);
      var rest := k[|t.lbl|..];
      assert prefix + t.lbl + rest == prefix + k;
      BoundKeyDecodes(t.kids[i].target, prefix + t.lbl, rest);
    } else {
      assert k == t.lbl;
    }
  }

  /** The map from paths to bindings that a root stands for. */
  function PathMap(t: Tree): map<Bytes, Digest> {
    map path | path in (set k | k in BoundKeys(t) && DecodeKey(k).Ok? :: DecodeKey(k).value)
               && EncodeKey(path).Ok? && Lookup(t, EncodeKey(path).value).Some?
      :: Lookup(t, EncodeKey(path).value).value
  }

  /** The binding of a path, read off the trie. */
  function PathLookup(t: Tree, path: Bytes): Option<Digest> {
    if EncodeKey(path).Ok? then Lookup(t, EncodeKey(path).value) else None
  }

  function Get<K, V>(m: map<K, V>, k: K): Option<V> {
    if k in m then Some(m[k]) else None
  }

  lemma PathMapMeans(t: Tree, path: Bytes)
    requires Shape(t)
    ensures Get(PathMap(t), path) == PathLookup(t, path)
  {
    if EncodeKey(path).Ok? {
      var k := EncodeKey(path).value;
      KeyBounds(path);
      BoundKeysMeans(t, k);
    }
  }

  /** Two canonical tries with the same path map are the same trie. */
  lemma SamePathsSameTree(t: Tree, u: Tree)
    requires Shape(t) && Shape(u) && Placed(t, []) && Placed(u, []) && PathMap(t) == PathMap(u)
    ensures t == u
  {
    forall k ensures Lookup(t, k) == Lookup(u, k) {
      SamePathsSameKeys(t, u, k);
      SamePathsSameKeys(u, t, k);
    }
    SameBindingsSameTree(t, u);
  }

  lemma SamePathsSameKeys(t: Tree, u: Tree, k: Bytes)
    requires Shape(t) && Shape(u) && Placed(t, []) && PathMap(t) == PathMap(u)
    ensures Lookup(t, k).Some? ==> Lookup(u, k) == Lookup(t, k)
  {
    if Lookup(t, k).Some? {
      BoundKeyDecodes(t, [], k);
      assert [] + k == k;
      var path := DecodeKey(k).value;
      KeyCodecInverse(path, k);
      PathMapMeans(t, path);
      PathMapMeans(u, path);
    }
  }

  /** The edit of a root is the edit of its path map. */
  lemma PutRootPathMap(t: Tree, path: Bytes, b: Option<Digest>)
    requires Shape(t) && Placed(t, []) && EncodeKey(path).Ok?
    ensures var u := PutRoot(t, EncodeKey(path).value, b);
            && Shape(u) && Placed(u, [])
            && PathMap(u) == if b.Some? then PathMap(t)[path := b.value] else PathMap(t) - {path}
  {
    hide DecodeKey, EncodeKey, PathMap, PutRoot;
    var key := EncodeKey(path).value;
    var u := PutRoot(t, key, b);
    KeyBounds(path);
    PutRootMeans(t, key, b);
    var m := if b.Some? then PathMap(t)[path := b.value] else PathMap(t) - {path};
    forall p ensures Get(PathMap(u), p) == Get(m, p) {
      PathMapMeans(u, p);
      PathMapMeans(t, p);
      EncodeKeyInjective(p, path);
      assert PathLookup(u, p) == if p == path then b else PathLookup(t, p);
    }
    SameMap(PathMap(u), m);
  }

  lemma SameMap<K, V>(m: map<K, V>, n: map<K, V>)
    requires forall k :: Get(m, k) == Get(n, k)
    ensures m == n
  {
    forall k ensures k in m <==> k in n {
      assert Get(m, k) == Get(n, k);
    }
    forall k | k in m ensures m[k] == n[k] {
      assert Get(m, k) == Get(n, k);
    }
  }
}
