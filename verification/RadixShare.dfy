/** What an edit costs and what it shares: the ancestors rewritten, the tries stored, the subtrees kept. */
module RadixShare {
  import opened Base
  import opened Names
  import opened RadixKey
  import opened RadixNode
  import opened RadixTree
  import opened RadixGraph

  /** All tries within a trie, itself included. */
  function Subtrees(t: Tree): set<Tree> {
    {t} + set c, u | c in t.kids && u in Subtrees(c.target) :: u
  }

  function KidSubtrees(kids: seq<Child<Tree>>): set<Tree> {
    set c, u | c in kids && u in Subtrees(c.target) :: u
  }

  function SubtreesOpt(t: Option<Tree>): set<Tree> {
    match t
    case None => {}
    case Some(u) => Subtrees(u)
  }

  function Single(t: Option<Tree>): set<Tree> {
    match t
    case None => {}
    case Some(u) => {u}
  }

  /** How many nodes lie above the one where the edit of `key` happens. */
  function Ancestors(t: Tree, key: Bytes): nat {
    var common := Common(key, t.lbl);
    var rest := key[common..];
    if common < |t.lbl| || rest == [] then 0
    else
      match FindChild(t.kids, rest[0])
      case Some(c) =>
        assert exists i :: 0 <= i < |t.kids| && t.kids[i] == Child(rest[0], c);
        1 + Ancestors(c, rest)
      case None => 0
  }

  /** The tries that the edit of `key` stores: up to three at the bottom, then one per ancestor. */
  function Writes(t: Tree, key: Bytes, b: Option<Digest>): set<Tree> {
    var common := Common(key, t.lbl);
    var rest := key[common..];
    if common < |t.lbl| then
      if b.None? then {}
      else if rest == [] then {LowerHalf(t, common).target} + Single(Put(t, key, b))
      else {LowerHalf(t, common).target, Leaf(rest, b.value)} + Single(Put(t, key, b))
    else if rest == [] then Single(Put(t, key, b))
    else
      match FindChild(t.kids, rest[0])
      case Some(c) =>
        assert exists i :: 0 <= i < |t.kids| && t.kids[i] == Child(rest[0], c);
        Writes(c, rest, b) + Single(Put(t, key, b))
      case None =>
        if b.None? then {} else {Leaf(rest, b.value)} + Single(Put(t, key, b))
  }

  /** What is stored where a label is cut. */
  lemma WritesAtSplit(t: Tree, key: Bytes, b: Digest)
    requires Common(key, t.lbl) < |t.lbl|
    ensures var common := Common(key, t.lbl);
            var half, rest := LowerHalf(t, common).target, key[common..];
            Writes(t, key, Some(b)) ==
            (if rest == [] then {half} else {half, Leaf(rest, b)}) + Single(Put(t, key, Some(b)))
  {
    hide Put, Single, Common;
  }

  /** What is stored where a leaf is attached. */
  lemma WritesAtLeaf(t: Tree, key: Bytes, b: Digest)
    requires t.lbl <= key && |key| > |t.lbl| && FindChild(t.kids, key[|t.lbl|]) == None
    ensures Writes(t, key, Some(b)) == {Leaf(key[|t.lbl|..], b)} + Single(Put(t, key, Some(b)))
  {
    hide Put, Single, FindChild;
    assert Common(key, t.lbl) == |t.lbl| && key[|t.lbl|..][0] == key[|t.lbl|];
  }

  /** What is stored where the key ends. */
  lemma WritesAtEnd(t: Tree, key: Bytes, b: Option<Digest>)
    requires Common(key, t.lbl) == |t.lbl| == |key|
    ensures Writes(t, key, b) == Single(Put(t, key, b))
  {
    hide Put, Single, Common;
  }

  lemma {:induction false} WritesBound(t: Tree, key: Bytes, b: Option<Digest>)
    ensures |Writes(t, key, b)| <= Ancestors(t, key) + 3
    decreases t
  {
    hide Put, LowerHalf, FindChild;
    var common := Common(key, t.lbl);
    var rest := key[common..];
    var top := Single(Put(t, key, b));
    assert |top| <= 1;
    if common < |t.lbl| {
      if b.Some? {
        var half, leaf := LowerHalf(t, common).target, Leaf(rest, b.value);
        UnionSize({half}, top);
        UnionSize({half, leaf}, top);
        UnionSize({half}, {leaf});
        assert {half, leaf} == {half} + {leaf};
      }
    } else if rest != [] {
      match FindChild(t.kids, rest[0])
      case Some(c) =>
        BelowFound(t, rest[0], c);
        WritesBound(c, rest, b);
        UnionSize(Writes(c, rest, b), top);
      case None =>
        if b.Some? {
          UnionSize({Leaf(rest, b.value)}, top);
        }
    }
  }

  lemma UnionSize<T>(a: set<T>, b: set<T>)
    ensures |a + b| <= |a| + |b|
  {
    assert a + b == a + (b - a) && a !! (b - a);
    assert b == (b - a) + (b * a) && (b - a) !! (b * a);
  }

  lemma BelowFound(t: Tree, edge: byte, c: Tree)
    requires FindChild(t.kids, edge) == Some(c)
    ensures c < t && Subtrees(c) <= KidSubtrees(t.kids)
  {
    hide Subtrees;
    var i :| 0 <= i < |t.kids| && t.kids[i] == Child(edge, c);
    assert t.kids[i] in t.kids && t.kids[i].target == c;
  }

  // ----- sharing -----

  lemma SubtreesOfKids(t: Tree)
    ensures Subtrees(t) == {t} + KidSubtrees(t.kids)
  {
  }

  lemma CompressShares(lbl: Bytes, binding: Option<Digest>, kids: seq<Child<Tree>>)
    ensures var r := Compress(lbl, binding, kids); SubtreesOpt(r) <= Single(r) + KidSubtrees(kids)
  {
    hide Subtrees, KidSubtrees;
    var r := Compress(lbl, binding, kids);
    if r.Some? {
      SubtreesOfKids(r.value);
      if binding.None? && |kids| == 1 {
        SubtreesOfKids(kids[0].target);
        KidIncluded(kids, 0);
      }
    }
  }

  lemma KidIncluded(kids: seq<Child<Tree>>, i: nat)
    requires i < |kids|
    ensures Subtrees(kids[i].target) <= KidSubtrees(kids)
  {
    hide Subtrees;
    assert kids[i] in kids;
  }

  lemma SetChildShares(kids: seq<Child<Tree>>, edge: byte, c: Option<Tree>)
    ensures KidSubtrees(SetChild(kids, edge, c)) <= KidSubtrees(kids) + SubtreesOpt(c)
  {
    hide Subtrees, SetChild;
    var ds := SetChild(kids, edge, c);
    forall u | u in KidSubtrees(ds) ensures u in KidSubtrees(kids) + SubtreesOpt(c) {
      var d :| d in ds && u in Subtrees(d.target);
      var j :| 0 <= j < |ds| && ds[j] == d;
      SetChildMembers(kids, edge, c, j);
      if c.None? || d != Child(edge, c.value) {
        var i :| 0 <= i < |kids| && d == kids[i];
        KidIncluded(kids, i);
      }
    }
  }

  lemma LeafAlone(rest: Bytes, b: Digest)
    ensures Subtrees(Leaf(rest, b)) == {Leaf(rest, b)}
  {
  }

  lemma HalfAlone(t: Tree, common: nat)
    requires common < |t.lbl|
    ensures KidSubtrees([LowerHalf(t, common)]) <= {LowerHalf(t, common).target} + Subtrees(t)
  {
    hide Subtrees;
    SubtreesOfKids(t);
    SubtreesOfKids(LowerHalf(t, common).target);
  }

  /** The edited trie is made of subtrees of the old one and of the tries stored. */
  lemma {:induction false} PutShares(t: Tree, key: Bytes, b: Option<Digest>)
    ensures SubtreesOpt(Put(t, key, b)) <= Subtrees(t) + Writes(t, key, b)
    decreases t
  {
    hide Subtrees, KidSubtrees, Compress, SetChild, FindChild, LowerHalf, Common;
    var common := Common(key, t.lbl);
    var rest := key[common..];
    SubtreesOfKids(t);
    if common < |t.lbl| {
      if b.Some? {
        PutSplitShares(t, key, b.value);
      }
    } else if rest == [] {
      CompressShares(t.lbl, b, t.kids);
    } else {
      match FindChild(t.kids, rest[0])
      case Some(c) =>
        BelowFound(t, rest[0], c);
        PutShares(c, rest, b);
        SetChildShares(t.kids, rest[0], Put(c, rest, b));
        CompressShares(t.lbl, t.binding, SetChild(t.kids, rest[0], Put(c, rest, b)));
      case None =>
        if b.Some? {
          LeafAlone(rest, b.value);
          SetChildShares(t.kids, rest[0], Some(Leaf(rest, b.value)));
          CompressShares(t.lbl, t.binding, SetChild(t.kids, rest[0], Some(Leaf(rest, b.value))));
        }
    }
  }

  lemma PutSplitShares(t: Tree, key: Bytes, b: Digest)
    requires Common(key, t.lbl) < |t.lbl|
    ensures SubtreesOpt(Put(t, key, Some(b))) <= Subtrees(t) + Writes(t, key, Some(b))
  {
    hide Subtrees, KidSubtrees, Compress, SetChild, LowerHalf, Common;
    var common := Common(key, t.lbl);
    var rest, half := key[common..], [LowerHalf(t, common)];
    HalfAlone(t, common);
    if rest == [] {
      CompressShares(t.lbl[..common], Some(b), half);
    } else {
      LeafAlone(rest, b);
      SetChildShares(half, rest[0], Some(Leaf(rest, b)));
      CompressShares(t.lbl[..common], None, SetChild(half, rest[0], Some(Leaf(rest, b))));
    }
  }

  // ----- in digests -----

  /** The digests of all nodes of a trie. */
  function NodeIds(sha: Hash, t: Tree): set<Digest> {
    IdsOf(sha, Subtrees(t))
  }

  function IdsOf(sha: Hash, ts: set<Tree>): set<Digest> {
    set u | u in ts :: Id(sha, u)
  }

  /** The nodes that a root is made of. */
  ghost function Reachable(sha: Hash, nodes: Nodes, root: Digest): set<Digest>
    requires WellFormed(sha, nodes, root)
  {
    NodeIds(sha, TreeOf(sha, nodes, root))
  }

  lemma {:induction false} IdsOfSize(sha: Hash, ts: set<Tree>)
    ensures |IdsOf(sha, ts)| <= |ts|
    decreases |ts|
  {
    hide Id;
    if ts == {} {
      assert IdsOf(sha, ts) == {};
    } else {
      var u :| u in ts;
      IdsOfSize(sha, ts - {u});
      assert IdsOf(sha, ts) == IdsOf(sha, ts - {u}) + {Id(sha, u)};
      UnionSize(IdsOf(sha, ts - {u}), {Id(sha, u)});
    }
  }

  /** All but `Ancestors + 3` nodes of the edited trie are nodes of the old one, under the digests they had. */
  lemma EditSharesNodes(sha: Hash, t: Tree, key: Bytes, b: Option<Digest>)
    ensures |NodeIds(sha, PutRoot(t, key, b)) - NodeIds(sha, t)| <= Ancestors(t, key) + 3
  {
    hide Put, Subtrees, Writes, Id;
    var u := PutRoot(t, key, b);
    var added := NodeIds(sha, u) - NodeIds(sha, t);
    WritesBound(t, key, b);
    PutShares(t, key, b);
    if Put(t, key, b).Some? {
      assert added <= IdsOf(sha, Writes(t, key, b));
      IdsOfSize(sha, Writes(t, key, b));
      SubsetSize(added, IdsOf(sha, Writes(t, key, b)));
    } else {
      EmptyAlone();
      assert added <= {Id(sha, EMPTY)};
      SubsetSize(added, {Id(sha, EMPTY)});
    }
  }

  lemma EmptyAlone()
    ensures Subtrees(EMPTY) == {EMPTY}
  {
  }

  lemma SubsetSize<T>(a: set<T>, b: set<T>)
    requires a <= b
    ensures |a| <= |b|
  {
    assert b == a + (b - a) && a !! (b - a);
  }

  // ----- what is stored -----

  /** The node of `u` is stored under its digest. */
  ghost predicate Stored(sha: Hash, nodes: Nodes, u: Tree) {
    Id(sha, u) in nodes && nodes[Id(sha, u)] == NodeBytes(ToNode(sha, u))
  }

  ghost predicate AllStored(sha: Hash, nodes: Nodes, ts: set<Tree>) {
    forall u :: u in ts ==> Stored(sha, nodes, u)
  }

  /** Nothing but nodes of `ts` has been added. */
  ghost predicate OnlyAdded(sha: Hash, before: Nodes, after: Nodes, ts: set<Tree>) {
    forall id :: id in after && id !in before ==> id in IdsOf(sha, ts)
  }

  lemma AllStoredGrows(sha: Hash, before: Nodes, after: Nodes, ts: set<Tree>)
    requires Extends(before, after) && AllStored(sha, before, ts)
    ensures AllStored(sha, after, ts)
  {
    hide Id, NodeBytes, ToNode;
    forall u | u in ts ensures Stored(sha, after, u) {
      assert Stored(sha, before, u);
    }
  }

  lemma OnlyAddedThrough(sha: Hash, before: Nodes, middle: Nodes, after: Nodes, ts: set<Tree>, us: set<Tree>,
                         vs: set<Tree>)
    requires OnlyAdded(sha, before, middle, ts) && OnlyAdded(sha, middle, after, us) && ts + us <= vs
    ensures OnlyAdded(sha, before, after, vs)
  {
    hide Id;
  }

  lemma {:induction false} NoEmptyBelow(t: Tree, u: Tree)
    requires Shape(t) && t != EMPTY && u in Subtrees(t)
    ensures u != EMPTY
  {
    if u != t {
      var c :| c in t.kids && u in Subtrees(c.target);
      var i :| 0 <= i < |t.kids| && t.kids[i] == c;
      assert Announced(t.kids[i]);
      NoEmptyBelow(c.target, u);
    }
  }

  /** A trie is held as soon as all its nodes are stored. */
  lemma {:induction false} StoredIsHeld(sha: Hash, nodes: Nodes, t: Tree, prefix: Bytes)
    requires Shape(t) && Placed(t, prefix) && t != EMPTY && EmptyRootUnused(sha, nodes)
    requires AllStored(sha, nodes, Subtrees(t))
    ensures Holds(sha, nodes, t)
  {
    hide DecodeKey, NodeBytes, Id, Subtrees;
    SelfIncluded(t);
    assert Stored(sha, nodes, t);
    StoredNotEmpty(sha, nodes, t, prefix);
    SubtreesOfKids(t);
    forall i | 0 <= i < |t.kids| ensures Holds(sha, nodes, t.kids[i].target) {
      assert Announced(t.kids[i]);
      KidIncluded(t.kids, i);
      StoredIsHeld(sha, nodes, t.kids[i].target, prefix + t.lbl);
    }
  }

  lemma StoredNotEmpty(sha: Hash, nodes: Nodes, t: Tree, prefix: Bytes)
    requires Shape(t) && Placed(t, prefix) && t != EMPTY && EmptyRootUnused(sha, nodes) && Stored(sha, nodes, t)
    ensures Id(sha, t) != EmptyRoot(sha)
  {
    hide DecodeKey, NodeBytes, Id;
    if Id(sha, t) == EmptyRoot(sha) {
      ToNodeCanonical(sha, t);
      ToNodeCanonical(sha, EMPTY);
      EmptyDenotesNothing(sha);
      NodeBytesInjective(ToNode(sha, t), EMPTY_NODE);
    }
  }

  lemma HeldIsStored(sha: Hash, nodes: Nodes, t: Tree)
    requires Holds(sha, nodes, t)
    ensures AllStored(sha, nodes, Subtrees(t))
  {
    hide NodeBytes, Id, Subtrees;
    forall u | u in Subtrees(t) ensures Stored(sha, nodes, u) {
      HeldBelow(sha, nodes, t, u);
    }
  }

  // ----- what a root reaches -----

  /** With each stored node, the nodes it refers to; the empty root is never read. */
  ghost predicate Closed(sha: Hash, nodes: Nodes, ids: set<Digest>) {
    forall id :: id in ids && id in nodes && id != EmptyRoot(sha) && DecodeNode(nodes[id]).Ok? ==>
      RefersInto(DecodeNode(nodes[id]).value, ids)
  }

  predicate RefersInto(node: Node, ids: set<Digest>) {
    forall i :: 0 <= i < |node.children| ==> node.children[i].target in ids
  }

  lemma {:induction false} HeldBelow(sha: Hash, nodes: Nodes, t: Tree, u: Tree)
    requires Holds(sha, nodes, t) && u in Subtrees(t)
    ensures Holds(sha, nodes, u)
  {
    hide Id, NodeBytes;
    if u != t {
      var c :| c in t.kids && u in Subtrees(c.target);
      var i :| 0 <= i < |t.kids| && t.kids[i] == c;
      HeldBelow(sha, nodes, c.target, u);
    }
  }

  lemma {:induction false} ShapeBelow(t: Tree, u: Tree, prefix: Bytes)
    requires Shape(t) && Placed(t, prefix) && u in Subtrees(t)
    ensures Shape(u) && |u.lbl| <= PATH_MAX_BYTES
  {
    hide DecodeKey;
    if u != t {
      var c :| c in t.kids && u in Subtrees(c.target);
      var i :| 0 <= i < |t.kids| && t.kids[i] == c;
      ShapeBelow(c.target, u, prefix + t.lbl);
    }
  }

  /** The stored node of a held trie refers to its children. */
  lemma HeldDecodes(sha: Hash, nodes: Nodes, t: Tree)
    requires Shape(t) && |t.lbl| <= PATH_MAX_BYTES && Holds(sha, nodes, t)
    ensures DecodeNode(nodes[Id(sha, t)]) == Ok(ToNode(sha, t))
  {
    hide NodeBytes, DecodeNode, Id;
    ToNodeCanonical(sha, t);
    DecodeOfEncode(ToNode(sha, t));
  }

  lemma {:induction false} HeldIdsWithin(sha: Hash, nodes: Nodes, t: Tree, prefix: Bytes, ids: set<Digest>)
    requires Shape(t) && Placed(t, prefix) && Holds(sha, nodes, t)
    requires Id(sha, t) in ids && Closed(sha, nodes, ids)
    ensures NodeIds(sha, t) <= ids
  {
    hide DecodeKey, DecodeNode, NodeBytes, Id, Subtrees;
    HeldDecodes(sha, nodes, t);
    assert RefersInto(ToNode(sha, t), ids);
    forall u | u in Subtrees(t) ensures Id(sha, u) in ids {
      SubtreesOfKids(t);
      if u != t {
        var c :| c in t.kids && u in Subtrees(c.target);
        var i :| 0 <= i < |t.kids| && t.kids[i] == c;
        assert ToNode(sha, t).children[i].target == Id(sha, c.target);
        HeldIdsWithin(sha, nodes, c.target, prefix + t.lbl, ids);
        assert Id(sha, u) in NodeIds(sha, c.target);
      }
    }
  }

  lemma HeldIdsClosed(sha: Hash, nodes: Nodes, t: Tree, prefix: Bytes)
    requires Shape(t) && Placed(t, prefix) && Holds(sha, nodes, t)
    ensures Closed(sha, nodes, NodeIds(sha, t))
  {
    hide DecodeKey, DecodeNode, NodeBytes, Id, Subtrees, Shape, Placed, Holds;
    var ids := NodeIds(sha, t);
    forall id | id in ids && id in nodes
      ensures DecodeNode(nodes[id]).Ok? ==> RefersInto(DecodeNode(nodes[id]).value, ids)
    {
      var u :| u in Subtrees(t) && id == Id(sha, u);
      HeldBelow(sha, nodes, t, u);
      ShapeBelow(t, u, prefix);
      HeldDecodes(sha, nodes, u);
      forall i | 0 <= i < |u.kids| ensures Id(sha, u.kids[i].target) in ids {
        ChildWithin(t, u, i);
      }
    }
  }

  lemma {:induction false} ChildWithin(t: Tree, u: Tree, i: nat)
    requires u in Subtrees(t) && i < |u.kids|
    ensures u.kids[i].target in Subtrees(t)
  {
    if u == t {
      KidIncluded(t.kids, i);
      SelfIncluded(u.kids[i].target);
    } else {
      var c :| c in t.kids && u in Subtrees(c.target);
      ChildWithin(c.target, u, i);
    }
  }

  lemma SelfIncluded(t: Tree)
    ensures t in Subtrees(t)
  {
  }

  /** `Reachable` is the least set of digests with the root that is closed under the references of stored nodes. */
  lemma ReachableIsLeast(sha: Hash, nodes: Nodes, root: Digest, ids: set<Digest>)
    requires WellFormed(sha, nodes, root)
    ensures root in Reachable(sha, nodes, root) && Closed(sha, nodes, Reachable(sha, nodes, root))
    ensures root in ids && Closed(sha, nodes, ids) ==> Reachable(sha, nodes, root) <= ids
  {
    hide DecodeKey, DecodeNode, NodeBytes, Id, Subtrees, Shape, Placed, Holds, Closed;
    var t := TreeOf(sha, nodes, root);
    SelfIncluded(t);
    if t == EMPTY {
      EmptyAlone();
      EmptyDenotesNothing(sha);
      assert Reachable(sha, nodes, root) == {EmptyRoot(sha)};
      OnlyEmptyClosed(sha, nodes);
    } else {
      HeldIdsClosed(sha, nodes, t, []);
      if root in ids && Closed(sha, nodes, ids) {
        HeldIdsWithin(sha, nodes, t, [], ids);
      }
    }
  }

  lemma OnlyEmptyClosed(sha: Hash, nodes: Nodes)
    ensures Closed(sha, nodes, {EmptyRoot(sha)})
  {
  }

  // ----- room in the store -----

  /** Every node is stored under the hash of its bytes. */
  ghost predicate Honest(sha: Hash, nodes: Nodes) {
    forall id :: id in nodes ==> sha(nodes[id]) == id
  }

  /** The tries `ts` can all be stored: none finds other bytes under its digest, in the store or among themselves. */
  ghost predicate Room(sha: Hash, nodes: Nodes, ts: set<Tree>) {
    && EmptyRootUnused(sha, nodes)
    && (forall u :: u in ts ==> Agrees(sha, u, EmptyRoot(sha), NodeBytes(EMPTY_NODE)))
    && (forall u :: u in ts && Id(sha, u) in nodes ==> nodes[Id(sha, u)] == NodeBytes(ToNode(sha, u)))
    && (forall u, v :: u in ts && v in ts ==> Agrees(sha, u, Id(sha, v), NodeBytes(ToNode(sha, v))))
  }

  ghost predicate Agrees(sha: Hash, u: Tree, id: Digest, bytes: Bytes) {
    Id(sha, u) == id ==> NodeBytes(ToNode(sha, u)) == bytes
  }

  /** Storing one of the tries leaves room for all of them. */
  lemma RoomKept(sha: Hash, before: Nodes, after: Nodes, ts: set<Tree>, u: Tree)
    requires Room(sha, before, ts) && u in ts
    requires after == before || after == before[Id(sha, u) := NodeBytes(ToNode(sha, u))]
    ensures Room(sha, after, ts)
  {
    hide Id, NodeBytes, ToNode;
    assert Agrees(sha, u, EmptyRoot(sha), NodeBytes(EMPTY_NODE));
    forall v | v in ts && Id(sha, v) in after ensures after[Id(sha, v)] == NodeBytes(ToNode(sha, v)) {
      assert Agrees(sha, v, Id(sha, u), NodeBytes(ToNode(sha, u)));
    }
  }

  lemma RoomIsUnused(sha: Hash, nodes: Nodes, ts: set<Tree>)
    requires Room(sha, nodes, ts)
    ensures EmptyRootUnused(sha, nodes)
  {
  }

  lemma RoomForOne(sha: Hash, nodes: Nodes, ts: set<Tree>, u: Tree)
    requires Room(sha, nodes, ts) && u in ts && Id(sha, u) in nodes
    ensures nodes[Id(sha, u)] == NodeBytes(ToNode(sha, u))
  {
    hide Id, NodeBytes, ToNode;
  }

  /** The byte forms of some tries. */
  function FormsOf(sha: Hash, ts: set<Tree>): set<Bytes> {
    set u | u in ts :: NodeBytes(ToNode(sha, u))
  }

  /** In an honest store there is room unless two of the byte strings involved collide. */
  lemma RoomUnlessCollision(sha: Hash, nodes: Nodes, ts: set<Tree>)
    requires Honest(sha, nodes)
    requires CollisionFree(sha, nodes.Values + FormsOf(sha, ts) + {NodeBytes(EMPTY_NODE)})
    ensures Room(sha, nodes, ts)
  {
    hide Id, NodeBytes, ToNode;
    var forms := FormsOf(sha, ts);
    forall u | u in ts ensures NodeBytes(ToNode(sha, u)) in forms && Id(sha, u) == sha(NodeBytes(ToNode(sha, u))) {
      IdIsHashOfNode(sha, u);
    }
    forall id | id in nodes ensures nodes[id] in nodes.Values && sha(nodes[id]) == id {
    }
  }
}
