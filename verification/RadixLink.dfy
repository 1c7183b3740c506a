/** The stored side of tries: what `load` must find, and what an edited or saved node stands for. */
module RadixLink {
  import opened Base
  import opened Names
  import opened RadixKey
  import opened RadixNode
  import opened RadixTree
  import opened RadixGraph
  import opened RadixShare

  function JoinedKey(prefix: Bytes, label': Bytes): CodecResult<Bytes> {
    if |prefix| + |label'| > PATH_MAX_BYTES then Err(BadLength) else Ok(prefix + label')
  }

  function ValidatePosition(prefix: Bytes, node: Node): CodecResult<()> {
    var assembled :- JoinedKey(prefix, node.lbl);
    if node.binding.Some? then
      var _ :- DecodeKey(assembled);
      Ok(())
    else Ok(())
  }

  function RequiredId(id: Option<Digest>): CodecResult<Digest> {
    match id
    case None => Err(BadOrdering)
    case Some(d) => Ok(d)
  }

  // ----- references of the stored form -----

  /** The digest of what is left of a subtree. */
  function IdOpt(sha: Hash, t: Option<Tree>): Option<Digest> {
    match t
    case None => None
    case Some(u) => Some(Id(sha, u))
  }

  /** Editing a child reference is editing the child of the trie. */
  lemma SetChildOfRefs(sha: Hash, kids: seq<Child<Tree>>, edge: byte, c: Option<Tree>)
    ensures SetChild(Refs(sha, kids), edge, IdOpt(sha, c)) == Refs(sha, SetChild(kids, edge, c))
  {
    hide Id, Refs;
    var p := Position(kids, edge);
    PositionOfRefs(sha, kids, edge);
    RefsAt(sha, kids);
    RefsOfParts(sha, kids, p);
    if p < |kids| && kids[p].edge == edge {
      if c.Some? {
        RefsUpdated(sha, kids, p, Child(edge, c.value));
      } else {
        RefsOfParts(sha, kids, p + 1);
        RefsOfConcat(sha, kids[..p], kids[p + 1..]);
      }
    } else if c.Some? {
      RefsInserted(sha, kids, p, edge, c.value);
    }
  }

  lemma RefsAt(sha: Hash, kids: seq<Child<Tree>>)
    ensures |Refs(sha, kids)| == |kids|
    ensures forall i :: 0 <= i < |kids| ==> Refs(sha, kids)[i].edge == kids[i].edge
  {
    hide Id;
  }

  lemma RefsUpdated(sha: Hash, kids: seq<Child<Tree>>, p: nat, c: Child<Tree>)
    requires p < |kids|
    ensures |Refs(sha, kids)| == |kids|
    ensures Refs(sha, kids)[p := Child(c.edge, Id(sha, c.target))] == Refs(sha, kids[p := c])
  {
    hide Id;
  }

  lemma RefsInserted(sha: Hash, kids: seq<Child<Tree>>, p: nat, edge: byte, c: Tree)
    requires p <= |kids|
    ensures |Refs(sha, kids)| == |kids|
    ensures Refs(sha, kids)[..p] + [Child(edge, Id(sha, c))] + Refs(sha, kids)[p..]
         == Refs(sha, kids[..p] + [Child(edge, c)] + kids[p..])
  {
    hide Id;
    RefsOfParts(sha, kids, p);
    RefsOfConcat(sha, kids[..p], [Child(edge, c)]);
    RefsOfConcat(sha, kids[..p] + [Child(edge, c)], kids[p..]);
    assert Refs(sha, [Child(edge, c)]) == [Child(edge, Id(sha, c))];
  }

  lemma RefsOfParts(sha: Hash, kids: seq<Child<Tree>>, p: nat)
    requires p <= |kids|
    ensures Refs(sha, kids)[..p] == Refs(sha, kids[..p]) && Refs(sha, kids)[p..] == Refs(sha, kids[p..])
  {
  }

  lemma RefsOfConcat(sha: Hash, a: seq<Child<Tree>>, b: seq<Child<Tree>>)
    ensures Refs(sha, a + b) == Refs(sha, a) + Refs(sha, b)
  {
  }

  lemma {:induction false} PositionOfRefs(sha: Hash, kids: seq<Child<Tree>>, edge: byte)
    ensures Position(Refs(sha, kids), edge) == Position(kids, edge)
  {
    if kids != [] && kids[0].edge < edge {
      PositionOfRefs(sha, kids[1..], edge);
      assert Refs(sha, kids)[1..] == Refs(sha, kids[1..]);
    }
  }

  lemma FindOfRefs(sha: Hash, kids: seq<Child<Tree>>, edge: byte)
    ensures FindChild(kids, edge) == None ==> FindChild(Refs(sha, kids), edge) == None
    ensures FindChild(kids, edge).Some? ==>
              FindChild(Refs(sha, kids), edge) == Some(Id(sha, FindChild(kids, edge).value))
  {
    hide Id;
    if kids != [] {
      assert Refs(sha, kids)[1..] == Refs(sha, kids[1..]);
    }
  }

  // ----- loading -----

  /** The bytes that a load of `id` looks at are there; the empty root needs none. */
  predicate Available(sha: Hash, nodes: Nodes, id: Digest) {
    id == EmptyRoot(sha) || id in nodes
  }

  /** The checks of `load` on available bytes, in its order. */
  function Fetch(sha: Hash, nodes: Nodes, id: Digest, edge: Option<byte>, prefix: Bytes): CodecResult<Node>
    requires Available(sha, nodes, id)
  {
    var node :- if id == EmptyRoot(sha) then Ok(EMPTY_NODE)
                else if |nodes[id]| > NODE_MAX_BYTES then Err(BadLength)
                else if sha(nodes[id]) != id then Err(DigestMismatch)
                else DecodeNode(nodes[id]);
    if edge.Some? && (node.lbl == [] || node.lbl[0] != edge.value) then Err(BadOrdering)
    else
      var _ :- ValidatePosition(prefix, node);
      Ok(node)
  }

  /**
   * `node` is the node of `id`: its canonical bytes are stored under their hash, its label starts with the
   * edge, its key stays in the path limit and decodes if it is bound.
   */
  ghost predicate Loaded(sha: Hash, nodes: Nodes, id: Digest, edge: Option<byte>, prefix: Bytes, node: Node) {
    && (if id == EmptyRoot(sha) then node == EMPTY_NODE
        else id in nodes && sha(nodes[id]) == id && nodes[id] == NodeBytes(node) && Canonical(node))
    && (edge.Some? ==> node.lbl != [] && node.lbl[0] == edge.value)
    && |prefix| + |node.lbl| <= PATH_MAX_BYTES
    && (node.binding.Some? ==> DecodeKey(prefix + node.lbl).Ok?)
  }

  /** The checks pass exactly for the node of the digest. */
  lemma FetchMeans(sha: Hash, nodes: Nodes, id: Digest, edge: Option<byte>, prefix: Bytes, node: Node)
    ensures Loaded(sha, nodes, id, edge, prefix, node) <==>
            Available(sha, nodes, id) && Fetch(sha, nodes, id, edge, prefix) == Ok(node)
  {
    hide DecodeKey, DecodeNode, NodeBytes;
    if id != EmptyRoot(sha) && id in nodes {
      if DecodeNode(nodes[id]).Ok? {
        EncodeOfDecode(nodes[id]);
      }
      if Canonical(node) && nodes[id] == NodeBytes(node) {
        DecodeOfEncode(node);
        NodeFits(node);
      }
    }
  }

  /** A digest has one node. */
  lemma LoadedUnique(sha: Hash, nodes: Nodes, id: Digest, edge: Option<byte>, prefix: Bytes, m: Node, n: Node)
    requires Loaded(sha, nodes, id, edge, prefix, m) && Loaded(sha, nodes, id, edge, prefix, n)
    ensures m == n
  {
    hide Loaded, Fetch;
    FetchMeans(sha, nodes, id, edge, prefix, m);
    FetchMeans(sha, nodes, id, edge, prefix, n);
  }

  /** Key bytes settled on arrival at a node: an edge byte is settled before its child is read. */
  function From(edge: Option<byte>, offset: nat): nat {
    if edge.Some? then offset + 1 else offset
  }

  predicate Arrived(key: Bytes, edge: Option<byte>, offset: nat) {
    && From(edge, offset) <= |key|
    && (edge.None? ==> offset == 0)
    && (edge.Some? ==> key[offset] == edge.value)
  }

  /** A loaded node whose label is ahead consumes at least the edge byte. */
  lemma LoadedStep(sha: Hash, nodes: Nodes, id: Digest, edge: Option<byte>, key: Bytes, offset: nat, node: Node)
    requires offset <= |key| && Loaded(sha, nodes, id, edge, key[..offset], node) && node.lbl <= key[offset..]
    ensures From(edge, offset) <= offset + |node.lbl| <= |key|
  {
    hide DecodeKey;
  }

  lemma LoadedDecodes(sha: Hash, nodes: Nodes, id: Digest, edge: Option<byte>, key: Bytes, offset: nat, node: Node)
    requires offset <= |key| && Loaded(sha, nodes, id, edge, key[..offset], node) && node.lbl <= key[offset..]
    ensures offset + |node.lbl| <= |key|
    ensures node.binding.Some? ==> DecodeKey(key[..offset + |node.lbl|]).Ok?
  {
    hide DecodeKey;
    assert key[..offset] + node.lbl == key[..offset + |node.lbl|];
  }

  // ----- stores that cannot be trusted -----

  /** Bytes that the store serves under the digest of `u`, and that hash to it, are the node of `u`. */
  ghost predicate Vouched(sha: Hash, nodes: Nodes, u: Tree) {
    var id, bytes := Id(sha, u), NodeBytes(ToNode(sha, u));
    if id == EmptyRoot(sha) then bytes == NodeBytes(EMPTY_NODE)
    else id in nodes && sha(nodes[id]) == id ==> nodes[id] == bytes
  }

  /** Nothing stored collides with a node of `t`; the store may lack or corrupt any of them. */
  ghost predicate Genuine(sha: Hash, nodes: Nodes, t: Tree) {
    forall u :: u in Subtrees(t) ==> Vouched(sha, nodes, u)
  }

  /** The situation in which a load finds the node of `g` or fails. */
  ghost predicate Traced(sha: Hash, nodes: Nodes, id: Digest, edge: Option<byte>, prefix: Bytes, g: Tree) {
    && Shape(g) && Placed(g, prefix) && id == Id(sha, g) && Genuine(sha, nodes, g)
    && (edge.Some? ==> Announced(Child(edge.value, g)))
  }

  lemma LoadedIsVouched(sha: Hash, nodes: Nodes, id: Digest, edge: Option<byte>, prefix: Bytes, g: Tree, node: Node)
    requires Shape(g) && Placed(g, prefix) && id == Id(sha, g) && Vouched(sha, nodes, g)
    requires Loaded(sha, nodes, id, edge, prefix, node)
    ensures node == ToNode(sha, g)
  {
    hide DecodeKey, Id, NodeBytes;
    ToNodeCanonical(sha, g);
    NodeBytesInjective(node, ToNode(sha, g));
  }

  lemma LoadedIsTraced(sha: Hash, nodes: Nodes, id: Digest, edge: Option<byte>, prefix: Bytes, g: Tree, node: Node)
    requires Traced(sha, nodes, id, edge, prefix, g) && Loaded(sha, nodes, id, edge, prefix, node)
    ensures node == ToNode(sha, g)
  {
    hide Subtrees, Id, Loaded, Shape, Placed, Vouched;
    SelfIncluded(g);
    LoadedIsVouched(sha, nodes, id, edge, prefix, g, node);
  }

  /** The child under the next key byte is traced, too. */
  lemma DescendTraced(sha: Hash, nodes: Nodes, id: Digest, edge: Option<byte>, prefix: Bytes, cur: Tree, next: byte)
    requires Traced(sha, nodes, id, edge, prefix, cur) && FindChild(cur.kids, next).Some?
    ensures var c := FindChild(cur.kids, next).value;
            Traced(sha, nodes, Id(sha, c), Some(next), prefix + cur.lbl, c)
  {
    hide DecodeKey, Subtrees, Id, Vouched;
    var c := FindChild(cur.kids, next).value;
    var i :| 0 <= i < |cur.kids| && cur.kids[i] == Child(next, c);
    assert Announced(cur.kids[i]);
    SubtreesOfKids(cur);
    KidIncluded(cur.kids, i);
  }

  /** A held trie is genuine: the store serves its very nodes. */
  lemma DenotedIsGenuine(sha: Hash, nodes: Nodes, id: Digest, prefix: Bytes, t: Tree)
    requires Denotes(sha, nodes, id, prefix, t)
    ensures Genuine(sha, nodes, t)
  {
    hide DecodeKey, Subtrees, Id, NodeBytes, ToNode;
    forall u | u in Subtrees(t) ensures Vouched(sha, nodes, u) {
      if t == EMPTY {
        EmptyAlone();
        EmptyDenotesNothing(sha);
      } else {
        HeldBelow(sha, nodes, t, u);
      }
    }
  }

  /** Only the trie that is held can be traced. */
  lemma {:induction false} HeldIsTheTraced(sha: Hash, nodes: Nodes, t: Tree, u: Tree, p: Bytes, q: Bytes)
    requires Shape(t) && Placed(t, p) && Holds(sha, nodes, t)
    requires Shape(u) && Placed(u, q) && Genuine(sha, nodes, u) && Id(sha, t) == Id(sha, u)
    ensures t == u
  {
    hide DecodeKey, Subtrees, NodeBytes, Id;
    var m, n := ToNode(sha, t), ToNode(sha, u);
    IdIsHashOfNode(sha, t);
    SelfIncluded(u);
    assert Vouched(sha, nodes, u);
    ToNodeCanonical(sha, t);
    ToNodeCanonical(sha, u);
    NodeBytesInjective(m, n);
    assert |m.children| == |t.kids| && |n.children| == |u.kids|;
    SubtreesOfKids(u);
    forall i | 0 <= i < |t.kids| ensures t.kids[i] == u.kids[i] {
      assert m.children[i] == n.children[i];
      KidIncluded(u.kids, i);
      HeldIsTheTraced(sha, nodes, t.kids[i].target, u.kids[i].target, p + t.lbl, q + u.lbl);
    }
    assert t.kids == u.kids;
  }

  lemma DenotedIsTheTraced(sha: Hash, nodes: Nodes, root: Digest, t: Tree, u: Tree)
    requires Denotes(sha, nodes, root, [], t) && Traced(sha, nodes, root, None, [], u)
    ensures t == u
  {
    hide DecodeKey, Subtrees, NodeBytes, Shape, Placed, Id;
    if t == EMPTY {
      EmptyDenotesNothing(sha);
      SelfIncluded(u);
      assert Vouched(sha, nodes, u);
      ShapedNodeCanonical(sha, u);
      NodeBytesInjective(ToNode(sha, u), EMPTY_NODE);
      assert |Refs(sha, u.kids)| == |u.kids|;
    } else {
      HeldIsTheTraced(sha, nodes, t, u, [], []);
    }
  }

  lemma ShapedNodeCanonical(sha: Hash, t: Tree)
    requires Shape(t) && Placed(t, [])
    ensures Canonical(ToNode(sha, t)) && Canonical(EMPTY_NODE)
  {
    ToNodeCanonical(sha, t);
  }

  lemma {:induction false} FormsBelow(sha: Hash, t: Tree, u: Tree)
    requires u in Subtrees(t)
    ensures NodeBytes(ToNode(sha, u)) in Preimages(sha, t)
  {
    hide Id, NodeBytes, ToNode;
    if u != t {
      var c :| c in t.kids && u in Subtrees(c.target);
      var i :| 0 <= i < |t.kids| && t.kids[i] == c;
      FormsBelow(sha, c.target, u);
      KidPreimages(sha, t, i);
    }
  }

  /** A canonical trie whose node is stored loads where it belongs. */
  lemma StoredLoads(sha: Hash, nodes: Nodes, edge: Option<byte>, prefix: Bytes, g: Tree)
    requires Shape(g) && Placed(g, prefix) && (edge.Some? ==> Announced(Child(edge.value, g)))
    requires g == EMPTY || (Stored(sha, nodes, g) && Id(sha, g) != EmptyRoot(sha))
    ensures Loaded(sha, nodes, Id(sha, g), edge, prefix, ToNode(sha, g))
  {
    hide DecodeKey, NodeBytes, Id;
    EmptyDenotesNothing(sha);
    IdIsHashOfNode(sha, g);
    ToNodeCanonical(sha, g);
  }

  /** What has been stored is vouched for. */
  lemma StoredIsVouched(sha: Hash, nodes: Nodes, u: Tree)
    requires Stored(sha, nodes, u) && EmptyRootUnused(sha, nodes)
    ensures Vouched(sha, nodes, u)
  {
    hide NodeBytes, Id, ToNode;
  }

  /** Whatever was genuine in a larger store was genuine before. */
  lemma GenuineBefore(sha: Hash, before: Nodes, after: Nodes, t: Tree)
    requires Extends(before, after) && Genuine(sha, after, t)
    ensures Genuine(sha, before, t)
  {
    hide NodeBytes, Id, ToNode, Subtrees;
    forall u | u in Subtrees(t) ensures Vouched(sha, before, u) {
      assert Vouched(sha, after, u);
    }
  }

  /** Whatever the store holds, a trie is genuine unless some stored bytes collide with one of its nodes. */
  lemma GenuineUnlessCollision(sha: Hash, nodes: Nodes, t: Tree)
    requires CollisionFree(sha, Preimages(sha, t) + nodes.Values + {NodeBytes(EMPTY_NODE)})
    ensures Genuine(sha, nodes, t)
  {
    hide Id, NodeBytes, ToNode, Subtrees, Preimages;
    forall u | u in Subtrees(t) ensures Vouched(sha, nodes, u) {
      FormsBelow(sha, t, u);
      IdIsHashOfNode(sha, u);
      if Id(sha, u) in nodes {
        assert nodes[Id(sha, u)] in nodes.Values;
      }
    }
  }
}
