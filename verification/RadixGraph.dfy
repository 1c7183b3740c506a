/**
 * Tries spread over a content-addressed store: which trie a root digest denotes, that it denotes at
 * most one, that growth of the store never changes it, and that it depends on the bindings alone.
 */
module RadixGraph {
  import opened Base
  import opened Names
  import opened RadixKey
  import opened RadixNode
  import opened RadixTree

  type Nodes = map<Digest, Bytes>

  /** The identity of the empty index, which is never read from the store. */
  function EmptyRoot(sha: Hash): Digest {
    sha(NodeBytes(EMPTY_NODE))
  }

  /** Digest of the stored form of a trie. */
  function Id(sha: Hash, t: Tree): Digest {
    sha(NodeBytes(Node(t.lbl, t.binding,
                       seq(|t.kids|, i requires 0 <= i < |t.kids| =>
                         Child(t.kids[i].edge, Id(sha, t.kids[i].target))))))
  }

  /** Child references of the stored form. */
  function Refs(sha: Hash, kids: seq<Child<Tree>>): (r: seq<Child<Digest>>)
    ensures |r| == |kids|
    ensures forall i :: 0 <= i < |kids| ==> r[i] == Child(kids[i].edge, Id(sha, kids[i].target))
  {
    seq(|kids|, i requires 0 <= i < |kids| => Child(kids[i].edge, Id(sha, kids[i].target)))
  }

  function ToNode(sha: Hash, t: Tree): Node {
    Node(t.lbl, t.binding, Refs(sha, t.kids))
  }

  lemma IdIsHashOfNode(sha: Hash, t: Tree)
    ensures Id(sha, t) == sha(NodeBytes(ToNode(sha, t)))
  {
    assert ToNode(sha, t).children
        == seq(|t.kids|, i requires 0 <= i < |t.kids| => Child(t.kids[i].edge, Id(sha, t.kids[i].target)));
  }

  /** Every node of the trie is stored under its digest, and none of them hides behind the empty root. */
  ghost predicate Holds(sha: Hash, nodes: Nodes, t: Tree) {
    && Id(sha, t) != EmptyRoot(sha)
    && Id(sha, t) in nodes
    && nodes[Id(sha, t)] == NodeBytes(ToNode(sha, t))
    && forall i :: 0 <= i < |t.kids| ==> Holds(sha, nodes, t.kids[i].target)
  }

  /** `id` denotes the canonical trie `t`, reached through the key bytes `prefix`. */
  ghost predicate Denotes(sha: Hash, nodes: Nodes, id: Digest, prefix: Bytes, t: Tree) {
    && Shape(t) && Placed(t, prefix)
    && id == Id(sha, t)
    && (t != EMPTY ==> Holds(sha, nodes, t))
  }

  ghost predicate WellFormed(sha: Hash, nodes: Nodes, root: Digest) {
    exists t :: Denotes(sha, nodes, root, [], t)
  }

  ghost function TreeOf(sha: Hash, nodes: Nodes, root: Digest): (t: Tree)
    requires WellFormed(sha, nodes, root)
    ensures Denotes(sha, nodes, root, [], t)
  {
    var t :| Denotes(sha, nodes, root, [], t);
    t
  }

  /** The path-to-binding map of a well-formed root. */
  ghost function Bindings(sha: Hash, nodes: Nodes, root: Digest): map<Bytes, Digest>
    requires WellFormed(sha, nodes, root)
  {
    PathMap(TreeOf(sha, nodes, root))
  }

  /** An append-only step: every stored entry is still there, with the same bytes. */
  ghost predicate Extends(before: Nodes, after: Nodes) {
    forall id :: id in before ==> id in after && after[id] == before[id]
  }

  /** No node other than the empty one is stored under the identity of the empty index. */
  ghost predicate EmptyRootUnused(sha: Hash, nodes: Nodes) {
    EmptyRoot(sha) in nodes ==> nodes[EmptyRoot(sha)] == NodeBytes(EMPTY_NODE)
  }

  lemma ToNodeCanonical(sha: Hash, t: Tree)
    requires Shape(t) && |t.lbl| <= PATH_MAX_BYTES
    ensures Canonical(ToNode(sha, t))
  {
    AscendingFanout(t.kids);
  }

  lemma EmptyDenotesNothing(sha: Hash)
    ensures Id(sha, EMPTY) == EmptyRoot(sha) && ToNode(sha, EMPTY) == EMPTY_NODE
  {
    IdIsHashOfNode(sha, EMPTY);
  }

  // ----- a digest denotes at most one trie -----

  lemma {:induction false} HeldTreeUnique(sha: Hash, nodes: Nodes, t: Tree, u: Tree, p: Bytes, q: Bytes)
    requires Shape(t) && Placed(t, p) && Holds(sha, nodes, t)
    requires Shape(u) && Placed(u, q) && Holds(sha, nodes, u)
    requires Id(sha, t) == Id(sha, u)
    ensures t == u
  {
    hide DecodeKey;
    var m, n := ToNode(sha, t), ToNode(sha, u);
    ToNodeCanonical(sha, t);
    ToNodeCanonical(sha, u);
    NodeBytesInjective(m, n);
    assert |m.children| == |t.kids| && |n.children| == |u.kids|;
    forall i | 0 <= i < |t.kids| ensures t.kids[i] == u.kids[i] {
      assert m.children[i] == n.children[i];
      HeldTreeUnique(sha, nodes, t.kids[i].target, u.kids[i].target, p + t.lbl, q + u.lbl);
    }
    assert t.kids == u.kids;
  }

  lemma DenotedTreeUnique(sha: Hash, nodes: Nodes, id: Digest, p: Bytes, t: Tree, u: Tree)
    requires Denotes(sha, nodes, id, p, t) && Denotes(sha, nodes, id, p, u)
    ensures t == u
  {
    EmptyDenotesNothing(sha);
    if t != EMPTY && u != EMPTY {
      HeldTreeUnique(sha, nodes, t, u, p, p);
    }
  }

  lemma BindingsOf(sha: Hash, nodes: Nodes, root: Digest, t: Tree)
    requires Denotes(sha, nodes, root, [], t)
    ensures WellFormed(sha, nodes, root) && TreeOf(sha, nodes, root) == t
    ensures Bindings(sha, nodes, root) == PathMap(t)
  {
    DenotedTreeUnique(sha, nodes, root, [], t, TreeOf(sha, nodes, root));
  }

  // ----- append-only growth -----

  lemma {:induction false} HoldsGrows(sha: Hash, before: Nodes, after: Nodes, t: Tree)
    requires Extends(before, after) && Holds(sha, before, t)
    ensures Holds(sha, after, t)
  {
    forall i | 0 <= i < |t.kids| ensures Holds(sha, after, t.kids[i].target) {
      HoldsGrows(sha, before, after, t.kids[i].target);
    }
  }

  lemma DenotesGrows(sha: Hash, before: Nodes, after: Nodes, id: Digest, p: Bytes, t: Tree)
    requires Extends(before, after) && Denotes(sha, before, id, p, t)
    ensures Denotes(sha, after, id, p, t)
  {
    if t != EMPTY {
      HoldsGrows(sha, before, after, t);
    }
  }

  /** Persistence: whatever was appended, a well-formed root keeps its bindings. */
  lemma RootsPersist(sha: Hash, before: Nodes, after: Nodes, root: Digest)
    requires Extends(before, after) && WellFormed(sha, before, root)
    ensures WellFormed(sha, after, root)
    ensures Bindings(sha, after, root) == Bindings(sha, before, root)
  {
    var t := TreeOf(sha, before, root);
    DenotesGrows(sha, before, after, root, [], t);
    BindingsOf(sha, after, root, t);
    BindingsOf(sha, before, root, t);
  }

  // ----- the root depends on the bindings, and commits to them -----

  /**
   * History independence: in any two stores, roots with the same bindings are the same digest. No
   * assumption about the hash is needed.
   */
  lemma RootDependsOnBindingsOnly(sha: Hash, nodes: Nodes, root: Digest, nodes': Nodes, root': Digest)
    requires WellFormed(sha, nodes, root) && WellFormed(sha, nodes', root')
    requires Bindings(sha, nodes, root) == Bindings(sha, nodes', root')
    ensures root == root'
  {
    SamePathsSameTree(TreeOf(sha, nodes, root), TreeOf(sha, nodes', root'));
  }

  lemma EmptyRootIsWellFormed(sha: Hash, nodes: Nodes)
    ensures WellFormed(sha, nodes, EmptyRoot(sha)) && Bindings(sha, nodes, EmptyRoot(sha)) == map[]
  {
    EmptyDenotesNothing(sha);
    assert Shape(EMPTY) && Placed(EMPTY, []);
    assert Denotes(sha, nodes, EmptyRoot(sha), [], EMPTY);
    BindingsOf(sha, nodes, EmptyRoot(sha), EMPTY);
    assert PathMap(EMPTY) == map[];
  }

  /** An index without bindings is the empty root. */
  lemma NoBindingsIsEmptyRoot(sha: Hash, nodes: Nodes, root: Digest)
    requires WellFormed(sha, nodes, root)
    ensures Bindings(sha, nodes, root) == map[] <==> root == EmptyRoot(sha)
  {
    EmptyRootIsWellFormed(sha, nodes);
    if Bindings(sha, nodes, root) == map[] {
      RootDependsOnBindingsOnly(sha, nodes, root, nodes, EmptyRoot(sha));
    }
  }

  /** The byte forms hashed to obtain the digest of a trie. */
  function Preimages(sha: Hash, t: Tree): set<Bytes> {
    {NodeBytes(ToNode(sha, t))} + set c, b | c in t.kids && b in Preimages(sha, c.target) :: b
  }

  lemma KidPreimages(sha: Hash, t: Tree, i: nat)
    requires i < |t.kids|
    ensures Preimages(sha, t.kids[i].target) <= Preimages(sha, t)
  {
    var c := t.kids[i];
    assert c in t.kids;
  }

  /** Commitment: unless two of the hashed nodes collide, equal digests mean equal tries. */
  lemma {:induction false} RootCommits(sha: Hash, t: Tree, u: Tree, p: Bytes, q: Bytes)
    requires Shape(t) && Placed(t, p) && Shape(u) && Placed(u, q)
    requires CollisionFree(sha, Preimages(sha, t) + Preimages(sha, u))
    requires Id(sha, t) == Id(sha, u)
    ensures t == u
  {
    hide DecodeKey;
    var m, n := ToNode(sha, t), ToNode(sha, u);
    IdIsHashOfNode(sha, t);
    IdIsHashOfNode(sha, u);
    ToNodeCanonical(sha, t);
    ToNodeCanonical(sha, u);
    NodeBytesInjective(m, n);
    assert |m.children| == |t.kids| && |n.children| == |u.kids|;
    forall i | 0 <= i < |t.kids| ensures t.kids[i] == u.kids[i] {
      assert m.children[i] == n.children[i];
      KidPreimages(sha, t, i);
      KidPreimages(sha, u, i);
      RootCommits(sha, t.kids[i].target, u.kids[i].target, p + t.lbl, q + u.lbl);
    }
    assert t.kids == u.kids;
  }

  /** Two stores agree on the bindings of a root they both hold, unless two of its nodes collide. */
  lemma RootFixesBindings(sha: Hash, nodes: Nodes, nodes': Nodes, root: Digest)
    requires WellFormed(sha, nodes, root) && WellFormed(sha, nodes', root)
    requires CollisionFree(sha, Preimages(sha, TreeOf(sha, nodes, root)) + Preimages(sha, TreeOf(sha, nodes', root)))
    ensures Bindings(sha, nodes, root) == Bindings(sha, nodes', root)
  {
    RootCommits(sha, TreeOf(sha, nodes, root), TreeOf(sha, nodes', root), [], []);
  }
}
