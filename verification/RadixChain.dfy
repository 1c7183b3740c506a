/** The nodes a descent passes, on any store contents: what it must have read, and where it must have stopped. */
module RadixChain {
  import opened Base
  import opened Names
  import opened RadixKey
  import opened RadixNode
  import opened RadixTree
  import opened RadixGraph
  import opened RadixLink
  import opened RadixShare

  /** One node of a descent: the digest followed, the edge taken to it, the key bytes before its label. */
  datatype Visit = Visit(id: Digest, edge: Option<byte>, offset: nat, node: Node)

  ghost predicate Read(sha: Hash, nodes: Nodes, key: Bytes, v: Visit) {
    v.offset <= |key| && Loaded(sha, nodes, v.id, v.edge, key[..v.offset], v.node)
  }

  /** The label of the node lies ahead in the key. */
  predicate Passes(key: Bytes, v: Visit) {
    v.offset <= |key| && v.node.lbl <= key[v.offset..]
  }

  function Past(v: Visit): nat {
    v.offset + |v.node.lbl|
  }

  /** The child under the next key byte is `id`. */
  predicate LeadsTo(key: Bytes, v: Visit, id: Digest, edge: Option<byte>, offset: nat) {
    && Passes(key, v) && Past(v) < |key|
    && offset == Past(v) && edge == Some(key[offset]) && Child(key[offset], id) in v.node.children
  }

  /** The label leaves the key, the key is used up, or the node has no child under the next byte. */
  predicate Stops(key: Bytes, v: Visit) {
    Passes(key, v) && Past(v) < |key| ==> forall c :: c in v.node.children ==> c.edge != key[Past(v)]
  }

  /** A descent that arrives at the given reference. */
  ghost predicate Approach(sha: Hash, nodes: Nodes, root: Digest, key: Bytes, vs: seq<Visit>,
                           id: Digest, edge: Option<byte>, offset: nat)
  {
    && (forall i :: 0 <= i < |vs| ==> Read(sha, nodes, key, vs[i]))
    && (forall i :: 0 <= i < |vs| - 1 ==> LeadsTo(key, vs[i], vs[i + 1].id, vs[i + 1].edge, vs[i + 1].offset))
    && if vs == [] then id == root && edge == None && offset == 0
       else Starts(root, vs[0]) && LeadsTo(key, vs[|vs| - 1], id, edge, offset)
  }

  predicate Starts(root: Digest, v: Visit) {
    v.id == root && v.edge == None && v.offset == 0
  }

  /** A complete descent: from the root, through every node on the way of the key, to where it stops. */
  ghost predicate Chain(sha: Hash, nodes: Nodes, root: Digest, key: Bytes, vs: seq<Visit>) {
    && vs != [] && Starts(root, vs[0]) && Stops(key, vs[|vs| - 1])
    && (forall i :: 0 <= i < |vs| ==> Read(sha, nodes, key, vs[i]))
    && (forall i :: 0 <= i < |vs| - 1 ==> LeadsTo(key, vs[i], vs[i + 1].id, vs[i + 1].edge, vs[i + 1].offset))
  }

  /** A descent that comes to a stored node which fails the checks of a load. */
  ghost predicate Broken(sha: Hash, nodes: Nodes, root: Digest, key: Bytes, e: CodecError) {
    exists vs, id, edge, offset :: Breaks(sha, nodes, root, key, e, vs, id, edge, offset)
  }

  ghost predicate Breaks(sha: Hash, nodes: Nodes, root: Digest, key: Bytes, e: CodecError, vs: seq<Visit>,
                         id: Digest, edge: Option<byte>, offset: nat)
  {
    && offset <= |key| && Approach(sha, nodes, root, key, vs, id, edge, offset)
    && Available(sha, nodes, id) && Fetch(sha, nodes, id, edge, key[..offset]) == Err(e)
  }

  /** A descent that comes to a node the store does not have. */
  ghost predicate Missing(sha: Hash, nodes: Nodes, root: Digest, key: Bytes) {
    exists vs, id, edge, offset :: Misses(sha, nodes, root, key, vs, id, edge, offset)
  }

  ghost predicate Misses(sha: Hash, nodes: Nodes, root: Digest, key: Bytes, vs: seq<Visit>,
                         id: Digest, edge: Option<byte>, offset: nat)
  {
    Approach(sha, nodes, root, key, vs, id, edge, offset) && !Available(sha, nodes, id)
  }

  // ----- one node at a time -----

  lemma ChildFound(node: Node, edge: byte, id: Digest)
    requires Canonical(node)
    ensures Child(edge, id) in node.children <==> FindChild(node.children, edge) == Some(id)
  {
    if Child(edge, id) in node.children {
      var i :| 0 <= i < |node.children| && node.children[i] == Child(edge, id);
      FindAt(node.children, i);
    }
  }

  lemma ReadCanonical(sha: Hash, nodes: Nodes, key: Bytes, v: Visit)
    requires Read(sha, nodes, key, v)
    ensures Canonical(v.node)
  {
    hide DecodeKey, NodeBytes;
  }

  /** The next node read extends the descent. */
  lemma ApproachRead(sha: Hash, nodes: Nodes, root: Digest, key: Bytes, vs: seq<Visit>, v: Visit)
    requires Approach(sha, nodes, root, key, vs, v.id, v.edge, v.offset) && Read(sha, nodes, key, v)
    ensures Stops(key, v) ==> Chain(sha, nodes, root, key, vs + [v])
    ensures forall id, edge, offset :: LeadsTo(key, v, id, edge, offset) ==>
              Approach(sha, nodes, root, key, vs + [v], id, edge, offset)
  {
    hide Read, LeadsTo, Stops;
    var ws := vs + [v];
    assert forall i :: 0 <= i < |vs| ==> ws[i] == vs[i];
  }

  /** Two descents with the same key over the same store pass the same nodes. */
  lemma {:induction false} ChainAgrees(sha: Hash, nodes: Nodes, root: Digest, key: Bytes, all: seq<Visit>,
                                       vs: seq<Visit>, id: Digest, edge: Option<byte>, offset: nat)
    requires Chain(sha, nodes, root, key, all) && Approach(sha, nodes, root, key, vs, id, edge, offset)
    ensures |vs| < |all| && all[..|vs|] == vs
    ensures all[|vs|].id == id && all[|vs|].edge == edge && all[|vs|].offset == offset
    decreases |vs|
  {
    hide Chain, Approach, LeadsTo, Read;
    if vs == [] {
      BothStart(sha, nodes, root, key, all, id, edge, offset);
    } else {
      var n := |vs| - 1;
      var v := vs[n];
      ApproachInit(sha, nodes, root, key, vs, id, edge, offset);
      ChainAgrees(sha, nodes, root, key, all, vs[..n], v.id, v.edge, v.offset);
      ChainReads(sha, nodes, root, key, all, n);
      SameVisit(sha, nodes, key, all[n], v);
      GoesOn(sha, nodes, root, key, all, n, id, edge, offset);
      assert vs == vs[..n] + [v] && all[..n + 1] == all[..n] + [all[n]];
    }
  }

  lemma BothStart(sha: Hash, nodes: Nodes, root: Digest, key: Bytes, all: seq<Visit>,
                  id: Digest, edge: Option<byte>, offset: nat)
    requires Chain(sha, nodes, root, key, all) && Approach(sha, nodes, root, key, [], id, edge, offset)
    ensures all != [] && all[0].id == id && all[0].edge == edge && all[0].offset == offset
  {
    hide Read, LeadsTo, Stops;
  }

  lemma ApproachInit(sha: Hash, nodes: Nodes, root: Digest, key: Bytes, vs: seq<Visit>,
                     id: Digest, edge: Option<byte>, offset: nat)
    requires vs != [] && Approach(sha, nodes, root, key, vs, id, edge, offset)
    ensures var n := |vs| - 1; var v := vs[n];
            && Approach(sha, nodes, root, key, vs[..n], v.id, v.edge, v.offset)
            && Read(sha, nodes, key, v) && LeadsTo(key, v, id, edge, offset)
  {
    hide Read, LeadsTo;
    var n := |vs| - 1;
    if n > 0 {
      assert LeadsTo(key, vs[n - 1], vs[n].id, vs[n].edge, vs[n].offset);
    }
  }

  lemma SameVisit(sha: Hash, nodes: Nodes, key: Bytes, v: Visit, w: Visit)
    requires Read(sha, nodes, key, v) && Read(sha, nodes, key, w)
    requires v.id == w.id && v.edge == w.edge && v.offset == w.offset
    ensures v == w
  {
    hide Loaded;
    LoadedUnique(sha, nodes, v.id, v.edge, key[..v.offset], v.node, w.node);
  }

  lemma GoesOn(sha: Hash, nodes: Nodes, root: Digest, key: Bytes, all: seq<Visit>, n: nat,
               id: Digest, edge: Option<byte>, offset: nat)
    requires Chain(sha, nodes, root, key, all) && n < |all| && LeadsTo(key, all[n], id, edge, offset)
    ensures n + 1 < |all| && all[n + 1].id == id && all[n + 1].edge == edge && all[n + 1].offset == offset
  {
    hide Loaded;
    var c := Child(key[offset], id);
    assert c in all[n].node.children;
    if n + 1 < |all| {
      var w := all[n + 1];
      assert LeadsTo(key, all[n], w.id, w.edge, w.offset);
      assert Read(sha, nodes, key, all[n]);
      ReadCanonical(sha, nodes, key, all[n]);
      ChildFound(all[n].node, key[offset], id);
      ChildFound(all[n].node, key[offset], w.id);
    }
  }

  /** A complete descent comes to no broken and no missing node. */
  lemma ChainNotBroken(sha: Hash, nodes: Nodes, root: Digest, key: Bytes, all: seq<Visit>)
    requires Chain(sha, nodes, root, key, all)
    ensures forall e :: !Broken(sha, nodes, root, key, e)
    ensures !Missing(sha, nodes, root, key)
  {
    hide Chain, Approach, Fetch, Loaded, Available;
    forall e ensures !Broken(sha, nodes, root, key, e) {
      if Broken(sha, nodes, root, key, e) {
        var vs, id, edge, offset: nat :| Breaks(sha, nodes, root, key, e, vs, id, edge, offset);
        ChainFetches(sha, nodes, root, key, all, vs, id, edge, offset);
      }
    }
    if Missing(sha, nodes, root, key) {
      var vs, id, edge, offset: nat :| Misses(sha, nodes, root, key, vs, id, edge, offset);
      ChainFetches(sha, nodes, root, key, all, vs, id, edge, offset);
    }
  }

  lemma ChainFetches(sha: Hash, nodes: Nodes, root: Digest, key: Bytes, all: seq<Visit>, vs: seq<Visit>,
                     id: Digest, edge: Option<byte>, offset: nat)
    requires Chain(sha, nodes, root, key, all) && Approach(sha, nodes, root, key, vs, id, edge, offset)
    ensures offset <= |key| && Available(sha, nodes, id) && Fetch(sha, nodes, id, edge, key[..offset]).Ok?
  {
    hide Chain, Approach, Fetch, Loaded, Available;
    ChainAgrees(sha, nodes, root, key, all, vs, id, edge, offset);
    ChainReads(sha, nodes, root, key, all, |vs|);
    FetchMeans(sha, nodes, id, edge, key[..offset], all[|vs|].node);
  }

  lemma ChainReads(sha: Hash, nodes: Nodes, root: Digest, key: Bytes, all: seq<Visit>, n: nat)
    requires Chain(sha, nodes, root, key, all) && n < |all|
    ensures Read(sha, nodes, key, all[n])
  {
    hide Read;
  }

  /** There is one complete descent at most. */
  lemma ChainUnique(sha: Hash, nodes: Nodes, root: Digest, key: Bytes, all: seq<Visit>, vs: seq<Visit>)
    requires Chain(sha, nodes, root, key, all) && Chain(sha, nodes, root, key, vs)
    ensures all == vs
  {
    hide Chain, Approach, Read, LeadsTo, Stops;
    ChainSplits(sha, nodes, root, key, vs);
    ChainSplits(sha, nodes, root, key, all);
    var n := |vs| - 1;
    var v := vs[n];
    ChainAgrees(sha, nodes, root, key, all, vs[..n], v.id, v.edge, v.offset);
    ChainAgrees(sha, nodes, root, key, vs, all[..|all| - 1], all[|all| - 1].id, all[|all| - 1].edge,
                all[|all| - 1].offset);
    ChainReads(sha, nodes, root, key, all, n);
    SameVisit(sha, nodes, key, all[n], v);
    assert all == all[..n] + [all[n]] && vs == vs[..n] + [v];
  }

  lemma ChainSplits(sha: Hash, nodes: Nodes, root: Digest, key: Bytes, vs: seq<Visit>)
    requires Chain(sha, nodes, root, key, vs)
    ensures vs != []
    ensures var n := |vs| - 1; var v := vs[n];
            && Approach(sha, nodes, root, key, vs[..n], v.id, v.edge, v.offset)
            && Read(sha, nodes, key, v) && Stops(key, v)
  {
    hide Read, Stops, LeadsTo;
    var n := |vs| - 1;
    if n > 0 {
      assert LeadsTo(key, vs[n - 1], vs[n].id, vs[n].edge, vs[n].offset);
    }
  }

  // ----- what a walk answers -----

  /** The key of the node is a prefix of the query, and bound. */
  predicate BoundAt(key: Bytes, v: Visit) {
    Passes(key, v) && v.node.binding.Some?
  }

  /** The binding of a visited node, under the path that its key decodes to. */
  predicate BoundAs(key: Bytes, v: Visit, path: Bytes, binding: Digest) {
    BoundAt(key, v) && v.node.binding == Some(binding) && DecodeKey(key[..Past(v)]) == Ok(path)
  }

  /** The last bound node of the descent. */
  ghost predicate LastBound(key: Bytes, vs: seq<Visit>, answer: Option<(Bytes, Digest)>) {
    match answer
    case None => forall i :: 0 <= i < |vs| ==> !BoundAt(key, vs[i])
    case Some((path, binding)) =>
      exists i :: 0 <= i < |vs| && BoundAs(key, vs[i], path, binding) && NoneBoundAfter(key, vs, i)
  }

  ghost predicate NoneBoundAfter(key: Bytes, vs: seq<Visit>, i: nat) {
    forall j :: i < j < |vs| ==> !BoundAt(key, vs[j])
  }

  /** The binding of a node, if its key is the whole query. */
  function OwnAt(key: Bytes, node: Node, offset: nat): Option<Digest> {
    if offset <= |key| && node.lbl == key[offset..] then node.binding else None
  }

  /** The binding that the last node of a descent has for the whole key. */
  function OwnEnd(key: Bytes, vs: seq<Visit>): Option<Digest> {
    if vs == [] then None else OwnAt(key, vs[|vs| - 1].node, vs[|vs| - 1].offset)
  }

  function OwnBinding(key: Bytes, path: Bytes, v: Visit): Option<(Bytes, Digest)> {
    match OwnAt(key, v.node, v.offset)
    case None => None
    case Some(b) => Some((path, b))
  }

  /** The answer that a complete descent gives. */
  ghost predicate ChainAnswer(key: Bytes, path: Bytes, vs: seq<Visit>, ancestors: bool, answer: Option<(Bytes, Digest)>)
    requires vs != []
  {
    if ancestors then LastBound(key, vs, answer) else answer == OwnBinding(key, path, vs[|vs| - 1])
  }

  lemma LastBoundGrows(key: Bytes, vs: seq<Visit>, v: Visit, before: Option<(Bytes, Digest)>,
                       after: Option<(Bytes, Digest)>)
    requires LastBound(key, vs, before)
    requires if BoundAt(key, v) then after.Some? && BoundAs(key, v, after.value.0, after.value.1) else after == before
    ensures LastBound(key, vs + [v], after)
  {
    hide BoundAs, BoundAt;
    var ws := vs + [v];
    assert forall i :: 0 <= i < |vs| ==> ws[i] == vs[i];
    if BoundAt(key, v) {
      assert BoundAs(key, ws[|vs|], after.value.0, after.value.1) && NoneBoundAfter(key, ws, |vs|);
    } else if before.Some? {
      var i :| 0 <= i < |vs| && BoundAs(key, vs[i], before.value.0, before.value.1) && NoneBoundAfter(key, vs, i);
      assert BoundAs(key, ws[i], after.value.0, after.value.1);
      assert NoneBoundAfter(key, ws, i);
    }
  }

  /** A path of the query's own length can only be the query's own. */
  lemma OwnIsLast(key: Bytes, path: Bytes, vs: seq<Visit>, found: Option<(Bytes, Digest)>)
    requires vs != [] && EncodeKey(path) == Ok(key) && LastBound(key, vs, found)
    requires forall i :: 0 <= i < |vs| ==> vs[i].offset <= |key|
    requires forall i :: 0 <= i < |vs| - 1 ==> Past(vs[i]) < |key|
    ensures OwnBinding(key, path, vs[|vs| - 1]) == if found.Some? && found.value.0 == path then found else None
  {
    hide DecodeKey, EncodeKey;
    var v := vs[|vs| - 1];
    if found.Some? {
      var i :| 0 <= i < |vs| && BoundAs(key, vs[i], found.value.0, found.value.1) && NoneBoundAfter(key, vs, i);
      KeyCodecInverse(found.value.0, key[..Past(vs[i])]);
      KeyCodecInverse(path, key);
      assert key[..|key|] == key;
      if BoundAt(key, v) {
        assert i == |vs| - 1;
      }
    } else {
      assert !BoundAt(key, v);
    }
  }
}
