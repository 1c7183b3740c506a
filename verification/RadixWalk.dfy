/** What a walk down a held trie finds: the longest bound ancestor of a path, and the path's own binding. */
module RadixWalk {
  import opened Base
  import opened Names
  import opened RadixKey
  import opened RadixNode
  import opened RadixTree
  import opened RadixGraph
  import opened RadixLink
  import opened RadixChain
  import opened RadixShare

  /** `found` is the longest key shorter than `limit`, among the prefixes of `key`, that the trie binds. */
  ghost predicate Longest(t: Tree, key: Bytes, limit: nat, found: Option<(Bytes, Digest)>)
    requires limit <= |key| + 1
  {
    match found
    case None => forall n :: 0 <= n < limit ==> Lookup(t, key[..n]) == None
    case Some((path, binding)) =>
      exists n :: 0 <= n < limit && FoundAt(t, key, n, path, binding)
                  && forall m :: n < m < limit ==> Lookup(t, key[..m]) == None
  }

  ghost predicate FoundAt(t: Tree, key: Bytes, n: nat, path: Bytes, binding: Digest)
    requires n <= |key|
  {
    DecodeKey(key[..n]) == Ok(path) && Lookup(t, key[..n]) == Some(binding)
  }

  /** The bound path with the most components among the ancestors-or-self of `path`. */
  ghost predicate LongestAncestor(m: map<Bytes, Digest>, path: Bytes, found: Option<(Bytes, Digest)>) {
    match found
    case None => forall q :: q in m ==> !(Components(q) <= Components(path))
    case Some((p, binding)) =>
      && p in m && m[p] == binding && Components(p) <= Components(path)
      && forall q :: q in m && Components(q) <= Components(path) ==> |Components(q)| <= |Components(p)|
  }

  /** The part of the query that is still ahead is looked up in the current subtree. */
  ghost predicate Ahead(t: Tree, cur: Tree, key: Bytes, offset: nat, from: nat)
    requires offset <= from
  {
    forall n :: from <= n <= |key| ==> Lookup(t, key[..n]) == Lookup(cur, key[offset..n])
  }

  /** Longer prefixes without a binding change nothing. */
  lemma LongestExtends(t: Tree, key: Bytes, from: nat, to: nat, found: Option<(Bytes, Digest)>)
    requires from <= to <= |key| + 1 && Longest(t, key, from, found)
    requires forall n :: from <= n < to ==> Lookup(t, key[..n]) == None
    ensures Longest(t, key, to, found)
  {
    hide Lookup, FoundAt;
    if found.Some? {
      var n :| 0 <= n < from && FoundAt(t, key, n, found.value.0, found.value.1)
               && forall m :: n < m < from ==> Lookup(t, key[..m]) == None;
      assert forall m :: n < m < to ==> Lookup(t, key[..m]) == None;
    }
  }

  /** One more node passed: its own key is recorded if bound, and nothing else was bound on the way. */
  lemma LongestStep(t: Tree, cur: Tree, key: Bytes, offset: nat, from: nat,
                    found: Option<(Bytes, Digest)>, found': Option<(Bytes, Digest)>)
    requires offset <= from <= offset + 1 && offset + |cur.lbl| <= |key| && from <= offset + |cur.lbl|
    requires Longest(t, key, from, found) && Ahead(t, cur, key, offset, from)
    requires cur.lbl <= key[offset..]
    requires match cur.binding {
               case None => found' == found
               case Some(b) => found'.Some? && found'.value.1 == b
                               && DecodeKey(key[..offset + |cur.lbl|]) == Ok(found'.value.0)
             }
    ensures Longest(t, key, offset + |cur.lbl| + 1, found')
  {
    hide DecodeKey, Longest;
    var next := offset + |cur.lbl|;
    assert key[offset..next] == cur.lbl;
    forall n | from <= n < next ensures Lookup(t, key[..n]) == None {
      assert Lookup(t, key[..n]) == Lookup(cur, key[offset..n]);
      assert |key[offset..n]| < |cur.lbl|;
    }
    assert Lookup(t, key[..next]) == cur.binding;
    if cur.binding.Some? {
      LongestHere(t, key, next, found'.value.0, found'.value.1);
    } else {
      LongestExtends(t, key, from, next + 1, found);
    }
  }

  lemma LongestHere(t: Tree, key: Bytes, n: nat, path: Bytes, binding: Digest)
    requires n <= |key| && DecodeKey(key[..n]) == Ok(path) && Lookup(t, key[..n]) == Some(binding)
    ensures Longest(t, key, n + 1, Some((path, binding)))
  {
    hide DecodeKey, Lookup;
    assert FoundAt(t, key, n, path, binding);
  }

  /** Nothing further is bound once the label or the edge is missing. */
  lemma LongestStop(t: Tree, cur: Tree, key: Bytes, offset: nat, from: nat, found: Option<(Bytes, Digest)>)
    requires offset <= from <= |key| + 1
    requires Longest(t, key, from, found) && Ahead(t, cur, key, offset, from)
    requires forall n :: from <= n <= |key| ==> Lookup(cur, key[offset..n]) == None
    ensures Longest(t, key, |key| + 1, found)
  {
    hide Lookup, Longest;
    forall n | from <= n <= |key| ensures Lookup(t, key[..n]) == None {
      assert Lookup(t, key[..n]) == Lookup(cur, key[offset..n]);
    }
    LongestExtends(t, key, from, |key| + 1, found);
  }

  /** Descending keeps the correspondence. */
  lemma AheadStep(t: Tree, cur: Tree, key: Bytes, offset: nat, from: nat, next: nat, c: Tree)
    requires offset <= from <= next + 1
    requires Ahead(t, cur, key, offset, from)
    requires next == offset + |cur.lbl| < |key| && cur.lbl <= key[offset..]
    requires FindChild(cur.kids, key[next]) == Some(c)
    ensures Ahead(t, c, key, next, next + 1)
  {
    hide FindChild;
    forall n | next + 1 <= n <= |key| ensures Lookup(t, key[..n]) == Lookup(c, key[next..n]) {
      var k := key[offset..n];
      assert Lookup(t, key[..n]) == Lookup(cur, k);
      assert cur.lbl <= k && |k| > |cur.lbl|;
      assert k[|cur.lbl|..] == key[next..n] && key[next..n][0] == key[next];
    }
  }

  lemma NoChildAhead(cur: Tree, key: Bytes, offset: nat, n: nat)
    requires offset + |cur.lbl| < n <= |key| && cur.lbl <= key[offset..]
    requires FindChild(cur.kids, key[offset + |cur.lbl|]) == None
    ensures Lookup(cur, key[offset..n]) == None
  {
    var k := key[offset..n];
    assert k[|cur.lbl|..][0] == key[offset + |cur.lbl|];
  }

  /** The longest bound key prefix is the bound ancestor with the most components. */
  lemma LongestIsAncestor(t: Tree, path: Bytes, found: Option<(Bytes, Digest)>)
    requires Shape(t) && EncodeKey(path).Ok?
    requires Longest(t, EncodeKey(path).value, |EncodeKey(path).value| + 1, found)
    ensures LongestAncestor(PathMap(t), path, found)
  {
    hide DecodeKey, EncodeKey, PathMap;
    var key := EncodeKey(path).value;
    match found
    case None =>
      forall q | q in PathMap(t) ensures !(Components(q) <= Components(path)) {
        AncestorKeyLength(t, path, q, -1);
      }
    case Some((p, binding)) =>
      var n :| 0 <= n <= |key| && FoundAt(t, key, n, p, binding)
               && forall m :: n < m < |key| + 1 ==> Lookup(t, key[..m]) == None;
      KeyCodecInverse(p, key[..n]);
      PathMapMeans(t, p);
      KeyPrefixIsAncestor(p, path);
      forall q | q in PathMap(t) && Components(q) <= Components(path)
        ensures |Components(q)| <= |Components(p)|
      {
        AncestorKeyLength(t, path, q, n);
        ShorterKeyFewerComponents(path, q, p);
      }
  }

  /** No bound ancestor has a key longer than the longest bound prefix. */
  lemma AncestorKeyLength(t: Tree, path: Bytes, q: Bytes, n: int)
    requires Shape(t) && EncodeKey(path).Ok? && q in PathMap(t) && -1 <= n
    requires forall m :: n < m <= |EncodeKey(path).value| ==> Lookup(t, EncodeKey(path).value[..m]) == None
    ensures Components(q) <= Components(path) ==> EncodeKey(q).Ok? && |EncodeKey(q).value| <= n
  {
    hide DecodeKey, EncodeKey, PathMap;
    if Components(q) <= Components(path) {
      AncestorIsPrefix(t, path, q);
    }
  }

  ghost predicate BoundAncestor(t: Tree, path: Bytes, q: Bytes)
    requires EncodeKey(path).Ok?
  {
    && EncodeKey(q).Ok?
    && EncodeKey(q).value <= EncodeKey(path).value
    && Lookup(t, EncodeKey(path).value[..|EncodeKey(q).value|]).Some?
  }

  lemma AncestorIsPrefix(t: Tree, path: Bytes, q: Bytes)
    requires Shape(t) && EncodeKey(path).Ok? && q in PathMap(t) && Components(q) <= Components(path)
    ensures BoundAncestor(t, path, q)
  {
    hide DecodeKey, EncodeKey;
    PathMapMeans(t, q);
    KeyPrefixIsAncestor(q, path);
    assert EncodeKey(path).value[..|EncodeKey(q).value|] == EncodeKey(q).value;
  }

  /** Among the ancestors of one path, a key that is not longer has no more components. */
  lemma ShorterKeyFewerComponents(path: Bytes, q: Bytes, p: Bytes)
    requires EncodeKey(path).Ok? && EncodeKey(q).Ok? && EncodeKey(p).Ok?
    requires Components(q) <= Components(path) && Components(p) <= Components(path)
    requires |EncodeKey(q).value| <= |EncodeKey(p).value|
    ensures |Components(q)| <= |Components(p)|
  {
    hide EncodeKey;
    EncodeKeyIsKeyOf(q);
    EncodeKeyIsKeyOf(p);
    if |Components(p)| < |Components(q)| {
      KeyLengthGrows(Components(p), Components(q));
    }
  }

  /** The answer of a walk: the longest bound ancestor, or the path's own binding. */
  ghost predicate WalkAnswer(m: map<Bytes, Digest>, path: Bytes, ancestors: bool, answer: Option<(Bytes, Digest)>) {
    if ancestors then LongestAncestor(m, path, answer) else answer == Own(m, path)
  }

  /** The path's own binding. */
  function Own(m: map<Bytes, Digest>, path: Bytes): Option<(Bytes, Digest)> {
    if path in m then Some((path, m[path])) else None
  }

  /** The state of a walk over a trie, on arrival at the node `cur`; the store may be partial or corrupt. */
  ghost predicate InWalk(sha: Hash, nodes: Nodes, t: Tree, key: Bytes, id: Digest, edge: Option<byte>,
                         offset: nat, cur: Tree, found: Option<(Bytes, Digest)>)
  {
    && Arrived(key, edge, offset)
    && Traced(sha, nodes, id, edge, key[..offset], cur)
    && Ahead(t, cur, key, offset, From(edge, offset))
    && Longest(t, key, From(edge, offset), found)
  }

  lemma WalkStarts(sha: Hash, nodes: Nodes, root: Digest, t: Tree, key: Bytes)
    requires Traced(sha, nodes, root, None, [], t)
    ensures InWalk(sha, nodes, t, key, root, None, 0, t, None)
  {
    hide Traced;
    assert forall n :: 0 <= n <= |key| ==> key[0..n] == key[..n];
    assert key[..0] == [];
  }

  lemma WalkLoads(sha: Hash, nodes: Nodes, t: Tree, key: Bytes, id: Digest, edge: Option<byte>,
                  offset: nat, cur: Tree, found: Option<(Bytes, Digest)>, node: Node)
    requires InWalk(sha, nodes, t, key, id, edge, offset, cur, found)
    requires offset <= |key| && Loaded(sha, nodes, id, edge, key[..offset], node)
    ensures node == ToNode(sha, cur)
  {
    hide Traced, Loaded, Ahead, Longest;
    LoadedIsTraced(sha, nodes, id, edge, key[..offset], cur, node);
  }

  /** The label is not ahead in the query: nothing below is an ancestor. */
  lemma WalkMisses(sha: Hash, nodes: Nodes, t: Tree, key: Bytes, id: Digest, edge: Option<byte>,
                   offset: nat, cur: Tree, found: Option<(Bytes, Digest)>)
    requires InWalk(sha, nodes, t, key, id, edge, offset, cur, found) && !(cur.lbl <= key[offset..])
    ensures Longest(t, key, |key| + 1, found) && Lookup(t, key) == None
  {
    var from := From(edge, offset);
    forall n | from <= n <= |key| ensures Lookup(cur, key[offset..n]) == None {
      assert key[offset..n] <= key[offset..];
    }
    LongestStop(t, cur, key, offset, from, found);
    assert key[..|key|] == key && Lookup(t, key[..|key|]) == Lookup(cur, key[offset..|key|]);
  }

  /** The label is passed; the node's own key is recorded if it is bound. */
  lemma WalkPasses(sha: Hash, nodes: Nodes, t: Tree, key: Bytes, id: Digest, edge: Option<byte>, offset: nat,
                   cur: Tree, found: Option<(Bytes, Digest)>, found': Option<(Bytes, Digest)>)
    requires InWalk(sha, nodes, t, key, id, edge, offset, cur, found) && cur.lbl <= key[offset..]
    requires match cur.binding {
               case None => found' == found
               case Some(b) => found'.Some? && found'.value.1 == b
                               && DecodeKey(key[..offset + |cur.lbl|]) == Ok(found'.value.0)
             }
    ensures offset + |cur.lbl| <= |key| && Longest(t, key, offset + |cur.lbl| + 1, found')
  {
    hide DecodeKey, Longest;
    LongestStep(t, cur, key, offset, From(edge, offset), found, found');
  }

  /** There is no child under the next byte: nothing further is an ancestor. */
  lemma WalkEnds(sha: Hash, nodes: Nodes, t: Tree, key: Bytes, id: Digest, edge: Option<byte>, offset: nat,
                 cur: Tree, found: Option<(Bytes, Digest)>, found': Option<(Bytes, Digest)>)
    requires InWalk(sha, nodes, t, key, id, edge, offset, cur, found)
    requires cur.lbl <= key[offset..] && offset + |cur.lbl| < |key|
    requires Longest(t, key, offset + |cur.lbl| + 1, found')
    requires FindChild(Refs(sha, cur.kids), key[offset + |cur.lbl|]) == None
    ensures Longest(t, key, |key| + 1, found') && Lookup(t, key) == None
  {
    hide Longest;
    var next := offset + |cur.lbl|;
    FindOfRefs(sha, cur.kids, key[next]);
    forall n | next < n <= |key| ensures Lookup(t, key[..n]) == None {
      NoChildAhead(cur, key, offset, n);
      assert Lookup(t, key[..n]) == Lookup(cur, key[offset..n]);
    }
    assert key[..|key|] == key;
    LongestExtends(t, key, next + 1, |key| + 1, found');
  }

  lemma WalkDescends(sha: Hash, nodes: Nodes, t: Tree, key: Bytes, id: Digest, edge: Option<byte>, offset: nat,
                     cur: Tree, next: nat, id': Digest, found: Option<(Bytes, Digest)>, found': Option<(Bytes, Digest)>)
    returns (c: Tree)
    requires InWalk(sha, nodes, t, key, id, edge, offset, cur, found)
    requires cur.lbl <= key[offset..] && next == offset + |cur.lbl| < |key|
    requires Longest(t, key, next + 1, found')
    requires FindChild(Refs(sha, cur.kids), key[next]) == Some(id')
    ensures InWalk(sha, nodes, t, key, id', Some(key[next]), next, c, found')
    ensures FindChild(cur.kids, key[next]) == Some(c) && id' == Id(sha, c)
  {
    hide DecodeKey, Longest, Ahead, Traced, Lookup, FindChild, Id;
    FindOfRefs(sha, cur.kids, key[next]);
    c := FindChild(cur.kids, key[next]).value;
    DescendTraced(sha, nodes, id, edge, key[..offset], cur, key[next]);
    assert key[..offset] + cur.lbl == key[..next];
    AheadStep(t, cur, key, offset, From(edge, offset), next, c);
  }

  /** What a finished walk has found, in terms of the path map. */
  lemma WalkFinishes(t: Tree, path: Bytes, ancestors: bool, found: Option<(Bytes, Digest)>)
    requires Shape(t) && EncodeKey(path).Ok?
    requires Longest(t, EncodeKey(path).value, |EncodeKey(path).value| + 1, found)
    ensures WalkAnswer(PathMap(t), path, ancestors,
                       if found.Some? && (ancestors || found.value.0 == path) then found else None)
    ensures Lookup(t, EncodeKey(path).value) == None ==>
              WalkAnswer(PathMap(t), path, ancestors, if ancestors then found else None)
  {
    hide DecodeKey, EncodeKey, PathMap, LongestAncestor, Longest, Lookup;
    LongestIsAncestor(t, path, found);
    LongestIsOwn(t, path, found);
    PathMapMeans(t, path);
  }

  /** The longest bound prefix is the path itself exactly when the path is bound. */
  lemma LongestIsOwn(t: Tree, path: Bytes, found: Option<(Bytes, Digest)>)
    requires Shape(t) && EncodeKey(path).Ok?
    requires Longest(t, EncodeKey(path).value, |EncodeKey(path).value| + 1, found)
    ensures Own(PathMap(t), path) == if found.Some? && found.value.0 == path then found else None
  {
    hide DecodeKey, EncodeKey, PathMap;
    var key := EncodeKey(path).value;
    PathMapMeans(t, path);
    assert key[..|key|] == key;
    if found.Some? {
      var (p, binding) := found.value;
      var n :| 0 <= n <= |key| && FoundAt(t, key, n, p, binding)
               && forall m :: n < m < |key| + 1 ==> Lookup(t, key[..m]) == None;
      KeyCodecInverse(p, key[..n]);
      KeyCodecInverse(path, key);
    }
  }

  // ----- whole descents over a trie -----

  /** A descent over a traced trie goes through its nodes, and the last bound one is the longest so far. */
  lemma {:induction false} WalkApproach(sha: Hash, nodes: Nodes, root: Digest, t: Tree, key: Bytes, vs: seq<Visit>,
                                        id: Digest, edge: Option<byte>, offset: nat)
    returns (cur: Tree, found: Option<(Bytes, Digest)>)
    requires Traced(sha, nodes, root, None, [], t) && Approach(sha, nodes, root, key, vs, id, edge, offset)
    ensures InWalk(sha, nodes, t, key, id, edge, offset, cur, found) && LastBound(key, vs, found)
    decreases |vs|
  {
    hide Traced, Read, InWalk, LastBound, Loaded, DecodeKey;
    if vs == [] {
      cur, found := t, None;
      WalkStarts(sha, nodes, root, t, key);
      NoneBound(key);
    } else {
      var n := |vs| - 1;
      var v := vs[n];
      ApproachInit(sha, nodes, root, key, vs, id, edge, offset);
      var cur0, found0 := WalkApproach(sha, nodes, root, t, key, vs[..n], v.id, v.edge, v.offset);
      found := WalkStep(sha, nodes, t, key, vs[..n], v, cur0, found0);
      cur := WalkOn(sha, nodes, t, key, v, cur0, found0, found, id, edge, offset);
      assert vs == vs[..n] + [v];
    }
  }

  lemma NoneBound(key: Bytes)
    ensures LastBound(key, [], None)
  {
  }

  /** What is found once a node has been read. */
  lemma WalkStep(sha: Hash, nodes: Nodes, t: Tree, key: Bytes, vs: seq<Visit>, v: Visit, cur: Tree,
                 before: Option<(Bytes, Digest)>)
    returns (after: Option<(Bytes, Digest)>)
    requires InWalk(sha, nodes, t, key, v.id, v.edge, v.offset, cur, before) && LastBound(key, vs, before)
    requires Read(sha, nodes, key, v)
    ensures LastBound(key, vs + [v], after) && v.node == ToNode(sha, cur)
    ensures Passes(key, v) ==> Past(v) <= |key| && Longest(t, key, Past(v) + 1, after)
    ensures !Passes(key, v) ==> after == before
  {
    hide InWalk, LastBound, DecodeKey, Longest, Loaded, Id;
    WalkLoads(sha, nodes, t, key, v.id, v.edge, v.offset, cur, before, v.node);
    after := before;
    if Passes(key, v) {
      LoadedDecodes(sha, nodes, v.id, v.edge, key, v.offset, v.node);
      if v.node.binding.Some? {
        after := Some((DecodeKey(key[..Past(v)]).value, v.node.binding.value));
      }
      WalkPasses(sha, nodes, t, key, v.id, v.edge, v.offset, cur, before, after);
    }
    LastBoundGrows(key, vs, v, before, after);
  }

  lemma WalkOn(sha: Hash, nodes: Nodes, t: Tree, key: Bytes, v: Visit, cur: Tree, before: Option<(Bytes, Digest)>,
               after: Option<(Bytes, Digest)>, id: Digest, edge: Option<byte>, offset: nat)
    returns (c: Tree)
    requires InWalk(sha, nodes, t, key, v.id, v.edge, v.offset, cur, before) && v.node == ToNode(sha, cur)
    requires Read(sha, nodes, key, v) && LeadsTo(key, v, id, edge, offset) && Longest(t, key, Past(v) + 1, after)
    ensures InWalk(sha, nodes, t, key, id, edge, offset, c, after)
  {
    hide InWalk, Longest, Loaded, Id;
    ReadCanonical(sha, nodes, key, v);
    ChildFound(v.node, key[offset], id);
    c := WalkDescends(sha, nodes, t, key, v.id, v.edge, v.offset, cur, offset, id, before, after);
  }

  lemma LastBoundUnique(key: Bytes, vs: seq<Visit>, a: Option<(Bytes, Digest)>, b: Option<(Bytes, Digest)>)
    requires LastBound(key, vs, a) && LastBound(key, vs, b)
    ensures a == b
  {
    hide DecodeKey, Passes;
    if a.Some? && b.Some? {
      var i :| 0 <= i < |vs| && BoundAs(key, vs[i], a.value.0, a.value.1) && NoneBoundAfter(key, vs, i);
      var j :| 0 <= j < |vs| && BoundAs(key, vs[j], b.value.0, b.value.1) && NoneBoundAfter(key, vs, j);
      assert BoundAt(key, vs[i]) && BoundAt(key, vs[j]);
    }
  }

  /** The answer of a complete descent is the answer of any trie that the root is the digest of. */
  lemma ChainTellsTruth(sha: Hash, nodes: Nodes, root: Digest, t: Tree, path: Bytes, vs: seq<Visit>, ancestors: bool,
                        answer: Option<(Bytes, Digest)>)
    requires Traced(sha, nodes, root, None, [], t) && EncodeKey(path).Ok?
    requires Chain(sha, nodes, root, EncodeKey(path).value, vs)
    requires ChainAnswer(EncodeKey(path).value, path, vs, ancestors, answer)
    ensures WalkAnswer(PathMap(t), path, ancestors, answer)
  {
    hide Traced, EncodeKey, PathMap, WalkAnswer, LastBound, Longest, InWalk, Read, OwnBinding, Lookup;
    var key := EncodeKey(path).value;
    var n := |vs| - 1;
    var v := vs[n];
    ChainSplits(sha, nodes, root, key, vs);
    var cur, before := WalkApproach(sha, nodes, root, t, key, vs[..n], v.id, v.edge, v.offset);
    var found := WalkStep(sha, nodes, t, key, vs[..n], v, cur, before);
    assert vs == vs[..n] + [v];
    LongestAtEnd(sha, nodes, t, key, v, cur, before, found);
    TracedShape(sha, nodes, root, t);
    WalkFinishes(t, path, ancestors, found);
    if ancestors {
      LastBoundUnique(key, vs, answer, found);
    } else {
      ChainOffsets(sha, nodes, root, key, vs);
      OwnIsLast(key, path, vs, found);
    }
  }

  lemma ChainOffsets(sha: Hash, nodes: Nodes, root: Digest, key: Bytes, vs: seq<Visit>)
    requires Chain(sha, nodes, root, key, vs)
    ensures forall i :: 0 <= i < |vs| ==> vs[i].offset <= |key|
    ensures forall i :: 0 <= i < |vs| - 1 ==> Past(vs[i]) < |key|
  {
    hide Loaded;
    forall i | 0 <= i < |vs| ensures vs[i].offset <= |key| {
      assert Read(sha, nodes, key, vs[i]);
    }
    forall i | 0 <= i < |vs| - 1 ensures Past(vs[i]) < |key| {
      assert LeadsTo(key, vs[i], vs[i + 1].id, vs[i + 1].edge, vs[i + 1].offset);
    }
  }

  /** Nothing bound is left beyond the place where a descent stops. */
  lemma LongestAtEnd(sha: Hash, nodes: Nodes, t: Tree, key: Bytes, v: Visit, cur: Tree, before: Option<(Bytes, Digest)>,
                     found: Option<(Bytes, Digest)>)
    requires InWalk(sha, nodes, t, key, v.id, v.edge, v.offset, cur, before) && v.node == ToNode(sha, cur)
    requires Read(sha, nodes, key, v) && Stops(key, v)
    requires Passes(key, v) ==> Past(v) <= |key| && Longest(t, key, Past(v) + 1, found)
    requires !Passes(key, v) ==> found == before
    ensures Longest(t, key, |key| + 1, found)
  {
    hide InWalk, Longest, Lookup, Loaded, Id;
    if !Passes(key, v) {
      WalkMisses(sha, nodes, t, key, v.id, v.edge, v.offset, cur, before);
    } else if Past(v) < |key| {
      FindAbsent(v.node.children, key[Past(v)]);
      WalkEnds(sha, nodes, t, key, v.id, v.edge, v.offset, cur, before, found);
    }
  }

  lemma TracedShape(sha: Hash, nodes: Nodes, root: Digest, t: Tree)
    requires Traced(sha, nodes, root, None, [], t)
    ensures Shape(t)
  {
  }

  // ----- held roots -----

  lemma HeldRootTraced(sha: Hash, nodes: Nodes, root: Digest, claim: Tree)
    requires WellFormed(sha, nodes, root)
    ensures Traced(sha, nodes, root, None, [], TreeOf(sha, nodes, root))
    ensures Bindings(sha, nodes, root) == PathMap(TreeOf(sha, nodes, root))
    ensures Traced(sha, nodes, root, None, [], claim) ==> claim == TreeOf(sha, nodes, root)
  {
    hide DecodeKey, Genuine, PathMap;
    var t := TreeOf(sha, nodes, root);
    DenotedIsGenuine(sha, nodes, root, [], t);
    if Traced(sha, nodes, root, None, [], claim) {
      DenotedIsTheTraced(sha, nodes, root, t, claim);
    }
  }

  /** A held subtree at the end of a descent. */
  ghost predicate HeldAt(sha: Hash, nodes: Nodes, id: Digest, edge: Option<byte>, prefix: Bytes, cur: Tree) {
    && Shape(cur) && Placed(cur, prefix) && id == Id(sha, cur)
    && (edge.Some? ==> Announced(Child(edge.value, cur)))
    && (cur == EMPTY || Holds(sha, nodes, cur))
  }

  /** Over a held root every descent can be completed. */
  lemma {:induction false} HeldChainFrom(sha: Hash, nodes: Nodes, root: Digest, key: Bytes, vs: seq<Visit>,
                                         id: Digest, edge: Option<byte>, offset: nat, cur: Tree)
    returns (all: seq<Visit>)
    requires Approach(sha, nodes, root, key, vs, id, edge, offset) && offset <= |key|
    requires HeldAt(sha, nodes, id, edge, key[..offset], cur)
    ensures Chain(sha, nodes, root, key, all)
    decreases cur
  {
    hide Approach, Chain, Loaded, Holds, DecodeKey, Id, Shape, Placed;
    var v := Visit(id, edge, offset, ToNode(sha, cur));
    HeldLoads(sha, nodes, id, edge, key[..offset], cur);
    assert Read(sha, nodes, key, v);
    ApproachRead(sha, nodes, root, key, vs, v);
    if Stops(key, v) {
      all := vs + [v];
    } else {
      var c, i := NextHeld(sha, nodes, id, edge, key, offset, cur);
      assert LeadsTo(key, v, Id(sha, c), Some(key[Past(v)]), Past(v)) by {
        assert v.node.children[i] == Child(key[Past(v)], Id(sha, c));
      }
      all := HeldChainFrom(sha, nodes, root, key, vs + [v], Id(sha, c), Some(key[Past(v)]), Past(v), c);
    }
  }

  lemma HeldLoads(sha: Hash, nodes: Nodes, id: Digest, edge: Option<byte>, prefix: Bytes, cur: Tree)
    requires HeldAt(sha, nodes, id, edge, prefix, cur)
    ensures Loaded(sha, nodes, id, edge, prefix, ToNode(sha, cur))
  {
    hide Loaded, DecodeKey, NodeBytes, Id;
    StoredLoads(sha, nodes, edge, prefix, cur);
  }

  lemma NextHeld(sha: Hash, nodes: Nodes, id: Digest, edge: Option<byte>, key: Bytes, offset: nat, cur: Tree)
    returns (c: Tree, i: nat)
    requires offset <= |key| && HeldAt(sha, nodes, id, edge, key[..offset], cur)
    requires !Stops(key, Visit(id, edge, offset, ToNode(sha, cur)))
    ensures c < cur && i < |cur.kids| && cur.kids[i] == Child(key[offset + |cur.lbl|], c)
    ensures HeldAt(sha, nodes, Id(sha, c), Some(key[offset + |cur.lbl|]), key[..offset + |cur.lbl|], c)
  {
    hide DecodeKey, Id;
    var next := offset + |cur.lbl|;
    var r :| r in ToNode(sha, cur).children && r.edge == key[next];
    i :| 0 <= i < |cur.kids| && ToNode(sha, cur).children[i] == r;
    c := cur.kids[i].target;
    assert Announced(cur.kids[i]);
    assert key[..offset] + cur.lbl == key[..next];
  }

  lemma HeldChain(sha: Hash, nodes: Nodes, root: Digest, key: Bytes) returns (all: seq<Visit>)
    requires WellFormed(sha, nodes, root)
    ensures Chain(sha, nodes, root, key, all)
  {
    hide Chain, Holds, Shape, Placed, Id;
    var t := TreeOf(sha, nodes, root);
    assert key[..0] == [];
    all := HeldChainFrom(sha, nodes, root, key, [], root, None, 0, t);
  }
}
