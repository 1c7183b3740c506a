/** What an update does: cutting labels, attaching leaves, and rewriting ancestors bottom-up. */
module RadixEdit {
  import opened Base
  import opened Names
  import opened RadixKey
  import opened RadixNode
  import opened RadixTree
  import opened RadixGraph
  import opened RadixLink
  import opened RadixShare
  import opened RadixChain
  import opened RadixWalk

  // ----- saving an edited node -----

  /** `g` is the trie an edited node stands for, below `prefix`; it may still need compression. */
  ghost predicate Edited(sha: Hash, node: Node, prefix: Bytes, g: Tree) {
    && node == ToNode(sha, g) && GoodKids(g.kids, prefix + g.lbl)
    && |prefix| + |g.lbl| <= PATH_MAX_BYTES
    && (g.binding.Some? ==> DecodeKey(prefix + g.lbl).Ok?)
  }

  /** Compression reads an only child for what it is. */
  ghost predicate Mergeable(sha: Hash, nodes: Nodes, g: Tree) {
    g.binding.None? && |g.kids| == 1 ==> Vouched(sha, nodes, g.kids[0].target)
  }

  ghost predicate MergeStored(sha: Hash, nodes: Nodes, g: Tree) {
    g.binding.None? && |g.kids| == 1 ==> Stored(sha, nodes, g.kids[0].target)
  }

  /** A step that adds the nodes of `ws` and nothing else; if it succeeds they are all there, and it saved `t`. */
  ghost predicate Puts(sha: Hash, before: Nodes, after: Nodes, t: Option<Tree>, ws: set<Tree>,
                       saved: Option<Option<Digest>>)
  {
    && OnlyAdded(sha, before, after, ws)
    && (saved.Some? ==> saved.value == IdOpt(sha, t) && AllStored(sha, after, ws))
  }

  /** A step that cannot fail on a reliable store with room for `ts`, among them `ws`, and that keeps the room. */
  ghost predicate Fits(sha: Hash, before: Nodes, after: Nodes, reliable: bool, ok: bool, ts: set<Tree>, ws: set<Tree>) {
    Room(sha, before, ts) && ws <= ts ==> Room(sha, after, ts) && (reliable ==> ok)
  }

  lemma PutsThrough(sha: Hash, before: Nodes, middle: Nodes, after: Nodes, us: set<Tree>, t: Option<Tree>,
                    vs: set<Tree>, ws: set<Tree>, saved: Option<Option<Digest>>)
    requires OnlyAdded(sha, before, middle, us) && AllStored(sha, middle, us) && Extends(middle, after)
    requires Puts(sha, middle, after, t, vs, saved) && ws == us + vs
    ensures Puts(sha, before, after, t, ws, saved)
  {
    hide Id, Stored, OnlyAdded, AllStored;
    OnlyAddedThrough(sha, before, middle, after, us, vs, ws);
    if saved.Some? {
      AllStoredGrows(sha, middle, after, us);
      AllStoredJoin(sha, after, us, vs);
    }
  }

  lemma AllStoredJoin(sha: Hash, nodes: Nodes, us: set<Tree>, vs: set<Tree>)
    requires AllStored(sha, nodes, us) && AllStored(sha, nodes, vs)
    ensures AllStored(sha, nodes, us + vs)
  {
    hide Stored;
  }

  lemma PutsFailed(sha: Hash, before: Nodes, after: Nodes, us: set<Tree>, t: Option<Tree>, ws: set<Tree>)
    requires OnlyAdded(sha, before, after, us) && us <= ws
    ensures Puts(sha, before, after, t, ws, None)
  {
    hide Id, Stored;
  }

  lemma FitsThrough(sha: Hash, before: Nodes, middle: Nodes, after: Nodes, reliable: bool, ok: bool, ts: set<Tree>,
                    us: set<Tree>, vs: set<Tree>, ws: set<Tree>)
    requires Fits(sha, before, middle, reliable, true, ts, us) && Fits(sha, middle, after, reliable, ok, ts, vs)
    requires us + vs <= ws
    ensures Fits(sha, before, after, reliable, ok, ts, ws)
  {
    hide Room;
  }

  lemma FitsFailed(sha: Hash, before: Nodes, after: Nodes, reliable: bool, ts: set<Tree>, us: set<Tree>, ws: set<Tree>)
    requires Fits(sha, before, after, reliable, false, ts, us) && us <= ws
    ensures Fits(sha, before, after, reliable, false, ts, ws)
  {
    hide Room;
  }

  // ----- saving on any store -----

  /** What is left of an edited node: nothing, its only child under the joined label, or itself. */
  ghost predicate Shrinks(sha: Hash, nodes: Nodes, edited: Node, prefix: Bytes, left: Option<Node>) {
    if edited.binding.Some? || |edited.children| >= 2 then left == Some(edited)
    else if edited.children == [] then left == None
    else exists child :: Merges(sha, nodes, edited, prefix, child, left)
  }

  ghost predicate Merges(sha: Hash, nodes: Nodes, edited: Node, prefix: Bytes, child: Node, left: Option<Node>)
    requires edited.children != []
  {
    && Loaded(sha, nodes, edited.children[0].target, Some(edited.children[0].edge), prefix + edited.lbl, child)
    && left == Some(Node(edited.lbl + child.lbl, child.binding, child.children))
  }

  /** The node is canonical and in its place, and stored under `id`. */
  ghost predicate InPlace(sha: Hash, nodes: Nodes, prefix: Bytes, left: Option<Node>, id: Option<Digest>) {
    match left
    case None => id == None
    case Some(node) =>
      && Canonical(node) && ValidatePosition(prefix, node).Ok?
      && id == Some(sha(NodeBytes(node))) && id.value in nodes && nodes[id.value] == NodeBytes(node)
  }

  /** A save of the edited node that answers `id`. */
  ghost predicate SavesTo(sha: Hash, nodes: Nodes, edited: Node, prefix: Bytes, id: Option<Digest>) {
    exists left :: Shrinks(sha, nodes, edited, prefix, left) && InPlace(sha, nodes, prefix, left, id)
  }

  lemma SavesToGrows(sha: Hash, before: Nodes, after: Nodes, edited: Node, prefix: Bytes, id: Option<Digest>)
    requires Extends(before, after) && SavesTo(sha, before, edited, prefix, id)
    ensures SavesTo(sha, after, edited, prefix, id)
  {
    hide NodeBytes, ValidatePosition, DecodeKey, Canonical;
    var left :| Shrinks(sha, before, edited, prefix, left) && InPlace(sha, before, prefix, left, id);
    if edited.binding.None? && |edited.children| == 1 {
      var child :| Merges(sha, before, edited, prefix, child, left);
      assert Merges(sha, after, edited, prefix, child, left);
    }
    assert InPlace(sha, after, prefix, left, id);
  }

  /** A cut label: its lower half is saved, the new leaf if the key goes on, and the parent of both. */
  ghost predicate CutTo(sha: Hash, nodes: Nodes, node: Node, key: Bytes, offset: nat, common: nat, b: Digest,
                        lower: Digest, leaf: Digest, id: Option<Digest>)
    requires offset + common <= |key| && common < |node.lbl|
  {
    var upper, rest := node.lbl[..common], key[offset + common..];
    var half := [Child(node.lbl[common], lower)];
    && SavesTo(sha, nodes, Node(node.lbl[common..], node.binding, node.children), key[..offset + common], Some(lower))
    && if rest == [] then SavesTo(sha, nodes, Node(upper, Some(b), half), key[..offset], id)
       else
         && SavesTo(sha, nodes, Node(rest, Some(b), []), key[..offset + common], Some(leaf))
         && SavesTo(sha, nodes, Node(upper, None, SetChild(half, rest[0], Some(leaf))), key[..offset], id)
  }

  /** The parts of a cut label, saved in this order. */
  lemma CutIsSaved(sha: Hash, n1: Nodes, n2: Nodes, n3: Nodes, node: Node, key: Bytes, offset: nat, common: nat,
                   b: Digest, lower: Digest, leaf: Digest, id: Option<Digest>)
    requires offset <= |key| && common == Common(key[offset..], node.lbl) < |node.lbl|
    requires Extends(n1, n2) && Extends(n2, n3)
    requires var prefix, upper, rest := key[..offset], node.lbl[..common], key[offset..][common..];
             var half := SetChild([], node.lbl[common], Some(lower));
             && SavesTo(sha, n1, Node(node.lbl[common..], node.binding, node.children), prefix + upper, Some(lower))
             && if rest == [] then SavesTo(sha, n3, Node(upper, Some(b), half), prefix, id)
                else
                  && SavesTo(sha, n2, Node(rest, Some(b), []), prefix + upper, Some(leaf))
                  && SavesTo(sha, n3, Node(upper, None, SetChild(half, rest[0], Some(leaf))), prefix, id)
    ensures CutTo(sha, n3, node, key, offset, common, b, lower, leaf, id)
  {
    hide SavesTo, Common, Extends;
    var prefix, upper, rest := key[..offset], node.lbl[..common], key[offset..][common..];
    ExtendsThrough(n1, n2, n3);
    assert prefix + upper == key[..offset + common] && rest == key[offset + common..];
    SavesToGrows(sha, n1, n3, Node(node.lbl[common..], node.binding, node.children), prefix + upper, Some(lower));
    assert SetChild([], node.lbl[common], Some(lower)) == [Child(node.lbl[common], lower)];
    if rest != [] {
      SavesToGrows(sha, n2, n3, Node(rest, Some(b), []), prefix + upper, Some(leaf));
    }
  }

  lemma ExtendsThrough(before: Nodes, middle: Nodes, after: Nodes)
    requires Extends(before, middle) && Extends(middle, after)
    ensures Extends(before, after)
  {
  }

  /** A new leaf: saved, and then the node above it. */
  ghost predicate AttachTo(sha: Hash, nodes: Nodes, node: Node, key: Bytes, offset: nat, b: Digest, leaf: Digest,
                           id: Option<Digest>)
    requires offset + |node.lbl| < |key|
  {
    var next := offset + |node.lbl|;
    && SavesTo(sha, nodes, Node(key[next..], Some(b), []), key[..next], Some(leaf))
    && SavesTo(sha, nodes, Node(node.lbl, node.binding, SetChild(node.children, key[next], Some(leaf))), key[..offset],
               id)
  }

  /** The edit of the bottom node: cut its label, rebind it, or hang a leaf below it. */
  ghost predicate BottomTo(sha: Hash, nodes: Nodes, node: Node, key: Bytes, offset: nat, b: Option<Digest>,
                           id: Option<Digest>)
    requires offset <= |key|
  {
    var common := Common(key[offset..], node.lbl);
    if common < |node.lbl| then
      b.Some? && exists lower, leaf :: CutTo(sha, nodes, node, key, offset, common, b.value, lower, leaf, id)
    else if offset + common == |key| then
      SavesTo(sha, nodes, Node(node.lbl, b, node.children), key[..offset], id)
    else b.Some? && exists leaf :: AttachTo(sha, nodes, node, key, offset, b.value, leaf, id)
  }

  lemma CutToGrows(sha: Hash, before: Nodes, after: Nodes, node: Node, key: Bytes, offset: nat, common: nat, b: Digest,
                   lower: Digest, leaf: Digest, id: Option<Digest>)
    requires Extends(before, after) && offset + common <= |key| && common < |node.lbl|
    requires CutTo(sha, before, node, key, offset, common, b, lower, leaf, id)
    ensures CutTo(sha, after, node, key, offset, common, b, lower, leaf, id)
  {
    hide SavesTo, SetChild, Extends;
    var upper, rest := node.lbl[..common], key[offset + common..];
    var half := [Child(node.lbl[common], lower)];
    SavesToGrows(sha, before, after, Node(node.lbl[common..], node.binding, node.children), key[..offset + common],
                 Some(lower));
    if rest == [] {
      SavesToGrows(sha, before, after, Node(upper, Some(b), half), key[..offset], id);
    } else {
      SavesToGrows(sha, before, after, Node(rest, Some(b), []), key[..offset + common], Some(leaf));
      SavesToGrows(sha, before, after, Node(upper, None, SetChild(half, rest[0], Some(leaf))), key[..offset], id);
    }
  }

  lemma AttachToGrows(sha: Hash, before: Nodes, after: Nodes, node: Node, key: Bytes, offset: nat, b: Digest,
                      leaf: Digest, id: Option<Digest>)
    requires Extends(before, after) && offset + |node.lbl| < |key|
    requires AttachTo(sha, before, node, key, offset, b, leaf, id)
    ensures AttachTo(sha, after, node, key, offset, b, leaf, id)
  {
    hide SavesTo, SetChild, Extends;
    var next := offset + |node.lbl|;
    SavesToGrows(sha, before, after, Node(key[next..], Some(b), []), key[..next], Some(leaf));
    SavesToGrows(sha, before, after, Node(node.lbl, node.binding, SetChild(node.children, key[next], Some(leaf))),
                 key[..offset], id);
  }

  lemma BottomToGrows(sha: Hash, before: Nodes, after: Nodes, node: Node, key: Bytes, offset: nat, b: Option<Digest>,
                      id: Option<Digest>)
    requires Extends(before, after) && offset <= |key| && BottomTo(sha, before, node, key, offset, b, id)
    ensures BottomTo(sha, after, node, key, offset, b, id)
  {
    hide SavesTo, CutTo, AttachTo, Extends;
    var common := Common(key[offset..], node.lbl);
    if common < |node.lbl| {
      var lower, leaf :| CutTo(sha, before, node, key, offset, common, b.value, lower, leaf, id);
      CutToGrows(sha, before, after, node, key, offset, common, b.value, lower, leaf, id);
    } else if offset + common == |key| {
      SavesToGrows(sha, before, after, Node(node.lbl, b, node.children), key[..offset], id);
    } else {
      var leaf :| AttachTo(sha, before, node, key, offset, b.value, leaf, id);
      AttachToGrows(sha, before, after, node, key, offset, b.value, leaf, id);
    }
  }

  /** A node with one child replaced or removed. */
  function Replaced(node: Node, edge: byte, id: Option<Digest>): Node {
    Node(node.lbl, node.binding, SetChild(node.children, edge, id))
  }

  /** The ancestors saved one after the other, from the lowest on; `ids` are the answers, the bottom's first. */
  ghost predicate Climbed(sha: Hash, nodes: Nodes, key: Bytes, ancestors: seq<Ancestor>, ids: seq<Option<Digest>>) {
    && 1 <= |ids| <= |ancestors| + 1
    && forall j :: 0 <= j < |ids| - 1 ==> StepTo(sha, nodes, key, ancestors[|ancestors| - 1 - j], ids[j], ids[j + 1])
  }

  ghost predicate StepTo(sha: Hash, nodes: Nodes, key: Bytes, a: Ancestor, id: Option<Digest>, up: Option<Digest>) {
    a.offset <= |key| && SavesTo(sha, nodes, Replaced(a.node, a.edge, id), key[..a.offset], up)
  }

  lemma ClimbedStarts(sha: Hash, nodes: Nodes, key: Bytes, ancestors: seq<Ancestor>, id: Option<Digest>)
    ensures Climbed(sha, nodes, key, ancestors, [id])
  {
  }

  lemma ClimbedStep(sha: Hash, before: Nodes, after: Nodes, key: Bytes, ancestors: seq<Ancestor>,
                    ids: seq<Option<Digest>>, up: Option<Digest>)
    requires Extends(before, after) && Climbed(sha, before, key, ancestors, ids) && |ids| <= |ancestors|
    requires StepTo(sha, after, key, ancestors[|ancestors| - |ids|], ids[|ids| - 1], up)
    ensures Climbed(sha, after, key, ancestors, ids + [up])
  {
    hide SavesTo, Extends, Replaced;
    var all := ids + [up];
    forall j | 0 <= j < |all| - 1 ensures StepTo(sha, after, key, ancestors[|ancestors| - 1 - j], all[j], all[j + 1]) {
      if j < |ids| - 1 {
        var a := ancestors[|ancestors| - 1 - j];
        assert StepTo(sha, before, key, a, ids[j], ids[j + 1]);
        SavesToGrows(sha, before, after, Replaced(a.node, a.edge, ids[j]), key[..a.offset], ids[j + 1]);
      }
    }
  }

  /**
   * The update along a descent, on any store: the bottom node is edited and saved, then every node above it with the
   * reference to the one below replaced; `ids` are the digests saved, from the bottom up.
   */
  ghost predicate Rewritten(sha: Hash, nodes: Nodes, key: Bytes, vs: seq<Visit>, b: Option<Digest>,
                            ids: seq<Option<Digest>>, root: Digest)
  {
    && vs != [] && |ids| == |vs| && root == RootOf(sha, ids[|ids| - 1])
    && (var v := vs[|vs| - 1]; v.offset <= |key| && BottomTo(sha, nodes, v.node, key, v.offset, b, ids[0]))
    && forall j :: 0 <= j < |ids| - 1 ==> RewrittenAt(sha, nodes, key, vs[|vs| - 2 - j], ids[j], ids[j + 1])
  }

  ghost predicate RewrittenAt(sha: Hash, nodes: Nodes, key: Bytes, v: Visit, id: Option<Digest>, up: Option<Digest>) {
    && Past(v) < |key|
    && SavesTo(sha, nodes, Replaced(v.node, key[Past(v)], id), key[..v.offset], up)
  }

  /** The stack of a descent, rewritten. */
  lemma ClimbedIsRewritten(sha: Hash, nodes: Nodes, key: Bytes, bottom: Bottom, vs: seq<Visit>, b: Option<Digest>,
                           ids: seq<Option<Digest>>)
    requires BottomOf(key, bottom, vs) && bottom.offset <= |key|
    requires Climbed(sha, nodes, key, bottom.ancestors, ids) && |ids| == |bottom.ancestors| + 1
    requires BottomTo(sha, nodes, bottom.node, key, bottom.offset, b, ids[0])
    ensures Rewritten(sha, nodes, key, vs, b, ids, RootOf(sha, ids[|ids| - 1]))
  {
    hide SavesTo, BottomTo, Replaced;
    forall j | 0 <= j < |ids| - 1 ensures RewrittenAt(sha, nodes, key, vs[|vs| - 2 - j], ids[j], ids[j + 1]) {
      assert StepTo(sha, nodes, key, bottom.ancestors[|bottom.ancestors| - 1 - j], ids[j], ids[j + 1]);
      assert vs[..|vs| - 1][|vs| - 2 - j] == vs[|vs| - 2 - j];
    }
  }

  /** The only child of an edited node, and where it stands. */
  lemma OnlyChild(sha: Hash, nodes: Nodes, node: Node, prefix: Bytes, g: Tree)
    requires Edited(sha, node, prefix, g) && |g.kids| == 1 && g.binding.None?
    ensures var kid := g.kids[0];
            && node.children == [Child(kid.edge, Id(sha, kid.target))]
            && Shape(kid.target) && Placed(kid.target, prefix + g.lbl) && Announced(kid)
            && node.lbl == g.lbl && Compress(g.lbl, g.binding, g.kids)
               == Some(Tree(g.lbl + kid.target.lbl, kid.target.binding, kid.target.kids))
  {
    hide DecodeKey, Shape, Placed, Id;
    assert GoodKid(g.kids[0], prefix + g.lbl);
  }

  /** An edited node after compression. */
  lemma CompressedNode(sha: Hash, node: Node, prefix: Bytes, g: Tree)
    requires Edited(sha, node, prefix, g) && Compress(g.lbl, g.binding, g.kids).Some?
    ensures var t := Compress(g.lbl, g.binding, g.kids).value;
            && Shape(t) && Placed(t, prefix) && Canonical(ToNode(sha, t))
            && ValidatePosition(prefix, ToNode(sha, t)).Ok?
            && Id(sha, t) == sha(NodeBytes(ToNode(sha, t)))
            && (g.binding.Some? || |g.kids| >= 2 ==> ToNode(sha, t) == node)
  {
    hide DecodeKey, Id, NodeBytes;
    var t := Compress(g.lbl, g.binding, g.kids).value;
    CompressKeeps(g.lbl, g.binding, g.kids, prefix);
    ToNodeCanonical(sha, t);
    IdIsHashOfNode(sha, t);
  }

  /** A merged node is the node of the merged trie. */
  lemma MergedNode(sha: Hash, g: Tree, child: Tree)
    ensures var n := ToNode(sha, child);
            ToNode(sha, Tree(g.lbl + child.lbl, child.binding, child.kids))
            == Node(g.lbl + n.lbl, n.binding, n.children)
  {
    hide Id;
  }

  lemma LeafEdited(sha: Hash, prefix: Bytes, rest: Bytes, b: Digest)
    requires DecodeKey(prefix + rest).Ok?
    ensures Edited(sha, Node(rest, Some(b), []), prefix, Leaf(rest, b))
    ensures Compress(rest, Some(b), []) == Some(Leaf(rest, b))
  {
    hide DecodeKey;
    KeyWithinLimit(prefix + rest);
    assert Refs(sha, []) == [];
  }

  lemma KeyWithinLimit(key: Bytes)
    requires DecodeKey(key).Ok?
    ensures |key| <= PATH_MAX_BYTES
  {
  }

  lemma LowerHalfEdited(sha: Hash, prefix: Bytes, t: Tree, common: nat)
    requires Shape(t) && Placed(t, prefix) && common < |t.lbl|
    ensures var half := LowerHalf(t, common).target;
            && Edited(sha, Node(t.lbl[common..], t.binding, Refs(sha, t.kids)), prefix + t.lbl[..common], half)
            && Compress(half.lbl, half.binding, half.kids) == Some(half)
            && (half.binding.None? ==> |half.kids| >= 2)
            && |prefix| + |t.lbl| <= PATH_MAX_BYTES
  {
    hide DecodeKey;
    assert prefix + t.lbl[..common] + t.lbl[common..] == prefix + t.lbl;
    KidsAreGood(t, prefix);
  }

  /** The upper half over its saved lower half. */
  lemma UpperRefs(sha: Hash, t: Tree, common: nat)
    requires common < |t.lbl|
    ensures SetChild([], t.lbl[common], Some(Id(sha, LowerHalf(t, common).target))) == Refs(sha, [LowerHalf(t, common)])
  {
    hide Id;
  }

  /** Binding the upper half itself. */
  lemma CutEdited(sha: Hash, t: Tree, common: nat, prefix: Bytes, b: Digest)
    requires Shape(t) && Placed(t, prefix) && common < |t.lbl| && DecodeKey(prefix + t.lbl[..common]).Ok?
    ensures Edited(sha, Node(t.lbl[..common], Some(b), Refs(sha, [LowerHalf(t, common)])), prefix,
                   Tree(t.lbl[..common], Some(b), [LowerHalf(t, common)]))
  {
    hide DecodeKey, Shape, Placed;
    LowerHalfIsGood(t, common, prefix);
    KeyWithinLimit(prefix + t.lbl[..common]);
  }

  /** Branching off the upper half to a saved leaf. */
  lemma BranchEdited(sha: Hash, t: Tree, common: nat, prefix: Bytes, rest: Bytes, b: Digest)
    requires Shape(t) && Placed(t, prefix) && common < |t.lbl| && rest != [] && |prefix| + common <= PATH_MAX_BYTES
    requires DecodeKey(prefix + t.lbl[..common] + rest).Ok? && rest[0] != t.lbl[common]
    ensures var half, leaf := [LowerHalf(t, common)], Leaf(rest, b);
            && Edited(sha, Node(t.lbl[..common], None, SetChild(Refs(sha, half), rest[0], Some(Id(sha, leaf)))), prefix,
                      Tree(t.lbl[..common], None, SetChild(half, rest[0], Some(leaf))))
            && |SetChild(half, rest[0], Some(leaf))| == 2
  {
    hide DecodeKey, Shape, Placed, Id;
    var half, leaf := [LowerHalf(t, common)], Leaf(rest, b);
    LowerHalfIsGood(t, common, prefix);
    LeafIsGood(rest, b, prefix + t.lbl[..common]);
    SetChildKeeps(half, rest[0], Some(leaf), prefix + t.lbl[..common]);
    SetChildOfRefs(sha, half, rest[0], Some(leaf));
  }

  /** The node with the new leaf under the next byte is an edited node. */
  lemma LeafAttached(sha: Hash, prefix: Bytes, t: Tree, rest: Bytes, b: Digest)
    requires Shape(t) && Placed(t, prefix) && rest != [] && DecodeKey(prefix + t.lbl + rest).Ok?
    requires FindChild(t.kids, rest[0]) == None
    ensures var leaf := Leaf(rest, b); var kids := SetChild(t.kids, rest[0], Some(leaf));
            && Edited(sha, Node(t.lbl, t.binding, SetChild(Refs(sha, t.kids), rest[0], Some(Id(sha, leaf)))), prefix,
                      Tree(t.lbl, t.binding, kids))
            && (|kids| == 1 ==> kids[0].target == leaf)
  {
    hide DecodeKey, Id, FindChild;
    var leaf := Leaf(rest, b);
    KidsAreGood(t, prefix);
    hide Shape, Placed;
    LeafIsGood(rest, b, prefix + t.lbl);
    SetChildKeeps(t.kids, rest[0], Some(leaf), prefix + t.lbl);
    SetChildOfRefs(sha, t.kids, rest[0], Some(leaf));
    if |SetChild(t.kids, rest[0], Some(leaf))| == 1 {
      OnlyNewChild(t.kids, rest[0], leaf);
    }
  }

  lemma OnlyNewChild(kids: seq<Child<Tree>>, edge: byte, c: Tree)
    requires EdgesAscend(kids) && |SetChild(kids, edge, Some(c))| == 1
    ensures SetChild(kids, edge, Some(c))[0].target == c
  {
    FindAfterSet(kids, edge, Some(c), edge);
  }

  /** The edit that cuts a label. */
  lemma PutCut(t: Tree, key: Bytes, b: Digest)
    requires Common(key, t.lbl) < |t.lbl|
    ensures var common := Common(key, t.lbl);
            var suffix, half := key[common..], [LowerHalf(t, common)];
            Put(t, key, Some(b)) ==
            if suffix == [] then Compress(t.lbl[..common], Some(b), half)
            else Compress(t.lbl[..common], None, SetChild(half, suffix[0], Some(Leaf(suffix, b))))
  {
    hide SetChild, Compress, LowerHalf, Common;
  }

  /** The edit that a new leaf performs. */
  lemma PutNewLeaf(t: Tree, key: Bytes, b: Digest)
    requires t.lbl <= key && |key| > |t.lbl| && FindChild(t.kids, key[|t.lbl|]) == None
    ensures Put(t, key, Some(b)) ==
            Compress(t.lbl, t.binding, SetChild(t.kids, key[|t.lbl|], Some(Leaf(key[|t.lbl|..], b))))
  {
    hide FindChild, SetChild, Compress;
    assert Common(key, t.lbl) == |t.lbl|;
    assert key[|t.lbl|..][0] == key[|t.lbl|];
  }

  /** A visited ancestor: its node, the edge taken and the key offset of its label. */
  datatype Ancestor = Ancestor(node: Node, edge: byte, offset: nat)

  /** The same ancestor on the side of the trie. */
  datatype Frame = Frame(t: Tree, edge: byte, offset: nat)

  /** Replace the subtree at the bottom of a stack of ancestors and compress on the way up. */
  ghost function Rebuild(spine: seq<Frame>, r: Option<Tree>): Option<Tree> {
    if spine == [] then r
    else
      var f := spine[|spine| - 1];
      Rebuild(spine[..|spine| - 1], Compress(f.t.lbl, f.t.binding, SetChild(f.t.kids, f.edge, r)))
  }

  /** The tries that the way up stores. */
  ghost function RebuildWrites(spine: seq<Frame>, r: Option<Tree>): set<Tree> {
    if spine == [] then {}
    else
      var f := spine[|spine| - 1];
      var u := Compress(f.t.lbl, f.t.binding, SetChild(f.t.kids, f.edge, r));
      Single(u) + RebuildWrites(spine[..|spine| - 1], u)
  }

  /** The stacks of ancestors agree and lead from the root to `offset`, through canonical subtrees in their places. */
  ghost predicate SpineOk(sha: Hash, key: Bytes, ancestors: seq<Ancestor>, spine: seq<Frame>, offset: nat) {
    && |ancestors| == |spine|
    && if spine == [] then offset == 0
       else
         var n := |spine| - 1;
         && FrameOk(sha, key, ancestors[n], spine[n], offset)
         && (n > 0 ==> Announced(Child(spine[n - 1].edge, spine[n].t)))
         && SpineOk(sha, key, ancestors[..n], spine[..n], spine[n].offset)
  }

  ghost predicate FrameOk(sha: Hash, key: Bytes, a: Ancestor, f: Frame, offset: nat) {
    && a == Ancestor(ToNode(sha, f.t), f.edge, f.offset)
    && f.offset + |f.t.lbl| == offset < |key| && key[offset] == f.edge && f.t.lbl <= key[f.offset..]
    && Shape(f.t) && Placed(f.t, key[..f.offset])
  }

  /** The children of all frames are vouched for. */
  ghost predicate SpineGenuine(sha: Hash, nodes: Nodes, spine: seq<Frame>) {
    forall i :: 0 <= i < |spine| ==> KidsVouched(sha, nodes, spine[i].t)
  }

  ghost predicate KidsVouched(sha: Hash, nodes: Nodes, t: Tree) {
    forall i :: 0 <= i < |t.kids| ==> Vouched(sha, nodes, t.kids[i].target)
  }

  ghost predicate SpineStored(sha: Hash, nodes: Nodes, spine: seq<Frame>) {
    forall i :: 0 <= i < |spine| ==> KidsStored(sha, nodes, spine[i].t)
  }

  ghost predicate KidsStored(sha: Hash, nodes: Nodes, t: Tree) {
    forall i :: 0 <= i < |t.kids| ==> Stored(sha, nodes, t.kids[i].target)
  }

  lemma KidsStoredGrows(sha: Hash, before: Nodes, after: Nodes, t: Tree)
    requires Extends(before, after) && KidsStored(sha, before, t)
    ensures KidsStored(sha, after, t)
  {
    hide Id, NodeBytes, ToNode;
    forall i | 0 <= i < |t.kids| ensures Stored(sha, after, t.kids[i].target) {
      assert Stored(sha, before, t.kids[i].target);
    }
  }

  lemma KidsVouchedBefore(sha: Hash, before: Nodes, after: Nodes, t: Tree)
    requires Extends(before, after) && KidsVouched(sha, after, t)
    ensures KidsVouched(sha, before, t)
  {
    hide Id, NodeBytes, ToNode;
    forall i | 0 <= i < |t.kids| ensures Vouched(sha, before, t.kids[i].target) {
      assert Vouched(sha, after, t.kids[i].target);
    }
  }

  lemma SpineStoredGrows(sha: Hash, before: Nodes, after: Nodes, spine: seq<Frame>)
    requires Extends(before, after) && SpineStored(sha, before, spine)
    ensures SpineStored(sha, after, spine)
  {
    hide KidsStored;
    forall i | 0 <= i < |spine| ensures KidsStored(sha, after, spine[i].t) {
      KidsStoredGrows(sha, before, after, spine[i].t);
    }
  }

  lemma SpineGenuineBefore(sha: Hash, before: Nodes, after: Nodes, spine: seq<Frame>)
    requires Extends(before, after) && SpineGenuine(sha, after, spine)
    ensures SpineGenuine(sha, before, spine)
  {
    hide KidsVouched;
    forall i | 0 <= i < |spine| ensures KidsVouched(sha, before, spine[i].t) {
      KidsVouchedBefore(sha, before, after, spine[i].t);
    }
  }

  lemma SpineStoredGenuine(sha: Hash, nodes: Nodes, spine: seq<Frame>)
    requires SpineStored(sha, nodes, spine) && EmptyRootUnused(sha, nodes)
    ensures SpineGenuine(sha, nodes, spine)
  {
    hide KidsVouched, KidsStored;
    forall i | 0 <= i < |spine| ensures KidsVouched(sha, nodes, spine[i].t) {
      KidsStoredVouched(sha, nodes, spine[i].t);
    }
  }

  lemma KidsStoredVouched(sha: Hash, nodes: Nodes, t: Tree)
    requires KidsStored(sha, nodes, t) && EmptyRootUnused(sha, nodes)
    ensures KidsVouched(sha, nodes, t)
  {
    hide Id, NodeBytes, ToNode, Stored, Vouched;
    forall i | 0 <= i < |t.kids| ensures Vouched(sha, nodes, t.kids[i].target) {
      StoredIsVouched(sha, nodes, t.kids[i].target);
    }
  }

  /** On the way up: the replacement of the subtree at `offset` is saved, its ancestors are still to do. */
  ghost predicate Unwinding(sha: Hash, nodes: Nodes, key: Bytes, ancestors: seq<Ancestor>, spine: seq<Frame>,
                            offset: nat, id: Option<Digest>, rep: Option<Tree>)
  {
    && offset <= |key|
    && SpineOk(sha, key, ancestors, spine, offset)
    && id == IdOpt(sha, rep)
    && (rep.Some? ==> Shape(rep.value) && Placed(rep.value, key[..offset]) && Stored(sha, nodes, rep.value))
    && (spine != [] && rep.Some? ==> Announced(Child(spine[|spine| - 1].edge, rep.value)))
  }

  /** The parent with its replaced child is an edited node. */
  lemma ParentEdited(sha: Hash, nodes: Nodes, key: Bytes, ancestors: seq<Ancestor>, spine: seq<Frame>,
                     offset: nat, id: Option<Digest>, rep: Option<Tree>)
    requires spine != [] && Unwinding(sha, nodes, key, ancestors, spine, offset, id, rep)
    ensures |ancestors| == |spine|
    ensures var a, f := ancestors[|spine| - 1], spine[|spine| - 1];
            && f.offset <= |key| && a.offset == f.offset
            && Edited(sha, Node(a.node.lbl, a.node.binding, SetChild(a.node.children, a.edge, id)), key[..a.offset],
                      Tree(f.t.lbl, f.t.binding, SetChild(f.t.kids, f.edge, rep)))
  {
    hide DecodeKey, SetChild, Id, Stored, GoodKids;
    var f := spine[|spine| - 1];
    assert FrameOk(sha, key, ancestors[|spine| - 1], f, offset);
    assert key[..f.offset] + f.t.lbl == key[..offset];
    KidsAreGood(f.t, key[..f.offset]);
    SetChildKeeps(f.t.kids, f.edge, rep, key[..offset]);
    SetChildOfRefs(sha, f.t.kids, f.edge, rep);
  }

  /** The children of the parent after the replacement can be read for what they are. */
  lemma ParentMergeable(sha: Hash, nodes: Nodes, f: Frame, rep: Option<Tree>)
    requires rep.Some? ==> Stored(sha, nodes, rep.value)
    requires EmptyRootUnused(sha, nodes) && KidsVouched(sha, nodes, f.t)
    ensures Mergeable(sha, nodes, Tree(f.t.lbl, f.t.binding, SetChild(f.t.kids, f.edge, rep)))
  {
    hide SetChild, Id, NodeBytes, ToNode, Vouched, Stored;
    if |SetChild(f.t.kids, f.edge, rep)| == 1 {
      SetChildMembers(f.t.kids, f.edge, rep, 0);
      if rep.Some? {
        StoredIsVouched(sha, nodes, rep.value);
      }
    }
  }

  lemma ParentMergeStored(sha: Hash, nodes: Nodes, f: Frame, rep: Option<Tree>)
    requires rep.Some? ==> Stored(sha, nodes, rep.value)
    requires KidsStored(sha, nodes, f.t)
    ensures MergeStored(sha, nodes, Tree(f.t.lbl, f.t.binding, SetChild(f.t.kids, f.edge, rep)))
  {
    hide SetChild, Id, NodeBytes, ToNode, Stored;
    if |SetChild(f.t.kids, f.edge, rep)| == 1 {
      SetChildMembers(f.t.kids, f.edge, rep, 0);
    }
  }

  /** Once the parent is saved the same situation holds one level up. */
  lemma UnwindStep(sha: Hash, before: Nodes, after: Nodes, key: Bytes, ancestors: seq<Ancestor>, spine: seq<Frame>,
                   offset: nat, id: Option<Digest>, rep: Option<Tree>, id': Option<Digest>)
    requires spine != [] && Unwinding(sha, before, key, ancestors, spine, offset, id, rep)
    requires var f := spine[|spine| - 1]; var u := Compress(f.t.lbl, f.t.binding, SetChild(f.t.kids, f.edge, rep));
             id' == IdOpt(sha, u) && AllStored(sha, after, Single(u))
    ensures var n, f := |spine| - 1, spine[|spine| - 1];
            && |ancestors| == |spine|
            && Unwinding(sha, after, key, ancestors[..n], spine[..n], f.offset, id',
                         Compress(f.t.lbl, f.t.binding, SetChild(f.t.kids, f.edge, rep)))
  {
    hide Stored, SetChild, FrameOk, Shape, Placed, Compress, Id, GoodKids, DecodeKey;
    var n, f := |spine| - 1, spine[|spine| - 1];
    var g := Tree(f.t.lbl, f.t.binding, SetChild(f.t.kids, f.edge, rep));
    var u := Compress(g.lbl, g.binding, g.kids);
    FrameMeans(sha, key, ancestors[n], f, offset);
    ParentEdited(sha, before, key, ancestors, spine, offset, id, rep);
    CompressKeeps(g.lbl, g.binding, g.kids, key[..f.offset]);
    if u.Some? {
      assert u.value in Single(u);
    }
    if n > 0 {
      assert Announced(Child(spine[n - 1].edge, f.t));
      assert spine[..n][n - 1] == spine[n - 1];
      if u.Some? {
        CompressAnnounced(g.lbl, g.binding, g.kids, spine[n - 1].edge);
      }
    }
  }

  lemma FrameMeans(sha: Hash, key: Bytes, a: Ancestor, f: Frame, offset: nat)
    requires FrameOk(sha, key, a, f, offset)
    ensures f.offset <= |key| && a.offset == f.offset
  {
  }

  lemma CompressAnnounced(lbl: Bytes, binding: Option<Digest>, kids: seq<Child<Tree>>, edge: byte)
    requires lbl != [] && lbl[0] == edge && Compress(lbl, binding, kids).Some?
    ensures Announced(Child(edge, Compress(lbl, binding, kids).value))
  {
  }

  lemma UnwindingLength(sha: Hash, nodes: Nodes, key: Bytes, ancestors: seq<Ancestor>, spine: seq<Frame>,
                        offset: nat, id: Option<Digest>, rep: Option<Tree>)
    requires Unwinding(sha, nodes, key, ancestors, spine, offset, id, rep)
    ensures |ancestors| == |spine| && id == IdOpt(sha, rep) && (rep.Some? ==> Stored(sha, nodes, rep.value))
  {
    hide Stored, Id;
  }

  /** The way up stores the parent, and then what the way up from there stores. */
  lemma RebuildInit(spine: seq<Frame>, r: Option<Tree>)
    requires spine != []
    ensures var n, f := |spine| - 1, spine[|spine| - 1];
            var u := Compress(f.t.lbl, f.t.binding, SetChild(f.t.kids, f.edge, r));
            && Rebuild(spine, r) == Rebuild(spine[..n], u)
            && RebuildWrites(spine, r) == Single(u) + RebuildWrites(spine[..n], u)
  {
    hide Compress, SetChild, Single;
  }

  /** A parent with its replaced child, before compression. */
  function Parent(f: Frame, rep: Option<Tree>): Tree {
    Tree(f.t.lbl, f.t.binding, SetChild(f.t.kids, f.edge, rep))
  }

  /** The ancestors in `stack` are still to do, those beyond have been rewritten over the tries of `done`. */
  ghost predicate Climbing(sha: Hash, before: Nodes, now: Nodes, key: Bytes, stack: seq<Ancestor>,
                           saved: Option<Digest>, spine: seq<Frame>, rep: Option<Tree>, offset: nat, rp: Option<Tree>,
                           done: set<Tree>)
  {
    && |stack| <= |spine|
    && Unwinding(sha, now, key, stack, spine[..|stack|], offset, saved, rp)
    && Rebuild(spine[..|stack|], rp) == Rebuild(spine, rep)
    && done + RebuildWrites(spine[..|stack|], rp) == RebuildWrites(spine, rep)
    && OnlyAdded(sha, before, now, done) && AllStored(sha, now, done)
  }

  lemma ClimbStarts(sha: Hash, nodes: Nodes, key: Bytes, ancestors: seq<Ancestor>, saved: Option<Digest>,
                    spine: seq<Frame>, offset: nat, rep: Option<Tree>)
    requires Unwinding(sha, nodes, key, ancestors, spine, offset, saved, rep)
    ensures Climbing(sha, nodes, nodes, key, ancestors, saved, spine, rep, offset, rep, {})
    ensures |ancestors| == |spine|
  {
    hide Unwinding, Rebuild, RebuildWrites, Id;
    UnwindingLength(sha, nodes, key, ancestors, spine, offset, saved, rep);
    assert spine[..|spine|] == spine;
  }

  /** The next parent is an edited node, and compression may read its only child. */
  lemma ClimbEdits(sha: Hash, before: Nodes, now: Nodes, key: Bytes, stack: seq<Ancestor>, saved: Option<Digest>,
                   spine: seq<Frame>, rep: Option<Tree>, offset: nat, rp: Option<Tree>, done: set<Tree>)
    requires stack != [] && Climbing(sha, before, now, key, stack, saved, spine, rep, offset, rp, done)
    requires EmptyRootUnused(sha, now) && SpineGenuine(sha, now, spine)
    ensures var n := |stack| - 1; var a, g := stack[n], Parent(spine[n], rp);
            var u := Compress(g.lbl, g.binding, g.kids);
            && a.offset <= |key|
            && Edited(sha, Replaced(a.node, a.edge, saved), key[..a.offset], g)
            && Mergeable(sha, now, g)
            && (SpineStored(sha, now, spine) ==> MergeStored(sha, now, g))
            && Single(u) <= RebuildWrites(spine, rep)
  {
    hide Unwinding, Rebuild, Edited, Mergeable, MergeStored, KidsVouched, KidsStored, Id, SetChild, Compress, Single,
         OnlyAdded, AllStored, EmptyRootUnused, Stored;
    var n := |stack| - 1;
    var sp := spine[..|stack|];
    assert sp[n] == spine[n];
    UnwindingLength(sha, now, key, stack, sp, offset, saved, rp);
    ParentEdited(sha, now, key, stack, sp, offset, saved, rp);
    ParentMergeable(sha, now, spine[n], rp);
    if SpineStored(sha, now, spine) {
      ParentMergeStored(sha, now, spine[n], rp);
    }
    RebuildInit(sp, rp);
  }

  /**
   * Once the parent is saved the same situation holds one level up; if it is not, only the announced tries
   * were stored.
   */
  lemma ClimbGoesOn(sha: Hash, before: Nodes, now: Nodes, after: Nodes, key: Bytes, stack: seq<Ancestor>,
                    saved: Option<Digest>, spine: seq<Frame>, rep: Option<Tree>, offset: nat, rp: Option<Tree>,
                    done: set<Tree>, r: Option<Option<Digest>>)
    requires stack != [] && Climbing(sha, before, now, key, stack, saved, spine, rep, offset, rp, done)
    requires var g := Parent(spine[|stack| - 1], rp); var u := Compress(g.lbl, g.binding, g.kids);
             Puts(sha, now, after, u, Single(u), r) && Extends(now, after)
    ensures var n := |stack| - 1; var g := Parent(spine[n], rp); var u := Compress(g.lbl, g.binding, g.kids);
            if r.Some? then
              Climbing(sha, before, after, key, stack[..n], r.value, spine, rep, spine[n].offset, u, done + Single(u))
            else Puts(sha, before, after, Rebuild(spine, rep), RebuildWrites(spine, rep), None)
  {
    hide Unwinding, Rebuild, RebuildWrites, Id, SetChild, Compress, Single, OnlyAdded, AllStored, Stored, Extends;
    var n := |stack| - 1;
    var sp := spine[..|stack|];
    assert sp[n] == spine[n] && sp[..n] == spine[..n];
    var g := Parent(spine[n], rp);
    var u := Compress(g.lbl, g.binding, g.kids);
    UnwindingLength(sha, now, key, stack, sp, offset, saved, rp);
    RebuildInit(sp, rp);
    PutsThrough(sha, before, now, after, done, u, Single(u), done + Single(u), r);
    if r.Some? {
      UnwindStep(sha, now, after, key, stack, sp, offset, saved, rp, r.value);
      assert done + Single(u) + RebuildWrites(spine[..n], u) == done + RebuildWrites(sp, rp);
    } else {
      PutsFailed(sha, before, after, done + Single(u), Rebuild(spine, rep), RebuildWrites(spine, rep));
    }
  }

  lemma ClimbEnds(sha: Hash, before: Nodes, now: Nodes, key: Bytes, saved: Option<Digest>, spine: seq<Frame>,
                  rep: Option<Tree>, offset: nat, rp: Option<Tree>, done: set<Tree>)
    requires Climbing(sha, before, now, key, [], saved, spine, rep, offset, rp, done)
    ensures Puts(sha, before, now, Rebuild(spine, rep), RebuildWrites(spine, rep), Some(saved))
  {
    hide Id, OnlyAdded, AllStored, Unwinding;
    assert spine[..0] == [];
    UnwindingLength(sha, now, key, [], [], offset, saved, rp);
    assert RebuildWrites([], rp) == {} && RebuildWrites(spine, rep) == done;
  }

  // ----- the descent, on the side of the trie -----

  /** The state of an update of the trie `t`, on arrival at its subtree `cur`. */
  ghost predicate Descending(sha: Hash, t: Tree, key: Bytes, b: Option<Digest>, edge: Option<byte>, offset: nat,
                             cur: Tree, ancestors: seq<Ancestor>, spine: seq<Frame>)
  {
    && offset <= |key|
    && SpineOk(sha, key, ancestors, spine, offset)
    && edge == (if spine == [] then None else Some(spine[|spine| - 1].edge))
    && Lookup(t, key) == Lookup(cur, key[offset..])
    && Rebuild(spine, Put(cur, key[offset..], b)) == Put(t, key, b)
    && Ancestors(t, key) == |spine| + Ancestors(cur, key[offset..])
    && Writes(cur, key[offset..], b) + RebuildWrites(spine, Put(cur, key[offset..], b)) == Writes(t, key, b)
    && cur in Subtrees(t)
    && forall i :: 0 <= i < |spine| ==> spine[i].t in Subtrees(t)
  }

  lemma DescentStarts(sha: Hash, t: Tree, key: Bytes, b: Option<Digest>)
    ensures Descending(sha, t, key, b, None, 0, t, [], [])
  {
    hide Put, Lookup, Writes, Ancestors, Subtrees;
    SelfIncluded(t);
    assert key[0..] == key;
  }

  /** Where a descent stops: the label leaves the key, the key ends here, or no child continues it. */
  datatype Bottom = Bottom(node: Node, edge: Option<byte>, offset: nat, ancestors: seq<Ancestor>)

  predicate AtBottom(node: Node, key: Bytes, offset: nat) {
    && offset <= |key|
    && var common := Common(key[offset..], node.lbl);
       common < |node.lbl| || offset + common == |key| || FindChild(node.children, key[offset + common]) == None
  }

  ghost predicate BottomKnown(sha: Hash, node: Node, key: Bytes, offset: nat, g: Option<Tree>) {
    && offset <= |key| && DecodeKey(key).Ok?
    && g.Some? && node == ToNode(sha, g.value) && Shape(g.value) && Placed(g.value, key[..offset])
  }

  /** What the edit of the bottom node amounts to, case by case. */
  lemma BottomEdit(sha: Hash, node: Node, key: Bytes, offset: nat, t: Tree, b: Option<Digest>)
    requires AtBottom(node, key, offset) && BottomKnown(sha, node, key, offset, Some(t))
    ensures var rest := key[offset..]; var common := Common(rest, t.lbl);
            if common < |t.lbl| then Lookup(t, rest) == None
            else if offset + common == |key| then
              && Lookup(t, rest) == t.binding
              && Put(t, rest, b) == Compress(t.lbl, b, t.kids)
              && Edited(sha, Node(t.lbl, b, Refs(sha, t.kids)), key[..offset], Tree(t.lbl, b, t.kids))
            else
              && t.lbl <= rest && FindChild(t.kids, key[offset + common]) == None
              && Lookup(t, rest) == None
  {
    hide DecodeKey, Compress, Put, Lookup, Edited, FindChild;
    var rest := key[offset..];
    var common := Common(rest, t.lbl);
    assert rest[..common] == t.lbl[..common];
    if common < |t.lbl| {
      LookupCut(t, rest);
    } else if offset + common == |key| {
      assert rest == t.lbl;
      PutHere(t, b);
      assert key[..offset] + rest == key;
      ReboundEdited(sha, key[..offset], t, b);
    } else {
      FindOfRefs(sha, t.kids, key[offset + common]);
      LookupBelow(t, rest);
    }
  }

  lemma LookupCut(t: Tree, rest: Bytes)
    requires Common(rest, t.lbl) < |t.lbl|
    ensures Lookup(t, rest) == None
  {
    hide FindChild;
  }

  lemma LookupBelow(t: Tree, rest: Bytes)
    requires t.lbl <= rest && |t.lbl| < |rest| && FindChild(t.kids, rest[|t.lbl|]) == None
    ensures Lookup(t, rest) == None
  {
    hide FindChild;
    assert rest[|t.lbl|..][0] == rest[|t.lbl|];
  }

  lemma PutHere(t: Tree, b: Option<Digest>)
    ensures Lookup(t, t.lbl) == t.binding && Put(t, t.lbl, b) == Compress(t.lbl, b, t.kids)
  {
    hide Compress, FindChild, SetChild;
    assert Common(t.lbl, t.lbl) == |t.lbl|;
  }

  lemma ReboundEdited(sha: Hash, prefix: Bytes, t: Tree, b: Option<Digest>)
    requires DecodeKey(prefix + t.lbl).Ok? && Shape(t) && Placed(t, prefix)
    ensures Edited(sha, Node(t.lbl, b, Refs(sha, t.kids)), prefix, Tree(t.lbl, b, t.kids))
  {
    hide DecodeKey;
    KidsAreGood(t, prefix);
  }

  /** The binding found at the bottom is the one of the key. */
  lemma BottomOwn(sha: Hash, node: Node, key: Bytes, offset: nat, t: Tree)
    requires AtBottom(node, key, offset) && BottomKnown(sha, node, key, offset, Some(t))
    ensures OwnAt(key, node, offset) == Lookup(t, key[offset..])
  {
    hide DecodeKey, Lookup, Put, Edited, FindChild, Shape, Placed;
    BottomEdit(sha, node, key, offset, t, None);
  }

  /** At the bottom nothing lies above any more: the stack holds all the ancestors. */
  lemma BottomAncestors(sha: Hash, node: Node, key: Bytes, offset: nat, t: Tree)
    requires AtBottom(node, key, offset) && node == ToNode(sha, t)
    ensures Ancestors(t, key[offset..]) == 0
  {
    hide FindChild, Id;
    var rest := key[offset..];
    var common := Common(rest, t.lbl);
    if common == |t.lbl| && offset + common < |key| {
      FindOfRefs(sha, t.kids, key[offset + common]);
      assert rest[common..][0] == key[offset + common];
    }
  }

  /** One level down: the edit of the current subtree is the edit of the child, rebuilt through this node. */
  lemma DescentStep(sha: Hash, t: Tree, key: Bytes, b: Option<Digest>, edge: Option<byte>, offset: nat, cur: Tree,
                    ancestors: seq<Ancestor>, spine: seq<Frame>, next: nat, c: Tree)
    requires Descending(sha, t, key, b, edge, offset, cur, ancestors, spine)
    requires Shape(cur) && Placed(cur, key[..offset]) && (edge.Some? ==> Announced(Child(edge.value, cur)))
    requires next == offset + |cur.lbl| < |key| && cur.lbl <= key[offset..]
    requires FindChild(cur.kids, key[next]) == Some(c)
    ensures Descending(sha, t, key, b, Some(key[next]), next, c,
                       ancestors + [Ancestor(ToNode(sha, cur), key[next], offset)],
                       spine + [Frame(cur, key[next], offset)])
  {
    hide DecodeKey, FindChild, SetChild, Put, Lookup, Compress, SpineOk, Announced, Rebuild, Writes, Ancestors,
         RebuildWrites, Subtrees, KidSubtrees, Shape, Placed;
    var rest := key[offset..];
    assert rest[|cur.lbl|..] == key[next..] && rest[|cur.lbl|] == key[next];
    PutThroughChild(cur, rest, b, c);
    SpinePushed(sha, key, ancestors, spine, offset, cur, next);
    RebuildPushed(spine, Frame(cur, key[next], offset), Put(c, key[next..], b));
    FoundWithin(t, cur, key[next], c);
  }

  lemma FoundWithin(t: Tree, cur: Tree, edge: byte, c: Tree)
    requires cur in Subtrees(t) && FindChild(cur.kids, edge) == Some(c)
    ensures c in Subtrees(t)
  {
    hide Subtrees;
    var i :| 0 <= i < |cur.kids| && cur.kids[i] == Child(edge, c);
    ChildWithin(t, cur, i);
  }

  lemma RebuildPushed(spine: seq<Frame>, f: Frame, r: Option<Tree>)
    ensures var u := Compress(f.t.lbl, f.t.binding, SetChild(f.t.kids, f.edge, r));
            && Rebuild(spine + [f], r) == Rebuild(spine, u)
            && RebuildWrites(spine + [f], r) == Single(u) + RebuildWrites(spine, u)
  {
    hide Compress, SetChild;
    assert (spine + [f])[..|spine|] == spine;
  }

  lemma PutThroughChild(t: Tree, key: Bytes, b: Option<Digest>, c: Tree)
    requires t.lbl <= key && |key| > |t.lbl| && FindChild(t.kids, key[|t.lbl|]) == Some(c)
    ensures Lookup(t, key) == Lookup(c, key[|t.lbl|..])
    ensures Put(t, key, b) ==
            Compress(t.lbl, t.binding, SetChild(t.kids, key[|t.lbl|], Put(c, key[|t.lbl|..], b)))
    ensures Ancestors(t, key) == 1 + Ancestors(c, key[|t.lbl|..])
    ensures Writes(t, key, b) == Writes(c, key[|t.lbl|..], b) + Single(Put(t, key, b))
  {
    hide FindChild, SetChild, Compress, Single;
    assert Common(key, t.lbl) == |t.lbl|;
    assert key[|t.lbl|..][0] == key[|t.lbl|];
  }

  lemma SpinePushed(sha: Hash, key: Bytes, ancestors: seq<Ancestor>, spine: seq<Frame>, offset: nat, cur: Tree,
                    next: nat)
    requires SpineOk(sha, key, ancestors, spine, offset)
    requires offset <= |key| && Shape(cur) && Placed(cur, key[..offset])
    requires spine != [] ==> Announced(Child(spine[|spine| - 1].edge, cur))
    requires next == offset + |cur.lbl| < |key| && cur.lbl <= key[offset..]
    ensures SpineOk(sha, key, ancestors + [Ancestor(ToNode(sha, cur), key[next], offset)],
                    spine + [Frame(cur, key[next], offset)], next)
  {
    hide Shape, Placed, Id;
    var a, f := Ancestor(ToNode(sha, cur), key[next], offset), Frame(cur, key[next], offset);
    assert FrameOk(sha, key, a, f, next);
    assert (ancestors + [a])[..|spine|] == ancestors && (spine + [f])[..|spine|] == spine;
  }

  /** The stack of a descent holds the nodes it passed. */
  predicate Stacked(key: Bytes, ancestors: seq<Ancestor>, vs: seq<Visit>) {
    && |ancestors| == |vs|
    && forall i :: 0 <= i < |vs| ==>
         Past(vs[i]) < |key| && ancestors[i] == Ancestor(vs[i].node, key[Past(vs[i])], vs[i].offset)
  }

  /** The bottom of a complete descent. */
  ghost predicate BottomOf(key: Bytes, bottom: Bottom, vs: seq<Visit>) {
    && vs != [] && Stacked(key, bottom.ancestors, vs[..|vs| - 1])
    && var v := vs[|vs| - 1]; bottom.node == v.node && bottom.edge == v.edge && bottom.offset == v.offset
  }

  lemma StackedNothing(key: Bytes)
    ensures Stacked(key, [], [])
  {
  }

  /** The node passed is stacked, or is the bottom. */
  lemma StackedOn(key: Bytes, ancestors: seq<Ancestor>, vs: seq<Visit>, v: Visit)
    requires Stacked(key, ancestors, vs)
    ensures BottomOf(key, Bottom(v.node, v.edge, v.offset, ancestors), vs + [v])
    ensures Past(v) < |key| ==> Stacked(key, ancestors + [Ancestor(v.node, key[Past(v)], v.offset)], vs + [v])
  {
    assert (vs + [v])[..|vs|] == vs;
  }

  /** A descent over a traced trie goes down its subtrees. */
  lemma {:induction false} DescentTraced(sha: Hash, nodes: Nodes, root: Digest, t: Tree, key: Bytes, b: Option<Digest>,
                                         vs: seq<Visit>, id: Digest, edge: Option<byte>, offset: nat,
                                         ancestors: seq<Ancestor>)
    returns (cur: Tree, spine: seq<Frame>)
    requires Traced(sha, nodes, root, None, [], t) && Approach(sha, nodes, root, key, vs, id, edge, offset)
    requires Stacked(key, ancestors, vs) && offset <= |key|
    ensures Descending(sha, t, key, b, edge, offset, cur, ancestors, spine)
    ensures Traced(sha, nodes, id, edge, key[..offset], cur)
    decreases |vs|
  {
    hide Traced, Read, Descending, Loaded, Id;
    if vs == [] {
      cur, spine := t, [];
      DescentStarts(sha, t, key, b);
      assert key[..0] == [];
    } else {
      var n := |vs| - 1;
      var v := vs[n];
      ApproachInit(sha, nodes, root, key, vs, id, edge, offset);
      var cur0, spine0 := DescentTraced(sha, nodes, root, t, key, b, vs[..n], v.id, v.edge, v.offset, ancestors[..n]);
      cur := TracedOn(sha, nodes, key, v, cur0, id, edge, offset);
      TracedMeans(sha, nodes, v.id, v.edge, key[..v.offset], cur0);
      DescentStep(sha, t, key, b, v.edge, v.offset, cur0, ancestors[..n], spine0, offset, cur);
      spine := spine0 + [Frame(cur0, key[offset], v.offset)];
      assert ancestors == ancestors[..n] + [ancestors[n]];
    }
  }

  lemma TracedMeans(sha: Hash, nodes: Nodes, id: Digest, edge: Option<byte>, prefix: Bytes, g: Tree)
    requires Traced(sha, nodes, id, edge, prefix, g)
    ensures Shape(g) && Placed(g, prefix) && (edge.Some? ==> Announced(Child(edge.value, g))) && id == Id(sha, g)
    ensures Genuine(sha, nodes, g)
  {
    hide Shape, Placed, Genuine;
  }

  lemma TracedOn(sha: Hash, nodes: Nodes, key: Bytes, v: Visit, cur: Tree, id: Digest, edge: Option<byte>, offset: nat)
    returns (c: Tree)
    requires Read(sha, nodes, key, v) && Traced(sha, nodes, v.id, v.edge, key[..v.offset], cur)
    requires LeadsTo(key, v, id, edge, offset)
    ensures v.node == ToNode(sha, cur) && FindChild(cur.kids, key[offset]) == Some(c)
    ensures Traced(sha, nodes, id, edge, key[..offset], c)
  {
    hide Traced, Loaded, Id, FindChild;
    LoadedIsTraced(sha, nodes, v.id, v.edge, key[..v.offset], cur, v.node);
    ReadCanonical(sha, nodes, key, v);
    ChildFound(v.node, key[offset], id);
    FindOfRefs(sha, cur.kids, key[offset]);
    c := FindChild(cur.kids, key[offset]).value;
    DescendTraced(sha, nodes, v.id, v.edge, key[..v.offset], cur, key[offset]);
    assert key[..v.offset] + cur.lbl == key[..offset];
  }

  /** A finished descent: the edit of `t` is the edit of `cur` and the way up. */
  ghost predicate Poised(sha: Hash, t: Tree, key: Bytes, b: Option<Digest>, bottom: Bottom, cur: Tree,
                         spine: seq<Frame>)
  {
    && BottomKnown(sha, bottom.node, key, bottom.offset, Some(cur))
    && (bottom.edge.Some? ==> Announced(Child(bottom.edge.value, cur)))
    && Descending(sha, t, key, b, bottom.edge, bottom.offset, cur, bottom.ancestors, spine)
  }

  lemma PoisedMeans(sha: Hash, t: Tree, key: Bytes, b: Option<Digest>, bottom: Bottom, cur: Tree, spine: seq<Frame>)
    requires Poised(sha, t, key, b, bottom, cur, spine)
    ensures bottom.offset <= |key| && BottomKnown(sha, bottom.node, key, bottom.offset, Some(cur))
    ensures Lookup(t, key) == Lookup(cur, key[bottom.offset..])
    ensures Rebuild(spine, Put(cur, key[bottom.offset..], b)) == Put(t, key, b)
    ensures Writes(cur, key[bottom.offset..], b) + RebuildWrites(spine, Put(cur, key[bottom.offset..], b))
            == Writes(t, key, b)
  {
    hide Put, Writes, Ancestors, RebuildWrites, Rebuild, Lookup, SpineOk, BottomKnown, Subtrees;
  }

  /** A complete descent over a traced trie poises the edit. */
  lemma ChainPoised(sha: Hash, nodes: Nodes, root: Digest, t: Tree, path: Bytes, key: Bytes, b: Option<Digest>,
                    vs: seq<Visit>, bottom: Bottom)
    returns (cur: Tree, spine: seq<Frame>)
    requires Traced(sha, nodes, root, None, [], t) && EncodeKey(path) == Ok(key)
    requires Chain(sha, nodes, root, key, vs) && BottomOf(key, bottom, vs)
    requires AtBottom(bottom.node, key, bottom.offset)
    ensures Poised(sha, t, key, b, bottom, cur, spine)
    ensures Ancestors(t, key) == |bottom.ancestors|
  {
    hide Traced, Loaded, DecodeKey, EncodeKey, Put, Writes, Ancestors, RebuildWrites, Rebuild, Lookup, Subtrees, Id,
         Chain, Shape, Placed, Genuine;
    var n := |vs| - 1;
    var v := vs[n];
    ChainSplits(sha, nodes, root, key, vs);
    cur, spine := DescentTraced(sha, nodes, root, t, key, b, vs[..n], v.id, v.edge, v.offset, bottom.ancestors);
    LoadedIsTraced(sha, nodes, v.id, v.edge, key[..v.offset], cur, v.node);
    TracedMeans(sha, nodes, v.id, v.edge, key[..v.offset], cur);
    KeyBounds(path);
    BottomAncestors(sha, bottom.node, key, bottom.offset, cur);
  }

  /** The subtrees on the way of a descent are genuine, or stored, with the whole trie. */
  lemma PoisedGenuine(sha: Hash, nodes: Nodes, t: Tree, key: Bytes, b: Option<Digest>, bottom: Bottom, cur: Tree,
                      spine: seq<Frame>)
    requires Poised(sha, t, key, b, bottom, cur, spine) && Genuine(sha, nodes, t)
    ensures KidsVouched(sha, nodes, cur) && SpineGenuine(sha, nodes, spine)
  {
    hide Put, Writes, Ancestors, RebuildWrites, Rebuild, Lookup, SpineOk, BottomKnown, Subtrees, Vouched;
    forall u | u in Subtrees(t) ensures KidsVouched(sha, nodes, u) {
      forall i | 0 <= i < |u.kids| ensures Vouched(sha, nodes, u.kids[i].target) {
        ChildWithin(t, u, i);
      }
    }
  }

  /** All nodes of the trie are stored; the empty trie has none to store. */
  ghost predicate TreeStored(sha: Hash, nodes: Nodes, t: Tree) {
    t == EMPTY || AllStored(sha, nodes, Subtrees(t))
  }

  lemma PoisedStored(sha: Hash, nodes: Nodes, t: Tree, key: Bytes, b: Option<Digest>, bottom: Bottom, cur: Tree,
                     spine: seq<Frame>)
    requires Poised(sha, t, key, b, bottom, cur, spine) && TreeStored(sha, nodes, t)
    ensures KidsStored(sha, nodes, cur) && SpineStored(sha, nodes, spine)
  {
    hide Put, Writes, Ancestors, RebuildWrites, Rebuild, Lookup, SpineOk, BottomKnown, Subtrees, Stored;
    forall u | u in Subtrees(t) ensures KidsStored(sha, nodes, u) {
      forall i | 0 <= i < |u.kids| ensures Stored(sha, nodes, u.kids[i].target) {
        ChildWithin(t, u, i);
        if t == EMPTY {
          EmptyAlone();
        }
      }
    }
  }

  /** A stored trie stays stored, and is genuine. */
  lemma StoredStays(sha: Hash, before: Nodes, after: Nodes, t: Tree)
    requires TreeStored(sha, before, t) && Extends(before, after) && EmptyRootUnused(sha, after)
    ensures TreeStored(sha, after, t) && Genuine(sha, after, t)
  {
    hide Stored, Subtrees, Id, NodeBytes, ToNode;
    if AllStored(sha, before, Subtrees(t)) {
      AllStoredGrows(sha, before, after, Subtrees(t));
    }
    forall u | u in Subtrees(t) ensures Vouched(sha, after, u) {
      if AllStored(sha, after, Subtrees(t)) {
        StoredIsVouched(sha, after, u);
      } else {
        EmptyAlone();
        EmptyDenotesNothing(sha);
      }
    }
  }

  lemma SinglesStored(sha: Hash, nodes: Nodes, t: Option<Tree>, ws: set<Tree>)
    requires AllStored(sha, nodes, ws) && Single(t) <= ws
    ensures AllStored(sha, nodes, Single(t))
  {
    hide Stored;
  }

  /** The replacement of the bottom subtree is saved: start rewriting its ancestors. */
  lemma DescentTurns(sha: Hash, after: Nodes, t: Tree, key: Bytes, b: Option<Digest>, bottom: Bottom, cur: Tree,
                     spine: seq<Frame>, saved: Option<Digest>)
    requires Poised(sha, t, key, b, bottom, cur, spine)
    requires saved == IdOpt(sha, Put(cur, key[bottom.offset..], b))
    requires AllStored(sha, after, Single(Put(cur, key[bottom.offset..], b)))
    ensures Unwinding(sha, after, key, bottom.ancestors, spine, bottom.offset, saved, Put(cur, key[bottom.offset..], b))
  {
    hide Stored, Put, Lookup, Writes, Ancestors, RebuildWrites, Rebuild, Subtrees, DecodeKey, SpineOk, Id, Shape,
         Placed;
    var rest := key[bottom.offset..];
    var rep := Put(cur, rest, b);
    assert key[..bottom.offset] + rest == key;
    PutKeeps(cur, rest, b, key[..bottom.offset]);
    if rep.Some? {
      assert rep.value in Single(rep);
      if spine != [] {
        SpineEdge(sha, key, bottom.ancestors, spine, bottom.offset);
        PutAnnounced(cur, rest, b);
      }
    }
  }

  lemma SpineEdge(sha: Hash, key: Bytes, ancestors: seq<Ancestor>, spine: seq<Frame>, offset: nat)
    requires SpineOk(sha, key, ancestors, spine, offset) && spine != []
    ensures offset < |key| && spine[|spine| - 1].edge == key[offset]
  {
    assert FrameOk(sha, key, ancestors[|spine| - 1], spine[|spine| - 1], offset);
  }

  // ----- the new root -----

  /** The trie after the edit is held as soon as the nodes of the edit are stored beside those of the old one. */
  lemma EditIsHeld(sha: Hash, before: Nodes, after: Nodes, t: Tree, key: Bytes, b: Option<Digest>)
    requires Shape(t) && Placed(t, []) && (t == EMPTY || Holds(sha, before, t)) && Extends(before, after)
    requires DecodeKey(key).Ok? && EmptyRootUnused(sha, after) && AllStored(sha, after, Writes(t, key, b))
    ensures Shape(PutRoot(t, key, b)) && Placed(PutRoot(t, key, b), [])
    ensures PutRoot(t, key, b) == EMPTY || Holds(sha, after, PutRoot(t, key, b))
  {
    hide DecodeKey, Holds, Subtrees, Writes, Put, Stored, Lookup;
    var u := PutRoot(t, key, b);
    PutRootMeans(t, key, b);
    if u != EMPTY {
      PutShares(t, key, b);
      forall x | x in Subtrees(u) ensures Stored(sha, after, x) {
        NoEmptyBelow(u, x);
        if x in Subtrees(t) {
          OldIsStored(sha, before, after, t, x);
        }
      }
      StoredIsHeld(sha, after, u, []);
    }
  }

  lemma OldIsStored(sha: Hash, before: Nodes, after: Nodes, t: Tree, x: Tree)
    requires (t == EMPTY || Holds(sha, before, t)) && Extends(before, after) && x in Subtrees(t) && x != EMPTY
    ensures Stored(sha, after, x)
  {
    hide Holds, Subtrees, Id, NodeBytes;
    if t == EMPTY {
      EmptyAlone();
    } else {
      HeldIsStored(sha, before, t);
      assert Stored(sha, before, x);
    }
  }

  /** The root that an update answers with. */
  function RootOf(sha: Hash, id: Option<Digest>): Digest {
    if id.Some? then id.value else EmptyRoot(sha)
  }

  lemma RootIsId(sha: Hash, t: Tree, key: Bytes, b: Option<Digest>)
    ensures RootOf(sha, IdOpt(sha, Put(t, key, b))) == Id(sha, PutRoot(t, key, b))
  {
    hide Put, Id;
    EmptyDenotesNothing(sha);
  }

  /** The edited trie is well-formed under its digest, with exactly one path changed, and shares its other nodes. */
  lemma NewRoot(sha: Hash, before: Nodes, after: Nodes, root: Digest, path: Bytes, b: Option<Digest>)
    requires WellFormed(sha, before, root) && EncodeKey(path).Ok? && Extends(before, after)
             && EmptyRootUnused(sha, after)
    requires AllStored(sha, after, Writes(TreeOf(sha, before, root), EncodeKey(path).value, b))
    ensures var t, key := TreeOf(sha, before, root), EncodeKey(path).value;
            var root' := Id(sha, PutRoot(t, key, b));
            && WellFormed(sha, after, root')
            && Bindings(sha, after, root') == Rebound(Bindings(sha, before, root), path, b)
            && |Reachable(sha, after, root') - Reachable(sha, before, root)| <= Ancestors(t, key) + 3
  {
    hide DecodeKey, EncodeKey, PathMap, Holds, Shape, Placed, Writes, Ancestors, Id, PutRoot, NodeIds, AllStored;
    var t, key := TreeOf(sha, before, root), EncodeKey(path).value;
    var u := PutRoot(t, key, b);
    KeyBounds(path);
    EditIsHeld(sha, before, after, t, key, b);
    PutRootPathMap(t, path, b);
    assert Denotes(sha, after, Id(sha, u), [], u);
    BindingsOf(sha, after, Id(sha, u), u);
    EditSharesNodes(sha, t, key, b);
  }

  /** The binding that an update is about to replace. */
  lemma BindingAhead(sha: Hash, nodes: Nodes, root: Digest, path: Bytes)
    requires WellFormed(sha, nodes, root) && EncodeKey(path).Ok?
    ensures Get(Bindings(sha, nodes, root), path) == Lookup(TreeOf(sha, nodes, root), EncodeKey(path).value)
  {
    hide EncodeKey, PathMap, Lookup;
    PathMapMeans(TreeOf(sha, nodes, root), path);
  }

  function Rebound(m: map<Bytes, Digest>, path: Bytes, b: Option<Digest>): map<Bytes, Digest> {
    if b.Some? then m[path := b.value] else m - {path}
  }

  /** What a history of edits, oldest first, has bound in the end. */
  function Outcome(edits: seq<(Bytes, Option<Digest>)>): map<Bytes, Digest> {
    if edits == [] then map[]
    else
      var (path, b) := edits[|edits| - 1];
      Rebound(Outcome(edits[..|edits| - 1]), path, b)
  }

  lemma OutcomeStep(edits: seq<(Bytes, Option<Digest>)>, i: nat)
    requires i < |edits|
    ensures Outcome(edits[..i + 1]) == Rebound(Outcome(edits[..i]), edits[i].0, edits[i].1)
  {
    hide Rebound;
    assert edits[..i + 1][..i] == edits[..i];
  }

  /** Two histories with the same outcome, replayed into any two stores, end in the same root. */
  lemma SameOutcomeSameRoot(sha: Hash, edits: seq<(Bytes, Option<Digest>)>, nodes: Nodes, root: Digest,
                            edits': seq<(Bytes, Option<Digest>)>, nodes': Nodes, root': Digest)
    requires WellFormed(sha, nodes, root) && Bindings(sha, nodes, root) == Outcome(edits)
    requires WellFormed(sha, nodes', root') && Bindings(sha, nodes', root') == Outcome(edits')
    ensures Outcome(edits) == Outcome(edits') ==> root == root'
    ensures Outcome(edits) == map[] <==> root == EmptyRoot(sha)
  {
    NoBindingsIsEmptyRoot(sha, nodes, root);
    if Outcome(edits) == Outcome(edits') {
      RootDependsOnBindingsOnly(sha, nodes, root, nodes', root');
    }
  }

  lemma ReboundTwice(m: map<Bytes, Digest>, path: Bytes, b: Digest)
    requires Get(m, path) == Some(b)
    ensures Rebound(Rebound(m, path, None), path, Some(b)) == m
  {
  }

  /** Removing a binding and setting it again is no edit at all. */
  lemma DeleteReinsertOutcome(edits: seq<(Bytes, Option<Digest>)>, path: Bytes)
    requires path in Outcome(edits)
    ensures Outcome(edits + [(path, None), (path, Some(Outcome(edits)[path]))]) == Outcome(edits)
  {
    var b := Outcome(edits)[path];
    var longer := edits + [(path, None), (path, Some(b))];
    assert longer[..|longer| - 1] == edits + [(path, None)];
    assert (edits + [(path, None)])[..|edits|] == edits;
  }

  lemma ReboundToItself(m: map<Bytes, Digest>, path: Bytes, b: Option<Digest>)
    requires Get(m, path) == b
    ensures Rebound(m, path, b) == m
  {
  }
}
