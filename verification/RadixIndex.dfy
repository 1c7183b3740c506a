/** The index operations over a store: `load`, `save`, `update`, `get`, `longest_prefix`. */
module RadixIndex {
  import opened Base
  import opened RadixKey
  import opened RadixNode
  import opened RadixTree
  import opened RadixGraph
  import opened Store
  import opened RadixLink
  import opened RadixChain
  import opened RadixWalk
  import opened RadixEdit
  import opened RadixShare

  /** What storing one more node can cost, and what it cannot touch. */
  twostate predicate Appended(sha: Hash, store: NodeStore, nodes: nat)
    reads store
  {
    && store.readCount <= old(store.readCount) + nodes
    && store.insertCount <= old(store.insertCount) + nodes
    && Extends(old(store.nodes), store.nodes)
    && (Honest(sha, old(store.nodes)) ==> Honest(sha, store.nodes))
  }

  /** Why a descent may fail: a stored node breaks the rules, or a node is not there, or the store gave up. */
  ghost predicate FailsRightly(sha: Hash, nodes: Nodes, reliable: bool, root: Digest, key: Bytes, e: IndexError) {
    match e
    case Codec(c) => Broken(sha, nodes, root, key, c)
    case StoreUnavailable => reliable ==> Missing(sha, nodes, root, key)
  }

  /** The answer of a load. */
  ghost predicate Loads(sha: Hash, nodes: Nodes, reliable: bool, id: Digest, edge: Option<byte>, prefix: Bytes,
                        r: IndexResult<Node>)
  {
    && (r == Err(StoreUnavailable)
        || (Available(sha, nodes, id) && r == Lift(Fetch(sha, nodes, id, edge, prefix))))
    && (r == Err(StoreUnavailable) ==> id != EmptyRoot(sha) && (reliable ==> !Available(sha, nodes, id)))
  }

  lemma LoadsMeans(sha: Hash, nodes: Nodes, reliable: bool, id: Digest, edge: Option<byte>, prefix: Bytes,
                   r: IndexResult<Node>)
    requires Loads(sha, nodes, reliable, id, edge, prefix, r)
    ensures r.Ok? ==> Loaded(sha, nodes, id, edge, prefix, r.value)
  {
    hide Loaded, Fetch;
    if r.Ok? {
      FetchMeans(sha, nodes, id, edge, prefix, r.value);
    }
  }

  lemma LoadFails(sha: Hash, nodes: Nodes, reliable: bool, root: Digest, key: Bytes, vs: seq<Visit>,
                  id: Digest, edge: Option<byte>, offset: nat, r: IndexResult<Node>)
    requires offset <= |key| && Approach(sha, nodes, root, key, vs, id, edge, offset)
    requires Loads(sha, nodes, reliable, id, edge, key[..offset], r) && r.Err?
    ensures FailsRightly(sha, nodes, reliable, root, key, r.error)
  {
    hide Approach, Fetch, Available;
    if r == Err(StoreUnavailable) {
      if reliable {
        assert Misses(sha, nodes, root, key, vs, id, edge, offset);
      }
    } else {
      assert Breaks(sha, nodes, root, key, r.error.error, vs, id, edge, offset);
    }
  }

  /** A descent that can be completed does not fail, but for a failing store. */
  lemma ChainSucceeds(sha: Hash, nodes: Nodes, reliable: bool, root: Digest, key: Bytes, all: seq<Visit>, e: IndexError)
    requires Chain(sha, nodes, root, key, all) && FailsRightly(sha, nodes, reliable, root, key, e)
    ensures e == StoreUnavailable && !reliable
  {
    hide Chain, Missing, Broken;
    ChainNotBroken(sha, nodes, root, key, all);
  }

  /** Over a held root no descent fails, but for a failing store. */
  lemma HeldSucceeds(sha: Hash, nodes: Nodes, reliable: bool, root: Digest, key: Bytes, e: IndexError)
    requires WellFormed(sha, nodes, root) && FailsRightly(sha, nodes, reliable, root, key, e)
    ensures e == StoreUnavailable && !reliable
  {
    hide Chain, FailsRightly, WellFormed;
    var all := HeldChain(sha, nodes, root, key);
    ChainSucceeds(sha, nodes, reliable, root, key, all, e);
  }

  /** The answer over a held root. */
  lemma HeldTellsTruth(sha: Hash, nodes: Nodes, root: Digest, path: Bytes, vs: seq<Visit>, ancestors: bool,
                       answer: Option<(Bytes, Digest)>)
    requires WellFormed(sha, nodes, root) && EncodeKey(path).Ok?
    requires Chain(sha, nodes, root, EncodeKey(path).value, vs)
    requires ChainAnswer(EncodeKey(path).value, path, vs, ancestors, answer)
    ensures WalkAnswer(Bindings(sha, nodes, root), path, ancestors, answer)
  {
    hide Chain, ChainAnswer, WellFormed, Traced, WalkAnswer, EncodeKey, Bindings, PathMap, Denotes;
    var t := TreeOf(sha, nodes, root);
    HeldRootTraced(sha, nodes, root, t);
    ChainTellsTruth(sha, nodes, root, t, path, vs, ancestors, answer);
  }

  lemma ApproachStarts(sha: Hash, nodes: Nodes, root: Digest, key: Bytes)
    ensures Approach(sha, nodes, root, key, [], root, None, 0)
    ensures LastBound(key, [], None)
  {
  }

  /** One more node of a descent. */
  lemma Visited(sha: Hash, nodes: Nodes, root: Digest, key: Bytes, vs: seq<Visit>, v: Visit)
    requires Approach(sha, nodes, root, key, vs, v.id, v.edge, v.offset)
    requires v.offset <= |key| && Loaded(sha, nodes, v.id, v.edge, key[..v.offset], v.node)
    ensures Stops(key, v) ==> Chain(sha, nodes, root, key, vs + [v])
    ensures forall id, edge, offset :: LeadsTo(key, v, id, edge, offset) ==>
              Approach(sha, nodes, root, key, vs + [v], id, edge, offset)
  {
    hide Approach, Chain, Loaded, LeadsTo, Stops;
    ApproachRead(sha, nodes, root, key, vs, v);
  }

  lemma StopsShort(key: Bytes, v: Visit)
    requires Passes(key, v) ==> Past(v) >= |key|
    ensures Stops(key, v)
  {
  }

  /** The binding recorded at one more node of a walk. */
  lemma WalkRecords(key: Bytes, vs: seq<Visit>, v: Visit, before: Option<(Bytes, Digest)>,
                    after: Option<(Bytes, Digest)>)
    requires LastBound(key, vs, before)
    requires if Passes(key, v) && v.node.binding.Some? then
               && DecodeKey(key[..Past(v)]).Ok?
               && after == Some((DecodeKey(key[..Past(v)]).value, v.node.binding.value))
             else after == before
    ensures LastBound(key, vs + [v], after)
  {
    hide DecodeKey, LastBound;
    LastBoundGrows(key, vs, v, before, after);
  }

  /** The answer of a walk that went down `vs`. */
  lemma WalkAnswers(sha: Hash, nodes: Nodes, root: Digest, key: Bytes, path: Bytes, vs: seq<Visit>, ancestors: bool,
                    found: Option<(Bytes, Digest)>)
    requires EncodeKey(path) == Ok(key) && Chain(sha, nodes, root, key, vs) && LastBound(key, vs, found)
    ensures var last := vs[|vs| - 1];
            var whole := Passes(key, last) && Past(last) == |key|;
            ChainAnswer(key, path, vs, ancestors,
                        if ancestors then found
                        else if whole && found.Some? && found.value.0 == path then found else None)
  {
    hide EncodeKey, LastBound, Chain;
    ChainOffsets(sha, nodes, root, key, vs);
    ChainNotEmpty(sha, nodes, root, key, vs);
    if !ancestors {
      OwnIsLast(key, path, vs, found);
    }
  }

  lemma ChainNotEmpty(sha: Hash, nodes: Nodes, root: Digest, key: Bytes, vs: seq<Visit>)
    requires Chain(sha, nodes, root, key, vs)
    ensures vs != []
  {
  }

  /** Where the next child is, or that the descent ends. */
  lemma Turns(sha: Hash, nodes: Nodes, key: Bytes, v: Visit)
    requires v.offset <= |key| && Loaded(sha, nodes, v.id, v.edge, key[..v.offset], v.node)
    requires Passes(key, v) && Past(v) < |key|
    ensures FindChild(v.node.children, key[Past(v)]) == None ==> Stops(key, v)
    ensures FindChild(v.node.children, key[Past(v)]).Some? ==>
              LeadsTo(key, v, FindChild(v.node.children, key[Past(v)]).value, Some(key[Past(v)]), Past(v))
  {
    hide Loaded, FindChild;
    assert Read(sha, nodes, key, v);
    ReadCanonical(sha, nodes, key, v);
    if FindChild(v.node.children, key[Past(v)]).Some? {
      ChildFound(v.node, key[Past(v)], FindChild(v.node.children, key[Past(v)]).value);
    } else {
      forall c | c in v.node.children ensures c.edge != key[Past(v)] {
        ChildFound(v.node, c.edge, c.target);
      }
    }
  }

  /** What a call has saved, if it succeeded. */
  function Saved<T>(r: IndexResult<T>): Option<T> {
    if r.Ok? then Some(r.value) else None
  }

  function SavedId(r: IndexResult<Digest>): Option<Option<Digest>> {
    if r.Ok? then Some(Some(r.value)) else None
  }

  function SavedEdit(r: IndexResult<Option<Option<Digest>>>): Option<Option<Digest>> {
    if r.Ok? then r.value else None
  }

  lemma SavedNothing(sha: Hash, nodes: Nodes, edited: Node, prefix: Bytes)
    requires Shrinks(sha, nodes, edited, prefix, None)
    ensures SavesTo(sha, nodes, edited, prefix, None)
  {
    hide Shrinks;
    assert InPlace(sha, nodes, prefix, None, None);
  }

  lemma SavedNode(sha: Hash, before: Nodes, after: Nodes, edited: Node, prefix: Bytes, node: Node)
    requires Extends(before, after) && Shrinks(sha, before, edited, prefix, Some(node))
    requires Canonical(node) && ValidatePosition(prefix, node).Ok?
    requires sha(NodeBytes(node)) in after && after[sha(NodeBytes(node))] == NodeBytes(node)
    ensures SavesTo(sha, after, edited, prefix, Some(sha(NodeBytes(node))))
  {
    hide Canonical, ValidatePosition, NodeBytes, DecodeKey;
    if edited.binding.None? && |edited.children| == 1 {
      var child :| Merges(sha, before, edited, prefix, child, Some(node));
      assert Merges(sha, after, edited, prefix, child, Some(node));
    }
    assert InPlace(sha, after, prefix, Some(node), Some(sha(NodeBytes(node))));
  }

  lemma EditedNode(sha: Hash, edited: Node, prefix: Bytes, g: Tree)
    requires Edited(sha, edited, prefix, g)
    ensures edited == ToNode(sha, g) && |edited.children| == |g.kids|
    ensures Compress(g.lbl, g.binding, g.kids).Some? <==> g.binding.Some? || g.kids != []
  {
  }

  /** The only child of an edited node, as loaded, makes the merged node. */
  lemma OnlyChildLoads(sha: Hash, nodes: Nodes, reliable: bool, edited: Node, prefix: Bytes, g: Tree,
                       r: IndexResult<Node>)
    requires Edited(sha, edited, prefix, g) && Mergeable(sha, nodes, g) && |g.kids| == 1 && g.binding.None?
    requires Loads(sha, nodes, reliable, Id(sha, g.kids[0].target), Some(g.kids[0].edge), prefix + g.lbl, r)
    ensures r.Ok? ==>
              && Compress(g.lbl, g.binding, g.kids).Some?
              && Node(g.lbl + r.value.lbl, r.value.binding, r.value.children)
                 == ToNode(sha, Compress(g.lbl, g.binding, g.kids).value)
    ensures reliable && MergeStored(sha, nodes, g) && EmptyRootUnused(sha, nodes) ==> r.Ok?
  {
    hide Edited, Loads, Loaded, DecodeKey, NodeBytes, Id, ToNode, Compress, Shape, Placed, Vouched, EmptyRootUnused,
         Stored;
    var kid := g.kids[0];
    OnlyChild(sha, nodes, edited, prefix, g);
    LoadsMeans(sha, nodes, reliable, Id(sha, kid.target), Some(kid.edge), prefix + g.lbl, r);
    if r.Ok? {
      LoadedIsVouched(sha, nodes, Id(sha, kid.target), Some(kid.edge), prefix + g.lbl, kid.target, r.value);
      MergedNode(sha, g, kid.target);
    }
    if MergeStored(sha, nodes, g) && EmptyRootUnused(sha, nodes) {
      StoredNotEmpty(sha, nodes, kid.target, prefix + g.lbl);
      StoredLoads(sha, nodes, Some(kid.edge), prefix + g.lbl, kid.target);
      LoadsReliably(sha, nodes, reliable, Id(sha, kid.target), Some(kid.edge), prefix + g.lbl, r,
                    ToNode(sha, kid.target));
    }
  }

  lemma LoadsReliably(sha: Hash, nodes: Nodes, reliable: bool, id: Digest, edge: Option<byte>, prefix: Bytes,
                      r: IndexResult<Node>, node: Node)
    requires Loads(sha, nodes, reliable, id, edge, prefix, r) && Loaded(sha, nodes, id, edge, prefix, node)
    ensures reliable ==> r == Ok(node)
  {
    hide Loaded, Fetch, Available;
    FetchMeans(sha, nodes, id, edge, prefix, node);
  }

  /** One insertion. */
  lemma SavedOne(sha: Hash, before: Nodes, after: Nodes, reliable: bool, ok: bool, ts: set<Tree>, t: Tree)
    requires after == before || after == before[Id(sha, t) := NodeBytes(ToNode(sha, t))]
    requires ok ==> Stored(sha, after, t)
    requires reliable && (Id(sha, t) in before ==> before[Id(sha, t)] == NodeBytes(ToNode(sha, t))) ==> ok
    ensures OnlyAdded(sha, before, after, {t}) && (ok ==> AllStored(sha, after, {t}))
    ensures Fits(sha, before, after, reliable, ok, ts, {t})
  {
    hide Id, NodeBytes, ToNode, Room;
    if Room(sha, before, ts) && t in ts {
      RoomKept(sha, before, after, ts, t);
      if Id(sha, t) in before {
        RoomForOne(sha, before, ts, t);
      }
    }
  }

  // ----- a call of several steps -----

  lemma StepFailed(sha: Hash, before: Nodes, after: Nodes, reliable: bool, ts: set<Tree>,
                   s: Option<Tree>, us: set<Tree>, t: Option<Tree>, ws: set<Tree>)
    requires Puts(sha, before, after, s, us, None) && us <= ws
    ensures Puts(sha, before, after, t, ws, None)
    ensures Fits(sha, before, after, reliable, false, ts, us) ==> Fits(sha, before, after, reliable, false, ts, ws)
  {
    hide OnlyAdded, Fits;
    PutsFailed(sha, before, after, us, t, ws);
    if Fits(sha, before, after, reliable, false, ts, us) {
      FitsFailed(sha, before, after, reliable, ts, us, ws);
    }
  }

  lemma FirstStep(sha: Hash, before: Nodes, after: Nodes, t: Option<Tree>, ws: set<Tree>, saved: Option<Digest>)
    requires Puts(sha, before, after, t, ws, Some(saved))
    ensures OnlyAdded(sha, before, after, ws) && AllStored(sha, after, ws) && saved == IdOpt(sha, t)
  {
    hide OnlyAdded, AllStored, IdOpt;
  }

  lemma StepThrough(sha: Hash, before: Nodes, middle: Nodes, after: Nodes, reliable: bool, ts: set<Tree>,
                    us: set<Tree>, t: Option<Tree>, vs: set<Tree>, ws: set<Tree>, saved: Option<Option<Digest>>)
    requires OnlyAdded(sha, before, middle, us) && AllStored(sha, middle, us) && Extends(middle, after)
    requires Puts(sha, middle, after, t, vs, saved) && ws == us + vs
    ensures Puts(sha, before, after, t, ws, saved)
    ensures Fits(sha, before, middle, reliable, true, ts, us)
            && Fits(sha, middle, after, reliable, saved.Some?, ts, vs) ==>
              Fits(sha, before, after, reliable, saved.Some?, ts, ws)
  {
    hide OnlyAdded, AllStored, Puts, Fits, Extends;
    PutsThrough(sha, before, middle, after, us, t, vs, ws, saved);
    if Fits(sha, before, middle, reliable, true, ts, us) && Fits(sha, middle, after, reliable, saved.Some?, ts, vs) {
      FitsThrough(sha, before, middle, after, reliable, saved.Some?, ts, us, vs, ws);
    }
  }

  lemma NoRoom(sha: Hash, before: Nodes, after: Nodes, reliable: bool, ok: bool, ts: set<Tree>, ws: set<Tree>)
    requires !EmptyRootUnused(sha, before)
    ensures Fits(sha, before, after, reliable, ok, ts, ws)
  {
    hide EmptyRootUnused;
    if Room(sha, before, ts) {
      RoomIsUnused(sha, before, ts);
    }
  }

  /** Where the first step has used up the room, nothing is promised. */
  lemma FitsNowhere(sha: Hash, before: Nodes, middle: Nodes, after: Nodes, reliable: bool, ok: bool, ts: set<Tree>,
                    us: set<Tree>, ws: set<Tree>)
    requires Fits(sha, before, middle, reliable, true, ts, us) && us <= ws && !EmptyRootUnused(sha, middle)
    ensures Fits(sha, before, after, reliable, ok, ts, ws)
  {
    hide EmptyRootUnused;
    if Room(sha, middle, ts) {
      RoomIsUnused(sha, middle, ts);
    }
  }

  /** A node whose only child is the leaf just stored. */
  lemma LeafMergeable(sha: Hash, nodes: Nodes, g: Tree, leaf: Tree)
    requires |g.kids| == 1 ==> g.kids[0].target == leaf
    requires AllStored(sha, nodes, {leaf})
    ensures MergeStored(sha, nodes, g) && (EmptyRootUnused(sha, nodes) ==> Mergeable(sha, nodes, g))
  {
    hide Stored, Vouched, EmptyRootUnused;
    assert Stored(sha, nodes, leaf);
    if EmptyRootUnused(sha, nodes) {
      StoredIsVouched(sha, nodes, leaf);
    }
  }

  /** A node that keeps its children. */
  lemma ReboundMergeable(sha: Hash, before: Nodes, after: Nodes, t: Tree, g: Tree)
    requires g.kids == t.kids && Extends(before, after)
    ensures KidsVouched(sha, after, t) ==> Mergeable(sha, before, g)
    ensures KidsStored(sha, before, t) ==> MergeStored(sha, before, g)
    ensures KidsStored(sha, before, t) && EmptyRootUnused(sha, before) ==> Mergeable(sha, before, g)
  {
    hide Stored, Vouched, EmptyRootUnused, Extends;
    if KidsVouched(sha, after, t) {
      KidsVouchedBefore(sha, before, after, t);
    }
    if KidsStored(sha, before, t) && EmptyRootUnused(sha, before) {
      KidsStoredVouched(sha, before, t);
    }
  }

  lemma UnusedBefore(sha: Hash, before: Nodes, after: Nodes)
    requires Extends(before, after) && EmptyRootUnused(sha, after)
    ensures EmptyRootUnused(sha, before)
  {
  }

  lemma ExtendsItself(nodes: Nodes)
    ensures Extends(nodes, nodes)
  {
  }

  // ----- the way up -----

  /** What a save has done for the edited trie `g`. */
  ghost predicate Kept(sha: Hash, before: Nodes, after: Nodes, reliable: bool, edited: Node, prefix: Bytes, g: Tree,
                       ts: set<Tree>, saved: Option<Option<Digest>>)
  {
    Edited(sha, edited, prefix, g) && Mergeable(sha, before, g) ==>
      var t := Compress(g.lbl, g.binding, g.kids);
      && Puts(sha, before, after, t, Single(t), saved)
      && (MergeStored(sha, before, g) ==> Fits(sha, before, after, reliable, saved.Some?, ts, Single(t)))
  }

  /** The loop of the way up, seen from the trie: what is done so far, and that there is still room for the rest. */
  ghost predicate ClimbState(sha: Hash, before: Nodes, now: Nodes, key: Bytes, stack: seq<Ancestor>,
                             saved: Option<Digest>, spine: seq<Frame>, rep: Option<Tree>, offset: nat,
                             rp: Option<Tree>, done: set<Tree>, ts: set<Tree>, room: bool)
  {
    && Extends(before, now) && |stack| <= |spine|
    && (EmptyRootUnused(sha, now) && SpineGenuine(sha, now, spine) ==>
          Climbing(sha, before, now, key, stack, saved, spine, rep, offset, rp, done))
    && (room ==> Room(sha, now, ts) && SpineStored(sha, now, spine) && RebuildWrites(spine, rep) <= ts)
  }

  /** What the way up has done, finished or not. */
  ghost predicate Propagated(sha: Hash, before: Nodes, now: Nodes, reliable: bool, spine: seq<Frame>, rep: Option<Tree>,
                             ts: set<Tree>, saved: Option<Option<Digest>>)
  {
    var t, ws := Rebuild(spine, rep), RebuildWrites(spine, rep);
    && (EmptyRootUnused(sha, now) && SpineGenuine(sha, now, spine) ==> Puts(sha, before, now, t, ws, saved))
    && (SpineStored(sha, before, spine) ==> Fits(sha, before, now, reliable, saved.Some?, ts, ws))
  }

  lemma ClimbStateStarts(sha: Hash, nodes: Nodes, key: Bytes, ancestors: seq<Ancestor>, saved: Option<Digest>,
                         spine: seq<Frame>, rep: Option<Tree>, offset: nat, ts: set<Tree>)
    requires Unwinding(sha, nodes, key, ancestors, spine, offset, saved, rep)
    ensures var room := SpineStored(sha, nodes, spine) && Room(sha, nodes, ts) && RebuildWrites(spine, rep) <= ts;
            ClimbState(sha, nodes, nodes, key, ancestors, saved, spine, rep, offset, rep, {}, ts, room)
  {
    hide Unwinding, Climbing, EmptyRootUnused, SpineGenuine, SpineStored, Room, RebuildWrites;
    ClimbStarts(sha, nodes, key, ancestors, saved, spine, offset, rep);
  }

  /** One ancestor saved, or not. */
  lemma ClimbStateStep(sha: Hash, before: Nodes, now: Nodes, after: Nodes, reliable: bool, key: Bytes,
                       stack: seq<Ancestor>, saved: Option<Digest>, spine: seq<Frame>, rep: Option<Tree>, offset: nat,
                       rp: Option<Tree>, done: set<Tree>, ts: set<Tree>, room: bool, r: Option<Option<Digest>>)
    requires stack != [] && ClimbState(sha, before, now, key, stack, saved, spine, rep, offset, rp, done, ts, room)
    requires room == (SpineStored(sha, before, spine) && Room(sha, before, ts) && RebuildWrites(spine, rep) <= ts)
    requires Extends(now, after) && stack[|stack| - 1].offset <= |key|
    requires var a, g := stack[|stack| - 1], Parent(spine[|stack| - 1], rp);
             Kept(sha, now, after, reliable, Replaced(a.node, a.edge, saved), key[..a.offset], g, ts, r)
    ensures var n := |stack| - 1; var g := Parent(spine[n], rp); var u := Compress(g.lbl, g.binding, g.kids);
            if r.Some? then
              ClimbState(sha, before, after, key, stack[..n], r.value, spine, rep, spine[n].offset, u, done + Single(u),
                         ts, room)
            else Propagated(sha, before, after, reliable, spine, rep, ts, None)
  {
    hide Climbing, EmptyRootUnused, SpineGenuine, SpineStored, Room, RebuildWrites, Rebuild, Edited, Mergeable,
         MergeStored, Puts, Fits, Single, Compress, SetChild, Replaced;
    ExtendsThrough(before, now, after);
    if room {
      RoomIsUnused(sha, now, ts);
      SpineStoredGenuine(sha, now, spine);
      ClimbEdits(sha, before, now, key, stack, saved, spine, rep, offset, rp, done);
      SpineStoredGrows(sha, now, after, spine);
      var g := Parent(spine[|stack| - 1], rp);
      StillFits(sha, now, after, reliable, r.Some?, ts, Single(Compress(g.lbl, g.binding, g.kids)));
    }
    if EmptyRootUnused(sha, after) && SpineGenuine(sha, after, spine) {
      UnusedBefore(sha, now, after);
      SpineGenuineBefore(sha, now, after, spine);
      ClimbEdits(sha, before, now, key, stack, saved, spine, rep, offset, rp, done);
      ClimbGoesOn(sha, before, now, after, key, stack, saved, spine, rep, offset, rp, done, r);
    }
    if r.None? {
      FitsIf(sha, before, after, reliable, false, spine, ts, RebuildWrites(spine, rep));
    }
  }

  lemma StackFits(sha: Hash, before: Nodes, now: Nodes, key: Bytes, stack: seq<Ancestor>, saved: Option<Digest>,
                  spine: seq<Frame>, rep: Option<Tree>, offset: nat, rp: Option<Tree>, done: set<Tree>, ts: set<Tree>,
                  room: bool)
    requires ClimbState(sha, before, now, key, stack, saved, spine, rep, offset, rp, done, ts, room)
    ensures |stack| <= |spine|
  {
    hide Climbing, EmptyRootUnused, SpineGenuine, SpineStored, Room, RebuildWrites, Extends;
  }

  lemma StillFits(sha: Hash, before: Nodes, after: Nodes, reliable: bool, ok: bool, ts: set<Tree>, ws: set<Tree>)
    requires Fits(sha, before, after, reliable, ok, ts, ws) && Room(sha, before, ts) && ws <= ts
    ensures Room(sha, after, ts) && (reliable ==> ok)
  {
    hide Room;
  }

  lemma FitsIf(sha: Hash, before: Nodes, after: Nodes, reliable: bool, ok: bool, spine: seq<Frame>, ts: set<Tree>,
               ws: set<Tree>)
    requires SpineStored(sha, before, spine) && Room(sha, before, ts) && ws <= ts ==>
               Room(sha, after, ts) && (reliable ==> ok)
    ensures SpineStored(sha, before, spine) ==> Fits(sha, before, after, reliable, ok, ts, ws)
  {
    hide Room, SpineStored;
  }

  lemma ClimbStateEnds(sha: Hash, before: Nodes, now: Nodes, reliable: bool, key: Bytes, saved: Option<Digest>,
                       spine: seq<Frame>, rep: Option<Tree>, offset: nat, rp: Option<Tree>, done: set<Tree>,
                       ts: set<Tree>, room: bool)
    requires ClimbState(sha, before, now, key, [], saved, spine, rep, offset, rp, done, ts, room)
    requires room == (SpineStored(sha, before, spine) && Room(sha, before, ts) && RebuildWrites(spine, rep) <= ts)
    ensures Propagated(sha, before, now, reliable, spine, rep, ts, Some(saved))
  {
    hide Climbing, EmptyRootUnused, SpineGenuine, SpineStored, Room, RebuildWrites, Rebuild, Puts, Fits;
    if EmptyRootUnused(sha, now) && SpineGenuine(sha, now, spine) {
      ClimbEnds(sha, before, now, key, saved, spine, rep, offset, rp, done);
    }
    FitsIf(sha, before, now, reliable, true, spine, ts, RebuildWrites(spine, rep));
  }

  // ----- updates -----

  lemma NothingAdded(sha: Hash, nodes: Nodes)
    ensures forall ts :: OnlyAdded(sha, nodes, nodes, ts)
  {
  }

  /** The bottom is the end of the descent. */
  lemma BottomEnds(key: Bytes, bottom: Bottom, vs: seq<Visit>)
    requires BottomOf(key, bottom, vs) && forall i :: 0 <= i < |vs| ==> vs[i].offset <= |key|
    ensures |vs| == |bottom.ancestors| + 1 && bottom.offset <= |key|
    ensures forall i :: 0 <= i < |bottom.ancestors| ==> bottom.ancestors[i].offset <= |key|
    ensures OwnEnd(key, vs) == OwnAt(key, bottom.node, bottom.offset)
  {
  }

  lemma OwnIsLookup(sha: Hash, t: Tree, key: Bytes, b: Option<Digest>, bottom: Bottom, cur: Tree, spine: seq<Frame>)
    requires Poised(sha, t, key, b, bottom, cur, spine) && AtBottom(bottom.node, key, bottom.offset)
    ensures OwnAt(key, bottom.node, bottom.offset) == Lookup(t, key)
  {
    hide Poised, AtBottom, Lookup, OwnAt, BottomKnown;
    PoisedMeans(sha, t, key, b, bottom, cur, spine);
    BottomOwn(sha, bottom.node, key, bottom.offset, cur);
  }

  lemma TracedPutNothing(sha: Hash, nodes: Nodes, root: Digest, t: Tree, path: Bytes, key: Bytes, b: Option<Digest>)
    requires Traced(sha, nodes, root, None, [], t) && EncodeKey(path) == Ok(key) && Lookup(t, key) == b
    ensures root == Id(sha, PutRoot(t, key, b))
  {
    hide Shape, Placed, Genuine, EncodeKey, Lookup, PutRoot, Id, DecodeKey;
    KeyBounds(path);
    PutNothing(t, key, b);
  }

  /** What a finished update of a held root has done. */
  lemma HeldUpdate(sha: Hash, before: Nodes, after: Nodes, root: Digest, path: Bytes, b: Option<Digest>,
                   saved: Option<Digest>)
    requires WellFormed(sha, before, root) && EncodeKey(path).Ok? && Extends(before, after)
             && EmptyRootUnused(sha, after)
    requires var t, key := TreeOf(sha, before, root), EncodeKey(path).value;
             Puts(sha, before, after, Put(t, key, b), Writes(t, key, b), Some(saved))
    ensures var root' := RootOf(sha, saved);
            && WellFormed(sha, after, root')
            && Bindings(sha, after, root') == Rebound(Bindings(sha, before, root), path, b)
            && |Reachable(sha, after, root') - Reachable(sha, before, root)|
               <= Ancestors(TreeOf(sha, before, root), EncodeKey(path).value) + 3
  {
    hide WellFormed, EncodeKey, Extends, EmptyRootUnused, Put, Writes, Bindings, Rebound, Reachable, Ancestors,
         TreeOf, Id, PutRoot, OnlyAdded, AllStored, IdOpt, RootOf;
    RootIsId(sha, TreeOf(sha, before, root), EncodeKey(path).value, b);
    NewRoot(sha, before, after, root, path, b);
  }

  /** What an update has done to the trie whose digest the root is, finished or not. */
  lemma TracedUpdate(sha: Hash, before: Nodes, after: Nodes, t: Tree, key: Bytes, b: Option<Digest>,
                     saved: Option<Option<Digest>>)
    requires Puts(sha, before, after, Put(t, key, b), Writes(t, key, b), saved)
    ensures OnlyAdded(sha, before, after, Writes(t, key, b))
    ensures saved.Some? ==> RootOf(sha, saved.value) == Id(sha, PutRoot(t, key, b))
  {
    hide Put, Writes, Id, PutRoot, OnlyAdded, AllStored, IdOpt, RootOf;
    RootIsId(sha, t, key, b);
  }

  lemma FitsMeans(sha: Hash, before: Nodes, after: Nodes, reliable: bool, ok: bool, ts: set<Tree>)
    requires Fits(sha, before, after, reliable, ok, ts, ts) && Room(sha, before, ts)
    ensures EmptyRootUnused(sha, after) && (reliable ==> ok)
  {
    hide Room, EmptyRootUnused;
    RoomIsUnused(sha, after, ts);
  }

  lemma HeldTreeStored(sha: Hash, before: Nodes, after: Nodes, root: Digest)
    requires WellFormed(sha, before, root) && Extends(before, after)
    ensures TreeStored(sha, before, TreeOf(sha, before, root)) && Genuine(sha, after, TreeOf(sha, before, root))
  {
    hide Shape, Placed, Genuine, AllStored, Id, Subtrees;
    var t := TreeOf(sha, before, root);
    DenotesGrows(sha, before, after, root, [], t);
    DenotedIsGenuine(sha, after, root, [], t);
    if t != EMPTY {
      HeldIsStored(sha, before, t);
    }
  }

  lemma NoEdits(edits: seq<(Bytes, Option<Digest>)>)
    ensures Outcome(edits[..0]) == map[]
  {
  }

  class Index {
    const sha: Hash
    const store: NodeStore

    constructor (sha: Hash, store: NodeStore)
      ensures this.sha == sha && this.store == store
    {
      this.sha, this.store := sha, store;
    }

    /** Fetch one node and check it; the empty root is never read. */
    method Load(id: Digest, edge: Option<byte>, prefix: Bytes) returns (r: IndexResult<Node>)
      modifies store`readCount
      ensures store.readCount == old(store.readCount) + if id == EmptyRoot(sha) then 0 else 1
      ensures Loads(sha, store.nodes, store.reliable, id, edge, prefix, r)
      ensures r.Ok? ==> Loaded(sha, store.nodes, id, edge, prefix, r.value)
    {
      hide DecodeKey, DecodeNode, Loaded;
      var node := EMPTY_NODE;
      if id != EmptyRoot(sha) {
        var bytes :- store.Read(id);
        if |bytes| > NODE_MAX_BYTES {
          return Err(Codec(BadLength));
        }
        if sha(bytes) != id {
          return Err(Codec(DigestMismatch));
        }
        var decoded := Decode(bytes);
        node :- Lift(decoded);
      }
      if edge.Some? && (node.lbl == [] || node.lbl[0] != edge.value) {
        return Err(Codec(BadOrdering));
      }
      var _ :- Lift(ValidatePosition(prefix, node));
      LoadsMeans(sha, store.nodes, store.reliable, id, edge, prefix, Ok(node));
      return Ok(node);
    }

    /** The first half of `save`: drop an empty node, merge an unbound one into its only child. */
    method Compacted(edited: Node, prefix: Bytes, ghost g: Option<Tree>) returns (r: IndexResult<Option<Node>>)
      modifies store`readCount
      ensures store.readCount <= old(store.readCount) + 1
      ensures r.Ok? ==> Shrinks(sha, store.nodes, edited, prefix, r.value)
      ensures g.Some? && Edited(sha, edited, prefix, g.value) && Mergeable(sha, store.nodes, g.value) ==>
                var t := Compress(g.value.lbl, g.value.binding, g.value.kids);
                && (r.Ok? ==> r.value == if t.Some? then Some(ToNode(sha, t.value)) else None)
                && (store.reliable && MergeStored(sha, store.nodes, g.value) && EmptyRootUnused(sha, store.nodes) ==>
                      r.Ok?)
    {
      hide DecodeKey, NodeBytes, Edited, Mergeable, MergeStored, Compress, Loads, Loaded, Id, EmptyRootUnused;
      var node := edited;
      ghost var good := g.Some? && Edited(sha, edited, prefix, g.value) && Mergeable(sha, store.nodes, g.value);
      if good {
        EditedNode(sha, edited, prefix, g.value);
      }
      if node.binding.None? {
        if node.children == [] {
          return Ok(None);
        }
        if |node.children| == 1 {
          var childRef := node.children[0];
          if good {
            OnlyChild(sha, store.nodes, edited, prefix, g.value);
          }
          var childPrefix :- Lift(JoinedKey(prefix, node.lbl));
          var loaded := Load(childRef.target, Some(childRef.edge), childPrefix);
          if good {
            OnlyChildLoads(sha, store.nodes, store.reliable, edited, prefix, g.value, loaded);
          }
          var child :- loaded;
          node := Node(node.lbl + child.lbl, child.binding, child.children);
          assert Merges(sha, store.nodes, edited, prefix, child, Some(node));
        }
      }
      if good {
        CompressedNode(sha, edited, prefix, g.value);
      }
      return Ok(Some(node));
    }

    /** Compress an edited node, then store it; `Ok(None)` when nothing is left of it. */
    method Save(edited: Node, prefix: Bytes, ghost g: Option<Tree>, ghost ts: set<Tree>)
      returns (r: IndexResult<Option<Digest>>)
      modifies store`readCount, store`nodes, store`insertCount
      ensures Appended(sha, store, 1)
      ensures r.Ok? ==> SavesTo(sha, store.nodes, edited, prefix, r.value)
      ensures g.Some? ==>
                Kept(sha, old(store.nodes), store.nodes, store.reliable, edited, prefix, g.value, ts, Saved(r))
    {
      hide DecodeKey, NodeBytes, Room, Edited, Mergeable, MergeStored, Compress, Id, ToNode, EdgesAscend;
      ghost var n0 := store.nodes;
      ghost var good := g.Some? && Edited(sha, edited, prefix, g.value) && Mergeable(sha, n0, g.value);
      ghost var t := if good then Compress(g.value.lbl, g.value.binding, g.value.kids) else None;
      if good {
        if Room(sha, n0, ts) {
          RoomIsUnused(sha, n0, ts);
        }
        if t.Some? {
          CompressedNode(sha, edited, prefix, g.value);
        }
      }
      var compacted := Compacted(edited, prefix, g);
      var left :- compacted;
      if left.None? {
        SavedNothing(sha, n0, edited, prefix);
        return Ok(None);
      }
      var node := left.value;
      var _ :- Lift(ValidatePosition(prefix, node));
      node :- Lift(New(node.lbl, node.binding, node.children));
      var bytes := Encode(node);
      var id := sha(bytes);
      var inserted := store.Insert(id, bytes);
      if good {
        SavedOne(sha, n0, store.nodes, store.reliable, inserted.Ok?, ts, t.value);
      }
      var _ :- inserted;
      SavedNode(sha, n0, store.nodes, edited, prefix, node);
      return Ok(Some(id));
    }

    /** Save a new leaf. */
    method SaveLeaf(prefix: Bytes, rest: Bytes, binding: Digest, ghost ts: set<Tree>) returns (r: IndexResult<Digest>)
      modifies store`readCount, store`nodes, store`insertCount
      ensures Appended(sha, store, 1)
      ensures r.Ok? ==> SavesTo(sha, store.nodes, Node(rest, Some(binding), []), prefix, Some(r.value))
      ensures DecodeKey(prefix + rest).Ok? ==>
                var leaf := Leaf(rest, binding);
                && Puts(sha, old(store.nodes), store.nodes, Some(leaf), {leaf}, SavedId(r))
                && Fits(sha, old(store.nodes), store.nodes, store.reliable, r.Ok?, ts, {leaf})
    {
      hide DecodeKey, Edited, OnlyAdded, AllStored, Id, Room, Honest, Compress;
      if DecodeKey(prefix + rest).Ok? {
        KeyWithinLimit(prefix + rest);
        LeafEdited(sha, prefix, rest, binding);
      }
      var leaf :- Lift(New(rest, Some(binding), []));
      var saved :- Save(leaf, prefix, Some(Leaf(rest, binding)), ts);
      r := Lift(RequiredId(saved));
    }

    /** Save the half of a cut label below the cut. */
    method SaveLowerHalf(node: Node, prefix: Bytes, common: nat, ghost g: Option<Tree>, ghost ts: set<Tree>)
      returns (r: IndexResult<Digest>)
      requires common < |node.lbl|
      modifies store`readCount, store`nodes, store`insertCount
      ensures Appended(sha, store, 1)
      ensures r.Ok? ==> SavesTo(sha, store.nodes, Node(node.lbl[common..], node.binding, node.children),
                                prefix + node.lbl[..common], Some(r.value))
      ensures g.Some? && node == ToNode(sha, g.value) && Shape(g.value) && Placed(g.value, prefix) ==>
                var half := LowerHalf(g.value, common).target;
                && Puts(sha, old(store.nodes), store.nodes, Some(half), {half}, SavedId(r))
                && Fits(sha, old(store.nodes), store.nodes, store.reliable, r.Ok?, ts, {half})
    {
      hide DecodeKey, Edited, OnlyAdded, AllStored, Shape, Placed, Id, Room, Honest, Compress;
      ghost var good := g.Some? && node == ToNode(sha, g.value) && Shape(g.value) && Placed(g.value, prefix);
      if good {
        LowerHalfEdited(sha, prefix, g.value, common);
      }
      var childPrefix :- Lift(JoinedKey(prefix, node.lbl[..common]));
      var saved :- Save(Node(node.lbl[common..], node.binding, node.children), childPrefix,
                        if good then Some(LowerHalf(g.value, common).target) else None, ts);
      r := Lift(RequiredId(saved));
    }

    /** Cut a label where the key leaves it: save the lower half, the new leaf if any, and their parent. */
    method SplitLabel(node: Node, key: Bytes, offset: nat, common: nat, binding: Digest, ghost g: Option<Tree>,
                      ghost ts: set<Tree>)
      returns (r: IndexResult<Option<Digest>>)
      requires offset <= |key| && common == Common(key[offset..], node.lbl) < |node.lbl|
      modifies store`readCount, store`nodes, store`insertCount
      ensures Appended(sha, store, 3)
      ensures r.Ok? ==>
                exists lower, leaf ::
                  CutTo(sha, store.nodes, node, key, offset, common, binding, lower, leaf, r.value)
      ensures BottomKnown(sha, node, key, offset, g) ==>
                var t, ws := Put(g.value, key[offset..], Some(binding)), Writes(g.value, key[offset..], Some(binding));
                && Puts(sha, old(store.nodes), store.nodes, t, ws, Saved(r))
                && Fits(sha, old(store.nodes), store.nodes, store.reliable, r.Ok?, ts, ws)
    {
      hide DecodeKey, Edited, Puts, Fits, OnlyAdded, AllStored, Shape, Placed, Id, Room, Honest, Compress, Common,
           Put, Writes, SetChild, LowerHalf, Refs, Single, SavesTo, CutTo;
      ghost var n0 := store.nodes;
      ghost var good := BottomKnown(sha, node, key, offset, g);
      ghost var ws := if good then Writes(g.value, key[offset..], Some(binding)) else {};
      ghost var t := if good then Put(g.value, key[offset..], Some(binding)) else None;
      ghost var half := if good then [LowerHalf(g.value, common)] else [];
      if good {
        WritesAtSplit(g.value, key[offset..], binding);
        PutCut(g.value, key[offset..], binding);
      }
      var prefix, upper, suffix := key[..offset], node.lbl[..common], key[offset..][common..];
      assert key == prefix + upper + suffix;
      var lower := SaveLowerHalf(node, prefix, common, g, ts);
      ghost var n1 := store.nodes;
      if good && lower.Err? {
        StepFailed(sha, n0, n1, store.reliable, ts, Some(half[0].target), {half[0].target}, t, ws);
      }
      var childId :- lower;
      var children := SetChild([], node.lbl[common], Some(childId));
      if good {
        FirstStep(sha, n0, n1, Some(half[0].target), {half[0].target}, Some(childId));
        UpperRefs(sha, g.value, common);
      }
      if suffix == [] {
        if good {
          assert key == prefix + upper;
          CutEdited(sha, g.value, common, prefix, binding);
        }
        r := Save(Node(upper, Some(binding), children), prefix,
                  if good then Some(Tree(upper, Some(binding), half)) else None, ts);
        if good {
          StepThrough(sha, n0, n1, store.nodes, store.reliable, ts, {half[0].target}, t, Single(t), ws, Saved(r));
        }
        if r.Ok? {
          CutIsSaved(sha, n1, n1, store.nodes, node, key, offset, common, binding, childId, childId, r.value);
        }
      } else {
        var attempt := SaveLeaf(prefix + upper, suffix, binding, ts);
        ghost var n2 := store.nodes;
        if good {
          var leaf := Leaf(suffix, binding);
          StepThrough(sha, n0, n1, n2, store.reliable, ts, {half[0].target}, Some(leaf), {leaf}, {half[0].target, leaf},
                      SavedId(attempt));
          if attempt.Err? {
            StepFailed(sha, n0, n2, store.reliable, ts, Some(leaf), {half[0].target, leaf}, t, ws);
          }
        }
        var leafId :- attempt;
        if good {
          var leaf := Leaf(suffix, binding);
          FirstStep(sha, n0, n2, Some(leaf), {half[0].target, leaf}, Some(leafId));
          KeyWithinLimit(key);
          BranchEdited(sha, g.value, common, prefix, suffix, binding);
        }
        r := Save(Node(upper, None, SetChild(children, suffix[0], Some(leafId))), prefix,
                  if good then Some(Tree(upper, None, SetChild(half, suffix[0], Some(Leaf(suffix, binding)))))
                  else None, ts);
        if good {
          StepThrough(sha, n0, n2, store.nodes, store.reliable, ts, {half[0].target, Leaf(suffix, binding)}, t,
                      Single(t), ws, Saved(r));
        }
        if r.Ok? {
          CutIsSaved(sha, n1, n2, store.nodes, node, key, offset, common, binding, childId, leafId, r.value);
        }
      }
    }

    /** Bind the rest of the key as a new leaf below a node without a child there. */
    method AttachLeaf(node: Node, key: Bytes, offset: nat, binding: Digest, ghost g: Option<Tree>, ghost ts: set<Tree>)
      returns (r: IndexResult<Option<Digest>>)
      requires offset + |node.lbl| < |key|
      modifies store`readCount, store`nodes, store`insertCount
      ensures Appended(sha, store, 2)
      ensures r.Ok? ==> exists leaf :: AttachTo(sha, store.nodes, node, key, offset, binding, leaf, r.value)
      ensures BottomKnown(sha, node, key, offset, g) && node.lbl <= key[offset..]
              && FindChild(g.value.kids, key[offset + |node.lbl|]) == None ==>
                var t, ws := Put(g.value, key[offset..], Some(binding)), Writes(g.value, key[offset..], Some(binding));
                && (EmptyRootUnused(sha, store.nodes) ==> Puts(sha, old(store.nodes), store.nodes, t, ws, Saved(r)))
                && Fits(sha, old(store.nodes), store.nodes, store.reliable, r.Ok?, ts, ws)
    {
      hide DecodeKey, Edited, Puts, Fits, OnlyAdded, AllStored, Shape, Placed, Id, Room, Honest, Compress, Common,
           Put, Writes, SetChild, Refs, Single, FindChild, Stored, EmptyRootUnused, Vouched, SavesTo;
      ghost var n0 := store.nodes;
      ghost var good := BottomKnown(sha, node, key, offset, g) && node.lbl <= key[offset..]
                        && FindChild(g.value.kids, key[offset + |node.lbl|]) == None;
      ghost var ws := if good then Writes(g.value, key[offset..], Some(binding)) else {};
      ghost var t := if good then Put(g.value, key[offset..], Some(binding)) else None;
      var next := offset + |node.lbl|;
      var suffix := key[next..];
      assert key == key[..next] + suffix && key[offset..][|node.lbl|..] == suffix;
      ghost var leaf := Leaf(suffix, binding);
      if good {
        assert key[..offset] + node.lbl == key[..next];
        WritesAtLeaf(g.value, key[offset..], binding);
        PutNewLeaf(g.value, key[offset..], binding);
        LeafAttached(sha, key[..offset], g.value, suffix, binding);
      }
      var attempt := SaveLeaf(key[..next], suffix, binding, ts);
      ghost var n1 := store.nodes;
      if good && attempt.Err? {
        StepFailed(sha, n0, n1, store.reliable, ts, Some(leaf), {leaf}, t, ws);
      }
      var leafId :- attempt;
      ghost var h := Tree(node.lbl, node.binding, if good then SetChild(g.value.kids, key[next], Some(leaf)) else []);
      if good {
        FirstStep(sha, n0, n1, Some(leaf), {leaf}, Some(leafId));
        LeafMergeable(sha, n1, h, leaf);
      }
      r := Save(Node(node.lbl, node.binding, SetChild(node.children, key[next], Some(leafId))), key[..offset],
                if good then Some(h) else None, ts);
      if r.Ok? {
        SavesToGrows(sha, n1, store.nodes, Node(suffix, Some(binding), []), key[..next], Some(leafId));
        assert AttachTo(sha, store.nodes, node, key, offset, binding, leafId, r.value);
      }
      if good {
        if EmptyRootUnused(sha, store.nodes) {
          UnusedBefore(sha, n1, store.nodes);
          StepThrough(sha, n0, n1, store.nodes, store.reliable, ts, {leaf}, t, Single(t), ws, Saved(r));
        }
        if EmptyRootUnused(sha, n1) {
          FitsThrough(sha, n0, n1, store.nodes, store.reliable, r.Ok?, ts, {leaf}, Single(t), ws);
        } else {
          FitsNowhere(sha, n0, n1, store.nodes, store.reliable, r.Ok?, ts, {leaf}, ws);
        }
      }
    }

    /** Apply the edit to the bottom node; `Ok(None)` when it changes nothing. */
    method EditBottom(node: Node, key: Bytes, offset: nat, binding: Option<Digest>, ghost g: Option<Tree>,
                      ghost ts: set<Tree>)
      returns (r: IndexResult<Option<Option<Digest>>>)
      requires AtBottom(node, key, offset)
      modifies store`readCount, store`nodes, store`insertCount
      ensures Appended(sha, store, 3)
      ensures r == Ok(None) <==> OwnAt(key, node, offset) == binding
      ensures r == Ok(None) ==> store.nodes == old(store.nodes) && store.insertCount == old(store.insertCount)
      ensures r.Ok? && r.value.Some? ==> BottomTo(sha, store.nodes, node, key, offset, binding, r.value.value)
      ensures BottomKnown(sha, node, key, offset, g) && r != Ok(None) ==>
                var t, ws := Put(g.value, key[offset..], binding), Writes(g.value, key[offset..], binding);
                && (EmptyRootUnused(sha, store.nodes) && KidsVouched(sha, store.nodes, g.value) ==>
                      Puts(sha, old(store.nodes), store.nodes, t, ws, SavedEdit(r)) && Single(t) <= ws)
                && (KidsStored(sha, old(store.nodes), g.value) ==>
                      Fits(sha, old(store.nodes), store.nodes, store.reliable, r.Ok?, ts, ws))
    {
      hide DecodeKey, Edited, Puts, Fits, OnlyAdded, AllStored, Shape, Placed, Id, Room, Honest, Compress, Put,
           Writes, SetChild, Refs, Single, FindChild, Stored, EmptyRootUnused, Vouched, Lookup, Mergeable,
           MergeStored, KidsVouched, KidsStored, SavesTo, CutTo, AttachTo;
      ghost var n0 := store.nodes;
      ghost var known := BottomKnown(sha, node, key, offset, g);
      if known {
        BottomEdit(sha, node, key, offset, g.value, binding);
      }
      var common := Common(key[offset..], node.lbl);
      var next := offset + common;
      var attempt: IndexResult<Option<Digest>>;
      if common < |node.lbl| {
        assert node.lbl != key[offset..];
        if binding.None? {
          return Ok(None);
        }
        if known {
          WritesAtSplit(g.value, key[offset..], binding.value);
        }
        attempt := SplitLabel(node, key, offset, common, binding.value, g, ts);
      } else if next == |key| {
        assert node.lbl == key[offset..];
        if node.binding == binding {
          return Ok(None);
        }
        if known {
          WritesAtEnd(g.value, key[offset..], binding);
        }
        ghost var h := if known then Some(Tree(node.lbl, binding, g.value.kids)) else None;
        attempt := Save(Node(node.lbl, binding, node.children), key[..offset], h, ts);
        if known {
          ReboundMergeable(sha, n0, store.nodes, g.value, h.value);
          if !EmptyRootUnused(sha, n0) {
            NoRoom(sha, n0, store.nodes, store.reliable, attempt.Ok?, ts, Writes(g.value, key[offset..], binding));
          }
        }
      } else {
        assert node.lbl != key[offset..];
        if binding.None? {
          return Ok(None);
        }
        if known {
          WritesAtLeaf(g.value, key[offset..], binding.value);
        }
        attempt := AttachLeaf(node, key, offset, binding.value, g, ts);
      }
      var saved :- attempt;
      return Ok(Some(saved));
    }

    /** Rewrite the ancestors bottom-up over the replacement of their descendant. */
    method Propagate(ancestors: seq<Ancestor>, bottom: Option<Digest>, key: Bytes,
                     ghost spine: seq<Frame>, ghost offset: nat, ghost rep: Option<Tree>, ghost ts: set<Tree>)
      returns (r: IndexResult<Option<Digest>>, ghost ids: seq<Option<Digest>>)
      requires forall i :: 0 <= i < |ancestors| ==> ancestors[i].offset <= |key|
      modifies store`readCount, store`nodes, store`insertCount
      ensures Appended(sha, store, |ancestors|)
      ensures r.Ok? ==>
                && Climbed(sha, store.nodes, key, ancestors, ids) && |ids| == |ancestors| + 1
                && ids[0] == bottom && ids[|ancestors|] == r.value
      ensures Unwinding(sha, old(store.nodes), key, ancestors, spine, offset, bottom, rep) ==>
                Propagated(sha, old(store.nodes), store.nodes, store.reliable, spine, rep, ts, Saved(r))
    {
      hide Unwinding, Climbing, ClimbState, Propagated, Kept, Edited, Mergeable, MergeStored, Puts, Fits, Compress,
           SetChild, Room, RebuildWrites, SpineStored, SavesTo, Climbed, Replaced, Single, Honest, Extends;
      ghost var n0 := store.nodes;
      ghost var live := Unwinding(sha, n0, key, ancestors, spine, offset, bottom, rep);
      ghost var room := SpineStored(sha, n0, spine) && Room(sha, n0, ts) && RebuildWrites(spine, rep) <= ts;
      ghost var off, rp, done := offset, rep, {};
      var stack, replacement := ancestors, bottom;
      ids := [bottom];
      ClimbedStarts(sha, n0, key, ancestors, bottom);
      ExtendsItself(n0);
      if live {
        ClimbStateStarts(sha, n0, key, ancestors, bottom, spine, rep, offset, ts);
      }
      while stack != []
        invariant stack <= ancestors
        invariant Appended(sha, store, |ancestors| - |stack|)
        invariant |ids| == |ancestors| - |stack| + 1 && ids[0] == bottom && ids[|ids| - 1] == replacement
        invariant Climbed(sha, store.nodes, key, ancestors, ids)
        invariant live ==>
                    ClimbState(sha, n0, store.nodes, key, stack, replacement, spine, rep, off, rp, done, ts, room)
        decreases |stack|
      {
        ghost var before := store.nodes;
        var n := |stack| - 1;
        var a := stack[n];
        if live {
          StackFits(sha, n0, before, key, stack, replacement, spine, rep, off, rp, done, ts, room);
        }
        ghost var g := if live then Parent(spine[n], rp) else EMPTY;
        var attempt := Save(Replaced(a.node, a.edge, replacement), key[..a.offset], Some(g), ts);
        ExtendsThrough(n0, before, store.nodes);
        if live {
          ClimbStateStep(sha, n0, before, store.nodes, store.reliable, key, stack, replacement, spine, rep, off, rp,
                         done, ts, room, Saved(attempt));
        }
        if attempt.Err? {
          return Err(attempt.error), ids;
        }
        var saved := attempt.value;
        ClimbedStep(sha, before, store.nodes, key, ancestors, ids, saved);
        ids := ids + [saved];
        if live {
          off, rp := spine[n].offset, Compress(g.lbl, g.binding, g.kids);
          done := done + Single(rp);
        }
        stack, replacement := stack[..n], saved;
      }
      if live {
        ClimbStateEnds(sha, n0, store.nodes, store.reliable, key, replacement, spine, rep, off, rp, done, ts, room);
      }
      return Ok(replacement), ids;
    }

    /** From the bottom node up to the root; `Ok(None)` when the edit changes nothing. */
    method Rewrite(bottom: Bottom, key: Bytes, binding: Option<Digest>,
                   ghost t: Option<Tree>, ghost cur: Tree, ghost spine: seq<Frame>, ghost ts: set<Tree>)
      returns (r: IndexResult<Option<Option<Digest>>>, ghost ids: seq<Option<Digest>>)
      requires AtBottom(bottom.node, key, bottom.offset) && bottom.offset <= |key|
      requires forall i :: 0 <= i < |bottom.ancestors| ==> bottom.ancestors[i].offset <= |key|
      requires t.Some? ==> Poised(sha, t.value, key, binding, bottom, cur, spine)
      modifies store`readCount, store`nodes, store`insertCount
      ensures Appended(sha, store, |bottom.ancestors| + 3)
      ensures r == Ok(None) <==> OwnAt(key, bottom.node, bottom.offset) == binding
      ensures r == Ok(None) ==> store.nodes == old(store.nodes) && store.insertCount == old(store.insertCount)
      ensures r.Ok? && r.value.Some? ==>
                && Climbed(sha, store.nodes, key, bottom.ancestors, ids) && |ids| == |bottom.ancestors| + 1
                && BottomTo(sha, store.nodes, bottom.node, key, bottom.offset, binding, ids[0])
                && ids[|ids| - 1] == r.value.value
      ensures t.Some? && r != Ok(None) ==>
                var u, ws := Put(t.value, key, binding), Writes(t.value, key, binding);
                && (EmptyRootUnused(sha, store.nodes) && Genuine(sha, store.nodes, t.value) ==>
                      Puts(sha, old(store.nodes), store.nodes, u, ws, SavedEdit(r)))
                && (TreeStored(sha, old(store.nodes), t.value) ==>
                      Fits(sha, old(store.nodes), store.nodes, store.reliable, r.Ok?, ts, ws))
    {
      hide Unwinding, EmptyRootUnused, Genuine, Room, Single, Honest, Put, Writes, Rebuild, RebuildWrites, Puts, Fits,
           Poised, BottomKnown, AtBottom, SpineGenuine, SpineStored, KidsVouched, KidsStored, TreeStored, OnlyAdded,
           AllStored, Lookup, BottomTo, Climbed, OwnAt, Id, Compress, SetChild, Extends, Subtrees, Ancestors, Shape,
           Common, IdOpt;
      ghost var n0 := store.nodes;
      ids := [];
      ghost var good := t.Some?;
      ghost var tree := if good then t.value else EMPTY;
      ghost var rest := if bottom.offset <= |key| then key[bottom.offset..] else [];
      ghost var rep, low := Put(cur, rest, binding), Writes(cur, rest, binding);
      ghost var u, ws := Put(tree, key, binding), Writes(tree, key, binding);
      if good {
        PoisedMeans(sha, tree, key, binding, bottom, cur, spine);
        if TreeStored(sha, n0, tree) {
          PoisedStored(sha, n0, tree, key, binding, bottom, cur, spine);
        }
      }
      var attempt := EditBottom(bottom.node, key, bottom.offset, binding, if good then Some(cur) else None, ts);
      ghost var n1 := store.nodes;
      if attempt == Ok(None) {
        return Ok(None), ids;
      }
      ghost var kept := good && TreeStored(sha, n0, tree);
      if kept && EmptyRootUnused(sha, n1) {
        StoredStays(sha, n0, n1, tree);
        PoisedStored(sha, n1, tree, key, binding, bottom, cur, spine);
      }
      ghost var clean := good && EmptyRootUnused(sha, n1) && Genuine(sha, n1, tree);
      if clean {
        PoisedGenuine(sha, n1, tree, key, binding, bottom, cur, spine);
      }
      if attempt.Err? {
        if clean {
          StepFailed(sha, n0, n1, store.reliable, ts, rep, low, u, ws);
        }
        if kept {
          FitsFailed(sha, n0, n1, store.reliable, ts, low, ws);
        }
      }
      var edited :- attempt;
      var saved := edited.value;
      if clean {
        FirstStep(sha, n0, n1, rep, low, saved);
        SinglesStored(sha, n1, rep, low);
        DescentTurns(sha, n1, tree, key, binding, bottom, cur, spine, saved);
      }
      var propagated;
      propagated, ids := Propagate(bottom.ancestors, saved, key, spine, bottom.offset, rep, ts);
      ExtendsThrough(n0, n1, store.nodes);
      if good && EmptyRootUnused(sha, store.nodes) && Genuine(sha, store.nodes, tree) {
        UnusedBefore(sha, n1, store.nodes);
        GenuineBefore(sha, n1, store.nodes, tree);
        PoisedGenuine(sha, store.nodes, tree, key, binding, bottom, cur, spine);
        StepThrough(sha, n0, n1, store.nodes, store.reliable, ts, low, u, RebuildWrites(spine, rep), ws,
                    Saved(propagated));
      }
      if kept {
        if clean {
          FitsThrough(sha, n0, n1, store.nodes, store.reliable, propagated.Ok?, ts, low, RebuildWrites(spine, rep), ws);
        } else {
          FitsNowhere(sha, n0, n1, store.nodes, store.reliable, propagated.Ok?, ts, low, ws);
        }
      }
      var replacement :- propagated;
      BottomToGrows(sha, n1, store.nodes, bottom.node, key, bottom.offset, binding, saved);
      return Ok(Some(replacement)), ids;
    }

    /** Descend to the node that the edit of `key` changes, stacking its ancestors. */
    method Descend(root: Digest, key: Bytes) returns (r: IndexResult<Bottom>, ghost vs: seq<Visit>)
      modifies store`readCount
      ensures store.readCount <= old(store.readCount) + |key| + 1
      ensures r.Ok? ==>
                && Chain(sha, store.nodes, root, key, vs) && BottomOf(key, r.value, vs)
                && AtBottom(r.value.node, key, r.value.offset)
                && |r.value.ancestors| <= |key| && store.readCount <= old(store.readCount) + |r.value.ancestors| + 1
      ensures r.Err? ==> FailsRightly(sha, store.nodes, store.reliable, root, key, r.error)
    {
      hide Loads, Loaded, Approach, Chain, LeadsTo, Stops, FindChild, FailsRightly, Stacked, BottomOf, Common,
           DecodeKey;
      var id: Digest, edge: Option<byte>, offset := root, None, 0;
      var ancestors: seq<Ancestor> := [];
      ghost var nodes := store.nodes;
      vs := [];
      ApproachStarts(sha, nodes, root, key);
      StackedNothing(key);
      while true
        invariant Arrived(key, edge, offset) && |ancestors| <= From(edge, offset)
        invariant store.nodes == nodes && store.readCount <= old(store.readCount) + |ancestors|
        invariant Approach(sha, nodes, root, key, vs, id, edge, offset) && Stacked(key, ancestors, vs)
        decreases |key| + 1 - From(edge, offset)
      {
        var loaded := Load(id, edge, key[..offset]);
        if loaded.Err? {
          LoadFails(sha, nodes, store.reliable, root, key, vs, id, edge, offset, loaded);
          return Err(loaded.error), vs;
        }
        var node := loaded.value;
        ghost var v := Visit(id, edge, offset, node);
        ghost var ws := vs + [v];
        Visited(sha, nodes, root, key, vs, v);
        StackedOn(key, ancestors, vs, v);
        var common := Common(key[offset..], node.lbl);
        if common < |node.lbl| {
          assert !Passes(key, v);
          StopsShort(key, v);
          return Ok(Bottom(node, edge, offset, ancestors)), ws;
        }
        LoadedStep(sha, nodes, id, edge, key, offset, node);
        var next := offset + common;
        if next == |key| {
          StopsShort(key, v);
          return Ok(Bottom(node, edge, offset, ancestors)), ws;
        }
        var child := FindChild(node.children, key[next]);
        Turns(sha, nodes, key, v);
        if child.None? {
          return Ok(Bottom(node, edge, offset, ancestors)), ws;
        }
        vs := ws;
        ancestors := ancestors + [Ancestor(node, key[next], offset)];
        id, edge, offset := child.value, Some(key[next]), next;
      }
    }

    /**
     * The descent behind `get` and `longest_prefix`; `claim` is a trie that the root may be the digest of, and `vs`
     * the nodes passed.
     */
    method Walk(root: Digest, path: Bytes, ancestors: bool, ghost claim: Tree)
      returns (r: IndexResult<Option<(Bytes, Digest)>>, ghost vs: seq<Visit>)
      modifies store`readCount
      ensures EncodeKey(path).Err? ==> r == Err(Codec(EncodeKey(path).error)) && store.readCount == old(store.readCount)
      ensures EncodeKey(path).Ok? ==> store.readCount <= old(store.readCount) + |EncodeKey(path).value| + 1
      // Whatever is stored: an answer is read off a complete descent, and a failure has a node to blame.
      ensures EncodeKey(path).Ok? && r.Ok? ==>
                && Chain(sha, store.nodes, root, EncodeKey(path).value, vs)
                && ChainAnswer(EncodeKey(path).value, path, vs, ancestors, r.value)
      ensures EncodeKey(path).Ok? && r.Err? ==>
                FailsRightly(sha, store.nodes, store.reliable, root, EncodeKey(path).value, r.error)
      ensures WellFormed(sha, store.nodes, root) && EncodeKey(path).Ok? ==>
                && (r.Ok? ==> WalkAnswer(Bindings(sha, store.nodes, root), path, ancestors, r.value))
                && (store.reliable ==> r.Ok?)
      // On a partial or corrupt store a walk may fail, but it does not lie about a trie whose digest the root is.
      ensures Traced(sha, store.nodes, root, None, [], claim) && r.Ok? ==>
                WalkAnswer(PathMap(claim), path, ancestors, r.value)
    {
      hide DecodeKey, EncodeKey, Bindings, PathMap, WalkAnswer, Traced, Loads, Loaded, Approach, Chain, LeadsTo,
           Stops, FindChild, FailsRightly, LastBound, WellFormed, ChainAnswer;
      vs := [];
      var computed := ComputeKey(path);
      var key :- Lift(computed);
      ghost var nodes := store.nodes;
      var id: Digest, edge: Option<byte>, offset := root, None, 0;
      var found: Option<(Bytes, Digest)>, reached := None, false;
      ApproachStarts(sha, nodes, root, key);
      while true
        invariant Arrived(key, edge, offset) && store.nodes == nodes && !reached
        invariant |vs| <= From(edge, offset) && store.readCount <= old(store.readCount) + |vs|
        invariant Approach(sha, nodes, root, key, vs, id, edge, offset) && LastBound(key, vs, found)
        decreases |key| + 1 - From(edge, offset)
      {
        var loaded := Load(id, edge, key[..offset]);
        if loaded.Err? {
          LoadFails(sha, nodes, store.reliable, root, key, vs, id, edge, offset, loaded);
          if WellFormed(sha, nodes, root) {
            HeldSucceeds(sha, nodes, store.reliable, root, key, loaded.error);
          }
          return Err(loaded.error), vs;
        }
        var node := loaded.value;
        ghost var v, found0 := Visit(id, edge, offset, node), found;
        Visited(sha, nodes, root, key, vs, v);
        if !(node.lbl <= key[offset..]) {
          StopsShort(key, v);
          WalkRecords(key, vs, v, found, found);
          vs := vs + [v];
          break;
        }
        LoadedStep(sha, nodes, id, edge, key, offset, node);
        LoadedDecodes(sha, nodes, id, edge, key, offset, node);
        offset := offset + |node.lbl|;
        if node.binding.Some? {
          // The key of a bound node that loads does decode: an error return here would be dead.
          var matched := DecodeKey(key[..offset]).value;
          found := Some((matched, node.binding.value));
        }
        WalkRecords(key, vs, v, found0, found);
        vs := vs + [v];
        if offset == |key| {
          StopsShort(key, v);
          reached := true;
          break;
        }
        var next := key[offset];
        var child := FindChild(node.children, next);
        Turns(sha, nodes, key, v);
        if child.None? {
          break;
        }
        id, edge := child.value, Some(next);
      }
      WalkAnswers(sha, nodes, root, key, path, vs, ancestors, found);
      if reached {
        r := Ok(if found.Some? && (ancestors || found.value.0 == path) then found else None);
      } else {
        r := Ok(if ancestors then found else None);
      }
      if WellFormed(sha, nodes, root) {
        HeldTellsTruth(sha, nodes, root, path, vs, ancestors, r.value);
      }
      if Traced(sha, nodes, root, None, [], claim) {
        ChainTellsTruth(sha, nodes, root, claim, path, vs, ancestors, r.value);
      }
    }

    /**
     * Descend along `key` and rewrite the nodes passed, `vs`; `Ok(None)` when the edit changes nothing. `t` is a trie
     * that the root is the digest of, if one is known.
     */
    method EditKey(root: Digest, key: Bytes, binding: Option<Digest>, ghost path: Bytes, ghost t: Option<Tree>,
                   ghost ts: set<Tree>)
      returns (r: IndexResult<Option<Option<Digest>>>, ghost vs: seq<Visit>, ghost ids: seq<Option<Digest>>)
      requires EncodeKey(path) == Ok(key) && (t.Some? ==> Traced(sha, store.nodes, root, None, [], t.value))
      modifies store`readCount, store`nodes, store`insertCount
      ensures Extends(old(store.nodes), store.nodes)
      ensures Honest(sha, old(store.nodes)) ==> Honest(sha, store.nodes)
      ensures |vs| <= |key| + 1 && store.insertCount <= old(store.insertCount) + |vs| + 2
      ensures r.Ok? ==> store.readCount <= old(store.readCount) + 2 * |vs| + 2
      ensures vs == [] ==>
                && r.Err? && FailsRightly(sha, old(store.nodes), store.reliable, root, key, r.error)
                && store.nodes == old(store.nodes) && store.insertCount == old(store.insertCount)
      ensures vs != [] ==>
                && Chain(sha, old(store.nodes), root, key, vs)
                && (r == Ok(None) <==> OwnEnd(key, vs) == binding)
      ensures r == Ok(None) ==> store.nodes == old(store.nodes) && store.insertCount == old(store.insertCount)
      ensures r.Ok? && r.value.Some? ==> Rewritten(sha, store.nodes, key, vs, binding, ids, RootOf(sha, r.value.value))
      ensures t.Some? && vs != [] ==> |vs| == Ancestors(t.value, key) + 1 && OwnEnd(key, vs) == Lookup(t.value, key)
      ensures t.Some? && vs != [] && r != Ok(None) ==>
                var u, ws := Put(t.value, key, binding), Writes(t.value, key, binding);
                && (EmptyRootUnused(sha, store.nodes) && Genuine(sha, store.nodes, t.value) ==>
                      Puts(sha, old(store.nodes), store.nodes, u, ws, SavedEdit(r)))
                && (TreeStored(sha, old(store.nodes), t.value) ==>
                      Fits(sha, old(store.nodes), store.nodes, store.reliable, r.Ok?, ts, ws))
    {
      hide DecodeKey, EncodeKey, Lookup, Put, Traced, Genuine, Chain, EmptyRootUnused, Poised, Writes, Ancestors,
           Honest, Extends, AtBottom, BottomOf, FailsRightly, TreeStored, BottomTo, Climbed, Rewritten, OwnAt, OwnEnd,
           Puts, Fits, RootOf;
      vs, ids := [], [];
      ghost var n0 := store.nodes;
      ExtendsItself(n0);
      var descent; ghost var ws;
      descent, ws := Descend(root, key);
      if descent.Err? {
        return Err(descent.error), [], [];
      }
      var bottom := descent.value;
      vs := ws;
      ChainOffsets(sha, n0, root, key, vs);
      BottomEnds(key, bottom, vs);
      ghost var cur, spine := EMPTY, [];
      if t.Some? {
        cur, spine := ChainPoised(sha, n0, root, t.value, path, key, binding, vs, bottom);
        OwnIsLookup(sha, t.value, key, binding, bottom, cur, spine);
      }
      r, ids := Rewrite(bottom, key, binding, t, cur, spine, ts);
      if r.Ok? && r.value.Some? {
        ClimbedIsRewritten(sha, store.nodes, key, bottom, vs, binding, ids);
      }
    }

    /**
     * Set (or, with `None`, remove) the binding of one path, copying only the changed ancestors. `claim` is a trie
     * that the root may be the digest of; `vs` are the nodes passed, none if the descent fails.
     */
    method Update(root: Digest, path: Bytes, binding: Option<Digest>, ghost claim: Tree)
      returns (r: IndexResult<Digest>, ghost vs: seq<Visit>, ghost ids: seq<Option<Digest>>)
      modifies store`readCount, store`nodes, store`insertCount
      ensures Extends(old(store.nodes), store.nodes)
      ensures Honest(sha, old(store.nodes)) ==> Honest(sha, store.nodes)
      ensures EncodeKey(path).Err? ==> r == Err(Codec(EncodeKey(path).error)) && vs == []
      // The cost, on any store contents: one node per ancestor and three more.
      ensures EncodeKey(path).Ok? ==> |vs| <= |EncodeKey(path).value| + 1
      ensures store.insertCount <= old(store.insertCount) + |vs| + 2
      ensures r.Ok? ==> store.readCount <= old(store.readCount) + 2 * |vs| + 2
      // Whatever is stored: no update without a complete descent, and none of what is bound already.
      ensures vs == [] ==> r.Err? && store.nodes == old(store.nodes) && store.insertCount == old(store.insertCount)
      ensures vs == [] && EncodeKey(path).Ok? ==>
                FailsRightly(sha, old(store.nodes), store.reliable, root, EncodeKey(path).value, r.error)
      ensures vs != [] ==> EncodeKey(path).Ok? && Chain(sha, old(store.nodes), root, EncodeKey(path).value, vs)
      ensures vs != [] && OwnEnd(EncodeKey(path).value, vs) == binding ==>
                r == Ok(root) && store.nodes == old(store.nodes) && store.insertCount == old(store.insertCount)
      // Otherwise the nodes passed are rewritten from the last one up.
      ensures r.Ok? && OwnEnd(EncodeKey(path).value, vs) != binding ==>
                Rewritten(sha, store.nodes, EncodeKey(path).value, vs, binding, ids, r.value)
      // The new root binds exactly what the old one did, except for the given path, and shares all but the
      // nodes counted.
      ensures WellFormed(sha, old(store.nodes), root) && EncodeKey(path).Ok? && r.Ok? ==>
                |vs| == Ancestors(TreeOf(sha, old(store.nodes), root), EncodeKey(path).value) + 1
      ensures WellFormed(sha, old(store.nodes), root) && EmptyRootUnused(sha, store.nodes) && r.Ok? ==>
                && WellFormed(sha, store.nodes, r.value)
                && Bindings(sha, store.nodes, r.value) == Rebound(Bindings(sha, old(store.nodes), root), path, binding)
                && |Reachable(sha, store.nodes, r.value) - Reachable(sha, old(store.nodes), root)| <= |vs| + 2
      // An update that changes nothing writes nothing.
      ensures WellFormed(sha, old(store.nodes), root) && EncodeKey(path).Ok?
              && Get(Bindings(sha, old(store.nodes), root), path) == binding ==>
                && store.nodes == old(store.nodes) && store.insertCount == old(store.insertCount)
                && (r.Ok? ==> r.value == root) && (store.reliable ==> r.Ok?)
      // On a reliable store it succeeds whenever there is room for the nodes it writes.
      ensures WellFormed(sha, old(store.nodes), root) && EncodeKey(path).Ok?
              && Room(sha, old(store.nodes),
                      Writes(TreeOf(sha, old(store.nodes), root), EncodeKey(path).value, binding)) ==>
                && (store.reliable ==> r.Ok?) && EmptyRootUnused(sha, store.nodes)
      // On a partial or corrupt store an update may fail, but it edits the trie whose digest the root is, and
      // stores the nodes of that edit only.
      ensures EncodeKey(path).Ok? && Traced(sha, old(store.nodes), root, None, [], claim)
              && EmptyRootUnused(sha, store.nodes) && Genuine(sha, store.nodes, claim) ==>
                && OnlyAdded(sha, old(store.nodes), store.nodes, Writes(claim, EncodeKey(path).value, binding))
                && (r.Ok? ==> r.value == Id(sha, PutRoot(claim, EncodeKey(path).value, binding))
                              && |vs| == Ancestors(claim, EncodeKey(path).value) + 1)
    {
      hide EncodeKey, Bindings, Lookup, Put, WellFormed, TreeOf, Traced, Genuine, Chain, EmptyRootUnused, Rebound,
           Writes, Ancestors, Room, Honest, Reachable, Extends, PutRoot, Id, Get, PathMap, FailsRightly, OnlyAdded,
           TreeStored, Rewritten, OwnEnd, Puts, Fits, RootOf;
      vs, ids := [], [];
      ghost var n0 := store.nodes;
      ExtendsItself(n0);
      NothingAdded(sha, n0);
      var computed := ComputeKey(path);
      var key :- Lift(computed);
      ghost var held := WellFormed(sha, n0, root);
      ghost var t := if held then TreeOf(sha, n0, root) else claim;
      if held {
        HeldRootTraced(sha, n0, root, claim);
        BindingAhead(sha, n0, root, path);
      }
      ghost var known := Traced(sha, n0, root, None, [], t);
      ghost var ts := Writes(t, key, binding);
      var attempt;
      attempt, vs, ids := EditKey(root, key, binding, path, if known then Some(t) else None, ts);
      if held {
        HeldTreeStored(sha, n0, store.nodes, root);
        if attempt.Err? && vs == [] {
          HeldSucceeds(sha, n0, store.reliable, root, key, attempt.error);
        }
        if Room(sha, n0, ts) {
          RoomIsUnused(sha, n0, ts);
          if vs != [] && attempt != Ok(None) {
            FitsMeans(sha, n0, store.nodes, store.reliable, attempt.Ok?, ts);
          }
        }
      }
      if vs != [] && known && attempt != Ok(None) && EmptyRootUnused(sha, store.nodes) && Genuine(sha, store.nodes, t) {
        TracedUpdate(sha, n0, store.nodes, t, key, binding, SavedEdit(attempt));
        if held && attempt.Ok? {
          HeldUpdate(sha, n0, store.nodes, root, path, binding, attempt.value.value);
        }
      }
      var rewritten :- attempt;
      if rewritten.None? {
        if held {
          ReboundToItself(Bindings(sha, n0, root), path, binding);
        }
        if known {
          TracedPutNothing(sha, n0, root, t, path, key, binding);
        }
        return Ok(root), vs, [];
      }
      return Ok(RootOf(sha, rewritten.value)), vs, ids;
    }

    /** Replay a history of edits from the empty index. */
    method Replay(edits: seq<(Bytes, Option<Digest>)>) returns (r: IndexResult<Digest>)
      modifies store`readCount, store`nodes, store`insertCount
      ensures Extends(old(store.nodes), store.nodes)
      ensures r.Ok? && EmptyRootUnused(sha, store.nodes) ==>
                && WellFormed(sha, store.nodes, r.value)
                && Bindings(sha, store.nodes, r.value) == Outcome(edits)
      // Every root that was well-formed before still has its bindings.
      ensures forall root :: WellFormed(sha, old(store.nodes), root) ==>
                && WellFormed(sha, store.nodes, root)
                && Bindings(sha, store.nodes, root) == Bindings(sha, old(store.nodes), root)
    {
      hide Bindings, WellFormed, Rebound, EmptyRootUnused, Outcome, Extends, Honest, Room, Writes, Ancestors,
           Reachable, TreeOf, EncodeKey, FailsRightly, Chain, OwnEnd, Traced, Genuine, OnlyAdded, Rewritten,
           EmptyRoot, Id, PutRoot, Get;
      var root := EmptyRoot(sha);
      EmptyRootIsWellFormed(sha, store.nodes);
      NoEdits(edits);
      ExtendsItself(store.nodes);
      var failed: Option<IndexError> := None;
      var i := 0;
      while i < |edits| && failed.None?
        invariant i <= |edits| && Extends(old(store.nodes), store.nodes)
        invariant failed.None? && EmptyRootUnused(sha, store.nodes) ==>
                    WellFormed(sha, store.nodes, root) && Bindings(sha, store.nodes, root) == Outcome(edits[..i])
        decreases |edits| - i, failed.None?
      {
        ghost var before := store.nodes;
        var updated; ghost var vs, ids;
        updated, vs, ids := Update(root, edits[i].0, edits[i].1, EMPTY);
        ExtendsThrough(old(store.nodes), before, store.nodes);
        if EmptyRootUnused(sha, store.nodes) {
          UnusedBefore(sha, before, store.nodes);
        }
        if updated.Err? {
          failed := Some(updated.error);
        } else {
          OutcomeStep(edits, i);
          root, i := updated.value, i + 1;
        }
      }
      forall root | WellFormed(sha, old(store.nodes), root)
        ensures WellFormed(sha, store.nodes, root)
             && Bindings(sha, store.nodes, root) == Bindings(sha, old(store.nodes), root)
      {
        RootsPersist(sha, old(store.nodes), store.nodes, root);
      }
      assert edits[..|edits|] == edits;
      return if failed.None? then Ok(root) else Err(failed.value);
    }

    /** Remove a binding and set it again: back to the same root. */
    method DeleteReinsert(root: Digest, path: Bytes, b: Digest) returns (r: IndexResult<Digest>)
      modifies store`readCount, store`nodes, store`insertCount
      ensures Extends(old(store.nodes), store.nodes)
      ensures WellFormed(sha, old(store.nodes), root) && EncodeKey(path).Ok? && EmptyRootUnused(sha, store.nodes)
              && r.Ok?
              && Get(Bindings(sha, old(store.nodes), root), path) == Some(b) ==>
                r.value == root
    {
      hide Bindings, WellFormed, Rebound, EmptyRootUnused, EncodeKey, Honest, Room, Writes, Reachable, Ancestors,
           TreeOf, FailsRightly, Chain, OwnEnd, Traced, Genuine, OnlyAdded, Rewritten, Id, PutRoot;
      ghost var n0 := store.nodes;
      var deleted; ghost var vs, ids;
      deleted, vs, ids := Update(root, path, None, EMPTY);
      ghost var n1 := store.nodes;
      var without :- deleted;
      r, vs, ids := Update(without, path, Some(b), EMPTY);
      if EmptyRootUnused(sha, store.nodes) && r.Ok? && WellFormed(sha, n0, root)
         && Get(Bindings(sha, n0, root), path) == Some(b) {
        UnusedBefore(sha, n1, store.nodes);
        ReboundTwice(Bindings(sha, n0, root), path, b);
        RootDependsOnBindingsOnly(sha, n0, root, store.nodes, r.value);
      }
    }

    method GetBinding(root: Digest, path: Bytes, ghost claim: Tree)
      returns (r: IndexResult<Option<Digest>>, ghost vs: seq<Visit>)
      modifies store`readCount
      ensures EncodeKey(path).Err? ==> r == Err(Codec(EncodeKey(path).error))
      ensures EncodeKey(path).Ok? && r.Ok? ==>
                && Chain(sha, store.nodes, root, EncodeKey(path).value, vs)
                && r.value == OwnEnd(EncodeKey(path).value, vs)
      ensures EncodeKey(path).Ok? && r.Err? ==>
                FailsRightly(sha, store.nodes, store.reliable, root, EncodeKey(path).value, r.error)
      ensures WellFormed(sha, store.nodes, root) && EncodeKey(path).Ok? ==>
                && (r.Ok? ==> r.value == Get(Bindings(sha, store.nodes, root), path))
                && (store.reliable ==> r.Ok?)
      ensures Traced(sha, store.nodes, root, None, [], claim) && r.Ok? ==> r.value == Get(PathMap(claim), path)
    {
      hide Traced, Bindings, PathMap, Chain, WellFormed, FailsRightly, EncodeKey;
      var walked;
      walked, vs := Walk(root, path, false, claim);
      var found :- walked;
      if EncodeKey(path).Ok? {
        ChainNotEmpty(sha, store.nodes, root, EncodeKey(path).value, vs);
      }
      return Ok(if found.Some? then Some(found.value.1) else None), vs;
    }

    method LongestPrefix(root: Digest, path: Bytes, ghost claim: Tree)
      returns (r: IndexResult<Option<(Bytes, Digest)>>, ghost vs: seq<Visit>)
      modifies store`readCount
      ensures EncodeKey(path).Err? ==> r == Err(Codec(EncodeKey(path).error))
      ensures EncodeKey(path).Ok? && r.Ok? ==>
                && Chain(sha, store.nodes, root, EncodeKey(path).value, vs)
                && LastBound(EncodeKey(path).value, vs, r.value)
      ensures EncodeKey(path).Ok? && r.Err? ==>
                FailsRightly(sha, store.nodes, store.reliable, root, EncodeKey(path).value, r.error)
      ensures WellFormed(sha, store.nodes, root) && EncodeKey(path).Ok? ==>
                && (r.Ok? ==> LongestAncestor(Bindings(sha, store.nodes, root), path, r.value))
                && (store.reliable ==> r.Ok?)
      ensures Traced(sha, store.nodes, root, None, [], claim) && r.Ok?
              ==> LongestAncestor(PathMap(claim), path, r.value)
    {
      hide LongestAncestor, Bindings, Traced, PathMap, Chain, WellFormed, FailsRightly, EncodeKey, LastBound;
      r, vs := Walk(root, path, true, claim);
    }
  }
}
