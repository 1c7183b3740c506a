/** Every wire and storage format in place: which field stands at which offset. */
module Layout {
  import opened Base
  import Names
  import RadixNode
  import MetaEntry
  import MetaPage
  import MetaDecode
  import ChunkMap
  import TreePayload
  import TreeFrame
  import ErrorJson
  import ErrorSchema
  import Utf8

  // ----- radix nodes -----

  /** A big-endian 16-bit integer. */
  function Be16At(b: Bytes, off: nat): nat
    requires off + 2 <= |b|
  {
    256 * b[off] as nat + b[off + 1] as nat
  }

  /** A bound node holds its binding after the flag. */
  function NodeTail(n: RadixNode.Node): nat {
    26 + |n.lbl| + if n.binding.Some? then 33 else 1
  }

  predicate NodeHead(b: Bytes, n: RadixNode.Node) {
    var at, tail := 26 + |n.lbl|, NodeTail(n);
    && |b| >= tail + 2
    && b[..24] == Ascii("mega.namespace-radix.v1\0") && Be16At(b, 24) == |n.lbl| && b[26..at] == n.lbl
    && b[at] == (if n.binding.Some? then 1 else 0) && (n.binding.Some? ==> b[at + 1..tail] == n.binding.value)
    && Be16At(b, tail) == |n.children|
  }

  predicate NodeChild(b: Bytes, off: nat, c: RadixNode.Child<Digest>) {
    off + 33 <= |b| && b[off] == c.edge && b[off + 1..off + 33] == c.target
  }

  predicate NodeFields(b: Bytes, n: RadixNode.Node) {
    && NodeHead(b, n) && |b| == NodeTail(n) + 2 + 33 * |n.children|
    && forall i :: 0 <= i < |n.children| ==> NodeChild(b, NodeTail(n) + 2 + 33 * i, n.children[i])
  }

  lemma {:induction false} NodeChildAt(b: Bytes, off: nat, cs: seq<RadixNode.Child<Digest>>, i: nat)
    requires off <= |b| && b[off..] == RadixNode.ChildBytes(cs) && i < |cs|
    ensures NodeChild(b, off + 33 * i, cs[i])
    decreases i
  {
    hide NodeChild;
    var c, rest := cs[0], RadixNode.ChildBytes(cs[1..]);
    Assoc([c.edge], c.target, rest);
    NodeChildFirst(b, off, c, rest);
    if i > 0 {
      NodeChildAt(b, off + 33, cs[1..], i - 1);
    }
  }

  lemma NodeChildFirst(b: Bytes, off: nat, c: RadixNode.Child<Digest>, rest: Bytes)
    requires off <= |b| && b[off..] == [c.edge] + (c.target + rest)
    ensures NodeChild(b, off, c) && b[off + 33..] == rest
  {
    FieldAt(b, off, [c.edge], c.target + rest);
    FieldAt(b, off + 1, c.target, rest);
    assert b[off] == b[off..off + 1][0];
  }

  lemma NodeHeadInPlace(n: RadixNode.Node)
    requires RadixNode.Canonical(n)
    ensures var b := RadixNode.NodeBytes(n);
            NodeHead(b, n) && b[NodeTail(n) + 2..] == RadixNode.ChildBytes(n.children)
  {
    hide RadixNode.Be16, RadixNode.ChildBytes, RadixNode.EdgesAscend, RadixNode.BindingBytes, Be16At;
    var b := RadixNode.NodeBytes(n);
    var rest := RadixNode.BindingBytes(n.binding)
                + (RadixNode.Be16(|n.children|) + RadixNode.ChildBytes(n.children));
    NodeFrontInPlace(b, n.lbl, rest);
    NodeTailInPlace(b, 26 + |n.lbl|, n);
  }

  lemma NodeFrontInPlace(b: Bytes, lbl: Bytes, rest: Bytes)
    requires |lbl| < 0x1_0000 && b == RadixNode.NODE_DOMAIN + (RadixNode.Be16(|lbl|) + (lbl + rest))
    ensures 26 + |lbl| <= |b| && b[..24] == Ascii("mega.namespace-radix.v1\0") && Be16At(b, 24) == |lbl|
    ensures b[26..26 + |lbl|] == lbl && b[26 + |lbl|..] == rest
  {
    hide RadixNode.Be16, Be16At;
    var f1 := RadixNode.Be16(|lbl|) + (lbl + rest);
    assert b[0..] == b && b[..24] == b[0..24];
    FieldAt(b, 0, RadixNode.NODE_DOMAIN, f1);
    FieldAt(b, 24, RadixNode.Be16(|lbl|), lbl + rest);
    FieldAt(b, 26, lbl, rest);
    Be16InPlace(b, 24, |lbl|);
  }

  lemma NodeTailInPlace(b: Bytes, at: nat, n: RadixNode.Node)
    requires |n.children| < 0x1_0000 && at == 26 + |n.lbl| <= |b|
    requires b[at..] == RadixNode.BindingBytes(n.binding)
                        + (RadixNode.Be16(|n.children|) + RadixNode.ChildBytes(n.children))
    ensures var tail := NodeTail(n);
            && |b| >= tail + 2
            && b[at] == (if n.binding.Some? then 1 else 0) && (n.binding.Some? ==> b[at + 1..tail] == n.binding.value)
            && Be16At(b, tail) == |n.children| && b[tail + 2..] == RadixNode.ChildBytes(n.children)
  {
    hide RadixNode.Be16, RadixNode.ChildBytes, Be16At;
    var children := RadixNode.ChildBytes(n.children);
    var tail := NodeTail(n);
    FieldAt(b, at, RadixNode.BindingBytes(n.binding), RadixNode.Be16(|n.children|) + children);
    FieldAt(b, tail, RadixNode.Be16(|n.children|), children);
    Be16InPlace(b, tail, |n.children|);
    BindingInPlace(b, at, tail, n.binding);
  }

  lemma BindingInPlace(b: Bytes, at: nat, tail: nat, binding: Option<Digest>)
    requires at < tail <= |b| && b[at..tail] == RadixNode.BindingBytes(binding)
    ensures b[at] == if binding.Some? then 1 else 0
    ensures binding.Some? ==> b[at + 1..tail] == binding.value
  {
    assert b[at] == b[at..tail][0];
    assert b[at + 1..tail] == b[at..tail][1..];
  }

  /** The stored form of a node. */
  lemma NodeInPlace(n: RadixNode.Node)
    requires RadixNode.Canonical(n)
    ensures NodeFields(RadixNode.NodeBytes(n), n)
  {
    hide RadixNode.NodeBytes, RadixNode.Canonical, NodeHead, NodeChild;
    var b := RadixNode.NodeBytes(n);
    NodeHeadInPlace(n);
    HeadFits(b, n);
    assert |b| == NodeTail(n) + 2 + |b[NodeTail(n) + 2..]|;
    forall i | 0 <= i < |n.children| ensures NodeChild(b, NodeTail(n) + 2 + 33 * i, n.children[i]) {
      NodeChildAt(b, NodeTail(n) + 2, n.children, i);
    }
  }

  lemma HeadFits(b: Bytes, n: RadixNode.Node)
    requires NodeHead(b, n)
    ensures |b| >= NodeTail(n) + 2
  {
  }

  lemma Be16InPlace(b: Bytes, off: nat, n: nat)
    requires off + 2 <= |b| && b[off..off + 2] == RadixNode.Be16(n) && n < 0x1_0000
    ensures Be16At(b, off) == n
  {
    assert b[off] == b[off..off + 2][0] && b[off + 1] == b[off..off + 2][1];
  }

  // ----- directory pages -----

  /** The bytes of an entry at an offset. */
  predicate EntryFields(b: Bytes, off: nat, e: MetaEntry.Entry) {
    var l := |e.name|;
    var size := if e.kind.Directory? then 35 + l else 43 + l;
    && off + size <= |b|
    && b[off] == (match e.kind case Regular => 1 case Executable => 2 case Symlink => 3 case Directory => 4)
    && U16At(b, off + 1) == l && b[off + 3..off + 3 + l] == e.name
    && if e.kind.Directory? then b[off + 3 + l..off + 35 + l] == e.childRoot
       else U64At(b, off + 3 + l) == e.size && b[off + 11 + l..off + 43 + l] == e.contentId
  }

  lemma EntryInPlace(b: Bytes, off: nat, e: MetaEntry.Entry, rest: Bytes)
    requires MetaEntry.ValidEntry(e) && off <= |b| && b[off..] == MetaEntry.EntryBytes(e) + rest
    ensures EntryFields(b, off, e)
  {
    hide Le16, U16At, U64At, MetaEntry.TailBytes, Names.ValidateName;
    MetaEntry.ValidNameBound(e.name);
    MetaEntry.EntryConcat(e, rest);
    var f2 := MetaEntry.TailBytes(e) + rest;
    var f1 := e.name + f2;
    FieldAt(b, off, [MetaEntry.KindByte(e.kind)], Le16(|e.name|) + f1);
    assert b[off] == b[off..off + 1][0];
    FieldU16(b, off + 1, |e.name|, f1);
    FieldAt(b, off + 3, e.name, f2);
    TailInPlace(b, off + 3 + |e.name|, e, rest);
  }

  lemma TailInPlace(b: Bytes, off: nat, e: MetaEntry.Entry, rest: Bytes)
    requires off <= |b| && b[off..] == MetaEntry.TailBytes(e) + rest
    ensures if e.kind.Directory? then off + 32 <= |b| && b[off..off + 32] == e.childRoot
            else off + 40 <= |b| && U64At(b, off) == e.size && b[off + 8..off + 40] == e.contentId
  {
    hide Le64, U64At;
    FieldAt(b, off, MetaEntry.TailBytes(e), rest);
    if !e.kind.Directory? {
      Assoc(Le64(e.size), e.contentId, rest);
      FieldU64(b, off, e.size, e.contentId + rest);
      FieldAt(b, off + 8, e.contentId, rest);
    }
  }

  /** Bytes of the first `n` entries. */
  function EntriesEnd(es: seq<MetaEntry.Entry>, n: nat): nat
    requires n <= |es|
  {
    if n == 0 then 0 else (if es[0].kind.Directory? then 35 else 43) + |es[0].name| + EntriesEnd(es[1..], n - 1)
  }

  lemma {:induction false} EntriesInPlace(b: Bytes, off: nat, es: seq<MetaEntry.Entry>, i: nat)
    requires off <= |b| && b[off..] == MetaPage.EntriesBytes(es) && MetaPage.AllValid(es) && i < |es|
    ensures EntryFields(b, off + EntriesEnd(es, i), es[i])
    decreases i
  {
    hide MetaEntry.EntryBytes, MetaEntry.ValidEntry, EntryFields;
    var e, rest := es[0], MetaPage.EntriesBytes(es[1..]);
    assert MetaEntry.ValidEntry(e);
    if i == 0 {
      EntryInPlace(b, off, e, rest);
    } else {
      FieldAt(b, off, MetaEntry.EntryBytes(e), rest);
      forall j | 0 <= j < |es[1..]| ensures MetaEntry.ValidEntry(es[1..][j]) {
        assert es[1..][j] == es[j + 1];
      }
      EntriesInPlace(b, off + MetaEntry.EncodedLen(e), es[1..], i - 1);
    }
  }

  predicate ChildFields(b: Bytes, off: nat, c: MetaPage.BranchChild) {
    off + 41 <= |b| && b[off] == c.lbl && U64At(b, off + 1) == c.entries && b[off + 9..off + 41] == c.pageId
  }

  lemma {:induction false} PageChildAt(b: Bytes, off: nat, cs: seq<MetaPage.BranchChild>, i: nat)
    requires off <= |b| && b[off..] == MetaPage.ChildrenBytes(cs) && i < |cs|
    ensures ChildFields(b, off + 41 * i, cs[i])
    decreases i
  {
    hide ChildFields, MetaPage.ChildBytes;
    PageChildFirst(b, off, cs[0], MetaPage.ChildrenBytes(cs[1..]));
    if i > 0 {
      PageChildAt(b, off + 41, cs[1..], i - 1);
    }
  }

  lemma PageChildFirst(b: Bytes, off: nat, c: MetaPage.BranchChild, rest: Bytes)
    requires off <= |b| && b[off..] == MetaPage.ChildBytes(c) + rest
    ensures ChildFields(b, off, c) && b[off + 41..] == rest
  {
    hide Le64, U64At;
    Assoc([c.lbl], Le64(c.entries) + c.pageId, rest);
    Assoc(Le64(c.entries), c.pageId, rest);
    FieldAt(b, off, [c.lbl], Le64(c.entries) + (c.pageId + rest));
    FieldU64(b, off + 1, c.entries, c.pageId + rest);
    FieldAt(b, off + 9, c.pageId, rest);
    assert b[off] == b[off..off + 1][0];
  }

  predicate LeafFields(b: Bytes, es: seq<MetaEntry.Entry>) {
    |b| == 20 + EntriesEnd(es, |es|) && forall i :: 0 <= i < |es| ==> EntryFields(b, 20 + EntriesEnd(es, i), es[i])
  }

  /** A branch has its terminal, if any, between its prefix and its children. */
  predicate BranchFields(b: Bytes, prefix: Bytes, terminal: Option<MetaEntry.Entry>, cs: seq<MetaPage.BranchChild>) {
    var at := 22 + |prefix|;
    var tail := at + 1 + if terminal.Some? then EntriesEnd([terminal.value], 1) else 0;
    && |b| == tail + 41 * |cs|
    && U16At(b, 20) == |prefix| && b[22..at] == prefix
    && b[at] == (if terminal.Some? then 1 else 0) && (terminal.Some? ==> EntryFields(b, at + 1, terminal.value))
    && forall i :: 0 <= i < |cs| ==> ChildFields(b, tail + 41 * i, cs[i])
  }

  /** The 20-byte header of a page, and its payload. */
  predicate PageFields(b: Bytes, p: MetaPage.Page) {
    && |b| >= 20 && b[..4] == Ascii("MTP2") && b[5] == 0
    && U64At(b, 8) == MetaPage.TotalEntries(p) && U32At(b, 16) == |b| - 20
    && match p
       case Leaf(es) => b[4] == 0 && U16At(b, 6) == |es| && LeafFields(b, es)
       case Branch(prefix, terminal, cs) => b[4] == 1 && U16At(b, 6) == |cs| && BranchFields(b, prefix, terminal, cs)
  }

  lemma {:induction false} EntriesEndIs(es: seq<MetaEntry.Entry>)
    ensures EntriesEnd(es, |es|) == |MetaPage.EntriesBytes(es)|
  {
    hide MetaEntry.EntryBytes;
    if es != [] {
      EntriesEndIs(es[1..]);
      assert |MetaEntry.EntryBytes(es[0])| == MetaEntry.EncodedLen(es[0]);
    }
  }

  /** The byte form of a page. */
  lemma PageInPlace(p: MetaPage.Page)
    requires MetaPage.WellBuilt(p)
    ensures PageFields(MetaPage.PageBytes(p), p)
  {
    hide MetaPage.Header, MetaPage.Payload, U16At, U32At, U64At, LeafFields, BranchFields, MetaPage.AllValid,
         MetaEntry.ValidEntry;
    var b := MetaPage.PageBytes(p);
    var (kind, count) := MetaPage.KindAndCount(p);
    MetaDecode.HeaderFields(b, kind, count, MetaPage.TotalEntries(p), |MetaPage.Payload(p)|, MetaPage.Payload(p));
    assert b[..4] == b[0..4];
    match p
    case Leaf(es) => LeafInPlace(b, es);
    case Branch(prefix, terminal, cs) => BranchInPlace(b, prefix, terminal, cs);
  }

  lemma LeafInPlace(b: Bytes, es: seq<MetaEntry.Entry>)
    requires |b| >= 20 && b[20..] == MetaPage.Payload(MetaPage.Leaf(es)) && MetaPage.AllValid(es)
    ensures LeafFields(b, es)
  {
    hide EntryFields, MetaPage.AllValid, MetaPage.EntriesBytes;
    EntriesEndIs(es);
    forall i | 0 <= i < |es| ensures EntryFields(b, 20 + EntriesEnd(es, i), es[i]) {
      EntriesInPlace(b, 20, es, i);
    }
  }

  lemma BranchInPlace(b: Bytes, prefix: Bytes, terminal: Option<MetaEntry.Entry>, cs: seq<MetaPage.BranchChild>)
    requires |b| >= 20 && b[20..] == MetaPage.Payload(MetaPage.Branch(prefix, terminal, cs))
    requires |prefix| <= 255 && (terminal.Some? ==> MetaEntry.ValidEntry(terminal.value))
    ensures BranchFields(b, prefix, terminal, cs)
  {
    hide Le16, U16At, MetaPage.ChildrenBytes, MetaPage.TerminalBytes, EntryFields, ChildFields, MetaEntry.ValidEntry;
    var children := MetaPage.ChildrenBytes(cs);
    var f2 := MetaPage.TerminalBytes(terminal) + children;
    var at := 22 + |prefix|;
    FieldU16(b, 20, |prefix|, prefix + f2);
    FieldAt(b, 22, prefix, f2);
    TerminalInPlace(b, at, terminal, children);
    var tail := at + 1 + if terminal.Some? then EntriesEnd([terminal.value], 1) else 0;
    forall i | 0 <= i < |cs| ensures ChildFields(b, tail + 41 * i, cs[i]) {
      PageChildAt(b, tail, cs, i);
    }
  }

  lemma TerminalInPlace(b: Bytes, at: nat, terminal: Option<MetaEntry.Entry>, rest: Bytes)
    requires at <= |b| && b[at..] == MetaPage.TerminalBytes(terminal) + rest
    requires terminal.Some? ==> MetaEntry.ValidEntry(terminal.value)
    ensures var tail := at + 1 + if terminal.Some? then EntriesEnd([terminal.value], 1) else 0;
            && tail <= |b| && b[tail..] == rest
            && b[at] == (if terminal.Some? then 1 else 0) && (terminal.Some? ==> EntryFields(b, at + 1, terminal.value))
  {
    hide MetaEntry.EntryBytes, EntryFields, MetaEntry.ValidEntry;
    if terminal.Some? {
      SomeTerminalInPlace(b, at, terminal.value, rest);
    } else {
      FieldAt(b, at, [0], rest);
      assert b[at] == b[at..at + 1][0];
    }
  }

  lemma SomeTerminalInPlace(b: Bytes, at: nat, e: MetaEntry.Entry, rest: Bytes)
    requires at <= |b| && b[at..] == [1] + MetaEntry.EntryBytes(e) + rest && MetaEntry.ValidEntry(e)
    ensures var tail := at + 1 + EntriesEnd([e], 1);
            tail <= |b| && b[tail..] == rest && b[at] == 1 && EntryFields(b, at + 1, e)
  {
    hide MetaEntry.EntryBytes, EntryFields, MetaEntry.ValidEntry;
    var entry := MetaEntry.EntryBytes(e);
    Assoc([1], entry, rest);
    FieldAt(b, at, [1], entry + rest);
    assert b[at] == b[at..at + 1][0];
    EntryInPlace(b, at + 1, e, rest);
    FieldAt(b, at + 1, entry, rest);
    assert |entry| == MetaEntry.EncodedLen(e) == EntriesEnd([e], 1);
  }

  // ----- chunk leaves -----

  predicate ChunkLeafFields(b: Bytes, l: ChunkMap.Leaf) {
    && |b| == 16 + 32 * |l.chunks|
    && b[..4] == Ascii("MCL2") && U64At(b, 4) == l.pageIndex && U16At(b, 12) == |l.chunks| && U16At(b, 14) == 0
    && forall i :: 0 <= i < |l.chunks| ==> b[16 + 32 * i..48 + 32 * i] == l.chunks[i]
  }

  lemma {:induction false} DigestAt(ds: seq<Digest>, i: nat)
    requires i < |ds|
    ensures ChunkMap.DigestBytes(ds)[32 * i..32 * i + 32] == ds[i]
  {
    var b, rest := ChunkMap.DigestBytes(ds), ChunkMap.DigestBytes(ds[1..]);
    if i > 0 {
      DigestAt(ds[1..], i - 1);
      assert b[32..] == rest;
      assert b[32 * i..32 * i + 32] == rest[32 * (i - 1)..32 * (i - 1) + 32];
    } else {
      assert b[0..32] == ds[0];
    }
  }

  /** A chunk leaf has 1 to 256 digests. */
  lemma ChunkLeafInPlace(l: ChunkMap.Leaf)
    ensures ChunkMap.EncodeLeaf(l).Ok? <==> 1 <= |l.chunks| <= 256
    ensures ChunkMap.EncodeLeaf(l).Ok? ==> ChunkLeafFields(ChunkMap.EncodeLeaf(l).value, l)
  {
    hide Le16, Le64, U16At, U64At, ChunkMap.DigestBytes;
    if ChunkMap.EncodeLeaf(l).Ok? {
      var b := ChunkMap.EncodeLeaf(l).value;
      var digests := ChunkMap.DigestBytes(l.chunks);
      var f3 := Le16(0) + digests;
      var f2 := Le16(|l.chunks|) + f3;
      assert b[0..] == ChunkMap.LEAF_MAGIC + (Le64(l.pageIndex) + f2);
      FieldAt(b, 0, ChunkMap.LEAF_MAGIC, Le64(l.pageIndex) + f2);
      FieldU64(b, 4, l.pageIndex, f2);
      FieldU16(b, 12, |l.chunks|, f3);
      FieldU16(b, 14, 0, digests);
      forall i | 0 <= i < |l.chunks| ensures b[16 + 32 * i..48 + 32 * i] == l.chunks[i] {
        DigestAt(l.chunks, i);
        assert b[16 + 32 * i..48 + 32 * i] == b[16..][32 * i..32 * i + 32];
      }
    }
  }

  /**
   * A descriptor: magic, version 2, no flags, file digest and size, chunk size, the two counts, the root of
   * the pages.
   */
  predicate MapFields(b: Bytes, m: ChunkMap.Map) {
    && |b| == 100 && b[..4] == Ascii("MCM2") && U16At(b, 4) == 2 && U16At(b, 6) == 0
    && b[8..40] == m.fileContentId && U64At(b, 40) == m.fileSize && U32At(b, 48) == 1_048_576
    && U64At(b, 52) == m.chunkCount && U64At(b, 60) == m.pageCount && b[68..100] == m.pagesRoot
  }

  lemma MapInPlace(m: ChunkMap.Map)
    ensures MapFields(ChunkMap.EncodeMap(m), m)
  {
    hide U16At, U32At, U64At;
    ChunkMap.MapFields(ChunkMap.EncodeMap(m), m);
  }

  // ----- payloads -----

  /** Bytes of the first `n` pages of a META payload, each with its 36-byte head. */
  function PagesEnd(pages: seq<TreePayload.Item>, n: nat): nat
    requires n <= |pages|
  {
    if n == 0 then 0 else 36 + |pages[0].bytes| + PagesEnd(pages[1..], n - 1)
  }

  predicate MetaItem(b: Bytes, off: nat, p: TreePayload.Item) {
    && off + 36 + |p.bytes| <= |b|
    && b[off..off + 32] == p.id && U32At(b, off + 32) == |p.bytes| && b[off + 36..off + 36 + |p.bytes|] == p.bytes
  }

  predicate MetaFields(b: Bytes, pages: seq<TreePayload.Item>) {
    && |b| == 4 + PagesEnd(pages, |pages|) && U16At(b, 0) == |pages| && U16At(b, 2) == 0
    && forall i :: 0 <= i < |pages| ==> MetaItem(b, 4 + PagesEnd(pages, i), pages[i])
  }

  lemma {:induction false} PagesEndIs(pages: seq<TreePayload.Item>)
    ensures PagesEnd(pages, |pages|) == |TreePayload.PageItems(pages)|
  {
    if pages != [] {
      PagesEndIs(pages[1..]);
    }
  }

  lemma {:induction false} MetaItemAt(b: Bytes, off: nat, pages: seq<TreePayload.Item>, i: nat)
    requires off <= |b| && b[off..] == TreePayload.PageItems(pages) && i < |pages| && |b| < U32_LIMIT
    ensures MetaItem(b, off + PagesEnd(pages, i), pages[i])
    decreases i
  {
    hide Le32, U32At;
    var p, rest := pages[0], TreePayload.PageItems(pages[1..]);
    Assoc(p.id, Le32(|p.bytes|) + p.bytes, rest);
    Assoc(Le32(|p.bytes|), p.bytes, rest);
    FieldAt(b, off, p.id, Le32(|p.bytes|) + (p.bytes + rest));
    FieldU32(b, off + 32, |p.bytes|, p.bytes + rest);
    FieldAt(b, off + 36, p.bytes, rest);
    if i > 0 {
      MetaItemAt(b, off + 36 + |p.bytes|, pages[1..], i - 1);
    }
  }

  /** `MetaPayload::encode`: which page lists it takes, and what it writes. */
  lemma MetaInPlace(sha: Hash, pages: seq<TreePayload.Item>)
    ensures TreePayload.EncodeMeta(sha, pages).Ok? <==>
            && 1 <= |pages| <= 64 && 4 + PagesEnd(pages, |pages|) <= 1_048_576
            && forall i :: 0 <= i < |pages| ==> pages[i].id == sha(Ascii("mega.mst2.metapage\0") + pages[i].bytes)
    ensures TreePayload.EncodeMeta(sha, pages).Ok? ==> MetaFields(TreePayload.EncodeMeta(sha, pages).value, pages)
  {
    hide MetaFields, Le16, TreePayload.PageItems;
    PagesEndIs(pages);
    assert |TreePayload.MetaBytes(pages)| == 4 + |TreePayload.PageItems(pages)|;
    PageIdMeans(sha);
    if TreePayload.EncodeMeta(sha, pages).Ok? {
      MetaBytesInPlace(pages);
    }
  }

  lemma PageIdMeans(sha: Hash)
    ensures forall page :: MetaPage.PageId(sha, page) == sha(Ascii("mega.mst2.metapage\0") + page)
  {
  }

  lemma MetaBytesInPlace(pages: seq<TreePayload.Item>)
    requires |pages| <= 64 && |TreePayload.MetaBytes(pages)| < U32_LIMIT
    ensures MetaFields(TreePayload.MetaBytes(pages), pages)
  {
    hide Le16, U16At, TreePayload.PageItems, MetaItem;
    PagesEndIs(pages);
    var b := TreePayload.MetaBytes(pages);
    assert b[0..] == b;
    FieldU16(b, 0, |pages|, Le16(0) + TreePayload.PageItems(pages));
    FieldU16(b, 2, 0, TreePayload.PageItems(pages));
    forall i | 0 <= i < |pages| ensures MetaItem(b, 4 + PagesEnd(pages, i), pages[i]) {
      MetaItemAt(b, 4, pages, i);
    }
  }

  /** Bytes of the first `n` objects. */
  function DataEnd(objects: seq<TreePayload.Item>, n: nat): nat
    requires n <= |objects|
  {
    if n == 0 then 0 else |objects[0].bytes| + DataEnd(objects[1..], n - 1)
  }

  /** An object: its table entry with digest, length and offset, and its data at that offset. */
  predicate ObjectItem(b: Bytes, entry: nat, data: nat, off: nat, o: TreePayload.Item) {
    && entry + 40 <= |b| && data + off + |o.bytes| <= |b|
    && b[entry..entry + 32] == o.id && U32At(b, entry + 32) == |o.bytes| && U32At(b, entry + 36) == off
    && b[data + off..data + off + |o.bytes|] == o.bytes
  }

  predicate ObjectFields(b: Bytes, objects: seq<TreePayload.Item>) {
    var n := |objects|;
    && |b| == 4 + 40 * n + DataEnd(objects, n) && U16At(b, 0) == n && U16At(b, 2) == 0
    && forall i :: 0 <= i < n ==> ObjectItem(b, 4 + 40 * i, 4 + 40 * n, DataEnd(objects, i), objects[i])
  }

  lemma {:induction false} DataEndIs(objects: seq<TreePayload.Item>)
    ensures DataEnd(objects, |objects|) == |TreePayload.Data(objects)|
  {
    if objects != [] {
      DataEndIs(objects[1..]);
    }
  }

  lemma {:induction false} DataAt(b: Bytes, off: nat, objects: seq<TreePayload.Item>, i: nat)
    requires off <= |b| && b[off..] == TreePayload.Data(objects) && i < |objects|
    ensures var at := off + DataEnd(objects, i);
            at + |objects[i].bytes| <= |b| && b[at..at + |objects[i].bytes|] == objects[i].bytes
    decreases i
  {
    FieldAt(b, off, objects[0].bytes, TreePayload.Data(objects[1..]));
    if i > 0 {
      DataAt(b, off + |objects[0].bytes|, objects[1..], i - 1);
    }
  }

  lemma {:induction false} TableAt(b: Bytes, p: nat, objects: seq<TreePayload.Item>, off: nat, rest: Bytes, i: nat)
    requires p <= |b| && b[p..] == TreePayload.Table(objects, off) + rest && i < |objects|
    requires off + DataEnd(objects, |objects|) < U32_LIMIT
    ensures var at := p + 40 * i;
            && at + 40 <= |b| && b[at..at + 32] == objects[i].id
            && U32At(b, at + 32) == |objects[i].bytes| && U32At(b, at + 36) == off + DataEnd(objects, i)
    decreases i
  {
    hide Le32, U32At;
    hide TreePayload.TableEntry;
    var o, more := objects[0], TreePayload.Table(objects[1..], off + |objects[0].bytes|);
    Assoc(TreePayload.TableEntry(o, off), more, rest);
    TableFirst(b, p, o, off, more + rest);
    if i > 0 {
      TableAt(b, p + 40, objects[1..], off + |o.bytes|, rest, i - 1);
    }
  }

  lemma TableFirst(b: Bytes, p: nat, o: TreePayload.Item, off: U32, rest: Bytes)
    requires p <= |b| && b[p..] == TreePayload.TableEntry(o, off) + rest && |o.bytes| < U32_LIMIT
    ensures p + 40 <= |b| && b[p..p + 32] == o.id && U32At(b, p + 32) == |o.bytes| && U32At(b, p + 36) == off
    ensures b[p + 40..] == rest
  {
    hide Le32, U32At;
    Assoc(o.id, Le32(|o.bytes|) + Le32(off), rest);
    Assoc(Le32(|o.bytes|), Le32(off), rest);
    FieldAt(b, p, o.id, Le32(|o.bytes|) + (Le32(off) + rest));
    FieldU32(b, p + 32, |o.bytes|, Le32(off) + rest);
    FieldU32(b, p + 36, off, rest);
  }

  /** `ObjectPayload::encode`: which object lists it takes, and what it writes. */
  lemma ObjectInPlace(sha: Hash, objects: seq<TreePayload.Item>)
    ensures TreePayload.EncodeObject(sha, objects).Ok? <==>
            && 1 <= |objects| <= 128 && 4 + 40 * |objects| + DataEnd(objects, |objects|) <= 1_048_576
            && forall i :: 0 <= i < |objects| ==>
                 objects[i].id == sha(objects[i].bytes) && |objects[i].bytes| <= 262_144
    ensures TreePayload.EncodeObject(sha, objects).Ok? ==>
              ObjectFields(TreePayload.EncodeObject(sha, objects).value, objects)
  {
    hide TreePayload.EncodeTable, TreePayload.Table, TreePayload.Data, Le16, U16At, U32At, DataEnd;
    DataEndIs(objects);
    TreePayload.EncodeTableMeans(sha, objects, 0);
    if TreePayload.EncodeObject(sha, objects).Ok? {
      var b := TreePayload.EncodeObject(sha, objects).value;
      var table, data := TreePayload.Table(objects, 0), TreePayload.Data(objects);
      TreePayload.ObjectFields(b, |objects|, table, data);
      forall i | 0 <= i < |objects|
        ensures ObjectItem(b, 4 + 40 * i, 4 + 40 * |objects|, DataEnd(objects, i), objects[i])
      {
        TableAt(b, 4, objects, 0, data, i);
        DataAt(b, 4 + 40 * |objects|, objects, i);
      }
    }
  }

  predicate ChunkFields(b: Bytes, c: TreePayload.ChunkPayload) {
    && |b| == 76 + |c.chunkBytes| && b[..32] == c.mapId && b[32..64] == c.fileContentId
    && U64At(b, 64) == c.chunkIndex && U32At(b, 72) == |c.chunkBytes| && b[76..] == c.chunkBytes
  }

  predicate EndFields(b: Bytes, e: TreePayload.EndPayload) {
    && |b| == 48 && U32At(b, 0) == e.requestItemCount && U32At(b, 4) == e.uniqueUnitCount
    && U64At(b, 8) == e.logicalBytes && b[16..] == e.requestBodySha
  }

  /** CHUNK and END payloads. */
  lemma ChunkAndEndInPlace(c: TreePayload.ChunkPayload, e: TreePayload.EndPayload)
    ensures TreePayload.EncodeChunk(c).Ok? <==> |c.chunkBytes| <= 1_048_576
    ensures TreePayload.EncodeChunk(c).Ok? ==> ChunkFields(TreePayload.EncodeChunk(c).value, c)
    ensures EndFields(TreePayload.EncodeEnd(e), e)
  {
    hide U32At, U64At, Le32, Le64;
    TreePayload.EndCodec(TreePayload.EncodeEnd(e), e);
    if TreePayload.EncodeChunk(c).Ok? {
      TreePayload.ChunkCodec(TreePayload.EncodeChunk(c).value, c);
    }
  }

  // ----- frames -----

  /** A payload that says `f`: what the encoder writes for it, or any ERROR body of the closed schema that says it. */
  ghost predicate Says(sha: Hash, payload: Bytes, f: TreeFrame.Frame) {
    match f
    case Meta(pages) =>
      && TreePayload.EncodeMeta(sha, pages) == Ok(payload)
      && (forall i :: 0 <= i < |pages| ==> |pages[i].bytes| <= 16384)
      && forall i, j :: 0 <= i < j < |pages| ==> pages[i].id != pages[j].id
    case Object(objects) =>
      && TreePayload.EncodeObject(sha, objects) == Ok(payload)
      && forall i, j :: 0 <= i < j < |objects| ==> objects[i].id != objects[j].id
    case Chunk(c) => TreePayload.EncodeChunk(c) == Ok(payload)
    case End(e) => TreePayload.EncodeEnd(e) == payload
    case Error(e) => |payload| <= 4096 && Utf8.Valid(payload) && ErrorSchema.ErrorBody(payload, e)
  }

  function KindByte(f: TreeFrame.Frame): byte {
    match f
    case Meta(_) => 1
    case Object(_) => 2
    case Chunk(_) => 3
    case End(_) => 254
    case Error(_) => 255
  }

  /** A frame of `used` bytes at the head of a buffer, field by field. */
  ghost predicate FrameFields(sha: Hash, b: Bytes, f: TreeFrame.Frame, used: nat) {
    && 64 <= used <= |b|
    && b[..4] == Ascii("MST2") && U16At(b, 4) == 2
    && b[6] == KindByte(f)
    && b[7] == 0 && U32At(b, 8) == 64 && U32At(b, 12) == used - 64 && U32At(b, 16) == used - 64
    && U32At(b, 20) != 0 && b[32..64] == sha(b[64..used])
    && Says(sha, b[64..used], f)
  }

  lemma DecodesAsSaid(sha: Hash, payload: Bytes, f: TreeFrame.Frame)
    ensures TreeFrame.DecodePayload(sha, TreeFrame.KindOf(f), payload, |payload|) == Ok(f) <==> Says(sha, payload, f)
  {
    hide TreePayload.DecodeMeta, TreePayload.DecodeObject, TreePayload.DecodeChunk, TreePayload.DecodeEnd,
         ErrorJson.DecodeError, TreePayload.EncodeMeta, TreePayload.EncodeObject, TreePayload.EncodeChunk,
         TreePayload.EncodeEnd, ErrorSchema.ErrorBody, Utf8.Valid;
    match f
    case Meta(pages) => TreePayload.MetaCodec(sha, payload, pages);
    case Object(objects) => TreePayload.ObjectCodec(sha, payload, objects);
    case Chunk(c) => TreePayload.ChunkCodec(payload, c);
    case End(e) => TreePayload.EndCodec(payload, e);
    case Error(e) => ErrorSchema.DecodeErrorMeans(payload, e);
  }

  lemma SaidWithinLimit(sha: Hash, payload: Bytes, f: TreeFrame.Frame)
    requires Says(sha, payload, f)
    ensures TreeFrame.RawLimit(TreeFrame.KindOf(f)).Ok?
    ensures |payload| <= TreeFrame.RawLimit(TreeFrame.KindOf(f)).value <= TreeFrame.DATA_MAX_WIRE
  {
    hide TreePayload.EncodeTable, TreePayload.PageItems, TreePayload.Data, TreePayload.PagesHashed, Le16, Le32, Le64,
         ErrorSchema.ErrorBody, Utf8.Valid;
  }

  /** `parse_frame` in a build without zstd: exactly which buffers start with which frame. */
  lemma ParseFrameMeans(sha: Hash, b: Bytes, f: TreeFrame.Frame, used: nat)
    ensures TreeFrame.ParseFrame(sha, b) == Ok((f, used)) <==> FrameFields(sha, b, f, used)
  {
    hide Says, U16At, U32At, U64At, TreeFrame.DecodePayload, TreeFrame.RawLimit;
    if |b| >= 64 {
      assert b[..4] == b[0..4];
    }
    if TreeFrame.ParseFrame(sha, b) == Ok((f, used)) {
      var payload := b[64..used];
      DecodedKind(sha, b[6], payload, f);
      DecodesAsSaid(sha, payload, f);
    }
    if FrameFields(sha, b, f, used) {
      var payload := b[64..used];
      SaidWithinLimit(sha, payload, f);
      DecodesAsSaid(sha, payload, f);
    }
  }

  lemma DecodedKind(sha: Hash, kind: byte, payload: Bytes, f: TreeFrame.Frame)
    requires TreeFrame.DecodePayload(sha, kind, payload, |payload|) == Ok(f)
    ensures TreeFrame.KindOf(f) == kind
  {
    hide TreePayload.DecodeMeta, TreePayload.DecodeObject, TreePayload.DecodeChunk, TreePayload.DecodeEnd,
         ErrorJson.DecodeError;
  }
}
