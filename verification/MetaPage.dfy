/** MTP2 directory pages: structure, byte form and the page codec. */
module MetaPage {
  import opened Base
  import opened MetaEntry

  const LEAF_MAX_ENTRIES: nat := 128
  const PAGE_MAX_BYTES: nat := 16384
  const BRANCH_MAX_CHILDREN: nat := 256
  const MAX_DEPTH: nat := 255
  const MAX_TOTAL_ENTRIES: nat := 0x7FFF_FFFF_FFFF_FFFF
  const HEADER_LEN: nat := 20
  const PAGE_MAGIC: Bytes := Ascii("MTP2")
  const PAGE_DOMAIN: Bytes := Ascii("mega.mst2.metapage\0")

  /** A branch child; `lbl` is its label byte. */
  datatype BranchChild = BranchChild(lbl: byte, entries: U64, pageId: Digest)

  datatype Page =
    | Leaf(entries: seq<Entry>)
    | Branch(prefix: Bytes, terminal: Option<Entry>, children: seq<BranchChild>)

  function PageId(sha: Hash, page: Bytes): Digest {
    sha(PAGE_DOMAIN + page)
  }

  // ----- structure -----

  predicate AllValid(entries: seq<Entry>) {
    forall i :: 0 <= i < |entries| ==> ValidEntry(entries[i])
  }

  predicate AllNormal(entries: seq<Entry>) {
    forall i :: 0 <= i < |entries| ==> Normal(entries[i])
  }

  /** Strictly ascending by name bytes. */
  predicate Ascends(entries: seq<Entry>) {
    forall i :: 0 <= i < |entries| - 1 ==> Less(entries[i].name, entries[i + 1].name)
  }

  predicate LabelsAscend(children: seq<BranchChild>) {
    forall i :: 0 <= i < |children| - 1 ==> children[i].lbl < children[i + 1].lbl
  }

  predicate NoneEmpty(children: seq<BranchChild>) {
    forall i :: 0 <= i < |children| ==> children[i].entries > 0
  }

  function Terminals(terminal: Option<Entry>): nat {
    if terminal.Some? then 1 else 0
  }

  function SumEntries(children: seq<BranchChild>): nat {
    if children == [] then 0 else children[0].entries + SumEntries(children[1..])
  }

  function TotalEntries(p: Page): nat {
    match p
    case Leaf(entries) => |entries|
    case Branch(_, terminal, children) => Terminals(terminal) + SumEntries(children)
  }

  predicate NormalPage(p: Page) {
    match p
    case Leaf(entries) => AllNormal(entries)
    case Branch(_, terminal, _) => terminal.Some? ==> Normal(terminal.value)
  }

  /** The pages that have a byte form. */
  predicate WellBuilt(p: Page) {
    && |PageBytes(p)| <= PAGE_MAX_BYTES
    && match p
       case Leaf(entries) => |entries| <= LEAF_MAX_ENTRIES && AllValid(entries) && Ascends(entries)
       case Branch(prefix, terminal, children) =>
         && |prefix| <= MAX_DEPTH && |children| <= BRANCH_MAX_CHILDREN
         && (terminal.Some? ==> ValidEntry(terminal.value) && terminal.value.name == prefix)
         && LabelsAscend(children) && NoneEmpty(children)
         && |children| + Terminals(terminal) >= 2
         && TotalEntries(p) <= MAX_TOTAL_ENTRIES
  }

  // ----- bytes -----

  function EntriesBytes(entries: seq<Entry>): Bytes {
    if entries == [] then [] else EntryBytes(entries[0]) + EntriesBytes(entries[1..])
  }

  function ChildBytes(c: BranchChild): (b: Bytes)
    ensures |b| == 41
  {
    [c.lbl] + (Le64(c.entries) + c.pageId)
  }

  function ChildrenBytes(children: seq<BranchChild>): (b: Bytes)
    ensures |b| == 41 * |children|
  {
    if children == [] then [] else ChildBytes(children[0]) + ChildrenBytes(children[1..])
  }

  function TerminalBytes(terminal: Option<Entry>): Bytes {
    match terminal
    case None => [0]
    case Some(e) => [1] + EntryBytes(e)
  }

  function Payload(p: Page): Bytes {
    match p
    case Leaf(entries) => EntriesBytes(entries)
    case Branch(prefix, terminal, children) =>
      Le16(|prefix|) + (prefix + (TerminalBytes(terminal) + ChildrenBytes(children)))
  }

  function KindAndCount(p: Page): (byte, nat) {
    match p
    case Leaf(entries) => (0, |entries|)
    case Branch(_, _, children) => (1, |children|)
  }

  function Header(kind: byte, count: nat, total: nat, payloadLen: nat): (b: Bytes)
    ensures |b| == HEADER_LEN
  {
    PAGE_MAGIC + ([kind, 0] + (Le16(count) + (Le64(total) + Le32(payloadLen))))
  }

  function PageBytes(p: Page): Bytes {
    var (kind, count) := KindAndCount(p);
    Header(kind, count, TotalEntries(p), |Payload(p)|) + Payload(p)
  }

  // ----- encoding -----

  /** The leaf loop: check each entry against the one before it and append its bytes. */
  function EncodeEntries(entries: seq<Entry>, prev: Option<Bytes>): CodecResult<Bytes> {
    if entries == [] then Ok([])
    else
      var _ :- Validate(entries[0]);
      if prev.Some? && !Less(prev.value, entries[0].name) then Err(BadOrdering)
      else
        var rest :- EncodeEntries(entries[1..], Some(entries[0].name));
        Ok(EntryBytes(entries[0]) + rest)
  }

  /** The branch loop: check each child against the one before it, add up the counts, append its bytes. */
  function EncodeChildren(children: seq<BranchChild>, prev: Option<byte>, sum: nat): CodecResult<(Bytes, nat)> {
    if children == [] then Ok(([], sum))
    else
      var c := children[0];
      if prev.Some? && c.lbl <= prev.value then Err(BadOrdering)
      else if c.entries == 0 then Err(BadOrdering)
      else if sum + c.entries >= U64_LIMIT then Err(Overflow)
      else
        var (rest, total) :- EncodeChildren(children[1..], Some(c.lbl), sum + c.entries);
        Ok((ChildBytes(c) + rest, total))
  }

  function EncodeTerminal(prefix: Bytes, terminal: Option<Entry>): CodecResult<Bytes> {
    match terminal
    case None => Ok([0])
    case Some(e) =>
      var _ :- Validate(e);
      if e.name != prefix then Err(BadOrdering) else Ok([1] + EntryBytes(e))
  }

  /** Payload and total of a page that passes the checks of `encode`. */
  function EncodePayload(p: Page): CodecResult<(Bytes, nat)> {
    match p
    case Leaf(entries) =>
      if |entries| > LEAF_MAX_ENTRIES then Err(BadLength)
      else
        var payload :- EncodeEntries(entries, None);
        Ok((payload, |entries|))
    case Branch(prefix, terminal, children) =>
      if |prefix| > MAX_DEPTH then Err(BadLength)
      else if |children| > BRANCH_MAX_CHILDREN then Err(BadLength)
      else
        var mid :- EncodeTerminal(prefix, terminal);
        var (tail, sum) :- EncodeChildren(children, None, 0);
        if |children| + Terminals(terminal) < 2 then Err(BadOrdering)
        else if sum + Terminals(terminal) >= U64_LIMIT then Err(Overflow)
        else if sum + Terminals(terminal) > MAX_TOTAL_ENTRIES then Err(BadLength)
        else Ok((Le16(|prefix|) + (prefix + (mid + tail)), sum + Terminals(terminal)))
  }

  /** Specification of `encode`. */
  function EncodePage(p: Page): CodecResult<Bytes> {
    var (payload, total) :- EncodePayload(p);
    var (kind, count) := KindAndCount(p);
    var out := Header(kind, count, total, |payload|) + payload;
    if |out| > PAGE_MAX_BYTES then Err(BadLength) else Ok(out)
  }

  lemma {:induction false} EncodeEntriesMeans(entries: seq<Entry>, prev: Option<Bytes>)
    ensures EncodeEntries(entries, prev).Ok? <==>
              && AllValid(entries) && Ascends(entries)
              && (prev.Some? && entries != [] ==> Less(prev.value, entries[0].name))
    ensures EncodeEntries(entries, prev).Ok? ==> EncodeEntries(entries, prev).value == EntriesBytes(entries)
  {
    if entries != [] {
      hide EntryBytes, Less;
      EncodeEntriesMeans(entries[1..], Some(entries[0].name));
      assert entries == [entries[0]] + entries[1..];
      if AllValid(entries) && Ascends(entries) {
        forall i | 0 <= i < |entries[1..]| - 1 ensures Less(entries[1..][i].name, entries[1..][i + 1].name) {
          assert Less(entries[i + 1].name, entries[i + 2].name);
        }
      }
    }
  }

  lemma {:induction false} EncodeChildrenMeans(children: seq<BranchChild>, prev: Option<byte>, sum: nat)
    ensures EncodeChildren(children, prev, sum).Ok? <==>
              && LabelsAscend(children) && NoneEmpty(children)
              && (prev.Some? && children != [] ==> prev.value < children[0].lbl)
              && (children != [] ==> sum + SumEntries(children) < U64_LIMIT)
    ensures EncodeChildren(children, prev, sum).Ok? ==>
              EncodeChildren(children, prev, sum).value == (ChildrenBytes(children), sum + SumEntries(children))
  {
    hide ChildBytes, LabelsAscend, NoneEmpty;
    if children == [] {
      NoChildren();
    } else {
      var c := children[0];
      EncodeChildrenMeans(children[1..], Some(c.lbl), sum + c.entries);
      ChildrenCons(children);
    }
  }

  lemma NoChildren()
    ensures LabelsAscend([]) && NoneEmpty([])
  {
  }

  lemma ChildrenCons(children: seq<BranchChild>)
    requires children != []
    ensures var rest := children[1..];
            && (LabelsAscend(children) <==> LabelsAscend(rest) && (rest != [] ==> children[0].lbl < rest[0].lbl))
            && (NoneEmpty(children) <==> children[0].entries > 0 && NoneEmpty(rest))
  {
    var rest := children[1..];
    assert children == [children[0]] + rest;
    if LabelsAscend(children) {
      forall i | 0 <= i < |rest| - 1 ensures rest[i].lbl < rest[i + 1].lbl {
        assert children[i + 1].lbl < children[i + 2].lbl;
      }
    }
    if LabelsAscend(rest) && (rest != [] ==> children[0].lbl < rest[0].lbl) {
      forall i | 0 <= i < |children| - 1 ensures children[i].lbl < children[i + 1].lbl {
        assert i > 0 ==> rest[i - 1].lbl < rest[i].lbl;
      }
    }
  }

  /** `encode` accepts exactly the well-built pages, and then writes their bytes. */
  lemma EncodePageMeans(p: Page)
    ensures EncodePage(p).Ok? <==> WellBuilt(p)
    ensures EncodePage(p).Ok? ==> EncodePage(p).value == PageBytes(p)
  {
    hide EntryBytes, Header;
    match p
    case Leaf(entries) =>
      EncodeEntriesMeans(entries, None);
    case Branch(prefix, terminal, children) =>
      EncodeChildrenMeans(children, None, 0);
  }
}
