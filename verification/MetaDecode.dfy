/** Decoding MTP2 pages, and the proof that decoding and encoding are inverse. */
module MetaDecode {
  import opened Base
  import opened MetaEntry
  import Names
  import opened MetaPage

  // ----- specification of `decode` -----

  function DecodeEntries(buf: Bytes, off: nat, count: nat, prev: Option<Bytes>): CodecResult<(seq<Entry>, nat)>
    decreases count
  {
    if count == 0 then Ok(([], off))
    else
      var (e, next) :- DecodeEntry(buf, off);
      if prev.Some? && !Less(prev.value, e.name) then Err(BadOrdering)
      else
        var (rest, end) :- DecodeEntries(buf, next, count - 1, Some(e.name));
        Ok(([e] + rest, end))
  }

  function DecodeChild(buf: Bytes, off: nat, prev: Option<byte>): CodecResult<BranchChild> {
    if off >= |buf| then Err(Truncated)
    else if prev.Some? && buf[off] <= prev.value then Err(BadOrdering)
    else
      var entries :- ReadU64(buf, off + 1);
      if entries == 0 then Err(BadOrdering)
      else
        var pageId :- Slice(buf, off + 9, 32);
        Ok(BranchChild(buf[off], entries, pageId))
  }

  function DecodeChildren(buf: Bytes, off: nat, count: nat, prev: Option<byte>): CodecResult<(seq<BranchChild>, nat)>
    decreases count
  {
    if count == 0 then Ok(([], off))
    else
      var c :- DecodeChild(buf, off, prev);
      var (rest, end) :- DecodeChildren(buf, off + 41, count - 1, Some(c.lbl));
      Ok(([c] + rest, end))
  }

  function DecodeTerminal(buf: Bytes, off: nat, prefix: Bytes): CodecResult<(Option<Entry>, nat)> {
    if off >= |buf| then Err(Truncated)
    else if buf[off] > 1 then Err(BadConstant)
    else if buf[off] == 1 then
      var (e, next) :- DecodeEntry(buf, off + 1);
      if e.name != prefix then Err(BadOrdering) else Ok((Some(e), next))
    else Ok((None, off + 1))
  }

  /** `try_fold` with `checked_add`. */
  function CheckedSum(children: seq<BranchChild>, sum: nat): CodecResult<nat> {
    if children == [] then Ok(sum)
    else if sum + children[0].entries >= U64_LIMIT then Err(Overflow)
    else CheckedSum(children[1..], sum + children[0].entries)
  }

  function DecodeLeaf(payload: Bytes, n: nat, total: nat): CodecResult<Page> {
    if n > LEAF_MAX_ENTRIES then Err(BadLength)
    else if total != n then Err(BadOrdering)
    else
      var (entries, end) :- DecodeEntries(payload, 0, n, None);
      if end != |payload| then Err(BadLength) else Ok(Leaf(entries))
  }

  function DecodeBranch(payload: Bytes, n: nat, total: nat): CodecResult<Page> {
    var prefixLen :- ReadU16(payload, 0);
    if prefixLen > MAX_DEPTH then Err(BadLength)
    else
      var prefix :- Slice(payload, 2, prefixLen);
      var (terminal, off) :- DecodeTerminal(payload, 2 + prefixLen, prefix);
      if n > BRANCH_MAX_CHILDREN then Err(BadLength)
      else
        var (children, end) :- DecodeChildren(payload, off, n, None);
        if end != |payload| then Err(BadLength)
        else if |children| + Terminals(terminal) < 2 then Err(BadOrdering)
        else
          var declared :- CheckedSum(children, 0);
          if declared + Terminals(terminal) >= U64_LIMIT then Err(Overflow)
          else if declared + Terminals(terminal) != total then Err(BadOrdering)
          else Ok(Branch(prefix, terminal, children))
  }

  function DecodePage(b: Bytes): CodecResult<(Page, nat)> {
    if |b| < HEADER_LEN then Err(Truncated)
    else if |b| > PAGE_MAX_BYTES then Err(BadLength)
    else if b[0..4] != PAGE_MAGIC then Err(BadConstant)
    else if b[5] != 0 then Err(BadConstant)
    else
      var n, total, payloadLen := U16At(b, 6), U64At(b, 8), U32At(b, 16);
      if total > MAX_TOTAL_ENTRIES then Err(BadLength)
      else if |b| != HEADER_LEN + payloadLen then Err(BadLength)
      else if b[4] == 0 then
        var p :- DecodeLeaf(b[HEADER_LEN..], n, total);
        Ok((p, total))
      else if b[4] == 1 then
        var p :- DecodeBranch(b[HEADER_LEN..], n, total);
        Ok((p, total))
      else Err(BadConstant)
  }

  // ----- decoded pages write back -----

  lemma {:induction false} EntriesWriteBack(buf: Bytes, off: nat, count: nat, prev: Option<Bytes>)
    requires off <= |buf| && DecodeEntries(buf, off, count, prev).Ok?
    ensures var (es, end) := DecodeEntries(buf, off, count, prev).value;
            && |es| == count && AllNormal(es)
            && EncodeEntries(es, prev) == Ok(EntriesBytes(es))
            && end <= |buf| && buf[off..] == EntriesBytes(es) + buf[end..]
    decreases count
  {
    hide DecodeEntry, Validate, EntryBytes, Less, EncodedLen;
    if count == 0 {
      assert buf[off..] == [] + buf[off..];
    } else {
      var (e, next) := DecodeEntry(buf, off).value;
      EntryWritesBack(buf, off);
      EntriesWriteBack(buf, next, count - 1, Some(e.name));
      var (rest, end) := DecodeEntries(buf, next, count - 1, Some(e.name)).value;
      assert ([e] + rest)[1..] == rest;
      Assoc(EntryBytes(e), EntriesBytes(rest), buf[end..]);
    }
  }

  lemma ChildWritesBack(buf: Bytes, off: nat, prev: Option<byte>)
    requires DecodeChild(buf, off, prev).Ok?
    ensures var c := DecodeChild(buf, off, prev).value;
            && c.entries > 0 && (prev.Some? ==> prev.value < c.lbl)
            && off + 41 <= |buf| && buf[off..] == ChildBytes(c) + buf[off + 41..]
  {
    hide Le64, U64At;
    var c := DecodeChild(buf, off, prev).value;
    CutAt(buf, off, 1);
    assert buf[off..off + 1] == [c.lbl];
    CutAt(buf, off + 1, 8);
    CutAt(buf, off + 9, 32);
    Assoc([c.lbl], Le64(c.entries) + c.pageId, buf[off + 41..]);
    Assoc(Le64(c.entries), c.pageId, buf[off + 41..]);
  }

  lemma {:induction false} ChildrenWriteBack(buf: Bytes, off: nat, count: nat, prev: Option<byte>)
    requires off <= |buf| && DecodeChildren(buf, off, count, prev).Ok?
    ensures var (cs, end) := DecodeChildren(buf, off, count, prev).value;
            && |cs| == count && LabelsAscend(cs) && NoneEmpty(cs) && (prev.Some? && cs != [] ==> prev.value < cs[0].lbl)
            && end <= |buf| && buf[off..] == ChildrenBytes(cs) + buf[end..]
    decreases count
  {
    hide DecodeChild, ChildBytes;
    if count == 0 {
      assert buf[off..] == [] + buf[off..];
    } else {
      var c := DecodeChild(buf, off, prev).value;
      ChildWritesBack(buf, off, prev);
      ChildrenWriteBack(buf, off + 41, count - 1, Some(c.lbl));
      var (rest, end) := DecodeChildren(buf, off + 41, count - 1, Some(c.lbl)).value;
      assert ([c] + rest)[1..] == rest;
      Assoc(ChildBytes(c), ChildrenBytes(rest), buf[end..]);
    }
  }

  lemma TerminalWritesBack(buf: Bytes, off: nat, prefix: Bytes)
    requires DecodeTerminal(buf, off, prefix).Ok?
    ensures var (terminal, next) := DecodeTerminal(buf, off, prefix).value;
            && (terminal.Some? ==>
                  ValidEntry(terminal.value) && Normal(terminal.value) && terminal.value.name == prefix)
            && next <= |buf| && buf[off..] == TerminalBytes(terminal) + buf[next..]
  {
    hide DecodeEntry, Validate, EntryBytes, EncodedLen;
    CutAt(buf, off, 1);
    var (terminal, next) := DecodeTerminal(buf, off, prefix).value;
    assert buf[off..off + 1] == [buf[off]];
    if terminal.Some? {
      EntryWritesBack(buf, off + 1);
      Assoc([1], EntryBytes(terminal.value), buf[next..]);
    }
  }

  lemma {:induction false} CheckedSumMeans(children: seq<BranchChild>, sum: nat)
    requires sum < U64_LIMIT
    ensures CheckedSum(children, sum).Ok? <==> sum + SumEntries(children) < U64_LIMIT
    ensures CheckedSum(children, sum).Ok? ==> CheckedSum(children, sum).value == sum + SumEntries(children)
  {
    if children != [] && sum + children[0].entries < U64_LIMIT {
      CheckedSumMeans(children[1..], sum + children[0].entries);
    }
  }

  lemma BranchWritesBack(payload: Bytes, n: nat, total: nat)
    requires DecodeBranch(payload, n, total).Ok? && total <= MAX_TOTAL_ENTRIES
    ensures var p := DecodeBranch(payload, n, total).value;
            && NormalPage(p) && TotalEntries(p) == total && p.Branch? && |p.children| == n
            && Payload(p) == payload
            && |p.prefix| <= MAX_DEPTH && n <= BRANCH_MAX_CHILDREN
            && (p.terminal.Some? ==> ValidEntry(p.terminal.value) && p.terminal.value.name == p.prefix)
            && LabelsAscend(p.children) && NoneEmpty(p.children)
            && n + Terminals(p.terminal) >= 2
  {
    hide Le16, U16At, DecodeTerminal, DecodeChildren, TerminalBytes, CheckedSum;
    var prefixLen := U16At(payload, 0);
    var prefix := payload[2..2 + prefixLen];
    var (terminal, off) := DecodeTerminal(payload, 2 + prefixLen, prefix).value;
    TerminalWritesBack(payload, 2 + prefixLen, prefix);
    ChildrenWriteBack(payload, off, n, None);
    var children := DecodeChildren(payload, off, n, None).value.0;
    CheckedSumMeans(children, 0);
    CutAt(payload, 0, 2);
    CutAt(payload, 2, prefixLen);
    assert payload[0..] == payload && payload[|payload|..] == [];
    assert ChildrenBytes(children) + [] == ChildrenBytes(children);
  }

  lemma LeafWritesBack(payload: Bytes, n: nat, total: nat)
    requires DecodeLeaf(payload, n, total).Ok?
    ensures var p := DecodeLeaf(payload, n, total).value;
            && NormalPage(p) && p.Leaf? && |p.entries| == n == total
            && Payload(p) == payload
            && n <= LEAF_MAX_ENTRIES && AllValid(p.entries) && Ascends(p.entries)
  {
    hide DecodeEntries, EntriesBytes;
    EntriesWriteBack(payload, 0, n, None);
    var entries := DecodeEntries(payload, 0, n, None).value.0;
    EncodeEntriesMeans(entries, None);
    assert payload[0..] == payload && payload[|payload|..] == [];
    assert EntriesBytes(entries) + [] == EntriesBytes(entries);
  }

  /** The header fields in place. */
  lemma HeaderBytes(b: Bytes)
    requires |b| >= HEADER_LEN && b[0..4] == PAGE_MAGIC && b[5] == 0
    ensures b == Header(b[4], U16At(b, 6), U64At(b, 8), U32At(b, 16)) + b[HEADER_LEN..]
  {
    hide Le16, Le32, Le64, U16At, U32At, U64At;
    CutAt(b, 0, 4);
    CutAt(b, 4, 2);
    CutAt(b, 6, 2);
    CutAt(b, 8, 8);
    CutAt(b, 16, 4);
    assert b[0..] == b && b[4..6] == [b[4], 0];
    var f3 := Le64(U64At(b, 8)) + Le32(U32At(b, 16));
    var rest := b[HEADER_LEN..];
    Assoc(Le64(U64At(b, 8)), Le32(U32At(b, 16)), rest);
    Assoc(Le16(U16At(b, 6)), f3, rest);
    Assoc([b[4], 0], Le16(U16At(b, 6)) + f3, rest);
    Assoc(PAGE_MAGIC, [b[4], 0] + (Le16(U16At(b, 6)) + f3), rest);
  }

  /** An accepted buffer is the encoding of the page it decodes to. */
  lemma EncodeOfDecode(b: Bytes)
    requires DecodePage(b).Ok?
    ensures var (p, total) := DecodePage(b).value;
            NormalPage(p) && total == TotalEntries(p) && EncodePage(p) == Ok(b)
  {
    hide Header, DecodeLeaf, DecodeBranch, EncodePage;
    var (p, total) := DecodePage(b).value;
    var n := U16At(b, 6);
    HeaderBytes(b);
    if b[4] == 0 {
      LeafWritesBack(b[HEADER_LEN..], n, total);
    } else {
      BranchWritesBack(b[HEADER_LEN..], n, total);
    }
    assert PageBytes(p) == b;
    EncodePageMeans(p);
  }

  // ----- encoded pages read back -----

  lemma {:induction false} EntriesReadBack(buf: Bytes, off: nat, es: seq<Entry>, prev: Option<Bytes>, rest: Bytes)
    requires off <= |buf| && buf[off..] == EntriesBytes(es) + rest
    requires EncodeEntries(es, prev).Ok? && AllNormal(es)
    ensures DecodeEntries(buf, off, |es|, prev) == Ok((es, |buf| - |rest|))
    decreases |es|
  {
    hide DecodeEntry, Validate, EntryBytes, Less, EncodedLen;
    if es == [] {
      assert buf[off..] == rest;
    } else {
      var e := es[0];
      var next := off + EncodedLen(e);
      Assoc(EntryBytes(e), EntriesBytes(es[1..]), rest);
      EntryReadsBack(buf, off, e, EntriesBytes(es[1..]) + rest);
      EntriesReadBack(buf, next, es[1..], Some(e.name), rest);
      assert [e] + es[1..] == es;
    }
  }

  lemma ChildReadsBack(buf: Bytes, off: nat, c: BranchChild, prev: Option<byte>, rest: Bytes)
    requires off <= |buf| && buf[off..] == ChildBytes(c) + rest
    requires c.entries > 0 && (prev.Some? ==> prev.value < c.lbl)
    ensures DecodeChild(buf, off, prev) == Ok(c) && off + 41 <= |buf| && buf[off + 41..] == rest
  {
    hide Le64, U64At;
    Assoc([c.lbl], Le64(c.entries) + c.pageId, rest);
    Assoc(Le64(c.entries), c.pageId, rest);
    FieldAt(buf, off, [c.lbl], Le64(c.entries) + (c.pageId + rest));
    assert buf[off..off + 1][0] == buf[off];
    FieldU64(buf, off + 1, c.entries, c.pageId + rest);
    FieldAt(buf, off + 9, c.pageId, rest);
  }

  lemma {:induction false} ChildrenReadBack(buf: Bytes, off: nat, cs: seq<BranchChild>, prev: Option<byte>, rest: Bytes)
    requires off <= |buf| && buf[off..] == ChildrenBytes(cs) + rest
    requires LabelsAscend(cs) && NoneEmpty(cs) && (prev.Some? && cs != [] ==> prev.value < cs[0].lbl)
    ensures DecodeChildren(buf, off, |cs|, prev) == Ok((cs, |buf| - |rest|))
    decreases |cs|
  {
    hide DecodeChild, ChildBytes;
    if cs == [] {
      assert buf[off..] == rest;
    } else {
      var c := cs[0];
      Assoc(ChildBytes(c), ChildrenBytes(cs[1..]), rest);
      ChildReadsBack(buf, off, c, prev, ChildrenBytes(cs[1..]) + rest);
      forall i | 0 <= i < |cs[1..]| - 1 ensures cs[1..][i].lbl < cs[1..][i + 1].lbl {
        assert cs[i + 1].lbl < cs[i + 2].lbl;
      }
      ChildrenReadBack(buf, off + 41, cs[1..], Some(c.lbl), rest);
      assert [c] + cs[1..] == cs;
    }
  }

  lemma TerminalReadsBack(buf: Bytes, off: nat, terminal: Option<Entry>, prefix: Bytes, rest: Bytes)
    requires off <= |buf| && buf[off..] == TerminalBytes(terminal) + rest
    requires terminal.Some? ==> ValidEntry(terminal.value) && Normal(terminal.value) && terminal.value.name == prefix
    ensures DecodeTerminal(buf, off, prefix) == Ok((terminal, |buf| - |rest|))
    ensures |rest| <= |buf| && buf[|buf| - |rest|..] == rest
  {
    hide DecodeEntry, Validate, EntryBytes, EncodedLen;
    match terminal
    case None =>
      FieldAt(buf, off, [0], rest);
      assert buf[off..off + 1][0] == buf[off];
    case Some(e) =>
      Assoc([1], EntryBytes(e), rest);
      FieldAt(buf, off, [1], EntryBytes(e) + rest);
      assert buf[off..off + 1][0] == buf[off];
      EntryReadsBack(buf, off + 1, e, rest);
  }

  lemma BranchReadsBack(p: Page)
    requires p.Branch? && WellBuilt(p) && NormalPage(p)
    ensures DecodeBranch(Payload(p), |p.children|, TotalEntries(p)) == Ok(p)
  {
    hide Le16, U16At, DecodeTerminal, DecodeChildren, TerminalBytes, CheckedSum, ChildrenBytes, Header;
    var payload := Payload(p);
    var f2 := ChildrenBytes(p.children);
    var f1 := TerminalBytes(p.terminal) + f2;
    var off := |payload| - |f2|;
    assert payload[0..] == payload;
    FieldU16(payload, 0, |p.prefix|, p.prefix + f1);
    FieldAt(payload, 2, p.prefix, f1);
    TerminalReadsBack(payload, 2 + |p.prefix|, p.terminal, p.prefix, f2);
    assert f2 + [] == f2;
    ChildrenReadBack(payload, off, p.children, None, []);
    CheckedSumMeans(p.children, 0);
  }

  lemma LeafReadsBack(p: Page)
    requires p.Leaf? && WellBuilt(p) && NormalPage(p)
    ensures DecodeLeaf(Payload(p), |p.entries|, |p.entries|) == Ok(p)
  {
    hide EncodeEntries, EntriesBytes, Header, DecodeEntries;
    var payload := Payload(p);
    EncodeEntriesMeans(p.entries, None);
    assert payload[0..] == payload && payload + [] == payload;
    EntriesReadBack(payload, 0, p.entries, None, []);
  }

  lemma HeaderFields(b: Bytes, kind: byte, count: U16, total: U64, payloadLen: U32, payload: Bytes)
    requires b == Header(kind, count, total, payloadLen) + payload
    ensures |b| == HEADER_LEN + |payload|
    ensures b[0..4] == PAGE_MAGIC && b[4] == kind && b[5] == 0
    ensures U16At(b, 6) == count && U64At(b, 8) == total && U32At(b, 16) == payloadLen && b[HEADER_LEN..] == payload
  {
    hide Le16, Le32, Le64, U16At, U32At, U64At;
    var f3 := Le32(payloadLen) + payload;
    var f2 := Le64(total) + f3;
    var f1 := Le16(count) + f2;
    Assoc(Le64(total), Le32(payloadLen), payload);
    Assoc(Le16(count), Le64(total) + Le32(payloadLen), payload);
    Assoc([kind, 0], Le16(count) + (Le64(total) + Le32(payloadLen)), payload);
    Assoc(PAGE_MAGIC, [kind, 0] + (Le16(count) + (Le64(total) + Le32(payloadLen))), payload);
    assert b[0..] == b;
    FieldAt(b, 0, PAGE_MAGIC, [kind, 0] + f1);
    FieldAt(b, 4, [kind, 0], f1);
    assert b[4..6][0] == b[4] && b[4..6][1] == b[5];
    FieldU16(b, 6, count, f2);
    FieldU64(b, 8, total, f3);
    FieldU32(b, 16, payloadLen, payload);
  }

  /** A normal page that encodes decodes to itself, with its own total. */
  lemma DecodeOfEncode(p: Page)
    requires EncodePage(p).Ok? && NormalPage(p)
    ensures DecodePage(EncodePage(p).value) == Ok((p, TotalEntries(p)))
  {
    hide Header, DecodeLeaf, DecodeBranch, EncodePage;
    EncodePageMeans(p);
    var b := PageBytes(p);
    var (kind, count) := KindAndCount(p);
    HeaderFields(b, kind, count, TotalEntries(p), |Payload(p)|, Payload(p));
    if p.Leaf? {
      LeafReadsBack(p);
    } else {
      BranchReadsBack(p);
    }
  }

  /** The page codec is a bijection between accepted buffers and the normal pages that encode. */
  lemma PageCodec(b: Bytes, p: Page, total: nat)
    ensures DecodePage(b) == Ok((p, total)) <==> NormalPage(p) && EncodePage(p) == Ok(b) && total == TotalEntries(p)
  {
    hide DecodePage, EncodePage;
    if DecodePage(b).Ok? {
      EncodeOfDecode(b);
    }
    if NormalPage(p) && EncodePage(p) == Ok(b) {
      DecodeOfEncode(p);
    }
  }

  /** The size of a directory is accepted by the encoder and lost: such a page does not decode to itself. */
  lemma UnencodedFieldIsLost()
    ensures var p := Leaf([Entry(Directory, Ascii("a"), 1, ZERO_DIGEST, seq(32, _ => 1))]);
            EncodePage(p).Ok? && DecodePage(EncodePage(p).value) != Ok((p, 1))
  {
    hide DecodePage, EncodePage;
    var e := Entry(Directory, Ascii("a"), 1, ZERO_DIGEST, seq(32, _ => 1));
    var p := Leaf([e]);
    assert e.childRoot[0] != ZERO_DIGEST[0];
    Names.LetterIsName(e.name);
    assert ValidEntry(e);
    OneEntryFits(e);
    EncodePageMeans(p);
    PageCodec(EncodePage(p).value, p, 1);
    assert !Normal(p.entries[0]);
  }

  lemma OneEntryFits(e: Entry)
    requires ValidEntry(e)
    ensures WellBuilt(Leaf([e]))
  {
    hide EntryBytes;
    ValidNameBound(e.name);
    assert [e][1..] == [] && EntriesBytes([e]) == EntryBytes(e) + EntriesBytes([]);
  }

  /** Whatever page is accepted, its names are plain. */
  lemma AcceptedNamesArePlain(b: Bytes)
    requires DecodePage(b).Ok?
    ensures match DecodePage(b).value.0
            case Leaf(es) => forall i :: 0 <= i < |es| ==> Names.PlainName(es[i].name)
            case Branch(_, terminal, _) => terminal.Some? ==> Names.PlainName(terminal.value.name)
  {
    hide DecodePage, EncodePage, PageBytes, ValidEntry, Names.PlainName, Ascends;
    EncodeOfDecode(b);
    EncodePageMeans(DecodePage(b).value.0);
    match DecodePage(b).value.0
    case Leaf(es) =>
      forall i | 0 <= i < |es| ensures Names.PlainName(es[i].name) {
        ValidEntryMeans(es[i]);
      }
    case Branch(_, terminal, _) =>
      if terminal.Some? {
        ValidEntryMeans(terminal.value);
      }
  }

  // ----- encoding ignores what is not encoded -----

  function NormaliseAll(es: seq<Entry>): (r: seq<Entry>)
    ensures |r| == |es| && AllNormal(r)
    ensures forall i :: 0 <= i < |es| ==> r[i] == Normalise(es[i])
  {
    seq(|es|, i requires 0 <= i < |es| => Normalise(es[i]))
  }

  function NormalisePage(p: Page): (q: Page)
    ensures NormalPage(q)
  {
    match p
    case Leaf(es) => Leaf(NormaliseAll(es))
    case Branch(prefix, terminal, children) =>
      Branch(prefix, match terminal { case None => None case Some(e) => Some(Normalise(e)) }, children)
  }

  lemma {:induction false} EncodeNormalisedEntries(es: seq<Entry>, prev: Option<Bytes>)
    ensures EncodeEntries(NormaliseAll(es), prev) == EncodeEntries(es, prev)
  {
    if es != [] {
      hide Validate, EntryBytes, Less;
      EncodeNormalised(es[0]);
      EncodeNormalisedEntries(es[1..], Some(es[0].name));
      assert NormaliseAll(es)[1..] == NormaliseAll(es[1..]);
      assert Normalise(es[0]).name == es[0].name;
    }
  }

  lemma EncodeNormalisedPage(p: Page)
    ensures EncodePage(NormalisePage(p)) == EncodePage(p) && TotalEntries(NormalisePage(p)) == TotalEntries(p)
  {
    hide Header, EntryBytes, Validate;
    match p
    case Leaf(es) =>
      EncodeNormalisedEntries(es, None);
    case Branch(_, terminal, _) =>
      if terminal.Some? {
        EncodeNormalised(terminal.value);
      }
  }

  /** Two pages with the same bytes are the same up to unencoded fields. */
  lemma PageBytesInjective(p: Page, q: Page)
    requires EncodePage(p).Ok? && EncodePage(p) == EncodePage(q)
    ensures NormalisePage(p) == NormalisePage(q) && TotalEntries(p) == TotalEntries(q)
  {
    hide EncodePage, DecodePage;
    EncodeNormalisedPage(p);
    EncodeNormalisedPage(q);
    DecodeOfEncode(NormalisePage(p));
    DecodeOfEncode(NormalisePage(q));
  }
}
