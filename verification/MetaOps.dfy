/** The page operations as the crate runs them: loops over a cursor, a payload or a list of groups. */
module MetaOps {
  import opened Base
  import opened MetaEntry
  import opened MetaPage
  import opened MetaDecode
  import opened MetaBuild
  import opened MetaRoute

  // ----- encoding -----

  method EncodeLeafEntries(entries: seq<Entry>) returns (r: CodecResult<Bytes>)
    ensures r == EncodeEntries(entries, None)
  {
    hide Validate, EntryBytes, Less;
    var payload: Bytes, prev: Option<Bytes> := [], None;
    assert entries[0..] == entries;
    assert EncodeEntries(entries, None).Ok?
           ==> [] + EncodeEntries(entries, None).value == EncodeEntries(entries, None).value;
    for i := 0 to |entries|
      invariant EncodeEntries(entries, None) ==
                match EncodeEntries(entries[i..], prev) { case Err(e) => Err(e) case Ok(rest) => Ok(payload + rest) }
    {
      var e := entries[i];
      assert entries[i..][0] == e && entries[i..][1..] == entries[i + 1..];
      var _ :- Validate(e);
      if prev.Some? && !Less(prev.value, e.name) {
        return Err(BadOrdering);
      }
      ghost var rest := EncodeEntries(entries[i + 1..], Some(e.name));
      if rest.Ok? {
        Assoc(payload, EntryBytes(e), rest.value);
      }
      prev := Some(e.name);
      payload := payload + EntryBytes(e);
    }
    assert payload + [] == payload;
    return Ok(payload);
  }

  method EncodeBranchChildren(children: seq<BranchChild>) returns (r: CodecResult<(Bytes, nat)>)
    ensures r == EncodeChildren(children, None, 0)
  {
    hide ChildBytes;
    var payload: Bytes, prev: Option<byte>, sum: nat := [], None, 0;
    assert children[0..] == children;
    assert EncodeChildren(children, None, 0).Ok?
           ==> [] + EncodeChildren(children, None, 0).value.0 == EncodeChildren(children, None, 0).value.0;
    for i := 0 to |children|
      invariant EncodeChildren(children, None, 0) ==
                match EncodeChildren(children[i..], prev, sum) {
                  case Err(e) => Err(e)
                  case Ok((rest, total)) => Ok((payload + rest, total))
                }
    {
      var c := children[i];
      assert children[i..][0] == c && children[i..][1..] == children[i + 1..];
      if prev.Some? && c.lbl <= prev.value {
        return Err(BadOrdering);
      }
      if c.entries == 0 {
        return Err(BadOrdering);
      }
      if sum + c.entries >= U64_LIMIT {
        return Err(Overflow);
      }
      sum := sum + c.entries;
      prev := Some(c.lbl);
      ghost var rest := EncodeChildren(children[i + 1..], prev, sum);
      if rest.Ok? {
        Assoc(payload, ChildBytes(c), rest.value.0);
      }
      payload := payload + ChildBytes(c);
    }
    assert payload + [] == payload;
    return Ok((payload, sum));
  }

  method Encode(p: Page) returns (r: CodecResult<Bytes>)
    ensures r == EncodePage(p)
  {
    hide Header, EncodeEntries, EncodeChildren, EncodeTerminal;
    var payload: Bytes, total: nat, kind: byte, n: nat;
    match p {
      case Leaf(entries) =>
        if |entries| > LEAF_MAX_ENTRIES {
          return Err(BadLength);
        }
        var encoded := EncodeLeafEntries(entries);
        payload :- encoded;
        kind, n, total := 0, |entries|, |entries|;
      case Branch(prefix, terminal, children) =>
        if |prefix| > MAX_DEPTH {
          return Err(BadLength);
        }
        if |children| > BRANCH_MAX_CHILDREN {
          return Err(BadLength);
        }
        var mid :- EncodeTerminal(prefix, terminal);
        var encoded := EncodeBranchChildren(children);
        var tail :- encoded;
        if |children| + Terminals(terminal) < 2 {
          return Err(BadOrdering);
        }
        total := tail.1 + Terminals(terminal);
        if total >= U64_LIMIT {
          return Err(Overflow);
        }
        if total > MAX_TOTAL_ENTRIES {
          return Err(BadLength);
        }
        payload := Le16(|prefix|) + (prefix + (mid + tail.0));
        kind, n := 1, |children|;
    }
    var out := Header(kind, n, total, |payload|) + payload;
    if |out| > PAGE_MAX_BYTES {
      return Err(BadLength);
    }
    return Ok(out);
  }

  // ----- decoding -----

  method DecodeLeafEntries(buf: Bytes, count: nat) returns (r: CodecResult<(seq<Entry>, nat)>)
    ensures r == DecodeEntries(buf, 0, count, None)
  {
    hide DecodeEntry, Less;
    var off: nat, prev: Option<Bytes>, entries: seq<Entry> := 0, None, [];
    assert DecodeEntries(buf, 0, count, None).Ok?
           ==> [] + DecodeEntries(buf, 0, count, None).value.0 == DecodeEntries(buf, 0, count, None).value.0;
    for i := 0 to count
      invariant DecodeEntries(buf, 0, count, None) ==
                match DecodeEntries(buf, off, count - i, prev) {
                  case Err(e) => Err(e)
                  case Ok((rest, end)) => Ok((entries + rest, end))
                }
    {
      var decoded :- DecodeEntry(buf, off);
      var e := decoded.0;
      if prev.Some? && !Less(prev.value, e.name) {
        return Err(BadOrdering);
      }
      ghost var rest := DecodeEntries(buf, decoded.1, count - i - 1, Some(e.name));
      if rest.Ok? {
        Assoc(entries, [e], rest.value.0);
      }
      entries, prev, off := entries + [e], Some(e.name), decoded.1;
    }
    assert entries + [] == entries;
    return Ok((entries, off));
  }

  method DecodeBranchChildren(buf: Bytes, start: nat, count: nat) returns (r: CodecResult<(seq<BranchChild>, nat)>)
    ensures r == DecodeChildren(buf, start, count, None)
  {
    hide DecodeChild;
    var off: nat, prev: Option<byte>, children: seq<BranchChild> := start, None, [];
    assert DecodeChildren(buf, start, count, None).Ok? ==>
             [] + DecodeChildren(buf, start, count, None).value.0 == DecodeChildren(buf, start, count, None).value.0;
    for i := 0 to count
      invariant DecodeChildren(buf, start, count, None) ==
                match DecodeChildren(buf, off, count - i, prev) {
                  case Err(e) => Err(e)
                  case Ok((rest, end)) => Ok((children + rest, end))
                }
    {
      var c :- DecodeChild(buf, off, prev);
      ghost var rest := DecodeChildren(buf, off + 41, count - i - 1, Some(c.lbl));
      if rest.Ok? {
        Assoc(children, [c], rest.value.0);
      }
      children, prev, off := children + [c], Some(c.lbl), off + 41;
    }
    assert children + [] == children;
    return Ok((children, off));
  }

  method DecodeLeafPayload(payload: Bytes, n: nat, total: nat) returns (r: CodecResult<Page>)
    ensures r == DecodeLeaf(payload, n, total)
  {
    hide DecodeEntries;
    if n > LEAF_MAX_ENTRIES {
      return Err(BadLength);
    }
    if total != n {
      return Err(BadOrdering);
    }
    var decoded := DecodeLeafEntries(payload, n);
    var entries :- decoded;
    if entries.1 != |payload| {
      return Err(BadLength);
    }
    return Ok(Leaf(entries.0));
  }

  method DecodeBranchPayload(payload: Bytes, n: nat, total: nat) returns (r: CodecResult<Page>)
    ensures r == DecodeBranch(payload, n, total)
  {
    hide DecodeChildren, DecodeTerminal, CheckedSum, U16At;
    var prefixLen :- ReadU16(payload, 0);
    if prefixLen > MAX_DEPTH {
      return Err(BadLength);
    }
    var prefix :- Slice(payload, 2, prefixLen);
    var terminal :- DecodeTerminal(payload, 2 + prefixLen, prefix);
    if n > BRANCH_MAX_CHILDREN {
      return Err(BadLength);
    }
    var decoded := DecodeBranchChildren(payload, terminal.1, n);
    var children :- decoded;
    if children.1 != |payload| {
      return Err(BadLength);
    }
    if |children.0| + Terminals(terminal.0) < 2 {
      return Err(BadOrdering);
    }
    var declared :- CheckedSum(children.0, 0);
    if declared + Terminals(terminal.0) >= U64_LIMIT {
      return Err(Overflow);
    }
    if declared + Terminals(terminal.0) != total {
      return Err(BadOrdering);
    }
    return Ok(Branch(prefix, terminal.0, children.0));
  }

  method Decode(b: Bytes) returns (r: CodecResult<(Page, nat)>)
    ensures r == DecodePage(b)
  {
    hide DecodeLeaf, DecodeBranch, U16At, U32At, U64At;
    if |b| < HEADER_LEN {
      return Err(Truncated);
    }
    if |b| > PAGE_MAX_BYTES {
      return Err(BadLength);
    }
    if b[0..4] != PAGE_MAGIC {
      return Err(BadConstant);
    }
    if b[5] != 0 {
      return Err(BadConstant);
    }
    var n, total, payloadLen := U16At(b, 6), U64At(b, 8), U32At(b, 16);
    if total > MAX_TOTAL_ENTRIES {
      return Err(BadLength);
    }
    if |b| != HEADER_LEN + payloadLen {
      return Err(BadLength);
    }
    var payload := b[HEADER_LEN..];
    var decoded: CodecResult<Page>;
    if b[4] == 0 {
      decoded := DecodeLeafPayload(payload, n, total);
    } else if b[4] == 1 {
      decoded := DecodeBranchPayload(payload, n, total);
    } else {
      return Err(BadConstant);
    }
    var page :- decoded;
    return Ok((page, total));
  }

  // ----- building -----

  method ValidateInput(es: seq<Entry>) returns (r: CodecResult<()>)
    ensures r == CheckInput(es, None)
  {
    hide Validate, Less;
    var prev: Option<Bytes> := None;
    assert es[0..] == es;
    for i := 0 to |es|
      invariant CheckInput(es, None) == CheckInput(es[i..], prev)
    {
      assert es[i..][0] == es[i] && es[i..][1..] == es[i + 1..];
      var _ :- Validate(es[i]);
      if prev.Some? && !Less(prev.value, es[i].name) {
        return Err(BadOrdering);
      }
      prev := Some(es[i].name);
    }
    return Ok(());
  }

  method GroupByNextByte(es: seq<Entry>, p: Bytes) returns (r: CodecResult<seq<Group>>)
    ensures r == GroupFold(es, p, [])
  {
    var groups: seq<Group> := [];
    assert es[0..] == es;
    for i := 0 to |es|
      invariant GroupFold(es, p, []) == GroupFold(es[i..], p, groups)
    {
      var e := es[i];
      assert es[i..][0] == e && es[i..][1..] == es[i + 1..];
      if e.name != p {
        if |e.name| <= |p| {
          return Err(BadOrdering);
        }
        var lbl, n := e.name[|p|], |groups| - 1;
        if groups != [] && groups[n].lbl == lbl {
          groups := groups[..n] + [Group(lbl, groups[n].entries + [e])];
        } else {
          groups := groups + [Group(lbl, [e])];
        }
      }
    }
    return Ok(groups);
  }

  /** `build`: one leaf if it fits, otherwise a branch over recursively built groups. */
  method BuildTree(sha: Hash, es: seq<Entry>) returns (r: CodecResult<Bytes>)
    ensures r == Build(sha, es)
    decreases |es|
  {
    hide CheckInput, EncodePage, GroupFold, FindTerminal, Lcp;
    var checked := ValidateInput(es);
    var _ :- checked;
    if |es| <= LEAF_MAX_ENTRIES {
      var leaf := Encode(Leaf(es));
      if leaf.Ok? {
        return leaf;
      }
    }
    EmptyFitsLeaf();
    var p := ComputeLcp(NamesOf(es));
    var terminal := FindTerminal(es, p);
    var grouped := GroupByNextByte(es, p);
    var groups :- grouped;
    if |groups| + Terminals(terminal) < 2 {
      return Err(BadOrdering);
    }
    assert Split(es) == Ok((p, terminal, groups));
    var children: seq<BranchChild> := [];
    assert groups[0..] == groups;
    assert BuildChildren(sha, groups, |es|).Ok?
           ==> [] + BuildChildren(sha, groups, |es|).value == BuildChildren(sha, groups, |es|).value;
    for i := 0 to |groups|
      invariant BuildChildren(sha, groups, |es|) ==
                match BuildChildren(sha, groups[i..], |es|) {
                  case Err(e) => Err(e)
                  case Ok(rest) => Ok(children + rest)
                }
    {
      var g := groups[i];
      assert g in groups && groups[i..][0] == g && groups[i..][1..] == groups[i + 1..];
      var built := BuildTree(sha, g.entries);
      var bytes :- built;
      var c := BranchChild(g.lbl, |g.entries| % U64_LIMIT, PageId(sha, bytes));
      ghost var rest := BuildChildren(sha, groups[i + 1..], |es|);
      if rest.Ok? {
        Assoc(children, [c], rest.value);
      }
      children := children + [c];
    }
    assert children + [] == children;
    r := Encode(Branch(p, terminal, children));
  }

  // ----- routes -----

  method SelectEntries(es: seq<Entry>, prefix: Bytes, lbl: byte) returns (r: CodecResult<seq<Entry>>)
    ensures r == Select(es, prefix, lbl)
  {
    var group: seq<Entry> := [];
    assert es[0..] == es;
    assert Select(es, prefix, lbl).Ok? ==> [] + Select(es, prefix, lbl).value == Select(es, prefix, lbl).value;
    for i := 0 to |es|
      invariant Select(es, prefix, lbl) ==
                match Select(es[i..], prefix, lbl) { case Err(e) => Err(e) case Ok(rest) => Ok(group + rest) }
    {
      var e := es[i];
      assert es[i..][0] == e && es[i..][1..] == es[i + 1..];
      if e.name != prefix {
        if |e.name| <= |prefix| || e.name[..|prefix|] != prefix {
          return Err(BadOrdering);
        }
        if e.name[|prefix|] == lbl {
          ghost var rest := Select(es[i + 1..], prefix, lbl);
          if rest.Ok? {
            Assoc(group, [e], rest.value);
          }
          group := group + [e];
        }
      }
    }
    assert group + [] == group;
    return Ok(group);
  }

  method RoutePagesOf(sha: Hash, es: seq<Entry>, route: Bytes) returns (r: CodecResult<seq<Bytes>>)
    ensures r == PagesAlongRoute(sha, es, route)
  {
    hide Build, DecodePage, Select, FindLabel;
    var built: CodecResult<Bytes>;
    if es == [] {
      if route == [] {
        built := BuildTree(sha, es);
        var root :- built;
        return Ok([root]);
      }
      return Err(BadOrdering);
    }
    built := BuildTree(sha, es);
    var page :- built;
    var current, pages, cursor := es, [page], route;
    while cursor != []
      invariant PagesAlongRoute(sha, es, route) ==
                match RouteFrom(sha, current, page, cursor) { case Err(e) => Err(e) case Ok(rest) => Ok(pages + rest) }
      decreases |cursor|
    {
      var decoded := Decode(page);
      var parent :- decoded;
      if parent.0.Leaf? {
        return Err(BadOrdering);
      }
      var child := FindLabel(parent.0.children, cursor[0]);
      if child.None? {
        return Err(BadOrdering);
      }
      var selected := SelectEntries(current, parent.0.prefix, cursor[0]);
      var group :- selected;
      if group == [] {
        return Err(BadOrdering);
      }
      built := BuildTree(sha, group);
      var bytes :- built;
      if PageId(sha, bytes) != child.value.pageId {
        return Err(DigestMismatch);
      }
      ghost var rest := RouteFrom(sha, group, bytes, cursor[1..]);
      if rest.Ok? {
        Assoc(pages, [bytes], rest.value);
      }
      pages, page, current, cursor := pages + [bytes], bytes, group, cursor[1..];
    }
    assert pages + [] == pages;
    return Ok(pages);
  }
}
