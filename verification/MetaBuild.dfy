/**
 * The canonical partition of a directory: `build` splits a sorted entry list by its longest common
 * prefix until every part fits one leaf page.
 */
module MetaBuild {
  import opened Base
  import opened MetaEntry
  import opened MetaPage

  // ----- longest common prefix -----

  function NamesOf(es: seq<Entry>): (r: seq<Bytes>)
    ensures |r| == |es|
    ensures forall i :: 0 <= i < |es| ==> r[i] == es[i].name
  {
    seq(|es|, i requires 0 <= i < |es| => es[i].name)
  }

  /** The loop of `lcp`: how much of `first[..len]` survives the remaining names. */
  function LcpLen(first: Bytes, names: seq<Bytes>, len: nat): (r: nat)
    requires len <= |first|
    ensures r <= len
  {
    if names == [] then len else LcpLen(first, names[1..], Common(first[..len], names[0]))
  }

  function Lcp(names: seq<Bytes>): Bytes
    requires names != []
  {
    names[0][..LcpLen(names[0], names[1..], |names[0]|)]
  }

  /** `lcp`, with its two nested loops. */
  method ComputeLcp(names: seq<Bytes>) returns (r: Bytes)
    requires names != []
    ensures r == Lcp(names)
  {
    var first := names[0];
    var len: nat := |first|;
    for k := 1 to |names|
      invariant len <= |first|
      invariant Lcp(names) == first[..LcpLen(first, names[k..], len)]
    {
      var n := names[k];
      assert names[k..][1..] == names[k + 1..];
      ghost var before := len;
      len := if |n| < len then |n| else len;
      var i := 0;
      while i < len && first[i] == n[i]
        invariant i <= len
        invariant forall j :: 0 <= j < i ==> first[j] == n[j]
      {
        i := i + 1;
      }
      len := i;
      CommonIs(first[..before], n, i);
    }
    return first[..len];
  }

  lemma {:induction false} CommonIs(a: Bytes, b: Bytes, n: nat)
    requires n <= |a| && n <= |b| && forall j :: 0 <= j < n ==> a[j] == b[j]
    requires n == |a| || n == |b| || a[n] != b[n]
    ensures Common(a, b) == n
  {
    var c := Common(a, b);
    assert forall j :: 0 <= j < c ==> a[..c][j] == a[j] && b[..c][j] == b[j];
  }

  ghost predicate PrefixOfAll(p: Bytes, names: seq<Bytes>) {
    forall i :: 0 <= i < |names| ==> p <= names[i]
  }

  lemma {:induction false} LcpLenMeans(first: Bytes, names: seq<Bytes>, len: nat, q: Bytes)
    requires len <= |first|
    ensures PrefixOfAll(first[..LcpLen(first, names, len)], names)
    ensures q <= first[..len] && PrefixOfAll(q, names) ==> |q| <= LcpLen(first, names, len)
  {
    if names != [] {
      var shorter := Common(first[..len], names[0]);
      LcpLenMeans(first, names[1..], shorter, q);
      var r := LcpLen(first, names, len);
      assert first[..r] <= first[..shorter] == first[..len][..shorter] == names[0][..shorter];
      forall i | 0 <= i < |names| ensures first[..r] <= names[i] {
        if i > 0 {
          assert names[i] == names[1..][i - 1];
        }
      }
      if q <= first[..len] && PrefixOfAll(q, names) {
        CommonAtLeast(first[..len], names[0], q);
        assert first[..shorter] == first[..len][..shorter];
        forall i | 0 <= i < |names[1..]| ensures q <= names[1..][i] {
          assert names[1..][i] == names[i + 1];
        }
      }
    }
  }

  lemma CommonAtLeast(a: Bytes, b: Bytes, q: Bytes)
    requires q <= a && q <= b
    ensures |q| <= Common(a, b)
  {
    assert forall j :: 0 <= j < |q| ==> q[j] == a[j] == b[j];
  }

  /** The longest common prefix starts every name, and nothing longer does. */
  lemma LcpMeans(names: seq<Bytes>, q: Bytes)
    requires names != []
    ensures PrefixOfAll(Lcp(names), names)
    ensures PrefixOfAll(q, names) ==> q <= Lcp(names)
  {
    var first := names[0];
    assert first[..|first|] == first;
    LcpLenMeans(first, names[1..], |first|, q);
    assert names == [first] + names[1..];
    if PrefixOfAll(q, names) {
      assert PrefixOfAll(q, names[1..]);
    }
  }

  // ----- grouping by the next byte -----

  datatype Group = Group(lbl: byte, entries: seq<Entry>)

  /** The grouping loop: entries equal to the prefix are skipped, others join the last group or open one. */
  function GroupFold(es: seq<Entry>, p: Bytes, acc: seq<Group>): CodecResult<seq<Group>> {
    if es == [] then Ok(acc)
    else if es[0].name == p then GroupFold(es[1..], p, acc)
    else if |es[0].name| <= |p| then Err(BadOrdering)
    else GroupFold(es[1..], p, AddToGroups(acc, es[0].name[|p|], es[0]))
  }

  function AddToGroups(acc: seq<Group>, lbl: byte, e: Entry): (r: seq<Group>)
    ensures r != []
  {
    var n := |acc| - 1;
    if acc != [] && acc[n].lbl == lbl then acc[..n] + [Group(lbl, acc[n].entries + [e])]
    else acc + [Group(lbl, [e])]
  }

  function Size(gs: seq<Group>): nat {
    if gs == [] then 0 else Size(gs[..|gs| - 1]) + |gs[|gs| - 1].entries|
  }

  predicate NoneEmptyGroup(gs: seq<Group>) {
    forall i :: 0 <= i < |gs| ==> gs[i].entries != []
  }

  /** `find(name == p)`: the first entry whose name is the prefix itself. */
  function FindTerminal(es: seq<Entry>, p: Bytes): (r: Option<Entry>)
    ensures r.Some? ==> r.value in es && r.value.name == p
    ensures r.None? ==> forall i :: 0 <= i < |es| ==> es[i].name != p
  {
    if es == [] then None
    else if es[0].name == p then Some(es[0])
    else
      var r := FindTerminal(es[1..], p);
      assert r.None? ==> forall i :: 1 <= i < |es| ==> es[i] == es[1..][i - 1];
      r
  }

  lemma AddToGroupsSize(acc: seq<Group>, lbl: byte, e: Entry)
    requires NoneEmptyGroup(acc)
    ensures NoneEmptyGroup(AddToGroups(acc, lbl, e)) && Size(AddToGroups(acc, lbl, e)) == Size(acc) + 1
  {
    var n := |acc| - 1;
    var r := AddToGroups(acc, lbl, e);
    if acc != [] && acc[n].lbl == lbl {
      assert r[..|r| - 1] == acc[..n];
    } else {
      assert r[..|r| - 1] == acc;
    }
  }

  /** Grouping loses nothing: every entry but the terminal is in some group. */
  lemma {:induction false} GroupFoldSize(es: seq<Entry>, p: Bytes, acc: seq<Group>)
    requires GroupFold(es, p, acc).Ok? && NoneEmptyGroup(acc)
    ensures NoneEmptyGroup(GroupFold(es, p, acc).value)
    ensures Size(GroupFold(es, p, acc).value) + Terminals(FindTerminal(es, p)) <= Size(acc) + |es|
  {
    if es != [] {
      if es[0].name == p {
        GroupFoldSize(es[1..], p, acc);
      } else {
        AddToGroupsSize(acc, es[0].name[|p|], es[0]);
        GroupFoldSize(es[1..], p, AddToGroups(acc, es[0].name[|p|], es[0]));
      }
    }
  }

  lemma {:induction false} GroupSmaller(gs: seq<Group>, i: nat)
    requires i < |gs| && NoneEmptyGroup(gs)
    ensures |gs[i].entries| + |gs| - 1 <= Size(gs)
    decreases |gs|
  {
    var n := |gs| - 1;
    if i < n {
      GroupSmaller(gs[..n], i);
    } else {
      SizeAtLeast(gs[..n]);
    }
  }

  lemma {:induction false} SizeAtLeast(gs: seq<Group>)
    requires NoneEmptyGroup(gs)
    ensures |gs| <= Size(gs)
  {
    if gs != [] {
      SizeAtLeast(gs[..|gs| - 1]);
    }
  }

  // ----- specification of `build` -----

  /** Validation and strict ordering of the input. */
  function CheckInput(es: seq<Entry>, prev: Option<Bytes>): CodecResult<()> {
    if es == [] then Ok(())
    else
      var _ :- Validate(es[0]);
      if prev.Some? && !Less(prev.value, es[0].name) then Err(BadOrdering) else CheckInput(es[1..], Some(es[0].name))
  }

  predicate FitsLeaf(es: seq<Entry>) {
    |es| <= LEAF_MAX_ENTRIES && EncodePage(Leaf(es)).Ok?
  }

  lemma EmptyFitsLeaf()
    ensures FitsLeaf([])
  {
    EncodePageMeans(Leaf([]));
  }

  /** Prefix, terminal and groups of an oversized list; at least two parts. */
  function Split(es: seq<Entry>): (r: CodecResult<(Bytes, Option<Entry>, seq<Group>)>)
    requires es != []
    ensures r.Ok? ==> forall g :: g in r.value.2 ==> |g.entries| < |es|
  {
    var p := Lcp(NamesOf(es));
    var terminal := FindTerminal(es, p);
    var groups :- GroupFold(es, p, []);
    if |groups| + Terminals(terminal) < 2 then Err(BadOrdering)
    else
      GroupFoldSize(es, p, []);
      assert forall g :: g in groups ==> |g.entries| < |es| by {
        forall g | g in groups ensures |g.entries| < |es| {
          var i :| 0 <= i < |groups| && groups[i] == g;
          GroupSmaller(groups, i);
        }
      }
      Ok((p, terminal, groups))
  }

  /** The root page of the canonical tree over `es`. */
  function BuildPage(sha: Hash, es: seq<Entry>): CodecResult<Page>
    decreases |es|, 1, 0
  {
    var _ :- CheckInput(es, None);
    if FitsLeaf(es) then Ok(Leaf(es))
    else
      EmptyFitsLeaf();
      var (p, terminal, groups) :- Split(es);
      var children :- BuildChildren(sha, groups, |es|);
      Ok(Branch(p, terminal, children))
  }

  function BuildChildren(sha: Hash, groups: seq<Group>, bound: nat): CodecResult<seq<BranchChild>>
    requires forall g :: g in groups ==> |g.entries| < bound
    decreases bound, 0, |groups|
  {
    if groups == [] then Ok([])
    else
      var bytes :- Build(sha, groups[0].entries);
      var rest :- BuildChildren(sha, groups[1..], bound);
      Ok([BranchChild(groups[0].lbl, |groups[0].entries| % U64_LIMIT, PageId(sha, bytes))] + rest)
  }

  function Build(sha: Hash, es: seq<Entry>): CodecResult<Bytes>
    decreases |es|, 2, 0
  {
    var page :- BuildPage(sha, es);
    EncodePage(page)
  }
}
