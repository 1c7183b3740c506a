/**
 * What `build` guarantees on a sorted list of valid entries: it always succeeds, every page fits, the
 * totals are the entry counts, and the root page id commits to the list.
 */
module MetaPartition {
  import opened Base
  import opened MetaEntry
  import opened MetaPage
  import opened MetaBuild

  /** The inputs `build` asks for: valid entries, strictly ascending, fewer than 2^63. */
  predicate Input(es: seq<Entry>) {
    AllValid(es) && Ascends(es) && |es| <= MAX_TOTAL_ENTRIES
  }

  lemma {:induction false} CheckInputMeans(es: seq<Entry>, prev: Option<Bytes>)
    ensures CheckInput(es, prev).Ok? <==>
              AllValid(es) && Ascends(es) && (prev.Some? && es != [] ==> Less(prev.value, es[0].name))
  {
    if es != [] {
      hide Validate, Less;
      CheckInputMeans(es[1..], Some(es[0].name));
      assert es == [es[0]] + es[1..];
      if AllValid(es) && Ascends(es) {
        forall i | 0 <= i < |es[1..]| - 1 ensures Less(es[1..][i].name, es[1..][i + 1].name) {
          assert Less(es[i + 1].name, es[i + 2].name);
        }
      }
    }
  }

  lemma {:induction false} AscendsPairwise(es: seq<Entry>, i: nat, j: nat)
    requires Ascends(es) && i < j < |es|
    ensures Less(es[i].name, es[j].name)
    decreases j
  {
    if i + 1 < j {
      AscendsPairwise(es, i, j - 1);
      LessTransitive(es[i].name, es[j - 1].name, es[j].name);
    }
  }

  lemma AscendsSlice(es: seq<Entry>, from: nat, to: nat)
    requires Ascends(es) && from <= to <= |es|
    ensures Ascends(es[from..to])
  {
    hide Less;
    forall i | 0 <= i < to - from - 1 ensures Less(es[from..to][i].name, es[from..to][i + 1].name) {
      assert Less(es[from + i].name, es[from + i + 1].name);
    }
  }

  lemma {:induction false} NotBelowOwnPrefix(p: Bytes, a: Bytes)
    requires p <= a
    ensures !Less(a, p)
  {
    if p != [] {
      NotBelowOwnPrefix(p[1..], a[1..]);
    }
  }

  // ----- partitions -----

  function Flatten(gs: seq<Group>): (es: seq<Entry>)
    ensures |es| == Size(gs)
  {
    if gs == [] then [] else Flatten(gs[..|gs| - 1]) + gs[|gs| - 1].entries
  }

  predicate GroupOk(g: Group, p: Bytes) {
    && g.entries != []
    && forall i :: 0 <= i < |g.entries| ==> p + [g.lbl] <= g.entries[i].name
  }

  /** Non-empty runs of the list, one per next byte after the prefix, in ascending order. */
  predicate Partition(gs: seq<Group>, es: seq<Entry>, p: Bytes) {
    && Flatten(gs) == es
    && (forall i :: 0 <= i < |gs| ==> GroupOk(gs[i], p))
    && forall i :: 0 <= i < |gs| - 1 ==> gs[i].lbl < gs[i + 1].lbl
  }

  /** Adding the next entry of a sorted list keeps the partition. */
  lemma AddKeepsPartition(gs: seq<Group>, es: seq<Entry>, p: Bytes, e: Entry)
    requires Partition(gs, es, p) && Ascends(es + [e])
    requires p <= e.name && |e.name| > |p|
    ensures Partition(AddToGroups(gs, e.name[|p|], e), es + [e], p)
  {
    hide Ascends, GroupOk;
    var lbl, n := e.name[|p|], |gs| - 1;
    assert p + [lbl] <= e.name by { assert e.name[..|p| + 1] == p + [lbl]; }
    if gs != [] {
      LastLabelBelow(gs, es, p, e);
    }
    if gs != [] && gs[n].lbl == lbl {
      ExtendLast(gs, es, p, e);
    } else {
      OpenGroup(gs, es, p, lbl, e);
    }
  }

  lemma ExtendLast(gs: seq<Group>, es: seq<Entry>, p: Bytes, e: Entry)
    requires gs != [] && Partition(gs, es, p) && p + [gs[|gs| - 1].lbl] <= e.name
    ensures var n := |gs| - 1; Partition(gs[..n] + [Group(gs[n].lbl, gs[n].entries + [e])], es + [e], p)
  {
    var n := |gs| - 1;
    var g := Group(gs[n].lbl, gs[n].entries + [e]);
    var r := gs[..n] + [g];
    assert GroupOk(gs[n], p);
    assert GroupOk(g, p);
    assert r[..n] == gs[..n] && r[n] == g;
    Assoc(Flatten(gs[..n]), gs[n].entries, [e]);
    hide GroupOk;
    forall i | 0 <= i < |r| ensures GroupOk(r[i], p) {
      assert i < n ==> r[i] == gs[i];
    }
    forall i | 0 <= i < |r| - 1 ensures r[i].lbl < r[i + 1].lbl {
      assert r[i].lbl == gs[i].lbl && r[i + 1].lbl == gs[i + 1].lbl;
    }
  }

  lemma OpenGroup(gs: seq<Group>, es: seq<Entry>, p: Bytes, lbl: byte, e: Entry)
    requires Partition(gs, es, p) && p + [lbl] <= e.name && (gs != [] ==> gs[|gs| - 1].lbl < lbl)
    ensures Partition(gs + [Group(lbl, [e])], es + [e], p)
  {
    var n := |gs|;
    var g := Group(lbl, [e]);
    var r := gs + [g];
    assert GroupOk(g, p);
    hide GroupOk;
    assert r[..n] == gs && r[n] == g;
    forall i | 0 <= i < |r| ensures GroupOk(r[i], p) {
      assert i < n ==> r[i] == gs[i];
    }
    forall i | 0 <= i < |r| - 1 ensures r[i].lbl < r[i + 1].lbl {
      assert r[i] == gs[i] && (i + 1 < n ==> r[i + 1] == gs[i + 1]);
    }
  }

  /** The label of the last group is not above the next entry's. */
  lemma LastLabelBelow(gs: seq<Group>, es: seq<Entry>, p: Bytes, e: Entry)
    requires gs != [] && Partition(gs, es, p) && Ascends(es + [e])
    requires p <= e.name && |e.name| > |p|
    ensures gs[|gs| - 1].lbl <= e.name[|p|]
  {
    var g := gs[|gs| - 1];
    var last := g.entries[|g.entries| - 1];
    assert GroupOk(g, p);
    assert es == Flatten(gs[..|gs| - 1]) + g.entries;
    assert (es + [e])[|es| - 1] == last && (es + [e])[|es|] == e;
    assert Less(last.name, e.name);
    PrefixOfConcat(p, [g.lbl], last.name);
    LessPastPrefix(p, last.name, e.name);
  }

  lemma {:induction false} GroupFoldPartitions(done: seq<Entry>, es: seq<Entry>, p: Bytes, acc: seq<Group>)
    requires Partition(acc, done, p) && Ascends(done + es)
    requires forall i :: 0 <= i < |es| ==> p <= es[i].name && es[i].name != p
    ensures GroupFold(es, p, acc).Ok? && Partition(GroupFold(es, p, acc).value, done + es, p)
    decreases |es|
  {
    hide Partition, AddToGroups;
    if es == [] {
      assert done + es == done;
    } else {
      var e := es[0];
      assert |e.name| > |p|;
      assert done + es == done + [e] + es[1..];
      AscendsSlice(done + es, 0, |done| + 1);
      assert (done + es)[0..|done| + 1] == done + [e];
      AddKeepsPartition(acc, done, p, e);
      GroupFoldPartitions(done + [e], es[1..], p, AddToGroups(acc, e.name[|p|], e));
    }
  }

  /** The entries that are grouped: all but the one whose name is the prefix. */
  function Body(es: seq<Entry>, p: Bytes): seq<Entry> {
    if es != [] && es[0].name == p then es[1..] else es
  }

  /** In a sorted list only the first name can equal the common prefix. */
  lemma PrefixOnlyFirst(es: seq<Entry>, p: Bytes, i: nat)
    requires Ascends(es) && i < |es| && p <= es[0].name && es[i].name == p
    ensures i == 0
  {
    if i > 0 {
      AscendsPairwise(es, 0, i);
      NotBelowOwnPrefix(p, es[0].name);
    }
  }

  lemma TerminalIsFirst(es: seq<Entry>, p: Bytes)
    requires es != [] && Ascends(es) && p <= es[0].name
    ensures FindTerminal(es, p) == if es[0].name == p then Some(es[0]) else None
  {
    var r := FindTerminal(es, p);
    if r.Some? {
      var i :| 0 <= i < |es| && es[i] == r.value;
      PrefixOnlyFirst(es, p, i);
    }
  }

  lemma SplitPartitions(es: seq<Entry>)
    requires Ascends(es) && es != []
    ensures var p := Lcp(NamesOf(es));
            && PrefixOfAll(p, NamesOf(es))
            && FindTerminal(es, p) == (if es[0].name == p then Some(es[0]) else None)
            && GroupFold(es, p, []).Ok?
            && Partition(GroupFold(es, p, []).value, Body(es, p), p)
  {
    hide Partition, Lcp, GroupFold, FindTerminal, Ascends, PrefixOfAll, Body;
    var p := Lcp(NamesOf(es));
    LcpMeans(NamesOf(es), p);
    BodyBelow(es, p);
    TerminalIsFirst(es, p);
    EmptyPartition(p);
    var body := Body(es, p);
    assert [] + body == body;
    GroupFoldPartitions([], body, p, []);
    GroupFoldBody(es, p);
  }

  /** All names but the prefix itself lie strictly below it. */
  lemma BodyBelow(es: seq<Entry>, p: Bytes)
    requires Ascends(es) && es != [] && PrefixOfAll(p, NamesOf(es))
    ensures p <= es[0].name && Ascends(Body(es, p))
    ensures forall i :: 0 <= i < |Body(es, p)| ==> p <= Body(es, p)[i].name && Body(es, p)[i].name != p
  {
    hide Ascends;
    var body := Body(es, p);
    assert p <= NamesOf(es)[0];
    AscendsSlice(es, |es| - |body|, |es|);
    assert body == es[|es| - |body|..|es|];
    forall i | 0 <= i < |body| ensures p <= body[i].name && body[i].name != p {
      var j := i + |es| - |body|;
      assert p <= NamesOf(es)[j];
      if es[j].name == p { PrefixOnlyFirst(es, p, j); }
    }
  }

  lemma GroupFoldBody(es: seq<Entry>, p: Bytes)
    ensures GroupFold(es, p, []) == GroupFold(Body(es, p), p, [])
  {
  }

  lemma EmptyPartition(p: Bytes)
    ensures Partition([], [], p)
  {
  }

  /** At least two parts: otherwise a longer prefix would be common to all names. */
  lemma SplitHasTwoParts(es: seq<Entry>)
    requires Ascends(es) && |es| >= 2
    ensures var p := Lcp(NamesOf(es));
            GroupFold(es, p, []).Ok? && |GroupFold(es, p, []).value| + Terminals(FindTerminal(es, p)) >= 2
  {
    hide Lcp, GroupFold, FindTerminal, Ascends, Partition, PrefixOfAll;
    SplitPartitions(es);
    var p := Lcp(NamesOf(es));
    var gs := GroupFold(es, p, []).value;
    PartsOf(es, p, gs);
    if es[0].name != p && |gs| == 1 {
      OneGroupHasPrefix(es, p, gs);
      LcpMeans(NamesOf(es), p + [gs[0].lbl]);
    }
  }

  lemma PartsOf(es: seq<Entry>, p: Bytes, gs: seq<Group>)
    requires |es| >= 2 && Partition(gs, Body(es, p), p)
    ensures gs != []
  {
  }

  /** All names below a single group share its label, too. */
  lemma OneGroupHasPrefix(es: seq<Entry>, p: Bytes, gs: seq<Group>)
    requires es != [] && es[0].name != p && |gs| == 1 && Partition(gs, Body(es, p), p)
    ensures PrefixOfAll(p + [gs[0].lbl], NamesOf(es))
  {
    hide GroupOk, NamesOf;
    FlattenOne(gs[0]);
    assert gs == [gs[0]] && Body(es, p) == es;
    assert GroupOk(gs[0], p);
    GroupHasPrefix(gs[0], p);
  }

  lemma FlattenOne(g: Group)
    ensures Flatten([g]) == g.entries
  {
    assert [g][..0] == [] && Flatten([g][..0]) == [];
  }

  lemma GroupHasPrefix(g: Group, p: Bytes)
    requires GroupOk(g, p)
    ensures PrefixOfAll(p + [g.lbl], NamesOf(g.entries))
  {
  }

  /** `Split` succeeds on sorted lists of two or more and returns the partition by the longest common prefix. */
  lemma SplitMeans(es: seq<Entry>)
    requires Ascends(es) && |es| >= 2
    ensures Split(es).Ok?
    ensures var (p, terminal, groups) := Split(es).value;
            && PrefixOfAll(p, NamesOf(es))
            && terminal == (if es[0].name == p then Some(es[0]) else None)
            && Partition(groups, Body(es, p), p)
            && |groups| + Terminals(terminal) >= 2
  {
    hide Lcp, GroupFold, FindTerminal, Partition;
    SplitPartitions(es);
    SplitHasTwoParts(es);
  }

  // ----- groups are sorted lists again -----

  lemma {:induction false} GroupIsSlice(gs: seq<Group>, i: nat) returns (k: nat)
    requires i < |gs|
    ensures k + |gs[i].entries| <= |Flatten(gs)| && Flatten(gs)[k..k + |gs[i].entries|] == gs[i].entries
    decreases |gs|
  {
    var n := |gs| - 1;
    var before, last := Flatten(gs[..n]), gs[n].entries;
    assert Flatten(gs) == before + last;
    if i < n {
      k := GroupIsSlice(gs[..n], i);
      assert (before + last)[k..k + |gs[i].entries|] == before[k..k + |gs[i].entries|];
    } else {
      k := |before|;
      assert (before + last)[k..k + |last|] == last;
    }
  }

  lemma InputSlice(es: seq<Entry>, from: nat, to: nat)
    requires Input(es) && from <= to <= |es|
    ensures Input(es[from..to])
  {
    hide Ascends, ValidEntry;
    AscendsSlice(es, from, to);
  }

  lemma GroupIsInput(es: seq<Entry>, gs: seq<Group>, p: Bytes, i: nat)
    requires Input(es) && Partition(gs, Body(es, p), p) && i < |gs|
    ensures Input(gs[i].entries)
  {
    hide Input;
    var k := GroupIsSlice(gs, i);
    var body := Body(es, p);
    InputSlice(es, |es| - |body|, |es|);
    assert body == es[|es| - |body|..|es|];
    InputSlice(body, k, k + |gs[i].entries|);
  }

  // ----- every build succeeds -----

  lemma EntryLenBound(e: Entry)
    requires ValidEntry(e)
    ensures EncodedLen(e) <= 298 && 1 <= |e.name| <= 255
  {
  }

  lemma SmallFitsLeaf(es: seq<Entry>)
    requires Input(es) && |es| <= 1
    ensures FitsLeaf(es)
  {
    hide ValidEntry, EntryBytes, Header;
    EncodePageMeans(Leaf(es));
    if |es| == 1 {
      assert ValidEntry(es[0]);
      EntryLenBound(es[0]);
      assert es[1..] == [] && EntriesBytes(es) == EntryBytes(es[0]) + [];
    }
    assert |Payload(Leaf(es))| <= 298;
    assert |PageBytes(Leaf(es))| <= PAGE_MAX_BYTES;
    assert WellBuilt(Leaf(es));
  }

  /** A list that does not fit a leaf has at least two entries. */
  lemma OversizedHasTwo(es: seq<Entry>)
    requires Input(es) && !FitsLeaf(es)
    ensures |es| >= 2
  {
    hide Input, FitsLeaf;
    if |es| <= 1 {
      SmallFitsLeaf(es);
    }
  }

  /** Children of a branch, as the grouping announces them. */
  ghost predicate ChildrenOf(sha: Hash, cs: seq<BranchChild>, gs: seq<Group>) {
    && |cs| == |gs|
    && forall i :: 0 <= i < |gs| ==> ChildOf(sha, cs[i], gs[i])
  }

  ghost predicate ChildOf(sha: Hash, c: BranchChild, g: Group) {
    && c.lbl == g.lbl && c.entries == |g.entries|
    && Build(sha, g.entries).Ok? && c.pageId == PageId(sha, Build(sha, g.entries).value)
  }

  lemma {:induction false} SumIsSize(sha: Hash, cs: seq<BranchChild>, gs: seq<Group>)
    requires ChildrenOf(sha, cs, gs)
    ensures SumEntries(cs) == Size(gs)
  {
    hide ChildrenOf, SumEntries;
    ChildrenOfLength(sha, cs, gs);
    if gs == [] {
      SumOfNothing();
    } else {
      var n := |gs| - 1;
      ChildrenOfInit(sha, cs, gs);
      SumIsSize(sha, cs[..n], gs[..n]);
      SumEntriesPush(cs[..n], cs[n]);
      assert cs == cs[..n] + [cs[n]];
    }
  }

  lemma SumOfNothing()
    ensures SumEntries([]) == 0
  {
  }

  lemma ChildrenOfLength(sha: Hash, cs: seq<BranchChild>, gs: seq<Group>)
    requires ChildrenOf(sha, cs, gs)
    ensures |cs| == |gs|
  {
    hide ChildOf;
  }

  lemma ChildrenOfInit(sha: Hash, cs: seq<BranchChild>, gs: seq<Group>)
    requires ChildrenOf(sha, cs, gs) && gs != []
    ensures var n := |gs| - 1;
            |cs| == |gs| && ChildrenOf(sha, cs[..n], gs[..n]) && cs[n].entries == |gs[n].entries|
  {
    var n := |gs| - 1;
    assert ChildOf(sha, cs[n], gs[n]);
    assert cs[n].entries == |gs[n].entries|;
    hide ChildOf;
    forall i | 0 <= i < n ensures ChildOf(sha, cs[..n][i], gs[..n][i]) {
      assert ChildOf(sha, cs[i], gs[i]);
    }
  }

  lemma {:induction false} SumEntriesPush(cs: seq<BranchChild>, c: BranchChild)
    ensures SumEntries(cs + [c]) == SumEntries(cs) + c.entries
  {
    if cs != [] {
      assert (cs + [c])[1..] == cs[1..] + [c];
      SumEntriesPush(cs[1..], c);
    }
  }

  /** A branch over a partition of valid entries is well built, whatever the sizes. */
  lemma BranchIsWellBuilt(sha: Hash, es: seq<Entry>, p: Bytes, terminal: Option<Entry>, gs: seq<Group>,
                          cs: seq<BranchChild>)
    requires Input(es) && es != [] && p <= es[0].name
    requires terminal == (if es[0].name == p then Some(es[0]) else None)
    requires Partition(gs, Body(es, p), p) && ChildrenOf(sha, cs, gs) && |gs| + Terminals(terminal) >= 2
    ensures WellBuilt(Branch(p, terminal, cs)) && TotalEntries(Branch(p, terminal, cs)) == |es|
  {
    hide ValidEntry, Less, Ascends, Build, EntryBytes, Header;
    assert ValidEntry(es[0]);
    EntryLenBound(es[0]);
    SumIsSize(sha, cs, gs);
    forall i | 0 <= i < |cs| ensures cs[i].lbl == gs[i].lbl && cs[i].entries > 0 {
      assert ChildOf(sha, cs[i], gs[i]) && GroupOk(gs[i], p);
    }
    LabelsFit(cs);
    assert |TerminalBytes(terminal)| <= 299;
    assert |Payload(Branch(p, terminal, cs))| <= 2 + 255 + 299 + 41 * 256;
  }

  /** Labels are bytes, so ascending children respect the fanout limit. */
  lemma {:induction false} LabelsFit(cs: seq<BranchChild>)
    requires LabelsAscend(cs)
    ensures |cs| <= BRANCH_MAX_CHILDREN
    ensures cs != [] ==> |cs| <= cs[|cs| - 1].lbl as nat + 1
  {
    if |cs| > 1 {
      var n := |cs| - 1;
      assert cs[n - 1].lbl < cs[n].lbl;
      LabelsFit(cs[..n]);
    }
  }

  /** Totality: the root page of every sorted list of valid entries is well built and counts them all. */
  lemma {:induction false} BuildTotal(sha: Hash, es: seq<Entry>)
    requires Input(es)
    ensures BuildPage(sha, es).Ok? && WellBuilt(BuildPage(sha, es).value)
    ensures TotalEntries(BuildPage(sha, es).value) == |es|
    ensures Build(sha, es) == Ok(PageBytes(BuildPage(sha, es).value))
    decreases |es|, 1
  {
    hide Validate, Less, WellBuilt, EncodePage, Partition, Split, PageBytes;
    CheckInputMeans(es, None);
    if FitsLeaf(es) {
      EncodePageMeans(Leaf(es));
    } else {
      OversizedHasTwo(es);
      SplitMeans(es);
      var (p, terminal, gs) := Split(es).value;
      forall g | g in gs ensures Input(g.entries) {
        var i :| 0 <= i < |gs| && gs[i] == g;
        GroupIsInput(es, gs, p, i);
      }
      ChildrenTotal(sha, gs, |es|);
      var cs := BuildChildren(sha, gs, |es|).value;
      assert p <= NamesOf(es)[0];
      BranchIsWellBuilt(sha, es, p, terminal, gs, cs);
      EncodePageMeans(Branch(p, terminal, cs));
    }
  }

  lemma {:induction false} ChildrenTotal(sha: Hash, gs: seq<Group>, bound: nat)
    requires forall g :: g in gs ==> |g.entries| < bound
    requires forall g :: g in gs ==> Input(g.entries)
    ensures BuildChildren(sha, gs, bound).Ok? && ChildrenOf(sha, BuildChildren(sha, gs, bound).value, gs)
    decreases bound, 0, |gs|
  {
    hide Build, BuildPage, BuildChildren, Input, ChildOf, ChildrenOf, PageId;
    if gs == [] {
      ChildrenOfNothing(sha);
      BuildNoChildren(sha, bound);
    } else {
      var g, rest := gs[0], gs[1..];
      assert g in gs;
      BuildTotal(sha, g.entries);
      ChildrenTotal(sha, rest, bound);
      InputFitsU64(g.entries);
      var c := BranchChild(g.lbl, |g.entries|, PageId(sha, Build(sha, g.entries).value));
      ChildOfMeans(sha, c, g);
      ChildrenOfCons(sha, c, g, BuildChildren(sha, rest, bound).value, rest);
      BuildChildrenStep(sha, gs, bound);
      assert [g] + rest == gs;
    }
  }

  lemma BuildNoChildren(sha: Hash, bound: nat)
    ensures BuildChildren(sha, [], bound) == Ok([])
  {
  }

  lemma BuildChildrenStep(sha: Hash, gs: seq<Group>, bound: nat)
    requires gs != [] && forall g :: g in gs ==> |g.entries| < bound
    requires |gs[0].entries| < U64_LIMIT && Build(sha, gs[0].entries).Ok? && BuildChildren(sha, gs[1..], bound).Ok?
    ensures BuildChildren(sha, gs, bound) ==
            Ok([BranchChild(gs[0].lbl, |gs[0].entries|, PageId(sha, Build(sha, gs[0].entries).value))]
               + BuildChildren(sha, gs[1..], bound).value)
  {
    hide Build, PageId;
  }

  lemma ChildrenOfNothing(sha: Hash)
    ensures ChildrenOf(sha, [], [])
  {
  }

  lemma ChildrenOfCons(sha: Hash, c: BranchChild, g: Group, cs: seq<BranchChild>, gs: seq<Group>)
    requires ChildOf(sha, c, g) && ChildrenOf(sha, cs, gs)
    ensures ChildrenOf(sha, [c] + cs, [g] + gs)
  {
    hide ChildOf;
    forall j | 0 <= j <= |gs| ensures ChildOf(sha, ([c] + cs)[j], ([g] + gs)[j]) {
      assert j > 0 ==> ([c] + cs)[j] == cs[j - 1] && ([g] + gs)[j] == gs[j - 1];
    }
  }

  lemma ChildOfMeans(sha: Hash, c: BranchChild, g: Group)
    requires c.lbl == g.lbl && c.entries == |g.entries|
    requires Build(sha, g.entries).Ok? && c.pageId == PageId(sha, Build(sha, g.entries).value)
    ensures ChildOf(sha, c, g)
  {
  }

  lemma InputFitsU64(es: seq<Entry>)
    requires Input(es)
    ensures |es| < U64_LIMIT
  {
  }
}
