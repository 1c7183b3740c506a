/**
 * The canonical tree by sizes and prefixes alone: when `build` makes a leaf, what its branches hold, which
 * routes exist.
 */
module MetaExact {
  import opened Base
  import opened MetaEntry
  import opened MetaPage
  import opened MetaDecode
  import opened MetaBuild
  import opened MetaPartition
  import opened MetaCommit
  import opened MetaRoute

  // ----- leaves -----

  /** Bytes of one entry in a page: 35 beside the name for a directory, 43 for a file. */
  function WireLen(e: Entry): nat {
    if e.kind.Directory? then |e.name| + 35 else |e.name| + 43
  }

  function WireSum(es: seq<Entry>): nat {
    if es == [] then 0 else WireLen(es[0]) + WireSum(es[1..])
  }

  /** At most 128 entries, and at most 16384 bytes with the header. */
  predicate Small(es: seq<Entry>) {
    |es| <= 128 && 20 + WireSum(es) <= 16384
  }

  lemma {:induction false} EntriesLen(es: seq<Entry>)
    ensures |EntriesBytes(es)| == WireSum(es)
  {
    hide EntryBytes;
    if es != [] {
      EntriesLen(es[1..]);
      assert |EntryBytes(es[0])| == EncodedLen(es[0]);
    }
  }

  lemma SmallFits(es: seq<Entry>)
    requires Input(es)
    ensures FitsLeaf(es) <==> Small(es)
  {
    hide EntryBytes, Header, EncodePage, ValidEntry, Less, WireSum;
    EncodePageMeans(Leaf(es));
    EntriesLen(es);
  }

  /** A leaf and a branch never have the same bytes. */
  lemma KindInPlace(p: Page)
    requires WellBuilt(p)
    ensures |PageBytes(p)| > 4 && PageBytes(p)[4] == if p.Leaf? then 0 else 1
  {
    hide Header, Payload;
    var (kind, count) := KindAndCount(p);
    HeaderFields(PageBytes(p), kind, count, TotalEntries(p), |Payload(p)|, Payload(p));
  }

  /** `build` makes a leaf exactly for the small lists, and a branch for all others. */
  lemma LeafExactlyIfSmall(sha: Hash, es: seq<Entry>)
    requires Input(es)
    ensures Build(sha, es) == Ok(PageBytes(Leaf(es))) <==> |es| <= 128 && 20 + WireSum(es) <= 16384
    ensures Build(sha, es).Ok? && |Build(sha, es).value| > 4
    ensures Build(sha, es).value[4] == if |es| <= 128 && 20 + WireSum(es) <= 16384 then 0 else 1
  {
    hide Build, BuildPage, Input, FitsLeaf, PageBytes, WellBuilt, WireSum;
    SmallFits(es);
    BuildTotal(sha, es);
    LeafPageIffFits(sha, es);
    KindInPlace(BuildPage(sha, es).value);
    if FitsLeaf(es) {
    } else if Build(sha, es) == Ok(PageBytes(Leaf(es))) {
      LeafKind(es);
    }
  }

  lemma LeafKind(es: seq<Entry>)
    requires Input(es) && |PageBytes(Leaf(es))| > 4
    ensures PageBytes(Leaf(es))[4] == 0
  {
    hide Le16, Le32, Le64, EntriesBytes, Input;
    var p := Leaf(es);
    assert PageBytes(p)[4] == Header(0, |es|, |es|, |Payload(p)|)[4];
  }

  // ----- branches -----

  /** The entries whose names start with `q`, in order. */
  function Starting(es: seq<Entry>, q: Bytes): seq<Entry> {
    if es == [] then []
    else if q <= es[0].name then [es[0]] + Starting(es[1..], q)
    else Starting(es[1..], q)
  }

  /** What the repartition loop selects are the entries below prefix and label. */
  lemma {:induction false} SelectIsStarting(es: seq<Entry>, p: Bytes, lbl: byte)
    requires Select(es, p, lbl).Ok?
    ensures Select(es, p, lbl).value == Starting(es, p + [lbl])
  {
    if es != [] {
      SelectIsStarting(es[1..], p, lbl);
      var name := es[0].name;
      PrefixOfConcat(p, [lbl], name);
      if name != p {
        assert p <= name && name[|p|..][0] == name[|p|];
      }
    }
  }

  lemma GroupIsStarting(es: seq<Entry>, p: Bytes, gs: seq<Group>, lbl: byte)
    requires es != [] && Partition(gs, Body(es, p), p)
    ensures match FindGroup(gs, lbl)
            case None => Starting(es, p + [lbl]) == []
            case Some(g) => g.entries == Starting(es, p + [lbl]) && g.entries != []
  {
    hide Select, Starting;
    SelectFindsGroup(es, p, gs, lbl);
    SelectIsStarting(es, p, lbl);
    if FindGroup(gs, lbl).Some? {
      var i :| 0 <= i < |gs| && gs[i] == FindGroup(gs, lbl).value;
      assert GroupOk(gs[i], p);
    }
  }

  /** The longest byte string that all names start with. */
  ghost predicate LongestCommon(p: Bytes, es: seq<Entry>) {
    StartsAll(p, es) && forall q :: StartsAll(q, es) ==> q <= p
  }

  predicate StartsAll(q: Bytes, es: seq<Entry>) {
    forall i :: 0 <= i < |es| ==> q <= es[i].name
  }

  /** The entry of the prefix itself, if there is one. */
  ghost predicate TerminalIs(p: Bytes, es: seq<Entry>, terminal: Option<Entry>) {
    match terminal
    case None => forall i :: 0 <= i < |es| ==> es[i].name != p
    case Some(e) => e in es && e.name == p
  }

  /** The reference of a branch to the canonical page of the entries below prefix and label. */
  ghost predicate RefersTo(sha: Hash, es: seq<Entry>, p: Bytes, c: BranchChild) {
    var sub := Starting(es, p + [c.lbl]);
    sub != [] && c.entries == |sub| && Build(sha, sub).Ok? && c.pageId == PageId(sha, Build(sha, sub).value)
  }

  /** The canonical branch: one child for each byte that follows the longest common prefix in some name. */
  ghost predicate CanonicalBranch(sha: Hash, es: seq<Entry>, page: Page) {
    && page.Branch? && LongestCommon(page.prefix, es) && TerminalIs(page.prefix, es, page.terminal)
    && LabelsAscend(page.children)
    && (forall i :: 0 <= i < |page.children| ==> RefersTo(sha, es, page.prefix, page.children[i]))
    && forall i :: 0 <= i < |es| && es[i].name != page.prefix ==>
         |es[i].name| > |page.prefix| && HasLabel(page.children, es[i].name[|page.prefix|])
  }

  predicate HasLabel(cs: seq<BranchChild>, lbl: byte) {
    exists j :: 0 <= j < |cs| && cs[j].lbl == lbl
  }

  /** `build` of a list that is not small makes the canonical branch. */
  lemma BuildMeans(sha: Hash, es: seq<Entry>) returns (page: Page)
    requires Input(es) && !(|es| <= 128 && 20 + WireSum(es) <= 16384)
    ensures Build(sha, es) == Ok(PageBytes(page)) && CanonicalBranch(sha, es, page)
  {
    hide Build, BuildPage, Input, FitsLeaf, PageBytes, WellBuilt, WireSum, Partition, ChildrenOf, Starting, RefersTo,
         HasLabel, LongestCommon, TerminalIs, LabelsAscend;
    SmallFits(es);
    BuildTotal(sha, es);
    BranchShape(sha, es);
    page := BuildPage(sha, es).value;
    WellBuiltLabels(page);
    var p, cs, gs := page.prefix, page.children, GroupsOf(es);
    BranchPrefix(sha, es);
    TerminalFound(es, p, page.terminal);
    ChildrenOfLength(sha, cs, gs);
    forall i | 0 <= i < |cs| ensures RefersTo(sha, es, p, cs[i]) {
      ChildRefers(sha, es, p, cs, gs, i);
    }
    forall i | 0 <= i < |es| && es[i].name != p ensures |es[i].name| > |p| && HasLabel(cs, es[i].name[|p|]) {
      EntryHasLabel(sha, es, p, cs, gs, i);
    }
  }

  lemma WellBuiltLabels(page: Page)
    requires WellBuilt(page) && page.Branch?
    ensures LabelsAscend(page.children)
  {
    hide PageBytes;
  }

  lemma BranchPrefix(sha: Hash, es: seq<Entry>)
    requires es != [] && BuildPage(sha, es).Ok? && BuildPage(sha, es).value.Branch?
    ensures LongestCommon(BuildPage(sha, es).value.prefix, es)
  {
    hide BuildPage, Lcp;
    BranchPrefixIsLcp(sha, es);
    var p, names := Lcp(NamesOf(es)), NamesOf(es);
    LcpMeans(names, p);
    forall i | 0 <= i < |es| ensures p <= es[i].name {
      assert p <= names[i];
    }
    forall q | StartsAll(q, es) ensures q <= p {
      assert PrefixOfAll(q, names);
      LcpMeans(names, q);
    }
  }

  lemma TerminalFound(es: seq<Entry>, p: Bytes, terminal: Option<Entry>)
    requires Input(es) && es != [] && LongestCommon(p, es)
    requires terminal == if es[0].name == p then Some(es[0]) else None
    ensures TerminalIs(p, es, terminal)
  {
    hide ValidEntry, Less;
    forall i | 0 <= i < |es| && es[i].name == p ensures i == 0 {
      PrefixOnlyFirst(es, p, i);
    }
  }

  lemma ChildRefers(sha: Hash, es: seq<Entry>, p: Bytes, cs: seq<BranchChild>, gs: seq<Group>, i: nat)
    requires es != [] && Partition(gs, Body(es, p), p) && ChildrenOf(sha, cs, gs) && i < |cs|
    ensures RefersTo(sha, es, p, cs[i])
  {
    hide Build, Starting, GroupOk;
    assert ChildOf(sha, cs[i], gs[i]);
    OwnGroup(gs, p, i);
    GroupIsStarting(es, p, gs, cs[i].lbl);
  }

  /** Labels are distinct, so a group is found under its own. */
  lemma OwnGroup(gs: seq<Group>, p: Bytes, i: nat)
    requires i < |gs| && exists es :: Partition(gs, es, p)
    ensures FindGroup(gs, gs[i].lbl) == Some(gs[i])
  {
    hide GroupOk;
    var es :| Partition(gs, es, p);
    var r := FindGroup(gs, gs[i].lbl);
    if r.Some? {
      var j :| 0 <= j < |gs| && gs[j] == r.value;
      if i < j { LabelsPairwise(gs, p, i, j); }
      if j < i { LabelsPairwise(gs, p, j, i); }
    }
  }

  lemma EntryHasLabel(sha: Hash, es: seq<Entry>, p: Bytes, cs: seq<BranchChild>, gs: seq<Group>, i: nat)
    requires i < |es| && Partition(gs, Body(es, p), p) && ChildrenOf(sha, cs, gs)
    requires LongestCommon(p, es) && es[i].name != p
    ensures |es[i].name| > |p| && HasLabel(cs, es[i].name[|p|])
  {
    hide Build, Partition, ChildOf;
    var name := es[i].name;
    assert p <= name;
    var lbl := name[|p|];
    assert name[..|p| + 1] == p + [lbl];
    StartingHas(es, p + [lbl], i);
    GroupIsStarting(es, p, gs, lbl);
    var g := FindGroup(gs, lbl).value;
    var j :| 0 <= j < |gs| && gs[j] == g;
    assert ChildOf(sha, cs[j], gs[j]);
    LabelOfChild(sha, cs[j], gs[j]);
  }

  lemma LabelOfChild(sha: Hash, c: BranchChild, g: Group)
    requires ChildOf(sha, c, g)
    ensures c.lbl == g.lbl
  {
  }

  lemma {:induction false} StartingHas(es: seq<Entry>, q: Bytes, i: nat)
    requires i < |es| && q <= es[i].name
    ensures Starting(es, q) != []
  {
    if i > 0 {
      StartingHas(es[1..], q, i - 1);
    }
  }

  // ----- inputs -----

  /** `build` succeeds exactly on valid, strictly ascending lists of at most 2^63 - 1 entries. */
  lemma {:induction false} BuildsExactlyInputs(sha: Hash, es: seq<Entry>)
    ensures Build(sha, es).Ok? <==> AllValid(es) && Ascends(es) && |es| <= 0x7FFF_FFFF_FFFF_FFFF
    decreases |es|, 1
  {
    hide Build, AllValid, Ascends;
    if AllValid(es) && Ascends(es) && |es| <= MAX_TOTAL_ENTRIES {
      BuildTotal(sha, es);
    }
    if Build(sha, es).Ok? {
      BuildChecks(sha, es);
      if |es| > MAX_TOTAL_ENTRIES {
        var p, terminal, gs := LargeSplits(sha, es);
        ChildrenAreInputs(sha, gs, |es|);
        LargeIsRefused(sha, es, p, terminal, gs);
      }
    }
  }

  lemma BuildChecks(sha: Hash, es: seq<Entry>)
    requires Build(sha, es).Ok?
    ensures AllValid(es) && Ascends(es)
  {
    hide CheckInput, AllValid, Ascends, FitsLeaf, Split, BuildChildren;
    CheckInputMeans(es, None);
  }

  lemma LargeSplits(sha: Hash, es: seq<Entry>) returns (p: Bytes, terminal: Option<Entry>, gs: seq<Group>)
    requires Build(sha, es).Ok? && |es| > MAX_TOTAL_ENTRIES
    ensures Ascends(es) && Split(es) == Ok((p, terminal, gs)) && (forall g :: g in gs ==> |g.entries| < |es|)
    ensures BuildChildren(sha, gs, |es|).Ok?
    ensures Build(sha, es) == EncodePage(Branch(p, terminal, BuildChildren(sha, gs, |es|).value))
    ensures terminal == (if es[0].name == p then Some(es[0]) else None) && Partition(gs, Body(es, p), p)
  {
    BuildChecks(sha, es);
    hide CheckInput, AllValid, Ascends, EncodePage, Split, BuildChildren, Partition;
    SplitMeans(es);
    var split := Split(es).value;
    p, terminal, gs := split.0, split.1, split.2;
  }

  lemma {:induction false} ChildrenAreInputs(sha: Hash, gs: seq<Group>, bound: nat)
    requires forall g :: g in gs ==> |g.entries| < bound
    requires BuildChildren(sha, gs, bound).Ok?
    ensures ChildrenOf(sha, BuildChildren(sha, gs, bound).value, gs)
    decreases bound, 0, |gs|
  {
    hide Build, AllValid, Ascends, ChildOf, ChildrenOf, PageId;
    if gs == [] {
      ChildrenOfNothing(sha);
    } else {
      var g, rest := gs[0], gs[1..];
      assert g in gs;
      BuildsExactlyInputs(sha, g.entries);
      ChildrenAreInputs(sha, rest, bound);
      var c := BranchChild(g.lbl, |g.entries|, PageId(sha, Build(sha, g.entries).value));
      ChildOfMeans(sha, c, g);
      ChildrenOfCons(sha, c, g, BuildChildren(sha, rest, bound).value, rest);
      assert [g] + rest == gs;
    }
  }

  /** More entries than the total may say are refused, however they are split. */
  lemma LargeIsRefused(sha: Hash, es: seq<Entry>, p: Bytes, terminal: Option<Entry>, gs: seq<Group>)
    requires |es| > MAX_TOTAL_ENTRIES && (forall g :: g in gs ==> |g.entries| < |es|)
    requires terminal == (if es[0].name == p then Some(es[0]) else None) && Partition(gs, Body(es, p), p)
    requires BuildChildren(sha, gs, |es|).Ok? && ChildrenOf(sha, BuildChildren(sha, gs, |es|).value, gs)
    ensures EncodePage(Branch(p, terminal, BuildChildren(sha, gs, |es|).value)).Err?
  {
    hide BuildChildren, ChildrenOf, EncodePage, PageBytes, GroupOk;
    var cs := BuildChildren(sha, gs, |es|).value;
    EncodePageMeans(Branch(p, terminal, cs));
    SumIsSize(sha, cs, gs);
  }

  // ----- routes -----

  /** The next page of a route: the entries below the common prefix and the label. */
  ghost predicate NextPart(es: seq<Entry>, lbl: byte, sub: seq<Entry>) {
    sub != [] && exists p :: LongestCommon(p, es) && sub == Starting(es, p + [lbl])
  }

  /** A label leads on exactly where the page is no leaf and some name has it after the common prefix. */
  lemma GroupMeans(es: seq<Entry>, lbl: byte)
    requires Input(es)
    ensures FindGroup(GroupsOf(es), lbl).Some? <==>
              !(|es| <= 128 && 20 + WireSum(es) <= 16384) && exists sub :: NextPart(es, lbl, sub)
    ensures forall sub :: FindGroup(GroupsOf(es), lbl).Some? && NextPart(es, lbl, sub) ==>
              sub == FindGroup(GroupsOf(es), lbl).value.entries && |sub| < |es|
  {
    hide Input, FitsLeaf, WireSum, GroupsOf, NextPart, FindGroup;
    SmallFits(es);
    if FitsLeaf(es) {
      LeafHasNoGroup(es, lbl);
    } else {
      var p := SplitPrefix(es, lbl);
      var gs := GroupsOf(es);
      GroupIsStarting(es, p, gs, lbl);
      NextPartIs(es, lbl, p);
      if FindGroup(gs, lbl).Some? {
        assert FindGroup(gs, lbl).value in gs;
        assert NextPart(es, lbl, FindGroup(gs, lbl).value.entries);
      }
    }
  }

  lemma LeafHasNoGroup(es: seq<Entry>, lbl: byte)
    requires FitsLeaf(es)
    ensures FindGroup(GroupsOf(es), lbl) == None
  {
    hide FitsLeaf;
  }

  lemma SplitPrefix(es: seq<Entry>, lbl: byte) returns (p: Bytes)
    requires Input(es) && !FitsLeaf(es)
    ensures es != [] && LongestCommon(p, es) && Partition(GroupsOf(es), Body(es, p), p)
  {
    hide Input, FitsLeaf, Partition, BuildPage, LongestCommon, ChildrenOf;
    var sha: Hash := (_) => ZERO_DIGEST;
    BranchShape(sha, es);
    p := BuildPage(sha, es).value.prefix;
    BranchPrefix(sha, es);
  }

  lemma NextPartIs(es: seq<Entry>, lbl: byte, p: Bytes)
    requires LongestCommon(p, es)
    ensures forall sub :: NextPart(es, lbl, sub) <==> sub != [] && sub == Starting(es, p + [lbl])
  {
    hide Starting;
    forall q | LongestCommon(q, es) ensures q == p {
      assert q <= p && p <= q;
    }
  }

  /** Which routes exist, and through which parts of the list they go. */
  ghost predicate Reaches(es: seq<Entry>, route: Bytes, parts: seq<seq<Entry>>) {
    && |parts| == |route| + 1 && parts[0] == es
    && forall i :: 0 <= i < |route| ==>
         !(|parts[i]| <= 128 && 20 + WireSum(parts[i]) <= 16384) && NextPart(parts[i], route[i], parts[i + 1])
  }

  /** The pages of an existing route are those of the parts it goes through, and no other route exists. */
  lemma {:induction false} RouteMeans(sha: Hash, es: seq<Entry>, route: Bytes, parts: seq<seq<Entry>>)
    requires Input(es) && Reaches(es, route, parts)
    ensures RouteIn(es, route) && |RoutePages(sha, es, route)| == |parts|
    ensures forall i :: 0 <= i < |parts| ==> Build(sha, parts[i]) == Ok(RoutePages(sha, es, route)[i])
    decreases |es|
  {
    hide Input, WireSum, GroupsOf, NextPart, FindGroup, Build;
    InputBuilds(sha, es);
    if route != [] {
      var lbl, sub := route[0], parts[1];
      GroupMeans(es, lbl);
      assert NextPart(parts[0], route[0], parts[1]);
      var g := FindGroup(GroupsOf(es), lbl).value;
      GroupInput(sha, es, g);
      forall i | 0 <= i < |route[1..]|
        ensures !(|parts[1..][i]| <= 128 && 20 + WireSum(parts[1..][i]) <= 16384)
             && NextPart(parts[1..][i], route[1..][i], parts[1..][i + 1])
      {
        assert NextPart(parts[i + 1], route[i + 1], parts[i + 2]);
      }
      RouteMeans(sha, sub, route[1..], parts[1..]);
      assert RoutePages(sha, es, route) == [Build(sha, es).value] + RoutePages(sha, sub, route[1..]);
      forall i | 0 <= i < |parts| ensures Build(sha, parts[i]) == Ok(RoutePages(sha, es, route)[i]) {
        assert i > 0 ==> parts[i] == parts[1..][i - 1];
      }
    }
  }

  lemma {:induction false} RouteHasParts(es: seq<Entry>, route: Bytes) returns (parts: seq<seq<Entry>>)
    requires Input(es) && RouteIn(es, route)
    ensures Reaches(es, route, parts)
    decreases |es|
  {
    hide Input, WireSum, GroupsOf, NextPart, FindGroup;
    if route == [] {
      parts := [es];
    } else {
      var lbl := route[0];
      GroupMeans(es, lbl);
      var sub :| NextPart(es, lbl, sub);
      var g := FindGroup(GroupsOf(es), lbl).value;
      var sha: Hash := (_) => ZERO_DIGEST;
      GroupInput(sha, es, g);
      var rest := RouteHasParts(sub, route[1..]);
      parts := [es] + rest;
      forall i | 0 <= i < |route|
        ensures !(|parts[i]| <= 128 && 20 + WireSum(parts[i]) <= 16384) && NextPart(parts[i], route[i], parts[i + 1])
      {
        if i > 0 {
          assert NextPart(rest[i - 1], route[1..][i - 1], rest[i]);
        }
      }
    }
  }

  /** The pages that the parts along a route build to. */
  ghost predicate PagesOf(sha: Hash, parts: seq<seq<Entry>>, pages: seq<Bytes>) {
    |pages| == |parts| && forall i :: 0 <= i < |parts| ==> Build(sha, parts[i]) == Ok(pages[i])
  }

  /** `pages_along_route` on any list: it answers exactly along the existing routes of inputs that build. */
  lemma RouteAnswers(sha: Hash, es: seq<Entry>, route: Bytes, pages: seq<Bytes>)
    ensures PagesAlongRoute(sha, es, route) == Ok(pages) <==>
              && AllValid(es) && Ascends(es) && |es| <= 0x7FFF_FFFF_FFFF_FFFF
              && exists parts :: Reaches(es, route, parts) && PagesOf(sha, parts, pages)
  {
    hide Build, PagesAlongRoute, AllValid, Ascends, Reaches, RouteIn, RoutePages;
    BuildsExactlyInputs(sha, es);
    if Input(es) {
      PagesAlongRouteMeans(sha, es, route);
      if RouteIn(es, route) {
        var parts := RouteHasParts(es, route);
        RouteMeans(sha, es, route, parts);
        assert PagesOf(sha, parts, RoutePages(sha, es, route));
      }
      forall parts | Reaches(es, route, parts) && PagesOf(sha, parts, pages)
        ensures PagesAlongRoute(sha, es, route) == Ok(pages)
      {
        RouteMeans(sha, es, route, parts);
        assert pages == RoutePages(sha, es, route);
      }
    } else {
      RouteNeedsRoot(sha, es, route);
    }
  }

  lemma RouteNeedsRoot(sha: Hash, es: seq<Entry>, route: Bytes)
    requires Build(sha, es).Err?
    ensures PagesAlongRoute(sha, es, route).Err?
  {
    hide Build;
  }
}
