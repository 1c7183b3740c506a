/** Descending the canonical tree by labels: `pages_along_route` and `verify_received_child`. */
module MetaRoute {
  import opened Base
  import opened MetaEntry
  import opened MetaPage
  import opened MetaDecode
  import opened MetaBuild
  import opened MetaPartition
  import opened MetaCommit

  // ----- specification of the two operations -----

  /** `iter().find` over branch children. */
  function FindLabel(cs: seq<BranchChild>, lbl: byte): Option<BranchChild> {
    if cs == [] then None else if cs[0].lbl == lbl then Some(cs[0]) else FindLabel(cs[1..], lbl)
  }

  /** The repartition loop: the entries below `prefix` that continue with `lbl`. */
  function Select(es: seq<Entry>, prefix: Bytes, lbl: byte): CodecResult<seq<Entry>> {
    if es == [] then Ok([])
    else if es[0].name == prefix then Select(es[1..], prefix, lbl)
    else if |es[0].name| <= |prefix| || es[0].name[..|prefix|] != prefix then Err(BadOrdering)
    else
      var rest :- Select(es[1..], prefix, lbl);
      Ok(if es[0].name[|prefix|] == lbl then [es[0]] + rest else rest)
  }

  /** The pages below `page`, which was built from `current`. */
  function RouteFrom(sha: Hash, current: seq<Entry>, page: Bytes, route: Bytes): CodecResult<seq<Bytes>>
    decreases |route|
  {
    if route == [] then Ok([])
    else
      var (decoded, _) :- DecodePage(page);
      match decoded
      case Leaf(_) => Err(BadOrdering)
      case Branch(prefix, _, children) =>
        match FindLabel(children, route[0])
        case None => Err(BadOrdering)
        case Some(child) =>
          var group :- Select(current, prefix, route[0]);
          if group == [] then Err(BadOrdering)
          else
            var bytes :- Build(sha, group);
            if PageId(sha, bytes) != child.pageId then Err(DigestMismatch)
            else
              var rest :- RouteFrom(sha, group, bytes, route[1..]);
              Ok([bytes] + rest)
  }

  function PagesAlongRoute(sha: Hash, es: seq<Entry>, route: Bytes): CodecResult<seq<Bytes>> {
    if es == [] then
      if route == [] then
        var root :- Build(sha, es);
        Ok([root])
      else Err(BadOrdering)
    else
      var root :- Build(sha, es);
      var rest :- RouteFrom(sha, es, root, route);
      Ok([root] + rest)
  }

  /** Every page below a branch child starts with the parent's prefix and the child's label. */
  predicate Below(p: Page, prefix: Bytes) {
    match p
    case Leaf(es) => forall i :: 0 <= i < |es| ==> prefix <= es[i].name
    case Branch(q, _, _) => prefix <= q
  }

  function VerifyReceivedChild(sha: Hash, parent: Bytes, lbl: byte, received: Bytes): CodecResult<()> {
    var (page, _) :- DecodePage(parent);
    match page
    case Leaf(_) => Err(BadOrdering)
    case Branch(prefix, _, children) =>
      match FindLabel(children, lbl)
      case None => Err(BadOrdering)
      case Some(child) =>
        if PageId(sha, received) != child.pageId then Err(DigestMismatch)
        else
          var (below, total) :- DecodePage(received);
          if total != child.entries then Err(BadOrdering)
          else if !Below(below, prefix + [lbl]) then Err(BadOrdering)
          else Ok(())
  }

  // ----- routes in the canonical tree -----

  function FindGroup(gs: seq<Group>, lbl: byte): (r: Option<Group>)
    ensures r.Some? ==> r.value in gs && r.value.lbl == lbl
    ensures r.None? ==> forall i :: 0 <= i < |gs| ==> gs[i].lbl != lbl
  {
    if gs == [] then None
    else if gs[|gs| - 1].lbl == lbl then Some(gs[|gs| - 1])
    else FindGroup(gs[..|gs| - 1], lbl)
  }

  /** The labels lead from the root page of `es` through existing children. */
  predicate RouteIn(es: seq<Entry>, route: Bytes)
    decreases |es|
  {
    route == []
    || match FindGroup(GroupsOf(es), route[0])
       case None => false
       case Some(g) => RouteIn(g.entries, route[1..])
  }

  /** The root page and the canonical pages of the groups along the route. */
  function RoutePages(sha: Hash, es: seq<Entry>, route: Bytes): seq<Bytes>
    requires RouteIn(es, route) && Input(es)
    decreases |es|
  {
    InputBuilds(sha, es);
    [Build(sha, es).value]
    + if route == [] then []
      else
        var g := FindGroup(GroupsOf(es), route[0]).value;
        GroupInput(sha, es, g);
        RoutePages(sha, g.entries, route[1..])
  }

  lemma InputBuilds(sha: Hash, es: seq<Entry>)
    requires Input(es)
    ensures Build(sha, es).Ok?
  {
    hide Build, Input;
    BuildTotal(sha, es);
  }

  lemma GroupInput(sha: Hash, es: seq<Entry>, g: Group)
    requires Input(es) && g in GroupsOf(es)
    ensures Input(g.entries)
  {
    hide Input;
    if !FitsLeaf(es) {
      BranchShape(sha, es);
    }
  }

  // ----- selecting a group -----

  lemma {:induction false} SelectConcat(a: seq<Entry>, b: seq<Entry>, p: Bytes, lbl: byte)
    requires Select(a, p, lbl).Ok? && Select(b, p, lbl).Ok?
    ensures Select(a + b, p, lbl) == Ok(Select(a, p, lbl).value + Select(b, p, lbl).value)
  {
    if a == [] {
      assert a + b == b && [] + Select(b, p, lbl).value == Select(b, p, lbl).value;
    } else {
      SelectConcat(a[1..], b, p, lbl);
      assert (a + b)[1..] == a[1..] + b && (a + b)[0] == a[0];
      Assoc([a[0]], Select(a[1..], p, lbl).value, Select(b, p, lbl).value);
    }
  }

  /** A group is selected by its own label, and skipped by any other. */
  lemma {:induction false} SelectGroup(es: seq<Entry>, p: Bytes, own: byte, lbl: byte)
    requires forall i :: 0 <= i < |es| ==> p + [own] <= es[i].name
    ensures Select(es, p, lbl) == Ok(if own == lbl then es else [])
  {
    if es != [] {
      var e := es[0];
      PrefixOfConcat(p, [own], e.name);
      assert e.name[..|p|] == p && e.name[|p|] == own && |e.name| > |p|;
      SelectGroup(es[1..], p, own, lbl);
      assert [e] + es[1..] == es;
    }
  }

  lemma {:induction false} SelectFlat(gs: seq<Group>, p: Bytes, lbl: byte)
    requires Partition(gs, Flatten(gs), p)
    ensures Select(Flatten(gs), p, lbl) ==
            Ok(match FindGroup(gs, lbl) { case None => [] case Some(g) => g.entries })
  {
    hide Select;
    if gs == [] {
      SelectNothing(p, lbl);
    } else {
      var n := |gs| - 1;
      var g := gs[n];
      InitPartition(gs, p);
      SelectFlat(gs[..n], p, lbl);
      assert GroupOk(g, p);
      SelectGroup(g.entries, p, g.lbl, lbl);
      SelectConcat(Flatten(gs[..n]), g.entries, p, lbl);
      if g.lbl == lbl {
        forall i | 0 <= i < n ensures gs[..n][i].lbl != lbl {
          LabelsPairwise(gs, p, i, n);
        }
        assert FindGroup(gs[..n], lbl) == None;
        assert [] + g.entries == g.entries;
      } else {
        assert Select(Flatten(gs[..n]), p, lbl).value + [] == Select(Flatten(gs[..n]), p, lbl).value;
      }
    }
  }

  lemma SelectNothing(p: Bytes, lbl: byte)
    ensures Select([], p, lbl) == Ok([])
  {
  }

  lemma InitPartition(gs: seq<Group>, p: Bytes)
    requires gs != [] && Partition(gs, Flatten(gs), p)
    ensures Partition(gs[..|gs| - 1], Flatten(gs[..|gs| - 1]), p)
  {
    hide GroupOk;
    var n := |gs| - 1;
    forall i | 0 <= i < n ensures GroupOk(gs[..n][i], p) {
      assert GroupOk(gs[i], p);
    }
    forall i | 0 <= i < n - 1 ensures gs[..n][i].lbl < gs[..n][i + 1].lbl {
      assert gs[i].lbl < gs[i + 1].lbl;
    }
  }

  lemma {:induction false} LabelsPairwise(gs: seq<Group>, p: Bytes, i: nat, j: nat)
    requires Partition(gs, Flatten(gs), p) && i < j < |gs|
    ensures gs[i].lbl < gs[j].lbl
    decreases j
  {
    hide GroupOk;
    if i + 1 < j {
      LabelsPairwise(gs, p, i, j - 1);
    }
  }

  /** The repartition loop finds exactly the group that `build` made for the label. */
  lemma SelectFindsGroup(es: seq<Entry>, p: Bytes, gs: seq<Group>, lbl: byte)
    requires es != [] && Partition(gs, Body(es, p), p)
    ensures Select(es, p, lbl) == Ok(match FindGroup(gs, lbl) { case None => [] case Some(g) => g.entries })
  {
    hide GroupOk;
    SelectFlat(gs, p, lbl);
  }

  lemma {:induction false} FindLabelMatches(sha: Hash, cs: seq<BranchChild>, gs: seq<Group>, p: Bytes, lbl: byte)
    requires ChildrenOf(sha, cs, gs) && Partition(gs, Flatten(gs), p)
    ensures FindLabel(cs, lbl).Some? <==> FindGroup(gs, lbl).Some?
    ensures FindGroup(gs, lbl).Some? ==> ChildOf(sha, FindLabel(cs, lbl).value, FindGroup(gs, lbl).value)
  {
    hide Build, GroupOk;
    FindLabelAt(cs, lbl);
    forall i | 0 <= i < |cs| ensures cs[i].lbl == gs[i].lbl {
      assert ChildOf(sha, cs[i], gs[i]);
    }
    if FindGroup(gs, lbl).Some? && FindLabel(cs, lbl).Some? {
      var i :| 0 <= i < |gs| && gs[i] == FindGroup(gs, lbl).value;
      var j :| 0 <= j < |cs| && cs[j] == FindLabel(cs, lbl).value && cs[j].lbl == lbl;
      if i < j { LabelsPairwise(gs, p, i, j); }
      if j < i { LabelsPairwise(gs, p, j, i); }
      assert ChildOf(sha, cs[i], gs[i]);
    }
  }

  lemma {:induction false} FindLabelAt(cs: seq<BranchChild>, lbl: byte)
    ensures FindLabel(cs, lbl).Some?
            ==> exists i :: 0 <= i < |cs| && cs[i] == FindLabel(cs, lbl).value && cs[i].lbl == lbl
    ensures FindLabel(cs, lbl).None? ==> forall i :: 0 <= i < |cs| ==> cs[i].lbl != lbl
  {
    if cs != [] && cs[0].lbl != lbl {
      FindLabelAt(cs[1..], lbl);
      if FindLabel(cs, lbl).Some? {
        var i :| 0 <= i < |cs[1..]| && cs[1..][i] == FindLabel(cs, lbl).value && cs[1..][i].lbl == lbl;
        assert cs[i + 1] == cs[1..][i];
      } else {
        assert forall i :: 1 <= i < |cs| ==> cs[i] == cs[1..][i - 1];
      }
    }
  }

  // ----- the built page, decoded -----

  /** The root page of a built tree decodes to itself, up to unencoded fields. */
  lemma BuiltPageDecodes(sha: Hash, es: seq<Entry>)
    requires Input(es)
    ensures BuildPage(sha, es).Ok? && Build(sha, es).Ok?
    ensures DecodePage(Build(sha, es).value) == Ok((NormalisePage(BuildPage(sha, es).value), |es|))
    ensures BuildPage(sha, es).value.Leaf? <==> FitsLeaf(es)
    ensures FitsLeaf(es) ==> BuildPage(sha, es).value == Leaf(es)
  {
    hide Build, BuildPage, Input, DecodePage, EncodePage, FitsLeaf;
    BuildTotal(sha, es);
    LeafPageIffFits(sha, es);
    var page := BuildPage(sha, es).value;
    EncodePageMeans(page);
    EncodeNormalisedPage(page);
    DecodeOfEncode(NormalisePage(page));
  }

  /** What one step of a descent finds at the root page of `es`. */
  lemma StepFinds(sha: Hash, es: seq<Entry>, lbl: byte)
    requires Input(es) && !FitsLeaf(es)
    ensures es != [] && Build(sha, es).Ok? && DecodePage(Build(sha, es).value).Ok?
    ensures DecodePage(Build(sha, es).value).value.0.Branch?
    ensures var Branch(p, _, cs) := DecodePage(Build(sha, es).value).value.0;
            && PrefixOfAll(p, NamesOf(es))
            && Select(es, p, lbl)
                == Ok(match FindGroup(GroupsOf(es), lbl) { case None => [] case Some(g) => g.entries })
            && (FindLabel(cs, lbl).Some? <==> FindGroup(GroupsOf(es), lbl).Some?)
            && (FindGroup(GroupsOf(es), lbl).Some? ==>
                  var g := FindGroup(GroupsOf(es), lbl).value;
                  Input(g.entries) && GroupOk(g, p) && ChildOf(sha, FindLabel(cs, lbl).value, g))
  {
    hide Build, BuildPage, Input, DecodePage, FitsLeaf, GroupsOf, ChildrenOf, ChildOf, GroupOk, Select;
    BuiltPageDecodes(sha, es);
    BranchShape(sha, es);
    var Branch(p, terminal, cs) := BuildPage(sha, es).value;
    var gs := GroupsOf(es);
    SelectFindsGroup(es, p, gs, lbl);
    FindLabelMatches(sha, cs, gs, p, lbl);
    if FindGroup(gs, lbl).Some? {
      var i :| 0 <= i < |gs| && gs[i] == FindGroup(gs, lbl).value;
      assert GroupOk(gs[i], p);
    }
  }

  lemma GroupNotEmpty(g: Group, p: Bytes)
    requires GroupOk(g, p)
    ensures g.entries != []
  {
  }

  lemma ChildIdIs(sha: Hash, c: BranchChild, g: Group)
    requires ChildOf(sha, c, g)
    ensures Build(sha, g.entries).Ok? && PageId(sha, Build(sha, g.entries).value) == c.pageId
            && c.entries == |g.entries|
  {
  }

  /** The pages below the root, whenever the route exists; otherwise an ordering error, never a digest mismatch. */
  lemma {:induction false} RouteFromMeans(sha: Hash, es: seq<Entry>, route: Bytes)
    requires Input(es) && Build(sha, es).Ok?
    ensures RouteFrom(sha, es, Build(sha, es).value, route) ==
            if RouteIn(es, route) then Ok(RoutePages(sha, es, route)[1..]) else Err(BadOrdering)
    decreases |es|
  {
    hide Build, BuildPage, Input, DecodePage, FitsLeaf, Select, ChildOf, GroupOk, PageId;
    if route != [] {
      if FitsLeaf(es) {
        BuiltPageDecodes(sha, es);
        assert GroupsOf(es) == [];
      } else {
        var lbl := route[0];
        StepFinds(sha, es, lbl);
        var Branch(p, _, cs) := DecodePage(Build(sha, es).value).value.0;
        if FindGroup(GroupsOf(es), lbl).Some? {
          var g := FindGroup(GroupsOf(es), lbl).value;
          GroupNotEmpty(g, p);
          ChildIdIs(sha, FindLabel(cs, lbl).value, g);
          RouteFromMeans(sha, g.entries, route[1..]);
          if RouteIn(g.entries, route[1..]) {
            var below := RoutePages(sha, g.entries, route[1..]);
            assert below == [Build(sha, g.entries).value] + below[1..];
          }
        }
      }
    }
  }

  /** `pages_along_route` succeeds exactly on the routes of the canonical tree, and returns its pages. */
  lemma PagesAlongRouteMeans(sha: Hash, es: seq<Entry>, route: Bytes)
    requires Input(es)
    ensures PagesAlongRoute(sha, es, route) ==
            if RouteIn(es, route) then Ok(RoutePages(sha, es, route)) else Err(BadOrdering)
  {
    hide Build, Input, RouteFrom;
    InputBuilds(sha, es);
    RouteFromMeans(sha, es, route);
    if es == [] {
      EmptyFitsLeaf();
      assert GroupsOf(es) == [];
    }
    if RouteIn(es, route) {
      var pages := RoutePages(sha, es, route);
      assert pages == [Build(sha, es).value] + pages[1..];
      if es == [] {
        assert route == [] && pages == [Build(sha, es).value];
      }
    }
  }

  // ----- received children -----

  /** The child `c` speaks for the received page: same id, same count, and only names that start with `q`. */
  ghost predicate SpeaksFor(sha: Hash, c: BranchChild, q: Bytes, received: Bytes) {
    && PageId(sha, received) == c.pageId
    && DecodePage(received).Ok?
    && var (page, total) := DecodePage(received).value;
       && total == c.entries
       && match page
          case Leaf(es) => forall e :: e in es ==> q <= e.name
          case Branch(prefix, _, _) => q <= prefix
  }

  /** Whatever the two byte strings are: acceptance means a branch that has a child under the label to speak for it. */
  lemma VerifyMeans(sha: Hash, parent: Bytes, lbl: byte, received: Bytes)
    ensures VerifyReceivedChild(sha, parent, lbl, received) == Ok(()) <==>
              && DecodePage(parent).Ok? && DecodePage(parent).value.0.Branch?
              && var page := DecodePage(parent).value.0;
                 exists c :: c in page.children && c.lbl == lbl && SpeaksFor(sha, c, page.prefix + [lbl], received)
  {
    hide DecodePage, PageId, FindLabel, Below;
    if DecodePage(parent).Ok? && DecodePage(parent).value.0.Branch? {
      var page := DecodePage(parent).value.0;
      DecodedLabels(parent);
      forall c ensures c in page.children && c.lbl == lbl <==> FindLabel(page.children, lbl) == Some(c) {
        FoundIsOnly(page.children, lbl, c);
      }
      if DecodePage(received).Ok? {
        BelowMeans(DecodePage(received).value.0, page.prefix + [lbl]);
      }
    }
  }

  lemma BelowMeans(p: Page, q: Bytes)
    ensures Below(p, q) <==>
            match p
            case Leaf(es) => forall e :: e in es ==> q <= e.name
            case Branch(prefix, _, _) => q <= prefix
  {
  }

  lemma FoundIsOnly(cs: seq<BranchChild>, lbl: byte, c: BranchChild)
    requires LabelsAscend(cs)
    ensures FindLabel(cs, lbl) == Some(c) <==> c in cs && c.lbl == lbl
  {
    FindLabelAt(cs, lbl);
    if c in cs && c.lbl == lbl {
      var i :| 0 <= i < |cs| && cs[i] == c;
      var j :| 0 <= j < |cs| && cs[j] == FindLabel(cs, lbl).value && cs[j].lbl == lbl;
      if i < j { LabelsDiffer(cs, i, j); }
      if j < i { LabelsDiffer(cs, j, i); }
    }
  }

  lemma DecodedLabels(b: Bytes)
    requires DecodePage(b).Ok? && DecodePage(b).value.0.Branch?
    ensures LabelsAscend(DecodePage(b).value.0.children)
  {
    hide DecodePage, EncodePage, PageBytes;
    EncodeOfDecode(b);
    EncodePageMeans(DecodePage(b).value.0);
  }

  lemma {:induction false} LabelsDiffer(cs: seq<BranchChild>, i: nat, j: nat)
    requires LabelsAscend(cs) && i < j < |cs|
    ensures cs[i].lbl < cs[j].lbl
    decreases j
  {
    if i + 1 < j {
      LabelsDiffer(cs, i, j - 1);
    }
  }

  /** Everything in a group's own page starts with the prefix and label that selected it. */
  lemma GroupPageBelow(sha: Hash, g: Group, p: Bytes)
    requires GroupOk(g, p) && Input(g.entries)
    ensures BuildPage(sha, g.entries).Ok?
    ensures Below(NormalisePage(BuildPage(sha, g.entries).value), p + [g.lbl])
  {
    hide Build, BuildPage, Input, FitsLeaf, Partition, ChildrenOf, Normalise;
    var es := g.entries;
    BuildTotal(sha, es);
    LeafPageIffFits(sha, es);
    if FitsLeaf(es) {
      forall i | 0 <= i < |es| ensures p + [g.lbl] <= NormaliseAll(es)[i].name {
        NormaliseKeepsName(es[i]);
      }
    } else {
      BranchShape(sha, es);
      BranchPrefixIsLcp(sha, es);
      LcpMeans(NamesOf(es), p + [g.lbl]);
    }
  }

  lemma NormaliseKeepsName(e: Entry)
    ensures Normalise(e).name == e.name
  {
  }

  lemma BranchPrefixIsLcp(sha: Hash, es: seq<Entry>)
    requires BuildPage(sha, es).Ok? && BuildPage(sha, es).value.Branch? && es != []
    ensures BuildPage(sha, es).value.prefix == Lcp(NamesOf(es))
  {
    hide FitsLeaf, CheckInput, Lcp, BuildChildren;
    assert Split(es).Ok? && BuildPage(sha, es).value.prefix == Split(es).value.0;
  }

  /** Every step of an existing route is accepted by the receiver. */
  lemma StepIsAccepted(sha: Hash, es: seq<Entry>, lbl: byte)
    requires Input(es) && FindGroup(GroupsOf(es), lbl).Some?
    ensures var g := FindGroup(GroupsOf(es), lbl).value;
            && Build(sha, es).Ok? && Build(sha, g.entries).Ok?
            && VerifyReceivedChild(sha, Build(sha, es).value, lbl, Build(sha, g.entries).value) == Ok(())
  {
    hide Build, BuildPage, Input, DecodePage, FitsLeaf, Select, ChildOf, GroupOk, PageId, Below;
    assert !FitsLeaf(es);
    StepFinds(sha, es, lbl);
    var g := FindGroup(GroupsOf(es), lbl).value;
    var Branch(p, _, cs) := DecodePage(Build(sha, es).value).value.0;
    ChildIdIs(sha, FindLabel(cs, lbl).value, g);
    BuiltPageDecodes(sha, g.entries);
    GroupPageBelow(sha, g, p);
  }

  /** Each adjacent pair of pages returned for a route passes the received-child check for its label. */
  lemma {:induction false} RoutePagesVerify(sha: Hash, es: seq<Entry>, route: Bytes, i: nat)
    requires Input(es) && RouteIn(es, route) && i < |route|
    ensures |RoutePages(sha, es, route)| == |route| + 1
    ensures VerifyReceivedChild(sha, RoutePages(sha, es, route)[i], route[i], RoutePages(sha, es, route)[i + 1])
            == Ok(())
    decreases |es|
  {
    hide Build, Input, VerifyReceivedChild, GroupsOf;
    var g := FindGroup(GroupsOf(es), route[0]).value;
    GroupInput(sha, es, g);
    StepIsAccepted(sha, es, route[0]);
    var below := RoutePages(sha, g.entries, route[1..]);
    assert RoutePages(sha, es, route) == [Build(sha, es).value] + below;
    assert below[0] == Build(sha, g.entries).value;
    if i > 0 {
      RoutePagesVerify(sha, g.entries, route[1..], i - 1);
    } else if |route| > 1 {
      RoutePagesVerify(sha, g.entries, route[1..], 0);
    }
  }

  /** Tampering is detected: without a collision the only accepted child is the canonical one. */
  lemma AcceptedIsCanonical(sha: Hash, es: seq<Entry>, lbl: byte, received: Bytes)
    requires Input(es) && Build(sha, es).Ok?
    requires VerifyReceivedChild(sha, Build(sha, es).value, lbl, received).Ok?
    requires CollisionFree(sha, PagePreimages(sha, es) + {PAGE_DOMAIN + received})
    ensures FindGroup(GroupsOf(es), lbl).Some?
    ensures Build(sha, FindGroup(GroupsOf(es), lbl).value.entries) == Ok(received)
  {
    hide Build, BuildPage, Input, DecodePage, FitsLeaf, Select, ChildOf, GroupOk, Below, GroupsOf, PagePreimages;
    BuiltPageDecodes(sha, es);
    if !FitsLeaf(es) {
      StepFinds(sha, es, lbl);
      var g := FindGroup(GroupsOf(es), lbl).value;
      var Branch(p, _, cs) := DecodePage(Build(sha, es).value).value.0;
      ChildIdIs(sha, FindLabel(cs, lbl).value, g);
      KidPages(sha, es, g);
      var b := Build(sha, g.entries).value;
      OwnPage(sha, g.entries);
      assert sha(PAGE_DOMAIN + b) == sha(PAGE_DOMAIN + received);
      PreimageInjective(b, received);
    }
  }

  lemma OwnPage(sha: Hash, es: seq<Entry>)
    requires Build(sha, es).Ok?
    ensures PAGE_DOMAIN + Build(sha, es).value in PagePreimages(sha, es)
  {
    hide Build;
    assert Build(sha, es).value in Pages(sha, es);
  }

  // ----- whole routes, as a receiver checks them -----

  /**
   * Pages received for a route: the first has the trusted root id, each other passes the check under the one
   * before it.
   */
  ghost predicate AcceptedChain(sha: Hash, rootId: Digest, route: Bytes, pages: seq<Bytes>) {
    && |pages| == |route| + 1
    && PageId(sha, pages[0]) == rootId
    && forall i :: 0 <= i < |route| ==> VerifyReceivedChild(sha, pages[i], route[i], pages[i + 1]) == Ok(())
  }

  function ReceivedPreimages(pages: seq<Bytes>): set<Bytes> {
    set b | b in pages :: PAGE_DOMAIN + b
  }

  /** End to end: without a collision a receiver accepts exactly the canonical pages of exactly the existing routes. */
  lemma ChainIsCanonical(sha: Hash, es: seq<Entry>, route: Bytes, pages: seq<Bytes>)
    requires Input(es) && Build(sha, es).Ok?
    requires CollisionFree(sha, PagePreimages(sha, es) + ReceivedPreimages(pages))
    ensures AcceptedChain(sha, PageId(sha, Build(sha, es).value), route, pages)
            <==> RouteIn(es, route) && pages == RoutePages(sha, es, route)
  {
    hide Build, Input, VerifyReceivedChild, RouteIn, RoutePages, PageId;
    if AcceptedChain(sha, PageId(sha, Build(sha, es).value), route, pages) {
      ChainIsRoute(sha, es, route, pages);
    }
    if RouteIn(es, route) && pages == RoutePages(sha, es, route) {
      RouteIsChain(sha, es, route);
    }
  }

  lemma RouteIsChain(sha: Hash, es: seq<Entry>, route: Bytes)
    requires Input(es) && RouteIn(es, route) && Build(sha, es).Ok?
    ensures AcceptedChain(sha, PageId(sha, Build(sha, es).value), route, RoutePages(sha, es, route))
  {
    hide Build, Input, VerifyReceivedChild, GroupsOf, PageId;
    var pages := RoutePages(sha, es, route);
    assert pages[0] == Build(sha, es).value;
    if route != [] {
      RoutePagesVerify(sha, es, route, 0);
    }
    forall i | 0 <= i < |route| ensures VerifyReceivedChild(sha, pages[i], route[i], pages[i + 1]) == Ok(()) {
      RoutePagesVerify(sha, es, route, i);
    }
  }

  lemma {:induction false} ChainIsRoute(sha: Hash, es: seq<Entry>, route: Bytes, pages: seq<Bytes>)
    requires Input(es) && Build(sha, es).Ok?
    requires AcceptedChain(sha, PageId(sha, Build(sha, es).value), route, pages)
    requires CollisionFree(sha, PagePreimages(sha, es) + ReceivedPreimages(pages))
    ensures RouteIn(es, route) && pages == RoutePages(sha, es, route)
    decreases |es|
  {
    hide Build, Input, GroupsOf, PagePreimages, FindGroup, AcceptedChain, CollisionFree, RouteIn, RoutePages, PageId,
         ReceivedPreimages;
    ChainStarts(sha, es, route, pages);
    if route == [] {
      RouteEnds(sha, es);
      assert pages == [pages[0]];
    } else {
      var g := ChainStep(sha, es, route, pages);
      ChainIsRoute(sha, g.entries, route[1..], pages[1..]);
      RouteGoesOn(sha, es, route, g);
      assert pages == [pages[0]] + pages[1..];
    }
  }

  /** The first page of an accepted chain is the canonical root page. */
  lemma ChainStarts(sha: Hash, es: seq<Entry>, route: Bytes, pages: seq<Bytes>)
    requires Build(sha, es).Ok?
    requires AcceptedChain(sha, PageId(sha, Build(sha, es).value), route, pages)
    requires CollisionFree(sha, PagePreimages(sha, es) + ReceivedPreimages(pages))
    ensures |pages| == |route| + 1 && pages[0] == Build(sha, es).value
  {
    hide Build, VerifyReceivedChild, PagePreimages;
    assert pages[0] in pages;
    OwnPage(sha, es);
    PreimageInjective(pages[0], Build(sha, es).value);
  }

  lemma RouteEnds(sha: Hash, es: seq<Entry>)
    requires Input(es) && Build(sha, es).Ok?
    ensures RouteIn(es, []) && RoutePages(sha, es, []) == [Build(sha, es).value]
  {
    hide Build, Input, GroupsOf, FindGroup;
    InputBuilds(sha, es);
  }

  lemma RouteGoesOn(sha: Hash, es: seq<Entry>, route: Bytes, g: Group)
    requires Input(es) && Build(sha, es).Ok? && Input(g.entries) && route != [] && |g.entries| < |es|
    requires FindGroup(GroupsOf(es), route[0]) == Some(g) && RouteIn(g.entries, route[1..])
    ensures RouteIn(es, route)
    ensures RoutePages(sha, es, route) == [Build(sha, es).value] + RoutePages(sha, g.entries, route[1..])
  {
    hide Build, Input, GroupsOf, FindGroup;
    InputBuilds(sha, es);
  }

  /** The second page of an accepted chain is the canonical one, and the rest is a chain below it. */
  lemma ChainStep(sha: Hash, es: seq<Entry>, route: Bytes, pages: seq<Bytes>) returns (g: Group)
    requires Input(es) && Build(sha, es).Ok? && route != []
    requires AcceptedChain(sha, PageId(sha, Build(sha, es).value), route, pages) && pages[0] == Build(sha, es).value
    requires CollisionFree(sha, PagePreimages(sha, es) + ReceivedPreimages(pages))
    ensures FindGroup(GroupsOf(es), route[0]) == Some(g) && Input(g.entries) && |g.entries| < |es|
    ensures Build(sha, g.entries).Ok?
            && AcceptedChain(sha, PageId(sha, Build(sha, g.entries).value), route[1..], pages[1..])
    ensures CollisionFree(sha, PagePreimages(sha, g.entries) + ReceivedPreimages(pages[1..]))
  {
    hide Build, Input, VerifyReceivedChild, GroupsOf, PagePreimages, FindGroup, PageId;
    assert pages[1] in pages;
    assert VerifyReceivedChild(sha, pages[0], route[0], pages[1]) == Ok(());
    AcceptedIsCanonical(sha, es, route[0], pages[1]);
    g := FindGroup(GroupsOf(es), route[0]).value;
    GroupInput(sha, es, g);
    KidPages(sha, es, g);
    var tail := pages[1..];
    assert ReceivedPreimages(tail) <= ReceivedPreimages(pages);
    forall i | 0 <= i < |route[1..]| ensures VerifyReceivedChild(sha, tail[i], route[1..][i], tail[i + 1]) == Ok(()) {
      assert VerifyReceivedChild(sha, pages[i + 1], route[i + 1], pages[i + 2]) == Ok(());
    }
  }
}
