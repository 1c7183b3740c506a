/** The pages of a canonical tree, and what its root page id commits to. */
module MetaCommit {
  import opened Base
  import opened MetaEntry
  import opened MetaPage
  import opened MetaDecode
  import opened MetaBuild
  import opened MetaPartition

  /** The groups under the root page; a leaf has none. */
  function GroupsOf(es: seq<Entry>): (gs: seq<Group>)
    ensures forall g :: g in gs ==> |g.entries| < |es|
  {
    if FitsLeaf(es) then []
    else
      EmptyFitsLeaf();
      match Split(es)
      case Err(_) => []
      case Ok((_, _, gs)) => gs
  }

  /** Every page of the canonical tree over `es`. */
  function Pages(sha: Hash, es: seq<Entry>): set<Bytes>
    decreases |es|
  {
    (if Build(sha, es).Ok? then {Build(sha, es).value} else {})
    + set g, b | g in GroupsOf(es) && b in Pages(sha, g.entries) :: b
  }

  /** The strings hashed into page ids. */
  function PagePreimages(sha: Hash, es: seq<Entry>): set<Bytes> {
    set b | b in Pages(sha, es) :: PAGE_DOMAIN + b
  }

  /** The shape of a branch over an oversized list. */
  lemma BranchShape(sha: Hash, es: seq<Entry>)
    requires Input(es) && !FitsLeaf(es)
    ensures es != [] && BuildPage(sha, es).Ok? && BuildPage(sha, es).value.Branch?
    ensures var Branch(p, terminal, cs) := BuildPage(sha, es).value;
            && terminal == (if es[0].name == p then Some(es[0]) else None)
            && Partition(GroupsOf(es), Body(es, p), p)
            && ChildrenOf(sha, cs, GroupsOf(es))
            && PrefixOfAll(p, NamesOf(es))
    ensures forall g :: g in GroupsOf(es) ==> Input(g.entries)
  {
    hide Partition, Split, Input, FitsLeaf, ChildrenOf, Build, CheckInput;
    OversizedHasTwo(es);
    InputSorted(es);
    CheckInputMeans(es, None);
    SplitMeans(es);
    var (p, terminal, gs) := Split(es).value;
    forall g | g in gs ensures Input(g.entries) {
      var i :| 0 <= i < |gs| && gs[i] == g;
      GroupIsInput(es, gs, p, i);
    }
    ChildrenTotal(sha, gs, |es|);
  }

  lemma InputSorted(es: seq<Entry>)
    requires Input(es)
    ensures Ascends(es) && AllValid(es)
  {
  }

  /** No page of the tree exceeds the page limit, and every one decodes. */
  lemma {:induction false} PagesFit(sha: Hash, es: seq<Entry>, b: Bytes)
    requires Input(es) && b in Pages(sha, es)
    ensures |b| <= PAGE_MAX_BYTES && DecodePage(b).Ok?
    decreases |es|
  {
    hide Build, BuildPage, Input, DecodePage, EncodePage, FitsLeaf;
    BuildTotal(sha, es);
    if Build(sha, es) == Ok(b) {
      var page := BuildPage(sha, es).value;
      EncodePageMeans(page);
      EncodeNormalisedPage(page);
      DecodeOfEncode(NormalisePage(page));
    } else {
      var g :| g in GroupsOf(es) && b in Pages(sha, g.entries);
      assert !FitsLeaf(es);
      BranchShape(sha, es);
      PagesFit(sha, g.entries, b);
    }
  }

  // ----- the root page id commits to the entries -----

  lemma {:induction false} FlattenNormal(gs: seq<Group>, hs: seq<Group>)
    requires |gs| == |hs|
    requires forall i :: 0 <= i < |gs| ==> NormaliseAll(gs[i].entries) == NormaliseAll(hs[i].entries)
    ensures NormaliseAll(Flatten(gs)) == NormaliseAll(Flatten(hs))
  {
    hide NormaliseAll;
    if gs != [] {
      var n := |gs| - 1;
      FlattenNormal(gs[..n], hs[..n]);
      NormaliseConcat(Flatten(gs[..n]), gs[n].entries);
      NormaliseConcat(Flatten(hs[..n]), hs[n].entries);
    }
  }

  lemma NormaliseConcat(a: seq<Entry>, b: seq<Entry>)
    ensures NormaliseAll(a + b) == NormaliseAll(a) + NormaliseAll(b)
  {
    hide Normalise;
  }

  lemma KidPages(sha: Hash, es: seq<Entry>, g: Group)
    requires g in GroupsOf(es)
    ensures PagePreimages(sha, g.entries) <= PagePreimages(sha, es)
  {
    hide Build, GroupsOf;
    forall b | b in Pages(sha, g.entries) ensures b in Pages(sha, es) {
    }
  }

  lemma PreimageInjective(a: Bytes, b: Bytes)
    requires PAGE_DOMAIN + a == PAGE_DOMAIN + b
    ensures a == b
  {
    assert (PAGE_DOMAIN + a)[|PAGE_DOMAIN|..] == a && (PAGE_DOMAIN + b)[|PAGE_DOMAIN|..] == b;
  }

  /** Equal page ids of two built roots mean equal root pages, up to unencoded fields. */
  lemma SameIdSamePage(sha: Hash, es: seq<Entry>, fs: seq<Entry>)
    requires Input(es) && Input(fs)
    requires CollisionFree(sha, PagePreimages(sha, es) + PagePreimages(sha, fs))
    requires Build(sha, es).Ok? && Build(sha, fs).Ok?
    requires PageId(sha, Build(sha, es).value) == PageId(sha, Build(sha, fs).value)
    ensures BuildPage(sha, es).Ok? && BuildPage(sha, fs).Ok?
    ensures NormalisePage(BuildPage(sha, es).value) == NormalisePage(BuildPage(sha, fs).value)
  {
    hide Build, BuildPage, Input, EncodePage, GroupsOf;
    var a, b := Build(sha, es).value, Build(sha, fs).value;
    assert a in Pages(sha, es) && b in Pages(sha, fs);
    assert PAGE_DOMAIN + a in PagePreimages(sha, es) && PAGE_DOMAIN + b in PagePreimages(sha, fs);
    PreimageInjective(a, b);
    BuildTotal(sha, es);
    BuildTotal(sha, fs);
    EncodePageMeans(BuildPage(sha, es).value);
    EncodePageMeans(BuildPage(sha, fs).value);
    PageBytesInjective(BuildPage(sha, es).value, BuildPage(sha, fs).value);
  }

  lemma LeafPageIffFits(sha: Hash, es: seq<Entry>)
    requires BuildPage(sha, es).Ok?
    ensures BuildPage(sha, es).value.Leaf? <==> FitsLeaf(es)
    ensures FitsLeaf(es) ==> BuildPage(sha, es).value == Leaf(es)
  {
    hide FitsLeaf;
  }

  /** Commitment: unless two pages collide, equal root page ids mean equal directories. */
  lemma {:induction false} BuildCommits(sha: Hash, es: seq<Entry>, fs: seq<Entry>)
    requires Input(es) && Input(fs)
    requires CollisionFree(sha, PagePreimages(sha, es) + PagePreimages(sha, fs))
    requires Build(sha, es).Ok? && Build(sha, fs).Ok?
    requires PageId(sha, Build(sha, es).value) == PageId(sha, Build(sha, fs).value)
    ensures NormaliseAll(es) == NormaliseAll(fs)
    decreases |es|
  {
    hide Build, BuildPage, Input, GroupsOf, Partition, FitsLeaf, PagePreimages, NormaliseAll;
    SameIdSamePage(sha, es, fs);
    LeafPageIffFits(sha, es);
    LeafPageIffFits(sha, fs);
    if !FitsLeaf(es) {
      BranchShape(sha, es);
      BranchShape(sha, fs);
      var gs, hs := GroupsOf(es), GroupsOf(fs);
      var Branch(p, terminal, cs) := BuildPage(sha, es).value;
      forall i | 0 <= i < |gs| ensures NormaliseAll(gs[i].entries) == NormaliseAll(hs[i].entries) {
        assert ChildOf(sha, cs[i], gs[i]) && ChildOf(sha, cs[i], hs[i]);
        KidPages(sha, es, gs[i]);
        KidPages(sha, fs, hs[i]);
        BuildCommits(sha, gs[i].entries, hs[i].entries);
      }
      FlattenNormal(gs, hs);
      SamePartsSameList(es, fs, p, gs, hs);
    }
  }

  lemma SamePartsSameList(es: seq<Entry>, fs: seq<Entry>, p: Bytes, gs: seq<Group>, hs: seq<Group>)
    requires es != [] && fs != []
    requires Partition(gs, Body(es, p), p) && Partition(hs, Body(fs, p), p)
    requires NormaliseAll(Flatten(gs)) == NormaliseAll(Flatten(hs))
    requires es[0].name == p <==> fs[0].name == p
    requires es[0].name == p ==> Normalise(es[0]) == Normalise(fs[0])
    ensures NormaliseAll(es) == NormaliseAll(fs)
  {
    hide Normalise, GroupOk, NormaliseAll;
    if es[0].name == p {
      NormaliseCons(es);
      NormaliseCons(fs);
      assert Flatten(gs) == es[1..] && Flatten(hs) == fs[1..];
    } else {
      assert Flatten(gs) == es && Flatten(hs) == fs;
    }
  }

  lemma NormaliseCons(es: seq<Entry>)
    requires es != []
    ensures NormaliseAll(es) == [Normalise(es[0])] + NormaliseAll(es[1..])
  {
    hide Normalise;
  }

  // ----- and depends on nothing else -----

  function NormaliseGroup(g: Group): Group {
    Group(g.lbl, NormaliseAll(g.entries))
  }

  function NormaliseGroups(gs: seq<Group>): (r: seq<Group>)
    ensures |r| == |gs|
    ensures forall i :: 0 <= i < |gs| ==> r[i] == NormaliseGroup(gs[i])
  {
    seq(|gs|, i requires 0 <= i < |gs| => NormaliseGroup(gs[i]))
  }

  lemma AddNormal(acc: seq<Group>, lbl: byte, e: Entry)
    ensures AddToGroups(NormaliseGroups(acc), lbl, Normalise(e)) == NormaliseGroups(AddToGroups(acc, lbl, e))
  {
    hide Normalise;
    if acc != [] && acc[|acc| - 1].lbl == lbl {
      NormaliseConcat(acc[|acc| - 1].entries, [e]);
      assert NormaliseAll([e]) == [Normalise(e)];
    } else {
      assert NormaliseAll([e]) == [Normalise(e)];
    }
  }

  lemma {:induction false} GroupFoldNormal(es: seq<Entry>, p: Bytes, acc: seq<Group>)
    ensures GroupFold(NormaliseAll(es), p, NormaliseGroups(acc)) ==
            match GroupFold(es, p, acc) { case Err(e) => Err(e) case Ok(gs) => Ok(NormaliseGroups(gs)) }
  {
    hide AddToGroups;
    if es != [] {
      assert NormaliseAll(es)[1..] == NormaliseAll(es[1..]);
      assert NormaliseAll(es)[0].name == es[0].name;
      if es[0].name == p {
        GroupFoldNormal(es[1..], p, acc);
      } else if |es[0].name| > |p| {
        AddNormal(acc, es[0].name[|p|], es[0]);
        GroupFoldNormal(es[1..], p, AddToGroups(acc, es[0].name[|p|], es[0]));
      }
    }
  }

  lemma {:induction false} FindTerminalNormal(es: seq<Entry>, p: Bytes)
    ensures FindTerminal(NormaliseAll(es), p) ==
            match FindTerminal(es, p) { case None => None case Some(e) => Some(Normalise(e)) }
  {
    if es != [] {
      assert NormaliseAll(es)[1..] == NormaliseAll(es[1..]);
      assert NormaliseAll(es)[0].name == es[0].name;
      FindTerminalNormal(es[1..], p);
    }
  }

  lemma {:induction false} CheckInputNormal(es: seq<Entry>, prev: Option<Bytes>)
    ensures CheckInput(NormaliseAll(es), prev) == CheckInput(es, prev)
  {
    if es != [] {
      hide Validate, Less;
      assert NormaliseAll(es)[1..] == NormaliseAll(es[1..]);
      assert NormaliseAll(es)[0].name == es[0].name;
      EncodeNormalised(es[0]);
      CheckInputNormal(es[1..], Some(es[0].name));
    }
  }

  lemma SplitNormal(es: seq<Entry>)
    requires es != []
    ensures Split(NormaliseAll(es)) ==
            match Split(es) {
              case Err(e) => Err(e)
              case Ok((p, terminal, gs)) =>
                Ok((p, match terminal { case None => None case Some(e) => Some(Normalise(e)) }, NormaliseGroups(gs)))
            }
  {
    hide Lcp, GroupFold, FindTerminal, Normalise;
    assert NamesOf(NormaliseAll(es)) == NamesOf(es) by {
      NamesNormal(es);
    }
    var p := Lcp(NamesOf(es));
    GroupFoldNormal(es, p, []);
    assert NormaliseGroups([]) == [];
    FindTerminalNormal(es, p);
  }

  lemma NamesNormal(es: seq<Entry>)
    ensures NamesOf(NormaliseAll(es)) == NamesOf(es)
  {
  }

  lemma FitsLeafNormal(es: seq<Entry>)
    ensures FitsLeaf(NormaliseAll(es)) == FitsLeaf(es)
  {
    hide EncodePage;
    EncodeNormalisedPage(Leaf(es));
  }

  /** The built bytes ignore the unencoded fields of the entries. */
  lemma {:induction false} BuildIgnoresUnencoded(sha: Hash, es: seq<Entry>)
    ensures Build(sha, NormaliseAll(es)) == Build(sha, es)
    decreases |es|, 1
  {
    hide EncodePage, Split, CheckInput, FitsLeaf, Normalise;
    CheckInputNormal(es, None);
    FitsLeafNormal(es);
    if CheckInput(es, None).Ok? {
      if FitsLeaf(es) {
        EncodeNormalisedPage(Leaf(es));
      } else {
        EmptyFitsLeaf();
        SplitNormal(es);
        if Split(es).Ok? {
          var (p, terminal, gs) := Split(es).value;
          ChildrenIgnoreUnencoded(sha, gs, |es|);
          if BuildChildren(sha, gs, |es|).Ok? {
            EncodeNormalisedPage(Branch(p, terminal, BuildChildren(sha, gs, |es|).value));
          }
        }
      }
    }
  }

  lemma {:induction false} ChildrenIgnoreUnencoded(sha: Hash, gs: seq<Group>, bound: nat)
    requires forall g :: g in gs ==> |g.entries| < bound
    ensures forall g :: g in NormaliseGroups(gs) ==> |g.entries| < bound
    ensures BuildChildren(sha, NormaliseGroups(gs), bound) == BuildChildren(sha, gs, bound)
    decreases bound, 0, |gs|
  {
    hide Build;
    forall g | g in NormaliseGroups(gs) ensures |g.entries| < bound {
      var i :| 0 <= i < |gs| && NormaliseGroups(gs)[i] == g;
      assert gs[i] in gs;
    }
    if gs != [] {
      BuildIgnoresUnencoded(sha, gs[0].entries);
      ChildrenIgnoreUnencoded(sha, gs[1..], bound);
      assert NormaliseGroups(gs)[1..] == NormaliseGroups(gs[1..]);
    }
  }

  /** Both directions: the root page ids of two directories agree exactly when the encoded entries do. */
  lemma RootIdsAgreeIffEntriesDo(sha: Hash, es: seq<Entry>, fs: seq<Entry>)
    requires Input(es) && Input(fs)
    requires CollisionFree(sha, PagePreimages(sha, es) + PagePreimages(sha, fs))
    ensures Build(sha, es).Ok? && Build(sha, fs).Ok?
    ensures PageId(sha, Build(sha, es).value) == PageId(sha, Build(sha, fs).value)
            <==> NormaliseAll(es) == NormaliseAll(fs)
  {
    hide Build, Input, NormaliseAll, PagePreimages, CollisionFree;
    BuildTotal(sha, es);
    BuildTotal(sha, fs);
    BuildIgnoresUnencoded(sha, es);
    BuildIgnoresUnencoded(sha, fs);
    if PageId(sha, Build(sha, es).value) == PageId(sha, Build(sha, fs).value) {
      BuildCommits(sha, es, fs);
    }
  }
}
