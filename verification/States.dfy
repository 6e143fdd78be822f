/**
  The state of a document between two calls, and what every edit keeps of it.
 */
module States {
  import opened Parser
  import opened RoundTrip
  import opened Index
  import opened Walk
  import opened Edits
  import opened Repair
  import opened Layout
  import opened Gaps
  import opened Places
  import opened Growth
  import opened Surgery
  import opened Sites
  import opened Attribs

  /** Text and array describe the same well-formed tree. */
  ghost predicate State(doc: string, a: seq<ElemPos>, free: nat, prolog: string, f: Forest) {
    Laid(doc, a, free, prolog, f) && (f.Cons? ==> WFRoot(f))
  }

  /** The current position: the parent, the main and the child position are elements of
      the tree, or 0, and each is a child of the one before. */
  ghost predicate PosOK(a: seq<ElemPos>, f: Forest, par: nat, pos: nat, child: nat) {
    && (par == 0 || par in Ids(f))
    && (pos == 0 || (pos in Ids(f) && pos < |a| && a[pos].parent == par))
    && (child == 0 || (child in Ids(f) && child < |a| && a[child].parent == pos))
    && (pos == 0 && child != 0 ==> par == 0)
  }

  /** Every start tag is a name with quoted attributes of different names. */
  ghost predicate Plain(f: Forest) { f.Nil? || (PlainTag(f.tag) && Plain(f.kids) && Plain(f.next)) }

  /** What holds of every document built by the editor: no tag before or after the
      root, and plain start tags. */
  ghost predicate Tidy(prolog: string, f: Forest) { GapOK(prolog, 0) && (f.Cons? ==> GapOK(f.gap, 0)) && Plain(f) }

  /** Such a document agrees with what parsing its text again gives. */
  lemma TidyAgrees(doc: string, a: seq<ElemPos>, free: nat, prolog: string, f: Forest)
    requires State(doc, a, free, prolog, f) && Tidy(prolog, f)
    ensures Agrees(doc, prolog, f)
  {
    hide WFRoot, GapOK, Agrees, Rep, Text, Distinct;
    if f.Cons? {
      AgreesExactly(doc, prolog, f);
    } else {
      assert Text(f) == "" by { NoElements(f); }
      assert doc == prolog && f == Nil;
      AgreesEmpty(doc);
    }
  }

  lemma NoElements(f: Forest)
    requires f.Nil?
    ensures Text(f) == ""
  {
  }

  // ---- plain tags in a tree ----

  ghost predicate PlainCtx(x: Ctx)
    requires CtxOK(x)
  {
    match x
    case Top => true
    case Sib(c, up) => PlainTag(c.tag) && Plain(c.kids) && PlainCtx(up)
    case Child(c, up) => PlainTag(c.tag) && Plain(c.next) && PlainCtx(up)
  }

  lemma {:induction false} PlainFill(x: Ctx, f: Forest)
    requires CtxOK(x)
    ensures Plain(Fill(x, f)) <==> PlainCtx(x) && Plain(f)
    decreases x
  {
    hide PlainTag;
    match x
    case Top =>
    case Sib(c, up) => PlainFill(up, c.(next := f));
    case Child(c, up) => PlainFill(up, c.(kids := f));
  }

  lemma PlainCell(c: Forest)
    requires c.Cons?
    ensures Plain(c) <==> PlainTag(c.tag) && Plain(c.kids) && Plain(c.next)
  {
    hide PlainTag;
  }

  lemma PlainSplits(c: Forest)
    requires c.Cons? && PlainTag(c.tag)
    ensures CanSplit(c)
  {
    hide TagText, CanSplit;
    var name, attrs, tail :| TagParts(name, attrs, tail) && c.tag == TagText(name, attrs, tail);
    PlainTagOK(c, name, attrs, tail);
  }

  /** The tag the editor writes is plain. */
  lemma NameIsPlain(name: string)
    requires ValidName(name)
    ensures PlainTag("<" + name)
  {
    hide ValidName;
    assert AttrsText([]) == "";
    assert "" + "" == "" && name + "" == name;
    assert TagParts(name, [], "") && TagText(name, [], "") == "<" + name;
  }

  lemma PlainPlanted(s: Site, t: Forest, trail: string)
    requires CtxOK(s.x) && s.c.Cons? && t.Cons? && (s.Behind? ==> s.k <= |s.c.gap|) && (s.Within? ==> s.k <= |s.c.head|)
    requires t.next.Nil? && Plain(t) && Plain(Fill(s.x, s.c)) && (s.Opened? ==> s.c.kids.Nil?)
    ensures Plain(Planted(s, t, trail))
  {
    hide PlainTag, Fill, TagName;
    PlainFill(s.x, s.c);
    PlainFill(s.x, Changed(s, t, trail));
  }

  // ---- finding ----

  /** The element of index `id`, or nothing. */
  function Find(f: Forest, id: nat): (r: Forest)
    ensures r.Cons? ==> r.id == id && id in Ids(f)
    ensures id in Ids(f) ==> r.Cons?
  {
    if f.Nil? then Nil else if f.id == id then f
    else
      var k := Find(f.kids, id);
      if k.Cons? then k else Find(f.next, id)
  }

  lemma {:induction false} FindIn(x: Ctx, f: Forest, id: nat)
    requires CtxOK(x) && id in Ids(f) && Distinct(Fill(x, f))
    ensures Find(Fill(x, f), id) == Find(f, id)
    decreases x
  {
    FillIds(x, f);
    match x
    case Top =>
    case Sib(c, up) =>
      FindIn(up, c.(next := f), id);
    case Child(c, up) =>
      FindIn(up, c.(kids := f), id);
  }

  lemma FindFill(x: Ctx, c: Forest)
    requires CtxOK(x) && c.Cons? && Distinct(Fill(x, c))
    ensures Find(Fill(x, c), c.id) == c
  {
    FindIn(x, c, c.id);
  }

  // ---- positions ----

  ghost predicate SameParents(a: seq<ElemPos>, b: seq<ElemPos>, free: nat) {
    free <= |a| <= |b| && forall i :: 0 <= i < free ==> b[i].parent == a[i].parent
  }

  lemma PosKept(a: seq<ElemPos>, b: seq<ElemPos>, free: nat, f: Forest, g: Forest, par: nat, pos: nat, child: nat)
    requires PosOK(a, f, par, pos, child) && SameParents(a, b, free) && Ids(f) <= Ids(g) && forall i :: i in Ids(f) ==>
        i < free
    ensures PosOK(b, g, par, pos, child)
  {
    hide Ids;
  }

  lemma ShiftedParents(a: seq<ElemPos>, b: seq<ElemPos>, free: nat, both: set<nat>, ends: set<nat>, n: int)
    requires SameParents(a, b, free)
    ensures SameParents(a, Shifted(b, both, ends, n), free)
  {
  }

  // ---- the edits ----

  /** A new element in its place. */
  lemma SiteState(doc: string, a: seq<ElemPos>, free: nat, prolog: string, f: Forest, s: Site, t: Forest, trail: string,
      skip: bool,
                  a1: seq<ElemPos>, doc': string, free': nat)
    requires State(doc, a, free, prolog, f) && f.Cons? && SiteOK(s, f) && s.c.id < |a|
    requires Fresh(t, free, free') && (skip || t.kids.Nil?) && SiteReady(a, a1, s, t, |prolog|, free')
    requires WFTree(t) && GapOK(trail, 0) && (s.Opened? ==> CanSplit(s.c))
    requires var at := SiteAt(s, |prolog|);
      at + Drop(s) <= |doc| && doc' == Splice(doc, at, at + Drop(s), SiteText(s, Body(t) + trail))
    ensures CtxOK(Hole(s)) && (s.Behind? ==> s.k <= |s.c.gap|) && (s.Within? ==> s.k <= |s.c.head|)
    ensures State(doc', Shifted(a1, BothLeft(Hole(s), t.(next := Older(s)), skip), Ancestors(Hole(s)),
        |SiteText(s, Body(t) + trail)| - Drop(s)),
                  free', prolog, Planted(s, t, trail))
    ensures Planted(s, t, trail).Cons? && Ids(Planted(s, t, trail)) == Ids(f) + Ids(t)
    ensures Tidy(prolog, f) && Plain(t) ==> Tidy(prolog, Planted(s, t, trail))
  {
    hide *;
    StateIs(doc, a, free, prolog, f);
    SiteIs(s, f);
    FreshIs(t, free, free');
    SiteFits(f, s, t, trail);
    SiteLaid(doc, a, free, prolog, s, t, trail, skip, a1, doc', free');
    StateBack(doc', Shifted(a1, BothLeft(Hole(s), t.(next := Older(s)), skip), Ancestors(Hole(s)),
        |SiteText(s, Body(t) + trail)| - Drop(s)),
              free', prolog, Planted(s, t, trail));
    if s.Opened? { EmptyKids(s.c); }
    PlantedIds(s, t, trail);
    if Tidy(prolog, f) && Plain(t) {
      TidyIs(prolog, f);
      PlainPlanted(s, t, trail);
      TidyBack(prolog, Planted(s, t, trail));
    }
  }

  lemma StateIs(doc: string, a: seq<ElemPos>, free: nat, prolog: string, f: Forest)
    requires State(doc, a, free, prolog, f)
    ensures Laid(doc, a, free, prolog, f) && (f.Cons? ==> WFRoot(f))
  {
  }

  lemma StateBack(doc: string, a: seq<ElemPos>, free: nat, prolog: string, f: Forest)
    requires Laid(doc, a, free, prolog, f) && (f.Cons? ==> WFRoot(f))
    ensures State(doc, a, free, prolog, f)
  {
  }

  lemma SiteIs(s: Site, f: Forest)
    requires SiteOK(s, f)
    ensures CtxOK(s.x) && s.c.Cons? && Fill(s.x, s.c) == f && CtxOK(Hole(s)) && (s.Opened? ==> s.c.empty)
  {
  }

  lemma FreshIs(t: Forest, free: nat, free': nat)
    requires Fresh(t, free, free')
    ensures t.Cons? && t.next.Nil? && free <= free'
  {
  }

  lemma TidyIs(prolog: string, f: Forest)
    requires Tidy(prolog, f)
    ensures GapOK(prolog, 0) && (f.Cons? ==> GapOK(f.gap, 0)) && Plain(f)
  {
  }

  lemma TidyBack(prolog: string, f: Forest)
    requires GapOK(prolog, 0) && (f.Cons? ==> GapOK(f.gap, 0)) && Plain(f)
    ensures Tidy(prolog, f)
  {
  }

  lemma PlantedIds(s: Site, t: Forest, trail: string)
    requires CtxOK(s.x) && s.c.Cons? && t.Cons? && (s.Behind? ==> s.k <= |s.c.gap|) && (s.Within? ==> s.k <= |s.c.head|)
        && t.next.Nil?
    requires s.Opened? ==> s.c.kids.Nil?
    ensures Ids(Planted(s, t, trail)) == Ids(Fill(s.x, s.c)) + Ids(t)
  {
    hide Fill, TagName, CtxIds;
    FillIds(s.x, s.c);
    FillIds(s.x, Changed(s, t, trail));
  }

  /** An element changed in its place, whatever the change. */
  lemma EditState(doc: string, b: seq<ElemPos>, free: nat, prolog: string, x: Ctx, c: Forest, d: Forest)
    requires CtxOK(x) && c.Cons? && d.Cons? && d.id == c.id && WFRoot(Fill(x, c)) && Fits(x, d)
        && (x.Top? ==> d.gap == c.gap)
    requires Laid(doc, b, free, prolog, Fill(x, d))
    ensures State(doc, b, free, prolog, Fill(x, d)) && Fill(x, d).Cons?
    ensures Tidy(prolog, Fill(x, c)) && (Plain(c) ==> Plain(d)) ==> Tidy(prolog, Fill(x, d))
    ensures Find(Fill(x, d), c.id) == d
  {
    hide *;
    FitsFill(x, c, d);
    StateBack(doc, b, free, prolog, Fill(x, d));
    RootGap(x, c, d);
    PlainFill(x, c);
    PlainFill(x, d);
    if Tidy(prolog, Fill(x, c)) && (Plain(c) ==> Plain(d)) {
      TidyIs(prolog, Fill(x, c));
      TidyBack(prolog, Fill(x, d));
    }
    LaidDistinct(doc, b, free, prolog, Fill(x, d));
    FindFill(x, d);
  }

  lemma LaidDistinct(doc: string, a: seq<ElemPos>, free: nat, prolog: string, f: Forest)
    requires Laid(doc, a, free, prolog, f)
    ensures Distinct(f) && doc == prolog + Text(f) && a[0].child == Id(f)
  {
  }

  /** The root taken out, with `k` characters of what follows it. */
  lemma RemoveRootState(doc: string, a: seq<ElemPos>, free: nat, prolog: string, f: Forest, k: nat, a1: seq<ElemPos>,
      doc': string)
    requires State(doc, a, free, prolog, f) && f.Cons? && k <= |f.gap| && 0 < |a| && a1 == a[0 := a[0].LinkChild(0)]
    requires |prolog| + |Body(f)| + k <= |doc| && doc' == Splice(doc, |prolog|, |prolog| + |Body(f)| + k, "")
    ensures At(a1, Top, f, 0, true)
    ensures State(doc', Shifted(a1, BothLeft(Top, f, true), Ancestors(Top), 0 - |Body(f)| - k), free,
        prolog + f.gap[k..], Nil)
    ensures Tidy(prolog, f) && CutOK(f.gap, k) ==> Tidy(prolog + f.gap[k..], Nil)
  {
    hide *;
    StateIs(doc, a, free, prolog, f);
    RootRemoveStarts(doc, a, free, prolog, f, a1);
    TopOK();
    RootAlone(f);
    RemoveRootText(doc, prolog, f, k, doc', a, free);
    NoTreeLaid(doc, a, free, prolog, f, a1, doc', prolog + f.gap[k..], BothLeft(Top, f, true), Ancestors(Top),
        0 - |Body(f)| - k);
    StateBack(doc', Shifted(a1, BothLeft(Top, f, true), Ancestors(Top), 0 - |Body(f)| - k), free, prolog + f.gap[k..],
        Nil);
    if Tidy(prolog, f) && CutOK(f.gap, k) {
      TidyIs(prolog, f);
      CutGap(f.gap, k);
      JoinGap(prolog, f.gap[k..]);
      NoPlain();
      TidyBack(prolog + f.gap[k..], Nil);
    }
  }

  lemma RootRemoveStarts(doc: string, a: seq<ElemPos>, free: nat, prolog: string, f: Forest, a1: seq<ElemPos>)
    requires Laid(doc, a, free, prolog, f) && f.Cons? && 0 < |a| && a1 == a[0 := a[0].LinkChild(0)]
    ensures At(a1, Top, f, 0, true)
  {
    hide Laid, Rep, Distinct, Links, Ids, Text;
    assert Fill(Top, f) == f;
    PlaceFacts(doc, a, free, prolog, Top, f);
    LaidDistinct(doc, a, free, prolog, f);
    RootAt(a, f, a1);
    RootLinksKept(a, f, a1);
    assert CtxIds(Top) == {};
  }

  lemma RootAlone(f: Forest)
    requires WFRoot(f)
    ensures BothLeft(Top, f, true) == {} && Ancestors(Top) == {0}
  {
    hide CellOK, WF;
  }

  lemma RemoveRootText(doc: string, prolog: string, f: Forest, k: nat, doc': string, a: seq<ElemPos>, free: nat)
    requires WFRoot(f) && k <= |f.gap| && Laid(doc, a, free, prolog, f)
    requires |prolog| + |Body(f)| + k <= |doc| && doc' == Splice(doc, |prolog|, |prolog| + |Body(f)| + k, "")
    ensures doc' == (prolog + f.gap[k..]) + Text(Nil)
  {
    hide CellOK, WF, Body, Rep, Distinct, Splice;
    NilIds();
    assert Text(f) == Body(f) + (f.gap + Text(f.next)) by { TextIs(f); }
    RootGone(prolog, Body(f), f.gap, k);
  }

  /** The array of a document without elements. */
  lemma NoTreeLaid(doc: string, a: seq<ElemPos>, free: nat, prolog: string, f: Forest, a1: seq<ElemPos>, doc': string,
      prolog': string,
                   both: set<nat>, ends: set<nat>, n: int)
    requires Laid(doc, a, free, prolog, f) && a1 == a[0 := a[0].LinkChild(0)] && both == {}
        && doc' == prolog' + Text(Nil)
    ensures Laid(doc', Shifted(a1, both, ends, n), free, prolog', Nil)
  {
    NilIds();
  }

  lemma TopOK()
    ensures CtxOK(Top)
  {
  }

  lemma NoPlain()
    ensures Plain(Nil)
  {
  }

  lemma RootAt(a: seq<ElemPos>, f: Forest, a1: seq<ElemPos>)
    requires f.Cons? && Distinct(f) && 0 < |a| && a1 == a[0 := a[0].LinkChild(0)]
    ensures 0 !in Ids(f) && f.id in Ids(f) && a1[0].child == 0
  {
    ZeroFree(f);
  }

  lemma RootLinksKept(a: seq<ElemPos>, f: Forest, a1: seq<ElemPos>)
    requires f.Cons? && Links(a, f, 0) && |a| == |a1| && 0 !in Ids(f) && forall i :: 0 < i < |a| ==> a1[i] == a[i]
    ensures Links(a1, f, 0) && f.id < |a1| && a1[f.id].parent == 0 && a1[f.id].next == Id(f.next)
        && Links(a1, f.next, 0)
  {
    LinksKept(a, a1, f, 0);
  }

  lemma RootGone(p: string, b: string, g: string, k: nat)
    requires k <= |g|
    ensures var w := b + (g + "");
      Splice(p + w, |p|, |p| + |b| + k, "") == (p + g[k..]) + ""
  {
    var w := b + (g + "");
    assert (p + w)[..|p|] == p;
    assert (p + w)[|p| + |b| + k..] == g[k..];
  }

  /** The first root, put in at `o`. */
  lemma NewRootState(doc: string, a: seq<ElemPos>, free: nat, prolog: string, o: nat, t: Forest, trail: string,
      a1: seq<ElemPos>, doc': string, free': nat)
    requires State(doc, a, free, prolog, Nil) && o <= |doc| && t.Cons? && t.kids.Nil? && t.next.Nil? && t.id == free
        && free' == free + 1 && WFTree(t)
    requires |a| <= |a1| && free' <= |a1| && SameDoc(a, a1, t.id) && a1[t.id] == Entry(t, o, 0, 0, 0, 0)
    requires doc' == Splice(doc, o, o, Body(t) + trail)
    ensures At(a1, Top, t, 0, false)
    ensures var d := t.(gap := trail + doc[o..]);
      State(doc', Shifted(a1, BothLeft(Top, t, false), Ancestors(Top), |Body(t) + trail|), free', doc[..o], d)
    ensures Tidy(prolog, Nil) && PlainTag(t.tag) && GapOK(doc[..o], 0) && GapOK(trail, 0) ==>
        Tidy(doc[..o], t.(gap := trail + doc[o..]))
  {
    hide *;
    var d := t.(gap := trail + doc[o..]);
    StateIs(doc, a, free, prolog, Nil);
    LaidDistinct(doc, a, free, prolog, Nil);
    LaidBounds(doc, a, free, prolog, Nil);
    NewRootStarts(t, a1, o);
    NewRootText(doc, prolog, o, t, trail, doc');
    NewRootLaid(doc, a, free, prolog, o, t, d, a1, doc', free', |Body(t) + trail|);
    NewRootOK(t, d.gap);
    StateBack(doc', Shifted(a1, BothLeft(Top, t, false), Ancestors(Top), |Body(t) + trail|), free', doc[..o], d);
    if Tidy(prolog, Nil) && PlainTag(t.tag) && GapOK(doc[..o], 0) && GapOK(trail, 0) {
      TidyIs(prolog, Nil);
      TailGap(doc, o);
      JoinGap(trail, doc[o..]);
      NoPlain();
      PlainCell(d);
      TidyBack(doc[..o], d);
    }
  }

  /** Without elements the whole text is the prolog. */
  lemma AllProlog(doc: string, a: seq<ElemPos>, free: nat, prolog: string)
    requires State(doc, a, free, prolog, Nil)
    ensures prolog == doc == doc[..|doc|] && (Tidy(prolog, Nil) ==> GapOK(doc, 0))
  {
    hide Rep, Distinct, GapOK;
    assert Text(Nil) == "";
    assert prolog + "" == prolog;
  }

  lemma NewRootStarts(t: Forest, a1: seq<ElemPos>, o: nat)
    requires t.Cons? && t.kids.Nil? && t.next.Nil? && 0 < t.id < |a1| && a1[t.id] == Entry(t, o, 0, 0, 0, 0)
    ensures At(a1, Top, t, 0, false) && BothLeft(Top, t, false) == {} && Ancestors(Top) == {0}
  {
  }

  lemma NewRootText(doc: string, prolog: string, o: nat, t: Forest, trail: string, doc': string)
    requires doc == prolog + Text(Nil) && o <= |doc| && t.Cons? && t.kids.Nil? && t.next.Nil?
        && doc' == Splice(doc, o, o, Body(t) + trail)
    ensures doc' == doc[..o] + Text(t.(gap := trail + doc[o..])) && doc == prolog
  {
    hide *;
    NilIds();
    var d := t.(gap := trail + doc[o..]);
    CellRelink(t, d.gap, Nil);
    assert d == t.(gap := d.gap, next := Nil);
    TextIs(d);
    SpliceRoot(doc, o, Body(t), trail);
    assert doc == prolog + "" == prolog;
  }

  lemma SpliceRoot(doc: string, o: nat, b: string, trail: string)
    requires o <= |doc|
    ensures Splice(doc, o, o, b + trail) == doc[..o] + (b + ((trail + doc[o..]) + ""))
  {
    assert trail + doc[o..] + "" == trail + doc[o..];
    assert doc[..o] + (b + trail) + doc[o..] == doc[..o] + (b + (trail + doc[o..]));
  }

  lemma NewRootLaid(doc: string, a: seq<ElemPos>, free: nat, prolog: string, o: nat, t: Forest, d: Forest,
      a1: seq<ElemPos>, doc': string, free': nat, n: int)
    requires Laid(doc, a, free, prolog, Nil) && o <= |doc| && t.Cons? && t.kids.Nil? && t.next.Nil? && t.id == free
        && free' == free + 1
    requires |a| <= |a1| && free' <= |a1| && SameDoc(a, a1, t.id) && a1[t.id] == Entry(t, o, 0, 0, 0, 0) && d.Cons?
        && d == t.(gap := d.gap)
    requires doc' == doc[..o] + Text(d)
    ensures Laid(doc', Shifted(a1, BothLeft(Top, t, false), Ancestors(Top), n), free', doc[..o], d)
  {
    hide Text, Rep, Distinct, Ids, Entry, At, BothLeft, Ancestors;
    NewRootStarts(t, a1, o);
    OneCell(t, d);
    var b := Shifted(a1, {}, {0}, n);
    assert b[t.id] == a1[t.id];
    OneRep(b, d, o);
    assert |doc[..o]| == o;
  }

  lemma OneRep(b: seq<ElemPos>, d: Forest, o: nat)
    requires d.Cons? && d.kids.Nil? && d.next.Nil? && d.id < |b| && b[d.id] == Entry(d, o, 0, 0, 0, 0)
    ensures Rep(b, d, 0, o)
  {
    RepNil(b, d.id, KidsPos(d, o));
    RepNil(b, 0, NextPos(d, o, 0));
    RepCons(b, d, 0, o);
  }

  lemma NewRootOK(t: Forest, g: string)
    requires WFTree(t) && t.next.Nil?
    ensures WFRoot(t.(gap := g))
  {
    hide CellOK, WF;
    CellRelink(t, g, Nil);
    assert t.(gap := g) == t.(gap := g, next := Nil);
  }

  /** The document's entry, with a first child. */
  ghost predicate SameDoc(a: seq<ElemPos>, b: seq<ElemPos>, i: nat) {
    0 < |a| && 0 < |b| && b[0].startR == a[0].startR && b[0].parent == a[0].parent && b[0].next == a[0].next
        && b[0].child == i
  }

  lemma OneCell(t: Forest, d: Forest)
    requires t.Cons? && t.kids.Nil? && t.next.Nil? && t.id > 0 && d.Cons? && d == t.(gap := d.gap)
    ensures Ids(t) == {t.id} == Ids(d) && Distinct(t) && Distinct(d)
    ensures forall p: nat :: Entry(d, p, 0, 0, 0, 0) == Entry(t, p, 0, 0, 0, 0)
  {
  }
}
