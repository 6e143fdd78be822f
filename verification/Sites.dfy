/**
  Insertion, whatever the place: behind an element, before the first child of an
  element, or inside an empty element that has to be opened up for it.
 */
module Sites {
  import opened Scanner
  import opened Parser
  import opened Index
  import opened Walk
  import opened Edits
  import opened Layout
  import opened Gaps
  import opened Places
  import opened Growth
  import opened Surgery

  /** A place for a new element: `Behind` the cell, `k` characters into its gap;
      `Within` the cell, `k` characters after its start tag; or in an `Opened` empty cell. */
  datatype Site = Behind(x: Ctx, c: Forest, k: nat) | Within(x: Ctx, c: Forest, k: nat) | Opened(x: Ctx, c: Forest)

  /** The place is in the tree `f`, and the text there may be cut. */
  ghost predicate SiteOK(s: Site, f: Forest) {
    CtxOK(s.x) && s.c.Cons? && Fill(s.x, s.c) == f &&
    match s
    case Behind(x, c, k) => Par(x) != 0 && CutOK(c.gap, k)
    case Within(x, c, k) => !c.empty && CutOK(c.head, k)
    case Opened(x, c) => c.empty
  }

  /** The cell as the new element `t` leaves it. */
  function Changed(s: Site, t: Forest, trail: string): Forest
    requires s.c.Cons? && t.Cons? && (s.Behind? ==> s.k <= |s.c.gap|) && (s.Within? ==> s.k <= |s.c.head|)
  {
    match s
    case Behind(x, c, k) => InsertAfter(c, k, "", t, trail)
    case Within(x, c, k) => InsertFirst(c, k, "", t, trail)
    case Opened(x, c) => InsertSplit(c, TagName(c), "", t, trail)
  }

  /** The tree with the new element. */
  function Planted(s: Site, t: Forest, trail: string): Forest
    requires CtxOK(s.x) && s.c.Cons? && t.Cons? && (s.Behind? ==> s.k <= |s.c.gap|) && (s.Within? ==> s.k <= |s.c.head|)
  {
    Fill(s.x, Changed(s, t, trail))
  }

  /** The element it is put under, and what follows it there. */
  function Under(s: Site): nat
    requires CtxOK(s.x) && s.c.Cons?
  {
    if s.Behind? then Par(s.x) else s.c.id
  }

  function Older(s: Site): Forest
    requires s.c.Cons?
  {
    if s.Behind? then s.c.next else s.c.kids
  }

  function Hole(s: Site): Ctx { if s.Behind? then Sib(s.c, s.x) else Child(s.c, s.x) }

  /** The offset where text is put in. */
  function SiteAt(s: Site, base: nat): nat
    requires CtxOK(s.x) && s.c.Cons?
  {
    match s
    case Behind(x, c, k) => HolePos(x, base) + |Body(c)| + k
    case Within(x, c, k) => HolePos(x, base) + |OpenText(c)| + k
    case Opened(x, c) => HolePos(x, base) + |c.tag|
  }

  /** The offset where the new element starts. */
  function StartAt(s: Site, base: nat): nat
    requires CtxOK(s.x) && s.c.Cons?
  {
    SiteAt(s, base) + if s.Opened? then 3 else 0
  }

  /** The text put in for an element's text. */
  function SiteText(s: Site, ins: string): string
    requires s.c.Cons?
  {
    if s.Opened? then SplitInsert(ins, TagName(s.c)) else ins
  }

  function Drop(s: Site): nat { if s.Opened? then 1 else 0 }

  /** The array just before the walk. */
  ghost predicate SiteReady(a: seq<ElemPos>, a1: seq<ElemPos>, s: Site, t: Forest, base: nat, free': nat)
    requires CtxOK(s.x) && s.c.Cons? && t.Cons? && s.c.id < |a|
  {
    match s
    case Behind(x, c, k) => AfterReady(a, a1, x, c, t, StartAt(s, base), free')
    case Within(x, c, k) => FirstReady(a, a1, x, c, a[c.id].LinkChild(t.id), t, StartAt(s, base), free')
    case Opened(x, c) => FirstReady(a, a1, x, c, a[c.id].PreSplit(1 + |TagName(c)|).LinkChild(t.id), t,
        StartAt(s, base), free')
  }

  lemma SiteStarts(doc: string, a: seq<ElemPos>, free: nat, prolog: string, s: Site, t: Forest, skip: bool,
      a1: seq<ElemPos>, free': nat)
    requires CtxOK(s.x) && s.c.Cons? && t.Cons? && Laid(doc, a, free, prolog, Fill(s.x, s.c)) && s.c.id < |a|
    requires Fresh(t, free, free') && SiteReady(a, a1, s, t, |prolog|, free')
    ensures At(a1, Hole(s), t.(next := Older(s)), 0, skip)
  {
    hide Laid, Fill, AfterReady, FirstReady, StartAt, HolePos, Fresh, At, TagName;
    match s
    case Behind(x, c, k) => InsertAfterStarts(doc, a, free, prolog, x, c, t, StartAt(s, |prolog|), skip, a1, free');
    case Within(x, c, k) => InsertFirstStarts(doc, a, free, prolog, x, c, a[c.id].LinkChild(t.id), t,
        StartAt(s, |prolog|), skip, a1, free');
    case Opened(x, c) => InsertFirstStarts(doc, a, free, prolog, x, c,
        a[c.id].PreSplit(1 + |TagName(c)|).LinkChild(t.id), t, StartAt(s, |prolog|), skip, a1, free');
  }

  /** After the walk text and array describe the tree with the new element. */
  lemma SiteLaid(doc: string, a: seq<ElemPos>, free: nat, prolog: string, s: Site, t: Forest, trail: string, skip: bool,
      a1: seq<ElemPos>, doc': string, free': nat)
    requires CtxOK(s.x) && s.c.Cons? && SiteOK(s, Fill(s.x, s.c)) && CtxFull(s.x) && CellOK(s.c)
    requires Laid(doc, a, free, prolog, Fill(s.x, s.c)) && s.c.id < |a|
    requires t.Cons? && Fresh(t, free, free') && (skip || t.kids.Nil?) && SiteReady(a, a1, s, t, |prolog|, free')
    requires var at := SiteAt(s, |prolog|);
      at + Drop(s) <= |doc| && doc' == Splice(doc, at, at + Drop(s), SiteText(s, Body(t) + trail))
    ensures CtxOK(Hole(s)) && (s.Behind? ==> s.k <= |s.c.gap|) && (s.Within? ==> s.k <= |s.c.head|)
    ensures Laid(doc', Shifted(a1, BothLeft(Hole(s), t.(next := Older(s)), skip), Ancestors(Hole(s)),
        |SiteText(s, Body(t) + trail)| - Drop(s)),
                 free', prolog, Planted(s, t, trail))
  {
    hide Laid, Fill, AfterReady, FirstReady, HolePos, Fresh, Shifted, BothLeft, Ancestors, Body, Splice;
    hide SplitInsert, InsertAfter, InsertFirst, InsertSplit, CellOK, CtxFull, TagName, OpenText, FindChar, Par;
    NoLead(Body(t) + trail);
    match s
    case Behind(x, c, k) =>
      NotTop(x);
      InsertAfterLaid(doc, a, free, prolog, x, c, k, "", t, trail, skip, a1, doc', free');
    case Within(x, c, k) =>
      InsertFirstLaid(doc, a, free, prolog, x, c, k, "", t, trail, skip, a1, doc', free');
    case Opened(x, c) =>
      SplitLen(Body(t) + trail, TagName(c));
      InsertSplitLaid(doc, a, free, prolog, x, c, TagName(c), "", t, trail, skip, a1, doc', free');
  }

  lemma NoLead(s: string)
    ensures "" + s == s && |""| == 0
  {
  }

  lemma NotTop(x: Ctx)
    requires CtxOK(x) && Par(x) != 0
    ensures !x.Top?
  {
  }

  lemma SplitLen(ins: string, name: string)
    ensures |SplitInsert(ins, name)| == |ins| + |name| + 5
  {
  }

  /** The edited document is well-formed again, except when an empty element that
      cannot be opened up was. */
  lemma SiteFits(f: Forest, s: Site, t: Forest, trail: string)
    requires WFRoot(f) && SiteOK(s, f) && WFTree(t) && GapOK(trail, 0)
    ensures s.Behind? ==> s.k <= |s.c.gap|
    ensures s.Within? ==> s.k <= |s.c.head|
    ensures CtxFull(s.x) && CellOK(s.c)
    ensures WFRoot(Planted(s, t, trail)) <==> !s.Opened? || CanSplit(s.c)
    ensures Planted(s, t, trail).Cons? && Planted(s, t, trail).gap == f.gap
  {
    hide WFRoot, Fill, CellOK, WF, GapOK, TagName, CanSplit, InsertAfter, InsertFirst, InsertSplit, CtxFull, FindChar,
        Fits, Par;
    CutIs(s, f);
    ChangedIs(s, t, trail);
    FitsFill(s.x, s.c, Changed(s, t, trail));
    FitsCell(s.x, s.c);
    NilGap();
    match s
    case Behind(x, c, k) =>
      NotTop(x);
      InsertAfterFits(x, c, k, "", t, trail);
      RootGap(x, c, Changed(s, t, trail));
    case Within(x, c, k) =>
      InsertFirstFits(x, c, k, "", t, trail);
      RootGap(x, c, Changed(s, t, trail));
    case Opened(x, c) =>
      InsertSplitFits(x, c, "", t, trail);
      RootGap(x, c, Changed(s, t, trail));
      if WFRoot(Planted(s, t, trail)) { FitsFill(x, Changed(s, t, trail), c); }
  }

  lemma CutIs(s: Site, f: Forest)
    requires SiteOK(s, f)
    ensures (s.Behind? ==> s.k <= |s.c.gap|) && (s.Within? ==> s.k <= |s.c.head|)
  {
  }

  lemma ChangedIs(s: Site, t: Forest, trail: string)
    requires s.c.Cons? && t.Cons? && (s.Behind? ==> s.k <= |s.c.gap|) && (s.Within? ==> s.k <= |s.c.head|)
    ensures Changed(s, t, trail).Cons? && Changed(s, t, trail).id == s.c.id
  {
  }

  lemma NilGap()
    ensures GapOK("", 0)
  {
  }

  /** The entry of the cell once the new element is linked to it. */
  function Marked(s: Site, e: ElemPos, i: nat): ElemPos
    requires s.c.Cons?
  {
    match s
    case Behind(_, _, _) => e.LinkNext(i)
    case Within(_, _, _) => e.LinkChild(i)
    case Opened(_, c) => e.PreSplit(1 + |TagName(c)|).LinkChild(i)
  }

  /** Two entries set, the rest below `free` kept: the array is ready for the walk. */
  lemma LinkedReady(doc: string, a: seq<ElemPos>, free: nat, prolog: string, s: Site, t: Forest, a1: seq<ElemPos>,
      free': nat)
    requires CtxOK(s.x) && s.c.Cons? && Laid(doc, a, free, prolog, Fill(s.x, s.c)) && t.Cons? && t.id >= free
    requires |a| <= |a1| && t.id < |a1| && free' <= |a1| && (forall k :: 0 <= k < free && k != s.c.id ==> a1[k] == a[k])
    requires s.c.id < |a| && a1[s.c.id] == Marked(s, a[s.c.id], t.id)
    requires var q := StartAt(s, |prolog|);
      a1[t.id] == Entry(t, q, TextLen(t.kids), Under(s), Id(t.kids), Id(Older(s)))
          && Rep(a1, t.kids, t.id, KidsPos(t, q))
    ensures SiteReady(a, a1, s, t, |prolog|, free')
  {
    hide Laid, Rep, Fill, Distinct, StartAt, RepCtx, Links, LinksUp, Entry, TextLen, KidsPos, CtxIds, Par, TagName;
    PlaceFacts(doc, a, free, prolog, s.x, s.c);
    DistinctParts(s.c);
    LaidBounds(doc, a, free, prolog, Fill(s.x, s.c));
    assert SameDocEntry(a, a1);
    IdsKept(a, a1, free, s.c.id, CtxIds(s.x), s.x, s.c);
    IdsKept(a, a1, free, s.c.id, Ids(s.c.kids), s.x, s.c);
    IdsKept(a, a1, free, s.c.id, Ids(s.c.next), s.x, s.c);
  }

  lemma IdsKept(a: seq<ElemPos>, a1: seq<ElemPos>, free: nat, i: nat, ids: set<nat>, x: Ctx, c: Forest)
    requires CtxOK(x) && |a| <= |a1| && free <= |a| && (forall k :: 0 <= k < free && k != i ==> a1[k] == a[k])
    requires i !in ids && ids <= CtxIds(x) + Ids(c) && forall k :: k in CtxIds(x) + Ids(c) ==> 0 < k < free
    ensures AgreeOn(a, a1, ids)
  {
    hide CtxIds, Ids;
  }

  lemma LaidBounds(doc: string, a: seq<ElemPos>, free: nat, prolog: string, f: Forest)
    requires Laid(doc, a, free, prolog, f)
    ensures 8 <= |a| && 0 < free <= |a| && forall i :: i in Ids(f) ==> 0 < i < free
  {
    ZeroFree(f);
  }
}
