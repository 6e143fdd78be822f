/**
  `x_RemoveElem`: an element goes, with the whitespace after it, and one link is led
  around it; its own entries stay behind unused.
 */
module Removals {
  import opened Scanner
  import opened Parser
  import opened ParserProofs
  import opened RoundTrip
  import opened Index
  import opened Walk
  import opened Edits
  import opened Layout
  import opened Gaps
  import opened Places
  import opened Growth
  import opened Surgery
  import Sites
  import opened States
  import opened Paths
  import opened Locating

  /** What is left of `f`: the element `pos` was the one after `c` (index `prev`), or the
      first child of `c`, or the root, and `k` characters of its gap went with it: those that
      are passed over up to the tag behind the gap, or up to the end. */
  ghost predicate Removed(f: Forest, p: string, g: Forest, q: string, par: nat, pos: nat, prev: nat, y: Ctx, c: Forest,
      k: nat) {
    if par == 0 then
      && f.Cons? && f.id == pos && prev == 0 && CutOK(f.gap, k) && UpToTag(f.gap, 0, k)
      && g == Nil && q == p + f.gap[k..]
    else if prev != 0 then
      && CtxOK(y) && c.Cons? && Fill(y, c) == f && q == p && Par(y) == par
      && c.id == prev && c.next.Cons? && c.next.id == pos && CutOK(c.next.gap, k) && UpToTag(c.next.gap + "<", 0, k)
      && g == Fill(y, RemoveNext(c, k))
    else
      && CtxOK(y) && c.Cons? && Fill(y, c) == f && q == p
      && c.id == par && c.kids.Cons? && c.kids.id == pos && CutOK(c.kids.gap, k) && UpToTag(c.kids.gap + "<", 0, k)
      && g == Fill(y, RemoveFirst(c, k))
  }

  /** The same in the text: the element is taken out with what is passed over behind it. */
  ghost predicate TextRemoved(doc: string, e: ElemPos, k: nat, doc': string) {
    && 0 <= e.startL <= e.endR + 1 <= e.endR + 1 + k <= |doc| && UpToTag(doc, e.endR + 1, e.endR + 1 + k)
    && doc' == doc[..e.startL] + doc[e.endR + 1 + k..]
  }

  /** A quote that stands right in front of the next tag is taken for the start of a token
      inside which the tag begins, and goes too. */
  lemma QuoteGoes(e: ElemPos, k: nat, doc': string)
    requires e.startL == 3 && e.endR == 6 && TextRemoved("<p><b/>\"<i/></p>", e, k, doc')
    ensures k == 1 && doc' == "<p><i/></p>"
  {
    var doc := "<p><b/>\"<i/></p>";
    var m := UpFound(doc, 7, 7 + k);
    assert doc[7] == '\"' && doc[8] == '<';
    assert m == 7;
    assert doc[..3] == "<p>" && doc[8..] == "<i/></p>";
  }

  lemma RemovedText(doc: string, e: ElemPos, k: nat, doc': string)
    requires 0 <= e.startL <= e.endR + 1 <= |doc| && Skip(doc, e.endR + 1) == e.endR + 1 + k
    requires doc' == Splice(doc, e.startL, Skip(doc, e.endR + 1), "")
    ensures TextRemoved(doc, e, k, doc')
  {
    hide Skip, UpToTag;
    SkipUp(doc, e.endR + 1);
  }

  lemma RemovedNext(f: Forest, p: string, g: Forest, par: nat, pos: nat, prev: nat, y: Ctx, c: Forest, k: nat)
    requires par != 0 && prev != 0 && CtxOK(y) && c.Cons? && Fill(y, c) == f && c.id == prev && c.next.Cons?
        && c.next.id == pos
    requires CutOK(c.next.gap, k) && UpToTag(c.next.gap + "<", 0, k) && Par(y) == par
    ensures k <= |c.next.gap|
    ensures g == Fill(y, RemoveNext(c, k)) ==> Removed(f, p, g, p, par, pos, prev, y, c, k)
  {
    hide Fill;
  }

  lemma RemovedFirst(f: Forest, p: string, g: Forest, par: nat, pos: nat, y: Ctx, c: Forest, k: nat)
    requires par != 0 && CtxOK(y) && c.Cons? && Fill(y, c) == f && c.id == par && c.kids.Cons? && c.kids.id == pos
        && CutOK(c.kids.gap, k) && UpToTag(c.kids.gap + "<", 0, k)
    ensures k <= |c.kids.gap|
    ensures g == Fill(y, RemoveFirst(c, k)) ==> Removed(f, p, g, p, par, pos, 0, y, c, k)
  {
    hide Fill;
  }

  /** The root is the only element without a parent. */
  lemma {:induction false} RootOnly(x: Ctx, c: Forest)
    requires CtxOK(x) && c.Cons? && DistinctCtx(x) && WFRoot(Fill(x, c)) && Par(x) == 0
    ensures x.Top?
    decreases x
  {
    hide CellOK, WF;
    match x
    case Top =>
    case Sib(d, up) => RootOnly(up, d.(next := c));
    case Child(d, up) =>
  }

  lemma RootIs(doc: string, a: seq<ElemPos>, free: nat, prolog: string, tree: Forest, pos: nat)
    requires State(doc, a, free, prolog, tree) && pos in Ids(tree) && pos < |a| && a[pos].parent == 0
    ensures tree.Cons? && pos == tree.id && a[pos].next == 0 && a[0].child == pos
    ensures a[pos].startL == |prolog| && a[pos].endR + 1 == |prolog| + |Body(tree)| <= |doc|
    ensures Skip(doc, |prolog| + |Body(tree)|) <= |doc|
    ensures var k := Skip(doc, |prolog| + |Body(tree)|) - (|prolog| + |Body(tree)|);
      k >= 0 && CutOK(tree.gap, k) && UpToTag(tree.gap, 0, k)
  {
    hide *;
    StateIs(doc, a, free, prolog, tree);
    LaidDistinct(doc, a, free, prolog, tree);
    var x, c := Locate(tree, pos);
    ElemAt(doc, a, free, prolog, tree, x, c);
    FillCons(x, c);
    PlaceFacts(doc, a, free, prolog, x, c);
    RootOnly(x, c);
    TopFills(x, c, |prolog|);
    GapAt(doc, prolog, x, c);
    RootLast(c);
    var q := |prolog| + |Body(tree)|;
    HasLength(doc, q, c.gap);
    SkipCuts(doc, q, c.gap);
    SkipUp(doc, q);
    UpInGap(doc, q, c.gap, Skip(doc, q) - q);
    IdFirst(c);
  }

  lemma TopFills(x: Ctx, c: Forest, base: nat)
    requires CtxOK(x) && x.Top?
    ensures Fill(x, c) == c && HolePos(x, base) == base
  {
  }

  lemma RootLast(c: Forest)
    requires WFRoot(c)
    ensures Id(c.next) == 0
  {
    hide CellOK, WF;
  }

  lemma IdFirst(c: Forest)
    requires c.Cons?
    ensures Id(c) == c.id
  {
  }

  // ---- the array and the text after the removal ----

  /** The removed element and the whitespace after it. */
  lemma NextAt(doc: string, a: seq<ElemPos>, free: nat, prolog: string, tree: Forest, y: Ctx,
      c: Forest) returns (k: nat)
    requires CtxOK(y) && c.Cons? && c.next.Cons? && Fill(y, c) == tree && State(doc, a, free, prolog, tree)
        && Par(y) != 0
    ensures c.next.id < |a|
    ensures var i := HolePos(y, |prolog|) + |Body(c)| + |c.gap|;
      var e := i + |Body(c.next)|;
      && a[c.next.id].startL == i && a[c.next.id].endR + 1 == e <= |doc| && Skip(doc, e) == e + k
      && a[c.next.id].next == Id(c.next.next)
      && e + k <= |doc| && CutOK(c.next.gap, k) && UpToTag(c.next.gap + "<", 0, k)
  {
    hide *;
    StateIs(doc, a, free, prolog, tree);
    LaidDistinct(doc, a, free, prolog, tree);
    FillCons(y, c);
    SibStep(y, c);
    NextStart(y, c, |prolog|);
    ElemAt(doc, a, free, prolog, tree, Sib(c, y), c.next);
    GapAt(doc, prolog, Sib(c, y), c.next);
    var e := HolePos(y, |prolog|) + |Body(c)| + |c.gap| + |Body(c.next)|;
    HasLength(doc, e, c.next.gap);
    SkipCuts(doc, e, c.next.gap);
    k := Skip(doc, e) - e;
    SkipUp(doc, e);
    UpInGap(doc, e, c.next.gap, k);
  }

  lemma FirstAt(doc: string, a: seq<ElemPos>, free: nat, prolog: string, tree: Forest, y: Ctx,
      c: Forest) returns (k: nat)
    requires CtxOK(y) && c.Cons? && c.kids.Cons? && Fill(y, c) == tree && State(doc, a, free, prolog, tree)
    ensures c.kids.id < |a|
    ensures var i := HolePos(y, |prolog|) + |OpenText(c)| + |c.head|;
      var e := i + |Body(c.kids)|;
      && a[c.kids.id].startL == i && a[c.kids.id].endR + 1 == e <= |doc| && Skip(doc, e) == e + k
      && a[c.kids.id].next == Id(c.kids.next)
      && e + k <= |doc| && CutOK(c.kids.gap, k) && UpToTag(c.kids.gap + "<", 0, k)
  {
    hide *;
    StateIs(doc, a, free, prolog, tree);
    LaidDistinct(doc, a, free, prolog, tree);
    FillCons(y, c);
    KidStep(y, c);
    NextStart(y, c, |prolog|);
    ElemAt(doc, a, free, prolog, tree, y, c);
    ElemAt(doc, a, free, prolog, tree, Child(c, y), c.kids);
    GapAt(doc, prolog, Child(c, y), c.kids);
    var e := HolePos(y, |prolog|) + |OpenText(c)| + |c.head| + |Body(c.kids)|;
    HasLength(doc, e, c.kids.gap);
    SkipCuts(doc, e, c.kids.gap);
    k := Skip(doc, e) - e;
    SkipUp(doc, e);
    UpInGap(doc, e, c.kids.gap, k);
  }

  /** One link set. */
  lemma OneSet(doc: string, a: seq<ElemPos>, free: nat, prolog: string, y: Ctx, c: Forest, e: ElemPos)
    requires CtxOK(y) && c.Cons? && Laid(doc, a, free, prolog, Fill(y, c)) && c.id < |a|
    ensures CutReady(a, a[c.id := e], y, c, e)
  {
    hide Laid, Fill, Rep, Links, LinksUp, RepCtx, Ids, CtxIds;
    PlaceFacts(doc, a, free, prolog, y, c);
    DistinctParts(c);
    CellId(c, y, free);
    SetAway(a, c.id, e, CtxIds(y));
    SetAway(a, c.id, e, Ids(c.kids));
    SetAway(a, c.id, e, Ids(c.next));
  }

  lemma SetAway(a: seq<ElemPos>, i: nat, e: ElemPos, ids: set<nat>)
    requires i < |a| && i !in ids
    ensures AgreeOn(a, a[i := e], ids)
  {
  }

  lemma RemoveNextState(doc: string, a: seq<ElemPos>, free: nat, prolog: string, tree: Forest, y: Ctx, c: Forest,
      k: nat, a1: seq<ElemPos>, doc': string)
    requires State(doc, a, free, prolog, tree) && CtxOK(y) && c.Cons? && c.next.Cons? && Fill(y, c) == tree
        && Par(y) != 0 && CutOK(c.next.gap, k)
    requires c.id < |a| && a1 == a[c.id := a[c.id].LinkNext(Id(c.next.next))]
    requires var i := HolePos(y, |prolog|) + |Body(c)| + |c.gap|;
      i + |Body(c.next)| + k <= |doc| && doc' == Splice(doc, i, i + |Body(c.next)| + k, "")
    ensures CtxOK(Sib(c, y)) && k <= |c.next.gap| && At(a1, Sib(c, y), c.next, 0, true)
    ensures var b := Shifted(a1, BothLeft(Sib(c, y), c.next, true), Ancestors(Sib(c, y)), 0 - (|Body(c.next)| + k));
      && State(doc', b, free, prolog, Fill(y, RemoveNext(c, k))) && SameParents(a, b, free)
    ensures Tidy(prolog, tree) ==> Tidy(prolog, Fill(y, RemoveNext(c, k)))
    ensures c.id in Ids(Fill(y, RemoveNext(c, k))) && Par(y) in Ids(Fill(y, RemoveNext(c, k)))
  {
    hide *;
    StateIs(doc, a, free, prolog, tree);
    FillCons(y, c);
    SibOK(y, c);
    CutLen(c.next.gap, k);
    Sites.NotTop(y);
    FitsFill(y, c, c);
    OneSet(doc, a, free, prolog, y, c, a[c.id].LinkNext(Id(c.next.next)));
    RemoveNextStarts(doc, a, free, prolog, y, c, a[c.id].LinkNext(Id(c.next.next)), a1);
    RemoveNextLaid(doc, a, free, prolog, y, c, k, a1, doc');
    RemoveNextFits(y, c, k);
    PlainNext(c, k);
    var b := Shifted(a1, BothLeft(Sib(c, y), c.next, true), Ancestors(Sib(c, y)), 0 - (|Body(c.next)| + k));
    EditState(doc', b, free, prolog, y, c, RemoveNext(c, k));
    LinkParent(a, c.id, free, Id(c.next.next));
    Sites.LaidBounds(doc, a, free, prolog, tree);
    ShiftedParents(a, a1, free, BothLeft(Sib(c, y), c.next, true), Ancestors(Sib(c, y)), 0 - (|Body(c.next)| + k));
    StillIn(doc, a, free, prolog, tree, y, c, RemoveNext(c, k));
  }

  lemma PlainNext(c: Forest, k: nat)
    requires c.Cons? && c.next.Cons? && k <= |c.next.gap|
    ensures RemoveNext(c, k).Cons? && RemoveNext(c, k).id == c.id && (Plain(c) ==> Plain(RemoveNext(c, k)))
  {
    PlainCell(c);
    PlainCell(c.next);
    PlainCell(RemoveNext(c, k));
  }

  lemma PlainFirst(c: Forest, k: nat)
    requires c.Cons? && c.kids.Cons? && k <= |c.kids.gap|
    ensures RemoveFirst(c, k).Cons? && RemoveFirst(c, k).id == c.id && (Plain(c) ==> Plain(RemoveFirst(c, k)))
  {
    PlainCell(c);
    PlainCell(c.kids);
    PlainCell(RemoveFirst(c, k));
  }

  lemma LinkParent(a: seq<ElemPos>, i: nat, free: nat, n: nat)
    requires i < |a| && free <= |a|
    ensures SameParents(a, a[i := a[i].LinkNext(n)], free) && SameParents(a, a[i := a[i].LinkChild(n)], free)
  {
  }

  /** The cell changed, and what is around it, are still in the tree. */
  lemma StillIn(doc: string, a: seq<ElemPos>, free: nat, prolog: string, tree: Forest, y: Ctx, c: Forest, d: Forest)
    requires State(doc, a, free, prolog, tree) && CtxOK(y) && c.Cons? && d.Cons? && d.id == c.id && Fill(y, c) == tree
    ensures c.id in Ids(Fill(y, d)) && (Par(y) == 0 || Par(y) in Ids(Fill(y, d)))
  {
    hide *;
    StateIs(doc, a, free, prolog, tree);
    PlaceFacts(doc, a, free, prolog, y, c);
    Paths.ParIn(a, y, |prolog|, TextLen(c), c.id);
    FillIds(y, d);
    OwnId(d);
  }

  lemma OwnId(d: Forest)
    requires d.Cons?
    ensures d.id in Ids(d)
  {
  }

  lemma RemoveFirstState(doc: string, a: seq<ElemPos>, free: nat, prolog: string, tree: Forest, y: Ctx, c: Forest,
      k: nat, a1: seq<ElemPos>, doc': string)
    requires State(doc, a, free, prolog, tree) && CtxOK(y) && c.Cons? && c.kids.Cons? && Fill(y, c) == tree
        && CutOK(c.kids.gap, k)
    requires c.id < |a| && a1 == a[c.id := a[c.id].LinkChild(Id(c.kids.next))]
    requires var i := HolePos(y, |prolog|) + |OpenText(c)| + |c.head|;
      i + |Body(c.kids)| + k <= |doc| && doc' == Splice(doc, i, i + |Body(c.kids)| + k, "")
    ensures CtxOK(Child(c, y)) && k <= |c.kids.gap| && At(a1, Child(c, y), c.kids, 0, true)
    ensures var b := Shifted(a1, BothLeft(Child(c, y), c.kids, true), Ancestors(Child(c, y)), 0 - (|Body(c.kids)| + k));
      && State(doc', b, free, prolog, Fill(y, RemoveFirst(c, k))) && SameParents(a, b, free)
    ensures Tidy(prolog, tree) ==> Tidy(prolog, Fill(y, RemoveFirst(c, k)))
    ensures c.id in Ids(Fill(y, RemoveFirst(c, k)))
  {
    hide *;
    StateIs(doc, a, free, prolog, tree);
    FillCons(y, c);
    ChildOK(y, c);
    CutLen(c.kids.gap, k);
    NotEmpty(doc, a, free, prolog, tree, y, c);
    FitsFill(y, c, c);
    LinkKeeps(a[c.id], Id(c.kids.next));
    OneSet(doc, a, free, prolog, y, c, a[c.id].LinkChild(Id(c.kids.next)));
    RemoveFirstStarts(doc, a, free, prolog, y, c, a[c.id].LinkChild(Id(c.kids.next)), a1);
    RemoveFirstLaid(doc, a, free, prolog, y, c, k, a1, doc');
    RemoveFirstFits(y, c, k);
    PlainFirst(c, k);
    var b := Shifted(a1, BothLeft(Child(c, y), c.kids, true), Ancestors(Child(c, y)), 0 - (|Body(c.kids)| + k));
    EditState(doc', b, free, prolog, y, c, RemoveFirst(c, k));
    LinkParent(a, c.id, free, Id(c.kids.next));
    Sites.LaidBounds(doc, a, free, prolog, tree);
    ShiftedParents(a, a1, free, BothLeft(Child(c, y), c.kids, true), Ancestors(Child(c, y)), 0 - (|Body(c.kids)| + k));
    StillIn(doc, a, free, prolog, tree, y, c, RemoveFirst(c, k));
  }

  lemma LinkKeeps(e: ElemPos, i: nat)
    ensures e.LinkChild(i).parent == e.parent && e.LinkChild(i).next == e.next
  {
  }

  lemma SiblingApart(c: Forest)
    requires c.Cons? && Distinct(c) && c.next.Cons?
    ensures c.id != c.next.id
  {
    assert c.next.id in Ids(c.next);
  }

  lemma ChildApart(c: Forest)
    requires c.Cons? && Distinct(c) && c.kids.Cons?
    ensures c.id != c.kids.id
  {
    assert c.kids.id in Ids(c.kids);
  }

  lemma ParentsSame(a: seq<ElemPos>, b: seq<ElemPos>, free: nat, i: nat)
    requires SameParents(a, b, free) && i < free
    ensures i < |a| && i < |b| && b[i].parent == a[i].parent
  {
  }

  lemma RemovedRoot(f: Forest, p: string, pos: nat, k: nat)
    requires f.Cons? && f.id == pos && CutOK(f.gap, k) && UpToTag(f.gap, 0, k)
    ensures k <= |f.gap| && Removed(f, p, Nil, p + f.gap[k..], 0, pos, 0, Top, f, k)
  {
  }

  // ---- agreement after the root is gone ----

  /** A text with a gap in front has an element exactly if it has one without. */
  lemma FrontGap(prolog: string, rest: string)
    requires GapOK(prolog, 0)
    ensures ParseElem(prolog + rest, 0, 1).Elem? <==> ParseElem(rest, 0, 1).Elem?
  {
    hide *;
    var doc := prolog + rest;
    HasAll(doc);
    HasConcat(doc, 0, prolog, rest);
    HasAll(rest);
    if ParseElem(rest, 0, 1).Elem? {
      var x := ParseElem(rest, 0, 1);
      ElemSound(rest, 0, 1);
      JoinGap(prolog, x.lead);
      HasInside(doc, |prolog|, rest, 0, x.lead);
      HasInside(doc, |prolog|, rest, |x.lead|, Body(x.cell));
      HasConcat(doc, 0, prolog, x.lead);
      ElemComplete(prolog + x.lead, x.cell, doc, 0, 1);
    }
    if ParseElem(doc, 0, 1).Elem? {
      var x := ParseElem(doc, 0, 1);
      ElemSound(doc, 0, 1);
      GapHas(prolog, doc, 0);
      LeadEnds(doc, 1);
      TagBounds(doc, |prolog|);
      GapSlice(doc, |prolog|, |x.lead|);
      var w := doc[|prolog|..|x.lead|];
      TailHas(prolog, rest, |x.lead|, Body(x.cell));
      ElemComplete(w, x.cell, rest, 0, 1);
    }
  }

  lemma HasInside(doc: string, u: nat, s: string, v: nat, t: string)
    requires Has(doc, u, s) && Has(s, v, t)
    ensures Has(doc, u + v, t)
  {
    var a, b := doc[u + v..u + v + |t|], doc[u..u + |s|][v..v + |t|];
    forall i | 0 <= i < |t|
      ensures a[i] == b[i]
    {
      assert a[i] == doc[u + v + i] == doc[u..u + |s|][v + i];
    }
    assert a == b;
  }

  lemma LeadEnds(doc: string, id: nat)
    requires ParseElem(doc, 0, id).Elem?
    ensures NextTag(doc, 0).OpenTag? && NextTag(doc, 0).l == |ParseElem(doc, 0, id).lead|
  {
    hide NextTag, ParseKids, EndTag;
  }

  lemma TailHas(prolog: string, rest: string, l: nat, t: string)
    requires Has(prolog + rest, l, t) && |prolog| <= l <= |prolog + rest|
    ensures var w := (prolog + rest)[|prolog|..l]; Has(rest, 0, w) && Has(rest, |w|, t)
  {
    var doc := prolog + rest;
    assert rest[0..l - |prolog|] == doc[|prolog|..l];
    assert rest[l - |prolog|..l - |prolog| + |t|] == doc[l..l + |t|];
  }

  /** The text behind the root is never looked at.  With the root taken out, the index without
      elements agrees with the text exactly if no element stands there. */
  lemma RootGoneAgrees(prolog: string, rest: string)
    requires GapOK(prolog, 0)
    ensures Agrees(prolog + rest, prolog + rest, Nil) <==> !ParseElem(rest, 0, 1).Elem?
  {
    hide ParseElem, GapOK;
    FrontGap(prolog, rest);
  }

  lemma RootGoneState(f: Forest, p: string, g: Forest, q: string, pos: nat, prev: nat, y: Ctx, c: Forest, k: nat,
      doc: string, a: seq<ElemPos>, free: nat)
    requires Removed(f, p, g, q, 0, pos, prev, y, c, k) && State(doc, a, free, q, g) && GapOK(p, 0)
    ensures f.Cons? && k <= |f.gap| && (Agrees(doc, q, g) <==> !ParseElem(f.gap[k..], 0, 1).Elem?)
  {
    hide State, ParseElem, GapOK, FindChar, Agrees;
    AllProlog(doc, a, free, q);
    RootGoneAgrees(p, f.gap[k..]);
  }
}
