/**
  Edits in place: text spliced, entries adjusted around the place, the walk run.
  Each lemma pair says that the walk can start, and that when it is done text and
  array describe the edited tree.
 */
module Surgery {
  import opened Parser
  import opened Index
  import opened Walk
  import opened Edits
  import opened Repair
  import opened Layout

  ghost predicate AgreeOn(a: seq<ElemPos>, b: seq<ElemPos>, ids: set<nat>) {
    |a| <= |b| && forall i :: i in ids && i < |a| ==> b[i] == a[i]
  }

  /** In the context of the edit the walk moves what follows and the ends of what encloses. */
  ghost predicate WalkSets(x: Ctx, both: set<nat>, ends: set<nat>)
    requires CtxOK(x)
  {
    0 !in both && both * CtxIds(x) == Following(x) && ends * CtxIds(x) == Ancestors(x) * CtxIds(x)
  }

  /** What is to be shown of the array: `d` in the place of `c` is laid out once
      the walk over `both` and `ends` has moved everything by `n`. */
  ghost predicate Repaired(a: seq<ElemPos>, a1: seq<ElemPos>, x: Ctx, c: Forest, d: Forest, both: set<nat>,
      ends: set<nat>, n: int, p: nat, free: nat, free': nat)
    requires CtxOK(x)
  {
    && c.Cons? && d.Cons? && d.id == c.id && free <= free' <= |a1|
    && AgreeOn(a, a1, CtxIds(x)) && SameDocEntry(a, a1) && WalkSets(x, both, ends)
    && Rep(Shifted(a1, both, ends, n), d, Par(x), p) && TextLen(d) == TextLen(c) + n
    && Distinct(d) && (forall k :: k in Ids(d) ==> k in Ids(c) || free <= k < free')
    && (x.Top? ==> d.next.Nil?)
  }

  lemma EditLaid(doc: string, a: seq<ElemPos>, free: nat, prolog: string, x: Ctx, c: Forest, d: Forest,
                 a1: seq<ElemPos>, both: set<nat>, ends: set<nat>, n: int, doc': string, free': nat, i: nat, j: nat,
                     ins: string)
    requires CtxOK(x) && CtxFull(x) && c.Cons? && Laid(doc, a, free, prolog, Fill(x, c))
    requires Repaired(a, a1, x, c, d, both, ends, n, HolePos(x, |prolog|), free, free')
    requires i <= j <= |Text(c)| && Text(d) == Splice(Text(c), i, j, ins)
    ensures HolePos(x, |prolog|) + j <= |doc|
    ensures doc' == Splice(doc, HolePos(x, |prolog|) + i, HolePos(x, |prolog|) + j, ins) ==>
      Laid(doc', Shifted(a1, both, ends, n), free', prolog, Fill(x, d))
  {
    hide Rep, TextLen, Text, Splice, Distinct, Ids, Fill, PreText;
    hide PostText, Laid, Shifted, CtxOK, CtxFull, CtxIds, Following, Ancestors, HolePos, Walked, Par;
    var b := Shifted(a1, both, ends, n);
    LaidText(doc, a, free, prolog, x, c);
    EditWalked(a, a1, x, both, ends, n);
    DocSplice(doc, prolog, PreText(x), Text(c), PostText(x), i, j, ins);
    if doc' == Splice(doc, HolePos(x, |prolog|) + i, HolePos(x, |prolog|) + j, ins) {
      ReplaceLaid(doc, a, free, prolog, x, c, doc', b, free', d);
    }
  }

  lemma LaidText(doc: string, a: seq<ElemPos>, free: nat, prolog: string, x: Ctx, c: Forest)
    requires CtxOK(x) && CtxFull(x) && Laid(doc, a, free, prolog, Fill(x, c))
    ensures doc == prolog + (PreText(x) + (Text(c) + PostText(x))) && HolePos(x, |prolog|) == |prolog| + |PreText(x)|
  {
    hide Text, Rep, Distinct, Ids, Fill, CtxFull, HolePos, PreText, PostText;
    FillText(x, c, |prolog|);
  }

  lemma EditWalked(a: seq<ElemPos>, a1: seq<ElemPos>, x: Ctx, both: set<nat>, ends: set<nat>, n: int)
    requires CtxOK(x) && AgreeOn(a, a1, CtxIds(x)) && SameDocEntry(a, a1) && WalkSets(x, both, ends)
    ensures Walked(a, Shifted(a1, both, ends, n), x, n) && SameDocEntry(a, Shifted(a1, both, ends, n))
  {
    hide CtxIds, Following, Ancestors;
    var b := Shifted(a1, both, ends, n);
    forall i | i in CtxIds(x) && i < |a|
      ensures b[i] == if i in Following(x) then a[i].AdjustStart(n).AdjustEnd(n)
          else if i in Ancestors(x) then a[i].AdjustEnd(n) else a[i]
    {
      assert i in both <==> i in both * CtxIds(x);
      assert i in ends <==> i in ends * CtxIds(x);
      assert i in Ancestors(x) <==> i in Ancestors(x) * CtxIds(x);
    }
  }

  lemma DocSplice(doc: string, p: string, q: string, t: string, r: string, i: nat, j: nat, ins: string)
    requires doc == p + (q + (t + r)) && i <= j <= |t|
    ensures |p| + |q| + j <= |doc|
    ensures Splice(doc, |p| + |q| + i, |p| + |q| + j, ins) == p + (q + (Splice(t, i, j, ins) + r))
  {
    Assoc(p, q, t + r);
    Assoc(p, q, Splice(t, i, j, ins) + r);
    SpliceInside(p + q, t, r, i, j, ins);
  }

  // ---- what the array says about a place ----

  /** Everything the array says about an element found in its context. */
  lemma PlaceFacts(doc: string, a: seq<ElemPos>, free: nat, prolog: string, x: Ctx, c: Forest)
    requires CtxOK(x) && c.Cons? && Laid(doc, a, free, prolog, Fill(x, c))
    ensures RepCtx(a, x, |prolog|, TextLen(c), c.id) && Rep(a, c, Par(x), HolePos(x, |prolog|))
    ensures LinksUp(a, x) && Links(a, c, Par(x))
    ensures DistinctCtx(x) && Distinct(c) && CtxIds(x) !! Ids(c) && forall i :: i in CtxIds(x) + Ids(c) ==> 0 < i < free
    ensures c.id < |a| && a[c.id] == Entry(c, HolePos(x, |prolog|), TextLen(c.kids), Par(x), Id(c.kids), Id(c.next))
  {
    hide TextLen, RepCtx, Rep, Fill, Distinct, Links, LinksUp, HolePos, Par, CtxIds, Text, Entry;
    RepFill(a, x, c, |prolog|);
    PlaceIds(x, c, free);
    RepCtxLinks(a, x, |prolog|, TextLen(c), c.id);
    RepLinks(a, c, Par(x), HolePos(x, |prolog|));
    RepCons(a, c, Par(x), HolePos(x, |prolog|));
  }

  lemma PlaceIds(x: Ctx, c: Forest, free: nat)
    requires CtxOK(x) && Distinct(Fill(x, c)) && forall i :: i in Ids(Fill(x, c)) ==> i < free
    ensures DistinctCtx(x) && Distinct(c) && CtxIds(x) !! Ids(c) && forall i :: i in CtxIds(x) + Ids(c) ==> 0 < i < free
  {
    hide Fill, Distinct, CtxIds;
    FillIds(x, c);
    ZeroFree(Fill(x, c));
  }

  lemma LinksKept(a: seq<ElemPos>, b: seq<ElemPos>, f: Forest, par: nat)
    requires Links(a, f, par) && AgreeOn(a, b, Ids(f))
    ensures Links(b, f, par)
    decreases f
  {
    if f.Cons? {
      assert f.id in Ids(f);
      LinksKept(a, b, f.kids, f.id);
      LinksKept(a, b, f.next, par);
    }
  }

  lemma {:induction false} LinksUpKept(a: seq<ElemPos>, b: seq<ElemPos>, x: Ctx)
    requires CtxOK(x) && LinksUp(a, x) && AgreeOn(a, b, CtxIds(x))
    ensures LinksUp(b, x)
    decreases x
  {
    match x
    case Top =>
    case Sib(c, up) => LinksUpKept(a, b, up);
    case Child(c, up) =>
      assert c.id in CtxIds(x);
      LinksKept(a, b, c.next, Par(up));
      LinksUpKept(a, b, up);
  }

  // ---- indices ----

  /** An element in its place: every index is used once, and below `free`. */
  ghost predicate Place(x: Ctx, c: Forest, free: nat) {
    && CtxOK(x) && c.Cons? && DistinctCtx(x) && Distinct(c) && CtxIds(x) !! Ids(c)
    && (forall i :: i in CtxIds(x) ==> 0 < i < free) && (forall i :: i in Ids(c) ==> 0 < i < free)
  }

  /** A new subtree, with indices of its own. */
  ghost predicate Fresh(t: Forest, free: nat, free': nat) {
    t.Cons? && Distinct(t) && t.next.Nil? && t.gap == "" && free <= free' && forall i :: i in Ids(t) ==>
        free <= i < free'
  }

  /** The new subtree in front of older elements. */
  lemma FreshCell(t: Forest, free: nat, free': nat, n: Forest, g: string)
    requires Fresh(t, free, free') && Distinct(n) && forall i :: i in Ids(n) ==> i < free
    ensures Distinct(t.(gap := g, next := n)) && Ids(t.(gap := g, next := n)) == Ids(t) + Ids(n)
    ensures t.id in Ids(t) && Ids(t.kids) <= Ids(t) && Ids(t) !! Ids(n)
  {
    assert Ids(t.next) == {};
    forall i | i in Ids(t)
      ensures i !in Ids(n)
    {
    }
    assert t.id in Ids(t);
    assert Ids(t.kids) <= Ids(t);
  }

  lemma SibPlace(x: Ctx, c: Forest, free: nat)
    requires Place(x, c, free)
    ensures CtxOK(Sib(c, x)) && DistinctCtx(Sib(c, x)) && CtxIds(Sib(c, x)) == CtxIds(x) + ({c.id} + Ids(c.kids))
    ensures Distinct(c.next) && CtxIds(Sib(c, x)) !! Ids(c.next)
    ensures forall i :: i in CtxIds(Sib(c, x)) + Ids(c.next) ==> 0 < i < free
  {
    assert Ids(c) == {c.id} + Ids(c.kids) + Ids(c.next);
  }

  lemma ChildPlace(x: Ctx, c: Forest, free: nat)
    requires Place(x, c, free)
    ensures CtxOK(Child(c, x)) && DistinctCtx(Child(c, x)) && CtxIds(Child(c, x)) == CtxIds(x) + ({c.id} + Ids(c.next))
    ensures Distinct(c.kids) && CtxIds(Child(c, x)) !! Ids(c.kids)
    ensures forall i :: i in CtxIds(Child(c, x)) + Ids(c.kids) ==> 0 < i < free
  {
    assert Ids(c) == {c.id} + Ids(c.kids) + Ids(c.next);
  }

  /** The walk can start at a new subtree linked into `y` in front of `n`. */
  lemma NewStarts(a1: seq<ElemPos>, y: Ctx, n: Forest, t: Forest, free: nat, free': nat, skip: bool)
    requires CtxOK(y) && DistinctCtx(y) && Distinct(n) && CtxIds(y) !! Ids(n) && forall i :: i in CtxIds(y) + Ids(n) ==>
        0 < i < free
    requires Fresh(t, free, free') && t.id < |a1|
    requires LinksUp(a1, y) && Links(a1, n, Par(y))
    requires a1[t.id].parent == Par(y) && a1[t.id].next == Id(n) && a1[t.id].child == Id(t.kids)
        && Links(a1, t.kids, t.id)
    ensures At(a1, y, t.(next := n), 0, skip)
  {
    hide LinksUp, Links, DistinctCtx, CtxIds;
    forall i | i in Ids(n)
      ensures i < free
    {
      assert i in CtxIds(y) + Ids(n);
    }
    FreshCell(t, free, free', n, t.gap);
    forall i | i in CtxIds(y)
      ensures i !in Ids(t)
    {
      assert i in CtxIds(y) + Ids(n);
    }
  }

  // ---- insertion behind an element ----

  /** The array just before the walk: `t` is laid out at `q` and linked in behind `c`. */
  ghost predicate AfterReady(a: seq<ElemPos>, a1: seq<ElemPos>, x: Ctx, c: Forest, t: Forest, q: nat, free': nat)
    requires CtxOK(x) && c.Cons? && t.Cons?
  {
    && AgreeOn(a, a1, CtxIds(x)) && AgreeOn(a, a1, Ids(c.kids)) && AgreeOn(a, a1, Ids(c.next)) && SameDocEntry(a, a1)
    && c.id < |a| && a1[c.id] == a[c.id].LinkNext(t.id) && t.id < |a1| && free' <= |a1|
    && a1[t.id] == Entry(t, q, TextLen(t.kids), Par(x), Id(t.kids), Id(c.next)) && Rep(a1, t.kids, t.id, KidsPos(t, q))
  }

  lemma InsertAfterStarts(doc: string, a: seq<ElemPos>, free: nat, prolog: string, x: Ctx, c: Forest, t: Forest, q: nat,
      skip: bool, a1: seq<ElemPos>, free': nat)
    requires CtxOK(x) && c.Cons? && Laid(doc, a, free, prolog, Fill(x, c))
    requires Fresh(t, free, free') && AfterReady(a, a1, x, c, t, q, free')
    ensures At(a1, Sib(c, x), t.(next := c.next), 0, skip)
  {
    hide Laid, Rep, Links, LinksUp, Fill, Distinct, DistinctCtx, RepCtx, Ids, CtxIds;
    PlaceFacts(doc, a, free, prolog, x, c);
    PlaceIs(x, c, free);
    SibPlace(x, c, free);
    LinksNext(a, c, Par(x));
    LinksUpKept(a, a1, x);
    LinksUpSib(a1, x, c);
    LinksKept(a, a1, c.next, Par(x));
    RepLinks(a1, t.kids, t.id, KidsPos(t, q));
    NewStarts(a1, Sib(c, x), c.next, t, free, free', skip);
  }

  lemma PlaceIs(x: Ctx, c: Forest, free: nat)
    requires CtxOK(x) && c.Cons? && DistinctCtx(x) && Distinct(c) && CtxIds(x) !! Ids(c)
    requires forall i :: i in CtxIds(x) + Ids(c) ==> 0 < i < free
    ensures Place(x, c, free)
  {
    hide DistinctCtx, Distinct, CtxIds, Ids;
    forall i | i in CtxIds(x) ensures 0 < i < free { assert i in CtxIds(x) + Ids(c); }
    forall i | i in Ids(c) ensures 0 < i < free { assert i in CtxIds(x) + Ids(c); }
  }

  lemma LinksUpSib(a: seq<ElemPos>, x: Ctx, c: Forest)
    requires CtxOK(x) && c.Cons? && LinksUp(a, x)
    ensures LinksUp(a, Sib(c, x)) && Par(Sib(c, x)) == Par(x)
  {
  }

  lemma LinksNext(a: seq<ElemPos>, c: Forest, par: nat)
    requires c.Cons? && Links(a, c, par)
    ensures Links(a, c.next, par) && Links(a, c.kids, c.id)
  {
  }

  lemma InsertAfterLaid(doc: string, a: seq<ElemPos>, free: nat, prolog: string, x: Ctx, c: Forest,
                        k: nat, lead: string, t: Forest, trail: string, skip: bool, a1: seq<ElemPos>, doc': string,
                            free': nat)
    requires CtxOK(x) && CtxFull(x) && c.Cons? && !x.Top? && Laid(doc, a, free, prolog, Fill(x, c)) && k <= |c.gap|
    requires t.Cons? && Fresh(t, free, free') && (skip || t.kids.Nil?)
    requires AfterReady(a, a1, x, c, t, HolePos(x, |prolog|) + |Body(c)| + k + |lead|, free')
    requires var at := HolePos(x, |prolog|) + |Body(c)| + k;
      at <= |doc| && doc' == Splice(doc, at, at, lead + (Body(t) + trail))
    ensures var y := Sib(c, x);
      Laid(doc', Shifted(a1, BothLeft(y, t.(next := c.next), skip), Ancestors(y), |lead + (Body(t) + trail)|), free',
          prolog, Fill(x, InsertAfter(c, k, lead, t, trail)))
  {
    hide *;
    InsertAfterText(c, k, lead, t, trail);
    AfterBoth(x, c, t, skip);
    InsertAfterRepaired(doc, a, free, prolog, x, c, k, lead, t, trail, a1, free');
    EditLaid(doc, a, free, prolog, x, c, InsertAfter(c, k, lead, t, trail), a1, Ids(c.next) + Following(x),
        Ancestors(x), |lead + (Body(t) + trail)|,
             doc', free', |Body(c)| + k, |Body(c)| + k, lead + (Body(t) + trail));
  }

  lemma InsertAfterRepaired(doc: string, a: seq<ElemPos>, free: nat, prolog: string, x: Ctx, c: Forest,
                            k: nat, lead: string, t: Forest, trail: string, a1: seq<ElemPos>, free': nat)
    requires CtxOK(x) && c.Cons? && !x.Top? && Laid(doc, a, free, prolog, Fill(x, c)) && k <= |c.gap|
        && Fresh(t, free, free')
    requires AfterReady(a, a1, x, c, t, HolePos(x, |prolog|) + |Body(c)| + k + |lead|, free')
    ensures Repaired(a, a1, x, c, InsertAfter(c, k, lead, t, trail), Ids(c.next) + Following(x), Ancestors(x),
        |lead + (Body(t) + trail)|, HolePos(x, |prolog|), free, free')
  {
    hide Rep, TextLen, Ids, Distinct, Laid, Body, Shifted, RepCtx, Links, LinksUp, DistinctCtx, CtxIds;
    hide InsertAfter, Entry, KidsPos, BodyLen, Fill, HolePos, Following, Ancestors, Place, Par, Text, WalkSets;
    PlaceFacts(doc, a, free, prolog, x, c);
    PlaceIs(x, c, free);
    TextLenIs(c);
    AfterRep(a, a1, x, c, k, lead, t, trail, free, free', HolePos(x, |prolog|), |lead + (Body(t) + trail)|);
    InsertAfterIds(x, c, k, lead, t, trail, free, free');
    InsertAfterHead(c, k, lead, t, trail);
  }

  lemma InsertAfterHead(c: Forest, k: nat, lead: string, t: Forest, trail: string)
    requires c.Cons? && k <= |c.gap| && t.Cons?
    ensures InsertAfter(c, k, lead, t, trail).Cons? && InsertAfter(c, k, lead, t, trail).id == c.id
  {
  }

  lemma AfterRep(a: seq<ElemPos>, a1: seq<ElemPos>, x: Ctx, c: Forest, k: nat, lead: string, t: Forest, trail: string,
      free: nat, free': nat, p: nat, n: nat)
    requires CtxOK(x) && c.Cons? && t.Cons? && Place(x, c, free) && k <= |c.gap| && Fresh(t, free, free')
        && Rep(a, c, Par(x), p)
    requires AfterReady(a, a1, x, c, t, p + BodyLen(c, TextLen(c.kids)) + k + |lead|, free')
    requires n == |lead + (Body(t) + trail)|
    ensures Rep(Shifted(a1, Ids(c.next) + Following(x), Ancestors(x), n), InsertAfter(c, k, lead, t, trail), Par(x), p)
    ensures TextLen(InsertAfter(c, k, lead, t, trail)) == TextLen(c) + n
    ensures WalkSets(x, Ids(c.next) + Following(x), Ancestors(x))
  {
    hide Rep, TextLen, Ids, Body, Shifted, InsertAfter, Entry, KidsPos, BodyLen, Following, Ancestors, Place, Kept,
        Moved;
    var both := Ids(c.next) + Following(x);
    var b := Shifted(a1, both, Ancestors(x), n);
    TextLenIs(t);
    AfterMoved(a, a1, x, c, t, free, free', both, n);
    KeptRep(a1, b, t.kids, t.id, KidsPos(t, p + BodyLen(c, TextLen(c.kids)) + k + |lead|));
    InsertAfterRep(a, b, c, k, lead, t, trail, Par(x), p);
  }

  lemma AfterBoth(x: Ctx, c: Forest, t: Forest, skip: bool)
    requires CtxOK(x) && c.Cons? && t.Cons? && (skip || t.kids.Nil?)
    ensures BothLeft(Sib(c, x), t.(next := c.next), skip) == Ids(c.next) + Following(x)
        && Ancestors(Sib(c, x)) == Ancestors(x)
  {
  }

  lemma AfterMoved(a: seq<ElemPos>, a1: seq<ElemPos>, x: Ctx, c: Forest, t: Forest, free: nat, free': nat,
      both: set<nat>, n: int)
    requires Place(x, c, free) && Fresh(t, free, free') && both == Ids(c.next) + Following(x) && free' <= |a1|
        && c.id < |a1| && t.id < |a1|
    requires AgreeOn(a, a1, Ids(c.kids)) && AgreeOn(a, a1, Ids(c.next))
    ensures var b := Shifted(a1, both, Ancestors(x), n);
      Kept(a, b, c.kids) && Moved(a, b, c.next, n) && b[c.id] == a1[c.id] && b[t.id] == a1[t.id] && Kept(a1, b, t.kids)
    ensures WalkSets(x, both, Ancestors(x))
  {
    hide DistinctCtx, CtxIds, Following, Ancestors, Shifted;
    FollowingIn(x);
    assert Ids(c) == {c.id} + Ids(c.kids) + Ids(c.next);
    assert Ids(t) == {t.id} + Ids(t.kids) + Ids(t.next);
    assert forall i :: i in Ids(c) ==> i !in Ancestors(x) && i !in Following(x);
    assert forall i :: i in Ids(t) ==> i !in Ancestors(x) && i !in both;
  }

  lemma InsertAfterIds(x: Ctx, c: Forest, k: nat, lead: string, t: Forest, trail: string, free: nat, free': nat)
    requires Place(x, c, free) && k <= |c.gap| && Fresh(t, free, free')
    ensures var d := InsertAfter(c, k, lead, t, trail);
      Distinct(d) && forall i :: i in Ids(d) ==> i in Ids(c) || free <= i < free'
  {
    assert Ids(c) == {c.id} + Ids(c.kids) + Ids(c.next);
    FreshCell(t, free, free', c.next, trail + c.gap[k..]);
    var e := t.(gap := trail + c.gap[k..], next := c.next);
    assert Ids(e) !! {c.id} + Ids(c.kids) by {
      forall i | i in Ids(t) ensures i !in Ids(c) { }
    }
  }

  // ---- insertion as the first child ----

  lemma MovedBy(a: seq<ElemPos>, a1: seq<ElemPos>, f: Forest, both: set<nat>, ends: set<nat>, n: int)
    requires AgreeOn(a, a1, Ids(f)) && Ids(f) <= both
    ensures Moved(a, Shifted(a1, both, ends, n), f, n)
  {
  }

  lemma KeptBy(a: seq<ElemPos>, a1: seq<ElemPos>, f: Forest, both: set<nat>, ends: set<nat>, n: int)
    requires AgreeOn(a, a1, Ids(f)) && Ids(f) !! both && Ids(f) !! ends
    ensures Kept(a, Shifted(a1, both, ends, n), f)
  {
  }

  /** The walk from inside `c`: what follows `c`, its later parts, and the ends around. */
  lemma InsideSets(x: Ctx, c: Forest, free: nat, inner: set<nat>)
    requires Place(x, c, free) && inner <= Ids(c.kids)
    ensures var both, ends := inner + Ids(c.next) + Following(x), {c.id} + Ancestors(x);
      && WalkSets(x, both, ends) && c.id !in both && c.id in ends
      && (forall i :: i in both ==> i < free) && (forall i :: i in ends ==> i < free || i == 0)
  {
    hide DistinctCtx;
    FollowingIn(x);
    assert Ids(c) == {c.id} + Ids(c.kids) + Ids(c.next);
    assert forall i :: i in Ids(c) ==> i !in Ancestors(x) && i !in Following(x) && i !in CtxIds(x);
  }

  lemma FreshApart(t: Forest, free: nat, free': nat, s: set<nat>)
    requires 0 < free && Fresh(t, free, free') && forall i :: i in s ==> i < free || i == 0
    ensures Ids(t) !! s && Ids(t.kids) !! s && t.id !in s
  {
    assert t.id in Ids(t) && Ids(t.kids) <= Ids(t);
  }

  lemma InsideBoth(x: Ctx, c: Forest, t: Forest, skip: bool)
    requires CtxOK(x) && c.Cons? && t.Cons? && (skip || t.kids.Nil?)
    ensures BothLeft(Child(c, x), t.(next := c.kids), skip) == Ids(c.kids) + Ids(c.next) + Following(x)
    ensures Ancestors(Child(c, x)) == {c.id} + Ancestors(x)
  {
  }

  /** The array just before the walk: `t` is laid out at `q` and linked in as the first
      child of `c`, whose entry has been set to `e`. */
  ghost predicate FirstReady(a: seq<ElemPos>, a1: seq<ElemPos>, x: Ctx, c: Forest, e: ElemPos, t: Forest, q: nat,
      free': nat)
    requires CtxOK(x) && c.Cons? && t.Cons?
  {
    && AgreeOn(a, a1, CtxIds(x)) && AgreeOn(a, a1, Ids(c.kids)) && AgreeOn(a, a1, Ids(c.next)) && SameDocEntry(a, a1)
    && c.id < |a| && a1[c.id] == e && t.id < |a1| && free' <= |a1|
    && a1[t.id] == Entry(t, q, TextLen(t.kids), c.id, Id(t.kids), Id(c.kids)) && Rep(a1, t.kids, t.id, KidsPos(t, q))
  }

  lemma InsertFirstStarts(doc: string, a: seq<ElemPos>, free: nat, prolog: string, x: Ctx, c: Forest, e: ElemPos,
      t: Forest, q: nat, skip: bool, a1: seq<ElemPos>, free': nat)
    requires CtxOK(x) && c.Cons? && Laid(doc, a, free, prolog, Fill(x, c))
    requires Fresh(t, free, free') && FirstReady(a, a1, x, c, e, t, q, free') && c.id < |a|
        && e.parent == a[c.id].parent && e.next == a[c.id].next
    ensures At(a1, Child(c, x), t.(next := c.kids), 0, skip)
  {
    hide Laid, Rep, Links, LinksUp, Fill, Distinct, DistinctCtx, RepCtx, Ids, CtxIds;
    PlaceFacts(doc, a, free, prolog, x, c);
    PlaceIs(x, c, free);
    ChildPlace(x, c, free);
    LinksNext(a, c, Par(x));
    LinksUpKept(a, a1, x);
    LinksKept(a, a1, c.next, Par(x));
    LinksKept(a, a1, c.kids, c.id);
    LinksUpChild(a1, x, c);
    RepLinks(a1, t.kids, t.id, KidsPos(t, q));
    NewStarts(a1, Child(c, x), c.kids, t, free, free', skip);
  }

  lemma LinksUpChild(a: seq<ElemPos>, x: Ctx, c: Forest)
    requires CtxOK(x) && c.Cons? && LinksUp(a, x) && c.id < |a| && a[c.id].parent == Par(x)
        && a[c.id].next == Id(c.next) && Links(a, c.next, Par(x))
    ensures LinksUp(a, Child(c, x)) && Par(Child(c, x)) == c.id
  {
  }

  lemma FirstMoved(a: seq<ElemPos>, a1: seq<ElemPos>, x: Ctx, c: Forest, e: ElemPos, t: Forest, q: nat, free: nat,
      free': nat, n: int)
    requires CtxOK(x) && c.Cons? && t.Cons? && Place(x, c, free) && Fresh(t, free, free')
        && FirstReady(a, a1, x, c, e, t, q, free')
    ensures var both, ends := Ids(c.kids) + Ids(c.next) + Following(x), {c.id} + Ancestors(x);
      var b := Shifted(a1, both, ends, n);
      && WalkSets(x, both, ends) && Moved(a, b, c.kids, n) && Moved(a, b, c.next, n)
      && c.id < |a1| && t.id < |a1| && b[c.id] == e.AdjustEnd(n) && b[t.id] == a1[t.id]
      && Rep(b, t.kids, t.id, KidsPos(t, q))
  {
    hide DistinctCtx, CtxIds, Following, Ancestors, Ids, Distinct, Rep, Entry, KidsPos, TextLen, Place, Moved, Kept,
        AgreeOn, WalkSets, Par;
    var both, ends := Ids(c.kids) + Ids(c.next) + Following(x), {c.id} + Ancestors(x);
    PlacePos(x, c, free);
    InsideSets(x, c, free, Ids(c.kids));
    MovedBy(a, a1, c.kids, both, ends, n);
    MovedBy(a, a1, c.next, both, ends, n);
    FreshApart(t, free, free', both);
    FreshApart(t, free, free', ends);
    SelfAgree(a1, t.kids);
    KeptBy(a1, a1, t.kids, both, ends, n);
    KeptRep(a1, Shifted(a1, both, ends, n), t.kids, t.id, KidsPos(t, q));
  }

  lemma SelfAgree(a: seq<ElemPos>, f: Forest)
    ensures AgreeOn(a, a, Ids(f))
  {
  }

  lemma PlacePos(x: Ctx, c: Forest, free: nat)
    requires Place(x, c, free)
    ensures 0 < free && 0 < c.id
  {
    assert c.id in Ids(c);
  }

  lemma FirstIds(x: Ctx, c: Forest, d: Forest, t: Forest, g: string, free: nat, free': nat)
    requires Place(x, c, free) && Fresh(t, free, free') && d.Cons? && d.id == c.id && d.next == c.next
        && d.kids == t.(gap := g, next := c.kids)
    ensures Distinct(d) && forall i :: i in Ids(d) ==> i in Ids(c) || free <= i < free'
  {
    assert Ids(c) == {c.id} + Ids(c.kids) + Ids(c.next);
    FreshCell(t, free, free', c.kids, g);
    assert Ids(d.kids) !! {c.id} + Ids(c.next) by {
      forall i | i in Ids(t) ensures i !in Ids(c) { }
    }
  }

  lemma InsertFirstLaid(doc: string, a: seq<ElemPos>, free: nat, prolog: string, x: Ctx, c: Forest,
                        k: nat, lead: string, t: Forest, trail: string, skip: bool, a1: seq<ElemPos>, doc': string,
                            free': nat)
    requires CtxOK(x) && CtxFull(x) && c.Cons? && !c.empty && Laid(doc, a, free, prolog, Fill(x, c)) && k <= |c.head|
    requires t.Cons? && Fresh(t, free, free') && (skip || t.kids.Nil?) && c.id < |a|
    requires FirstReady(a, a1, x, c, a[c.id].LinkChild(t.id), t, HolePos(x, |prolog|) + |OpenText(c)| + k + |lead|,
        free')
    requires var at := HolePos(x, |prolog|) + |OpenText(c)| + k;
      at <= |doc| && doc' == Splice(doc, at, at, lead + (Body(t) + trail))
    ensures var y := Child(c, x);
      Laid(doc', Shifted(a1, BothLeft(y, t.(next := c.kids), skip), Ancestors(y), |lead + (Body(t) + trail)|), free',
          prolog, Fill(x, InsertFirst(c, k, lead, t, trail)))
  {
    hide *;
    InsertFirstText(c, k, lead, t, trail);
    InsideBoth(x, c, t, skip);
    InsertFirstRepaired(doc, a, free, prolog, x, c, k, lead, t, trail, a1, free');
    EditLaid(doc, a, free, prolog, x, c, InsertFirst(c, k, lead, t, trail), a1,
        Ids(c.kids) + Ids(c.next) + Following(x), {c.id} + Ancestors(x), |lead + (Body(t) + trail)|,
             doc', free', |OpenText(c)| + k, |OpenText(c)| + k, lead + (Body(t) + trail));
  }

  /** The first root has nothing beside it. */
  lemma TopAlone(doc: string, a: seq<ElemPos>, free: nat, prolog: string, x: Ctx, c: Forest)
    requires CtxOK(x) && c.Cons? && Laid(doc, a, free, prolog, Fill(x, c))
    ensures x.Top? ==> c.next.Nil?
  {
  }

  lemma InsertFirstRepaired(doc: string, a: seq<ElemPos>, free: nat, prolog: string, x: Ctx, c: Forest,
                            k: nat, lead: string, t: Forest, trail: string, a1: seq<ElemPos>, free': nat)
    requires CtxOK(x) && c.Cons? && !c.empty && Laid(doc, a, free, prolog, Fill(x, c)) && k <= |c.head|
        && Fresh(t, free, free') && c.id < |a|
    requires FirstReady(a, a1, x, c, a[c.id].LinkChild(t.id), t, HolePos(x, |prolog|) + |OpenText(c)| + k + |lead|,
        free')
    ensures Repaired(a, a1, x, c, InsertFirst(c, k, lead, t, trail), Ids(c.kids) + Ids(c.next) + Following(x),
        {c.id} + Ancestors(x),
                     |lead + (Body(t) + trail)|, HolePos(x, |prolog|), free, free')
  {
    hide Rep, TextLen, Ids, Distinct, Laid, Body, Shifted, RepCtx, Links, LinksUp, DistinctCtx, CtxIds;
    hide InsertFirst, Entry, KidsPos, BodyLen, Fill, HolePos, Following, Ancestors, Place, Par, FirstReady, Text,
        WalkSets, Moved;
    var n := |lead + (Body(t) + trail)|;
    var p := HolePos(x, |prolog|);
    PlaceFacts(doc, a, free, prolog, x, c);
    PlaceIs(x, c, free);
    TopAlone(doc, a, free, prolog, x, c);
    TextLenIs(t);
    FirstMoved(a, a1, x, c, a[c.id].LinkChild(t.id), t, p + OpenLen(c) + k + |lead|, free, free', n);
    FirstEntry(a1, t, c, x, a, a[c.id].LinkChild(t.id), p + OpenLen(c) + k + |lead|, free');
    InsertFirstRep(a, Shifted(a1, Ids(c.kids) + Ids(c.next) + Following(x), {c.id} + Ancestors(x), n), c, k, lead, t,
        trail, Par(x), p);
    InsertFirstHead(c, k, lead, t, trail);
    FirstIds(x, c, InsertFirst(c, k, lead, t, trail), t, trail + c.head[k..], free, free');
  }

  lemma InsertFirstHead(c: Forest, k: nat, lead: string, t: Forest, trail: string)
    requires c.Cons? && k <= |c.head| && t.Cons?
    ensures var d := InsertFirst(c, k, lead, t, trail);
      d.Cons? && d.id == c.id && d.next == c.next && d.kids == t.(gap := trail + c.head[k..], next := c.kids)
  {
  }

  lemma FirstEntry(a1: seq<ElemPos>, t: Forest, c: Forest, x: Ctx, a: seq<ElemPos>, e: ElemPos, q: nat, free': nat)
    requires CtxOK(x) && c.Cons? && t.Cons? && FirstReady(a, a1, x, c, e, t, q, free')
    ensures t.id < |a1| && a1[t.id] == Entry(t, q, TextLen(t.kids), c.id, Id(t.kids), Id(c.kids))
    ensures AgreeOn(a, a1, CtxIds(x)) && SameDocEntry(a, a1) && free' <= |a1|
  {
  }

  // ---- insertion into an empty element ----

  lemma InsertSplitLaid(doc: string, a: seq<ElemPos>, free: nat, prolog: string, x: Ctx, c: Forest, name: string,
                        lead: string, t: Forest, trail: string, skip: bool, a1: seq<ElemPos>, doc': string, free': nat)
    requires CtxOK(x) && CtxFull(x) && c.Cons? && c.empty && CellOK(c) && Laid(doc, a, free, prolog, Fill(x, c))
    requires t.Cons? && Fresh(t, free, free') && (skip || t.kids.Nil?) && c.id < |a|
    requires FirstReady(a, a1, x, c, a[c.id].PreSplit(1 + |name|).LinkChild(t.id), t,
        HolePos(x, |prolog|) + |c.tag| + 3 + |lead|, free')
    requires var at := HolePos(x, |prolog|) + |c.tag|;
      at + 1 <= |doc| && doc' == Splice(doc, at, at + 1, SplitInsert(lead + (Body(t) + trail), name))
    ensures var y := Child(c, x);
      Laid(doc', Shifted(a1, BothLeft(y, t.(next := c.kids), skip), Ancestors(y),
          |lead + (Body(t) + trail)| + |name| + 4), free', prolog,
           Fill(x, InsertSplit(c, name, lead, t, trail)))
  {
    hide *;
    EmptyCell(c);
    InsertSplitText(c, name, lead, t, trail);
    InsideBoth(x, c, t, skip);
    InsertSplitRepaired(doc, a, free, prolog, x, c, name, lead, t, trail, a1, free');
    EditLaid(doc, a, free, prolog, x, c, InsertSplit(c, name, lead, t, trail), a1,
        Ids(c.kids) + Ids(c.next) + Following(x), {c.id} + Ancestors(x),
             |lead + (Body(t) + trail)| + |name| + 4, doc', free', |c.tag|, |c.tag| + 1,
                 SplitInsert(lead + (Body(t) + trail), name));
  }

  lemma EmptyCell(c: Forest)
    requires c.Cons? && CellOK(c)
    ensures c.empty ==> c.kids.Nil? && c.head == "" && c.close == ""
  {
    hide TagOK, GapOK, CloseOK;
  }

  lemma InsertSplitRepaired(doc: string, a: seq<ElemPos>, free: nat, prolog: string, x: Ctx, c: Forest, name: string,
                            lead: string, t: Forest, trail: string, a1: seq<ElemPos>, free': nat)
    requires CtxOK(x) && c.Cons? && c.empty && c.kids.Nil? && c.head == "" && c.close == ""
        && Laid(doc, a, free, prolog, Fill(x, c))
    requires Fresh(t, free, free') && c.id < |a|
    requires FirstReady(a, a1, x, c, a[c.id].PreSplit(1 + |name|).LinkChild(t.id), t,
        HolePos(x, |prolog|) + |c.tag| + 3 + |lead|, free')
    ensures Repaired(a, a1, x, c, InsertSplit(c, name, lead, t, trail), Ids(c.kids) + Ids(c.next) + Following(x),
        {c.id} + Ancestors(x),
                     |lead + (Body(t) + trail)| + |name| + 4, HolePos(x, |prolog|), free, free')
  {
    hide *;
    FreshCons(t, free, free');
    var n := |lead + (Body(t) + trail)| + |name| + 4;
    var p := HolePos(x, |prolog|);
    var e := a[c.id].PreSplit(1 + |name|).LinkChild(t.id);
    var both, ends := Ids(c.kids) + Ids(c.next) + Following(x), {c.id} + Ancestors(x);
    var d := InsertSplit(c, name, lead, t, trail);
    EmptyOpenLen(c);
    PlaceFacts(doc, a, free, prolog, x, c);
    PlaceIs(x, c, free);
    TopAlone(doc, a, free, prolog, x, c);
    TextLenIs(t);
    FirstMoved(a, a1, x, c, e, t, p + OpenLen(c) + 1 + |lead|, free, free', n);
    FirstEntry(a1, t, c, x, a, e, p + OpenLen(c) + 1 + |lead|, free');
    InsertSplitRep(a, Shifted(a1, both, ends, n), c, name, lead, t, trail, Par(x), p);
    InsertSplitHead(c, name, lead, t, trail);
    FirstIds(x, c, d, t, trail, free, free');
    RepairedIs(a, a1, x, c, d, both, ends, n, p, free, free');
  }

  lemma FreshCons(t: Forest, free: nat, free': nat)
    requires Fresh(t, free, free')
    ensures t.Cons? && free <= free'
  {
  }

  lemma EmptyOpenLen(c: Forest)
    requires c.Cons? && c.empty && c.kids.Nil?
    ensures OpenLen(c) == |c.tag| + 2 && Id(c.kids) == 0
  {
  }

  lemma RepairedIs(a: seq<ElemPos>, a1: seq<ElemPos>, x: Ctx, c: Forest, d: Forest, both: set<nat>, ends: set<nat>,
      n: int, p: nat, free: nat, free': nat)
    requires CtxOK(x) && c.Cons? && d.Cons? && d.id == c.id && free <= free' <= |a1|
    requires AgreeOn(a, a1, CtxIds(x)) && SameDocEntry(a, a1) && WalkSets(x, both, ends)
    requires Rep(Shifted(a1, both, ends, n), d, Par(x), p) && TextLen(d) == TextLen(c) + n
    requires Distinct(d) && (forall k :: k in Ids(d) ==> k in Ids(c) || free <= k < free')
    requires x.Top? ==> d.next.Nil?
    ensures Repaired(a, a1, x, c, d, both, ends, n, p, free, free')
  {
    hide AgreeOn, SameDocEntry, WalkSets, Rep, Shifted, TextLen, Distinct, CtxIds, Ids;
  }

  lemma InsertSplitHead(c: Forest, name: string, lead: string, t: Forest, trail: string)
    requires c.Cons? && t.Cons? && c.kids.Nil?
    ensures var d := InsertSplit(c, name, lead, t, trail);
      d.Cons? && d.id == c.id && d.next == c.next && d.kids == t.(gap := trail, next := c.kids)
  {
    assert trail + "" == trail;
  }

  // ---- edits of the element itself ----

  /** The walk from `c`: its children and everything that follows. */
  lemma SelfStarts(doc: string, a: seq<ElemPos>, free: nat, prolog: string, x: Ctx, c: Forest, a1: seq<ElemPos>)
    requires CtxOK(x) && c.Cons? && Laid(doc, a, free, prolog, Fill(x, c)) && SelfReady(a, a1, x, c)
    ensures At(a1, x, c, 0, false)
  {
    hide Laid, Rep, Links, LinksUp, Fill, Distinct, DistinctCtx, RepCtx, Ids, CtxIds;
    PlaceFacts(doc, a, free, prolog, x, c);
    LinksNext(a, c, Par(x));
    LinksUpKept(a, a1, x);
    LinksKept(a, a1, c.next, Par(x));
    LinksKept(a, a1, c.kids, c.id);
  }

  /** Only offsets of the entry of `c` have been set. */
  ghost predicate SelfReady(a: seq<ElemPos>, a1: seq<ElemPos>, x: Ctx, c: Forest)
    requires CtxOK(x) && c.Cons?
  {
    && AgreeOn(a, a1, CtxIds(x)) && AgreeOn(a, a1, Ids(c.kids)) && AgreeOn(a, a1, Ids(c.next)) && SameDocEntry(a, a1)
    && |a| == |a1|
    && c.id < |a| && a1[c.id].parent == a[c.id].parent && a1[c.id].child == a[c.id].child
    && a1[c.id].next == a[c.id].next
  }

  lemma SelfSets(x: Ctx, c: Forest, free: nat)
    requires Place(x, c, free)
    ensures var both := Ids(c.kids) + Ids(c.next) + Following(x);
      WalkSets(x, both, Ancestors(x)) && c.id !in both && c.id !in Ancestors(x) && BothLeft(x, c, false) == both
  {
    hide DistinctCtx;
    FollowingIn(x);
    assert Ids(c) == {c.id} + Ids(c.kids) + Ids(c.next);
    assert forall i :: i in Ids(c) ==> i !in Ancestors(x) && i !in Following(x) && i !in CtxIds(x);
  }

  lemma SelfMoved(a: seq<ElemPos>, a1: seq<ElemPos>, x: Ctx, c: Forest, free: nat, n: int)
    requires CtxOK(x) && c.Cons? && Place(x, c, free) && SelfReady(a, a1, x, c)
    ensures var both := Ids(c.kids) + Ids(c.next) + Following(x);
      var b := Shifted(a1, both, Ancestors(x), n);
      && WalkSets(x, both, Ancestors(x)) && Moved(a, b, c.kids, n) && Moved(a, b, c.next, n) && b[c.id] == a1[c.id]
  {
    hide DistinctCtx, CtxIds, Following, Ancestors, Ids, Distinct, Place, Moved, WalkSets, Par;
    var both := Ids(c.kids) + Ids(c.next) + Following(x);
    SelfSets(x, c, free);
    MovedBy(a, a1, c.kids, both, Ancestors(x), n);
    MovedBy(a, a1, c.next, both, Ancestors(x), n);
  }

  lemma SelfIds(x: Ctx, c: Forest, d: Forest, free: nat)
    requires Place(x, c, free) && d.Cons? && d.id == c.id && d.kids == c.kids && d.next == c.next
    ensures Distinct(d) && Ids(d) == Ids(c)
  {
  }

  lemma WithTagLaid(doc: string, a: seq<ElemPos>, free: nat, prolog: string, x: Ctx, c: Forest, i: nat, j: nat,
      ins: string, a1: seq<ElemPos>, doc': string)
    requires CtxOK(x) && CtxFull(x) && c.Cons? && Laid(doc, a, free, prolog, Fill(x, c)) && i <= j <= |c.tag|
    requires SelfReady(a, a1, x, c)
    requires var n := |ins| - (j - i); a1[c.id] == a[c.id].(startR := a[c.id].startR + n).AdjustEnd(n)
    requires var at := HolePos(x, |prolog|); at + j <= |doc| && doc' == Splice(doc, at + i, at + j, ins)
    ensures Laid(doc', Shifted(a1, BothLeft(x, c, false), Ancestors(x), |ins| - (j - i)), free, prolog,
        Fill(x, c.(tag := Splice(c.tag, i, j, ins))))
  {
    hide *;
    WithTagText(c, i, j, ins);
    WithTagRepaired(doc, a, free, prolog, x, c, i, j, ins, a1);
    EditLaid(doc, a, free, prolog, x, c, c.(tag := Splice(c.tag, i, j, ins)), a1, BothLeft(x, c, false), Ancestors(x),
        |ins| - (j - i), doc', free, i, j, ins);
  }

  lemma SpliceLen(s: string, i: nat, j: nat, ins: string)
    requires i <= j <= |s|
    ensures |Splice(s, i, j, ins)| == |s| + |ins| - (j - i)
  {
  }

  lemma WithTagRepaired(doc: string, a: seq<ElemPos>, free: nat, prolog: string, x: Ctx, c: Forest, i: nat, j: nat,
      ins: string, a1: seq<ElemPos>)
    requires CtxOK(x) && c.Cons? && Laid(doc, a, free, prolog, Fill(x, c)) && i <= j <= |c.tag|
    requires SelfReady(a, a1, x, c)
    requires var n := |ins| - (j - i); a1[c.id] == a[c.id].(startR := a[c.id].startR + n).AdjustEnd(n)
    ensures Repaired(a, a1, x, c, c.(tag := Splice(c.tag, i, j, ins)), BothLeft(x, c, false), Ancestors(x),
        |ins| - (j - i), HolePos(x, |prolog|), free, free)
  {
    hide Rep, TextLen, Ids, Distinct, Shifted, RepCtx, Links, LinksUp, DistinctCtx, CtxIds;
    hide Entry, KidsPos, BodyLen, Fill, HolePos, Following, Ancestors, Place, Par, WalkSets, Moved, BothLeft, Splice,
        Text;
    var n := |ins| - (j - i);
    var d := c.(tag := Splice(c.tag, i, j, ins));
    SpliceLen(c.tag, i, j, ins);
    PlaceFacts(doc, a, free, prolog, x, c);
    PlaceIs(x, c, free);
    TopAlone(doc, a, free, prolog, x, c);
    SelfSets(x, c, free);
    SelfMoved(a, a1, x, c, free, n);
    WithTagRep(a, Shifted(a1, BothLeft(x, c, false), Ancestors(x), n), c, d.tag, Par(x), HolePos(x, |prolog|));
    SelfIds(x, c, d, free);
  }

  /** Data between the tags of an element without children. */
  lemma WithHeadLaid(doc: string, a: seq<ElemPos>, free: nat, prolog: string, x: Ctx, c: Forest, data: string,
      a1: seq<ElemPos>, doc': string)
    requires CtxOK(x) && CtxFull(x) && c.Cons? && !c.empty && c.kids.Nil? && Laid(doc, a, free, prolog, Fill(x, c))
    requires SelfReady(a, a1, x, c) && a1[c.id] == a[c.id].AdjustEnd(|data| - |c.head|)
    requires var at := HolePos(x, |prolog|) + |OpenText(c)|;
      at + |c.head| <= |doc| && doc' == Splice(doc, at, at + |c.head|, data)
    ensures Laid(doc', Shifted(a1, BothLeft(x, c, false), Ancestors(x), |data| - |c.head|), free, prolog,
        Fill(x, c.(head := data)))
  {
    hide *;
    WithHeadText(c, data);
    WithHeadRepaired(doc, a, free, prolog, x, c, data, a1);
    EditLaid(doc, a, free, prolog, x, c, c.(head := data), a1, BothLeft(x, c, false), Ancestors(x), |data| - |c.head|,
        doc', free,
             |OpenText(c)|, |OpenText(c)| + |c.head|, data);
  }

  lemma WithHeadRepaired(doc: string, a: seq<ElemPos>, free: nat, prolog: string, x: Ctx, c: Forest, data: string,
      a1: seq<ElemPos>)
    requires CtxOK(x) && c.Cons? && !c.empty && c.kids.Nil? && Laid(doc, a, free, prolog, Fill(x, c))
    requires SelfReady(a, a1, x, c) && a1[c.id] == a[c.id].AdjustEnd(|data| - |c.head|)
    ensures Repaired(a, a1, x, c, c.(head := data), BothLeft(x, c, false), Ancestors(x), |data| - |c.head|,
        HolePos(x, |prolog|), free, free)
  {
    hide Rep, TextLen, Ids, Distinct, Shifted, RepCtx, Links, LinksUp, DistinctCtx, CtxIds;
    hide Entry, KidsPos, BodyLen, Fill, HolePos, Following, Ancestors, Place, Par, WalkSets, Moved, BothLeft, Text;
    PlaceFacts(doc, a, free, prolog, x, c);
    PlaceIs(x, c, free);
    TopAlone(doc, a, free, prolog, x, c);
    SelfSets(x, c, free);
    SelfMoved(a, a1, x, c, free, |data| - |c.head|);
    WithHeadRep(a, Shifted(a1, BothLeft(x, c, false), Ancestors(x), |data| - |c.head|), c, data, Par(x),
        HolePos(x, |prolog|));
    SelfIds(x, c, c.(head := data), free);
  }

  /** Data in an empty element, which is opened up. */
  lemma SplitDataLaid(doc: string, a: seq<ElemPos>, free: nat, prolog: string, x: Ctx, c: Forest, name: string,
      data: string, a1: seq<ElemPos>, doc': string)
    requires CtxOK(x) && CtxFull(x) && c.Cons? && c.empty && CellOK(c) && Laid(doc, a, free, prolog, Fill(x, c))
    requires SelfReady(a, a1, x, c) && a1[c.id] == a[c.id].PreSplit(1 + |name|).AdjustEnd(|data| + |name| + 2)
    requires var at := HolePos(x, |prolog|) + |c.tag|;
      at + 1 <= |doc| && doc' == Splice(doc, at, at + 1, ">" + (data + ("</" + name)))
    ensures Laid(doc', Shifted(a1, BothLeft(x, c, false), Ancestors(x), |data| + |name| + 2), free, prolog,
        Fill(x, SplitData(c, name, data)))
  {
    hide *;
    EmptyCell(c);
    SplitDataText(c, name, data);
    SplitDataRepaired(doc, a, free, prolog, x, c, name, data, a1);
    EditLaid(doc, a, free, prolog, x, c, SplitData(c, name, data), a1, BothLeft(x, c, false), Ancestors(x),
        |data| + |name| + 2, doc', free,
             |c.tag|, |c.tag| + 1, ">" + (data + ("</" + name)));
  }

  lemma SplitDataRepaired(doc: string, a: seq<ElemPos>, free: nat, prolog: string, x: Ctx, c: Forest, name: string,
      data: string, a1: seq<ElemPos>)
    requires CtxOK(x) && c.Cons? && c.empty && c.kids.Nil? && c.head == "" && c.close == ""
        && Laid(doc, a, free, prolog, Fill(x, c))
    requires SelfReady(a, a1, x, c) && a1[c.id] == a[c.id].PreSplit(1 + |name|).AdjustEnd(|data| + |name| + 2)
    ensures Repaired(a, a1, x, c, SplitData(c, name, data), BothLeft(x, c, false), Ancestors(x), |data| + |name| + 2,
        HolePos(x, |prolog|), free, free)
  {
    hide Rep, TextLen, Ids, Distinct, Shifted, RepCtx, Links, LinksUp, DistinctCtx, CtxIds;
    hide Entry, KidsPos, BodyLen, Fill, HolePos, Following, Ancestors, Place, Par, WalkSets, Moved, BothLeft, Text,
        EndTagOf;
    PlaceFacts(doc, a, free, prolog, x, c);
    PlaceIs(x, c, free);
    TopAlone(doc, a, free, prolog, x, c);
    SelfSets(x, c, free);
    SelfMoved(a, a1, x, c, free, |data| + |name| + 2);
    SplitDataRep(a, Shifted(a1, BothLeft(x, c, false), Ancestors(x), |data| + |name| + 2), c, name, data, Par(x),
        HolePos(x, |prolog|));
    SelfIds(x, c, SplitData(c, name, data), free);
  }

  // ---- removal ----

  /** The array just before the walk from the removed element `r`: only one link leads around it. */
  ghost predicate CutReady(a: seq<ElemPos>, a1: seq<ElemPos>, x: Ctx, c: Forest, e: ElemPos)
    requires CtxOK(x) && c.Cons?
  {
    && AgreeOn(a, a1, CtxIds(x)) && AgreeOn(a, a1, Ids(c.kids)) && AgreeOn(a, a1, Ids(c.next)) && SameDocEntry(a, a1)
    && |a| == |a1|
    && c.id < |a| && a1[c.id] == e
  }

  lemma RemoveNextStarts(doc: string, a: seq<ElemPos>, free: nat, prolog: string, x: Ctx, c: Forest, e: ElemPos,
      a1: seq<ElemPos>)
    requires CtxOK(x) && c.Cons? && c.next.Cons? && Laid(doc, a, free, prolog, Fill(x, c)) && CutReady(a, a1, x, c, e)
    ensures At(a1, Sib(c, x), c.next, 0, true)
  {
    hide Laid, Rep, LinksUp, Fill, Distinct, DistinctCtx, RepCtx, Ids, CtxIds;
    PlaceFacts(doc, a, free, prolog, x, c);
    PlaceIs(x, c, free);
    SibPlace(x, c, free);
    LinksUpKept(a, a1, x);
    LinksUpSib(a1, x, c);
    LinksKept(a, a1, c.next, Par(x));
  }

  lemma CutSets(x: Ctx, c: Forest, free: nat)
    requires Place(x, c, free) && c.next.Cons?
    ensures var both := Ids(c.next.next) + Following(x);
      WalkSets(x, both, Ancestors(x)) && c.id !in both && c.id !in Ancestors(x) && Ids(c.kids) !! both
          && Ids(c.kids) !! Ancestors(x)
    ensures BothLeft(Sib(c, x), c.next, true) == Ids(c.next.next) + Following(x) && Ancestors(Sib(c, x)) == Ancestors(x)
    ensures Ids(c.next.next) <= Ids(c.next)
  {
    hide DistinctCtx;
    FollowingIn(x);
    assert Ids(c) == {c.id} + Ids(c.kids) + Ids(c.next);
    assert Ids(c.next) == {c.next.id} + Ids(c.next.kids) + Ids(c.next.next);
    assert forall i :: i in Ids(c) ==> i !in Ancestors(x) && i !in Following(x) && i !in CtxIds(x);
  }

  lemma DistinctParts(c: Forest)
    requires c.Cons? && Distinct(c)
    ensures c.id > 0 && c.id !in Ids(c.kids) && c.id !in Ids(c.next) && Ids(c.kids) !! Ids(c.next) && Distinct(c.kids)
        && Distinct(c.next)
    ensures Ids(c) == {c.id} + Ids(c.kids) + Ids(c.next)
  {
  }

  lemma MakeDistinct(c: Forest)
    requires c.Cons?
    requires c.id > 0 && c.id !in Ids(c.kids) && c.id !in Ids(c.next) && Ids(c.kids) !! Ids(c.next) && Distinct(c.kids)
        && Distinct(c.next)
    ensures Distinct(c) && Ids(c) == {c.id} + Ids(c.kids) + Ids(c.next)
  {
  }

  lemma SibOK(x: Ctx, c: Forest)
    requires CtxOK(x) && c.Cons?
    ensures CtxOK(Sib(c, x))
  {
  }

  lemma ChildOK(x: Ctx, c: Forest)
    requires CtxOK(x) && c.Cons?
    ensures CtxOK(Child(c, x))
  {
  }

  lemma AgreeSub(a: seq<ElemPos>, a1: seq<ElemPos>, s: set<nat>, t: set<nat>)
    requires AgreeOn(a, a1, s) && t <= s
    ensures AgreeOn(a, a1, t)
  {
  }

  lemma RemoveNextLaid(doc: string, a: seq<ElemPos>, free: nat, prolog: string, x: Ctx, c: Forest, k: nat,
      a1: seq<ElemPos>, doc': string)
    requires CtxOK(x) && CtxFull(x) && c.Cons? && c.next.Cons? && k <= |c.next.gap|
        && Laid(doc, a, free, prolog, Fill(x, c)) && !x.Top?
    requires c.id < |a| && CutReady(a, a1, x, c, a[c.id].LinkNext(Id(c.next.next)))
    requires var at := HolePos(x, |prolog|) + |Body(c)| + |c.gap|;
      at + |Body(c.next)| + k <= |doc| && doc' == Splice(doc, at, at + |Body(c.next)| + k, "")
    ensures var y := Sib(c, x);
      Laid(doc', Shifted(a1, BothLeft(y, c.next, true), Ancestors(y), -(|Body(c.next)| + k)), free, prolog,
          Fill(x, RemoveNext(c, k)))
  {
    hide *;
    SibOK(x, c);
    RemoveNextText(c, k);
    RemoveNextRepaired(doc, a, free, prolog, x, c, k, a1);
    var i := |Body(c)| + |c.gap|;
    EditLaid(doc, a, free, prolog, x, c, RemoveNext(c, k), a1, BothLeft(Sib(c, x), c.next, true), Ancestors(Sib(c, x)),
        -(|Body(c.next)| + k), doc', free,
             i, i + |Body(c.next)| + k, "");
  }

  lemma RemoveNextRepaired(doc: string, a: seq<ElemPos>, free: nat, prolog: string, x: Ctx, c: Forest, k: nat,
      a1: seq<ElemPos>)
    requires CtxOK(x) && c.Cons? && c.next.Cons? && k <= |c.next.gap| && Laid(doc, a, free, prolog, Fill(x, c))
        && !x.Top?
    requires c.id < |a| && CutReady(a, a1, x, c, a[c.id].LinkNext(Id(c.next.next)))
    ensures var y := Sib(c, x);
      Repaired(a, a1, x, c, RemoveNext(c, k), BothLeft(y, c.next, true), Ancestors(y), -(|Body(c.next)| + k),
          HolePos(x, |prolog|), free, free)
  {
    hide Rep, TextLen, Ids, Distinct, Shifted, RepCtx, Links, LinksUp, DistinctCtx, CtxIds;
    hide Entry, KidsPos, BodyLen, Fill, HolePos, Following, Ancestors, Place, Par, WalkSets, Moved, BothLeft, Text,
        Kept, RemoveNext, Body;
    var n := -(|Body(c.next)| + k);
    PlaceFacts(doc, a, free, prolog, x, c);
    PlaceIs(x, c, free);
    CutSets(x, c, free);
    TextLenIs(c.next);
    var both := Ids(c.next.next) + Following(x);
    KeptBy(a, a1, c.kids, both, Ancestors(x), n);
    AgreeSub(a, a1, Ids(c.next), Ids(c.next.next));
    MovedBy(a, a1, c.next.next, both, Ancestors(x), n);
    RemoveNextRep(a, Shifted(a1, both, Ancestors(x), n), c, k, Par(x), HolePos(x, |prolog|));
    RemoveNextIds(x, c, k, free);
  }

  lemma RemoveNextIds(x: Ctx, c: Forest, k: nat, free: nat)
    requires Place(x, c, free) && c.next.Cons? && k <= |c.next.gap|
    ensures var d := RemoveNext(c, k);
      d.Cons? && d.id == c.id && Distinct(d) && forall i :: i in Ids(d) ==> i in Ids(c)
  {
    hide DistinctCtx, CtxIds;
    var d := RemoveNext(c, k);
    DistinctParts(c);
    DistinctParts(c.next);
    hide Ids, Distinct;
    assert Distinct(d) && Ids(d) == {c.id} + Ids(c.kids) + Ids(c.next.next) by { MakeDistinct(d); }
  }

  lemma RemoveFirstStarts(doc: string, a: seq<ElemPos>, free: nat, prolog: string, x: Ctx, c: Forest, e: ElemPos,
      a1: seq<ElemPos>)
    requires CtxOK(x) && c.Cons? && c.kids.Cons? && Laid(doc, a, free, prolog, Fill(x, c)) && CutReady(a, a1, x, c, e)
    requires e.parent == a[c.id].parent && e.next == a[c.id].next
    ensures At(a1, Child(c, x), c.kids, 0, true)
  {
    hide Laid, Rep, LinksUp, Fill, Distinct, DistinctCtx, RepCtx, Ids, CtxIds;
    PlaceFacts(doc, a, free, prolog, x, c);
    PlaceIs(x, c, free);
    ChildPlace(x, c, free);
    LinksUpKept(a, a1, x);
    LinksNext(a, c, Par(x));
    LinksKept(a, a1, c.next, Par(x));
    LinksUpChild(a1, x, c);
    LinksKept(a, a1, c.kids, c.id);
  }

  lemma CutFirstSets(x: Ctx, c: Forest, free: nat)
    requires Place(x, c, free) && c.kids.Cons?
    ensures var both := Ids(c.kids.next) + Ids(c.next) + Following(x);
      WalkSets(x, both, {c.id} + Ancestors(x)) && c.id !in both
    ensures BothLeft(Child(c, x), c.kids, true) == Ids(c.kids.next) + Ids(c.next) + Following(x)
        && Ancestors(Child(c, x)) == {c.id} + Ancestors(x)
    ensures Ids(c.kids.next) <= Ids(c.kids)
  {
    hide *;
    PlaceParts(x, c, free);
    FollowingIn(x);
    DistinctParts(c);
    DistinctParts(c.kids);
    ChildSets(x, c, c.kids);
    SetsWalk(x, Ids(c.kids.next) + Ids(c.next), c.id, Ids(c));
  }

  lemma PlaceParts(x: Ctx, c: Forest, free: nat)
    requires Place(x, c, free)
    ensures CtxOK(x) && c.Cons? && DistinctCtx(x) && Distinct(c) && CtxIds(x) !! Ids(c) && 0 !in CtxIds(x)
        && 0 !in Ids(c)
  {
    hide DistinctCtx, Distinct, CtxIds, Ids;
  }

  lemma ChildSets(x: Ctx, c: Forest, f: Forest)
    requires CtxOK(x) && c.Cons? && f.Cons?
    ensures CtxOK(Child(c, x)) && BothLeft(Child(c, x), f, true) == Ids(f.next) + Ids(c.next) + Following(x)
    ensures Ancestors(Child(c, x)) == {c.id} + Ancestors(x)
  {
  }

  /** Sets outside a context, with what follows in it. */
  lemma SetsWalk(x: Ctx, more: set<nat>, id: nat, ids: set<nat>)
    requires CtxOK(x) && more <= ids && id in ids && id !in more && ids !! CtxIds(x) && 0 !in ids && 0 !in CtxIds(x)
        && Following(x) <= CtxIds(x)
    ensures WalkSets(x, more + Following(x), {id} + Ancestors(x)) && id !in more + Following(x)
  {
    hide CtxIds, Following, Ancestors;
  }

  lemma RemoveFirstLaid(doc: string, a: seq<ElemPos>, free: nat, prolog: string, x: Ctx, c: Forest, k: nat,
      a1: seq<ElemPos>, doc': string)
    requires CtxOK(x) && CtxFull(x) && c.Cons? && !c.empty && c.kids.Cons? && k <= |c.kids.gap|
        && Laid(doc, a, free, prolog, Fill(x, c))
    requires c.id < |a| && CutReady(a, a1, x, c, a[c.id].LinkChild(Id(c.kids.next)))
    requires var at := HolePos(x, |prolog|) + |OpenText(c)| + |c.head|;
      at + |Body(c.kids)| + k <= |doc| && doc' == Splice(doc, at, at + |Body(c.kids)| + k, "")
    ensures var y := Child(c, x);
      Laid(doc', Shifted(a1, BothLeft(y, c.kids, true), Ancestors(y), -(|Body(c.kids)| + k)), free, prolog,
          Fill(x, RemoveFirst(c, k)))
  {
    hide *;
    ChildOK(x, c);
    RemoveFirstText(c, k);
    RemoveFirstRepaired(doc, a, free, prolog, x, c, k, a1);
    var i := |OpenText(c)| + |c.head|;
    EditLaid(doc, a, free, prolog, x, c, RemoveFirst(c, k), a1, BothLeft(Child(c, x), c.kids, true),
        Ancestors(Child(c, x)), -(|Body(c.kids)| + k), doc', free,
             i, i + |Body(c.kids)| + k, "");
  }

  lemma RemoveFirstRepaired(doc: string, a: seq<ElemPos>, free: nat, prolog: string, x: Ctx, c: Forest, k: nat,
      a1: seq<ElemPos>)
    requires CtxOK(x) && c.Cons? && !c.empty && c.kids.Cons? && k <= |c.kids.gap|
        && Laid(doc, a, free, prolog, Fill(x, c))
    requires c.id < |a| && CutReady(a, a1, x, c, a[c.id].LinkChild(Id(c.kids.next)))
    ensures var y := Child(c, x);
      Repaired(a, a1, x, c, RemoveFirst(c, k), BothLeft(y, c.kids, true), Ancestors(y), -(|Body(c.kids)| + k),
          HolePos(x, |prolog|), free, free)
  {
    hide Rep, TextLen, Ids, Distinct, Shifted, RepCtx, Links, LinksUp, DistinctCtx, CtxIds;
    hide Entry, KidsPos, BodyLen, Fill, HolePos, Following, Ancestors, Place, Par, WalkSets, Moved, BothLeft, Text,
        Kept, RemoveFirst, Body;
    var n := -(|Body(c.kids)| + k);
    PlaceFacts(doc, a, free, prolog, x, c);
    PlaceIs(x, c, free);
    TopAlone(doc, a, free, prolog, x, c);
    CutFirstSets(x, c, free);
    TextLenIs(c.kids);
    var both := Ids(c.kids.next) + Ids(c.next) + Following(x);
    AgreeSub(a, a1, Ids(c.kids), Ids(c.kids.next));
    MovedBy(a, a1, c.kids.next, both, {c.id} + Ancestors(x), n);
    MovedBy(a, a1, c.next, both, {c.id} + Ancestors(x), n);
    RemoveFirstRep(a, Shifted(a1, both, {c.id} + Ancestors(x), n), c, k, Par(x), HolePos(x, |prolog|));
    RemoveFirstIds(x, c, k, free);
  }

  lemma RemoveFirstIds(x: Ctx, c: Forest, k: nat, free: nat)
    requires Place(x, c, free) && c.kids.Cons? && k <= |c.kids.gap|
    ensures var d := RemoveFirst(c, k);
      d.Cons? && d.id == c.id && d.next == c.next && Distinct(d) && forall i :: i in Ids(d) ==> i in Ids(c)
  {
    hide DistinctCtx, CtxIds;
    var d := RemoveFirst(c, k);
    DistinctParts(c);
    DistinctParts(c.kids);
    hide Ids, Distinct;
    assert Distinct(d) && Ids(d) == {c.id} + Ids(c.kids.next) + Ids(c.next) by { MakeDistinct(d); }
  }
}
