/**
  Document order: which elements the walk moves, how the entries of a parsed document
  are numbered, and how their offsets are nested.
 */
module Order {
  import opened Parser
  import opened RoundTrip
  import opened Index
  import opened Walk
  import opened States
  import Places
  import Repair
  import Surgery

  /** The indices in document order. */
  function Preorder(f: Forest): seq<nat> {
    if f.Nil? then [] else [f.id] + Preorder(f.kids) + Preorder(f.next)
  }

  /** The elements that start before, and behind, the hole of a context. */
  function BeforeHole(x: Ctx): seq<nat>
    requires CtxOK(x)
  {
    match x
    case Top => []
    case Sib(c, up) => BeforeHole(up) + [c.id] + Preorder(c.kids)
    case Child(c, up) => BeforeHole(up) + [c.id]
  }

  function AfterHole(x: Ctx): seq<nat>
    requires CtxOK(x)
  {
    match x
    case Top => []
    case Sib(_, up) => AfterHole(up)
    case Child(c, up) => Preorder(c.next) + AfterHole(up)
  }

  lemma {:induction false} PreorderFill(x: Ctx, f: Forest)
    requires CtxOK(x)
    ensures Preorder(Fill(x, f)) == BeforeHole(x) + Preorder(f) + AfterHole(x)
    decreases x
  {
    hide Preorder;
    match x
    case Top =>
      assert [] + Preorder(f) + [] == Preorder(f);
    case Sib(c, up) =>
      PreorderFill(up, c.(next := f));
      PreorderCons(c.(next := f));
      JoinPieces(BeforeHole(up), [c.id], Preorder(c.kids), Preorder(f), AfterHole(up));
    case Child(c, up) =>
      PreorderFill(up, c.(kids := f));
      PreorderCons(c.(kids := f));
      JoinPieces(BeforeHole(up), [c.id], Preorder(f), Preorder(c.next), AfterHole(up));
  }

  lemma PreorderCons(f: Forest)
    requires f.Cons?
    ensures Preorder(f) == [f.id] + Preorder(f.kids) + Preorder(f.next)
  {
  }

  lemma JoinPieces(a: seq<nat>, b: seq<nat>, c: seq<nat>, d: seq<nat>, e: seq<nat>)
    ensures a + (b + c + d) + e == (a + b + c) + d + e
    ensures a + (b + c + d) + e == (a + b) + c + (d + e)
  {
  }

  lemma {:induction false} PreorderIds(f: Forest)
    ensures forall i :: i in Preorder(f) <==> i in Ids(f)
  {
    if f.Cons? {
      PreorderIds(f.kids);
      PreorderIds(f.next);
    }
  }

  lemma {:induction false} AfterIds(x: Ctx)
    requires CtxOK(x)
    ensures forall i :: i in AfterHole(x) <==> i in Following(x)
    decreases x
  {
    match x
    case Top =>
    case Sib(_, up) => AfterIds(up);
    case Child(c, up) =>
      PreorderIds(c.next);
      AfterIds(up);
  }

  /** The elements moved as a whole by a walk from `c` are exactly those after it in document
      order, or, when its children are skipped, those after the last of its descendants. */
  lemma WalkOrder(x: Ctx, c: Forest)
    requires CtxOK(x) && c.Cons?
    ensures var after := Preorder(c.kids) + Preorder(c.next) + AfterHole(x);
      && Preorder(Fill(x, c)) == BeforeHole(x) + [c.id] + after
      && (forall i :: i in BothLeft(x, c, false) <==> i in after)
      && (forall i :: i in BothLeft(x, c, true) <==> i in after[|Preorder(c.kids)|..])
  {
    hide Fill, BeforeHole, AfterHole, Ids, Following;
    PreorderFill(x, c);
    PreorderIds(c.kids);
    PreorderIds(c.next);
    AfterIds(x);
    AfterSplit(BeforeHole(x), c.id, Preorder(c.kids), Preorder(c.next), AfterHole(x));
    PreorderTurn(c);
    hide Preorder;
  }

  lemma PreorderTurn(c: Forest)
    requires c.Cons?
    ensures Preorder(c) == [c.id] + Preorder(c.kids) + Preorder(c.next)
  {
  }

  lemma AfterSplit(b: seq<nat>, id: nat, k: seq<nat>, n: seq<nat>, a: seq<nat>)
    ensures b + ([id] + k + n) + a == b + [id] + (k + n + a)
    ensures (k + n + a)[|k|..] == n + a
    ensures forall i :: i in k + n + a <==> i in k || i in n || i in a
    ensures forall i :: i in n + a <==> i in n || i in a
  {
    assert k + n + a == k + (n + a);
  }

  /** The elements of which only the end tags are moved are the document's entry and the
      elements that contain `c`. */
  lemma AroundIs(x: Ctx, c: Forest, i: nat)
    requires CtxOK(x) && c.Cons? && Distinct(Fill(x, c))
    ensures i in Ancestors(x) <==> i == 0 || (i in Ids(Fill(x, c)) && c.id in Ids(Find(Fill(x, c), i).kids))
  {
    hide Fill, CtxIds, Ancestors, DistinctCtx;
    FillIds(x, c);
    FollowingIn(x);
    ZeroFree(Fill(x, c));
    ZeroIn(x);
    if i in CtxIds(x) { AroundAt(x, c, c.id, i); }
    if i in Ids(c) {
      FindIn(x, c, i);
      NotBelow(c, i);
    }
  }

  lemma {:induction false} ZeroIn(x: Ctx)
    requires CtxOK(x)
    ensures 0 in Ancestors(x)
    decreases x
  {
    match x
    case Top =>
    case Sib(_, up) => ZeroIn(up);
    case Child(_, up) => ZeroIn(up);
  }

  lemma {:induction false} FindBelow(f: Forest, i: nat)
    requires Find(f, i).Cons?
    ensures Ids(Find(f, i)) <= Ids(f) && Ids(Find(f, i).kids) <= Ids(f)
  {
    if f.id != i {
      if Find(f.kids, i).Cons? { FindBelow(f.kids, i); } else { FindBelow(f.next, i); }
    }
  }

  /** No element contains an element in front of it. */
  lemma NotBelow(c: Forest, i: nat)
    requires c.Cons? && Distinct(c) && i in Ids(c)
    ensures c.id !in Ids(Find(c, i).kids)
  {
    if i != c.id {
      if Find(c.kids, i).Cons? { FindBelow(c.kids, i); } else { FindBelow(c.next, i); }
    }
  }

  lemma {:induction false} AroundAt(x: Ctx, f: Forest, id: nat, i: nat)
    requires CtxOK(x) && id in Ids(f) && Distinct(Fill(x, f)) && i in CtxIds(x)
    ensures Find(Fill(x, f), i).Cons? && (i in Ancestors(x) <==> id in Ids(Find(Fill(x, f), i).kids))
    decreases x, 0
  {
    hide Fill, Distinct, DistinctCtx, Find;
    FillIds(x, f);
    match x
    case Sib(c, up) => AroundSib(c, up, f, id, i);
    case Child(c, up) => AroundChild(c, up, f, id, i);
  }

  lemma {:induction false} AroundSib(c: Forest, up: Ctx, f: Forest, id: nat, i: nat)
    requires CtxOK(Sib(c, up)) && id in Ids(f) && Distinct(Fill(Sib(c, up), f)) && i in CtxIds(Sib(c, up))
    ensures Find(Fill(Sib(c, up), f), i).Cons? && (i in Ancestors(up) <==> id in Ids(Find(Fill(Sib(c, up), f), i).kids))
    decreases up, 1
  {
    var d := c.(next := f);
    assert Fill(Sib(c, up), f) == Fill(up, d);
    hide Fill, DistinctCtx;
    FillIds(up, d);
    FollowingIn(up);
    ZeroFree(d);
    Surgery.DistinctParts(d);
    if i in CtxIds(up) {
      AroundAt(up, d, id, i);
    } else {
      FindIn(up, d, i);
      if i != c.id {
        FindInKids(d, i);
        FindBelow(d.kids, i);
      }
    }
  }

  lemma {:induction false} AroundChild(c: Forest, up: Ctx, f: Forest, id: nat, i: nat)
    requires CtxOK(Child(c, up)) && id in Ids(f) && Distinct(Fill(Child(c, up), f)) && i in CtxIds(Child(c, up))
    ensures Find(Fill(Child(c, up), f), i).Cons? && (i in Ancestors(Child(c, up))
        <==> id in Ids(Find(Fill(Child(c, up), f), i).kids))
    decreases up, 1
  {
    var d := c.(kids := f);
    assert Fill(Child(c, up), f) == Fill(up, d);
    hide Fill, DistinctCtx;
    FillIds(up, d);
    FollowingIn(up);
    ZeroFree(d);
    Surgery.DistinctParts(d);
    if i in CtxIds(up) {
      AroundAt(up, d, id, i);
    } else {
      FindIn(up, d, i);
      if i != c.id {
        FindInNext(d, i);
        FindBelow(d.next, i);
      }
    }
  }

  lemma FindInKids(d: Forest, i: nat)
    requires d.Cons? && Distinct(d) && i in Ids(d.kids)
    ensures Find(d, i) == Find(d.kids, i) && Find(d, i).Cons?
  {
  }

  lemma FindInNext(d: Forest, i: nat)
    requires d.Cons? && Distinct(d) && i in Ids(d.next)
    ensures Find(d, i) == Find(d.next, i) && Find(d, i).Cons?
  {
  }

  // ---- numbering ----

  function Range(n: nat, k: nat): (r: seq<nat>)
    ensures |r| == k && forall i :: 0 <= i < k ==> r[i] == n + i
    decreases k
  {
    if k == 0 then [] else [n] + Range(n + 1, k - 1)
  }

  lemma {:induction false} RangeSplit(n: nat, k: nat, m: nat)
    ensures Range(n, k + m) == Range(n, k) + Range(n + k, m)
  {
    var a, b := Range(n, k + m), Range(n, k) + Range(n + k, m);
    assert |a| == |b|;
    assert forall i :: 0 <= i < |a| ==> a[i] == b[i] == n + i;
  }

  /** Numbering in document order uses exactly the indices from `id` on, in that order:
      this is how the parser leaves a new subtree, although it takes an index for every
      attempt and gives it back. */
  lemma {:induction false} NumberedInOrder(f: Forest, id: nat)
    ensures Preorder(Renumber(f, id)) == Range(id, Size(f))
  {
    hide *;
    RenumberTurn(f, id);
    if f.Cons? {
      NumberedInOrder(f.kids, id + 1);
      NumberedInOrder(f.next, id + 1 + Size(f.kids));
      RangeSplit(id + 1, Size(f.kids), Size(f.next));
      RangeSplit(id, 1, Size(f.kids) + Size(f.next));
      RangeOne(id);
      OrderJoin(id, Range(id + 1, Size(f.kids)), Range(id + 1 + Size(f.kids), Size(f.next)));
    }
  }

  lemma RenumberTurn(f: Forest, id: nat)
    ensures f.Nil? ==> Preorder(Renumber(f, id)) == Range(id, Size(f))
    ensures f.Cons? ==>
      && Size(f) == 1 + Size(f.kids) + Size(f.next)
      && Preorder(Renumber(f, id)) == [id] + Preorder(Renumber(f.kids, id + 1)) + Preorder(Renumber(f.next,
          id + 1 + Size(f.kids)))
  {
    hide Range;
    if f.Nil? { NoRange(id); }
  }

  lemma NoRange(n: nat)
    ensures Range(n, 0) == []
  {
  }

  lemma RangeOne(n: nat)
    ensures Range(n, 1) == [n]
  {
    assert Range(n + 1, 0) == [];
  }

  lemma OrderJoin(id: nat, a: seq<nat>, b: seq<nat>)
    ensures [id] + (a + b) == [id] + a + b
  {
  }

  lemma ParsedInOrder(s: string, p: nat, id: nat)
    requires p <= |s| && ParseElem(s, p, id).Elem?
    ensures var x := ParseElem(s, p, id); id <= x.ids && Preorder(x.cell) == Range(id, x.ids - id)
  {
    hide *;
    ElemSound(s, p, id);
    NumberedInOrder(ParseElem(s, p, id).cell, id);
  }

  // ---- nesting of offsets ----

  /** The four offsets of every element are in order; children lie strictly between the
      start tag and the end tag, one behind the other. */
  ghost predicate Nested(a: seq<ElemPos>, f: Forest, from: int, to: int) {
    f.Nil? ||
    (&& f.id < |a| && from <= a[f.id].startL < a[f.id].startR && a[f.id].endL <= a[f.id].endR < to
     && (if f.empty then a[f.id].startR == a[f.id].endR == a[f.id].endL + 1 else a[f.id].startR < a[f.id].endL)
     && Nested(a, f.kids, a[f.id].startR + 1, a[f.id].endL)
     && Nested(a, f.next, a[f.id].endR + 1, to))
  }

  lemma {:induction false} RepNested(a: seq<ElemPos>, f: Forest, parent: nat, p: nat, to: nat)
    requires Rep(a, f, parent, p) && WF(f) && p + TextLen(f) <= to
    ensures Nested(a, f, p, to)
    decreases f
  {
    hide CellOK, TextLen, Entry, KidsPos, NextPos, BodyLen, Rep, WF;
    if f.Cons? {
      WFParts(f);
      CellLens(f);
      Repair.RepCons(a, f, parent, p);
      Repair.TextLenCons(f);
      EntryNested(f, p, TextLen(f.kids), parent, Id(f.kids), Id(f.next));
      RepNested(a, f.kids, f.id, KidsPos(f, p), KidsPos(f, p) + TextLen(f.kids));
      RepNested(a, f.next, parent, NextPos(f, p, TextLen(f.kids)), to);
      NestedWiden(a, f.kids, KidsPos(f, p), a[f.id].startR + 1, KidsPos(f, p) + TextLen(f.kids));
      NestedWiden(a, f.next, NextPos(f, p, TextLen(f.kids)), a[f.id].endR + 1, to);
    }
  }

  lemma NestedWiden(a: seq<ElemPos>, f: Forest, from: int, from': int, to: int)
    requires Nested(a, f, from, to) && from' <= from
    ensures Nested(a, f, from', to)
  {
  }

  lemma WFParts(f: Forest)
    requires f.Cons? && WF(f)
    ensures CellOK(f) && WF(f.kids) && WF(f.next)
  {
    hide CellOK, GapOK;
  }

  lemma EntryNested(c: Forest, p: nat, k: nat, parent: nat, child: nat, next: nat)
    requires c.Cons? && |c.tag| > 0 && (c.empty ==> k == 0) && (!c.empty ==> |c.close| > 0)
    ensures var e := Entry(c, p, k, parent, child, next);
      && e.startL == p < e.startR && e.endL <= e.endR && (if c.empty then e.startR == e.endR == e.endL + 1
          else e.startR < e.endL)
      && e.startR + 1 <= KidsPos(c, p) && (!c.empty ==> KidsPos(c, p) + k == e.endL)
      && e.endR + 1 == p + BodyLen(c, k) && NextPos(c, p, k) == p + BodyLen(c, k) + |c.gap|
  {
  }

  lemma CellLens(c: Forest)
    requires c.Cons? && CellOK(c)
    ensures |c.tag| > 0 && (if c.empty then c.kids.Nil? && TextLen(c.kids) == 0 else |c.close| > 0)
  {
    hide NextTag, EndTag, GapOK;
    Places.OpenFirst(c);
  }

  // ---- offsets do not depend on numbering ----

  /** Every element has an entry. */
  ghost predicate Entries(a: seq<ElemPos>, f: Forest) { f.Nil?
      || (f.id < |a| && Entries(a, f.kids) && Entries(a, f.next)) }

  lemma {:induction false} RepEntries(a: seq<ElemPos>, f: Forest, par: nat, p: nat)
    requires Rep(a, f, par, p)
    ensures Entries(a, f)
  {
    if f.Cons? {
      RepEntries(a, f.kids, f.id, KidsPos(f, p));
      RepEntries(a, f.next, par, NextPos(f, p, TextLen(f.kids)));
    }
  }

  /** The four offsets of every element, in document order. */
  ghost function Offsets(a: seq<ElemPos>, f: Forest): seq<(int, int, int, int)>
    requires Entries(a, f)
  {
    if f.Nil? then []
    else
      var e := a[f.id];
      [(e.startL, e.startR, e.endL, e.endR)] + Offsets(a, f.kids) + Offsets(a, f.next)
  }

  /** Two arrays that represent the same tree from the same place hold the same offsets,
      however the elements are numbered. */
  lemma {:induction false} SameOffsets(a: seq<ElemPos>, b: seq<ElemPos>, f: Forest, id: nat, par: nat, par': nat,
      p: nat)
    requires Rep(a, f, par, p) && Rep(b, Renumber(f, id), par', p)
    ensures Entries(a, f) && Entries(b, Renumber(f, id))
    ensures Offsets(b, Renumber(f, id)) == Offsets(a, f)
  {
    hide TextLen, Size, Entry, KidsPos, NextPos;
    RepEntries(a, f, par, p);
    RepEntries(b, Renumber(f, id), par', p);
    if f.Cons? {
      var g := Renumber(f, id);
      RenumberLen(f.kids, id + 1);
      SameEntry(f, g, p, TextLen(f.kids), par, Id(f.kids), Id(f.next), par', Id(g.kids), Id(g.next));
      SameOffsets(a, b, f.kids, id + 1, f.id, id, KidsPos(f, p));
      SameOffsets(a, b, f.next, id + 1 + Size(f.kids), par, par', NextPos(f, p, TextLen(f.kids)));
    }
  }

  lemma RenumberLen(f: Forest, id: nat)
    ensures TextLen(Renumber(f, id)) == TextLen(f)
  {
    TextLenIs(f);
    TextLenIs(Renumber(f, id));
  }

  lemma SameEntry(f: Forest, g: Forest, p: nat, k: nat, parent: nat, child: nat, next: nat, parent': nat, child': nat,
      next': nat)
    requires f.Cons? && g.Cons? && g.(id := f.id, kids := f.kids, next := f.next) == f
    ensures var e, d := Entry(f, p, k, parent, child, next), Entry(g, p, k, parent', child', next');
      e.startL == d.startL && e.startR == d.startR && e.endL == d.endL && e.endR == d.endR
    ensures KidsPos(g, p) == KidsPos(f, p) && NextPos(g, p, k) == NextPos(f, p, k)
  {
  }
}
