/**
  The position array: what it means for an array of links and offsets to
  represent a tree, what stays represented when entries change, and what the
  adjustment walk has to do to the entries around an edit.
 */
module Index {
  import opened Parser

  /** An entry of the position array. */
  datatype ElemPos = ElemPos(startL: int, startR: int, endL: int, endR: int, parent: nat, child: nat, next: nat)
  {
    predicate IsEmptyElement() { startR == endL + 1 }

    function AdjustStart(n: int): ElemPos { this.(startL := startL + n, startR := startR + n) }

    function AdjustEnd(n: int): ElemPos { this.(endL := endL + n, endR := endR + n) }

    function LinkNext(i: nat): ElemPos { this.(next := i) }

    function LinkChild(i: nat): ElemPos { this.(child := i) }

    /** The pre-adjustment of an empty element that is given an end tag `m` characters long. */
    function PreSplit(m: nat): ElemPos { this.(startR := startR - 1, endL := endL - m) }
  }

  const CLEARED := ElemPos(0, 0, 0, 0, 0, 0, 0)

  function Id(f: Forest): nat { if f.Nil? then 0 else f.id }

  function Ids(f: Forest): set<nat> {
    if f.Nil? then {} else {f.id} + Ids(f.kids) + Ids(f.next)
  }

  /** Every element has its own index, and index 0 is kept for the document. */
  ghost predicate Distinct(f: Forest) {
    f.Nil? || (f.id > 0 && f.id !in Ids(f.kids) && f.id !in Ids(f.next) && Ids(f.kids) !! Ids(f.next)
        && Distinct(f.kids) && Distinct(f.next))
  }

  lemma NilIds()
    ensures Ids(Nil) == {} && Distinct(Nil) && Text(Nil) == ""
  {
  }

  // ---- lengths ----

  function OpenLen(c: Forest): nat
    requires c.Cons?
  {
    |c.tag| + (if c.empty then 2 else 1)
  }

  /** The length of an element whose children take `k` characters. */
  function BodyLen(c: Forest, k: nat): nat
    requires c.Cons?
  {
    OpenLen(c) + (if c.empty then 0 else |c.head| + k + |c.close|)
  }

  function TextLen(f: Forest): nat {
    if f.Nil? then 0 else BodyLen(f, TextLen(f.kids)) + |f.gap| + TextLen(f.next)
  }

  /** The entries before `i` are kept. */
  ghost predicate Below(a: seq<ElemPos>, b: seq<ElemPos>, i: nat) {
    i <= |a| <= |b| && forall k :: 0 <= k < i ==> b[k] == a[k]
  }

  lemma BelowIs(a: seq<ElemPos>, b: seq<ElemPos>, i: nat)
    requires i <= |a| <= |b| && forall k :: 0 <= k < i ==> k < |a| && b[k] == a[k]
    ensures Below(a, b, i)
  {
  }

  lemma {:induction false} TextLenIs(f: Forest)
    ensures |Text(f)| == TextLen(f)
    ensures f.Cons? ==> |Body(f)| == BodyLen(f, TextLen(f.kids))
  {
    if f.Cons? {
      TextLenIs(f.kids);
      TextLenIs(f.next);
    }
  }

  // ---- representation ----

  /** The entry of a cell that starts at `p`, whose children take `k` characters. */
  function Entry(c: Forest, p: nat, k: nat, parent: nat, child: nat, next: nat): ElemPos
    requires c.Cons?
  {
    var startR := p + OpenLen(c) - 1;
    if c.empty then ElemPos(p, startR, startR - 1, startR, parent, child, next)
    else
      var endL := p + OpenLen(c) + |c.head| + k;
      ElemPos(p, startR, endL, endL + |c.close| - 1, parent, child, next)
  }

  function KidsPos(c: Forest, p: nat): nat
    requires c.Cons?
  {
    p + OpenLen(c) + |c.head|
  }

  function NextPos(c: Forest, p: nat, k: nat): nat
    requires c.Cons?
  {
    p + BodyLen(c, k) + |c.gap|
  }

  /** `a` represents the forest laid out from `p` under `parent`: all links and all
      four offsets of every element. */
  ghost predicate Rep(a: seq<ElemPos>, f: Forest, parent: nat, p: nat) {
    f.Nil? ||
    (&& f.id < |a|
     && a[f.id] == Entry(f, p, TextLen(f.kids), parent, Id(f.kids), Id(f.next))
     && Rep(a, f.kids, f.id, KidsPos(f, p))
     && Rep(a, f.next, parent, NextPos(f, p, TextLen(f.kids))))
  }

  lemma {:induction false} RepFrame(a: seq<ElemPos>, b: seq<ElemPos>, f: Forest, parent: nat, p: nat)
    requires Rep(a, f, parent, p)
    requires forall i :: i in Ids(f) && i < |a| ==> i < |b| && b[i] == a[i]
    ensures Rep(b, f, parent, p)
  {
    if f.Cons? {
      assert f.id in Ids(f);
      RepFrame(a, b, f.kids, f.id, KidsPos(f, p));
      RepFrame(a, b, f.next, parent, NextPos(f, p, TextLen(f.kids)));
    }
  }

  // ---- shifting ----

  /** Entries in `both` moved by `n`, entries in `ends` with only their end tags moved. */
  function Shifted(a: seq<ElemPos>, both: set<nat>, ends: set<nat>, n: int): (r: seq<ElemPos>)
    ensures |r| == |a|
    ensures forall i :: 0 <= i < |a| ==>
      r[i] == if i in both then a[i].AdjustStart(n).AdjustEnd(n) else if i in ends then a[i].AdjustEnd(n) else a[i]
  {
    seq(|a|, i requires 0 <= i < |a| =>
      if i in both then a[i].AdjustStart(n).AdjustEnd(n) else if i in ends then a[i].AdjustEnd(n) else a[i])
  }

  /** An entry depends on the cell's own pieces only. */
  lemma EntryLocal(c: Forest, d: Forest)
    requires c.Cons? && d.Cons? && d.(kids := c.kids, next := c.next, id := c.id) == c
    ensures forall p: nat, k: nat, parent, child, next :: Entry(c, p, k, parent, child, next) == Entry(d, p, k, parent,
        child, next)
    ensures forall p: nat :: KidsPos(c, p) == KidsPos(d, p)
    ensures forall k: nat :: BodyLen(c, k) == BodyLen(d, k)
    ensures forall p: nat, k: nat :: NextPos(c, p, k) == NextPos(d, p, k)
  {
  }

  lemma EntryShift(c: Forest, p: nat, k: nat, parent: nat, child: nat, next: nat, n: int)
    requires c.Cons? && 0 <= p + n
    ensures Entry(c, p + n, k, parent, child, next) == Entry(c, p, k, parent, child, next).AdjustStart(n).AdjustEnd(n)
    ensures KidsPos(c, p + n) == KidsPos(c, p) + n && NextPos(c, p + n, k) == NextPos(c, p, k) + n
  {
  }

  lemma {:induction false} RepShift(a: seq<ElemPos>, b: seq<ElemPos>, f: Forest, parent: nat, p: nat, n: int)
    requires Rep(a, f, parent, p) && 0 <= p + n
    requires forall i :: i in Ids(f) && i < |a| ==> i < |b| && b[i] == a[i].AdjustStart(n).AdjustEnd(n)
    ensures Rep(b, f, parent, p + n)
  {
    hide TextLen, Entry, KidsPos, NextPos;
    if f.Cons? {
      assert f.id in Ids(f);
      EntryShift(f, p, TextLen(f.kids), parent, Id(f.kids), Id(f.next), n);
      RepShift(a, b, f.kids, f.id, KidsPos(f, p), n);
      RepShift(a, b, f.next, parent, NextPos(f, p, TextLen(f.kids)), n);
    }
  }

  /** The entries of the elements of `f` are kept. */
  ghost predicate Kept(a: seq<ElemPos>, b: seq<ElemPos>, f: Forest) {
    forall i :: i in Ids(f) && i < |a| ==> i < |b| && b[i] == a[i]
  }

  /** The entries of the elements of `f` are moved by `n`. */
  ghost predicate Moved(a: seq<ElemPos>, b: seq<ElemPos>, f: Forest, n: int) {
    forall i :: i in Ids(f) && i < |a| ==> i < |b| && b[i] == a[i].AdjustStart(n).AdjustEnd(n)
  }

  // ---- contexts ----

  /** The forest around a hole: the hole is the rest of the siblings after `cell`,
      or the children of `cell`. */
  datatype Ctx = Top | Sib(cell: Forest, up: Ctx) | Child(cell: Forest, up: Ctx)

  ghost predicate CtxOK(x: Ctx) {
    x.Top? || (x.cell.Cons? && CtxOK(x.up))
  }

  /** Elements with children are not empty-element tags. */
  ghost predicate CtxFull(x: Ctx) {
    x.Top? || (x.cell.Cons? && (x.Child? ==> !x.cell.empty) && CtxFull(x.up))
  }

  function Fill(x: Ctx, f: Forest): Forest
    requires CtxOK(x)
    decreases x
  {
    match x
    case Top => f
    case Sib(c, up) => Fill(up, c.(next := f))
    case Child(c, up) => Fill(up, c.(kids := f))
  }

  /** The indices of the cells of the context, hole excluded. */
  function CtxIds(x: Ctx): set<nat>
    requires CtxOK(x)
  {
    match x
    case Top => {}
    case Sib(c, up) => {c.id} + Ids(c.kids) + CtxIds(up)
    case Child(c, up) => {c.id} + Ids(c.next) + CtxIds(up)
  }

  ghost predicate DistinctCtx(x: Ctx)
    requires CtxOK(x)
  {
    match x
    case Top => true
    case Sib(c, up) =>
      c.id > 0 && c.id !in Ids(c.kids) && c.id !in CtxIds(up) && Ids(c.kids) !! CtxIds(up) && Distinct(c.kids)
          && DistinctCtx(up)
    case Child(c, up) =>
      c.id > 0 && c.id !in Ids(c.next) && c.id !in CtxIds(up) && Ids(c.next) !! CtxIds(up) && Distinct(c.next)
          && DistinctCtx(up)
  }

  lemma {:induction false} FillIds(x: Ctx, f: Forest)
    requires CtxOK(x)
    ensures Ids(Fill(x, f)) == CtxIds(x) + Ids(f)
    ensures Distinct(Fill(x, f)) <==> Distinct(f) && DistinctCtx(x) && CtxIds(x) !! Ids(f)
    decreases x
  {
    match x
    case Top =>
    case Sib(c, up) => FillIds(up, c.(next := f));
    case Child(c, up) => FillIds(up, c.(kids := f));
  }

  /** The index of the element whose children the hole is among. */
  function Par(x: Ctx): nat
    requires CtxOK(x)
  {
    match x
    case Top => 0
    case Sib(_, up) => Par(up)
    case Child(c, _) => c.id
  }

  /** The offset of the hole when the document starts its elements at `base`. */
  function HolePos(x: Ctx, base: nat): nat
    requires CtxOK(x)
  {
    match x
    case Top => base
    case Sib(c, up) => NextPos(c, HolePos(up, base), TextLen(c.kids))
    case Child(c, up) => KidsPos(c, HolePos(up, base))
  }

  /** `a` represents the context around a hole of `k` characters whose first
      element is `first`. */
  ghost predicate RepCtx(a: seq<ElemPos>, x: Ctx, base: nat, k: nat, first: nat)
    requires CtxOK(x)
    decreases x
  {
    match x
    case Top => |a| > 0 && a[0].child == first
    case Sib(c, up) =>
      var p := HolePos(up, base);
      && c.id < |a|
      && a[c.id] == Entry(c, p, TextLen(c.kids), Par(up), Id(c.kids), first)
      && Rep(a, c.kids, c.id, KidsPos(c, p))
      && RepCtx(a, up, base, BodyLen(c, TextLen(c.kids)) + |c.gap| + k, c.id)
    case Child(c, up) =>
      var p := HolePos(up, base);
      && c.id < |a|
      && a[c.id] == Entry(c, p, k, Par(up), first, Id(c.next))
      && Rep(a, c.next, Par(up), NextPos(c, p, k))
      && RepCtx(a, up, base, BodyLen(c, k) + |c.gap| + TextLen(c.next), c.id)
  }

  /** Representing the whole is representing the context and the hole. */
  lemma {:induction false} RepFill(a: seq<ElemPos>, x: Ctx, f: Forest, base: nat)
    requires CtxOK(x)
    ensures (|a| > 0 && a[0].child == Id(Fill(x, f)) && Rep(a, Fill(x, f), 0, base)) <==>
            (RepCtx(a, x, base, TextLen(f), Id(f)) && Rep(a, f, Par(x), HolePos(x, base)))
    decreases x
  {
    hide Entry, KidsPos, NextPos, BodyLen;
    match x
    case Top =>
    case Sib(c, up) =>
      RepFill(a, up, c.(next := f), base);
      EntryLocal(c, c.(next := f));
    case Child(c, up) =>
      RepFill(a, up, c.(kids := f), base);
      EntryLocal(c, c.(kids := f));
  }

  // ---- what an edit in the hole moves ----

  /** The enclosing elements, with the document itself. */
  function Ancestors(x: Ctx): set<nat>
    requires CtxOK(x)
  {
    match x
    case Top => {0}
    case Sib(_, up) => Ancestors(up)
    case Child(c, up) => {c.id} + Ancestors(up)
  }

  /** The elements that start after the end of the hole. */
  function Following(x: Ctx): set<nat>
    requires CtxOK(x)
  {
    match x
    case Top => {}
    case Sib(_, up) => Following(up)
    case Child(c, up) => Ids(c.next) + Following(up)
  }

  lemma {:induction false} FollowingIn(x: Ctx)
    requires CtxOK(x) && DistinctCtx(x)
    ensures Following(x) <= CtxIds(x) && Ancestors(x) <= CtxIds(x) + {0}
    ensures 0 !in CtxIds(x) && Following(x) !! Ancestors(x)
    decreases x
  {
    match x
    case Top =>
    case Sib(c, up) => FollowingIn(up); ZeroFree(c.kids);
    case Child(c, up) => FollowingIn(up); ZeroFree(c.next);
  }

  lemma {:induction false} ZeroFree(f: Forest)
    requires Distinct(f)
    ensures 0 !in Ids(f)
  {
    if f.Cons? { ZeroFree(f.kids); ZeroFree(f.next); }
  }

  /** The entries of the context as the walk leaves them. */
  ghost predicate Walked(a: seq<ElemPos>, b: seq<ElemPos>, x: Ctx, n: int)
    requires CtxOK(x)
  {
    |a| <= |b| && forall i :: i in CtxIds(x) && i < |a| ==>
      b[i] == if i in Following(x) then a[i].AdjustStart(n).AdjustEnd(n)
          else if i in Ancestors(x) then a[i].AdjustEnd(n) else a[i]
  }

  lemma WalkedSib(a: seq<ElemPos>, b: seq<ElemPos>, x: Ctx, n: int)
    requires CtxOK(x) && DistinctCtx(x) && x.Sib? && Walked(a, b, x, n)
    ensures Walked(a, b, x.up, n)
    ensures forall i :: i in {x.cell.id} + Ids(x.cell.kids) && i < |a| ==> b[i] == a[i]
  {
    FollowingIn(x.up);
    ZeroFree(x.cell.kids);
    forall i | i in {x.cell.id} + Ids(x.cell.kids) && i < |a|
      ensures b[i] == a[i]
    {
      assert i in CtxIds(x) && i !in CtxIds(x.up) && i != 0;
    }
  }

  lemma WalkedChild(a: seq<ElemPos>, b: seq<ElemPos>, x: Ctx, n: int)
    requires CtxOK(x) && DistinctCtx(x) && x.Child? && Walked(a, b, x, n)
    ensures Walked(a, b, x.up, n)
    ensures x.cell.id < |a| ==> b[x.cell.id] == a[x.cell.id].AdjustEnd(n)
    ensures forall i :: i in Ids(x.cell.next) && i < |a| ==> b[i] == a[i].AdjustStart(n).AdjustEnd(n)
  {
    FollowingIn(x.up);
    ZeroFree(x.cell.next);
    assert x.cell.id in CtxIds(x) && x.cell.id !in Following(x) && x.cell.id in Ancestors(x);
    forall i | i in CtxIds(x.up) && i < |a|
      ensures b[i] == if i in Following(x.up) then a[i].AdjustStart(n).AdjustEnd(n)
          else if i in Ancestors(x.up) then a[i].AdjustEnd(n) else a[i]
    {
      assert i in CtxIds(x) && i !in Ids(x.cell.next) && i != x.cell.id;
    }
    forall i | i in Ids(x.cell.next) && i < |a|
      ensures b[i] == a[i].AdjustStart(n).AdjustEnd(n)
    {
      assert i in CtxIds(x) && i in Following(x);
    }
  }

  /** After the walk the context is represented around a hole `n` longer. */
  lemma {:induction false} CtxShift(a: seq<ElemPos>, b: seq<ElemPos>, x: Ctx, base: nat, k: nat, n: int, first: nat)
    requires CtxOK(x) && CtxFull(x) && DistinctCtx(x) && RepCtx(a, x, base, k, first) && 0 <= k + n
    requires 0 < |a| <= |b| && Walked(a, b, x, n) && b[0].child == a[0].child
    ensures RepCtx(b, x, base, k + n, first)
    decreases x
  {
    hide TextLen, BodyLen, KidsPos, Following, Ancestors, Walked, Rep, Entry, NextPos;
    match x
    case Top =>
    case Sib(c, up) =>
      WalkedSib(a, b, x, n);
      RepFrame(a, b, c.kids, c.id, KidsPos(c, HolePos(up, base)));
      CtxShift(a, b, up, base, BodyLen(c, TextLen(c.kids)) + |c.gap| + k, n, c.id);
    case Child(c, up) =>
      WalkedChild(a, b, x, n);
      HoleGrows(c, HolePos(up, base), k, n, Par(up), first, Id(c.next));
      RepShift(a, b, c.next, Par(up), NextPos(c, HolePos(up, base), k), n);
      CtxShift(a, b, up, base, BodyLen(c, k) + |c.gap| + TextLen(c.next), n, c.id);
  }

  lemma HoleGrows(c: Forest, p: nat, k: nat, n: int, parent: nat, child: nat, next: nat)
    requires c.Cons? && !c.empty && 0 <= k + n
    ensures Entry(c, p, k + n, parent, child, next) == Entry(c, p, k, parent, child, next).AdjustEnd(n)
    ensures NextPos(c, p, k + n) == NextPos(c, p, k) + n && BodyLen(c, k + n) == BodyLen(c, k) + n
  {
  }

  // ---- links only ----

  /** The three links of every element of the forest. */
  ghost predicate Links(a: seq<ElemPos>, f: Forest, parent: nat) {
    f.Nil? ||
    (&& f.id < |a| && a[f.id].parent == parent && a[f.id].child == Id(f.kids) && a[f.id].next == Id(f.next)
     && Links(a, f.kids, f.id) && Links(a, f.next, parent))
  }

  /** The links the walk reads on its way up: parents and next siblings of the
      enclosing elements, and everything that follows them. */
  ghost predicate LinksUp(a: seq<ElemPos>, x: Ctx)
    requires CtxOK(x)
  {
    match x
    case Top => |a| > 0
    case Sib(c, up) => LinksUp(a, up)
    case Child(c, up) =>
      c.id < |a| && a[c.id].parent == Par(up) && a[c.id].next == Id(c.next) && Links(a, c.next, Par(up))
          && LinksUp(a, up)
  }

  lemma {:induction false} RepLinks(a: seq<ElemPos>, f: Forest, parent: nat, p: nat)
    requires Rep(a, f, parent, p)
    ensures Links(a, f, parent)
  {
    if f.Cons? {
      RepLinks(a, f.kids, f.id, KidsPos(f, p));
      RepLinks(a, f.next, parent, NextPos(f, p, TextLen(f.kids)));
    }
  }

  lemma {:induction false} RepCtxLinks(a: seq<ElemPos>, x: Ctx, base: nat, k: nat, first: nat)
    requires CtxOK(x) && RepCtx(a, x, base, k, first)
    ensures LinksUp(a, x)
    decreases x
  {
    match x
    case Top =>
    case Sib(c, up) => RepCtxLinks(a, up, base, BodyLen(c, TextLen(c.kids)) + |c.gap| + k, c.id);
    case Child(c, up) =>
      RepLinks(a, c.next, Par(up), NextPos(c, HolePos(up, base), k));
      RepCtxLinks(a, up, base, BodyLen(c, k) + |c.gap| + TextLen(c.next), c.id);
  }

  /** Links do not depend on offsets. */
  ghost predicate SameLinks(a: seq<ElemPos>, b: seq<ElemPos>) {
    |a| == |b| && forall i :: 0 <= i < |a| ==>
        a[i].parent == b[i].parent && a[i].child == b[i].child && a[i].next == b[i].next
  }
}
