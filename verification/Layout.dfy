/**
  The document as a whole: the text is a prolog followed by the text of the tree,
  and the position array represents the tree laid out behind the prolog.  `Replace`
  lemmas say what is left to show when one element, found in its context, is
  replaced by another.
 */
module Layout {
  import opened Scanner
  import opened Parser
  import opened RoundTrip
  import opened ParserProofs
  import opened Index

  /** A document has one root element; what follows it is never looked at. */
  predicate WFRoot(f: Forest) { f.Cons? && f.next.Nil? && CellOK(f) && WF(f.kids) }

  /** Text and array describe the same tree. */
  ghost predicate Laid(doc: string, a: seq<ElemPos>, free: nat, prolog: string, f: Forest) {
    && 8 <= |a| && 0 < free <= |a|
    && doc == prolog + Text(f)
    && a[0].startR == 0 && a[0].parent == 0 && a[0].next == 0 && a[0].child == Id(f)
    && Rep(a, f, 0, |prolog|) && Distinct(f) && (forall i :: i in Ids(f) ==> i < free)
    && (f.Cons? ==> f.next.Nil?)
  }

  // ---- contexts and text ----

  function PreText(x: Ctx): string
    requires CtxOK(x)
  {
    match x
    case Top => ""
    case Sib(c, up) => PreText(up) + (Body(c) + c.gap)
    case Child(c, up) => PreText(up) + (OpenText(c) + c.head)
  }

  function PostText(x: Ctx): string
    requires CtxOK(x)
  {
    match x
    case Top => ""
    case Sib(_, up) => PostText(up)
    case Child(c, up) => Behind(c) + PostText(up)
  }

  lemma {:induction false} FillText(x: Ctx, f: Forest, base: nat)
    requires CtxOK(x) && CtxFull(x)
    ensures Text(Fill(x, f)) == PreText(x) + (Text(f) + PostText(x))
    ensures HolePos(x, base) == base + |PreText(x)|
    decreases x
  {
    match x
    case Top =>
      assert Text(f) + "" == Text(f);
    case Sib(c, up) =>
      FillText(up, c.(next := f), base);
      SibText(c, f, PreText(up), PostText(up));
      TextLenIs(c.(next := Nil));
    case Child(c, up) =>
      FillText(up, c.(kids := f), base);
      ChildText(c, f, PreText(up), PostText(up));
  }

  lemma SibText(c: Forest, f: Forest, pre: string, post: string)
    requires c.Cons?
    ensures var inner := Body(c) + c.gap;
      pre + (Text(c.(next := f)) + post) == (pre + inner) + (Text(f) + post)
  {
    assert Body(c.(next := f)) == Body(c);
  }

  lemma ChildText(c: Forest, f: Forest, pre: string, post: string)
    requires c.Cons? && !c.empty
    ensures var front := OpenText(c) + c.head;
      var back := Behind(c) + post;
      pre + (Text(c.(kids := f)) + post) == (pre + front) + (Text(f) + back)
  {
    var d := c.(kids := f);
    var rest := c.gap + Text(c.next);
    var inner := c.head + (Text(f) + c.close);
    var front := OpenText(c) + c.head;
    calc {
      Text(d);
      Body(d) + rest;
      (OpenText(c) + inner) + rest;
      front + (Text(f) + Behind(c));
    }
  }

  /** Finding an element gives the context around it. */
  lemma {:induction false} LocateIn(x: Ctx, f: Forest, id: nat) returns (y: Ctx, c: Forest)
    requires CtxOK(x) && id in Ids(f)
    ensures CtxOK(y) && c.Cons? && c.id == id && Fill(y, c) == Fill(x, f)
    decreases f
  {
    if f.id == id { y, c := x, f; }
    else if id in Ids(f.kids) { y, c := LocateIn(Child(f, x), f.kids, id); }
    else { y, c := LocateIn(Sib(f, x), f.next, id); }
  }

  lemma Locate(f: Forest, id: nat) returns (x: Ctx, c: Forest)
    requires id in Ids(f)
    ensures CtxOK(x) && c.Cons? && c.id == id && Fill(x, c) == f
  {
    x, c := LocateIn(Top, f, id);
  }

  /** What a hole of a well-formed document takes. */
  predicate Fits(x: Ctx, f: Forest) { if x.Top? then WFRoot(f) else WF(f) }

  lemma {:induction false} FitsFill(x: Ctx, f: Forest, g: Forest)
    requires CtxOK(x) && f.Cons? && WFRoot(Fill(x, f))
    ensures Fits(x, f) && CtxFull(x)
    ensures Fits(x, g) ==> WFRoot(Fill(x, g))
    decreases x
  {
    hide GapOK, TagOK, CloseOK, TagName;
    match x
    case Top =>
    case Sib(c, up) =>
      FitsFill(up, c.(next := f), c.(next := g));
      CellMoves(c, c.(next := f));
      CellMoves(c, c.(next := g));
    case Child(c, up) =>
      FitsFill(up, c.(kids := f), c.(kids := g));
      CellMoves(c, c.(kids := f));
      CellMoves(c, c.(kids := g));
  }

  /** Well-formedness of a cell looks at its own pieces, and at whether an
      empty-element tag has children. */
  lemma CellMoves(c: Forest, d: Forest)
    requires c.Cons? && d.Cons? && d.tag == c.tag && d.empty == c.empty && d.head == c.head && d.close == c.close
    requires c.empty && c.kids.Nil? ==> d.kids.Nil?
    ensures OpenText(c) == OpenText(d) && TagName(c) == TagName(d) && TagOK(c) == TagOK(d)
    ensures CellOK(c) ==> CellOK(d)
    ensures !c.empty ==> CellOK(c) == CellOK(d)
  {
    hide NextTag, EndTag, GapOK;
  }

  // ---- agreement with parsing again ----

  /** Parsing the text again gives the same tree, up to renumbering, with the same
      text in front: so the same offsets. */
  predicate Agrees(doc: string, prolog: string, f: Forest) {
    if f.Cons? then ParseElem(doc, 0, 1) == Elem(prolog, Renumber(Single(f), 1), |prolog| + |Body(f)|,
        1 + Size(f.kids) + 1)
    else !ParseElem(doc, 0, 1).Elem?
  }

  /** It agrees exactly if the tree is well-formed and the prolog holds no tag. */
  lemma AgreesExactly(doc: string, prolog: string, f: Forest)
    requires doc == prolog + Text(f) && f.Cons? && f.next.Nil?
    ensures Agrees(doc, prolog, f) <==> WFRoot(f) && GapOK(prolog, 0)
  {
    hide ParseElem, CellOK, GapOK, Body, Text, WF;
    DocHas(doc, prolog, f);
    if WFRoot(f) && GapOK(prolog, 0) {
      ElemComplete(prolog, f, doc, 0, 1);
    }
    if Agrees(doc, prolog, f) {
      ElemSound(doc, 0, 1);
      RenumberWF(Single(f), 1);
      CellMoves(Single(f), f);
    }
  }

  lemma DocHas(doc: string, prolog: string, f: Forest)
    requires doc == prolog + Text(f) && f.Cons?
    ensures Has(doc, 0, prolog) && Has(doc, |prolog|, Body(f))
  {
    hide Body;
    HasConcat(doc, 0, prolog, Text(f));
    HasConcat(doc, |prolog|, Body(f), f.gap + Text(f.next));
    assert doc[0..|doc|] == doc;
  }

  /** Numbering has no influence on well-formedness. */
  lemma {:induction false} RenumberWF(f: Forest, id: nat)
    ensures WF(Renumber(f, id)) == WF(f)
    ensures f.Cons? ==> CellOK(Renumber(f, id)) == CellOK(f) && WF(Renumber(f, id).kids) == WF(f.kids)
  {
    hide GapOK, TagOK, CloseOK, TagName;
    if f.Cons? {
      RenumberWF(f.kids, id + 1);
      RenumberWF(f.next, id + 1 + Size(f.kids));
      CellMoves(f, Renumber(f, id));
      CellMoves(Renumber(f, id), f);
    }
  }

  /** A document without elements agrees if it holds no tag at all. */
  lemma AgreesEmpty(doc: string)
    requires GapOK(doc, 0)
    ensures Agrees(doc, doc, Nil)
  {
    hide GapOK;
    assert Has(doc, 0, doc);
    GapHas(doc, doc, 0);
    assert FindChar(doc, |doc|, '<') == |doc|;
    assert NextTag(doc, |doc|) == NoTag;
  }

  // ---- replacing an element in its context ----

  /** The document's own entry: its end offsets are scratch, the rest is kept. */
  ghost predicate SameDocEntry(a: seq<ElemPos>, b: seq<ElemPos>) {
    0 < |a| && 0 < |b| && b[0].startR == a[0].startR && b[0].parent == a[0].parent && b[0].child == a[0].child
        && b[0].next == a[0].next
  }

  lemma ReplaceLaid(doc: string, a: seq<ElemPos>, free: nat, prolog: string, x: Ctx, c: Forest,
                    doc': string, b: seq<ElemPos>, free': nat, d: Forest)
    requires CtxOK(x) && CtxFull(x) && c.Cons? && d.Cons? && d.id == c.id && Laid(doc, a, free, prolog, Fill(x, c))
    requires |a| <= |b| && free <= free' <= |b|
    requires SameDocEntry(a, b)
    requires Rep(b, d, Par(x), HolePos(x, |prolog|)) && Walked(a, b, x, TextLen(d) - TextLen(c))
    requires Distinct(d) && forall i :: i in Ids(d) ==> i in Ids(c) || free <= i < free'
    requires x.Top? ==> d.next.Nil?
    requires doc' == prolog + (PreText(x) + (Text(d) + PostText(x)))
    ensures Laid(doc', b, free', prolog, Fill(x, d))
  {
    hide Rep, TextLen, Text, RepCtx, Walked, CtxOK;
    hide CtxFull, Distinct, Ids, Fill, HolePos, PreText, PostText, Par;
    ReplaceIds(x, c, d, free, free');
    ReplaceRep(a, b, x, c, d, |prolog|);
    FillText(x, d, |prolog|);
    FillTop(x, c, d);
  }

  lemma ReplaceRep(a: seq<ElemPos>, b: seq<ElemPos>, x: Ctx, c: Forest, d: Forest, base: nat)
    requires CtxOK(x) && CtxFull(x) && DistinctCtx(x) && c.Cons? && d.Cons? && d.id == c.id
    requires 0 < |a| <= |b| && b[0].child == a[0].child
    requires a[0].child == Id(Fill(x, c)) && Rep(a, Fill(x, c), 0, base)
    requires Rep(b, d, Par(x), HolePos(x, base)) && Walked(a, b, x, TextLen(d) - TextLen(c))
    ensures b[0].child == Id(Fill(x, d)) && Rep(b, Fill(x, d), 0, base)
  {
    hide Rep, TextLen, RepCtx, Walked, Distinct, Fill, HolePos, Par;
    RepFill(a, x, c, base);
    CtxShift(a, b, x, base, TextLen(c), TextLen(d) - TextLen(c), c.id);
    RepFill(b, x, d, base);
  }

  lemma ReplaceIds(x: Ctx, c: Forest, d: Forest, free: nat, free': nat)
    requires CtxOK(x) && Distinct(Fill(x, c)) && Distinct(d) && free <= free'
    requires forall i :: i in Ids(Fill(x, c)) ==> i < free
    requires forall i :: i in Ids(d) ==> i in Ids(c) || free <= i < free'
    ensures Distinct(Fill(x, d)) && DistinctCtx(x) && forall i :: i in Ids(Fill(x, d)) ==> i < free'
  {
    hide Distinct, Fill;
    FillIds(x, c);
    FillIds(x, d);
  }

  /** Whether there is a second root does not depend on what fills an inner hole. */
  lemma {:induction false} FillTop(x: Ctx, f: Forest, g: Forest)
    requires CtxOK(x) && f.Cons? && g.Cons?
    ensures x.Top? ==> Fill(x, f) == f && Fill(x, g) == g
    ensures Fill(x, f).Cons? && Fill(x, g).Cons?
    ensures !x.Top? ==> Fill(x, f).next.Nil? == Fill(x, g).next.Nil?
    decreases x
  {
    match x
    case Top =>
    case Sib(c, up) => FillTop(up, c.(next := f), c.(next := g));
    case Child(c, up) => FillTop(up, c.(kids := f), c.(kids := g));
  }
}
