/**
  Edits keep a document well-formed: each edited element is again one that the
  parser accepts.
 */
module Growth {
  import opened Common
  import opened Parser
  import opened RoundTrip
  import opened Index
  import opened Edits
  import opened Layout
  import opened Gaps
  import opened Places

  lemma FitsIs(x: Ctx, c: Forest)
    requires c.Cons? && CellOK(c) && WF(c.kids) && WF(c.next) && (if x.Top? then c.next.Nil? else GapOK(c.gap, 0))
    ensures Fits(x, c)
  {
    hide CellOK, GapOK;
  }

  /** A new element as it is put in: its gap is set, and older elements follow. */
  lemma NewCellWF(t: Forest, g: string, n: Forest)
    requires WFTree(t) && GapOK(g, 0) && WF(n)
    ensures WF(t.(gap := g, next := n))
  {
    hide CellOK, GapOK;
    CellRelink(t, g, n);
  }

  lemma InsertAfterFits(x: Ctx, c: Forest, k: nat, lead: string, t: Forest, trail: string)
    requires CtxOK(x) && c.Cons? && Fits(x, c) && !x.Top? && WFTree(t) && CutOK(c.gap, k) && GapOK(lead, 0)
        && GapOK(trail, 0)
    ensures Fits(x, InsertAfter(c, k, lead, t, trail))
  {
    hide GapOK, CellOK, CutOK, WF, Fits;
    FitsCell(x, c);
    CutGap(c.gap, k);
    CutLen(c.gap, k);
    JoinGap(c.gap[..k], lead);
    JoinGap(trail, c.gap[k..]);
    NewCellWF(t, trail + c.gap[k..], c.next);
    var d := InsertAfter(c, k, lead, t, trail);
    CellRelink(c, d.gap, d.next);
    FitsIs(x, d);
  }

  lemma CutLen(g: string, k: nat)
    requires CutOK(g, k)
    ensures k <= |g|
  {
  }

  lemma InsertFirstFits(x: Ctx, c: Forest, k: nat, lead: string, t: Forest, trail: string)
    requires CtxOK(x) && c.Cons? && !c.empty && Fits(x, c) && WFTree(t) && CutOK(c.head, k) && GapOK(lead, 0)
        && GapOK(trail, 0)
    ensures Fits(x, InsertFirst(c, k, lead, t, trail))
    ensures InsertFirst(c, k, lead, t, trail).gap == c.gap
  {
    hide GapOK, CellOK, CutOK, WF, Fits;
    FitsCell(x, c);
    CloseOpens(c);
    CutGap(c.head, k);
    CutLen(c.head, k);
    JoinGap(c.head[..k], lead);
    JoinGap(trail, c.head[k..]);
    NewCellWF(t, trail + c.head[k..], c.kids);
    var d := InsertFirst(c, k, lead, t, trail);
    NewHead(c, d);
    FitsSame(x, c, d);
  }

  /** Another head and other children. */
  lemma NewHead(c: Forest, d: Forest)
    requires c.Cons? && !c.empty && CellOK(c) && d.Cons? && d == c.(head := d.head, kids := d.kids) && GapOK(d.head, 0)
    ensures CellOK(d)
  {
    hide GapOK, NextTag, EndTag;
  }

  lemma FitsSame(x: Ctx, c: Forest, d: Forest)
    requires Fits(x, c) && c.Cons? && d.Cons? && d.gap == c.gap && d.next == c.next && CellOK(d) && WF(d.kids)
    ensures Fits(x, d)
  {
    hide GapOK, CellOK;
  }

  lemma SplitDataFits(x: Ctx, c: Forest, data: string)
    requires CtxOK(x) && c.Cons? && c.empty && Fits(x, c) && GapOK(data, 0)
    ensures Fits(x, SplitData(c, TagName(c), data)) <==> CanSplit(c)
  {
    hide GapOK, CellOK, WF, TagName, CanSplit;
    FitsCell(x, c);
    var d := SplitData(c, TagName(c), data);
    SplitExactly(c, d);
    if CanSplit(c) {
      EmptyKids(c);
      FitsSame(x, c, d);
    } else if Fits(x, d) {
      FitsCell(x, d);
    }
  }

  lemma EmptyKids(c: Forest)
    requires c.Cons? && c.empty && CellOK(c)
    ensures c.kids.Nil? && c.head == "" && c.close == "" && WF(c.kids)
  {
    hide TagOK;
  }

  lemma InsertSplitFits(x: Ctx, c: Forest, lead: string, t: Forest, trail: string)
    requires CtxOK(x) && c.Cons? && c.empty && Fits(x, c) && WFTree(t) && GapOK(lead, 0) && GapOK(trail, 0)
    ensures Fits(x, InsertSplit(c, TagName(c), lead, t, trail)) <==> CanSplit(c)
    ensures InsertSplit(c, TagName(c), lead, t, trail).gap == c.gap
  {
    hide GapOK, CellOK, WF, TagName, CanSplit, Fits, SplitData;
    FitsCell(x, c);
    CrlfGap();
    SplitDataFits(x, c, CRLF);
    var s, d := SplitData(c, TagName(c), CRLF), InsertSplit(c, TagName(c), lead, t, trail);
    SplitDataIs(c, TagName(c), CRLF);
    if CanSplit(c) {
      EndCut(CRLF);
      InsertFirstFits(x, s, 2, lead, t, trail);
    } else if Fits(x, d) {
      FitsCell(x, d);
      JoinGap(CRLF, lead);
      assert CRLF[..2] == CRLF;
      SplitExactly(c, d);
    }
  }

  lemma SplitDataIs(c: Forest, name: string, data: string)
    requires c.Cons?
    ensures SplitData(c, name, data) == c.(empty := false, head := data, close := EndTagOf(name))
  {
  }

  lemma EndCut(g: string)
    ensures CutOK(g, |g|)
  {
  }

  lemma WithHeadFits(x: Ctx, c: Forest, data: string)
    requires CtxOK(x) && c.Cons? && !c.empty && Fits(x, c) && GapOK(data, 0)
    ensures Fits(x, c.(head := data))
  {
    hide GapOK, CellOK, WF, Fits;
    FitsCell(x, c);
    NewHead(c, c.(head := data));
    FitsSame(x, c, c.(head := data));
  }

  lemma WithTagFits(x: Ctx, c: Forest, tag: string)
    requires CtxOK(x) && c.Cons? && Fits(x, c) && TagOK(c.(tag := tag)) && TagName(c.(tag := tag)) == TagName(c)
    ensures Fits(x, c.(tag := tag))
  {
    hide GapOK, WF, Fits, TagOK, TagName, CloseOK;
    FitsCell(x, c);
    FitsSame(x, c, c.(tag := tag));
  }

  lemma RemoveNextFits(x: Ctx, c: Forest, k: nat)
    requires CtxOK(x) && c.Cons? && c.next.Cons? && Fits(x, c) && !x.Top? && CutOK(c.next.gap, k)
    ensures Fits(x, RemoveNext(c, k))
  {
    hide GapOK, CellOK, CutOK, WF, Fits;
    FitsCell(x, c);
    ConsWF(c.next);
    CutLen(c.next.gap, k);
    CutGap(c.next.gap, k);
    JoinGap(c.gap, c.next.gap[k..]);
    var d := RemoveNext(c, k);
    CellRelink(c, d.gap, d.next);
    FitsIs(x, d);
  }

  lemma ConsWF(c: Forest)
    requires c.Cons? && WF(c)
    ensures CellOK(c) && WF(c.kids) && WF(c.next) && GapOK(c.gap, 0)
  {
    hide GapOK, CellOK;
  }

  lemma RemoveFirstFits(x: Ctx, c: Forest, k: nat)
    requires CtxOK(x) && c.Cons? && !c.empty && c.kids.Cons? && Fits(x, c) && CutOK(c.kids.gap, k)
    ensures Fits(x, RemoveFirst(c, k))
    ensures RemoveFirst(c, k).gap == c.gap
  {
    hide GapOK, CellOK, CutOK, WF, Fits;
    FitsCell(x, c);
    CloseOpens(c);
    ConsWF(c.kids);
    CutLen(c.kids.gap, k);
    CutGap(c.kids.gap, k);
    JoinGap(c.head, c.kids.gap[k..]);
    var d := RemoveFirst(c, k);
    NewHead(c, d);
    FitsSame(x, c, d);
  }

  /** The text after the root is untouched by edits below it. */
  lemma {:induction false} RootGap(x: Ctx, f: Forest, g: Forest)
    requires CtxOK(x) && f.Cons? && g.Cons? && (x.Top? ==> f.gap == g.gap)
    ensures Fill(x, f).Cons? && Fill(x, g).Cons? && Fill(x, f).gap == Fill(x, g).gap
    decreases x
  {
    match x
    case Top =>
    case Sib(c, up) => RootGap(up, c.(next := f), c.(next := g));
    case Child(c, up) => RootGap(up, c.(kids := f), c.(kids := g));
  }
}
