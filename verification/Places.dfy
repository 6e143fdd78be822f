/**
  Where the editor puts a new element and what it takes away with an old one: the
  place in the text, and the place in the tree that it stands for.
 */
module Places {
  import opened Scanner
  import opened Parser
  import opened ParserProofs
  import opened RoundTrip
  import opened Index
  import opened Layout
  import opened Gaps

  /** "Go up to start of next node": past whitespace if `<`, or the end, follows. */
  function Skip(doc: string, n: nat): (r: nat)
    requires n <= |doc|
    ensures n <= r <= |doc|
  {
    var t := FindToken(doc, n);
    if !t.found || (t.l < |doc| && doc[t.l] == '<') then t.l else n
  }

  /** The first place from `n` on that holds no whitespace is `m`. */
  ghost predicate FirstText(s: string, n: int, m: int) {
    0 <= n <= m <= |s| && (forall i :: n <= i < m ==> IsSpace(s[i])) && (m < |s| ==> !IsSpace(s[m]))
  }

  /** Where text that goes on at `n` is taken to go on, if `m` is the first place that holds no
      whitespace: at `m`, if a tag or the end is there; behind a quote that is there, if a tag
      follows it; else at `n`. */
  function UpFrom(s: string, n: int, m: int): int
    requires 0 <= m <= |s|
  {
    if m == |s| || s[m] == '<' then m
    else if IsQuote(s[m]) && m + 1 < |s| && s[m + 1] == '<' then m + 1
    else n
  }

  /** Whitespace from `n` on is passed over up to `p`. */
  ghost predicate UpToTag(s: string, n: int, p: int) { exists m :: FirstText(s, n, m) && p == UpFrom(s, n, m) }

  lemma SkipUp(s: string, n: nat)
    requires n <= |s|
    ensures UpToTag(s, n, Skip(s, n))
  {
    hide FindToken, UpToTag;
    SkipSpaceFirst(s, n);
    TokenIs(s, n);
    var m := SkipSpace(s, n);
    assert FirstText(s, n, m);
    UpIs(s, n, m);
  }

  lemma UpIs(s: string, n: int, m: int)
    requires FirstText(s, n, m)
    ensures UpToTag(s, n, UpFrom(s, n, m))
  {
    hide FirstText, UpFrom;
  }

  lemma UpFound(s: string, n: int, p: int) returns (m: int)
    requires UpToTag(s, n, p)
    ensures FirstText(s, n, m) && p == UpFrom(s, n, m)
  {
    hide UpFrom;
    m :| FirstText(s, n, m) && p == UpFrom(s, n, m);
  }

  /** Whitespace goes in front of the end and of a tag, and stays in front of other text. */
  lemma UpCases(ws: string, c: char, rest: string, p: int)
    requires forall i :: 0 <= i < |ws| ==> IsSpace(ws[i])
    ensures UpToTag(ws, 0, p) <==> p == |ws|
    ensures UpToTag(ws + "<" + rest, 0, p) <==> p == |ws|
    ensures !IsSpace(c) && !IsQuote(c) && c != '<' ==> (UpToTag(ws + [c] + rest, 0, p) <==> p == 0)
  {
    hide UpToTag, UpFrom;
    UpCase(ws, ws, p);
    UpCase(ws + "<" + rest, ws, p);
    if !IsSpace(c) { UpCase(ws + [c] + rest, ws, p); }
    UpPlain(ws, |ws|);
    UpPlain(ws + "<" + rest, |ws|);
    UpPlain(ws + [c] + rest, |ws|);
  }

  lemma UpCase(s: string, ws: string, p: int)
    requires ws <= s && (forall i :: 0 <= i < |ws| ==> IsSpace(ws[i])) && (|ws| < |s| ==> !IsSpace(s[|ws|]))
    ensures UpToTag(s, 0, p) <==> p == UpFrom(s, 0, |ws|)
  {
    hide UpToTag, UpFrom;
    forall i | 0 <= i < |ws| ensures IsSpace(s[i]) { assert s[i] == ws[i]; }
    UpIs(s, 0, |ws|);
    if UpToTag(s, 0, p) {
      var m := UpFound(s, 0, p);
      assert m == |ws|;
    }
  }

  lemma UpPlain(s: string, m: nat)
    requires m <= |s|
    ensures m == |s| || s[m] == '<' ==> UpFrom(s, 0, m) == m
    ensures m < |s| && s[m] != '<' && !IsQuote(s[m]) ==> UpFrom(s, 0, m) == 0
  {
  }

  /** A quote, behind whitespace, right in front of a tag. */
  ghost predicate QuoteFirst(s: string, n: int) {
    exists m :: FirstText(s, n, m) && m + 1 < |s| && IsQuote(s[m]) && s[m + 1] == '<'
  }

  /** Only whitespace is passed over, exactly if no quote stands right in front of the tag. */
  lemma SpaceExactly(s: string, n: nat, p: int)
    requires UpToTag(s, n, p)
    ensures n <= p <= |s| && ((forall i :: n <= i < p ==> IsSpace(s[i])) <==> !QuoteFirst(s, n))
  {
    hide UpToTag, QuoteFirst;
    var m := UpFound(s, n, p);
    if QuoteFirst(s, n) {
      var i := QuoteFound(s, n);
      assert i == m && p == m + 1 && !IsSpace(s[m]);
    } else if m + 1 < |s| && IsQuote(s[m]) && s[m + 1] == '<' {
      QuoteIs(s, n, m);
    }
  }

  lemma QuoteFound(s: string, n: int) returns (m: int)
    requires QuoteFirst(s, n)
    ensures FirstText(s, n, m) && m + 1 < |s| && IsQuote(s[m]) && s[m + 1] == '<'
  {
    m :| FirstText(s, n, m) && m + 1 < |s| && IsQuote(s[m]) && s[m + 1] == '<';
  }

  lemma QuoteIs(s: string, n: int, m: int)
    requires FirstText(s, n, m) && m + 1 < |s| && IsQuote(s[m]) && s[m + 1] == '<'
    ensures QuoteFirst(s, n)
  {
    hide FirstText;
  }

  /** In a gap, the place found is one where the gap may be cut. */
  lemma SkipCuts(doc: string, p: nat, g: string)
    requires Has(doc, p, g) && (p + |g| == |doc| || doc[p + |g|] == '<')
    ensures Skip(doc, p) <= p + |g| && CutOK(g, Skip(doc, p) - p)
  {
    var a := SkipSpace(doc, p);
    var k := Skip(doc, p) - p;
    SkipSpaceFirst(doc, p);
    assert k <= |g|;
    forall i | 0 <= i < k
      ensures g[i] != '<'
    {
      assert g[i] == doc[p..p + |g|][i] == doc[p + i];
    }
    FindCharFirst(g, 0, '<');
    NoOpenBefore(g, k);
  }

  lemma NoOpenBefore(g: string, k: nat)
    requires k <= |g| && forall i :: 0 <= i < k ==> g[i] != '<'
    ensures FindChar(g, 0, '<') >= k
  {
    assert FindChar(g, 0, '<') < |g| ==> g[FindChar(g, 0, '<')] == '<';
  }

  /** What is passed over shows in the gap alone, with the tag that follows it. */
  lemma UpInGap(doc: string, e: nat, g: string, k: nat)
    requires Has(doc, e, g) && UpToTag(doc, e, e + k)
    ensures e + |g| == |doc| ==> UpToTag(g, 0, k)
    ensures e + |g| < |doc| && doc[e + |g|] == '<' ==> UpToTag(g + "<", 0, k)
  {
    hide UpToTag, UpFrom;
    var m := UpFound(doc, e, e + k);
    forall i | 0 <= i < |g| ensures g[i] == doc[e + i] { assert doc[e..e + |g|][i] == doc[e + i]; }
    if e + |g| == |doc| {
      UpMoves(doc, e, g, m, k);
    } else if doc[e + |g|] == '<' {
      assert forall i :: 0 <= i < |g + "<"| ==> (g + "<")[i] == doc[e + i];
      UpMoves(doc, e, g + "<", m, k);
    }
  }

  lemma UpMoves(doc: string, e: nat, w: string, m: int, k: nat)
    requires FirstText(doc, e, m) && e + k == UpFrom(doc, e, m) && e + |w| <= |doc|
    requires forall i :: 0 <= i < |w| ==> w[i] == doc[e + i]
    requires e + |w| == |doc| || (|w| > 0 && w[|w| - 1] == '<')
    ensures UpToTag(w, 0, k)
  {
    hide UpToTag;
    assert m <= e + |w|;
    forall i | 0 <= i < m - e ensures IsSpace(w[i]) { assert IsSpace(doc[e + i]); }
    UpIs(w, 0, m - e);
  }

  /** Tags begin with `<`. */
  lemma OpenFirst(c: Forest)
    requires c.Cons? && TagOK(c)
    ensures |OpenText(c)| > 2 && OpenText(c)[0] == '<'
  {
    hide TagName, OpenText;
  }

  lemma CloseFirst(close: string, name: string)
    requires CloseOK(close, name)
    ensures |close| > 0 && close[0] == '<'
  {
    hide EndTag;
  }

  /** Text that begins with a tag. */
  predicate Opens(s: string) { |s| > 0 && s[0] == '<' }

  lemma TextOpens(f: Forest, more: string)
    requires WF(f) && (f.Nil? ==> Opens(more))
    ensures Opens(Text(f) + more)
  {
    hide TagOK, GapOK, CloseOK, OpenText;
    if f.Cons? { OpenFirst(f); }
  }

  /** Below an element something always follows: a sibling or the end tag. */
  lemma {:induction false} PostOpens(x: Ctx, f: Forest)
    requires CtxOK(x) && f.Cons? && WFRoot(Fill(x, f)) && Par(x) != 0
    ensures Opens(PostText(x))
    decreases x
  {
    hide GapOK, TagOK, CellOK, WF, Body, OpenText;
    match x
    case Sib(c, up) => PostOpens(up, c.(next := f));
    case Child(c, up) =>
      FitsFill(x, f, f);
      FitsFill(up, c.(kids := f), c.(kids := f));
      FitsCell(up, c.(kids := f));
      CloseOpens(c.(kids := f));
      assert PostText(x)[0] == c.close[0];
  }

  lemma FitsCell(x: Ctx, c: Forest)
    requires Fits(x, c) && c.Cons?
    ensures CellOK(c) && WF(c.kids) && WF(c.next)
    ensures !x.Top? ==> WF(c) && GapOK(c.gap, 0)
    ensures WFTree(c)
  {
    hide CellOK, GapOK;
  }

  lemma CloseOpens(c: Forest)
    requires c.Cons? && CellOK(c) && !c.empty
    ensures Opens(c.close) && GapOK(c.head, 0)
  {
    hide TagOK, GapOK, CloseOK;
    CloseFirst(c.close, TagName(c));
  }

  lemma OpensAt(doc: string, p: nat, s: string)
    requires Has(doc, p, s) && Opens(s)
    ensures p < |doc| && doc[p] == '<'
  {
    assert doc[p] == doc[p..p + |s|][0];
  }

  /** The parts of a text made of six pieces. */
  lemma PiecesAt(doc: string, a: string, b: string, c: string, d: string, e: string, f: string)
    requires doc == a + (b + ((c + (d + e)) + f))
    ensures var p := |a| + |b|;
      var q := p + |c|;
      Has(doc, p, c) && Has(doc, q, d) && Has(doc, q + |d|, e + f) && q + |d| + |e + f| == |doc|
  {
    assert doc == a + (b + (c + (d + (e + f))));
    assert doc[0..|doc|] == doc;
    hide Has;
    assert Has(doc, 0, doc) by { HasAll(doc); }
    HasConcat(doc, 0, a, b + (c + (d + (e + f))));
    HasConcat(doc, |a|, b, c + (d + (e + f)));
    HasConcat(doc, |a| + |b|, c, d + (e + f));
    HasConcat(doc, |a| + |b| + |c|, d, e + f);
  }

  lemma HasAll(doc: string)
    ensures Has(doc, 0, doc)
  {
    assert doc[0..|doc|] == doc;
  }

  /** The gap after an element, and what comes behind it. */
  lemma GapAt(doc: string, prolog: string, x: Ctx, c: Forest)
    requires CtxOK(x) && c.Cons? && WFRoot(Fill(x, c)) && doc == prolog + Text(Fill(x, c))
    ensures var p := HolePos(x, |prolog|);
      var q := p + |Body(c)|;
      && Has(doc, p, Body(c)) && Has(doc, q, c.gap)
      && (Par(x) != 0 ==> q + |c.gap| < |doc| && doc[q + |c.gap|] == '<')
      && (x.Top? ==> q + |c.gap| == |doc|)
  {
    hide *;
    FitsFill(x, c, c);
    FillText(x, c, |prolog|);
    FitsCell(x, c);
    TextIs(c);
    PiecesAt(doc, prolog, PreText(x), Body(c), c.gap, Text(c.next), PostText(x));
    if Par(x) != 0 {
      PostOpens(x, c);
      TextOpens(c.next, PostText(x));
      OpensAt(doc, HolePos(x, |prolog|) + |Body(c)| + |c.gap|, Text(c.next) + PostText(x));
    }
    if x.Top? {
      TopEnds(c);
    }
  }

  lemma TextIs(c: Forest)
    requires c.Cons?
    ensures Text(c) == Body(c) + (c.gap + Text(c.next))
  {
  }

  lemma TopEnds(c: Forest)
    requires c.Cons? && WFRoot(Fill(Top, c))
    ensures |Text(c.next) + PostText(Top)| == 0
  {
    hide CellOK, WF;
  }

  /** The text before the first child, or before the end tag. */
  lemma HeadAt(doc: string, prolog: string, x: Ctx, c: Forest)
    requires CtxOK(x) && c.Cons? && !c.empty && WFRoot(Fill(x, c)) && doc == prolog + Text(Fill(x, c))
    ensures var q := HolePos(x, |prolog|) + |OpenText(c)|;
      && Has(doc, q, c.head) && q + |c.head| < |doc| && doc[q + |c.head|] == '<'
  {
    hide *;
    GapAt(doc, prolog, x, c);
    FitsFill(x, c, c);
    FitsCell(x, c);
    var q := HolePos(x, |prolog|) + |OpenText(c)|;
    BodyHas(c, doc, HolePos(x, |prolog|));
    HasConcat(doc, q, c.head, Text(c.kids));
    HasConcat(doc, q + |c.head|, Text(c.kids), c.close);
    CloseOpens(c);
    TextOpens(c.kids, c.close);
    OpensAt(doc, q + |c.head|, Text(c.kids) + c.close);
  }

  // ---- siblings ----

  /** The whole list of siblings that an element belongs to. */
  function Brothers(x: Ctx, f: Forest): Forest
    requires CtxOK(x)
    decreases x
  {
    match x
    case Sib(c, up) => Brothers(up, c.(next := f))
    case _ => f
  }

  /** The context of the whole list. */
  function Around(x: Ctx): (r: Ctx)
    requires CtxOK(x)
    ensures CtxOK(r) && !r.Sib?
  {
    match x
    case Sib(_, up) => Around(up)
    case _ => x
  }

  /** The elements of one list of siblings. */
  function SibIds(f: Forest): set<nat> {
    if f.Nil? then {} else {f.id} + SibIds(f.next)
  }

  lemma {:induction false} BrothersFill(x: Ctx, f: Forest)
    requires CtxOK(x)
    ensures Fill(Around(x), Brothers(x, f)) == Fill(x, f) && Par(Around(x)) == Par(x)
    ensures SibIds(f) <= SibIds(Brothers(x, f)) && (f.Cons? ==> Brothers(x, f).Cons?)
    decreases x
  {
    match x
    case Sib(c, up) => BrothersFill(up, c.(next := f));
    case _ =>
  }

  /** The tree with its siblings laid out: the parent points at the first of them. */
  lemma FirstChild(doc: string, a: seq<ElemPos>, free: nat, prolog: string, x: Ctx, f: Forest)
    requires CtxOK(x) && !x.Sib? && f.Cons? && Laid(doc, a, free, prolog, Fill(x, f))
    ensures Par(x) < |a| && a[Par(x)].child == f.id
  {
    hide TextLen, Rep, Fill, Distinct, HolePos, Text, BodyLen;
    RepFill(a, x, f, |prolog|);
  }

  /** Members of one list of siblings. */
  lemma SibNext(x: Ctx, f: Forest, id: nat)
    requires CtxOK(x) && f.Cons? && id in SibIds(f) && id != f.id
    ensures f.next.Cons? && id in SibIds(f.next)
    ensures CtxOK(Sib(f, x)) && Fill(Sib(f, x), f.next) == Fill(x, f) && Par(Sib(f, x)) == Par(x)
  {
    assert f.(next := f.next) == f;
  }

  lemma SibStep(x: Ctx, f: Forest)
    requires CtxOK(x) && f.Cons?
    ensures CtxOK(Sib(f, x)) && Fill(Sib(f, x), f.next) == Fill(x, f) && Par(Sib(f, x)) == Par(x)
  {
    assert f.(next := f.next) == f;
  }

  lemma KidStep(x: Ctx, f: Forest)
    requires CtxOK(x) && f.Cons?
    ensures CtxOK(Child(f, x)) && Fill(Child(f, x), f.kids) == Fill(x, f) && Par(Child(f, x)) == f.id
  {
    assert f.(kids := f.kids) == f;
  }
}
