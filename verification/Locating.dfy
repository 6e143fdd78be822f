/**
  `x_LocateNew`: the place in the text, the place in the links, and the place in the
  tree that both stand for.
 */
module Locating {
  import opened Scanner
  import opened Parser
  import opened ParserProofs
  import opened RoundTrip
  import opened Index
  import opened Edits
  import opened Layout
  import opened Gaps
  import opened Places
  import opened Growth
  import opened Sites
  import opened States
  import opened Paths

  /** Before the text is searched: at the element `rel`, or inside `par` if there is none. */
  function FirstOffset(a: seq<ElemPos>, par: nat, rel: nat, bInsert: bool): int
    requires par < |a| && rel < |a|
  {
    if rel != 0 then (if bInsert then a[rel].startL else a[rel].endR + 1)
    else if a[par].IsEmptyElement() then a[par].startR
    else if bInsert then a[par].startR + 1
    else a[par].endL
  }

  /** Where a new element goes in the text. */
  function NewOffset(doc: string, a: seq<ElemPos>, par: nat, rel: nat, bInsert: bool): int
    requires par < |a| && rel < |a|
  {
    var n := FirstOffset(a, par, rel, bInsert);
    if a[par].IsEmptyElement() || n < 0 || n > |doc| then n else Skip(doc, n)
  }

  /** Where it goes in the links: right before or after `rel`, or first or last under `par`. */
  ghost predicate Beside(a: seq<ElemPos>, par: nat, rel: nat, bInsert: bool, before: nat) {
    par < |a| && before < |a| &&
    if rel != 0 then
      if bInsert then (if before != 0 then a[before].next == rel else a[par].child == rel) else before == rel
    else if bInsert then before == 0
    else if before != 0 then a[before].parent == par && a[before].next == 0 else a[par].child == 0
  }

  /** The text `ins` has been put in at `p`: before or behind `rel`, behind the start tag of
      `par` or before its end tag, up to the tag that follows.  An empty parent, whose name is
      `name`, has been opened up around it. */
  ghost predicate TextAdded(doc: string, a: seq<ElemPos>, par: nat, rel: nat, bInsert: bool, p: nat, ins: string,
      name: string, doc': string) {
    && par < |a| && rel < |a| && p < |doc| + 1
    && if a[par].IsEmptyElement() then
         p == a[par].endL < |doc| && doc' == doc[..p] + ">\r\n" + ins + "</" + name + doc[p + 1..]
       else
         var n := if rel != 0 then (if bInsert then a[rel].startL else a[rel].endR + 1)
           else if bInsert then a[par].startR + 1 else a[par].endL;
         UpToTag(doc, n, p) && doc' == doc[..p] + ins + doc[p..]
  }

  lemma AddedText(doc: string, a: seq<ElemPos>, tree: Forest, par: nat, rel: nat, bInsert: bool, s: Site, base: nat,
      ins: string, doc': string)
    requires SiteOK(s, tree) && par < |a| && rel < |a| && (s.Opened? <==> a[par].IsEmptyElement())
    requires NewOffset(doc, a, par, rel, bInsert) == SiteAt(s, base) + Drop(s) <= |doc|
    requires s.Opened? ==> rel == 0
    requires doc' == Splice(doc, SiteAt(s, base), SiteAt(s, base) + Drop(s), SiteText(s, ins))
    ensures TextAdded(doc, a, par, rel, bInsert, SiteAt(s, base), ins, TagName(s.c), doc')
  {
    hide *;
    SiteCut(s, tree);
    SiteDrop(s);
    SiteTextFor(s, ins);
    NewOffsetIs(doc, a, par, rel, bInsert);
    var n, p := FirstOffset(a, par, rel, bInsert), SiteAt(s, base);
    SpliceIs(doc, p, p + Drop(s), SiteText(s, ins));
    if s.Opened? {
      AddedInside(doc, a, par, rel, bInsert, p, ins, TagName(s.c), doc');
    } else {
      AddedBeside(doc, a, par, rel, bInsert, n, p, ins, TagName(s.c), doc');
    }
  }

  lemma SiteTextFor(s: Site, ins: string)
    requires s.c.Cons?
    ensures SiteText(s, ins) == if s.Opened? then ">\r\n" + ins + "</" + TagName(s.c) else ins
  {
    hide TagName;
    if s.Opened? {
      assert ">" + ("\r\n" + (ins + ("</" + TagName(s.c)))) == ">\r\n" + ins + "</" + TagName(s.c);
    }
  }

  lemma AddedInside(doc: string, a: seq<ElemPos>, par: nat, rel: nat, bInsert: bool, p: nat, ins: string, name: string,
      doc': string)
    requires par < |a| && rel < |a| && a[par].IsEmptyElement() && p < |doc| && p + 1 == a[par].startR
    requires doc' == doc[..p] + (">\r\n" + ins + "</" + name) + doc[p + 1..]
    ensures TextAdded(doc, a, par, rel, bInsert, p, ins, name, doc')
  {
    hide UpToTag;
    assert doc' == doc[..p] + ">\r\n" + ins + "</" + name + doc[p + 1..];
  }

  lemma AddedBeside(doc: string, a: seq<ElemPos>, par: nat, rel: nat, bInsert: bool, n: int, p: nat, ins: string,
      name: string, doc': string)
    requires par < |a| && rel < |a| && !a[par].IsEmptyElement() && p <= |doc|
    requires n == if rel != 0 then (if bInsert then a[rel].startL else a[rel].endR + 1)
        else if bInsert then a[par].startR + 1 else a[par].endL
    requires p == if n < 0 || n > |doc| then n else Skip(doc, n)
    requires doc' == doc[..p] + ins + doc[p..]
    ensures TextAdded(doc, a, par, rel, bInsert, p, ins, name, doc')
  {
    hide UpToTag, Skip;
    SkipUp(doc, n);
  }

  lemma SkipStays(doc: string, n: nat)
    requires n < |doc| && doc[n] == '<'
    ensures Skip(doc, n) == n
  {
    SpecialToken(doc, n);
  }

  /** Right behind an element, up to the next tag. */
  lemma BehindStart(doc: string, a: seq<ElemPos>, free: nat, prolog: string, tree: Forest, x: Ctx,
      c: Forest) returns (s: Site)
    requires CtxOK(x) && c.Cons? && Fill(x, c) == tree && State(doc, a, free, prolog, tree) && Par(x) != 0
    ensures HolePos(x, |prolog|) + |Body(c)| <= |doc|
    ensures s.Behind? && s.x == x && s.c == c && SiteOK(s, tree)
        && SiteAt(s, |prolog|) == Skip(doc, HolePos(x, |prolog|) + |Body(c)|)
  {
    hide *;
    StateIs(doc, a, free, prolog, tree);
    LaidDistinct(doc, a, free, prolog, tree);
    FillCons(x, c);
    GapAt(doc, prolog, x, c);
    var q := HolePos(x, |prolog|) + |Body(c)|;
    HasLength(doc, q, c.gap);
    SkipCuts(doc, q, c.gap);
    s := Behind(x, c, Skip(doc, q) - q);
    BehindOK(s, tree, |prolog|);
  }

  lemma HasLength(s: string, n: nat, w: string)
    requires Has(s, n, w)
    ensures n + |w| <= |s|
  {
  }

  lemma BehindOK(s: Site, tree: Forest, base: nat)
    requires s.Behind? && CtxOK(s.x) && s.c.Cons? && Fill(s.x, s.c) == tree && Par(s.x) != 0 && CutOK(s.c.gap, s.k)
    ensures SiteOK(s, tree) && SiteAt(s, base) == HolePos(s.x, base) + |Body(s.c)| + s.k && Drop(s) == 0
        && Under(s) == Par(s.x)
  {
    hide CutOK, Fill;
  }

  lemma WithinOK(s: Site, tree: Forest, base: nat)
    requires s.Within? && CtxOK(s.x) && s.c.Cons? && Fill(s.x, s.c) == tree && !s.c.empty && CutOK(s.c.head, s.k)
    ensures SiteOK(s, tree) && SiteAt(s, base) == HolePos(s.x, base) + |OpenText(s.c)| + s.k && Drop(s) == 0
        && Under(s) == s.c.id
  {
    hide CutOK, Fill;
  }

  /** At the end of the gap after an element, where a tag follows. */
  lemma BehindEnd(doc: string, a: seq<ElemPos>, free: nat, prolog: string, tree: Forest, x: Ctx,
      c: Forest) returns (s: Site)
    requires CtxOK(x) && c.Cons? && Fill(x, c) == tree && State(doc, a, free, prolog, tree) && Par(x) != 0
    ensures var q := HolePos(x, |prolog|) + |Body(c)| + |c.gap|;
      && q < |doc| && s.Behind? && s.x == x && s.c == c && SiteOK(s, tree) && SiteAt(s, |prolog|) == q == Skip(doc, q)
  {
    hide *;
    StateIs(doc, a, free, prolog, tree);
    LaidDistinct(doc, a, free, prolog, tree);
    FillCons(x, c);
    GapAt(doc, prolog, x, c);
    var q := HolePos(x, |prolog|) + |Body(c)| + |c.gap|;
    SkipStays(doc, q);
    EndCut(c.gap);
    s := Behind(x, c, |c.gap|);
    BehindOK(s, tree, |prolog|);
  }

  /** Right behind a start tag, up to the next tag. */
  lemma WithinStart(doc: string, a: seq<ElemPos>, free: nat, prolog: string, tree: Forest, x: Ctx,
      c: Forest) returns (s: Site)
    requires CtxOK(x) && c.Cons? && Fill(x, c) == tree && State(doc, a, free, prolog, tree) && !c.empty
    ensures HolePos(x, |prolog|) + |OpenText(c)| <= |doc|
    ensures s.Within? && s.x == x && s.c == c && SiteOK(s, tree)
        && SiteAt(s, |prolog|) == Skip(doc, HolePos(x, |prolog|) + |OpenText(c)|)
  {
    hide *;
    StateIs(doc, a, free, prolog, tree);
    LaidDistinct(doc, a, free, prolog, tree);
    FillCons(x, c);
    HeadAt(doc, prolog, x, c);
    var q := HolePos(x, |prolog|) + |OpenText(c)|;
    SkipCuts(doc, q, c.head);
    s := Within(x, c, Skip(doc, q) - q);
    WithinOK(s, tree, |prolog|);
  }

  /** At the end of the text before the first child or the end tag. */
  lemma WithinEnd(doc: string, a: seq<ElemPos>, free: nat, prolog: string, tree: Forest, x: Ctx,
      c: Forest) returns (s: Site)
    requires CtxOK(x) && c.Cons? && Fill(x, c) == tree && State(doc, a, free, prolog, tree) && !c.empty
    ensures var q := HolePos(x, |prolog|) + |OpenText(c)| + |c.head|;
      && q < |doc| && s.Within? && s.x == x && s.c == c && SiteOK(s, tree) && SiteAt(s, |prolog|) == q == Skip(doc, q)
  {
    hide *;
    StateIs(doc, a, free, prolog, tree);
    LaidDistinct(doc, a, free, prolog, tree);
    FillCons(x, c);
    HeadAt(doc, prolog, x, c);
    var q := HolePos(x, |prolog|) + |OpenText(c)| + |c.head|;
    SkipStays(doc, q);
    EndCut(c.head);
    s := Within(x, c, |c.head|);
    WithinOK(s, tree, |prolog|);
  }

  /** An empty element, to be opened up. */
  lemma OpenedSite(doc: string, a: seq<ElemPos>, free: nat, prolog: string, tree: Forest, x: Ctx,
      c: Forest) returns (s: Site)
    requires CtxOK(x) && c.Cons? && Fill(x, c) == tree && State(doc, a, free, prolog, tree) && c.empty
    ensures s == Opened(x, c) && SiteOK(s, tree) && SiteAt(s, |prolog|) + 2 == HolePos(x,
        |prolog|) + |OpenText(c)| <= |doc|
    ensures doc[SiteAt(s, |prolog|)] == '/'
  {
    hide *;
    s := Opened(x, c);
    StateIs(doc, a, free, prolog, tree);
    LaidDistinct(doc, a, free, prolog, tree);
    FillCons(x, c);
    GapAt(doc, prolog, x, c);
    BodyHas(c, doc, HolePos(x, |prolog|));
    OpenedOK(s, tree, doc, |prolog|);
  }

  lemma OpenedOK(s: Site, tree: Forest, doc: string, base: nat)
    requires s.Opened? && CtxOK(s.x) && s.c.Cons? && Fill(s.x, s.c) == tree && s.c.empty
        && Has(doc, HolePos(s.x, base), OpenText(s.c))
    ensures SiteOK(s, tree) && SiteAt(s, base) + 2 == HolePos(s.x, base) + |OpenText(s.c)| <= |doc|
        && doc[SiteAt(s, base)] == '/'
  {
    hide Fill, HolePos;
    var p, o := HolePos(s.x, base), OpenText(s.c);
    assert |o| == |s.c.tag| + 2 && o[|s.c.tag|] == '/';
    assert SiteAt(s, base) == p + |s.c.tag|;
    assert doc[p + |s.c.tag|] == doc[p..p + |o|][|s.c.tag|] == o[|s.c.tag|];
  }

  /** The next sibling starts where the gap ends. */
  lemma NextStart(x: Ctx, c: Forest, base: nat)
    requires CtxOK(x) && c.Cons?
    ensures HolePos(Sib(c, x), base) == HolePos(x, base) + |Body(c)| + |c.gap|
    ensures HolePos(Child(c, x), base) == HolePos(x, base) + |OpenText(c)| + |c.head|
    ensures |Text(c)| == |Body(c)| + |c.gap| + |Text(c.next)|
    ensures Par(Sib(c, x)) == Par(x) && Par(Child(c, x)) == c.id
  {
    TextLenIs(c);
    TextLenIs(c.kids);
  }

  /** An element with children is not empty. */
  lemma NotEmpty(doc: string, a: seq<ElemPos>, free: nat, prolog: string, tree: Forest, x: Ctx, c: Forest)
    requires CtxOK(x) && c.Cons? && c.kids.Cons? && Fill(x, c) == tree && State(doc, a, free, prolog, tree)
    ensures !c.empty
  {
    hide *;
    StateIs(doc, a, free, prolog, tree);
    FillCons(x, c);
    FitsFill(x, c, c);
    FitsCell(x, c);
    if c.empty {
      EmptyKids(c);
      assert false;
    }
  }

  lemma NoText(f: Forest)
    requires f.Nil?
    ensures |Text(f)| == 0
  {
  }

  /** The list of siblings an element is in. */
  lemma FamilyOf(doc: string, a: seq<ElemPos>, free: nat, prolog: string, tree: Forest, id: nat) returns (y: Ctx,
      f: Forest)
    requires State(doc, a, free, prolog, tree) && id in Ids(tree) && id < |a| && a[id].parent != 0
    ensures CtxOK(y) && f.Cons? && Fill(y, f) == tree && id in SibIds(f) && y.Child? && y.cell.Cons?
        && Par(y) == a[id].parent
    ensures Par(y) < |a| && a[Par(y)].child == f.id
  {
    hide *;
    var x, c := Locate(tree, id);
    ElemAt(doc, a, free, prolog, tree, x, c);
    BrothersFill(x, c);
    OwnSib(c);
    y, f := Around(x), Brothers(x, c);
    StateIs(doc, a, free, prolog, tree);
    FirstChild(doc, a, free, prolog, y, f);
    ChildCtx(y);
  }

  lemma OwnSib(c: Forest)
    requires c.Cons?
    ensures c.id in SibIds(c)
  {
  }

  lemma ChildCtx(y: Ctx)
    requires CtxOK(y) && !y.Sib? && Par(y) != 0
    ensures y.Child? && y.cell.Cons? && CtxOK(y.up)
  {
  }

  /** The parent's cell. */
  lemma ParentCell(y: Ctx, f: Forest, base: nat)
    requires CtxOK(y) && y.Child?
    ensures var p := y.cell.(kids := f);
      && CtxOK(y.up) && p.Cons? && Fill(y.up, p) == Fill(y, f) && p.id == Par(y) && p.kids == f
      && HolePos(y, base) == HolePos(y.up, base) + |OpenText(p)| + |p.head|
  {
  }

  // ---- the offsets are inside the text ----

  lemma NewOffsetIs(doc: string, a: seq<ElemPos>, par: nat, rel: nat, bInsert: bool)
    requires par < |a| && rel < |a|
    ensures FirstOffset(a, par, rel, bInsert) ==
      if rel != 0 then (if bInsert then a[rel].startL else a[rel].endR + 1)
      else if a[par].IsEmptyElement() then a[par].startR
      else if bInsert then a[par].startR + 1
      else a[par].endL
    ensures var n := FirstOffset(a, par, rel, bInsert);
      NewOffset(doc, a, par, rel, bInsert) == if a[par].IsEmptyElement() || n < 0 || n > |doc| then n else Skip(doc, n)
  {
    hide Skip;
  }

  lemma SkipIs(doc: string, n: int)
    requires 0 <= n <= |doc|
    ensures var t := FindToken(doc, n); Skip(doc, n) == if !t.found || (t.l < |doc| && doc[t.l] == '<') then t.l else n
  {
    hide FindToken;
  }

  lemma BesideIs(a: seq<ElemPos>, par: nat, rel: nat, bInsert: bool, before: nat)
    requires par < |a| && before < |a|
    requires if rel != 0 then
      if bInsert then (if before != 0 then a[before].next == rel else a[par].child == rel) else before == rel
    else if bInsert then before == 0
    else if before != 0 then a[before].parent == par && a[before].next == 0 else a[par].child == 0
    ensures Beside(a, par, rel, bInsert, before)
  {
  }

  lemma SiteCut(s: Site, tree: Forest)
    requires SiteOK(s, tree)
    ensures CtxOK(s.x) && s.c.Cons? && (s.Behind? ==> Par(s.x) != 0)
        && Under(s) == (if s.Behind? then Par(s.x) else s.c.id)
  {
  }

  lemma SiteDrop(s: Site)
    ensures Drop(s) == if s.Opened? then 1 else 0
  {
  }

  lemma CellSame(x: Ctx, p: Forest, f: Forest)
    requires CtxOK(x) && p.Cons? && p.kids == f
    ensures Id(p.kids) == Id(f)
  {
  }

  /** The document's own entry. */
  lemma DocBounds(doc: string, a: seq<ElemPos>, free: nat, prolog: string, tree: Forest, bInsert: bool)
    requires State(doc, a, free, prolog, tree) && tree.Nil? && 0 < |a| && a[0].endL == |doc| && (bInsert ==> doc != "")
    ensures !a[0].IsEmptyElement() && a[0].startR == 0 && a[0].child == 0
  {
    hide WFRoot, Rep, Distinct;
  }

  /** The parent's cell, and an offset inside the text. */
  lemma PlaceBounds(doc: string, a: seq<ElemPos>, free: nat, prolog: string, tree: Forest, par: nat, rel: nat,
      bInsert: bool) returns (x: Ctx, c: Forest)
    requires State(doc, a, free, prolog, tree) && par in Ids(tree) && par < |a| && par != 0 && rel < |a|
    requires rel == 0 || (rel in Ids(tree) && a[rel].parent == par)
    ensures CtxOK(x) && c.Cons? && c.id == par && Fill(x, c) == tree
    ensures a[par].child == Id(c.kids) && (a[par].child == 0 <==> c.kids.Nil?) && (a[par].IsEmptyElement() <==> c.empty)
        && (rel != 0 || a[par].child != 0 ==> !c.empty)
    ensures 0 <= FirstOffset(a, par, rel, bInsert) <= |doc|
  {
    hide *;
    NewOffsetIs(doc, a, par, rel, bInsert);
    x, c := Locate(tree, par);
    ElemAt(doc, a, free, prolog, tree, x, c);
    InText(doc, a, free, prolog, tree, x, c);
    if c.kids.Cons? { NotEmpty(doc, a, free, prolog, tree, x, c); }
    if rel != 0 {
      var y, d := Locate(tree, rel);
      ElemAt(doc, a, free, prolog, tree, y, d);
      InText(doc, a, free, prolog, tree, y, d);
      var z, f := FamilyOf(doc, a, free, prolog, tree, rel);
      ElemAt(doc, a, free, prolog, tree, z, f);
    }
  }

  lemma InText(doc: string, a: seq<ElemPos>, free: nat, prolog: string, tree: Forest, x: Ctx, c: Forest)
    requires CtxOK(x) && c.Cons? && Fill(x, c) == tree && State(doc, a, free, prolog, tree)
    ensures HolePos(x, |prolog|) + |Body(c)| <= |doc| && 0 < |OpenText(c)| <= |Body(c)|
    ensures !c.empty ==> |OpenText(c)| + |c.head| + |Text(c.kids)| <= |Body(c)|
  {
    hide *;
    StateIs(doc, a, free, prolog, tree);
    LaidDistinct(doc, a, free, prolog, tree);
    FillCons(x, c);
    GapAt(doc, prolog, x, c);
    HasLength(doc, HolePos(x, |prolog|), Body(c));
    BodyParts(c);
  }

  lemma BodyParts(c: Forest)
    requires c.Cons?
    ensures 0 < |OpenText(c)| <= |Body(c)|
    ensures !c.empty ==> |OpenText(c)| + |c.head| + |Text(c.kids)| <= |Body(c)|
  {
    hide Text;
  }

  /** Without a sibling to go by: an empty element, or the first place, or the last in an element without children. */
  lemma PlaceWithin(doc: string, a: seq<ElemPos>, free: nat, prolog: string, tree: Forest, x: Ctx, c: Forest,
      bInsert: bool) returns (s: Site)
    requires CtxOK(x) && c.Cons? && Fill(x, c) == tree && State(doc, a, free, prolog, tree) && (bInsert || c.kids.Nil?)
    ensures 0 < c.id < |a| && s.c == c && s.x == x && SiteOK(s, tree) && Under(s) == c.id && !s.Behind?
        && (s.Opened? <==> c.empty)
    ensures c.empty ==> SiteAt(s, |prolog|) + 1 == a[c.id].startR <= |doc|
    ensures !c.empty ==>
      var n := if bInsert then a[c.id].startR + 1 else a[c.id].endL;
      0 <= n <= |doc| && SiteAt(s, |prolog|) == Skip(doc, n)
  {
    hide *;
    ElemAt(doc, a, free, prolog, tree, x, c);
    if c.empty {
      s := OpenedSite(doc, a, free, prolog, tree, x, c);
      UnderInside(s);
    } else if bInsert {
      s := WithinStart(doc, a, free, prolog, tree, x, c);
      UnderInside(s);
    } else {
      NoText(c.kids);
      s := WithinEnd(doc, a, free, prolog, tree, x, c);
      UnderInside(s);
    }
  }

  lemma UnderInside(s: Site)
    requires CtxOK(s.x) && s.c.Cons?
    ensures !s.Behind? ==> Under(s) == s.c.id
  {
  }
}
