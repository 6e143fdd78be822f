/**
  Parsing and text are inverse.  `Complete`: a well-formed tree is found again,
  with its very pieces, wherever its text stands.  `Sound`: whatever the parser
  finds is well-formed, numbered in document order, and is the text it was found in.
 */
module RoundTrip {
  import opened Scanner
  import opened Locality
  import opened Parser
  import opened ParserProofs

  lemma HasIs(doc: string, u: nat, s: string)
    requires Has(doc, u, s)
    ensures u + |s| <= |doc| && doc[u..u + |s|] == s
  {
  }

  lemma GapHas(g: string, doc: string, p: nat)
    requires GapOK(g, 0) && Has(doc, p, g)
    ensures NextTag(doc, p) == NextTag(doc, p + |g|)
  {
    hide NextTag, GapOK;
    SameEmbed(g, doc, p);
    GapPasses(g, doc, p, 0);
  }

  lemma OpenHas(c: Forest, doc: string, p: nat)
    requires c.Cons? && TagOK(c) && Has(doc, p, OpenText(c))
    ensures NextTag(doc, p) == OpenTag(p, TagName(c), p + |OpenText(c)| - 1)
    ensures |c.tag| >= 1
    ensures doc[p + |OpenText(c)| - 2] == '/' <==> c.empty
    ensures doc[p..p + |c.tag|] == c.tag
  {
    hide NextTag, TagName;
    var o := OpenText(c);
    SameEmbed(o, doc, p);
    OpenLocal(o, doc, p, 0, |o|);
    assert o[|o| - 2] == doc[|o| - 2 + p];
    HasConcat(doc, p, c.tag, if c.empty then "/>" else ">");
  }

  lemma CloseHas(close: string, name: string, doc: string, p: nat)
    requires CloseOK(close, name) && Has(doc, p, close)
    ensures NextTag(doc, p).CloseTag? && NextTag(doc, p).l == p
    ensures EndTag(doc, p + 1, 0, name) == Some(p + |close| - 1)
  {
    hide NextTag, EndTag;
    SameEmbed(close, doc, p);
    CloseLocal(close, doc, p, 0, |close|);
    EndTagLocal(close, doc, p, 1, |close|, 0, name);
  }

  /** The pieces of an element in the text. */
  lemma BodyHas(c: Forest, doc: string, p: nat)
    requires c.Cons? && Has(doc, p, Body(c))
    ensures Has(doc, p, OpenText(c))
    ensures !c.empty ==>
      var q := p + |OpenText(c)|;
      Has(doc, q, c.head + Text(c.kids)) && Has(doc, q + |c.head| + |Text(c.kids)|, c.close)
      && |Body(c)| == |OpenText(c)| + |c.head| + |Text(c.kids)| + |c.close|
  {
    hide Has, Text;
    if !c.empty {
      var q := p + |OpenText(c)|;
      HasConcat(doc, p, OpenText(c), c.head + (Text(c.kids) + c.close));
      HasConcat(doc, q, c.head, Text(c.kids) + c.close);
      HasConcat(doc, q + |c.head|, Text(c.kids), c.close);
      HasConcat(doc, q, c.head, Text(c.kids));
    }
  }

  /** The first cell alone. */
  function Single(c: Forest): Forest
    requires c.Cons?
  {
    c.(gap := "", next := Nil)
  }

  lemma ElemStep(s: string, p: nat, id: nat)
    requires p <= |s|
    ensures var x := NextTag(s, p);
      && (x.CloseTag? ==> ParseElem(s, p, id) == EndHere(x.l))
      && (ParseElem(s, p, id).Elem? ==> x.OpenTag?)
      && (x.OpenTag? && s[x.r - 1] == '/' ==>
            ParseElem(s, p, id) == Elem(s[p..x.l], Cons(id, s[x.l..x.r - 1], true, "", Nil, "", "", Nil), x.r + 1,
                id + 1))
      && (x.OpenTag? && s[x.r - 1] != '/' && ParseElem(s, p, id).Elem? ==> ParseKids(s, x.r + 1, id + 1).Kids?)
      && (x.OpenTag? && s[x.r - 1] != '/' && ParseKids(s, x.r + 1, id + 1).Kids? ==>
            var k := ParseKids(s, x.r + 1, id + 1);
            var q := EndTag(s, k.l + 1, 0, x.name);
            && (ParseElem(s, p, id).Elem? ==> q.Some?)
            && (q.Some? ==> (ParseElem(s, p, id) ==
                  Elem(s[p..x.l], Cons(id, s[x.l..x.r], false, k.head, k.kids, s[k.l..q.value + 1], "", Nil),
                      q.value + 1, k.ids))))
  {
    hide NextTag, EndTag, ParseKids;
  }

  lemma KidsStep(s: string, p: nat, id: nat)
    requires p <= |s|
    ensures var x := ParseElem(s, p, id);
      && (ParseKids(s, p, id).Kids? ==> x.EndHere? || (x.Elem? && ParseKids(s, x.next, x.ids).Kids?))
      && (x.EndHere? ==> ParseKids(s, p, id) == Kids(s[p..x.l], Nil, x.l, id))
      && (x.Elem? && ParseKids(s, x.next, x.ids).Kids? ==>
            var k := ParseKids(s, x.next, x.ids);
            ParseKids(s, p, id) == Kids(x.lead, x.cell.(gap := k.head, next := k.kids), k.l, k.ids))
  {
    hide NextTag, EndTag, ParseElem;
  }

  lemma {:induction false} ElemComplete(lead: string, c: Forest, doc: string, u: nat, id: nat)
    requires WFTree(c) && GapOK(lead, 0)
    requires Has(doc, u, lead) && Has(doc, u + |lead|, Body(c))
    ensures ParseElem(doc, u, id) == Elem(lead, Renumber(Single(c), id), u + |lead| + |Body(c)|, id + 1 + Size(c.kids))
    decreases c, 0
  {
    hide NextTag, EndTag, GapOK, TagName, TagOK, CloseOK, ParseElem, ParseKids, Body, Has;
    var p := u + |lead|;
    GapHas(lead, doc, u);
    BodyHas(c, doc, p);
    OpenHas(c, doc, p);
    if c.empty {
      EmptyElem(lead, c, doc, u, id);
    } else {
      var q := p + |OpenText(c)|;
      CloseHas(c.close, TagName(c), doc, q + |c.head| + |Text(c.kids)|);
      KidsComplete(c.head, c.kids, doc, q, id + 1);
      FullElem(lead, c, doc, u, id, q, q + |c.head| + |Text(c.kids)|);
    }
  }

  lemma EmptyElem(lead: string, c: Forest, doc: string, u: nat, id: nat)
    requires WFTree(c) && c.empty && Has(doc, u, lead)
    requires var p := u + |lead|;
      && Has(doc, p, OpenText(c))
      && NextTag(doc, u) == OpenTag(p, TagName(c), p + |OpenText(c)| - 1)
      && doc[p + |OpenText(c)| - 2] == '/'
    ensures ParseElem(doc, u, id) == Elem(lead, Renumber(Single(c), id), u + |lead| + |Body(c)|, id + 1 + Size(c.kids))
  {
    hide NextTag, EndTag, GapOK, TagName, TagOK, CloseOK, ParseElem, ParseKids;
    ElemStep(doc, u, id);
    HasConcat(doc, u + |lead|, c.tag, "/>");
  }

  lemma FullElem(lead: string, c: Forest, doc: string, u: nat, id: nat, q: nat, e: nat)
    requires c.Cons? && !c.empty && Has(doc, u, lead)
    requires q == u + |lead| + |OpenText(c)| && e == q + |c.head| + |Text(c.kids)|
    requires Has(doc, u + |lead|, OpenText(c)) && Has(doc, e, c.close) && |c.close| > 0 && q + |c.head| <= e <= |doc|
        && |c.tag| > 0
    requires NextTag(doc, u) == OpenTag(u + |lead|, TagName(c), q - 1) && doc[q - 2] != '/'
    requires ParseKids(doc, q, id + 1) == Kids(c.head, Renumber(c.kids, id + 1), e, id + 1 + Size(c.kids))
    requires EndTag(doc, e + 1, 0, TagName(c)) == Some(e + |c.close| - 1)
    ensures ParseElem(doc, u, id) == Elem(lead, Renumber(Single(c), id), u + |lead| + |Body(c)|, id + 1 + Size(c.kids))
  {
    hide *;
    ElemStep(doc, u, id);
    HasIs(doc, u, lead);
    HasIs(doc, e, c.close);
    TagIs(c, doc, u + |lead|);
    FullCell(c, id);
  }

  lemma TagIs(c: Forest, doc: string, p: nat)
    requires c.Cons? && !c.empty && Has(doc, p, OpenText(c))
    ensures |OpenText(c)| == |c.tag| + 1 && p + |c.tag| < |doc| && doc[p..p + |c.tag|] == c.tag
  {
    HasConcat(doc, p, c.tag, ">");
  }

  lemma FullCell(c: Forest, id: nat)
    requires c.Cons? && !c.empty
    ensures Renumber(Single(c), id) == Cons(id, c.tag, false, c.head, Renumber(c.kids, id + 1), c.close, "", Nil)
    ensures |Body(c)| == |OpenText(c)| + |c.head| + |Text(c.kids)| + |c.close|
  {
    hide OpenText;
  }

  lemma {:induction false} KidsComplete(head: string, f: Forest, doc: string, u: nat, id: nat)
    requires WF(f) && GapOK(head, 0)
    requires Has(doc, u, head + Text(f))
    requires NextTag(doc, u + |head| + |Text(f)|).CloseTag? && NextTag(doc,
        u + |head| + |Text(f)|).l == u + |head| + |Text(f)|
    ensures ParseKids(doc, u, id) == Kids(head, Renumber(f, id), u + |head| + |Text(f)|, id + Size(f))
    decreases f, 1
  {
    hide NextTag, EndTag, GapOK, TagName, CellOK, Body, ParseElem, ParseKids, Has, Renumber;
    HasConcat(doc, u, head, Text(f));
    HasIs(doc, u, head);
    if f.Nil? {
      GapHas(head, doc, u);
      NoKids(head, doc, u, id);
    } else {
      var p := u + |head|;
      HasConcat(doc, p, Body(f), f.gap + Text(f.next));
      ElemComplete(head, f, doc, u, id);
      var q := p + |Body(f)|;
      KidsComplete(f.gap, f.next, doc, q, id + 1 + Size(f.kids));
      MoreKids(head, f, doc, u, id, q);
    }
  }

  lemma NoKids(head: string, doc: string, u: nat, id: nat)
    requires Has(doc, u, head) && NextTag(doc, u).CloseTag? && NextTag(doc, u).l == u + |head|
    ensures ParseKids(doc, u, id) == Kids(head, Renumber(Nil, id), u + |head|, id)
  {
    hide NextTag, ParseElem, ParseKids;
    ElemStep(doc, u, id);
    KidsStep(doc, u, id);
  }

  lemma MoreKids(head: string, f: Forest, doc: string, u: nat, id: nat, q: nat)
    requires f.Cons? && u <= |doc| && q <= |doc|
    requires ParseElem(doc, u, id) == Elem(head, Renumber(Single(f), id), q, id + 1 + Size(f.kids))
    requires ParseKids(doc, q, id + 1 + Size(f.kids)).Kids?
    requires ParseKids(doc, q, id + 1 + Size(f.kids)).head == f.gap
    requires ParseKids(doc, q, id + 1 + Size(f.kids)).kids == Renumber(f.next, id + 1 + Size(f.kids))
    ensures ParseKids(doc, u, id) == ParseKids(doc, q, id + 1 + Size(f.kids)).(head := head, kids := Renumber(f, id))
  {
    hide NextTag, ParseElem, ParseKids, Text, Size;
    KidsStep(doc, u, id);
  }

  // ---- soundness ----

  lemma CellRelink(c: Forest, g: string, n: Forest)
    requires c.Cons?
    ensures var d := c.(gap := g, next := n);
      CellOK(d) == CellOK(c) && Body(d) == Body(c) && TagName(d) == TagName(c) && OpenText(d) == OpenText(c)
  {
    hide NextTag, EndTag, GapOK, CloseOK;
  }

  lemma HasSlice(s: string, a: nat, b: nat)
    requires a <= b <= |s|
    ensures Has(s, a, s[a..b])
  {
  }

  lemma OpenTextSlice(s: string, l: nat, r: nat, c: Forest)
    requires c.Cons? && l + 1 < r < |s| && s[r] == '>'
    requires c.empty <==> s[r - 1] == '/'
    requires c.tag == if c.empty then s[l..r - 1] else s[l..r]
    ensures OpenText(c) == s[l..r + 1]
  {
    if c.empty { assert s[l..r + 1] == s[l..r - 1] + [s[r - 1], s[r]]; }
    else { assert s[l..r + 1] == s[l..r] + [s[r]]; }
  }

  lemma OpenSound(s: string, l: nat, c: Forest)
    requires l <= |s| && c.Cons? && NextTag(s, l).OpenTag? && NextTag(s, l).l == l
    requires c.empty <==> s[NextTag(s, l).r - 1] == '/'
    requires OpenText(c) == s[l..NextTag(s, l).r + 1]
    ensures TagOK(c) && TagName(c) == NextTag(s, l).name
  {
    hide NextTag, OpenText, Same;
    var r := NextTag(s, l).r;
    var o := OpenText(c);
    SameSlice(s, l, r + 1);
    var d: int := 0 - l;
    OpenLocal(s, o, d, l, r + 1);
    SameAt(s, o, d, l, r + 1, r - 1);
  }

  /** A slice reads the same as the text it was cut from. */
  lemma SameSlice(s: string, a: nat, b: nat)
    requires a <= b <= |s|
    ensures Same(s, s[a..b], 0 - a, a, b)
  {
  }

  lemma CloseSound(s: string, e: nat, name: string)
    requires e < |s| && NextTag(s, e).CloseTag? && NextTag(s, e).l == e && EndTag(s, e + 1, 0, name).Some?
    ensures CloseOK(s[e..EndTag(s, e + 1, 0, name).value + 1], name)
  {
    hide NextTag, EndTag, Same;
    var q := EndTag(s, e + 1, 0, name).value;
    var close := s[e..q + 1];
    SameSlice(s, e, q + 1);
    var d: int := 0 - e;
    EndTagSlash(s, e, name);
    CloseLocal(s, close, d, e, q + 1);
    SameLater(s, close, d, e, q + 1);
    EndTagLocal(s, close, d, e + 1, q + 1, 0, name);
  }

  lemma SameLater(s: string, t: string, d: int, a: nat, b: nat)
    requires Same(s, t, d, a, b) && a < b
    ensures Same(s, t, d, a + 1, b)
  {
  }

  /** The end tag's slash comes before its `>`. */
  lemma EndTagSlash(s: string, e: nat, name: string)
    requires e < |s| && NextTag(s, e).CloseTag? && NextTag(s, e).l == e && EndTag(s, e + 1, 0, name).Some?
    ensures NextTag(s, e).next <= EndTag(s, e + 1, 0, name).value
  {
    hide NextTag, EndTag, FindToken, TokenText, Match;
    NextTagHere(s, e);
    EndTagStep(s, e + 1, 0, name);
  }

  lemma {:induction false} ElemSound(s: string, p: nat, id: nat)
    requires p <= |s| && ParseElem(s, p, id).Elem?
    ensures var x := ParseElem(s, p, id);
      && WFTree(x.cell) && GapOK(x.lead, 0) && Renumber(x.cell, id) == x.cell && x.ids == id + Size(x.cell)
      && Has(s, p, x.lead) && Has(s, p + |x.lead|, Body(x.cell)) && x.next == p + |x.lead| + |Body(x.cell)|
    decreases |s| - p, 0
  {
    hide NextTag, EndTag, GapOK, TagName, TagOK, CloseOK, ParseElem, ParseKids, Has, Text, Body, OpenText, WF, Renumber,
        Size;
    ElemStep(s, p, id);
    var x := ParseElem(s, p, id);
    var l, r := NextTag(s, p).l, NextTag(s, p).r;
    GapSlice(s, p, l);
    OpenTextSlice(s, l, r, x.cell);
    OpenSound(s, l, x.cell);
    HasSlice(s, p, l);
    HasSlice(s, l, r + 1);
    if x.cell.empty {
      EmptySound(x.cell, id);
    } else {
      KidsSound(s, r + 1, id + 1);
      var k := ParseKids(s, r + 1, id + 1);
      CloseSound(s, k.l, NextTag(s, p).name);
      HasSlice(s, k.l, x.next);
      BodyJoins(x.cell, s, l);
      BodyHas(x.cell, s, l);
      FullSound(x.cell, id);
    }
  }

  lemma EmptySound(c: Forest, id: nat)
    requires c.Cons? && c == Cons(id, c.tag, true, "", Nil, "", "", Nil) && TagOK(c)
    ensures WFTree(c) && Renumber(c, id) == c && Size(c) == 1 && Body(c) == OpenText(c)
  {
    hide TagOK, OpenText;
  }

  lemma FullSound(c: Forest, id: nat)
    requires c.Cons? && c == Cons(id, c.tag, false, c.head, c.kids, c.close, "", Nil)
    requires TagOK(c) && GapOK(c.head, 0) && CloseOK(c.close, TagName(c)) && WF(c.kids)
        && Renumber(c.kids, id + 1) == c.kids
    ensures WFTree(c) && Renumber(c, id) == c && Size(c) == 1 + Size(c.kids)
  {
    hide TagOK, OpenText, GapOK, CloseOK, TagName;
  }

  lemma BodyJoins(c: Forest, doc: string, p: nat)
    requires c.Cons? && !c.empty && Has(doc, p, OpenText(c))
    requires var q := p + |OpenText(c)|;
      Has(doc, q, c.head + Text(c.kids)) && Has(doc, q + |c.head| + |Text(c.kids)|, c.close)
    ensures Has(doc, p, Body(c))
  {
    hide Has, Text;
    var q := p + |OpenText(c)|;
    HasConcat(doc, p, OpenText(c), c.head + (Text(c.kids) + c.close));
    HasConcat(doc, q, c.head, Text(c.kids) + c.close);
    HasConcat(doc, q + |c.head|, Text(c.kids), c.close);
    HasConcat(doc, q, c.head, Text(c.kids));
  }

  lemma {:induction false} KidsSound(s: string, p: nat, id: nat)
    requires p <= |s| && ParseKids(s, p, id).Kids?
    ensures var x := ParseKids(s, p, id);
      && WF(x.kids) && GapOK(x.head, 0) && Renumber(x.kids, id) == x.kids && x.ids == id + Size(x.kids)
      && Has(s, p, x.head + Text(x.kids)) && x.l == p + |x.head| + |Text(x.kids)|
      && NextTag(s, x.l).CloseTag? && NextTag(s, x.l).l == x.l
    decreases |s| - p, 1
  {
    hide NextTag, EndTag, GapOK, TagName, CellOK, Body, ParseElem, ParseKids, Has, WF, Renumber, Text, Size;
    KidsStep(s, p, id);
    ElemStep(s, p, id);
    var x := ParseKids(s, p, id);
    match ParseElem(s, p, id) {
      case EndHere(l) =>
        GapSlice(s, p, l);
        HasSlice(s, p, l);
        NilSound(x.head, id);
      case Elem(lead, c, q, ids) =>
        ElemSound(s, p, id);
        KidsSound(s, q, ids);
        var y := ParseKids(s, q, ids);
        JoinSound(c, y.head, y.kids, id);
        HasConcat(s, p + |lead|, Body(c), y.head + Text(y.kids));
        HasConcat(s, p, lead, Text(x.kids));
    }
  }

  lemma NilSound(head: string, id: nat)
    ensures WF(Nil) && Renumber(Nil, id) == Nil && Size(Nil) == 0 && head + Text(Nil) == head && |Text(Nil)| == 0
  {
  }

  lemma JoinSound(c: Forest, g: string, n: Forest, id: nat)
    requires WFTree(c) && c.gap == "" && c.next.Nil? && Renumber(c, id) == c && GapOK(g, 0) && WF(n)
        && Renumber(n, id + Size(c)) == n
    ensures var d := c.(gap := g, next := n);
      && WF(d) && Renumber(d, id) == d && Size(d) == Size(c) + Size(n)
      && Text(d) == Body(c) + (g + Text(n)) && |Text(d)| == |Body(c)| + |g| + |Text(n)|
  {
    hide CellOK, GapOK, Body;
    CellRelink(c, g, n);
  }
}
