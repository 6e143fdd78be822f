/**
  Parsing into the array: a whole document, or a subdocument where it has been put.
 */
module Parsed {
  import opened Common
  import opened Scanner
  import opened Locality
  import opened Parser
  import opened ParserProofs
  import opened RoundTrip
  import opened Index
  import opened Building
  import opened ParseLoop
  import opened Edits
  import opened Repair
  import opened Layout
  import opened Gaps
  import opened Surgery
  import opened Sites
  import opened States

  // ---- a whole document ----

  /** The tree of a document that has been parsed: what follows the root belongs to its gap. */
  function ParsedTree(s: string): Forest
    requires ParseElem(s, 0, 1).Elem?
  {
    var x := ParseElem(s, 0, 1);
    x.cell.(gap := s[x.next..])
  }

  lemma ParsedState(s: string, a: seq<ElemPos>, free: nat)
    requires ParseElem(s, 0, 1).Elem? && 8 <= |a| && 0 < free <= |a| && Outcome(a, 0, 0, 1, free, 1, ParseElem(s, 0, 1))
    requires a[0].startR == 0 && a[0].parent == 0 && a[0].next == 0
    ensures State(s, a[0 := a[0].LinkChild(1)], free, ParseElem(s, 0, 1).lead, ParsedTree(s))
    ensures GapOK(ParseElem(s, 0, 1).lead, 0)
  {
    hide *;
    var x, d := ParseElem(s, 0, 1), ParsedTree(s);
    TreeIs(s);
    OutcomeIs(a, 0, 0, 1, free, 1, x);
    ElemSound(s, 0, 1);
    RenumberIds(x.cell, 1);
    RenumberDistinct(x.cell, 1);
    ParsedText(s, x.lead, x.cell, d, x.next);
    ParsedWF(x.cell, d);
    ParsedRep(a, x.cell, d, |x.lead|);
    ParsedIds(x.cell, d);
    LinkedFirst(a);
    LaidIs(s, a[0 := a[0].LinkChild(1)], free, x.lead, d);
    StateBack(s, a[0 := a[0].LinkChild(1)], free, x.lead, d);
  }

  lemma LinkedFirst(a: seq<ElemPos>)
    requires 0 < |a|
    ensures var b := a[0 := a[0].LinkChild(1)];
      b[0].startR == a[0].startR && b[0].parent == a[0].parent && b[0].next == a[0].next && b[0].child == 1
  {
  }

  lemma TreeIs(s: string)
    requires ParseElem(s, 0, 1).Elem?
    ensures var x := ParseElem(s, 0, 1);
      && x.cell.Cons? && x.cell.next.Nil? && x.cell.gap == ""
      && x.next <= |s| && ParsedTree(s) == x.cell.(gap := s[x.next..])
  {
    hide ParseElem;
  }

  lemma OutcomeIs(a: seq<ElemPos>, par: nat, p: int, free0: nat, free: nat, r: int, x: ElemResult)
    requires Outcome(a, par, p, free0, free, r, x) && x.Elem?
    ensures x.cell.Cons? && r == free0 == x.cell.id && free == x.ids && 0 <= p && Rep(a, x.cell, par, p + |x.lead|)
  {
    hide Rep;
  }

  lemma ParsedText(s: string, lead: string, c: Forest, d: Forest, next: nat)
    requires c.Cons? && next <= |s| && d == c.(gap := s[next..]) && c.next.Nil? && Has(s, 0, lead)
        && Has(s, |lead|, Body(c)) && next == |lead| + |Body(c)|
    ensures s == lead + Text(d)
  {
    hide Body;
    CellRelink(c, d.gap, Nil);
    assert s[..|lead|] == lead && s[|lead|..next] == Body(c);
    assert s == s[..|lead|] + (s[|lead|..next] + (s[next..] + ""));
  }

  lemma ParsedWF(c: Forest, d: Forest)
    requires WFTree(c) && c.next.Nil? && d.Cons? && d == c.(gap := d.gap)
    ensures WFRoot(d)
  {
    hide CellOK, WF;
    CellRelink(c, d.gap, Nil);
    assert d == c.(gap := d.gap, next := Nil);
  }

  lemma ParsedRep(a: seq<ElemPos>, c: Forest, d: Forest, p: nat)
    requires c.Cons? && c.next.Nil? && d.Cons? && d == c.(gap := d.gap) && Rep(a, c, 0, p) && 0 < |a| && 0 !in Ids(c)
    ensures Rep(a[0 := a[0].LinkChild(1)], d, 0, p)
  {
    var b := a[0 := a[0].LinkChild(1)];
    RepFrame(a, b, c, 0, p);
    RepCons(b, c, 0, p);
    RepCons(b, d, 0, p);
  }

  lemma ParsedIds(c: Forest, d: Forest)
    requires c.Cons? && d.Cons? && d == c.(gap := d.gap)
    ensures Ids(d) == Ids(c) && Distinct(d) == Distinct(c)
  {
  }

  lemma LaidIs(doc: string, a: seq<ElemPos>, free: nat, prolog: string, f: Forest)
    requires 8 <= |a| && 0 < free <= |a| && f.Cons? && f.next.Nil? && doc == prolog + Text(f)
    requires a[0].startR == 0 && a[0].parent == 0 && a[0].next == 0 && a[0].child == f.id
    requires Rep(a, f, 0, |prolog|) && Distinct(f) && forall i :: i in Ids(f) ==> i < free
    ensures Laid(doc, a, free, prolog, f)
  {
    hide Rep, Distinct, Text, Ids;
  }

  /** A document without elements. */
  lemma EmptyState(doc: string, a: seq<ElemPos>)
    requires 8 <= |a| && a[0] == CLEARED
    ensures State(doc, a, 1, doc, Nil)
  {
    NilIds();
  }

  // ---- subdocuments ----

  /** The subdocument holds exactly one element, closed, and nothing else that is a tag. */
  predicate OneRoot(frag: string, id: nat) {
    var x := ParseElem(frag, 0, id);
    x.Elem? && x.lead == "" && GapOK(frag[x.next..], 0)
  }

  /** Where it stands in the text it is parsed alike. */
  lemma FragmentParses(frag: string, id: nat, doc: string, q: nat)
    requires ParseElem(frag, 0, id).Elem? && ParseElem(frag, 0, id).lead == "" && Has(doc, q, frag)
    ensures q <= |doc| && ParseElem(doc, q, id) == ParseElem(frag, 0, id).(next := q + ParseElem(frag, 0, id).next)
  {
    hide *;
    var x := ParseElem(frag, 0, id);
    CellShape(frag, 0, id);
    ElemSound(frag, 0, id);
    HasHas(frag, 0, Body(x.cell), doc, q);
    HasEmpty(doc, q + 0);
    NilGap();
    ElemComplete("", x.cell, doc, q, id);
    SingleIs(x.cell, id);
  }

  lemma CellShape(s: string, p: nat, id: nat)
    requires p <= |s| && ParseElem(s, p, id).Elem?
    ensures var x := ParseElem(s, p, id); x.cell.Cons? && x.cell.next.Nil? && x.cell.gap == "" && p < x.next <= |s|
  {
    hide ParseElem;
  }

  lemma HasHas(frag: string, p: nat, s: string, doc: string, q: nat)
    requires Has(frag, p, s) && Has(doc, q, frag)
    ensures Has(doc, q + p, s)
  {
    var w := doc[q..q + |frag|];
    assert forall i :: 0 <= i < |s| ==> doc[q + p + i] == w[p + i] == s[i] by {
      assert forall i :: 0 <= i < |s| ==> frag[p..p + |s|][i] == s[i];
    }
  }

  lemma HasEmpty(doc: string, q: nat)
    requires q <= |doc|
    ensures Has(doc, q, "")
  {
  }

  lemma SingleIs(c: Forest, id: nat)
    requires c.Cons? && c.next.Nil? && c.gap == ""
    ensures Single(c) == c && Size(c) == 1 + Size(c.kids)
  {
  }

  /** The pieces of a subdocument. */
  lemma FragmentPieces(frag: string, id: nat)
    requires id > 0 && OneRoot(frag, id)
    ensures var x := ParseElem(frag, 0, id);
      && x.cell.Cons? && x.next <= |frag| && frag == Body(x.cell) + frag[x.next..] && GapOK(frag[x.next..], 0)
      && WFTree(x.cell) && Fresh(x.cell, id, x.ids) && id < x.ids && x.cell.id == id
  {
    hide *;
    var x := ParseElem(frag, 0, id);
    OneRootIs(frag, id);
    CellShape(frag, 0, id);
    ElemSound(frag, 0, id);
    RenumberIds(x.cell, id);
    RenumberDistinct(x.cell, id);
    RootId(x.cell, id);
    CutFront(frag, Body(x.cell), x.next);
    SizePos(x.cell);
    FreshBack(x.cell, id, x.ids);
  }

  lemma OneRootIs(frag: string, id: nat)
    requires OneRoot(frag, id)
    ensures var x := ParseElem(frag, 0, id); x.Elem? && x.lead == "" && GapOK(frag[x.next..], 0)
  {
    hide ParseElem, GapOK;
  }

  lemma RootId(c: Forest, id: nat)
    requires c.Cons? && Renumber(c, id) == c
    ensures c.id == id
  {
  }

  lemma CutFront(s: string, b: string, next: nat)
    requires Has(s, 0, b) && next == |b|
    ensures next <= |s| && s == b + s[next..]
  {
  }

  lemma FreshBack(t: Forest, free: nat, free': nat)
    requires t.Cons? && Distinct(t) && t.next.Nil? && t.gap == "" && free <= free' && forall i :: i in Ids(t) ==>
        free <= i < free'
    ensures Fresh(t, free, free')
  {
    hide Distinct, Ids;
  }

  /** Text put in stands where it was put. */
  lemma SpliceHas(doc: string, s: Site, ins: string, base: nat)
    requires CtxOK(s.x) && s.c.Cons? && SiteAt(s, base) + Drop(s) <= |doc|
    ensures var at := SiteAt(s, base); Has(Splice(doc, at, at + Drop(s), SiteText(s, ins)), StartAt(s, base), ins)
  {
    hide HolePos, TagName, Body, OpenText;
    var at := SiteAt(s, base);
    var w := Splice(doc, at, at + Drop(s), SiteText(s, ins));
    if s.Opened? {
      SplitHas(doc, at, ins, TagName(s.c));
    } else {
      assert w[at..at + |ins|] == ins;
    }
  }

  lemma SplitHas(doc: string, at: nat, ins: string, name: string)
    requires at + 1 <= |doc|
    ensures Has(Splice(doc, at, at + 1, SplitInsert(ins, name)), at + 3, ins)
  {
    var w := Splice(doc, at, at + 1, SplitInsert(ins, name));
    var front := ">" + CRLF;
    assert SplitInsert(ins, name) == front + (ins + ("</" + name));
    assert w == (doc[..at] + front) + (ins + (("</" + name) + doc[at + 1..]));
    assert |doc[..at] + front| == at + 3;
  }

  /** Taken out again, the text is what it was. */
  lemma SpliceBack(doc: string, i: nat, j: nat, ins: string)
    requires i <= j <= |doc|
    ensures i + |ins| <= |Splice(doc, i, j, ins)| && Splice(Splice(doc, i, j, ins), i, i + |ins|, doc[i..j]) == doc
  {
    var w := Splice(doc, i, j, ins);
    assert w[..i] == doc[..i] && w[i + |ins|..] == doc[j..];
  }

  /** A state depends on the entries in use only. */
  lemma StateGrown(doc: string, a: seq<ElemPos>, free: nat, prolog: string, f: Forest, b: seq<ElemPos>)
    requires State(doc, a, free, prolog, f) && |a| <= |b| && forall i :: 0 <= i < free ==> b[i] == a[i]
    ensures State(doc, b, free, prolog, f)
  {
    hide WFRoot, Rep, Distinct, Text;
    RepFrame(a, b, f, 0, |prolog|);
  }

  // ---- texts on which the parser always comes to an end ----

  /** Some `<` is directly followed by whitespace. */
  predicate BlankTag(s: string) { exists i :: 0 <= i < |s| - 1 && s[i] == '<' && IsSpace(s[i + 1]) }

  lemma {:induction false} NextTagEnds(s: string, n: nat)
    requires n <= |s| && NextTag(s, n) == Endless
    ensures BlankTag(s)
    decreases |s| - n
  {
    hide FindToken, ParseNode, FindChar, TokenText, NextTag;
    NextTagTurn(s, n);
    var j := FindChar(s, n, '<');
    var nd := ParseNode(s, j);
    if nd.next <= j {
      EndlessHere(s, j);
    } else {
      NextTagEnds(s, nd.next);
    }
  }

  lemma EndlessHere(s: string, j: nat)
    requires j < |s| && s[j] == '<' && ParseNode(s, j).kind != NoNode && ParseNode(s, j).next <= j
    requires var t := FindToken(s, j + 1); t.found && !t.isString && (s[t.l] == '?' || s[t.l] == '!')
    ensures BlankTag(s)
  {
    assert ParseNode(s, j).kind == ElementNode;
    if !IsSpace(s[j + 1]) { assert false; }
  }

  /** A `<`, whitespace, and then `?` or `!`. */
  predicate Stuck(s: string, j: nat) {
    && j + 1 < |s| && s[j] == '<' && IsSpace(s[j + 1])
    && var a := SkipSpace(s, j + 1); a < |s| && (s[a] == '?' || s[a] == '!')
  }

  lemma StuckHere(s: string, j: nat)
    requires j < |s| && s[j] == '<'
    ensures Stuck(s, j) <==>
      var t, nd := FindToken(s, j + 1), ParseNode(s, j);
      t.found && !t.isString && (s[t.l] == '?' || s[t.l] == '!') && nd.kind != NoNode && nd.next <= j
  {
    var a := SkipSpace(s, j + 1);
    if a < |s| && (s[a] == '?' || s[a] == '!') {
      assert WordEnd(s, a) == a;
      assert IsSpace(s[j + 1]) <==> j + 1 < a;
    }
  }

  /** Between `n` and `j` stands text that the start tag loop passes over, and at `j` it stays. */
  predicate StuckBehind(s: string, n: nat, j: nat) { n <= j < |s| && Stuck(s, j) && GapOK(s[..j], n) }

  lemma {:induction false} EndlessStuck(s: string, n: nat) returns (j: nat)
    requires n <= |s| && NextTag(s, n) == Endless
    ensures StuckBehind(s, n, j)
    decreases |s| - n
  {
    hide *;
    j := FindChar(s, n, '<');
    NextTagTurn(s, n);
    FindBounds(s, n, '<');
    FindHolds(s, n, '<');
    StuckHere(s, j);
    if Stuck(s, j) {
      FrontSame(s, n, j);
      FindCharLocal(s, s[..j], 0, n, j, '<');
      FindBounds(s[..j], n, '<');
      GapTurn(s[..j], n);
      StuckIs(s, n, j);
    } else {
      var i, next := j, ParseNode(s, j).next;
      NodeBounds(s, i);
      MiscAt(s, i);
      j := EndlessStuck(s, next);
      StuckParts(s, next, j);
      FrontSame(s, n, j);
      FrontSame(s, i, j);
      FindCharLocal(s, s[..j], 0, n, j, '<');
      ParseNodeLocal(s, s[..j], 0, i, j);
      GapTurn(s[..j], n);
      StuckIs(s, n, j);
    }
  }

  lemma FindHolds(s: string, n: nat, c: char)
    requires n <= |s|
    ensures FindChar(s, n, c) < |s| ==> s[FindChar(s, n, c)] == c
  {
  }

  lemma StuckIs(s: string, n: nat, j: nat)
    requires n <= j < |s| && Stuck(s, j) && GapOK(s[..j], n)
    ensures StuckBehind(s, n, j)
  {
    hide Stuck, GapOK;
  }

  lemma StuckParts(s: string, n: nat, j: nat)
    requires StuckBehind(s, n, j)
    ensures n <= j < |s| && Stuck(s, j) && s[j] == '<' && GapOK(s[..j], n)
  {
    hide SkipSpace, GapOK;
  }

  /** What begins with `<` and is passed over is a misc node. */
  lemma MiscAt(s: string, j: nat)
    requires j < |s| && s[j] == '<' && ParseNode(s, j).next > j
    ensures IsMisc(ParseNode(s, j).kind)
  {
    hide FindToken, FindChar;
  }

  /** This is exactly when the start tag loop makes no progress. */
  lemma NextTagEndless(s: string, n: nat)
    requires n <= |s|
    ensures NextTag(s, n) == Endless <==> exists j :: StuckBehind(s, n, j)
  {
    hide *;
    if NextTag(s, n) == Endless {
      var j := EndlessStuck(s, n);
    }
    if j: nat :| StuckBehind(s, n, j) {
      StuckParts(s, n, j);
      StuckHere(s, j);
      FindHere(s, j, '<');
      NextTagTurn(s, j);
      FrontSame(s, n, j);
      SameBack(s, s[..j], n, j);
      GapPasses(s[..j], s, 0, n);
    }
  }

  /** The parser comes to an end on every text without such a `<`. */
  lemma {:induction false} ElemEnds(s: string, p: nat, id: nat)
    requires p <= |s| && !BlankTag(s)
    ensures ParseElem(s, p, id) != ElemEndless
    decreases |s| - p, 0
  {
    hide NextTag, ParseElem, ParseKids, EndTag;
    if NextTag(s, p).Endless? { NextTagEnds(s, p); }
    if NextTag(s, p).OpenTag? { KidsEnds(s, NextTag(s, p).r + 1, id + 1); }
    if ParseElem(s, p, id) == ElemEndless { EndlessTurn(s, p, id); }
  }

  lemma EndlessTurn(s: string, p: nat, id: nat)
    requires p <= |s| && ParseElem(s, p, id) == ElemEndless
    ensures NextTag(s, p).Endless? || (NextTag(s, p).OpenTag?
        && ParseKids(s, NextTag(s, p).r + 1, id + 1) == KidsEndless)
  {
    hide NextTag, ParseKids, EndTag;
  }

  lemma {:induction false} KidsEnds(s: string, p: nat, id: nat)
    requires p <= |s| && !BlankTag(s)
    ensures ParseKids(s, p, id) != KidsEndless
    decreases |s| - p, 1
  {
    hide NextTag, ParseElem, EndTag;
    ElemEnds(s, p, id);
    var x := ParseElem(s, p, id);
    if x.Elem? { KidsEnds(s, x.next, x.ids); }
  }
}
