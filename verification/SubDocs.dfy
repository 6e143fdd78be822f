/**
  Subdocuments: what is put in, how it is parsed where it stands, and what is undone
  when the parser does not accept it.
 */
module SubDocs {
  import opened Scanner
  import opened Parser
  import opened ParserProofs
  import opened RoundTrip
  import opened Index
  import opened Building
  import opened ParseLoop
  import opened Edits
  import opened Gaps
  import opened Surgery
  import opened Sites
  import opened States
  import opened Parsed
  import opened Paths
  import opened Locating
  import opened NewElems

  // ---- what is skipped at the start ----

  predicate Skippable(k: NodeKind) { k != NoNode && k != ElementNode }

  /** The loop that skips nodes before the first element: each turn goes on, from the
      beginning of `s`, at the length of the node just read.  `None`: not done in `n` turns. */
  function SkipLoop(s: string, p: nat, n: nat): (r: Option<nat>)
    requires p <= |s|
    ensures r.Some? ==> r.value <= |s|
    decreases n
  {
    var nd := ParseNode(s[p..], 0);
    if !Skippable(nd.kind) then Some(p) else if n == 0 then None else SkipLoop(s, nd.next, n - 1)
  }

  /** The loop comes to an end, and then in at most one turn for each place in the text. */
  predicate SkipEnds(s: string) { SkipLoop(s, 0, |s|).Some? }

  /** The text put in. */
  function Fragment(s: string): string
    requires SkipEnds(s)
  {
    s[SkipLoop(s, 0, |s|).value..]
  }

  lemma {:induction false} SkipMore(s: string, p: nat, n: nat, m: nat)
    requires p <= |s| && SkipLoop(s, p, n).Some? && n <= m
    ensures SkipLoop(s, p, m) == SkipLoop(s, p, n)
    decreases n
  {
    hide ParseNode;
    var nd := ParseNode(s[p..], 0);
    if Skippable(nd.kind) && n > 0 { SkipMore(s, nd.next, n - 1, m - 1); }
  }

  /** A loop of exactly `n` turns comes through `n + 1` different places. */
  lemma {:induction false} SkipPlaces(s: string, p: nat, n: nat) returns (places: set<nat>)
    requires p <= |s| && SkipLoop(s, p, n).Some? && (n > 0 ==> SkipLoop(s, p, n - 1).None?)
    ensures |places| == n + 1 && forall q :: q in places ==> q <= |s| && SkipLoop(s, q, n).Some?
    decreases n
  {
    hide ParseNode, SkipLoop;
    SkipTurn(s, p, n);
    if n == 0 {
      places := {p};
    } else {
      SkipTurn(s, p, n - 1);
      var next := ParseNode(s[p..], 0).next;
      var rest := SkipPlaces(s, next, n - 1);
      forall q | q in rest
        ensures SkipLoop(s, q, n).Some?
      {
        SkipMore(s, q, n - 1, n);
      }
      places := rest + {p};
    }
  }

  lemma {:induction false} PlacesFit(m: nat, places: set<nat>)
    requires forall q :: q in places ==> q < m
    ensures |places| <= m
  {
    if m > 0 { PlacesFit(m - 1, places - {m - 1}); }
  }

  /** The loop comes to an end in any number of turns only if it does so in `|s|` turns. */
  lemma {:induction false} SkipBound(s: string, n: nat)
    requires SkipLoop(s, 0, n).Some?
    ensures SkipEnds(s) && Fragment(s) == s[SkipLoop(s, 0, n).value..]
  {
    hide SkipLoop;
    if n > 0 && SkipLoop(s, 0, n - 1).Some? {
      SkipMore(s, 0, n - 1, n);
      SkipBound(s, n - 1);
    } else {
      var places := SkipPlaces(s, 0, n);
      PlacesFit(|s| + 1, places);
      SkipMore(s, 0, n, |s|);
    }
  }

  /** So this is exactly when it ends. */
  lemma SkipEndsExactly(s: string)
    ensures SkipEnds(s) <==> exists n :: SkipLoop(s, 0, n).Some?
  {
    hide SkipLoop;
    if n :| SkipLoop(s, 0, n).Some? { SkipBound(s, n); }
  }

  lemma SkipTurn(s: string, p: nat, n: nat)
    requires p <= |s|
    ensures var nd := ParseNode(s[p..], 0);
      SkipLoop(s, p, n) == if !Skippable(nd.kind) then Some(p) else if n == 0 then None else SkipLoop(s, nd.next, n - 1)
  {
    hide ParseNode;
  }

  /** A second node of length `w` follows a first one of length `m`, and then a `<`.  The second
      length is taken for a place in the whole text; if what is read from there ends at the same
      `<`, its length is `m` again, and so on for ever. */
  predicate GoesRound(s: string, m: nat, w: nat) {
    && 0 < m && 0 < w && m + w < |s| && ParseNode(s, 0).next == m && Skippable(ParseNode(s, 0).kind)
    && ParseNode(s[m..], 0).next == w && Skippable(ParseNode(s[m..], 0).kind) && FindChar(s[w..], 0, '<') == m
    && var t := FindToken(s[w..], 0); t.l == m || t.next <= m
  }

  /** Whitespace in front of a tag is a node. */
  lemma WhiteNode(v: string, w: nat)
    requires 0 < w < |v| && SkipSpace(v, 0) == w && v[w] == '<'
    ensures ParseNode(v, 0) == Node(WhitespaceNode, w)
  {
    SkipSpaceFirst(v, 0);
    assert IsSpace(v[0]);
    SpecialToken(v, w);
    TokenSkips(v, 0);
  }

  /** A token is looked for behind whitespace. */
  lemma TokenSkips(s: string, n: nat)
    requires n <= |s|
    ensures FindToken(s, n) == FindToken(s, SkipSpace(s, n))
  {
    assert SkipSpace(s, SkipSpace(s, n)) == SkipSpace(s, n);
  }

  lemma RoundText(s: string, m: nat, w: nat)
    requires GoesRound(s, m, w)
    ensures Skippable(ParseNode(s[w..], 0).kind) && ParseNode(s[w..], 0).next == m
  {
    hide FindToken;
    var v := s[w..];
    FindCharFirst(v, 0, '<');
    var t := FindToken(v, 0);
    assert v[0] != '<' && v[m] == '<';
    TokenBounds(v, 0);
    if t.l < m {
      FirstIs(v, t.next, m, '<');
    }
  }

  lemma TokenBounds(s: string, n: nat)
    requires n <= |s|
    ensures var t := FindToken(s, n);
      t.l <= |s| && t.next <= |s| && (t.found ==> n < t.next) && (!t.found ==> t.l == |s|)
  {
  }

  /** From such a text the loop never gets to an element. */
  lemma {:induction false} RoundForever(s: string, m: nat, w: nat, n: nat)
    requires GoesRound(s, m, w)
    ensures SkipLoop(s, 0, n).None? && SkipLoop(s, m, n).None? && SkipLoop(s, w, n).None?
  {
    RoundText(s, m, w);
    assert s[0..] == s;
    hide ParseNode, SkipLoop;
    SkipTurn(s, 0, n);
    SkipTurn(s, m, n);
    SkipTurn(s, w, n);
    if n > 0 { RoundForever(s, m, w, n - 1); }
  }

  lemma NeverEnds(s: string, m: nat, w: nat)
    requires GoesRound(s, m, w)
    ensures !SkipEnds(s)
  {
    RoundForever(s, m, w, |s|);
  }

  /** An XML declaration (section 2.8 of XML 1.0) and a line break before the element are
      enough. */
  lemma DeclarationLoops(s: string, m: nat, w: nat)
    requires ParseNode(s, 0) == Node(ProcNode, m) && 5 < m && s[..5] == "<?xml" && m + w < |s| && s[m + w] == '<'
    requires s[m..m + w] == "\n" || s[m..m + w] == "\r\n"
    requires forall i :: 0 < i < m ==> s[i] != '<'
    ensures !SkipEnds(s)
  {
    hide ParseNode;
    var u, v := s[m..], s[w..];
    assert forall i :: 0 <= i < w ==> u[i] == s[m..m + w][i];
    assert IsSpace(u[0]) && !IsSpace(u[w]) && (w == 2 ==> IsSpace(u[1]));
    assert SkipSpace(u, w) == w && SkipSpace(u, w - 1) == w;
    assert SkipSpace(u, 0) == w;
    forall i | 0 <= i < m
      ensures v[i] != '<'
    {
      if w + i >= m { assert v[i] == u[w + i - m]; }
    }
    FirstIs(v, 0, m, '<');
    assert s[1] == s[..5][1] == '?' && s[2] == s[..5][2] == 'x';
    FirstToken(v, m);
    assert u[w] == s[m + w];
    WhiteNode(u, w);
    NeverEnds(s, m, w);
  }

  /** One such text. */
  lemma SmallestLoop()
    ensures !SkipEnds("<?xml?>\n<b/>")
  {
    var s := "<?xml?>\n<b/>";
    hide FindStr, ParseNode, SkipLoop;
    forall i | 0 <= i < 5
      ensures !OccursAt(s, i, "?>")
    {
      assert s[i..i + 2][1] == s[i + 1];
    }
    assert s[5..7] == "?>";
    FoundAt(s, 0, 5, "?>");
    assert s[..5] == "<?xml" && s[7..8] == "\n";
    DeclarationHere(s, 5);
    assert s[1] == '?' && s[2] == 'x' && s[3] == 'm' && s[4] == 'l' && s[5] == '?' && s[6] == '>';
    DeclarationLoops(s, 7, 1);
  }

  /** Without any whitespace, a comment in front of the element does the same. */
  lemma CommentLoop()
    ensures !SkipEnds("<?xml?><!--c--><b/>")
  {
    var s := "<?xml?><!--c--><b/>";
    hide FindStr, ParseNode, SkipLoop, FindChar;
    var u, v := s[7..], s[8..];
    assert u == "<!--c--><b/>" && v == "!--c--><b/>";
    forall i | 0 <= i < 5
      ensures !OccursAt(s, i, "?>") && !OccursAt(u, i, "-->")
    {
      assert s[i..i + 2][1] == s[i + 1];
      assert u[i..i + 3][2] == u[i + 2];
    }
    assert s[5..7] == [s[5], s[6]] == "?>";
    assert u[5..8] == [u[5], u[6], u[7]] == "-->";
    FoundAt(s, 0, 5, "?>");
    FoundAt(u, 0, 5, "-->");
    DeclarationHere(s, 5);
    CommentHere(u, 5);
    FirstIs(v, 0, 7, '<');
    FirstToken(v, 7);
    NeverEnds(s, 7, 8);
  }

  lemma CommentHere(s: string, i: nat)
    requires |s| > 2 && s[0] == '<' && s[1] == '!' && s[2] == '-' && FindStr(s, 0, "-->") == Some(i)
    ensures ParseNode(s, 0) == Node(CommentNode, i + 3)
  {
    hide FindStr;
  }

  lemma DeclarationHere(s: string, i: nat)
    requires |s| > 2 && s[0] == '<' && s[1] == '?' && FindStr(s, 0, "?>") == Some(i)
    ensures ParseNode(s, 0) == Node(ProcNode, i + 2)
  {
    hide FindStr;
  }

  lemma {:induction false} FoundAt(s: string, n: nat, i: nat, pat: string)
    requires n <= i <= |s| && OccursAt(s, i, pat) && forall j :: n <= j < i ==> !OccursAt(s, j, pat)
    ensures FindStr(s, n, pat) == Some(i)
    decreases i - n
  {
    hide OccursAt;
    if n < i { FoundAt(s, n + 1, i, pat); }
  }

  /** A word or special character before a `<` ends before it. */
  lemma FirstToken(v: string, m: nat)
    requires m < |v| && v[m] == '<' && !IsSpace(v[0]) && !IsQuote(v[0]) && 0 < m
    ensures FindToken(v, 0).next <= m
  {
    assert SkipSpace(v, 0) == 0;
    WordEndFirst(v, 0);
    assert !IsWordChar(v[m]);
  }

  /** With at most one node to skip, the text put in starts behind it. */
  lemma SkipOne(s: string)
    requires AtMostOne(s)
    ensures SkipEnds(s) && Fragment(s) == if Skippable(ParseNode(s, 0).kind) then s[ParseNode(s, 0).next..] else s
  {
    hide ParseNode, SkipLoop;
    assert s[0..] == s;
    SkipTurn(s, 0, 1);
    if Skippable(ParseNode(s, 0).kind) { SkipTurn(s, ParseNode(s, 0).next, 0); }
    SkipBound(s, 1);
  }

  predicate AtMostOne(s: string) {
    var nd := ParseNode(s, 0); Skippable(nd.kind) ==> !Skippable(ParseNode(s[nd.next..], 0).kind)
  }

  /** The nodes to skip, one behind the other: where the element stands. */
  function FrontEnd(s: string, p: nat): (e: nat)
    requires p <= |s|
    ensures p <= e <= |s|
    decreases |s| - p
  {
    var nd := ParseNode(s[p..], 0);
    if Skippable(nd.kind) then FrontEnd(s, p + nd.next) else p
  }

  /** Some node read from behind the beginning is `e` characters long: if `e` is where the front
      ends, it goes over the element's start. */
  predicate Reaches(s: string, e: nat) {
    exists q :: 0 < q <= |s| && Skippable(ParseNode(s[q..], 0).kind) && ParseNode(s[q..], 0).next == e
  }

  /** If no node goes that far, the text put in starts at the element exactly if there is at most
      one node in front of it. */
  lemma FrontExactly(s: string)
    requires !Reaches(s, FrontEnd(s, 0))
    ensures SkipEnds(s) && Fragment(s) == s[FrontEnd(s, 0)..] <==> AtMostOne(s)
  {
    hide ParseNode, SkipLoop;
    assert s[0..] == s;
    var nd := ParseNode(s, 0);
    NodeBounds(s, 0);
    if AtMostOne(s) {
      SkipOne(s);
      if Skippable(nd.kind) { assert FrontEnd(s, nd.next) == nd.next; }
    } else {
      NodeForward(s[nd.next..]);
      var e := FrontEnd(s, 0);
      assert e == FrontEnd(s, nd.next) && nd.next < e;
      NeverAt(s, 0, |s|, e);
      if SkipEnds(s) { assert |Fragment(s)| == |s| - SkipLoop(s, 0, |s|).value; }
    }
  }

  lemma NodeForward(s: string)
    ensures Skippable(ParseNode(s, 0).kind) ==> 0 < ParseNode(s, 0).next
  {
    hide ParseNode;
  }

  /** A place that no node is as long as is never come to. */
  lemma {:induction false} NeverAt(s: string, p: nat, n: nat, e: nat)
    requires p <= |s| && p != e && !Reaches(s, e)
    requires p == 0 ==> Skippable(ParseNode(s[0..], 0).kind) && ParseNode(s[0..], 0).next != e
    ensures SkipLoop(s, p, n) != Some(e)
    decreases n
  {
    hide ParseNode, SkipLoop;
    SkipTurn(s, p, n);
    NodeForward(s[p..]);
    var nd := ParseNode(s[p..], 0);
    if Skippable(nd.kind) && n > 0 { NeverAt(s, nd.next, n - 1, e); }
  }

  // ---- where it stands ----

  function SpliceAny(s: string, i: int, j: int, ins: string): string {
    if 0 <= i <= j <= |s| then Splice(s, i, j, ins) else s
  }

  /** The document with the subdocument in it, and the place where it is parsed. */
  ghost function WithSub(doc: string, a: seq<ElemPos>, tree: Forest, par: nat, rel: nat, bInsert: bool,
      frag: string): (string, int)
    requires par < |a| && rel < |a|
  {
    var n := NewOffset(doc, a, par, rel, bInsert);
    if a[par].IsEmptyElement() then
      (SpliceAny(doc, n - 1, n, SplitInsert(frag, if Find(tree, par).Cons? then TagName(Find(tree, par)) else "")),
          n + 2)
    else (SpliceAny(doc, n, n, frag), n)
  }

  /** What the parser says of the subdocument where it stands. */
  ghost function SubResult(doc: string, a: seq<ElemPos>, tree: Forest, free: nat, par: nat, rel: nat, bInsert: bool,
      frag: string): ElemResult
    requires par < |a| && rel < |a|
  {
    var (d, q) := WithSub(doc, a, tree, par, rel, bInsert, frag);
    if 0 <= q <= |d| then ParseElem(d, q, free) else ElemError
  }

  /** The place is the site, and the text is put in there. */
  lemma SubIs(doc: string, a: seq<ElemPos>, free: nat, prolog: string, tree: Forest, par: nat, rel: nat, bInsert: bool,
      frag: string, s: Site)
    requires State(doc, a, free, prolog, tree) && SiteOK(s, tree) && Under(s) == par && par < |a| && rel < |a|
    requires NewOffset(doc, a, par, rel, bInsert) == SiteAt(s, |prolog|) + Drop(s) <= |doc|
        && (s.Opened? <==> a[par].IsEmptyElement())
    ensures CtxOK(s.x) && s.c.Cons?
    ensures var (at, q) := (SiteAt(s, |prolog|), StartAt(s, |prolog|));
      var d := Splice(doc, at, at + Drop(s), SiteText(s, frag));
      && WithSub(doc, a, tree, par, rel, bInsert, frag) == (d, q) && q + |frag| <= |d| && Has(d, q, frag)
      && SubResult(doc, a, tree, free, par, rel, bInsert, frag) == ParseElem(d, q, free)
  {
    hide *;
    SiteIs(s, tree);
    StateIs(doc, a, free, prolog, tree);
    LaidDistinct(doc, a, free, prolog, tree);
    FindFill(s.x, s.c);
    SpliceHas(doc, s, frag, |prolog|);
    HasLength(Splice(doc, SiteAt(s, |prolog|), SiteAt(s, |prolog|) + Drop(s), SiteText(s, frag)), StartAt(s, |prolog|),
        frag);
    WithSubIs(doc, a, tree, free, par, rel, bInsert, frag, s, |prolog|);
  }

  lemma WithSubIs(doc: string, a: seq<ElemPos>, tree: Forest, free: nat, par: nat, rel: nat, bInsert: bool,
      frag: string, s: Site, base: nat)
    requires par < |a| && rel < |a| && CtxOK(s.x) && s.c.Cons? && Under(s) == par && Find(tree, s.c.id) == s.c
    requires NewOffset(doc, a, par, rel, bInsert) == SiteAt(s, base) + Drop(s) <= |doc|
        && (s.Opened? <==> a[par].IsEmptyElement())
    ensures var (at, q) := (SiteAt(s, base), StartAt(s, base));
      var d := Splice(doc, at, at + Drop(s), SiteText(s, frag));
      && WithSub(doc, a, tree, par, rel, bInsert, frag) == (d, q)
      && (q <= |d| ==> SubResult(doc, a, tree, free, par, rel, bInsert, frag) == ParseElem(d, q, free))
  {
    hide NewOffset, SiteAt, Splice, SplitInsert, TagName, ParseElem, Find, Par;
  }

  /** The entries after the parse, with the links set: ready for the walk. */
  lemma SubReady(doc: string, a: seq<ElemPos>, free: nat, prolog: string, tree: Forest, s: Site, t: Forest,
      b: seq<ElemPos>, a1: seq<ElemPos>, free': nat)
    requires State(doc, a, free, prolog, tree) && SiteOK(s, tree) && CtxOK(s.x) && s.c.Cons? && 0 < s.c.id < free
        && s.c.id < |a|
    requires |a| <= |b| && free' <= |b| && t.Cons? && t.id == free < free' && t.next.Nil? && Fresh(t, free, free')
    requires (forall j :: 0 <= j < free ==> b[j] == a[j]) && Rep(b, t, Under(s), StartAt(s, |prolog|))
    requires a1 == b[free := b[free].LinkNext(OldNext(a, s))][s.c.id := Marked(s, a[s.c.id], free)]
    ensures SiteReady(a, a1, s, t, |prolog|, free')
    ensures SameParents(a, a1, free) && a1[free].parent == Under(s)
  {
    hide *;
    var q := StartAt(s, |prolog|);
    StateIs(doc, a, free, prolog, tree);
    SiteIs(s, tree);
    LaidBounds(doc, a, free, prolog, tree);
    ElemAt(doc, a, free, prolog, tree, s.x, s.c);
    OlderIs(s);
    LinkedToIs(s, a, free);
    MarkedIs(s, a[s.c.id], free);
    RepCons(b, t, Under(s), q);
    EntryLinks(t, q, TextLen(t.kids), Under(s), Id(t.kids), Id(t.next), Id(Older(s)));
    KidsAway(t, free, free', b, a1, s.c.id, q);
    LinkedReady(doc, a, free, prolog, s, t, a1, free');
    SubParents(a, a1, free);
  }

  lemma RepCons(a: seq<ElemPos>, f: Forest, parent: nat, p: nat)
    requires f.Cons? && Rep(a, f, parent, p)
    ensures f.id < |a| && a[f.id] == Entry(f, p, TextLen(f.kids), parent, Id(f.kids), Id(f.next))
        && Rep(a, f.kids, f.id, KidsPos(f, p))
  {
  }

  lemma EntryLinks(t: Forest, p: nat, k: nat, parent: nat, child: nat, next: nat, n: nat)
    requires t.Cons?
    ensures Entry(t, p, k, parent, child, next).LinkNext(n) == Entry(t, p, k, parent, child, n)
        && Entry(t, p, k, parent, child, n).parent == parent
  {
  }

  lemma KidsAway(t: Forest, free: nat, free': nat, b: seq<ElemPos>, a1: seq<ElemPos>, i: nat, q: nat)
    requires Fresh(t, free, free') && t.id == free && i < free && |b| == |a1|
    requires forall j :: 0 <= j < |b| && j != i && j != free ==> a1[j] == b[j]
    requires Rep(b, t.kids, t.id, KidsPos(t, q))
    ensures Rep(a1, t.kids, t.id, KidsPos(t, q))
  {
    DistinctParts(t);
    RepFrame(b, a1, t.kids, t.id, KidsPos(t, q));
  }

  lemma SubParents(a: seq<ElemPos>, a1: seq<ElemPos>, free: nat)
    requires free <= |a| <= |a1| && forall j :: 0 <= j < free ==> a1[j].parent == a[j].parent
    ensures SameParents(a, a1, free)
  {
  }

  lemma ParentAfter(a1: seq<ElemPos>, i: nat, both: set<nat>, ends: set<nat>, n: int)
    requires i < |a1|
    ensures Shifted(a1, both, ends, n)[i].parent == a1[i].parent
  {
  }

  lemma SameEntries(a: seq<ElemPos>, b: seq<ElemPos>, free: nat)
    requires free <= |a| <= |b| && forall j :: 0 <= j < free ==> b[j] == a[j]
    ensures SameParents(a, b, free)
  {
  }

  /** In an opened element the slash is one place before the start tag's end. */
  lemma OpenedStart(s: Site, base: nat)
    requires CtxOK(s.x) && s.c.Cons? && s.Opened? && s.c.empty
    ensures HolePos(s.x, base) + |OpenText(s.c)| - 2 == SiteAt(s, base) && StartAt(s, base) == SiteAt(s, base) + 3
  {
  }

  /** The parse has written unused entries and the parent's end offset only. */
  lemma SubOutcome(doc: string, a0: seq<ElemPos>, a1: seq<ElemPos>, b: seq<ElemPos>, c: seq<ElemPos>, par: nat, q: nat,
      free0: nat, free: nat, r: int, x: ElemResult)
    requires par < free0 <= |a0| && |a0| == |a1| && (forall j :: 0 <= j < |a0| && j != par ==> a1[j] == a0[j])
        && a1[par] == a0[par].(endL := a1[par].endL)
    requires Grown(a1, b, free0, par) && free <= |b| && c == b[par := b[par].(endL := a0[par].endL)] && free0 > 0
    requires q <= |doc| && x == ParseElem(doc, q, free0) && Outcome(b, par, q, free0, free, r, x)
    ensures |a0| <= |c| && forall j :: 0 <= j < free0 ==> j < |a0| && c[j] == a0[j]
    ensures r > 0 <==> x.Elem?
    ensures x.Elem? ==> r == free0 && free == x.ids && Rep(c, x.cell, par, q + |x.lead|)
  {
    hide *;
    GrownIs(a1, b, free0, par);
    OutcomeSign(b, par, q, free0, free, r, x);
    if x.Elem? {
      ElemSound(doc, q, free0);
      RenumberIds(x.cell, free0);
      OutcomeIs(b, par, q, free0, free, r, x);
      RepFrame(b, c, x.cell, par, q + |x.lead|);
    }
  }

  lemma GrownIs(a: seq<ElemPos>, b: seq<ElemPos>, free: nat, par: nat)
    requires Grown(a, b, free, par)
    ensures par < free <= |a| <= |b| && (forall k :: 0 <= k < free && k != par ==> b[k] == a[k])
        && b[par] == a[par].(endL := b[par].endL)
  {
  }

  lemma OutcomeSign(a: seq<ElemPos>, par: nat, p: int, free0: nat, free: nat, r: int, x: ElemResult)
    requires Outcome(a, par, p, free0, free, r, x) && free0 > 0
    ensures r > 0 <==> x.Elem?
  {
    hide Rep;
  }

  /** The text is what it was once the insertion is taken out again. */
  lemma RevertText(doc: string, a: seq<ElemPos>, free: nat, prolog: string, tree: Forest, s: Site, ins: string)
    requires State(doc, a, free, prolog, tree) && SiteOK(s, tree) && CtxOK(s.x) && s.c.Cons?
        && SiteAt(s, |prolog|) + Drop(s) <= |doc|
    ensures var at := SiteAt(s, |prolog|);
      var w := Splice(doc, at, at + Drop(s), ins);
      at + |ins| <= |w| && Splice(w, at, at + |ins|, if Drop(s) == 1 then "/" else "") == doc
  {
    hide *;
    var at := SiteAt(s, |prolog|);
    SpliceBack(doc, at, at + Drop(s), ins);
    SiteDrop(s);
    SiteIs(s, tree);
    if s.Opened? {
      var s' := OpenedSite(doc, a, free, prolog, tree, s.x, s.c);
      SameSite(s, s');
      assert doc[at..at + 1] == "/";
    } else {
      assert doc[at..at] == "";
    }
  }

  lemma SameSite(s: Site, t: Site)
    requires s.Opened? && t == Opened(s.x, s.c)
    ensures s == t
  {
  }
}
