/**
  What keeps a document well-formed: cutting and joining the text between
  elements, the tags the editor writes, and opening up an empty element.
 */
module Gaps {
  import opened Common
  import opened Scanner
  import opened Locality
  import opened Parser
  import opened ParserProofs
  import opened RoundTrip
  import opened Edits

  // ---- cutting and joining gaps ----

  /** The places where the editor cuts a gap: its end, or a place before any `<`. */
  predicate CutOK(g: string, k: nat) { k <= |g| && (k == |g| || FindChar(g, 0, '<') >= k) }

  lemma PlainGap(g: string)
    requires FindChar(g, 0, '<') == |g|
    ensures GapOK(g, 0)
  {
  }

  lemma {:induction false} NoOpen(g: string, n: nat)
    requires n <= |g| && forall i :: n <= i < |g| ==> g[i] != '<'
    ensures FindChar(g, n, '<') == |g|
    decreases |g| - n
  {
    if n < |g| { NoOpen(g, n + 1); }
  }

  lemma GapFrom(g: string, n: nat, m: nat)
    requires n <= |g| && m <= |g| && FindChar(g, n, '<') == FindChar(g, m, '<')
    ensures GapOK(g, n) == GapOK(g, m)
  {
    hide FindChar, ParseNode;
  }

  lemma {:induction false} FindCharFrom(g: string, n: nat, m: nat, c: char)
    requires n <= m <= |g| && FindChar(g, n, c) >= m
    ensures FindChar(g, n, c) == FindChar(g, m, c)
    decreases m - n
  {
    if n < m { FindCharFrom(g, n + 1, m, c); }
  }

  lemma CutGap(g: string, k: nat)
    requires GapOK(g, 0) && CutOK(g, k)
    ensures GapOK(g[..k], 0) && GapOK(g[k..], 0)
  {
    hide GapOK;
    if k == |g| {
      assert g[..k] == g && g[k..] == "";
      PlainGap("");
    } else {
      FindCharFirst(g, 0, '<');
      NoOpen(g[..k], 0);
      PlainGap(g[..k]);
      FindCharFrom(g, 0, k, '<');
      GapFrom(g, 0, k);
      SameSlice(g, k, |g|);
      var d: int := 0 - k;
      GapOKLocal(g, g[k..|g|], d, k);
      assert g[k..|g|] == g[k..];
    }
  }

  lemma SameJoin(g: string, h: string)
    ensures Same(g, g + h, 0, 0, |g|) && Same(h, g + h, |g|, 0, |h|)
  {
  }

  lemma {:induction false} JoinGapFrom(g: string, h: string, w: string, n: nat)
    requires n <= |g| <= |w| && GapOK(g, n) && GapOK(w, |g|) && Same(g, w, 0, 0, |g|)
    ensures GapOK(w, n)
    decreases |g| - n
  {
    hide ParseNode, FindChar, GapOK, Same;
    var j := FindChar(g, n, '<');
    GapTurn(g, n);
    SameNarrow(g, w, 0, 0, |g|, n, |g|);
    FindCharLocal(g, w, 0, n, |g|, '<');
    if j < |g| {
      SameNarrow(g, w, 0, 0, |g|, j, |g|);
      ParseNodeLocal(g, w, 0, j, |g|);
      JoinGapFrom(g, h, w, ParseNode(g, j).next);
      GapTurn(w, n);
    } else {
      GapFrom(w, n, |g|);
    }
  }

  /** A gap in front of a text goes on as a gap where the text does. */
  lemma {:induction false} TailFrom(doc: string, o: nat, n: nat)
    requires n <= o <= |doc| && GapOK(doc, n) && GapOK(doc[..o], n)
    ensures GapOK(doc, o)
    decreases o - n
  {
    hide *;
    var g := doc[..o];
    var j := FindChar(g, n, '<');
    FindBounds(g, n, '<');
    FrontSame(doc, n, o);
    SameBack(doc, g, n, o);
    FindCharLocal(g, doc, 0, n, o, '<');
    GapTurn(g, n);
    GapTurn(doc, n);
    if j < o {
      FindBounds(doc, n, '<');
      NodeBounds(g, j);
      SameBack(doc, g, j, o);
      ParseNodeLocal(g, doc, 0, j, o);
      MiscIsLong(g, j);
      TailFrom(doc, o, ParseNode(g, j).next);
    } else {
      GapFrom(doc, n, o);
    }
  }

  lemma SameBack(doc: string, g: string, n: nat, o: nat)
    requires n <= o <= |doc| && g == doc[..o]
    ensures Same(g, doc, 0, n, o)
  {
  }

  lemma TailGap(doc: string, o: nat)
    requires o <= |doc| && GapOK(doc, 0) && GapOK(doc[..o], 0)
    ensures GapOK(doc[o..], 0)
  {
    hide *;
    TailFrom(doc, o, 0);
    var d: int := 0 - o;
    SameTail(doc, o, d);
    GapOKLocal(doc, doc[o..], d, o);
  }

  lemma SameTail(doc: string, o: nat, d: int)
    requires o <= |doc| && d == 0 - o
    ensures Same(doc, doc[o..], d, o, |doc|)
  {
  }

  lemma JoinGap(g: string, h: string)
    requires GapOK(g, 0) && GapOK(h, 0)
    ensures GapOK(g + h, 0)
  {
    SameJoin(g, h);
    GapOKLocal(h, g + h, |g|, 0);
    JoinGapFrom(g, h, g + h, 0);
  }

  lemma CrlfGap()
    ensures GapOK(CRLF, 0)
  {
    NoOpen(CRLF, 0);
    PlainGap(CRLF);
  }

  // ---- names and tags ----

  /** A name the editor may be given: a token, without `[`, which ends a name in a path. */
  predicate ValidName(name: string) {
    |name| > 0 && forall i :: 0 <= i < |name| ==> IsWordChar(name[i]) && !IsQuote(name[i]) && name[i] != '['
  }

  /** What the scanner takes for the name of a start tag. */
  predicate TokenName(name: string) {
    |name| > 0 &&
    if IsSpecial(name[0]) then |name| == 1 && name[0] != '/' && name[0] != '?' && name[0] != '!'
    else !IsQuote(name[0]) && forall i :: 0 <= i < |name| ==> IsWordChar(name[i])
  }

  lemma {:induction false} WordRun(s: string, n: nat, m: nat)
    requires n <= m <= |s| && (forall i :: n <= i < m ==> IsWordChar(s[i])) && (m < |s| ==> !IsWordChar(s[m]))
    ensures WordEnd(s, n) == m
    decreases m - n
  {
    if n < m { WordRun(s, n + 1, m); }
  }

  /** A name followed by a special character is one token. */
  lemma NameToken(s: string, n: nat, name: string)
    requires TokenName(name) && n + |name| < |s| && s[n..n + |name|] == name && IsSpecial(s[n + |name|])
    ensures FindToken(s, n) == Token(true, n, n + |name| - 1, n + |name|, false)
    ensures TokenText(s, FindToken(s, n)) == name
  {
    assert s[n] == s[n..n + |name|][0] == name[0];
    if IsSpecial(name[0]) {
      SpecialToken(s, n);
    } else {
      forall i | n <= i < n + |name|
        ensures IsWordChar(s[i])
      {
        assert s[i] == s[n..n + |name|][i - n] == name[i - n];
      }
      assert IsWordChar(s[n]) && SkipSpace(s, n) == n;
      WordRun(s, n, n + |name|);
    }
  }

  /** The name found in a start tag is a token name. */
  lemma FoundName(s: string, n: nat)
    requires n < |s| && NextTag(s, n).OpenTag? && NextTag(s, n).l == n
    ensures TokenName(NextTag(s, n).name)
  {
    hide NextTag, FindToken;
    NextTagHere(s, n);
    var t := FindToken(s, n + 1);
    TokenShape(s, n + 1);
    assert NextTag(s, n).name == s[t.l..t.r + 1];
  }

  lemma TokenShape(s: string, n: nat)
    requires n <= |s| && FindToken(s, n).found && !FindToken(s, n).isString
    ensures var t := FindToken(s, n);
      && (!IsSpecial(s[t.l]) ==> forall i :: t.l <= i < t.next ==> IsWordChar(s[i]))
      && (!IsSpecial(s[t.l]) ==> t.next == WordEnd(s, t.l))
  {
    WordEndFirst(s, SkipSpace(s, n));
  }

  lemma TagHasName(c: Forest)
    requires c.Cons? && TagOK(c)
    ensures TokenName(TagName(c))
  {
    hide NextTag, TokenName;
    FoundName(OpenText(c), 0);
  }

  /** The end tag the editor writes for a name closes that name. */
  lemma EndTagOK(name: string)
    requires TokenName(name)
    ensures CloseOK(EndTagOf(name), name) <==> name != ">"
  {
    var s := EndTagOf(name);
    var n := |name|;
    assert s[0] == '<' && s[1] == '/' && s[n + 2] == '>' && s[2..2 + n] == name && |s| == n + 3;
    assert s[2] == name[0];
    SpecialToken(s, 1);
    NameToken(s, 2, name);
    SpecialToken(s, n + 2);
    hide FindToken, NextTag, EndTag, TokenName, EndTagOf, TokenText;
    NextTagHere(s, 0);
    EndTagThree(s, n, name);
    NotBracket(name);
  }

  lemma EndTagThree(s: string, n: nat, name: string)
    requires n == |name| > 0 && |s| == n + 3 && s[1] == '/' && s[2] == name[0] && s[n + 2] == '>'
    requires FindToken(s, 1) == Token(true, 1, 1, 2, false)
    requires FindToken(s, 2) == Token(true, 2, n + 1, n + 2, false) && TokenText(s, FindToken(s, 2)) == name
    requires FindToken(s, n + 2) == Token(true, n + 2, n + 2, n + 3, false)
    ensures EndTag(s, 1, 0, name) == if name[0] == '>' then Some(2) else Some(n + 2)
  {
    hide FindToken, NextTag, EndTag, TokenText;
    EndTagStep(s, 1, 0, name);
    EndTagStep(s, 2, 1, name);
    EndTagStep(s, n + 2, 2, name);
  }

  lemma NotBracket(name: string)
    requires TokenName(name)
    ensures name[0] == '>' <==> name == ">"
  {
    assert name[0] == '>' ==> name == [name[0]];
  }

  /** The start tag the editor writes. */
  lemma StartTagOK(c: Forest, name: string)
    requires c.Cons? && ValidName(name) && c.tag == "<" + name
    ensures TagOK(c) && TagName(c) == name && TokenName(name)
  {
    var o := OpenText(c);
    var n := |name|;
    StartTagChars(c, name);
    NameToken(o, 1, name);
    hide FindToken, NextTag, FindChar, OpenText, TokenText;
    NextTagHere(o, 0);
  }

  lemma StartTagChars(c: Forest, name: string)
    requires c.Cons? && ValidName(name) && c.tag == "<" + name
    ensures var o, n := OpenText(c), |name|;
      && |o| > n + 1 && o[0] == '<' && o[1] == name[0] && o[1..1 + n] == name && IsSpecial(o[1 + n]) && TokenName(name)
      && FindChar(o, 1 + n, '>') == |o| - 1 && (o[|o| - 2] == '/' <==> c.empty)
  {
    var o, n := OpenText(c), |name|;
    assert o[1..1 + n] == name;
    assert o[n] == name[n - 1];
    FirstIs(o, 1 + n, |o| - 1, '>');
  }

  // ---- opening up an empty element ----

  /** Opening up `<N/>` works unless the name is `>` itself or the tag ends in two slashes. */
  predicate CanSplit(c: Forest)
    requires c.Cons?
  {
    TagName(c) != ">" && (|c.tag| > 0 ==> c.tag[|c.tag| - 1] != '/')
  }

  lemma SplitTag(c: Forest, d: Forest)
    requires c.Cons? && d.Cons? && TagOK(c) && c.empty && !d.empty && d.tag == c.tag
    ensures |c.tag| > 0
    ensures TagOK(d) <==> c.tag[|c.tag| - 1] != '/'
    ensures TagOK(d) ==> TagName(d) == TagName(c)
  {
    hide *;
    var o, o' := OpenText(c), OpenText(d);
    OpenIs(c);
    OpenIs(d);
    SplitToken(c.tag, o, o');
    LastOfTag(c.tag, o');
  }

  lemma OpenIs(c: Forest)
    requires c.Cons?
    ensures var o := OpenText(c);
      && o == c.tag + (if c.empty then "/>" else ">") && |o| == |c.tag| + if c.empty then 2 else 1
    ensures TagOK(c) <==>
      var o := OpenText(c);
      |o| >= 2 && NextTag(o, 0) == OpenTag(0, TagName(c), |o| - 1) && (o[|o| - 2] == '/' <==> c.empty)
    ensures NextTag(OpenText(c), 0).OpenTag? ==> TagName(c) == NextTag(OpenText(c), 0).name
  {
    hide NextTag;
  }

  lemma LastOfTag(tag: string, o: string)
    requires |tag| > 0 && o == tag + ">"
    ensures o[|o| - 2] == tag[|tag| - 1]
  {
  }

  lemma SplitToken(tag: string, o: string, o': string)
    requires o == tag + "/>" && o' == tag + ">"
    requires NextTag(o, 0).OpenTag? && NextTag(o, 0).l == 0 && NextTag(o, 0).r == |o| - 1
    ensures |tag| > 0 && NextTag(o', 0) == OpenTag(0, NextTag(o, 0).name, |tag|)
  {
    hide FindToken, NextTag, FindChar;
    var n := |tag|;
    assert o[n] == '/' && o[n + 1] == '>' && o'[n] == '>';
    assert o[0] == o'[0] == '<';
    var t := FindToken(o, 1);
    NextTagHere(o, 0);
    NextTagHere(o', 0);
    TokenBeforeSlash(tag, o, o');
    NoBracketBefore(o, o', t.next, n);
    assert o[t.l..t.r + 1] == o'[t.l..t.r + 1];
  }

  lemma TokenBeforeSlash(tag: string, o: string, o': string)
    requires |tag| > 0 && o == tag + "/>" && o' == tag + ">"
    requires var t := FindToken(o, 1); t.found && !t.isString && o[t.l] != '/'
    requires FindChar(o, FindToken(o, 1).next, '>') == |o| - 1
    ensures FindToken(o', 1) == FindToken(o, 1) && FindToken(o, 1).next <= |tag|
    ensures o'[FindToken(o, 1).l] == o[FindToken(o, 1).l]
  {
    var n := |tag|;
    var t := FindToken(o, 1);
    assert o[n] == '/' && o[n + 1] == '>' && o'[n] == '>';
    forall i | 0 <= i < n ensures o[i] == o'[i] { }
    assert t.l != n;
    assert t.l == n + 1 ==> t.next == n + 2;
    SkipSpaceFirst(o, 1);
    assert Same(o, o', 0, 1, n);
    SkipSpaceLocal(o, o', 0, 1, n);
    if !IsSpecial(o[t.l]) {
      WordEndFirst(o, t.l);
      WordRun(o', t.l, t.next);
    }
  }

  lemma NoBracketBefore(o: string, o': string, m: nat, n: nat)
    requires m <= n && |o| == n + 2 && |o'| == n + 1 && o[..n] == o'[..n] && o'[n] == '>'
        && FindChar(o, m, '>') == n + 1
    ensures FindChar(o', m, '>') == n
  {
    FindCharFirst(o, m, '>');
    forall i | m <= i < n
      ensures o'[i] != '>'
    {
      assert o'[i] == o'[..n][i] == o[..n][i] == o[i];
    }
    FirstIs(o', m, n, '>');
  }

  lemma {:induction false} FirstIs(s: string, m: nat, n: nat, c: char)
    requires m <= n < |s| && s[n] == c && forall i :: m <= i < n ==> s[i] != c
    ensures FindChar(s, m, c) == n
    decreases n - m
  {
    if m < n { FirstIs(s, m + 1, n, c); }
  }

  /** Opening up an empty element leaves a well-formed element exactly then. */
  lemma SplitExactly(c: Forest, d: Forest)
    requires c.Cons? && CellOK(c) && c.empty && d.Cons? && !d.empty && d.tag == c.tag
    requires GapOK(d.head, 0) && d.close == EndTagOf(TagName(c))
    ensures CellOK(d) <==> CanSplit(c)
  {
    hide NextTag, EndTag, GapOK, TokenName, TagOK, TagName, EndTagOf, CloseOK;
    SplitTag(c, d);
    TagHasName(c);
    EndTagOK(TagName(c));
  }
}
