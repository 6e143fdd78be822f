/**
  The parser function inverts the text function: it finds exactly the trees whose
  text it is given (completeness), and whatever it finds is well-formed and is a
  piece of the text (soundness).
 */
module ParserProofs {
  import opened Scanner
  import opened Locality
  import opened Parser

  /** `s` stands in `doc` at `u`. */
  ghost predicate Has(doc: string, u: nat, s: string) {
    u + |s| <= |doc| && doc[u..u + |s|] == s
  }

  lemma HasConcat(doc: string, u: nat, a: string, b: string)
    ensures Has(doc, u, a + b) <==> Has(doc, u, a) && Has(doc, u + |a|, b)
  {
    if u + |a| + |b| <= |doc| {
      assert doc[u..u + |a + b|] == doc[u..u + |a|] + doc[u + |a|..u + |a| + |b|];
      if Has(doc, u, a + b) {
        assert (a + b)[..|a|] == a && (a + b)[|a|..] == b;
      }
    }
  }

  // ---- gaps ----

  /** The start tag loop passes over a misc node, or stops at the `<`. */
  lemma NextTagStep(s: string, n: nat)
    requires n <= |s|
    ensures var j := FindChar(s, n, '<');
      if j < |s| && IsMisc(ParseNode(s, j).kind) then NextTag(s, n) == NextTag(s, ParseNode(s, j).next)
      else (NextTag(s, n).OpenTag? || NextTag(s, n).CloseTag?) ==> NextTag(s, n).l == j
  {
    hide FindToken, ParseNode, FindChar, TokenText;
    var j := FindChar(s, n, '<');
    if j < |s| && IsMisc(ParseNode(s, j).kind) {
      MiscIsLong(s, j);
      SpecialToken(s, j + 1);
    }
  }

  /** One turn of the start tag loop. */
  lemma NextTagTurn(s: string, n: nat)
    requires n <= |s|
    ensures var j := FindChar(s, n, '<');
      if j == |s| then NextTag(s, n) == NoTag
      else
        var t := FindToken(s, j + 1);
        if !t.found || t.isString then NextTag(s, n) == NoTag
        else if s[t.l] == '?' || s[t.l] == '!' then
          var nd := ParseNode(s, j);
          NextTag(s, n) == if nd.kind == NoNode then NoTag else if nd.next <= j then Endless else NextTag(s, nd.next)
        else if s[t.l] == '/' then NextTag(s, n) == CloseTag(j, t.next)
        else NextTag(s, n) == if FindChar(s, t.next, '>') == |s| then NoTag
            else OpenTag(j, TokenText(s, t), FindChar(s, t.next, '>'))
  {
    hide FindToken, ParseNode, FindChar, TokenText;
  }

  /** The start tag loop depends on its starting point only through the next `<`. */
  lemma NextTagFrom(s: string, n: nat, m: nat)
    requires n <= |s| && m <= |s| && FindChar(s, n, '<') == FindChar(s, m, '<')
    ensures NextTag(s, n) == NextTag(s, m)
  {
    hide FindToken, ParseNode, FindChar, TokenText;
  }

  /** Scanning from before a gap is scanning from after it. */
  lemma {:induction false} GapPasses(g: string, doc: string, u: nat, n: nat)
    requires n <= |g| && GapOK(g, n) && Same(g, doc, u, n, |g|)
    ensures NextTag(doc, u + n) == NextTag(doc, u + |g|)
    decreases |g| - n
  {
    hide *;
    var j := FindChar(g, n, '<');
    FindBounds(g, n, '<');
    SameBounds(g, doc, u, n, |g|);
    FindCharLocal(g, doc, u, n, |g|, '<');
    GapTurn(g, n);
    if j < |g| {
      SameNarrow(g, doc, u, n, |g|, j, |g|);
      ParseNodeLocal(g, doc, u, j, |g|);
      NextTagStep(doc, u + n);
      MiscIsLong(g, j);
      NodeBounds(g, j);
      SameNarrow(g, doc, u, n, |g|, ParseNode(g, j).next, |g|);
      GapPasses(g, doc, u, ParseNode(g, j).next);
    } else {
      NextTagFrom(doc, u + n, u + |g|);
    }
  }

  lemma {:induction false} GapOKLocal(g: string, h: string, d: int, n: nat)
    requires n <= |g| && GapOK(g, n) && Same(g, h, d, n, |g|) && |h| == |g| + d
    ensures GapOK(h, n + d)
    decreases |g| - n
  {
    hide FindToken, ParseNode, FindChar, NextTag;
    var j := FindChar(g, n, '<');
    FindCharLocal(g, h, d, n, |g|, '<');
    if j < |g| {
      ParseNodeLocal(g, h, d, j, |g|);
      GapOKLocal(g, h, d, ParseNode(g, j).next);
    }
  }

  /** Where the start tag loop stops, the text before is a gap. */
  lemma {:induction false} NextTagGap(s: string, n: nat, l: nat)
    requires n <= |s|
    requires NextTag(s, n).OpenTag? || NextTag(s, n).CloseTag?
    requires l == NextTag(s, n).l
    ensures GapOK(s[..l], n) && NextTag(s, l) == NextTag(s, n)
    decreases |s| - n
  {
    hide *;
    var j := FindChar(s, n, '<');
    var g := s[..l];
    NextTagStep(s, n);
    TagBounds(s, n);
    FrontSame(s, n, l);
    if j < |s| && IsMisc(ParseNode(s, j).kind) {
      MiscIsLong(s, j);
      TagBounds(s, ParseNode(s, j).next);
      NextTagGap(s, ParseNode(s, j).next, l);
      FindCharLocal(s, g, 0, n, l, '<');
      ParseNodeLocal(s, g, 0, j, l);
      GapTurn(g, n);
    } else {
      FindCharLocal(s, g, 0, n, l, '<');
      FindHere(s, l, '<');
      FindBounds(g, n, '<');
      GapTurn(g, n);
      NextTagFrom(s, n, l);
    }
  }

  lemma TagBounds(s: string, n: nat)
    requires n <= |s|
    ensures NextTag(s, n).OpenTag? || NextTag(s, n).CloseTag? ==>
        n <= NextTag(s, n).l < |s| && s[NextTag(s, n).l] == '<'
    ensures n <= FindChar(s, n, '<') <= |s|
  {
    hide NextTag, FindChar;
  }

  lemma SameBounds(s: string, t: string, d: int, n: nat, b: nat)
    requires Same(s, t, d, n, b)
    ensures n <= b <= |s| && 0 <= n + d && b + d <= |t|
  {
  }

  lemma NodeBounds(s: string, n: nat)
    requires n <= |s|
    ensures n <= ParseNode(s, n).next <= |s|
  {
    hide ParseNode;
  }

  lemma FindBounds(s: string, n: nat, c: char)
    requires n <= |s|
    ensures n <= FindChar(s, n, c) <= |s|
  {
    hide FindChar;
  }

  lemma FindHere(s: string, n: nat, c: char)
    requires n < |s| && s[n] == c
    ensures FindChar(s, n, c) == n
  {
  }

  lemma FrontSame(s: string, n: nat, l: nat)
    requires n <= l <= |s|
    ensures Same(s, s[..l], 0, n, l)
  {
  }

  /** One step of the gap test. */
  lemma GapTurn(g: string, n: nat)
    requires n <= |g|
    ensures var j := FindChar(g, n, '<');
      GapOK(g, n) <==> j == |g| || (IsMisc(ParseNode(g, j).kind) && GapOK(g, ParseNode(g, j).next))
  {
    hide FindToken, ParseNode, FindChar;
  }

  lemma GapSlice(s: string, n: nat, l: nat)
    requires n <= |s|
    requires NextTag(s, n).OpenTag? || NextTag(s, n).CloseTag?
    requires l == NextTag(s, n).l
    ensures GapOK(s[n..l], 0) && NextTag(s, l) == NextTag(s, n)
  {
    hide NextTag;
    NextTagGap(s, n, l);
    var d: int := 0 - n;
    GapOKLocal(s[..l], s[n..l], d, n);
  }

  // ---- tags ----

  /** The part of the start tag loop after the `<`. */
  lemma NextTagHere(s: string, n: nat)
    requires n < |s| && s[n] == '<'
    ensures var t := FindToken(s, n + 1);
      && (NextTag(s, n).OpenTag? && NextTag(s, n).l == n <==>
          t.found && !t.isString && s[t.l] != '?' && s[t.l] != '!' && s[t.l] != '/' && FindChar(s, t.next, '>') < |s|)
      && (NextTag(s, n).OpenTag? && NextTag(s, n).l == n ==> NextTag(s, n) == OpenTag(n, TokenText(s, t),
          FindChar(s, t.next, '>')))
      && (NextTag(s, n).CloseTag? && NextTag(s, n).l == n <==> t.found && !t.isString && s[t.l] == '/')
      && (NextTag(s, n).CloseTag? && NextTag(s, n).l == n ==> NextTag(s, n) == CloseTag(n, t.next))
  {
    hide FindToken, ParseNode, TokenText;
    assert FindChar(s, n, '<') == n;
  }

  lemma OpenLocal(s: string, t: string, d: int, n: nat, b: nat)
    requires Same(s, t, d, n, b)
    requires NextTag(s, n).OpenTag? && NextTag(s, n).l == n && NextTag(s, n).r < b
    ensures NextTag(t, n + d) == OpenTag(n + d, NextTag(s, n).name, NextTag(s, n).r + d)
  {
    hide FindToken, FindChar, NextTag;
    assert s[n] == t[n + d];
    NextTagHere(s, n);
    NextTagHere(t, n + d);
    var k := FindToken(s, n + 1);
    FindTokenLocal(s, t, d, n + 1, b);
    FindCharLocal(s, t, d, k.next, b, '>');
    SameSub(s, t, d, n, b, k.l, k.r + 1);
    assert s[k.l] == t[k.l + d];
  }

  lemma CloseLocal(s: string, t: string, d: int, n: nat, b: nat)
    requires Same(s, t, d, n, b)
    requires NextTag(s, n).CloseTag? && NextTag(s, n).l == n && NextTag(s, n).next <= b
    ensures NextTag(t, n + d) == CloseTag(n + d, NextTag(s, n).next + d)
  {
    hide FindToken, FindChar, NextTag;
    assert s[n] == t[n + d];
    NextTagHere(s, n);
    NextTagHere(t, n + d);
    FindTokenLocal(s, t, d, n + 1, b);
    var k := FindToken(s, n + 1);
    assert s[k.l] == t[k.l + d];
  }

  /** One turn of the end tag loop. */
  lemma EndTagStep(s: string, n: nat, count: nat, name: string)
    requires n <= |s|
    ensures var k := FindToken(s, n);
      EndTag(s, n, count, name) ==
        if !k.found then None
        else if k.isString then EndTag(s, k.next, count + 1, name)
        else if (count == 0 && s[k.l] != '/') || (count == 1 && !Match(TokenText(s, k), name)) then None
        else if count > 0 && s[k.l] == '>' then Some(k.l)
        else EndTag(s, k.next, count + 1, name)
  {
    hide FindToken, Match, TokenText;
  }

  lemma {:induction false} EndTagLocal(s: string, t: string, d: int, n: nat, b: nat, count: nat, name: string)
    requires Same(s, t, d, n, b)
    requires EndTag(s, n, count, name).Some? && EndTag(s, n, count, name).value < b
    ensures EndTag(t, n + d, count, name) == Some(EndTag(s, n, count, name).value + d)
    decreases |s| - n
  {
    hide FindToken, Match, TokenText, EndTag;
    var k := FindToken(s, n);
    EndTagStep(s, n, count, name);
    SameToken(s, t, d, n, b);
    EndTagStep(t, n + d, count, name);
    if k.isString || !(count > 0 && s[k.l] == '>') {
      EndTagLocal(s, t, d, k.next, b, count + 1, name);
    }
  }
}
