/**
  What the scanner reads.  Every scanner function that comes to a definite answer
  inside a window of the text gives the same answer, shifted, in any other text
  that has the same characters in that window.  All facts about moving and
  splicing document text go through these lemmas.
 */
module Locality {
  import opened Scanner

  /** `s[a..b]` reads the same as `t[a+d..b+d]`. */
  ghost predicate Same(s: string, t: string, d: int, a: nat, b: nat) {
    a <= b <= |s| && 0 <= a + d && b + d <= |t| && forall i {:trigger s[i]} :: a <= i < b ==> s[i] == t[i + d]
  }

  lemma SameNarrow(s: string, t: string, d: int, a: nat, b: nat, a': nat, b': nat)
    requires Same(s, t, d, a, b) && a <= a' <= b' <= b
    ensures Same(s, t, d, a', b')
  {
  }

  lemma SameSub(s: string, t: string, d: int, a: nat, b: nat, a': nat, b': nat)
    requires Same(s, t, d, a, b) && a <= a' <= b' <= b
    ensures Same(s, t, d, a', b')
    ensures s[a'..b'] == t[a' + d..b' + d]
  {
    assert |s[a'..b']| == |t[a' + d..b' + d]|;
    forall i | 0 <= i < b' - a'
      ensures s[a'..b'][i] == t[a' + d..b' + d][i]
    {
      assert s[a' + i] == t[a' + i + d];
    }
  }

  lemma SameAt(s: string, t: string, d: int, a: nat, b: nat, i: nat)
    requires Same(s, t, d, a, b) && a <= i < b
    ensures s[i] == t[i + d]
  {
  }

  /** A text found as a piece of another. */
  lemma SameEmbed(s: string, t: string, u: nat)
    requires u + |s| <= |t| && t[u..u + |s|] == s
    ensures Same(s, t, u, 0, |s|)
  {
    forall i {:trigger s[i]} | 0 <= i < |s|
      ensures s[i] == t[i + u]
    {
      assert s[i] == t[u..u + |s|][i];
    }
  }

  lemma {:induction false} FindCharLocal(s: string, t: string, d: int, n: nat, b: nat, c: char)
    requires Same(s, t, d, n, b)
    ensures FindChar(s, n, c) < b ==> FindChar(t, n + d, c) == FindChar(s, n, c) + d
    ensures FindChar(s, n, c) >= b ==> FindChar(t, n + d, c) >= b + d && FindChar(t, n + d, c) == FindChar(t, b + d, c)
    decreases b - n
  {
    if n < b {
      assert s[n] == t[n + d];
      if s[n] != c { FindCharLocal(s, t, d, n + 1, b, c); }
    }
  }

  lemma {:induction false} SkipSpaceLocal(s: string, t: string, d: int, n: nat, b: nat)
    requires Same(s, t, d, n, b) && SkipSpace(s, n) < b
    ensures SkipSpace(t, n + d) == SkipSpace(s, n) + d
    decreases b - n
  {
    assert s[n] == t[n + d];
    if IsSpace(s[n]) { SkipSpaceLocal(s, t, d, n + 1, b); }
  }

  lemma {:induction false} WordEndLocal(s: string, t: string, d: int, n: nat, b: nat)
    requires Same(s, t, d, n, b) && WordEnd(s, n) < b
    ensures WordEnd(t, n + d) == WordEnd(s, n) + d
    decreases b - n
  {
    assert s[n] == t[n + d];
    if IsWordChar(s[n]) { WordEndLocal(s, t, d, n + 1, b); }
  }

  lemma {:induction false} FindStrLocal(s: string, t: string, d: int, n: nat, b: nat, pat: string)
    requires Same(s, t, d, n, b)
    requires FindStr(s, n, pat).Some? && FindStr(s, n, pat).value + |pat| <= b
    ensures FindStr(t, n + d, pat) == Some(FindStr(s, n, pat).value + d)
    decreases b - n
  {
    hide OccursAt;
    FindStrBounds(s, n, pat);
    OccursLocal(s, t, d, n, b, pat);
    if !OccursAt(s, n, pat) {
      SameNarrow(s, t, d, n, b, n + 1, b);
      FindStrLocal(s, t, d, n + 1, b, pat);
    }
  }

  lemma FindStrBounds(s: string, n: nat, pat: string)
    requires n <= |s| && FindStr(s, n, pat).Some?
    ensures n <= FindStr(s, n, pat).value && (!OccursAt(s, n, pat) ==> n < FindStr(s, n, pat).value)
  {
  }

  lemma OccursLocal(s: string, t: string, d: int, n: nat, b: nat, pat: string)
    requires Same(s, t, d, n, b) && n + |pat| <= b
    ensures OccursAt(s, n, pat) <==> OccursAt(t, n + d, pat)
  {
    SameSub(s, t, d, n, b, n, n + |pat|);
  }

  /** Tokens: a token followed by another character of the window, or ended by
      itself (a special character), is the same in both texts. */
  ghost predicate Closed(s: string, t: Token, b: nat) {
    t.found && (t.next < b || (t.next <= b && !t.isString && t.l < |s| && IsSpecial(s[t.l])))
  }

  function Shift(t: Token, d: int): Token
    requires 0 <= t.l + d && 0 <= t.next + d
  {
    Token(t.found, t.l + d, t.r + d, t.next + d, t.isString)
  }

  lemma FindTokenLocal(s: string, t: string, d: int, n: nat, b: nat)
    requires Same(s, t, d, n, b) && Closed(s, FindToken(s, n), b)
    ensures FindToken(t, n + d) == Shift(FindToken(s, n), d)
  {
    var a := SkipSpace(s, n);
    SkipSpaceLocal(s, t, d, n, b);
    assert s[a] == t[a + d];
    SameSub(s, t, d, n, b, a, b);
    if IsQuote(s[a]) {
      SameSub(s, t, d, n, b, a + 1, b);
      FindCharLocal(s, t, d, a + 1, b, s[a]);
    } else if IsSpecial(s[a]) {
      assert WordEnd(s, a) == a && WordEnd(t, a + d) == a + d;
    } else {
      WordEndLocal(s, t, d, a, b);
    }
  }

  /** A token, its text and its first character. */
  lemma SameToken(s: string, t: string, d: int, n: nat, b: nat)
    requires Same(s, t, d, n, b) && Closed(s, FindToken(s, n), b)
    ensures FindToken(t, n + d) == Shift(FindToken(s, n), d)
    ensures var k := FindToken(s, n); !k.isString ==>
        s[k.l] == t[k.l + d] && TokenText(s, k) == TokenText(t, Shift(k, d))
  {
    hide FindToken;
    FindTokenLocal(s, t, d, n, b);
    var k := FindToken(s, n);
    if !k.isString {
      assert s[k.l] == t[k.l + d];
      SameSub(s, t, d, n, b, k.l, k.r + 1);
    }
  }

  /** How the bracket depth goes on after a word or special character. */
  function Brackets(c: char, depth: int): int {
    if c == '[' then depth + 1 else if c == ']' then depth - 1 else depth
  }

  /** One turn of the document type loop. */
  lemma DocTypeStep(s: string, n: nat, brackets: int)
    requires n <= |s|
    ensures var k := FindToken(s, n);
      DocTypeEnd(s, n, brackets) ==
        if !k.found then None
        else if k.isString then DocTypeEnd(s, k.next, brackets)
        else if brackets == 0 && s[k.l] == '>' then Some(k.next)
        else DocTypeEnd(s, k.next, Brackets(s[k.l], brackets))
  {
    hide FindToken;
  }

  lemma {:induction false} DocTypeEndLocal(s: string, t: string, d: int, n: nat, b: nat, brackets: int)
    requires Same(s, t, d, n, b)
    requires DocTypeEnd(s, n, brackets).Some? && DocTypeEnd(s, n, brackets).value <= b
    ensures DocTypeEnd(t, n + d, brackets) == Some(DocTypeEnd(s, n, brackets).value + d)
    decreases |s| - n
  {
    hide FindToken, TokenText, DocTypeEnd;
    var k := FindToken(s, n);
    DocTypeStep(s, n, brackets);
    SameToken(s, t, d, n, b);
    DocTypeStep(t, n + d, brackets);
    if k.isString || !(brackets == 0 && s[k.l] == '>') {
      DocTypeEndLocal(s, t, d, k.next, b, if k.isString then brackets else Brackets(s[k.l], brackets));
    }
  }

  lemma ParseNodeLocal(s: string, t: string, d: int, n: nat, b: nat)
    requires Same(s, t, d, n, b)
    requires IsMisc(ParseNode(s, n).kind) && ParseNode(s, n).next <= b
    ensures ParseNode(t, n + d) == Node(ParseNode(s, n).kind, ParseNode(s, n).next + d)
  {
    assert s[n] == t[n + d];
    MiscIsLong(s, n);
    assert s[n + 1] == t[n + 1 + d] && s[n + 2] == t[n + 2 + d];
    if s[n + 1] == '?' { FindStrLocal(s, t, d, n, b, "?>"); }
    else if s[n + 2] == '[' { FindStrLocal(s, t, d, n, b, "]]>"); }
    else if s[n + 2] == '-' { FindStrLocal(s, t, d, n, b, "-->"); }
    else { DocTypeEndLocal(s, t, d, n, b, 0); }
  }

  lemma MiscIsLong(s: string, n: nat)
    requires n <= |s| && IsMisc(ParseNode(s, n).kind)
    ensures n + 3 <= ParseNode(s, n).next
    ensures s[n] == '<' && (s[n + 1] == '?' || s[n + 1] == '!')
  {
    if s[n + 1] == '?' {
      var i := FindStr(s, n, "?>").value;
      assert s[i..i + 2] == "?>";
      assert s[i] == s[i..i + 2][0] == '?';
    } else if s[n + 2] == '[' {
      var i := FindStr(s, n, "]]>").value;
      assert s[i..i + 3] == "]]>";
    } else if s[n + 2] == '-' {
      var i := FindStr(s, n, "-->").value;
      assert s[i..i + 3] == "-->";
    } else {
      DocTypeIsLong(s, n);
    }
  }

  lemma DocTypeIsLong(s: string, n: nat)
    requires n + 2 < |s| && s[n] == '<' && s[n + 1] == '!' && DocTypeEnd(s, n, 0).Some?
    ensures n + 3 <= DocTypeEnd(s, n, 0).value
  {
    SpecialToken(s, n);
    SpecialToken(s, n + 1);
    assert DocTypeEnd(s, n, 0) == DocTypeEnd(s, n + 1, 0) == DocTypeEnd(s, n + 2, 0);
  }
}
