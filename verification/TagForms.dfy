/**
  What the scanner and the parser take for a node, a start tag and an end tag, in plain
  terms: exact forms of the functions that the loops compute.
 */
module TagForms {
  import opened Scanner
  import opened Parser
  import opened ParserProofs
  import opened Gaps
  import opened Attribs

  // ---- nodes ----

  /** `r` is a node of this kind up to the first `pat` from `n` on, or none if there is no `pat`. */
  ghost predicate EndsWith(s: string, n: nat, pat: string, kind: NodeKind, r: Node) {
    if exists i :: n <= i <= |s| && OccursAt(s, i, pat) then
      && r.kind == kind && n + |pat| <= r.next <= |s| && OccursAt(s, r.next - |pat|, pat)
      && forall i :: n <= i < r.next - |pat| ==> !OccursAt(s, i, pat)
    else r.kind == NoNode
  }

  lemma AfterExactly(s: string, n: nat, pat: string, kind: NodeKind)
    requires n <= |s|
    ensures EndsWith(s, n, pat, kind, After(s, n, pat, kind))
  {
    FindStrFirst(s, n, pat);
    var f := FindStr(s, n, pat);
    if f.Some? { assert OccursAt(s, f.value, pat); }
  }

  /** What stands at a `<`. */
  lemma NodeExactly(s: string, n: nat)
    requires n < |s| && s[n] == '<'
    ensures var r := ParseNode(s, n);
      if n + 2 >= |s| then r.kind == NoNode
      else if s[n + 1] == '?' then EndsWith(s, n, "?>", ProcNode, r)
      else if s[n + 1] == '!' && s[n + 2] == '[' then EndsWith(s, n, "]]>", CDataNode, r)
      else if s[n + 1] == '!' && s[n + 2] == '-' then EndsWith(s, n, "-->", CommentNode, r)
      else if s[n + 1] == '!' then r.kind == NoNode || (r.kind == DocTypeNode && DocTypeEnd(s, n, 0) == Some(r.next))
      else if s[n + 1] == '/' then r.kind == NoNode
      else r.kind == ElementNode
  {
    hide After, DocTypeEnd, EndsWith;
    AfterExactly(s, n, "?>", ProcNode);
    AfterExactly(s, n, "]]>", CDataNode);
    AfterExactly(s, n, "-->", CommentNode);
  }

  /** A document type without quotes and brackets ends at the first `>`. */
  lemma {:induction false} DocTypeSimple(s: string, n: nat, e: nat)
    requires n <= e < |s| && s[e] == '>'
    requires forall i :: n <= i < e ==> s[i] != '>' && !IsQuote(s[i]) && s[i] != '[' && s[i] != ']'
    ensures DocTypeEnd(s, n, 0) == Some(e + 1)
    decreases e - n
  {
    hide FindToken;
    TokenIs(s, n);
    var t, a := FindToken(s, n), SkipSpace(s, n);
    assert a <= e;
    if a < e { DocTypeSimple(s, t.next, e); }
  }

  /** In brackets, and in a string, a `>` does not end it. */
  lemma DocTypeInner()
    ensures ParseNode("<!D [>] \'>\'>", 0) == Node(DocTypeNode, 12)
  {
    hide FindToken, DocTypeEnd;
    var s := "<!D [>] \'>\'>";
    DocTypeTokens();
    DocTypeTurn(s, 0, 0);
    DocTypeTurn(s, 1, 0);
    DocTypeTurn(s, 2, 0);
    DocTypeTurn(s, 3, 0);
    DocTypeTurn(s, 5, 1);
    DocTypeTurn(s, 6, 1);
    DocTypeTurn(s, 7, 0);
    DocTypeTurn(s, 11, 0);
  }

  lemma DocTypeTokens()
    ensures var s := "<!D [>] \'>\'>";
      && FindToken(s, 0) == Token(true, 0, 0, 1, false) && FindToken(s, 1) == Token(true, 1, 1, 2, false)
      && FindToken(s, 2) == Token(true, 2, 2, 3, false) && FindToken(s, 3) == Token(true, 4, 4, 5, false)
      && FindToken(s, 5) == Token(true, 5, 5, 6, false) && FindToken(s, 6) == Token(true, 6, 6, 7, false)
      && FindToken(s, 7) == Token(true, 9, 9, 11, true) && FindToken(s, 11) == Token(true, 11, 11, 12, false)
  {
    hide FindToken;
    var s := "<!D [>] \'>\'>";
    SpecialToken(s, 0);
    SpecialToken(s, 1);
    SpecialToken(s, 5);
    SpecialToken(s, 11);
    OneCharToken(s, 2, 2);
    OneCharToken(s, 3, 4);
    OneCharToken(s, 6, 6);
    OneCharString(s, 7, 8);
  }

  lemma OneCharToken(s: string, n: nat, a: nat)
    requires n <= a <= n + 1 && a + 1 < |s| && (a > n ==> IsSpace(s[n])) && IsWordChar(s[a]) && !IsQuote(s[a])
        && !IsWordChar(s[a + 1])
    ensures FindToken(s, n) == Token(true, a, a, a + 1, false)
  {
    assert SkipSpace(s, a) == a && WordEnd(s, a + 1) == a + 1;
  }

  lemma OneCharString(s: string, n: nat, a: nat)
    requires a == n + 1 && a + 2 < |s| && IsSpace(s[n]) && IsQuote(s[a]) && s[a + 1] != s[a] && s[a + 2] == s[a]
    ensures FindToken(s, n) == Token(true, a + 1, a + 1, a + 3, true)
  {
    assert SkipSpace(s, a) == a;
    assert FindChar(s, a + 2, s[a]) == a + 2;
  }

  lemma DocTypeTurn(s: string, n: nat, brackets: int)
    requires n <= |s|
    ensures var t := FindToken(s, n);
      DocTypeEnd(s, n, brackets) ==
        if !t.found then None
        else if t.isString then DocTypeEnd(s, t.next, brackets)
        else if s[t.l] == '[' then DocTypeEnd(s, t.next, brackets + 1)
        else if s[t.l] == ']' then DocTypeEnd(s, t.next, brackets - 1)
        else if brackets == 0 && s[t.l] == '>' then Some(t.next)
        else DocTypeEnd(s, t.next, brackets)
  {
    hide FindToken;
  }

  // ---- start tags ----

  /** A start tag is `<`, a name, and what follows up to the first `>` behind the name; an end
      tag is `<` and a slash. */
  ghost predicate TagForm(s: string, n: nat, x: Lex) {
    match x
    case OpenTag(l, name, r) =>
      && n <= l < |s| && s[l] == '<'
      && var t := FindToken(s, l + 1);
         && t.found && !t.isString && s[t.l] !in "/?!" && name == s[t.l..t.r + 1]
         && t.next <= r < |s| && s[r] == '>' && forall i :: t.next <= i < r ==> s[i] != '>'
    case CloseTag(l, next) =>
      && n <= l < |s| && s[l] == '<'
      && var t := FindToken(s, l + 1);
         t.found && !t.isString && s[t.l] == '/' && next == t.next
    case _ => true
  }

  /** What the start tag loop finds. */
  lemma {:induction false} NextTagExactly(s: string, n: nat)
    requires n <= |s|
    ensures TagForm(s, n, NextTag(s, n))
    decreases |s| - n
  {
    hide *;
    NextTagTurn(s, n);
    var j := FindChar(s, n, '<');
    FoundChar(s, n);
    if j < |s| {
      var t := FindToken(s, j + 1);
      if t.found && !t.isString {
        if s[t.l] == '?' || s[t.l] == '!' {
          var nd := ParseNode(s, j);
          if nd.kind != NoNode && nd.next > j {
            NextTagExactly(s, nd.next);
            FormLater(s, n, nd.next, NextTag(s, n));
          }
        } else {
          FormHere(s, n, j, t, NextTag(s, n));
        }
      }
    }
    NoForm(s, n);
  }

  lemma FoundChar(s: string, n: nat)
    requires n <= |s|
    ensures var j := FindChar(s, n, '<'); n <= j <= |s| && (j < |s| ==> s[j] == '<')
  {
  }

  lemma FormLater(s: string, n: nat, m: nat, x: Lex)
    requires n <= m && TagForm(s, m, x)
    ensures TagForm(s, n, x)
  {
    hide FindToken;
  }

  lemma NoForm(s: string, n: nat)
    ensures TagForm(s, n, NoTag) && TagForm(s, n, Endless)
  {
  }

  lemma FormHere(s: string, n: nat, j: nat, t: Token, x: Lex)
    requires n <= j < |s| && s[j] == '<' && t == FindToken(s, j + 1) && t.found && !t.isString
        && s[t.l] != '?' && s[t.l] != '!'
    requires x == if s[t.l] == '/' then CloseTag(j, t.next)
        else if FindChar(s, t.next, '>') == |s| then NoTag
        else OpenTag(j, TokenText(s, t), FindChar(s, t.next, '>'))
    ensures TagForm(s, n, x)
  {
    hide FindToken;
    FindCharFirst(s, t.next, '>');
  }

  // ---- end tags ----

  /** The first `>` that is a token of its own. */
  function Bracket(s: string, n: nat): Option<nat>
    requires n <= |s|
    decreases |s| - n
  {
    var t := FindToken(s, n);
    if !t.found then None else if !t.isString && s[t.l] == '>' then Some(t.l) else Bracket(s, t.next)
  }

  /** The end tag loop: a slash, then a name that matches, then whatever there is up to the
      next `>`.  A string in the place of the slash or of the name is not looked at. */
  lemma EndTagExactly(s: string, n: nat, name: string)
    requires n <= |s|
    ensures var t := FindToken(s, n);
      var u := FindToken(s, t.next);
      EndTag(s, n, 0, name) ==
        if t.found && (t.isString || s[t.l] == '/') && u.found && (u.isString || Match(s[u.l..u.r + 1], name))
        then Bracket(s, t.next) else None
  {
    hide FindToken, Match;
    var t := FindToken(s, n);
    if t.found && (t.isString || s[t.l] == '/') {
      var u := FindToken(s, t.next);
      if u.found { BracketLater(s, u.next, 2, name); }
    }
  }

  lemma {:induction false} BracketLater(s: string, n: nat, count: nat, name: string)
    requires n <= |s| && count >= 2
    ensures EndTag(s, n, count, name) == Bracket(s, n)
    decreases |s| - n
  {
    hide FindToken;
    var t := FindToken(s, n);
    if t.found && (t.isString || s[t.l] != '>') { BracketLater(s, t.next, count + 1, name); }
  }

  /** An end tag with a name closes the elements of that name, and no others. */
  lemma EndTagNames(name: string, other: string, ws: string)
    requires ValidName(name) && ValidName(other) && Blank(ws)
    ensures EndTag("</" + other + ws + ">", 1, 0, name).Some? <==> other == name
  {
    hide *;
    var s := "</" + other + ws + ">";
    SlashToken(s, other, ws);
    NameToken(s, other, ws);
    EndTagExactly(s, 1, name);
    MatchIs(other, name);
    BracketAt(s, other, ws);
  }

  lemma SlashToken(s: string, other: string, ws: string)
    requires s == "</" + other + ws + ">"
    ensures |s| > 2 && s[1] == '/' && FindToken(s, 1) == Token(true, 1, 1, 2, false)
  {
    SpecialToken(s, 1);
  }

  lemma NameToken(s: string, other: string, ws: string)
    requires ValidName(other) && Blank(ws) && s == "</" + other + ws + ">"
    ensures FindToken(s, 2) == Token(true, 2, 1 + |other|, 2 + |other|, false) && s[2..2 + |other|] == other
  {
    hide FindToken, ValidName;
    var e := 2 + |other|;
    assert s[2..e] == other;
    assert s[e] == if |ws| > 0 then ws[0] else '>';
    WordToken(s, 2, "", other);
  }

  lemma BracketAt(s: string, other: string, ws: string)
    requires ValidName(other) && Blank(ws) && s == "</" + other + ws + ">"
    ensures Bracket(s, 2) == Some(|s| - 1)
  {
    hide FindToken, ValidName;
    var e := 2 + |other|;
    NameToken(s, other, ws);
    NoBracket(other);
    assert s[e..e + |ws|] == ws && s[e + |ws|] == '>';
    BlankRun(s, e, ws);
    CloseToken(s, e, e + |ws|);
    assert s[2] == other[0];
  }

  lemma NoBracket(other: string)
    requires ValidName(other)
    ensures |other| > 0 && other[0] != '>'
  {
    assert IsWordChar(other[0]);
  }

  lemma CloseToken(s: string, n: nat, e: nat)
    requires n <= e < |s| && SkipSpace(s, n) == e && s[e] == '>'
    ensures FindToken(s, n) == Token(true, e, e, e + 1, false)
  {
    hide SkipSpace;
    assert WordEnd(s, e) == e;
  }

  /** An end tag with a quoted name closes any element. */
  lemma QuotedEnd(name: string)
    ensures EndTag("</\"b\">", 1, 0, name) == Some(5)
  {
    hide EndTag, Match, FindToken;
    var s := "</\"b\">";
    SpecialToken(s, 1);
    QuotedToken();
    EndTagExactly(s, 1, name);
    SpecialToken(s, 5);
  }

  lemma QuotedToken()
    ensures FindToken("</\"b\">", 2) == Token(true, 3, 3, 5, true)
  {
    var s := "</\"b\">";
    assert s[2] == '\"' && s[3] == 'b' && s[4] == '\"' && |s| == 6;
    assert SkipSpace(s, 2) == 2;
    assert FindChar(s, 4, '\"') == 4;
    assert FindChar(s, 3, '\"') == 4;
  }
}
