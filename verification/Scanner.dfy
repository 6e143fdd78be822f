/**
  The character scanner of the XML editor: the tokenizer and the node classifier.

  A C string is a `string`; the terminating NUL is the position `|s|`.  Each loop
  of the source is a method, proved equal to a recursive function whose own
  postcondition says which position it finds.
 */
module Scanner {

  datatype Option<+T> = None | Some(value: T)

  predicate IsSpace(c: char) { c == ' ' || c == '\t' || c == '\n' || c == '\r' }

  predicate IsSpecial(c: char) {
    c == '<' || c == '>' || c == '=' || c == '\\' || c == '/' || c == '?' || c == '!'
  }

  predicate IsQuote(c: char) { c == '\"' || c == '\'' }

  /** A maximal run of these characters is a word token. */
  predicate IsWordChar(c: char) { !IsSpace(c) && !IsSpecial(c) }

  // ---- searching ----

  /** The first position at or after `n` that holds `c`, or the end of the text. */
  function FindChar(s: string, n: nat, c: char): (r: nat)
    requires n <= |s|
    ensures n <= r <= |s|
    ensures r < |s| ==> s[r] == c
    decreases |s| - n
  {
    if n == |s| || s[n] == c then n else FindChar(s, n + 1, c)
  }

  /** The first position at or after `n` that is not whitespace, or the end. */
  function SkipSpace(s: string, n: nat): (r: nat)
    requires n <= |s|
    ensures n <= r <= |s|
    ensures r < |s| ==> !IsSpace(s[r])
    decreases |s| - n
  {
    if n == |s| || !IsSpace(s[n]) then n else SkipSpace(s, n + 1)
  }

  /** The end of the run of word characters that starts at `n`. */
  function WordEnd(s: string, n: nat): (r: nat)
    requires n <= |s|
    ensures n <= r <= |s|
    ensures r < |s| ==> !IsWordChar(s[r])
    decreases |s| - n
  {
    if n == |s| || !IsWordChar(s[n]) then n else WordEnd(s, n + 1)
  }

  predicate OccursAt(s: string, j: nat, pat: string) {
    j + |pat| <= |s| && s[j..j + |pat|] == pat
  }

  /** `strstr`: the first occurrence of `pat` at or after `n`. */
  function FindStr(s: string, n: nat, pat: string): (r: Option<nat>)
    requires n <= |s|
    ensures r.Some? ==> n <= r.value && OccursAt(s, r.value, pat)
    decreases |s| - n
  {
    if OccursAt(s, n, pat) then Some(n)
    else if n == |s| then None
    else FindStr(s, n + 1, pat)
  }

  /** All of them find the first such position. */
  lemma {:induction false} FindCharFirst(s: string, n: nat, c: char)
    requires n <= |s|
    ensures forall i :: n <= i < FindChar(s, n, c) ==> s[i] != c
    decreases |s| - n
  {
    if n < |s| && s[n] != c { FindCharFirst(s, n + 1, c); }
  }

  lemma {:induction false} SkipSpaceFirst(s: string, n: nat)
    requires n <= |s|
    ensures forall i :: n <= i < SkipSpace(s, n) ==> IsSpace(s[i])
    decreases |s| - n
  {
    if n < |s| && IsSpace(s[n]) { SkipSpaceFirst(s, n + 1); }
  }

  lemma {:induction false} WordEndFirst(s: string, n: nat)
    requires n <= |s|
    ensures forall i :: n <= i < WordEnd(s, n) ==> IsWordChar(s[i])
    decreases |s| - n
  {
    if n < |s| && IsWordChar(s[n]) { WordEndFirst(s, n + 1); }
  }

  lemma {:induction false} FindStrFirst(s: string, n: nat, pat: string)
    requires n <= |s|
    ensures forall j :: n <= j <= |s| && (FindStr(s, n, pat).Some? ==> j < FindStr(s, n, pat).value) ==>
        !OccursAt(s, j, pat)
    decreases |s| - n
  {
    if n < |s| && !OccursAt(s, n, pat) { FindStrFirst(s, n + 1, pat); }
  }

  // ---- tokens ----

  /** A token: characters `l..r` inclusive, scanning goes on at `next`. */
  datatype Token = Token(found: bool, l: nat, r: int, next: nat, isString: bool)

  /** The next token at or after `n`: a quoted string without its quotes, one
      special character, or a maximal word. */
  function FindToken(s: string, n: nat): (t: Token)
    requires n <= |s|
    ensures n <= t.l <= |s| && t.next <= |s|
    ensures t.found <==> SkipSpace(s, n) < |s|
    ensures !t.found ==> t.l == t.next == |s| && !t.isString
    ensures t.found ==> n < t.next && t.l <= t.r + 1 <= t.next
    ensures t.found && !t.isString ==> t.l < t.next == t.r + 1 && !IsSpace(s[t.l]) && !IsQuote(s[t.l])
    ensures t.found && !t.isString && IsSpecial(s[t.l]) ==> t.next == t.l + 1
    ensures t.found && t.isString ==> n < t.l
  {
    var a := SkipSpace(s, n);
    if a == |s| then Token(false, a, a, a, false)
    else
      if IsQuote(s[a]) then
        var e := FindChar(s, a + 1, s[a]);
        Token(true, a + 1, e - 1, if e < |s| then e + 1 else e, true)
      else
        var e := WordEnd(s, a);
        if e == a then Token(true, a, a, a + 1, false)
        else Token(true, a, e - 1, e, false)
  }

  lemma SpecialToken(s: string, n: nat)
    requires n < |s| && IsSpecial(s[n])
    ensures FindToken(s, n) == Token(true, n, n, n + 1, false)
  {
    assert SkipSpace(s, n) == n && WordEnd(s, n) == n;
  }

  lemma TokenIs(s: string, n: nat)
    requires n <= |s|
    ensures var t, a := FindToken(s, n), SkipSpace(s, n);
      && (forall i :: n <= i < a ==> IsSpace(s[i])) && (a < |s| ==> !IsSpace(s[a])) && (t.found <==> a < |s|)
      && (t.found && IsQuote(s[a]) ==>
            && t.isString && t.l == a + 1 && (forall i :: t.l <= i <= t.r ==> s[i] != s[a])
            && if t.r + 1 < |s| then s[t.r + 1] == s[a] && t.next == t.r + 2 else t.r + 1 == |s| == t.next)
      && (t.found && IsSpecial(s[a]) ==> t == Token(true, a, a, a + 1, false))
      && (t.found && IsWordChar(s[a]) && !IsQuote(s[a]) ==>
            && !t.isString && t.l == a && t.next == t.r + 1 && (forall i :: a <= i <= t.r ==> IsWordChar(s[i]))
            && (t.next < |s| ==> !IsWordChar(s[t.next])))
  {
    SkipSpaceFirst(s, n);
    var a := SkipSpace(s, n);
    if a < |s| {
      FindCharFirst(s, a + 1, s[a]);
      WordEndFirst(s, a);
    }
  }

  /** The characters meant. */
  lemma Classes(c: char)
    ensures IsSpace(c) <==> c in " \t\n\r"
    ensures IsSpecial(c) <==> c in "<>=\\/?!"
    ensures IsQuote(c) <==> c in "\"\'"
    ensures IsWordChar(c) <==> c !in " \t\n\r<>=\\/?!"
  {
  }

  /** What a token is: behind whitespace, a string up to the matching quote or the end, one
      special character, or a word up to the first whitespace or special character. */
  lemma TokenExactly(s: string, n: nat) returns (a: nat)
    requires n <= |s|
    ensures n <= a <= |s| && (forall i :: n <= i < a ==> s[i] in " \t\n\r") && (a < |s| ==> s[a] !in " \t\n\r")
    ensures var t := FindToken(s, n);
      && (t.found <==> a < |s|)
      && (t.found && s[a] in "\"\'" ==>
            && t.isString && t.l == a + 1 && (forall i :: t.l <= i <= t.r ==> s[i] != s[a])
            && if t.r + 1 < |s| then s[t.r + 1] == s[a] && t.next == t.r + 2 else t.r + 1 == |s| == t.next)
      && (t.found && s[a] in "<>=\\/?!" ==> t == Token(true, a, a, a + 1, false))
      && (t.found && s[a] !in "\"\'<>=\\/?!" ==>
            && !t.isString && t.l == a && t.next == t.r + 1
            && (forall i :: a <= i <= t.r ==> s[i] !in " \t\n\r<>=\\/?!")
            && (t.next < |s| ==> s[t.next] in " \t\n\r<>=\\/?!"))
  {
    hide *;
    a := SkipSpace(s, n);
    TokenIs(s, n);
    SpaceBound(s, n);
    forall i | 0 <= i < |s|
      ensures IsSpace(s[i]) <==> s[i] in " \t\n\r"
      ensures IsSpecial(s[i]) <==> s[i] in "<>=\\/?!"
      ensures IsQuote(s[i]) <==> s[i] in "\"\'"
      ensures IsWordChar(s[i]) <==> s[i] !in " \t\n\r<>=\\/?!"
    {
      Classes(s[i]);
    }
  }

  lemma SpaceBound(s: string, n: nat)
    requires n <= |s|
    ensures n <= SkipSpace(s, n) <= |s|
  {
  }

  /** The characters of a token. */
  function TokenText(s: string, t: Token): string
    requires t.l <= t.r + 1 <= |s|
  {
    s[t.l..t.r + 1]
  }

  /** `TokenPos::Match`: the token equals `name` up to one of the characters that
      end a name in a path. */
  predicate Match(tok: string, name: string) {
    |tok| <= |name| && name[..|tok|] == tok &&
    (|name| == |tok| || name[|tok|] == ' ' || name[|tok|] == '=' || name[|tok|] == '/' || name[|tok|] == '[')
  }

  // ---- nodes ----

  datatype NodeKind =
    | NoNode | ElementNode | TextNode | WhitespaceNode | CDataNode | ProcNode | CommentNode | DocTypeNode

  /** Nodes the parser passes over when it looks for an element. */
  predicate IsMisc(k: NodeKind) { k == CDataNode || k == ProcNode || k == CommentNode || k == DocTypeNode }

  datatype Node = Node(kind: NodeKind, next: nat)

  /** The position after the `>` that closes a document type, found by
      tokenizing because of its strings and brackets. */
  function DocTypeEnd(s: string, n: nat, brackets: int): (r: Option<nat>)
    requires n <= |s|
    ensures r.Some? ==> n < r.value <= |s|
    decreases |s| - n
  {
    var t := FindToken(s, n);
    if !t.found then None
    else if t.isString then DocTypeEnd(s, t.next, brackets)
    else if s[t.l] == '[' then DocTypeEnd(s, t.next, brackets + 1)
    else if s[t.l] == ']' then DocTypeEnd(s, t.next, brackets - 1)
    else if brackets == 0 && s[t.l] == '>' then Some(t.next)
    else DocTypeEnd(s, t.next, brackets)
  }

  function After(s: string, n: nat, pat: string, kind: NodeKind): (r: Node)
    requires n <= |s|
    ensures r.kind != NoNode ==> r.kind == kind && n + |pat| <= r.next <= |s|
  {
    match FindStr(s, n, pat)
    case None => Node(NoNode, n)
    case Some(i) => Node(kind, i + |pat|)
  }

  /** The kind of the node that starts at `n` and the position after it; an
      element, or an end tag, is not passed over. */
  function ParseNode(s: string, n: nat): (r: Node)
    requires n <= |s|
    ensures n <= r.next <= |s|
    ensures r.kind == NoNode || r.kind == ElementNode ==> r.next == n
    ensures r.kind != NoNode && r.kind != ElementNode ==> n < r.next
    ensures r.kind == TextNode || r.kind == WhitespaceNode <==> n < |s| && s[n] != '<'
  {
    if n == |s| then Node(NoNode, n)
    else if s[n] == '<' then
      if n + 2 >= |s| then Node(NoNode, n)
      else if s[n + 1] == '?' then After(s, n, "?>", ProcNode)
      else if s[n + 1] == '!' then
        if s[n + 2] == '[' then After(s, n, "]]>", CDataNode)
        else if s[n + 2] == '-' then After(s, n, "-->", CommentNode)
        else match DocTypeEnd(s, n, 0)
          case None => Node(NoNode, n)
          case Some(e) => Node(DocTypeNode, e)
      else if s[n + 1] == '/' then Node(NoNode, n)
      else Node(ElementNode, n)
    else
      var t := FindToken(s, n);
      if !t.found then Node(WhitespaceNode, t.next)
      else if t.l < |s| && s[t.l] == '<' then Node(WhitespaceNode, t.l)
      else Node(TextNode, FindChar(s, t.next, '<'))
  }
}
