/**
  The scanner's loops, as the source runs them, each proved to compute its function.
 */
module ScanLoops {
  import opened Scanner

  /** `x_FindChar`: returns whether the character was found, and where. */
  method ScanChar(s: string, nFrom: nat, c: char) returns (found: bool, nChar: nat)
    requires nFrom <= |s|
    ensures nChar == FindChar(s, nFrom, c) && found == (nChar < |s|)
  {
    nChar := nFrom;
    while nChar < |s| && s[nChar] != c
      invariant nFrom <= nChar <= |s| && FindChar(s, nChar, c) == FindChar(s, nFrom, c)
    {
      nChar := nChar + 1;
    }
    found := nChar < |s|;
  }

  /** `x_FindToken`. */
  method ScanToken(s: string, nNext: nat) returns (token: Token)
    requires nNext <= |s|
    ensures token == FindToken(s, nNext)
  {
    var nChar := nNext;
    while nChar < |s| && IsSpace(s[nChar])
      invariant nNext <= nChar <= |s| && SkipSpace(s, nChar) == SkipSpace(s, nNext)
    {
      nChar := nChar + 1;
    }
    if nChar == |s| {
      return Token(false, nChar, nChar, nChar, false);
    }
    var cFirstChar := s[nChar];
    if cFirstChar == '\"' || cFirstChar == '\'' {
      nChar := nChar + 1;
      var nL := nChar;
      var found;
      found, nChar := ScanChar(s, nChar, cFirstChar);
      var nR := nChar - 1;
      if found {
        nChar := nChar + 1;
      }
      return Token(true, nL, nR, nChar, true);
    }
    var nL := nChar;
    while nChar < |s| && IsWordChar(s[nChar])
      invariant nL <= nChar <= |s| && WordEnd(s, nChar) == WordEnd(s, nL)
    {
      nChar := nChar + 1;
    }
    if nChar == nL {
      nChar := nChar + 1;
    }
    return Token(true, nL, nChar - 1, nChar, false);
  }

  /** `x_ParseNode`. */
  method ScanNode(s: string, nNext: nat) returns (node: Node)
    requires nNext <= |s|
    ensures node == ParseNode(s, nNext)
  {
    hide FindToken;
    if nNext == |s| {
      return Node(NoNode, nNext);
    }
    if s[nNext] != '<' {
      var token := ScanToken(s, nNext);
      if !token.found {
        return Node(WhitespaceNode, token.next);
      }
      if token.l < |s| && s[token.l] == '<' {
        return Node(WhitespaceNode, token.l);
      }
      var found, nChar := ScanChar(s, token.next, '<');
      return Node(TextNode, nChar);
    }
    if nNext + 2 >= |s| {
      return Node(NoNode, nNext);
    }
    var cFirstChar := s[nNext + 1];
    if cFirstChar == '?' {
      return After(s, nNext, "?>", ProcNode);
    } else if cFirstChar == '!' {
      var cSecondChar := s[nNext + 2];
      if cSecondChar == '[' {
        return After(s, nNext, "]]>", CDataNode);
      } else if cSecondChar == '-' {
        return After(s, nNext, "-->", CommentNode);
      } else {
        node := ScanDocType(s, nNext);
      }
    } else if cFirstChar == '/' {
      return Node(NoNode, nNext);
    } else {
      return Node(ElementNode, nNext);
    }
  }

  /** The document type loop of `x_ParseNode`. */
  method ScanDocType(s: string, n: nat) returns (node: Node)
    requires n <= |s|
    ensures node == match DocTypeEnd(s, n, 0) case None => Node(NoNode, n) case Some(e) => Node(DocTypeNode, e)
  {
    hide FindToken;
    var nNext, nBrackets := n, 0;
    while true
      invariant n <= nNext <= |s| && DocTypeEnd(s, nNext, nBrackets) == DocTypeEnd(s, n, 0)
      decreases |s| - nNext
    {
      var token := ScanToken(s, nNext);
      if !token.found {
        return Node(NoNode, n);
      }
      if !token.isString {
        var cChar := s[token.l];
        if cChar == '[' {
          nBrackets := nBrackets + 1;
        } else if cChar == ']' {
          nBrackets := nBrackets - 1;
        } else if nBrackets == 0 && cChar == '>' {
          return Node(DocTypeNode, token.next);
        }
      }
      nNext := token.next;
    }
  }
}
