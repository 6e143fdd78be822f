/**
  Text in a document: characters that would be taken for markup are written as
  references (section 4.6 of XML 1.0) and read back.
 */
module Escaping {
  import opened Scanner

  const SYMBOLS := "<&>\'\""

  function Symbol(k: nat): char
    requires k < 5
  {
    SYMBOLS[k]
  }

  /** The reference for symbol number `k`, without its ampersand. */
  function Code(k: nat): (r: string)
    requires k < 5
    ensures 3 <= |r| <= 5
  {
    if k == 0 then "lt;" else if k == 1 then "amp;" else if k == 2 then "gt;" else if k == 3 then "apos;" else "quot;"
  }

  /** The characters written as references; quotes only in attribute values. */
  function Finds(bAttrib: bool): string { if bAttrib then SYMBOLS else SYMBOLS[..3] }

  /** `strchr`: the place of `c` in `s`, or its length. */
  function IndexOf(s: string, c: char): (k: nat)
    ensures k <= |s| && (k < |s| ==> s[k] == c) && (k == |s| ==> c !in s)
  {
    if s == "" then 0 else if s[0] == c then 0 else 1 + IndexOf(s[1..], c)
  }

  /** What is written for one character. */
  function Written(c: char, bAttrib: bool): string {
    var k := IndexOf(Finds(bAttrib), c);
    if k < |Finds(bAttrib)| then "&" + Code(k) else [c]
  }

  function Escape(s: string, bAttrib: bool): string {
    if s == "" then "" else Written(s[0], bAttrib) + Escape(s[1..], bAttrib)
  }

  /** The first of the codes from number `m` on that `s` begins with after one character, or 5. */
  function CodeAt(s: string, m: nat): (k: nat)
    requires m <= 5
    ensures m <= k <= 5 && (k < 5 ==> |Code(k)| < |s| && s[1..1 + |Code(k)|] == Code(k))
    decreases 5 - m
  {
    if m == 5 then 5
    else if |Code(m)| < |s| && s[1..1 + |Code(m)|] == Code(m) then m
    else CodeAt(s, m + 1)
  }

  /** Reading text back.  An ampersand that begins no reference stands for itself. */
  function Unescape(s: string): string {
    if s == "" then ""
    else if s[0] == '&' && CodeAt(s, 0) < 5 then
      var k := CodeAt(s, 0);
      [Symbol(k)] + Unescape(s[1 + |Code(k)|..])
    else [s[0]] + Unescape(s[1..])
  }

  // ---- the loops ----

  /** `x_TextToDoc`. */
  method TextToDoc(szText: string, bAttrib: bool) returns (strResult: string)
    ensures strResult == Escape(szText, bAttrib)
  {
    strResult := "";
    var nSource := 0;
    while nSource < |szText|
      invariant nSource <= |szText|
      invariant strResult + Escape(szText[nSource..], bAttrib) == Escape(szText, bAttrib)
    {
      EscapeStep(szText, nSource, bAttrib, strResult);
      var nFound := IndexOf(Finds(bAttrib), szText[nSource]);
      if nFound < |Finds(bAttrib)| {
        strResult := strResult + ("&" + Code(nFound));
      } else {
        strResult := strResult + [szText[nSource]];
      }
      nSource := nSource + 1;
    }
  }

  lemma EscapeStep(s: string, n: nat, bAttrib: bool, front: string)
    requires n < |s|
    ensures front + Escape(s[n..], bAttrib) == (front + Written(s[n], bAttrib)) + Escape(s[n + 1..], bAttrib)
  {
    hide Written;
    assert s[n..][0] == s[n] && s[n..][1..] == s[n + 1..];
  }

  /** The inner loop of `x_TextFromDoc`: which code follows the ampersand. */
  method FindCode(strDoc: string, nChar: nat, nRight: int) returns (nMatch: nat)
    requires nChar <= nRight < |strDoc|
    ensures nMatch == CodeAt(strDoc[nChar..nRight + 1], 0)
    ensures nMatch < 5 ==> nChar + |Code(nMatch)| <= nRight
  {
    hide Code;
    ghost var w := strDoc[nChar..nRight + 1];
    nMatch := 0;
    while nMatch < 5
      invariant 0 <= nMatch <= 5 && CodeAt(w, 0) == CodeAt(w, nMatch)
    {
      CodeIn(strDoc, nChar, nRight + 1, Code(nMatch));
      if nChar <= nRight - |Code(nMatch)| && OccursAt(strDoc, nChar + 1, Code(nMatch)) {
        return;
      }
      nMatch := nMatch + 1;
    }
  }

  /** `x_TextFromDoc`, on the text from `nLeft` up to and including `nRight`. */
  method TextFromDoc(strDoc: string, nLeft: nat, nRight: int) returns (strResult: string)
    requires nLeft <= nRight + 1 <= |strDoc|
    ensures strResult == Unescape(strDoc[nLeft..nRight + 1])
  {
    hide Unescape, Code, CodeAt, Symbol;
    strResult := "";
    var nChar := nLeft;
    while nChar <= nRight
      invariant nLeft <= nChar <= nRight + 1
      invariant strResult + Unescape(strDoc[nChar..nRight + 1]) == Unescape(strDoc[nLeft..nRight + 1])
    {
      UnescapeStep(strDoc, nChar, nRight + 1, strResult);
      var cSource := strDoc[nChar];
      if cSource == '&' {
        var nMatch := FindCode(strDoc, nChar, nRight);
        if nMatch < 5 {
          cSource := Symbol(nMatch);
          nChar := nChar + |Code(nMatch)|;
        }
      }
      strResult := strResult + [cSource];
      nChar := nChar + 1;
    }
    NoChars(strDoc[nChar..nRight + 1], strResult);
  }

  lemma NoChars(s: string, front: string)
    requires s == ""
    ensures front + Unescape(s) == front
  {
  }

  lemma CodeIn(s: string, n: nat, e: nat, code: string)
    requires n < e <= |s|
    ensures n + |code| < e && OccursAt(s, n + 1, code) <==> |code| < |s[n..e]| && s[n..e][1..1 + |code|] == code
  {
    if n + |code| < e {
      var v, w := s[n..e][1..1 + |code|], s[n + 1..n + 1 + |code|];
      assert |v| == |w|;
      assert forall i :: 0 <= i < |v| ==> v[i] == w[i] == s[n + 1 + i];
    }
  }

  lemma UnescapeStep(s: string, n: nat, e: nat, front: string)
    requires n < e <= |s|
    ensures var k := CodeAt(s[n..e], 0);
      if s[n] == '&' && k < 5 then
        front + Unescape(s[n..e]) == (front + [Symbol(k)]) + Unescape(s[n + 1 + |Code(k)|..e])
      else front + Unescape(s[n..e]) == (front + [s[n]]) + Unescape(s[n + 1..e])
  {
    hide CodeAt, Unescape, Code, Symbol;
    var w := s[n..e];
    assert w[0] == s[n] && w[1..] == s[n + 1..e];
    UnescapeTurn(w);
    var k := CodeAt(w, 0);
    if k < 5 { assert w[1 + |Code(k)|..] == s[n + 1 + |Code(k)|..e]; }
  }

  /** One turn. */
  lemma UnescapeTurn(w: string)
    requires w != ""
    ensures var k := CodeAt(w, 0);
      Unescape(w) == if w[0] == '&' && k < 5 then [Symbol(k)] + Unescape(w[1 + |Code(k)|..])
          else [w[0]] + Unescape(w[1..])
  {
    hide *;
    var k := CodeAt(w, 0);
    if w[0] == '&' && k < 5 { UnescapeCode(w, k); } else { UnescapeChar(w); }
  }

  lemma UnescapeCode(w: string, k: nat)
    requires w != "" && w[0] == '&' && k == CodeAt(w, 0) < 5
    ensures Unescape(w) == [Symbol(k)] + Unescape(w[1 + |Code(k)|..])
  {
    hide CodeAt, Code, Symbol;
  }

  lemma UnescapeChar(w: string)
    requires w != "" && (w[0] == '&' ==> CodeAt(w, 0) == 5)
    ensures Unescape(w) == [w[0]] + Unescape(w[1..])
  {
    hide CodeAt, Code, Symbol;
  }

  // ---- what is promised ----

  /** What stands for what, in writing: with these, `Escape` is fixed for every text. */
  lemma EscapeMeans(s: string, c: char, bAttrib: bool)
    ensures Escape("", bAttrib) == ""
    ensures Escape("<" + s, bAttrib) == "&lt;" + Escape(s, bAttrib)
    ensures Escape("&" + s, bAttrib) == "&amp;" + Escape(s, bAttrib)
    ensures Escape(">" + s, bAttrib) == "&gt;" + Escape(s, bAttrib)
    ensures Escape("\'" + s, bAttrib) == (if bAttrib then "&apos;" else "\'") + Escape(s, bAttrib)
    ensures Escape("\"" + s, bAttrib) == (if bAttrib then "&quot;" else "\"") + Escape(s, bAttrib)
    ensures c !in "<&>\'\"" ==> Escape([c] + s, bAttrib) == [c] + Escape(s, bAttrib)
  {
    hide Escape, Written, Code;
    EscapeOne('<', s, bAttrib);
    EscapeOne('&', s, bAttrib);
    EscapeOne('>', s, bAttrib);
    EscapeOne('\'', s, bAttrib);
    EscapeOne('\"', s, bAttrib);
    EscapeOne(c, s, bAttrib);
    WrittenIs(bAttrib, c);
  }

  lemma EscapeOne(c: char, s: string, b: bool)
    ensures Escape([c] + s, b) == Written(c, b) + Escape(s, b)
    ensures Escape("", b) == ""
  {
    hide Written;
    assert ([c] + s)[1..] == s;
  }

  lemma WrittenIs(b: bool, c: char)
    ensures Written('<', b) == "&lt;" && Written('&', b) == "&amp;" && Written('>', b) == "&gt;"
    ensures Written('\'', b) == (if b then "&apos;" else "\'") && Written('\"', b) == (if b then "&quot;" else "\"")
    ensures c !in "<&>\'\"" ==> Written(c, b) == [c]
  {
    hide IndexOf;
    var f := Finds(b);
    assert f[0] == '<' && f[1] == '&' && f[2] == '>';
    IndexFirst(f, 0);
    IndexFirst(f, 1);
    IndexFirst(f, 2);
    if b {
      assert f[3] == '\'' && f[4] == '\"';
      IndexFirst(f, 3);
      IndexFirst(f, 4);
    }
    forall k | 0 <= k < |f| ensures f[k] in "<&>\'\"" { assert f[k] == SYMBOLS[k]; }
  }

  /** A character is found where it first stands. */
  lemma {:induction false} IndexFirst(s: string, k: nat)
    requires k < |s| && forall i :: 0 <= i < k ==> s[i] != s[k]
    ensures IndexOf(s, s[k]) == k
  {
    if k > 0 {
      assert s[0] != s[k];
      IndexFirst(s[1..], k - 1);
    }
  }

  /** The five references, as the standard names them. */
  predicate Reference(s: string) {
    "&lt;" <= s || "&amp;" <= s || "&gt;" <= s || "&apos;" <= s || "&quot;" <= s
  }

  /** What stands for what, in reading: with these, `Unescape` is fixed for every text. */
  lemma UnescapeMeans(s: string)
    ensures Unescape("") == ""
    ensures Unescape("&lt;" + s) == "<" + Unescape(s)
    ensures Unescape("&amp;" + s) == "&" + Unescape(s)
    ensures Unescape("&gt;" + s) == ">" + Unescape(s)
    ensures Unescape("&apos;" + s) == "\'" + Unescape(s)
    ensures Unescape("&quot;" + s) == "\"" + Unescape(s)
    ensures s != "" && !Reference(s) ==> Unescape(s) == [s[0]] + Unescape(s[1..])
  {
    hide *;
    NoChars("", "");
    CodesAre();
    UnescapeOne("&lt;" + s, s, 0);
    UnescapeOne("&amp;" + s, s, 1);
    UnescapeOne("&gt;" + s, s, 2);
    UnescapeOne("&apos;" + s, s, 3);
    UnescapeOne("&quot;" + s, s, 4);
    if s != "" && !Reference(s) { UnescapeOther(s); }
  }

  lemma CodesAre()
    ensures "&" + Code(0) == "&lt;" && Symbol(0) == '<'
    ensures "&" + Code(1) == "&amp;" && Symbol(1) == '&'
    ensures "&" + Code(2) == "&gt;" && Symbol(2) == '>'
    ensures "&" + Code(3) == "&apos;" && Symbol(3) == '\''
    ensures "&" + Code(4) == "&quot;" && Symbol(4) == '\"'
  {
  }

  lemma UnescapeOther(s: string)
    requires s != "" && !Reference(s)
    ensures Unescape(s) == [s[0]] + Unescape(s[1..])
  {
    hide *;
    UnescapeTurn(s);
    var k := CodeAt(s, 0);
    if s[0] == '&' && k < 5 { BeginsWith(s, k); }
  }

  lemma UnescapeOne(u: string, s: string, k: nat)
    requires k < 5 && u == "&" + Code(k) + s
    ensures Unescape(u) == [Symbol(k)] + Unescape(s)
  {
    hide *;
    assert u[1..1 + |Code(k)|] == Code(k) && u[1 + |Code(k)|..] == s;
    CodeFirst(u, k);
    UnescapeTurn(u);
  }

  lemma BeginsWith(s: string, k: nat)
    requires s != "" && s[0] == '&' && k < 5 && |Code(k)| < |s| && s[1..1 + |Code(k)|] == Code(k)
    ensures Reference(s)
  {
    assert s[..1 + |Code(k)|] == "&" + s[1..1 + |Code(k)|];
  }

  /** Reading a written character gives it back. */
  lemma WrittenRead(c: char, bAttrib: bool, w: string)
    ensures Unescape(Written(c, bAttrib) + w) == [c] + Unescape(w)
  {
    var u := Written(c, bAttrib) + w;
    var k := IndexOf(Finds(bAttrib), c);
    if k < |Finds(bAttrib)| {
      assert SYMBOLS[k] == c;
      assert u[1..1 + |Code(k)|] == Code(k);
      CodeFirst(u, k);
      assert u[1 + |Code(k)|..] == w;
    } else {
      assert u[1..] == w && u[0] == c;
      assert c != '&' by { assert Finds(bAttrib)[1] == '&'; }
    }
  }

  /** No two codes begin alike. */
  lemma CodeFirst(u: string, k: nat)
    requires k < 5 && |Code(k)| < |u| && u[1..1 + |Code(k)|] == Code(k)
    ensures CodeAt(u, 0) == k
  {
    hide Code;
    forall m | 0 <= m < 5 && m != k && |Code(m)| < |u|
      ensures u[1..1 + |Code(m)|] != Code(m)
    {
      CodesDiffer(m, k);
      assert u[1..1 + |Code(m)|][0] == u[1..1 + |Code(k)|][0] == u[1];
      assert u[1..1 + |Code(m)|][1] == u[1..1 + |Code(k)|][1] == u[2];
    }
    CodeUnique(u, k, 0);
  }

  lemma CodesDiffer(m: nat, k: nat)
    requires m < 5 && k < 5 && m != k
    ensures Code(m)[0] != Code(k)[0] || Code(m)[1] != Code(k)[1]
  {
  }

  lemma {:induction false} CodeUnique(u: string, k: nat, m: nat)
    requires m <= k < 5 && |Code(k)| < |u| && u[1..1 + |Code(k)|] == Code(k)
    requires forall i :: 0 <= i < 5 && i != k && |Code(i)| < |u| ==> u[1..1 + |Code(i)|] != Code(i)
    ensures CodeAt(u, m) == k
    decreases k - m
  {
    if m < k { CodeUnique(u, k, m + 1); }
  }

  /** Un-escaping inverts escaping. */
  lemma {:induction false} EscapeInverse(s: string, bAttrib: bool)
    ensures Unescape(Escape(s, bAttrib)) == s
  {
    hide Written, CodeAt, IndexOf;
    if s != "" {
      WrittenRead(s[0], bAttrib, Escape(s[1..], bAttrib));
      EscapeInverse(s[1..], bAttrib);
      assert [s[0]] + s[1..] == s;
    }
  }

  /** No markup and, in attribute values, no quotes. */
  predicate Harmless(s: string, bAttrib: bool) {
    forall i :: 0 <= i < |s| ==> s[i] != '<' && s[i] != '>' && (bAttrib ==> !IsQuote(s[i]))
  }

  lemma CodePlain(k: nat)
    requires k < 5
    ensures forall i :: 0 <= i < |Code(k)| ==>
        Code(k)[i] != '<' && Code(k)[i] != '>' && Code(k)[i] != '\'' && Code(k)[i] != '\"'
  {
  }

  lemma WrittenHarmless(c: char, bAttrib: bool)
    ensures Harmless(Written(c, bAttrib), bAttrib) && |Written(c, bAttrib)| > 0
  {
    var k := IndexOf(Finds(bAttrib), c);
    if k < |Finds(bAttrib)| {
      CodePlain(k);
      assert Written(c, bAttrib) == "&" + Code(k);
    } else {
      assert Finds(bAttrib)[0] == '<' && Finds(bAttrib)[2] == '>';
      if bAttrib { assert SYMBOLS[3] == '\'' && SYMBOLS[4] == '\"'; }
    }
  }

  lemma {:induction false} EscapeHarmless(s: string, bAttrib: bool)
    ensures Harmless(Escape(s, bAttrib), bAttrib)
    ensures s != "" ==> Escape(s, bAttrib) != ""
  {
    hide Written;
    if s != "" {
      WrittenHarmless(s[0], bAttrib);
      EscapeHarmless(s[1..], bAttrib);
    }
  }

  /** Un-escaping never lengthens: the result fits where the text was. */
  lemma {:induction false} UnescapeShortens(s: string)
    ensures |Unescape(s)| <= |s|
    decreases |s|
  {
    hide CodeAt;
    if s != "" {
      if s[0] == '&' && CodeAt(s, 0) < 5 {
        UnescapeShortens(s[1 + |Code(CodeAt(s, 0))|..]);
      } else {
        UnescapeShortens(s[1..]);
      }
    }
  }
}
