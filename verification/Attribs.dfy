/**
  Attributes: start tags made of a name and quoted attributes, what the attribute
  search finds in them, and what setting and removing an attribute does to them.
 */
module Attribs {
  import opened Scanner
  import opened Parser
  import opened ParserProofs
  import opened Edits
  import opened RoundTrip
  import opened Gaps

  // ---- the search ----

  /** `x_FindAttrib` from token number `count`; `nAttrib` is the number of the name
      found.  An empty name looks for any attribute name; otherwise the result is the value. */
  function FindAttrib(s: string, n: nat, count: nat, nAttrib: nat, szAttrib: string): (r: Option<Token>)
    requires n <= |s|
    ensures r.Some? ==>
      && r.value.found && n <= r.value.l <= r.value.r + 1 <= r.value.next <= |s| && n < r.value.next
      && (r.value.isString <==> szAttrib != "")
    decreases |s| - n
  {
    var t := FindToken(s, n);
    if !t.found then None
    else if t.isString then
      if nAttrib != 0 && count == nAttrib + 2 && szAttrib != "" then Some(t)
          else FindAttrib(s, t.next, count + 1, nAttrib, szAttrib)
    else if s[t.l] == '>' || s[t.l] == '/' then None
    else if s[t.l] == '=' then FindAttrib(s, t.next, count + 1, nAttrib, szAttrib)
    else if nAttrib == 0 && count != 0 then
      if szAttrib == "" then Some(t)
      else FindAttrib(s, t.next, count + 1, if Match(TokenText(s, t), szAttrib) then count else 0, szAttrib)
    else FindAttrib(s, t.next, count + 1, nAttrib, szAttrib)
  }

  /** The loop. */
  method ScanAttrib(s: string, n: nat, szAttrib: string) returns (r: Option<Token>)
    requires n <= |s|
    ensures r == FindAttrib(s, n, 0, 0, szAttrib)
  {
    hide FindToken, Match;
    var nNext, nCount, nAttrib: nat := n, 0, 0;
    while true
      invariant nNext <= |s| && FindAttrib(s, nNext, nCount, nAttrib, szAttrib) == FindAttrib(s, n, 0, 0, szAttrib)
      invariant szAttrib == "" ==> nAttrib == 0
      decreases |s| - nNext
    {
      var token := FindToken(s, nNext);
      if !token.found {
        return None;
      }
      if !token.isString {
        if s[token.l] == '>' || s[token.l] == '/' {
          return None;
        }
        if s[token.l] != '=' && nAttrib == 0 && nCount != 0 {
          if szAttrib == "" {
            return Some(token);
          }
          if Match(TokenText(s, token), szAttrib) {
            nAttrib := nCount;
          }
        }
      } else if nAttrib != 0 && nCount == nAttrib + 2 {
        return Some(token);
      }
      nNext, nCount := token.next, nCount + 1;
    }
  }

  // ---- attribute lists ----

  /** One attribute as it stands in a tag, with the whitespace before it. */
  datatype Attr = Attr(pre: string, name: string, eqPre: string, eqPost: string, quote: char, value: string)

  predicate Blank(s: string) { forall i :: 0 <= i < |s| ==> IsSpace(s[i]) }

  predicate AttrOK(a: Attr) {
    && |a.pre| > 0 && Blank(a.pre) && ValidName(a.name) && Blank(a.eqPre) && Blank(a.eqPost) && IsQuote(a.quote)
    && forall i :: 0 <= i < |a.value| ==> a.value[i] != a.quote && a.value[i] != '>'
  }

  /** The part before the value. */
  function Front(a: Attr): string { a.pre + (a.name + (a.eqPre + ("=" + (a.eqPost + [a.quote])))) }

  function AttrText(a: Attr): string { Front(a) + (a.value + [a.quote]) }

  function AttrsText(attrs: seq<Attr>): string {
    if attrs == [] then "" else AttrText(attrs[0]) + AttrsText(attrs[1..])
  }

  /** The whole start tag, without its closing bracket. */
  function TagText(name: string, attrs: seq<Attr>, tail: string): string { "<" + (name + (AttrsText(attrs) + tail)) }

  predicate Named(attrs: seq<Attr>, name: string) { exists i :: 0 <= i < |attrs| && attrs[i].name == name }

  predicate AllOK(attrs: seq<Attr>) { forall i :: 0 <= i < |attrs| ==> AttrOK(attrs[i]) }

  predicate AttrsOK(attrs: seq<Attr>) {
    && AllOK(attrs)
    && (forall i, j :: 0 <= i < j < |attrs| ==> attrs[i].name != attrs[j].name)
  }

  /** A tag the editor writes, or any tag with quoted attributes of different names. */
  predicate TagParts(name: string, attrs: seq<Attr>, tail: string) { ValidName(name) && AttrsOK(attrs) && Blank(tail) }

  ghost predicate PlainTag(tag: string) {
    exists name, attrs, tail :: TagParts(name, attrs, tail) && tag == TagText(name, attrs, tail)
  }

  /** The value of an attribute. */
  function Lookup(attrs: seq<Attr>, name: string): Option<string> {
    if attrs == [] then None else if attrs[0].name == name then Some(attrs[0].value) else Lookup(attrs[1..], name)
  }

  /** Where the value stands when the attributes stand at `n`. */
  function ValueAt(n: nat, attrs: seq<Attr>, name: string): Option<nat>
    decreases attrs
  {
    if attrs == [] then None
    else if attrs[0].name == name then Some(n + |Front(attrs[0])|)
    else ValueAt(n + |AttrText(attrs[0])|, attrs[1..], name)
  }

  // ---- the tokens of an attribute ----

  lemma {:induction false} BlankRun(s: string, n: nat, w: string)
    requires Blank(w) && Has(s, n, w) && n + |w| < |s| && !IsSpace(s[n + |w|])
    ensures SkipSpace(s, n) == n + |w|
    decreases |w|
  {
    if |w| > 0 {
      assert s[n] == s[n..n + |w|][0];
      assert Has(s, n + 1, w[1..]) by { HasConcat(s, n, w[..1], w[1..]); assert w == w[..1] + w[1..]; }
      BlankRun(s, n + 1, w[1..]);
    }
  }

  lemma HasFirst(s: string, n: nat, w: string)
    requires Has(s, n, w) && |w| > 0
    ensures n < |s| && s[n] == w[0]
  {
    assert s[n] == s[n..n + |w|][0];
  }

  /** A name is one token: what follows is no part of it. */
  lemma WordToken(s: string, n: nat, pre: string, name: string)
    requires Blank(pre) && ValidName(name) && Has(s, n, pre) && Has(s, n + |pre|, name)
    requires var e := n + |pre| + |name|; e < |s| && !IsWordChar(s[e])
    ensures FindToken(s, n) == Token(true, n + |pre|, n + |pre| + |name| - 1, n + |pre| + |name|, false)
    ensures TokenText(s, FindToken(s, n)) == name
  {
    var a := n + |pre|;
    HasFirst(s, a, name);
    BlankRun(s, n, pre);
    forall i | a <= i < a + |name|
      ensures IsWordChar(s[i])
    {
      assert s[i] == s[a..a + |name|][i - a];
    }
    WordRun(s, a, a + |name|);
  }

  lemma EqualToken(s: string, n: nat, pre: string)
    requires Blank(pre) && Has(s, n, pre) && n + |pre| < |s| && s[n + |pre|] == '='
    ensures FindToken(s, n) == Token(true, n + |pre|, n + |pre|, n + |pre| + 1, false)
  {
    BlankRun(s, n, pre);
    assert WordEnd(s, n + |pre|) == n + |pre|;
  }

  lemma StringToken(s: string, n: nat, pre: string, quote: char, value: string)
    requires Blank(pre) && Has(s, n, pre) && IsQuote(quote) && Has(s, n + |pre|, [quote])
        && Has(s, n + |pre| + 1, value + [quote])
    requires forall i :: 0 <= i < |value| ==> value[i] != quote
    ensures FindToken(s, n) == Token(true, n + |pre| + 1, n + |pre| + |value|, n + |pre| + |value| + 2, true)
    ensures s[n + |pre| + 1..n + |pre| + |value| + 1] == value
  {
    hide Has, FindChar;
    var a := n + |pre|;
    HasFirst(s, a, [quote]);
    BlankRun(s, n, pre);
    HasConcat(s, a + 1, value, [quote]);
    HasFirst(s, a + 1 + |value|, [quote]);
    NoneIn(s, a + 1, value, quote);
    FirstIs(s, a + 1, a + 1 + |value|, quote);
    HasIs(s, a + 1, value);
  }

  lemma NoneIn(s: string, n: nat, w: string, c: char)
    requires Has(s, n, w) && forall i :: 0 <= i < |w| ==> w[i] != c
    ensures n + |w| <= |s| && forall i :: n <= i < n + |w| ==> s[i] != c
  {
    forall i | n <= i < n + |w|
      ensures s[i] != c
    {
      assert s[i] == s[n..n + |w|][i - n];
    }
  }

  /** The pieces of an attribute in the text. */
  lemma FrontHas(s: string, n: nat, a: Attr)
    requires Has(s, n, AttrText(a))
    ensures Has(s, n, a.pre) && Has(s, n + |a.pre|, a.name)
    ensures var m := n + |a.pre| + |a.name|;
      && Has(s, m, a.eqPre) && Has(s, m + |a.eqPre|, "=") && Has(s, m + |a.eqPre| + 1, a.eqPost)
      && Has(s, m + |a.eqPre| + 1 + |a.eqPost|, [a.quote]) && Has(s, m + |a.eqPre| + |a.eqPost| + 2,
          a.value + [a.quote])
      && |Front(a)| == |a.pre| + |a.name| + |a.eqPre| + |a.eqPost| + 2
  {
    hide Has;
    var m := n + |a.pre| + |a.name|;
    HasConcat(s, n, Front(a), a.value + [a.quote]);
    HasConcat(s, n, a.pre, a.name + (a.eqPre + ("=" + (a.eqPost + [a.quote]))));
    HasConcat(s, n + |a.pre|, a.name, a.eqPre + ("=" + (a.eqPost + [a.quote])));
    HasConcat(s, m, a.eqPre, "=" + (a.eqPost + [a.quote]));
    HasConcat(s, m + |a.eqPre|, "=", a.eqPost + [a.quote]);
    HasConcat(s, m + |a.eqPre| + 1, a.eqPost, [a.quote]);
  }

  /** The three tokens of an attribute: its name, `=`, and its value. */
  lemma AttrTokens(s: string, n: nat, a: Attr)
    requires AttrOK(a) && Has(s, n, AttrText(a))
    ensures var l := n + |a.pre|;
      && FindToken(s, n) == Token(true, l, l + |a.name| - 1, l + |a.name|, false)
      && TokenText(s, FindToken(s, n)) == a.name
      && s[l] == a.name[0]
    ensures var m := n + |a.pre| + |a.name|;
      var e := m + |a.eqPre|;
      && m <= |s| && FindToken(s, m) == Token(true, e, e, e + 1, false) && e + 1 <= |s| && s[e] == '='
    ensures var e := n + |a.pre| + |a.name| + |a.eqPre| + 1;
      var v := n + |Front(a)|;
      && FindToken(s, e) == Token(true, v, v + |a.value| - 1, v + |a.value| + 1, true)
      && n + |AttrText(a)| == v + |a.value| + 1 <= |s| && s[v..v + |a.value|] == a.value
  {
    hide FindToken, Has, TokenText;
    var m := n + |a.pre| + |a.name|;
    FrontHas(s, n, a);
    HasFirst(s, n + |a.pre|, a.name);
    HasFirst(s, m + |a.eqPre|, "=");
    HasFirst(s, m + |a.eqPre| + 1 + |a.eqPost|, [a.quote]);
    if |a.eqPre| > 0 { HasFirst(s, m, a.eqPre); }
    WordToken(s, n, a.pre, a.name);
    EqualToken(s, m, a.eqPre);
    StringToken(s, m + |a.eqPre| + 1, a.eqPost, a.quote, a.value);
    HasConcat(s, n + |Front(a)|, a.value, [a.quote]);
    HasLen(s, n, AttrText(a));
  }

  lemma HasLen(s: string, n: nat, w: string)
    requires Has(s, n, w)
    ensures n + |w| <= |s|
  {
  }

  /** Names match exactly when they are equal. */
  lemma MatchIs(tok: string, name: string)
    requires ValidName(tok) && ValidName(name)
    ensures Match(tok, name) <==> tok == name
  {
    assert |tok| < |name| ==> IsWordChar(name[|tok|]);
    if tok == name { assert name[..|tok|] == tok; }
  }

  /** One turn of the search. */
  lemma FindAttribTurn(s: string, n: nat, count: nat, nAttrib: nat, szAttrib: string)
    requires n <= |s|
    ensures var t := FindToken(s, n);
      FindAttrib(s, n, count, nAttrib, szAttrib) ==
        if !t.found then None
        else if t.isString then
          if nAttrib != 0 && count == nAttrib + 2 && szAttrib != "" then Some(t)
              else FindAttrib(s, t.next, count + 1, nAttrib, szAttrib)
        else if s[t.l] == '>' || s[t.l] == '/' then None
        else if s[t.l] == '=' then FindAttrib(s, t.next, count + 1, nAttrib, szAttrib)
        else if nAttrib == 0 && count != 0 then
          if szAttrib == "" then Some(t)
          else FindAttrib(s, t.next, count + 1, if Match(TokenText(s, t), szAttrib) then count else 0, szAttrib)
        else FindAttrib(s, t.next, count + 1, nAttrib, szAttrib)
  {
    hide FindToken, Match, TokenText;
  }

  /** The value token that stands at `v`. */
  function ValueToken(v: nat, len: nat): Token { Token(true, v, v + len - 1, v + len + 1, true) }

  /** The search passes an attribute, or stops at its value. */
  lemma PassAttr(s: string, n: nat, a: Attr, count: nat, name: string)
    requires AttrOK(a) && Has(s, n, AttrText(a)) && count > 0 && ValidName(name)
    ensures n <= |s| && n + |AttrText(a)| <= |s|
    ensures FindAttrib(s, n, count, 0, name) ==
      if a.name == name then Some(ValueToken(n + |Front(a)|, |a.value|))
          else FindAttrib(s, n + |AttrText(a)|, count + 3, 0, name)
  {
    hide FindToken, Has, TokenText, FindAttrib, Match, AttrText, Front;
    AttrTokens(s, n, a);
    MatchIs(a.name, name);
    var m := n + |a.pre| + |a.name|;
    var e := m + |a.eqPre| + 1;
    var k := if a.name == name then count else 0;
    assert IsWordChar(a.name[0]);
    FindAttribTurn(s, n, count, 0, name);
    FindAttribTurn(s, m, count + 1, k, name);
    FindAttribTurn(s, e, count + 2, k, name);
  }

  /** In a list of attributes that ends at `>` or `/` the search finds the first of that name. */
  lemma {:induction false} SearchList(s: string, n: nat, attrs: seq<Attr>, tail: string, count: nat, name: string)
    requires AllOK(attrs) && Blank(tail) && count > 0 && ValidName(name)
    requires Has(s, n, AttrsText(attrs) + tail)
    requires var e := n + |AttrsText(attrs) + tail|; e < |s| && (s[e] == '>' || s[e] == '/')
    ensures n <= |s|
    ensures FindAttrib(s, n, count, 0, name) ==
      match ValueAt(n, attrs, name)
      case None => None
      case Some(v) => if Lookup(attrs, name).Some? then Some(ValueToken(v, |Lookup(attrs, name).value|)) else None
    ensures Lookup(attrs, name).Some? <==> ValueAt(n, attrs, name).Some?
    ensures Lookup(attrs, name).Some? ==>
      var v, w := ValueAt(n, attrs, name).value, Lookup(attrs, name).value;
      n <= v && v + |w| < n + |AttrsText(attrs)| && s[v..v + |w|] == w
    decreases |attrs|
  {
    hide *;
    HasLen(s, n, AttrsText(attrs) + tail);
    if attrs == [] {
      SearchEnd(s, n, attrs, tail, count, name);
    } else {
      var a, more := attrs[0], attrs[1..];
      AllTail(attrs);
      ListTurn(n, attrs, tail, name);
      HasConcat(s, n, AttrText(a), AttrsText(more) + tail);
      PassAttr(s, n, a, count, name);
      AttrTokens(s, n, a);
      SearchList(s, n + |AttrText(a)|, more, tail, count + 3, name);
    }
  }

  lemma SearchEnd(s: string, n: nat, attrs: seq<Attr>, tail: string, count: nat, name: string)
    requires attrs == [] && Blank(tail) && count > 0 && n <= |s| && Has(s, n, AttrsText(attrs) + tail)
    requires var e := n + |AttrsText(attrs) + tail|; e < |s| && (s[e] == '>' || s[e] == '/')
    ensures FindAttrib(s, n, count, 0, name) == None && Lookup(attrs, name).None? && ValueAt(n, attrs, name).None?
  {
    hide FindToken, Has, FindAttrib, Match, TokenText;
    assert AttrsText(attrs) + tail == tail;
    var e := n + |tail|;
    BlankRun(s, n, tail);
    EndToken(s, n, e);
    FindAttribTurn(s, n, count, 0, name);
  }

  /** The first attribute and the others. */
  lemma ListTurn(n: nat, attrs: seq<Attr>, tail: string, name: string)
    requires attrs != []
    ensures var a, more := attrs[0], attrs[1..];
      && AttrsText(attrs) + tail == AttrText(a) + (AttrsText(more) + tail)
      && |AttrsText(attrs)| == |AttrText(a)| + |AttrsText(more)|
      && Lookup(attrs, name) == (if a.name == name then Some(a.value) else Lookup(more, name))
      && ValueAt(n, attrs, name) == (if a.name == name then Some(n + |Front(a)|)
          else ValueAt(n + |AttrText(a)|, more, name))
  {
    hide AttrText, Front;
  }

  lemma AllTail(attrs: seq<Attr>)
    requires AllOK(attrs) && attrs != []
    ensures AttrOK(attrs[0]) && AllOK(attrs[1..])
  {
    hide AttrOK;
  }

  lemma EndToken(s: string, n: nat, e: nat)
    requires n <= |s| && SkipSpace(s, n) == e < |s| && (s[e] == '>' || s[e] == '/')
    ensures FindToken(s, n) == Token(true, e, e, e + 1, false)
  {
    assert WordEnd(s, e) == e;
  }

  // ---- the search in a whole tag ----

  lemma {:induction false} ValueMoves(n: nat, d: nat, attrs: seq<Attr>, name: string)
    ensures ValueAt(n + d, attrs, name) == match ValueAt(n, attrs, name) case None => None case Some(v) => Some(v + d)
    decreases attrs
  {
    hide AttrText, Front;
    if attrs != [] && attrs[0].name != name { ValueMoves(n + |AttrText(attrs[0])|, d, attrs[1..], name); }
  }

  /** Where the value stands in the tag. */
  function TagValueAt(tagName: string, attrs: seq<Attr>, name: string): Option<nat> { ValueAt(1 + |tagName|, attrs,
      name) }

  /** In a document where the tag stands at `p` the search finds the value, at its place. */
  lemma SearchTag(s: string, p: nat, tagName: string, attrs: seq<Attr>, tail: string, name: string)
    requires TagParts(tagName, attrs, tail) && ValidName(name) && Has(s, p, TagText(tagName, attrs, tail))
    requires var e := p + |TagText(tagName, attrs, tail)|; e < |s| && (s[e] == '>' || s[e] == '/')
    ensures p + 1 <= |s|
    ensures Lookup(attrs, name).Some? <==> TagValueAt(tagName, attrs, name).Some?
    ensures FindAttrib(s, p + 1, 0, 0, name) ==
      if Lookup(attrs, name).None? then None
          else Some(ValueToken(p + TagValueAt(tagName, attrs, name).value, |Lookup(attrs, name).value|))
    ensures Lookup(attrs, name).Some? ==>
      var v, w := TagValueAt(tagName, attrs, name).value, Lookup(attrs, name).value;
      0 < v && v + |w| < |TagText(tagName, attrs, tail)| && s[p + v..p + v + |w|] == w
  {
    hide FindToken, Has, TokenText, FindAttrib, Match, AttrsText, ValueAt, Lookup;
    var m := p + 1 + |tagName|;
    HasConcat(s, p, "<", tagName + (AttrsText(attrs) + tail));
    HasConcat(s, p + 1, tagName, AttrsText(attrs) + tail);
    TagStart(s, p, tagName, attrs, tail, name);
    SearchList(s, m, attrs, tail, 1, name);
    ValueMoves(1 + |tagName|, p, attrs, name);
  }

  /** The first token is the tag name. */
  lemma TagStart(s: string, p: nat, tagName: string, attrs: seq<Attr>, tail: string, szAttrib: string)
    requires TagParts(tagName, attrs, tail) && Has(s, p + 1, tagName)
        && Has(s, p + 1 + |tagName|, AttrsText(attrs) + tail)
    requires var e := p + 1 + |tagName| + |AttrsText(attrs) + tail|; e < |s| && (s[e] == '>' || s[e] == '/')
    ensures FindToken(s, p + 1) == Token(true, p + 1, p + |tagName|, p + 1 + |tagName|, false)
        && TokenText(s, FindToken(s, p + 1)) == tagName
    ensures FindAttrib(s, p + 1, 0, 0, szAttrib) == FindAttrib(s, p + 1 + |tagName|, 1, 0, szAttrib)
  {
    hide FindToken, Has, TokenText, FindAttrib, Match, AttrsText;
    var m := p + 1 + |tagName|;
    AfterName(s, m, attrs, tail);
    assert Has(s, p + 1, "") by { HasConcat(s, p + 1, "", tagName); assert "" + tagName == tagName; }
    WordToken(s, p + 1, "", tagName);
    HasFirst(s, p + 1, tagName);
    assert IsWordChar(tagName[0]);
    FindAttribTurn(s, p + 1, 0, 0, szAttrib);
  }

  lemma AfterName(s: string, m: nat, attrs: seq<Attr>, tail: string)
    requires AttrsOK(attrs) && Blank(tail) && Has(s, m, AttrsText(attrs) + tail)
    requires var e := m + |AttrsText(attrs) + tail|; e < |s| && (s[e] == '>' || s[e] == '/')
    ensures m < |s| && !IsWordChar(s[m])
  {
    hide Has;
    if |attrs| > 0 {
      assert (AttrsText(attrs) + tail)[0] == attrs[0].pre[0];
      HasFirst(s, m, AttrsText(attrs) + tail);
    } else if |tail| > 0 {
      assert AttrsText(attrs) + tail == tail;
      HasFirst(s, m, tail);
    }
  }

  // ---- setting an attribute ----

  /** The first attribute of that name given another value. */
  function SetVal(attrs: seq<Attr>, name: string, value: string): (r: seq<Attr>)
    ensures |r| == |attrs| && forall i :: 0 <= i < |attrs| ==> r[i].name == attrs[i].name
  {
    if attrs == [] then [] else if attrs[0].name == name then [attrs[0].(value := value)] + attrs[1..]
    else [attrs[0]] + SetVal(attrs[1..], name, value)
  }

  /** The attributes and the rest of the tag after `x_SetAttrib`. */
  function SetAttr(attrs: seq<Attr>, tail: string, name: string, value: string): (seq<Attr>, string) {
    if Lookup(attrs, name).Some? then (SetVal(attrs, name, value), tail)
    else (attrs + [Attr(tail + " ", name, "", "", '\"', value)], "")
  }

  lemma {:induction false} SetValText(n: nat, attrs: seq<Attr>, name: string, value: string)
    requires Lookup(attrs, name).Some?
    ensures ValueAt(0, attrs, name).Some?
    ensures var v := ValueAt(0, attrs, name).value;
      var w := Lookup(attrs, name).value;
      v + |w| <= |AttrsText(attrs)| && AttrsText(SetVal(attrs, name, value)) == Splice(AttrsText(attrs), v, v + |w|,
          value)
    decreases attrs
  {
    hide *;
    SetValTurn(attrs, name, value);
    var a, more := attrs[0], attrs[1..];
    var r := SetVal(attrs, name, value);
    ListTurn(0, attrs, "", name);
    if a.name == name {
      SetFirst(a, more, value);
    } else {
      SetValText(n, more, name, value);
      ValueMoves(0, |AttrText(a)|, more, name);
      var v, w := ValueAt(0, more, name).value, Lookup(more, name).value;
      SpliceBehind(AttrText(a), AttrsText(more), v, v + |w|, value);
      ConsText(a, SetVal(more, name, value));
    }
    ConsText(a, more);
  }

  lemma SetValTurn(attrs: seq<Attr>, name: string, value: string)
    requires Lookup(attrs, name).Some?
    ensures attrs != [] && attrs == [attrs[0]] + attrs[1..]
    ensures SetVal(attrs, name, value) == if attrs[0].name == name then [attrs[0].(value := value)] + attrs[1..]
        else [attrs[0]] + SetVal(attrs[1..], name, value)
  {
  }

  lemma ConsText(a: Attr, more: seq<Attr>)
    ensures AttrsText([a] + more) == AttrText(a) + AttrsText(more)
  {
    assert ([a] + more)[1..] == more;
  }

  lemma SetFirst(a: Attr, more: seq<Attr>, value: string)
    ensures |Front(a)| + |a.value| <= |AttrsText([a] + more)|
    ensures AttrsText([a.(value := value)] + more) == Splice(AttrsText([a] + more), |Front(a)|, |Front(a)| + |a.value|,
        value)
  {
    hide Front;
    FrontValue(a, value);
    ConsText(a, more);
    ConsText(a.(value := value), more);
    var rest := [a.quote] + AttrsText(more);
    assert AttrText(a) + AttrsText(more) == Front(a) + (a.value + rest);
    assert AttrText(a.(value := value)) + AttrsText(more) == Front(a) + (value + rest);
    ReplaceMiddle(Front(a), a.value, rest, value);
  }

  lemma FrontValue(a: Attr, value: string)
    ensures Front(a.(value := value)) == Front(a)
  {
  }

  lemma ReplaceMiddle(f: string, w: string, q: string, value: string)
    ensures Splice(f + (w + q), |f|, |f| + |w|, value) == f + (value + q)
  {
    var s := f + (w + q);
    assert s[..|f|] == f && s[|f| + |w|..] == q;
  }

  lemma SpliceBehind(f: string, s: string, i: nat, j: nat, ins: string)
    requires i <= j <= |s|
    ensures Splice(f + s, |f| + i, |f| + j, ins) == f + Splice(s, i, j, ins)
  {
    assert (f + s)[..|f| + i] == f + s[..i] && (f + s)[|f| + j..] == s[j..];
  }

  lemma {:induction false} AttrsAppend(attrs: seq<Attr>, a: Attr)
    ensures AttrsText(attrs + [a]) == AttrsText(attrs) + AttrText(a)
  {
    hide AttrText;
    if attrs == [] {
      assert [] + [a] == [a] && [a][1..] == [];
      assert AttrText(a) + "" == AttrText(a) && "" + AttrText(a) == AttrText(a);
    } else {
      assert (attrs + [a])[1..] == attrs[1..] + [a];
      AttrsAppend(attrs[1..], a);
      assert AttrText(attrs[0]) + (AttrsText(attrs[1..]) + AttrText(a))
          == AttrText(attrs[0]) + AttrsText(attrs[1..]) + AttrText(a);
    }
  }

  /** What `x_SetAttrib` puts in. */
  function NewAttr(name: string, value: string): string { " " + (name + ("=\"" + (value + "\""))) }

  /** The text of the new tag. */
  lemma SetAttrText(tagName: string, attrs: seq<Attr>, tail: string, name: string, value: string)
    ensures Lookup(attrs, name).Some? ==> TagValueAt(tagName, attrs, name).Some?
    ensures var tag, n := TagText(tagName, attrs, tail), SetAttr(attrs, tail, name, value);
      if Lookup(attrs, name).Some? then
        var v, w := TagValueAt(tagName, attrs, name).value, Lookup(attrs, name).value;
        v + |w| <= |tag| && TagText(tagName, n.0, n.1) == Splice(tag, v, v + |w|, value)
      else TagText(tagName, n.0, n.1) == Splice(tag, |tag|, |tag|, NewAttr(name, value))
  {
    hide *;
    SetAttrIs(attrs, tail, name, value);
    var tag := TagText(tagName, attrs, tail);
    var f := "<" + tagName;
    TagFront(tagName, attrs, tail);
    if Lookup(attrs, name).Some? {
      SetValText(0, attrs, name, value);
      ValueMoves(0, 1 + |tagName|, attrs, name);
      TagValueIs(tagName, attrs, name);
      var v, w := ValueAt(0, attrs, name).value, Lookup(attrs, name).value;
      SpliceInside(f, AttrsText(attrs), tail, v, v + |w|, value);
      TagFront(tagName, SetVal(attrs, name, value), tail);
    } else {
      AppendText(tagName, attrs, tail, name, value);
    }
  }

  lemma SetAttrIs(attrs: seq<Attr>, tail: string, name: string, value: string)
    ensures SetAttr(attrs, tail, name, value) ==
      if Lookup(attrs, name).Some? then (SetVal(attrs, name, value), tail)
          else (attrs + [Attr(tail + " ", name, "", "", '\"', value)], "")
  {
    hide Lookup, SetVal;
  }

  lemma TagValueIs(tagName: string, attrs: seq<Attr>, name: string)
    ensures TagValueAt(tagName, attrs, name) == ValueAt(1 + |tagName|, attrs, name)
  {
    hide ValueAt;
  }

  lemma AppendText(tagName: string, attrs: seq<Attr>, tail: string, name: string, value: string)
    ensures var tag := TagText(tagName, attrs, tail);
      TagText(tagName, attrs + [Attr(tail + " ", name, "", "", '\"', value)], "") == Splice(tag, |tag|, |tag|,
          NewAttr(name, value))
  {
    hide AttrsText;
    var tag := TagText(tagName, attrs, tail);
    var f := "<" + tagName;
    var a := Attr(tail + " ", name, "", "", '\"', value);
    AttrsAppend(attrs, a);
    assert AttrText(a) == tail + NewAttr(name, value);
    assert TagText(tagName, attrs + [a], "") == f + (AttrsText(attrs) + AttrText(a));
    assert tag + NewAttr(name, value) == f + (AttrsText(attrs) + (tail + NewAttr(name, value)));
    assert tag[..|tag|] == tag && tag[|tag|..] == "";
  }

  /** Looking up after setting: the new value, and every other attribute as before. */
  lemma {:induction false} LookupSetVal(attrs: seq<Attr>, name: string, value: string, other: string)
    ensures Lookup(SetVal(attrs, name, value), other) ==
      if other == name && Lookup(attrs, name).Some? then Some(value) else Lookup(attrs, other)
  {
    if attrs != [] && attrs[0].name != name {
      LookupSetVal(attrs[1..], name, value, other);
      assert SetVal(attrs, name, value)[1..] == SetVal(attrs[1..], name, value);
    } else if attrs != [] {
      assert SetVal(attrs, name, value)[1..] == attrs[1..];
    }
  }

  lemma {:induction false} LookupAppend(attrs: seq<Attr>, a: Attr, other: string)
    ensures Lookup(attrs + [a], other) == if Lookup(attrs, other).Some? then Lookup(attrs, other)
        else if a.name == other then Some(a.value) else None
  {
    if attrs == [] {
      assert [] + [a] == [a] && [a][1..] == [];
    } else {
      assert (attrs + [a])[1..] == attrs[1..] + [a];
      LookupAppend(attrs[1..], a, other);
    }
  }

  lemma SetAttrLookup(attrs: seq<Attr>, tail: string, name: string, value: string, other: string)
    ensures Lookup(SetAttr(attrs, tail, name, value).0, other) == if other == name then Some(value)
        else Lookup(attrs, other)
  {
    LookupSetVal(attrs, name, value, other);
    LookupAppend(attrs, Attr(tail + " ", name, "", "", '\"', value), other);
  }

  lemma {:induction false} LookupNamed(attrs: seq<Attr>, name: string)
    ensures Lookup(attrs, name).Some? <==> Named(attrs, name)
  {
    if attrs != [] {
      LookupNamed(attrs[1..], name);
      if attrs[0].name == name { assert Named(attrs, name); }
      if Named(attrs[1..], name) {
        var i :| 0 <= i < |attrs[1..]| && attrs[1..][i].name == name;
        assert attrs[i + 1].name == name;
      }
      if Named(attrs, name) && attrs[0].name != name {
        var i :| 0 <= i < |attrs| && attrs[i].name == name;
        assert attrs[1..][i - 1].name == name;
      }
    }
  }

  lemma ValueOK(a: Attr, value: string)
    requires AttrOK(a) && forall i :: 0 <= i < |value| ==> !IsQuote(value[i]) && value[i] != '>'
    ensures AttrOK(a.(value := value))
  {
  }

  lemma {:induction false} SetValOK(attrs: seq<Attr>, name: string, value: string)
    requires AllOK(attrs) && (forall i :: 0 <= i < |value| ==> !IsQuote(value[i]) && value[i] != '>')
    ensures AllOK(SetVal(attrs, name, value))
  {
    hide AttrOK;
    if attrs != [] {
      ValueOK(attrs[0], value);
      SetValOK(attrs[1..], name, value);
      var r := SetVal(attrs, name, value);
      assert attrs[0].name != name ==> r[1..] == SetVal(attrs[1..], name, value);
      assert forall i :: 0 < i < |r| ==> r[i] == r[1..][i - 1];
      assert forall i :: 0 < i < |attrs| ==> attrs[i] == attrs[1..][i - 1];
    }
  }

  /** The tag stays one with quoted attributes of different names. */
  lemma SetAttrOK(tagName: string, attrs: seq<Attr>, tail: string, name: string, value: string)
    requires TagParts(tagName, attrs, tail) && ValidName(name) && forall i :: 0 <= i < |value| ==>
        !IsQuote(value[i]) && value[i] != '>'
    ensures var n := SetAttr(attrs, tail, name, value); TagParts(tagName, n.0, n.1)
  {
    hide Lookup, AttrOK;
    SetValOK(attrs, name, value);
    LookupNamed(attrs, name);
    if Lookup(attrs, name).None? {
      var a := Attr(tail + " ", name, "", "", '\"', value);
      NewAttrOK(a, tail);
      AppendOK(attrs, a);
      assert SetAttr(attrs, tail, name, value) == (attrs + [a], "");
    } else {
      var r := SetVal(attrs, name, value);
      assert SetAttr(attrs, tail, name, value) == (r, tail);
      forall i, j | 0 <= i < j < |r|
        ensures r[i].name != r[j].name
      {
        assert attrs[i].name != attrs[j].name;
      }
    }
  }

  lemma NewAttrOK(a: Attr, tail: string)
    requires Blank(tail) && a.pre == tail + " " && ValidName(a.name) && a.eqPre == a.eqPost == "" && a.quote == '\"'
    requires forall i :: 0 <= i < |a.value| ==> !IsQuote(a.value[i]) && a.value[i] != '>'
    ensures AttrOK(a)
  {
    hide ValidName;
  }

  lemma AppendOK(attrs: seq<Attr>, a: Attr)
    requires AttrsOK(attrs) && AttrOK(a) && !Named(attrs, a.name)
    ensures AttrsOK(attrs + [a])
  {
    hide AttrOK;
    var r := attrs + [a];
    assert forall i :: 0 <= i < |attrs| ==> r[i] == attrs[i] && r[i].name != a.name;
    assert r[|attrs|] == a;
  }

  // ---- removing an attribute ----

  /** The loop of `x_RemoveAttrib`: the text to take out, from one character before the
      name to the closing quote. */
  function FindRemove(s: string, n: nat, szAttrib: string): (r: Option<(int, int)>)
    requires 0 < n <= |s|
    decreases |s| - n
  {
    var f := FindAttrib(s, n, 0, 0, "");
    if f.None? then None
    else
      var t := f.value;
      if !Match(TokenText(s, t), szAttrib) then FindRemove(s, t.next, szAttrib)
      else
        var t2 := FindToken(s, t.next);
        if !(t2.found && t2.l < |s| && s[t2.l] == '=') then FindRemove(s, t2.next, szAttrib)
        else
          var t3 := FindToken(s, t2.next);
          if t3.found && t3.isString then Some((t.l - 1, t3.r + 2)) else FindRemove(s, t3.next, szAttrib)
  }

  method ScanRemove(s: string, n: nat, szAttrib: string) returns (r: Option<(int, int)>)
    requires 0 < n <= |s|
    ensures r == FindRemove(s, n, szAttrib)
  {
    hide FindToken, Match, FindAttrib;
    var nNext := n;
    while true
      invariant 0 < nNext <= |s| && FindRemove(s, nNext, szAttrib) == FindRemove(s, n, szAttrib)
      decreases |s| - nNext
    {
      var f := ScanAttrib(s, nNext, "");
      if f.None? {
        return None;
      }
      var token := f.value;
      if Match(TokenText(s, token), szAttrib) {
        var nInsertAt := token.l - 1;
        token := FindToken(s, token.next);
        if token.found && token.l < |s| && s[token.l] == '=' {
          token := FindToken(s, token.next);
          if token.found && token.isString {
            return Some((nInsertAt, token.r + 2));
          }
        }
      }
      nNext := token.next;
    }
  }

  lemma RemoveTurn(s: string, n: nat, szAttrib: string)
    requires 0 < n <= |s|
    ensures var f := FindAttrib(s, n, 0, 0, "");
      FindRemove(s, n, szAttrib) ==
        if f.None? then None
        else
          var t := f.value;
          if !Match(TokenText(s, t), szAttrib) then FindRemove(s, t.next, szAttrib)
          else
            var t2 := FindToken(s, t.next);
            if !(t2.found && t2.l < |s| && s[t2.l] == '=') then FindRemove(s, t2.next, szAttrib)
            else
              var t3 := FindToken(s, t2.next);
              if t3.found && t3.isString then Some((t.l - 1, t3.r + 2)) else FindRemove(s, t3.next, szAttrib)
  {
    hide FindToken, Match, TokenText, FindAttrib;
  }

  /** The search for the next name. */
  lemma NextName(s: string, n: nat, attrs: seq<Attr>, tail: string, count: nat)
    requires AllOK(attrs) && Blank(tail) && count > 0 && Has(s, n, AttrsText(attrs) + tail)
    requires var e := n + |AttrsText(attrs) + tail|; e < |s| && (s[e] == '>' || s[e] == '/')
    ensures n <= |s|
    ensures FindAttrib(s, n, count, 0, "") ==
      if attrs == [] then None
      else
        var l := n + |attrs[0].pre|;
        Some(Token(true, l, l + |attrs[0].name| - 1, l + |attrs[0].name|, false))
  {
    hide FindToken, Has, TokenText, FindAttrib, Match, AttrText, Front;
    HasLen(s, n, AttrsText(attrs) + tail);
    if attrs == [] {
      assert AttrsText(attrs) + tail == tail;
      BlankRun(s, n, tail);
      EndToken(s, n, n + |tail|);
    } else {
      var a, more := attrs[0], attrs[1..];
      assert AttrsText(attrs) + tail == AttrText(a) + (AttrsText(more) + tail);
      HasConcat(s, n, AttrText(a), AttrsText(more) + tail);
      AttrTokens(s, n, a);
      assert IsWordChar(a.name[0]);
    }
    FindAttribTurn(s, n, count, 0, "");
  }

  /** From behind a name, the search for the next name goes on behind the attribute. */
  lemma SkipValue(s: string, n: nat, a: Attr)
    requires AttrOK(a) && Has(s, n, AttrText(a))
    ensures var m := n + |a.pre| + |a.name|;
      m <= |s| && n + |AttrText(a)| <= |s| && FindAttrib(s, m, 0, 0, "") == FindAttrib(s, n + |AttrText(a)|, 2, 0, "")
  {
    hide FindToken, Has, TokenText, FindAttrib, Match, AttrText, Front;
    AttrTokens(s, n, a);
    var m := n + |a.pre| + |a.name|;
    FindAttribTurn(s, m, 0, 0, "");
    FindAttribTurn(s, m + |a.eqPre| + 1, 1, 0, "");
  }

  /** Where an attribute starts. */
  function AttrAt(n: nat, attrs: seq<Attr>, name: string): Option<(int, int)>
    decreases attrs
  {
    if attrs == [] then None
    else if attrs[0].name == name then Some((n + |attrs[0].pre| - 1, n + |AttrText(attrs[0])|))
    else AttrAt(n + |AttrText(attrs[0])|, attrs[1..], name)
  }

  lemma {:induction false} RemoveList(s: string, m: nat, n: nat, attrs: seq<Attr>, tail: string, count: nat,
      name: string)
    requires AllOK(attrs) && Blank(tail) && count > 0 && ValidName(name) && Has(s, n, AttrsText(attrs) + tail)
    requires var e := n + |AttrsText(attrs) + tail|; e < |s| && (s[e] == '>' || s[e] == '/')
    requires n <= |s| && 0 < m <= |s| && FindAttrib(s, m, 0, 0, "") == FindAttrib(s, n, count, 0, "")
    ensures FindRemove(s, m, name) == AttrAt(n, attrs, name)
    decreases |attrs|
  {
    hide *;
    NextName(s, n, attrs, tail, count);
    RemoveTurn(s, m, name);
    AttrAtTurn(n, attrs, name);
    if attrs != [] {
      var a, more := attrs[0], attrs[1..];
      AllTail(attrs);
      ListTurn(n, attrs, tail, name);
      HasConcat(s, n, AttrText(a), AttrsText(more) + tail);
      AttrTokens(s, n, a);
      ValidAttr(a);
      MatchIs(a.name, name);
      if a.name != name {
        SkipValue(s, n, a);
        RemoveList(s, n + |a.pre| + |a.name|, n + |AttrText(a)|, more, tail, 2, name);
      }
    }
  }

  lemma AttrAtTurn(n: nat, attrs: seq<Attr>, name: string)
    ensures AttrAt(n, attrs, name) ==
      if attrs == [] then None
      else if attrs[0].name == name then Some((n + |attrs[0].pre| - 1, n + |AttrText(attrs[0])|))
      else AttrAt(n + |AttrText(attrs[0])|, attrs[1..], name)
  {
    hide AttrText;
  }

  lemma ValidAttr(a: Attr)
    requires AttrOK(a)
    ensures ValidName(a.name) && |a.pre| > 0
  {
  }

  /** `pre` in front of a list of attributes. */
  function Lead(pre: string, attrs: seq<Attr>, tail: string): (seq<Attr>, string) {
    if attrs == [] then ([], pre + tail) else ([attrs[0].(pre := pre + attrs[0].pre)] + attrs[1..], tail)
  }

  /** The attributes and the rest of the tag after `x_RemoveAttrib`. */
  function CutAttr(attrs: seq<Attr>, tail: string, name: string): (seq<Attr>, string) {
    if attrs == [] then ([], tail)
    else if attrs[0].name == name then Lead(if attrs[0].pre == "" then ""
        else attrs[0].pre[..|attrs[0].pre| - 1], attrs[1..], tail)
    else
      var r := CutAttr(attrs[1..], tail, name);
      ([attrs[0]] + r.0, r.1)
  }

  lemma LeadText(pre: string, attrs: seq<Attr>, tail: string)
    ensures var r := Lead(pre, attrs, tail); AttrsText(r.0) + r.1 == pre + (AttrsText(attrs) + tail)
  {
    var r := Lead(pre, attrs, tail);
    if attrs == [] {
      assert AttrsText(r.0) + r.1 == pre + tail;
      assert AttrsText(attrs) + tail == tail;
    } else {
      var a := attrs[0];
      assert r.0[1..] == attrs[1..];
      LeadFront(pre, a);
      assert AttrsText(r.0) == AttrText(r.0[0]) + AttrsText(attrs[1..]);
      assert AttrsText(r.0) + r.1 == pre + (AttrText(a) + AttrsText(attrs[1..]) + tail);
    }
  }

  lemma LeadFront(pre: string, a: Attr)
    ensures AttrText(a.(pre := pre + a.pre)) == pre + AttrText(a)
  {
    var rest := a.name + (a.eqPre + ("=" + (a.eqPost + [a.quote])));
    assert Front(a.(pre := pre + a.pre)) == pre + (a.pre + rest);
    assert (pre + Front(a)) + (a.value + [a.quote]) == pre + (Front(a) + (a.value + [a.quote]));
  }

  lemma {:induction false} AttrMoves(n: nat, d: nat, attrs: seq<Attr>, name: string)
    requires AllOK(attrs)
    ensures AttrAt(n + d, attrs, name) == match AttrAt(n, attrs,
        name) case None => None case Some(v) => Some((v.0 + d, v.1 + d))
    decreases attrs
  {
    hide AttrText, Front;
    if attrs != [] && attrs[0].name != name { AttrMoves(n + |AttrText(attrs[0])|, d, attrs[1..], name); }
  }

  /** The text of the new tag. */
  lemma {:induction false} CutAttrText(attrs: seq<Attr>, tail: string, name: string)
    requires AllOK(attrs)
    ensures Lookup(attrs, name).Some? <==> AttrAt(0, attrs, name).Some?
    ensures Lookup(attrs, name).Some? ==>
      var v, r := AttrAt(0, attrs, name).value, CutAttr(attrs, tail, name);
      0 <= v.0 <= v.1 <= |AttrsText(attrs)| && AttrsText(r.0) + r.1 == Splice(AttrsText(attrs) + tail, v.0, v.1, "")
    ensures Lookup(attrs, name).None? ==> CutAttr(attrs, tail, name) == (attrs, tail)
    decreases attrs
  {
    hide Front, AttrText, AllOK, AttrOK, Splice, Lead;
    if attrs != [] {
      var a, more := attrs[0], attrs[1..];
      AllTail(attrs);
      if a.name == name {
        CutFirst(a, more, tail);
      } else {
        CutAttrText(more, tail, name);
        AttrMoves(0, |AttrText(a)|, more, name);
        CutLater(a, more, tail, name);
        assert [a] + more == attrs;
      }
    }
  }

  lemma CutFirst(a: Attr, more: seq<Attr>, tail: string)
    requires AttrOK(a)
    ensures var r := Lead(a.pre[..|a.pre| - 1], more, tail);
      var text := AttrText(a) + AttrsText(more);
      |a.pre| - 1 <= |AttrText(a)| && a.pre != "" && AttrsText(r.0) + r.1 == Splice(text + tail, |a.pre| - 1,
          |AttrText(a)|, "")
  {
    hide Lead, AttrText;
    var pre := a.pre[..|a.pre| - 1];
    LeadText(pre, more, tail);
    TextPre(a);
    var text := AttrText(a) + AttrsText(more) + tail;
    assert text[..|a.pre| - 1] == pre;
    assert text[|AttrText(a)|..] == AttrsText(more) + tail;
  }

  lemma CutLater(a: Attr, more: seq<Attr>, tail: string, name: string)
    requires Lookup(more, name).Some? ==>
      AttrAt(0, more, name).Some? &&
      var v, r := AttrAt(0, more, name).value, CutAttr(more, tail, name);
      0 <= v.0 <= v.1 <= |AttrsText(more)| && AttrsText(r.0) + r.1 == Splice(AttrsText(more) + tail, v.0, v.1, "")
    ensures Lookup(more, name).Some? ==>
      var v, r := AttrAt(0, more, name).value, CutAttr(more, tail, name);
      var text := AttrText(a) + AttrsText(more);
      AttrsText([a] + r.0) + r.1 == Splice(text + tail, |AttrText(a)| + v.0, |AttrText(a)| + v.1, "")
  {
    hide AttrText, AttrAt, CutAttr, Lookup, Splice;
    if Lookup(more, name).Some? {
      var v, r := AttrAt(0, more, name).value, CutAttr(more, tail, name);
      assert ([a] + r.0)[1..] == r.0;
      SpliceBehind(AttrText(a), AttrsText(more) + tail, v.0, v.1, "");
      assert AttrsText([a] + r.0) + r.1 == AttrText(a) + (AttrsText(r.0) + r.1);
      assert AttrText(a) + AttrsText(more) + tail == AttrText(a) + (AttrsText(more) + tail);
    }
  }

  lemma TextPre(a: Attr)
    requires |a.pre| > 0
    ensures |AttrText(a)| >= |a.pre| && AttrText(a)[..|a.pre| - 1] == a.pre[..|a.pre| - 1]
  {
    assert Front(a)[..|a.pre|] == a.pre;
    assert AttrText(a)[..|a.pre|] == a.pre;
  }

  lemma LeadLookup(pre: string, attrs: seq<Attr>, tail: string, other: string)
    ensures Lookup(Lead(pre, attrs, tail).0, other) == Lookup(attrs, other)
  {
    if attrs != [] { assert Lead(pre, attrs, tail).0[1..] == attrs[1..]; }
  }

  /** Looking up after removing: absent, and every other attribute as before. */
  lemma {:induction false} CutAttrLookup(attrs: seq<Attr>, tail: string, name: string, other: string)
    requires AttrsOK(attrs)
    ensures Lookup(CutAttr(attrs, tail, name).0, other) == if other == name then None else Lookup(attrs, other)
  {
    hide AttrOK, Lead;
    if attrs != [] {
      var a, more := attrs[0], attrs[1..];
      if a.name == name {
        LeadLookup(if a.pre == "" then "" else a.pre[..|a.pre| - 1], more, tail, other);
        LookupNamed(more, name);
      } else {
        CutAttrLookup(more, tail, name, other);
        assert ([a] + CutAttr(more, tail, name).0)[1..] == CutAttr(more, tail, name).0;
      }
    }
  }

  /** Every name left was there before. */
  lemma {:induction false} CutAttrOK(attrs: seq<Attr>, tail: string, name: string)
    requires AttrsOK(attrs) && Blank(tail)
    ensures AttrsOK(CutAttr(attrs, tail, name).0) && Blank(CutAttr(attrs, tail, name).1)
    ensures forall other :: Named(CutAttr(attrs, tail, name).0, other) ==> Named(attrs, other)
  {
    hide AttrOK, Lead;
    if attrs != [] {
      var a, more := attrs[0], attrs[1..];
      TailOK(attrs);
      if a.name == name {
        BlankPart(a);
        LeadOK(if a.pre == "" then "" else a.pre[..|a.pre| - 1], more, tail);
        forall other | Named(CutAttr(attrs, tail, name).0, other)
          ensures Named(attrs, other)
        {
          NamedTail(attrs, other);
        }
      } else {
        CutAttrOK(more, tail, name);
        var r := CutAttr(more, tail, name);
        if Named(r.0, a.name) { NotTwice(attrs); }
        ConsOK(a, r.0);
        forall other | Named([a] + r.0, other)
          ensures Named(attrs, other)
        {
          NamedCons(a, r.0, other);
          NamedTail(attrs, other);
        }
      }
    }
  }

  lemma TailOK(attrs: seq<Attr>)
    requires attrs != [] && AttrsOK(attrs)
    ensures AttrOK(attrs[0]) && AttrsOK(attrs[1..])
  {
    hide AttrOK;
  }

  lemma BlankPart(a: Attr)
    requires AttrOK(a)
    ensures Blank(if a.pre == "" then "" else a.pre[..|a.pre| - 1])
  {
  }

  lemma NamedTail(attrs: seq<Attr>, other: string)
    requires attrs != []
    ensures Named(attrs, other) <==> attrs[0].name == other || Named(attrs[1..], other)
  {
    if Named(attrs[1..], other) {
      var i :| 0 <= i < |attrs[1..]| && attrs[1..][i].name == other;
      assert attrs[i + 1].name == other;
    }
    if Named(attrs, other) && attrs[0].name != other {
      var i :| 0 <= i < |attrs| && attrs[i].name == other;
      assert attrs[1..][i - 1].name == other;
    }
  }

  lemma NamedCons(a: Attr, attrs: seq<Attr>, other: string)
    ensures Named([a] + attrs, other) <==> a.name == other || Named(attrs, other)
  {
    NamedTail([a] + attrs, other);
    assert ([a] + attrs)[1..] == attrs;
  }

  lemma NotTwice(attrs: seq<Attr>)
    requires attrs != [] && AttrsOK(attrs)
    ensures !Named(attrs[1..], attrs[0].name)
  {
    hide AttrOK;
    forall i | 0 <= i < |attrs[1..]|
      ensures attrs[1..][i].name != attrs[0].name
    {
      assert attrs[1..][i] == attrs[i + 1];
    }
  }

  lemma ConsOK(a: Attr, attrs: seq<Attr>)
    requires AttrOK(a) && AttrsOK(attrs) && !Named(attrs, a.name)
    ensures AttrsOK([a] + attrs)
  {
    hide AttrOK;
    var r := [a] + attrs;
    assert forall i :: 0 < i < |r| ==> r[i] == attrs[i - 1] && r[i].name != a.name;
  }

  lemma LeadOK(pre: string, attrs: seq<Attr>, tail: string)
    requires AttrsOK(attrs) && Blank(tail) && Blank(pre)
    ensures AttrsOK(Lead(pre, attrs, tail).0) && Blank(Lead(pre, attrs, tail).1)
    ensures forall other :: Named(Lead(pre, attrs, tail).0, other) ==> Named(attrs, other)
  {
    if attrs != [] {
      var a := attrs[0].(pre := pre + attrs[0].pre);
      TailOK(attrs);
      NotTwice(attrs);
      assert AttrOK(a);
      ConsOK(a, attrs[1..]);
      forall other | Named([a] + attrs[1..], other)
        ensures Named(attrs, other)
      {
        NamedCons(a, attrs[1..], other);
        NamedTail(attrs, other);
      }
    }
  }

  /** In a document where the tag stands at `p` the loop finds the attribute to take out. */
  lemma RemoveTag(s: string, p: nat, tagName: string, attrs: seq<Attr>, tail: string, name: string)
    requires TagParts(tagName, attrs, tail) && ValidName(name) && Has(s, p, TagText(tagName, attrs, tail))
    requires var e := p + |TagText(tagName, attrs, tail)|; e < |s| && (s[e] == '>' || s[e] == '/')
    ensures p + 1 <= |s|
    ensures FindRemove(s, p + 1, name) ==
      match AttrAt(1 + |tagName|, attrs, name) case None => None case Some(v) => Some((v.0 + p, v.1 + p))
  {
    hide FindToken, Has, TokenText, FindAttrib, Match, AttrsText, AttrAt, FindRemove, AttrsOK, AllOK;
    var m := p + 1 + |tagName|;
    HasConcat(s, p, "<", tagName + (AttrsText(attrs) + tail));
    HasConcat(s, p + 1, tagName, AttrsText(attrs) + tail);
    TagStart(s, p, tagName, attrs, tail, "");
    HasLen(s, m, AttrsText(attrs) + tail);
    PartsOK(tagName, attrs, tail);
    RemoveList(s, p + 1, m, attrs, tail, 1, name);
    AttrMoves(1 + |tagName|, p, attrs, name);
  }

  lemma PartsOK(tagName: string, attrs: seq<Attr>, tail: string)
    requires TagParts(tagName, attrs, tail)
    ensures AttrsOK(attrs) && AllOK(attrs) && Blank(tail) && ValidName(tagName)
  {
    hide AllOK;
  }

  /** The text of the tag without the attribute. */
  lemma CutTagText(tagName: string, attrs: seq<Attr>, tail: string, name: string)
    requires TagParts(tagName, attrs, tail)
    ensures Lookup(attrs, name).Some? <==> AttrAt(1 + |tagName|, attrs, name).Some?
    ensures Lookup(attrs, name).Some? ==>
      var tag, r, v := TagText(tagName, attrs, tail), CutAttr(attrs, tail, name),
          AttrAt(1 + |tagName|, attrs, name).value;
      0 < v.0 <= v.1 <= |tag| && TagText(tagName, r.0, r.1) == Splice(tag, v.0, v.1, "")
  {
    hide AttrsText, Lookup, AttrAt, CutAttr, AttrsOK, AllOK, Splice, ValidName;
    PartsOK(tagName, attrs, tail);
    CutAttrText(attrs, tail, name);
    AttrMoves(0, 1 + |tagName|, attrs, name);
    if Lookup(attrs, name).Some? {
      var v, r := AttrAt(0, attrs, name).value, CutAttr(attrs, tail, name);
      TagFront(tagName, attrs, tail);
      TagFront(tagName, r.0, r.1);
      SpliceBehind("<" + tagName, AttrsText(attrs) + tail, v.0, v.1, "");
    }
  }

  lemma TagFront(tagName: string, attrs: seq<Attr>, tail: string)
    ensures TagText(tagName, attrs, tail) == ("<" + tagName) + (AttrsText(attrs) + tail)
  {
    hide AttrsText;
  }

  // ---- plain tags are start tags ----

  /** No `>` inside, and no slash at the end. */
  predicate Inside(s: string) { (forall i :: 0 <= i < |s| ==> s[i] != '>') && (|s| > 0 ==> s[|s| - 1] != '/') }

  lemma InsideConcat(a: string, b: string)
    requires Inside(a) && Inside(b)
    ensures Inside(a + b)
  {
  }

  lemma AttrInside(a: Attr)
    requires AttrOK(a)
    ensures Inside(AttrText(a))
  {
    InsideConcat(a.eqPost, [a.quote]);
    InsideConcat("=", a.eqPost + [a.quote]);
    InsideConcat(a.eqPre, "=" + (a.eqPost + [a.quote]));
    InsideConcat(a.name, a.eqPre + ("=" + (a.eqPost + [a.quote])));
    InsideConcat(a.pre, a.name + (a.eqPre + ("=" + (a.eqPost + [a.quote]))));
    var w := a.value + [a.quote];
    assert Inside(w);
    InsideConcat(Front(a), w);
  }

  lemma {:induction false} AttrsInside(attrs: seq<Attr>)
    requires AllOK(attrs)
    ensures Inside(AttrsText(attrs))
  {
    hide AllOK, AttrText, Inside;
    if attrs != [] {
      AllTail(attrs);
      AttrInside(attrs[0]);
      AttrsInside(attrs[1..]);
      InsideConcat(AttrText(attrs[0]), AttrsText(attrs[1..]));
    } else {
      assert Inside("") by { NoInside(); }
    }
  }

  lemma NoInside()
    ensures Inside("")
  {
  }

  lemma TagInside(tagName: string, attrs: seq<Attr>, tail: string)
    requires TagParts(tagName, attrs, tail)
    ensures Inside(TagText(tagName, attrs, tail)) && |TagText(tagName, attrs, tail)| > 1
  {
    hide AttrsOK, AllOK, AttrsText;
    PartsOK(tagName, attrs, tail);
    AttrsInside(attrs);
    InsideConcat(AttrsText(attrs), tail);
    InsideConcat(tagName, AttrsText(attrs) + tail);
    InsideConcat("<", tagName + (AttrsText(attrs) + tail));
  }

  /** A start tag of this form is well-formed, and if it is an empty element it can be opened up. */
  lemma PlainTagOK(c: Forest, tagName: string, attrs: seq<Attr>, tail: string)
    requires c.Cons? && TagParts(tagName, attrs, tail) && c.tag == TagText(tagName, attrs, tail)
    ensures TagOK(c) && TagName(c) == tagName && CanSplit(c)
  {
    hide *;
    var o := OpenText(c);
    OpenIs(c);
    TagInside(tagName, attrs, tail);
    PlainStart(o, c.tag, if c.empty then "/>" else ">", tagName, attrs, tail);
    InsideEnd(c.tag, o);
    NextTagHere(o, 0);
    PlainName(c, tagName);
  }

  lemma OpenIs(c: Forest)
    requires c.Cons?
    ensures OpenText(c) == c.tag + (if c.empty then "/>" else ">")
  {
  }

  lemma PlainStart(o: string, tag: string, close: string, tagName: string, attrs: seq<Attr>, tail: string)
    requires TagParts(tagName, attrs, tail) && tag == TagText(tagName, attrs, tail) && o == tag + close
        && (close == ">" || close == "/>")
    ensures |tag| > 1 && o[0] == '<' && FindToken(o, 1) == Token(true, 1, |tagName|, 1 + |tagName|, false)
        && TokenText(o, FindToken(o, 1)) == tagName
    ensures 1 < 1 + |tagName| <= |tag| && IsWordChar(tagName[0]) && o[1] != '?' && o[1] != '!' && o[1] != '/'
  {
    hide AttrsOK, AttrsText, FindToken, TokenText, FindAttrib, Inside;
    TagInside(tagName, attrs, tail);
    assert Has(o, 0, tag);
    HasConcat(o, 0, "<", tagName + (AttrsText(attrs) + tail));
    HasConcat(o, 1, tagName, AttrsText(attrs) + tail);
    TagStart(o, 0, tagName, attrs, tail, "");
    HasFirst(o, 1, tagName);
    assert IsWordChar(tagName[0]);
  }

  lemma InsideEnd(tag: string, o: string)
    requires Inside(tag) && |tag| > 1 && (o == tag + ">" || o == tag + "/>")
    ensures forall n: nat {:trigger FindChar(o, n, '>')} :: n <= |tag| ==> FindChar(o, n, '>') == |o| - 1
    ensures o[|o| - 2] == '/' <==> o != tag + ">"
    ensures tag[|tag| - 1] != '/'
  {
    forall n: nat | n <= |tag|
      ensures FindChar(o, n, '>') == |o| - 1
    {
      FirstIs(o, n, |o| - 1, '>');
    }
    assert |o| == |tag| + 1 || |o| == |tag| + 2;
    assert o[|tag| - 1] == tag[|tag| - 1];
  }

  lemma PlainName(c: Forest, name: string)
    requires c.Cons? && |c.tag| > 1 && |name| > 0
    requires NextTag(OpenText(c), 0) == OpenTag(0, name, |OpenText(c)| - 1) && IsWordChar(name[0])
    requires OpenText(c)[|OpenText(c)| - 2] == '/' <==> c.empty
    requires c.tag[|c.tag| - 1] != '/'
    ensures TagOK(c) && TagName(c) == name && CanSplit(c)
  {
    hide NextTag, OpenText;
  }

  /** The raw value of an attribute in a start tag, as the search finds it. */
  function AttrOf(tag: string, name: string): Option<string> {
    var s := tag + ">";
    match FindAttrib(s, 1, 0, 0, name)
    case None => None
    case Some(t) => Some(s[t.l..t.r + 1])
  }

  lemma AttrOfIs(tagName: string, attrs: seq<Attr>, tail: string, name: string)
    requires TagParts(tagName, attrs, tail) && ValidName(name)
    ensures AttrOf(TagText(tagName, attrs, tail), name) == Lookup(attrs, name)
  {
    hide FindAttrib, TagParts, Lookup, TagText, ValueAt, ValidName;
    var tag := TagText(tagName, attrs, tail);
    var s := tag + ">";
    assert Has(s, 0, tag);
    SearchTag(s, 0, tagName, attrs, tail, name);
  }
}
