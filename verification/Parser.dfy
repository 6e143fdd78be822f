/**
  What the parser computes: a function from text to the element tree.

  An element is kept with its own text.  `tag` is the start tag up to, but not
  including, its closing `>` or `/>`; `head` is the text between the start tag and
  the first child; `gap` is the text between the element and what follows it;
  `close` is the whole end tag.  Siblings and children are linked the way the
  position array links them: first child, next sibling.
 */
module Parser {
  import opened Scanner

  datatype Forest =
    | Nil
    | Cons(id: nat, tag: string, empty: bool, head: string, kids: Forest, close: string, gap: string, next: Forest)

  /** The start tag with its closing bracket. */
  function OpenText(c: Forest): string
    requires c.Cons?
  {
    c.tag + (if c.empty then "/>" else ">")
  }

  /** The text of one element, without the gap after it. */
  function Body(c: Forest): string
    requires c.Cons?
    decreases c, 0
  {
    if c.empty then OpenText(c) else OpenText(c) + (c.head + (Text(c.kids) + c.close))
  }

  function Text(f: Forest): string
    decreases f, 1
  {
    if f.Nil? then "" else Body(f) + (f.gap + Text(f.next))
  }

  /** The text from the end of the children on. */
  function Behind(c: Forest): string
    requires c.Cons?
  {
    c.close + (c.gap + Text(c.next))
  }

  /** The number of elements. */
  function Size(f: Forest): nat {
    if f.Nil? then 0 else 1 + Size(f.kids) + Size(f.next)
  }

  /** The same tree with its elements numbered in document order from `id`. */
  function Renumber(f: Forest, id: nat): (r: Forest)
    ensures Text(r) == Text(f) && Size(r) == Size(f)
    ensures r.Cons? == f.Cons?
  {
    if f.Nil? then Nil
    else f.(id := id, kids := Renumber(f.kids, id + 1), next := Renumber(f.next, id + 1 + Size(f.kids)))
  }

  // ---- the start tag loop and the end tag loop ----

  /** What the start tag loop comes to: a start tag from `l` to its `>` at `r`, an
      end tag at `l` whose slash is before `next`, a parse error, or no progress. */
  datatype Lex = OpenTag(l: nat, name: string, r: nat) | CloseTag(l: nat, next: nat) | NoTag | Endless

  /** A start tag runs to the next `>`; an end tag begins with a slash. */
  function TagAt(s: string, j: nat, t: Token): (x: Lex)
    requires j < |s| && t.found && !t.isString && j < t.l < t.next <= |s| && t.l <= t.r + 1 <= |s|
    ensures x.OpenTag? ==> j == x.l && j + 1 < x.r < |s| && s[x.r] == '>'
    ensures x.CloseTag? ==> x == CloseTag(j, t.next) && s[t.l] == '/'
    ensures !x.Endless?
  {
    if s[t.l] == '/' then CloseTag(j, t.next)
    else
      var r := FindChar(s, t.next, '>');
      if r == |s| then NoTag else OpenTag(j, TokenText(s, t), r)
  }

  /** The start tag loop: find `<`, pass over what begins with `?` or `!`. */
  function NextTag(s: string, n: nat): (x: Lex)
    requires n <= |s|
    ensures x.OpenTag? ==> n <= x.l && x.l + 1 < x.r < |s| && s[x.l] == '<' && s[x.r] == '>'
    ensures x.CloseTag? ==> n <= x.l && x.l + 1 < x.next <= |s| && s[x.l] == '<'
    decreases |s| - n
  {
    hide FindToken, ParseNode, FindChar, TagAt;
    var j := FindChar(s, n, '<');
    if j == |s| then NoTag
    else
      var t := FindToken(s, j + 1);
      if !t.found || t.isString then NoTag
      else if s[t.l] == '?' || s[t.l] == '!' then
        var nd := ParseNode(s, j);
        if nd.kind == NoNode then NoTag
        else if nd.next <= j then Endless
        else NextTag(s, nd.next)
      else TagAt(s, j, t)
  }

  /** The end tag loop from token number `count + 1`: the position of the `>` of
      an end tag whose name matches. */
  function EndTag(s: string, n: nat, count: nat, name: string): (r: Option<nat>)
    requires n <= |s|
    ensures r.Some? ==> n <= r.value < |s| && s[r.value] == '>'
    decreases |s| - n
  {
    var t := FindToken(s, n);
    if !t.found then None
    else if t.isString then EndTag(s, t.next, count + 1, name)
    else if count == 0 && s[t.l] != '/' then None
    else if count == 1 && !Match(TokenText(s, t), name) then None
    else if count > 0 && s[t.l] == '>' then Some(t.l)
    else EndTag(s, t.next, count + 1, name)
  }

  // ---- elements ----

  /** An element with the text passed over before it, or the end tag of the
      parent at `l`, or an error. */
  datatype ElemResult = Elem(lead: string, cell: Forest, next: nat,
      ids: nat) | EndHere(l: nat) | ElemError | ElemEndless

  datatype KidsResult = Kids(head: string, kids: Forest, l: nat, ids: nat) | KidsError | KidsEndless

  /** One element at or after `p`, its subtree numbered from `id`. */
  function ParseElem(s: string, p: nat, id: nat): (x: ElemResult)
    requires p <= |s|
    ensures x.Elem? ==> p < x.next <= |s| && x.cell.Cons? && x.cell.next.Nil? && x.cell.gap == ""
    ensures x.EndHere? ==> p <= x.l < |s| && NextTag(s, p).CloseTag? && x.l == NextTag(s, p).l
    decreases |s| - p, 0
  {
    match NextTag(s, p)
    case NoTag => ElemError
    case Endless => ElemEndless
    case CloseTag(l, _) => EndHere(l)
    case OpenTag(l, name, r) =>
      if s[r - 1] == '/' then
        Elem(s[p..l], Cons(id, s[l..r - 1], true, "", Nil, "", "", Nil), r + 1, id + 1)
      else
        match ParseKids(s, r + 1, id + 1)
        case KidsError => ElemError
        case KidsEndless => ElemEndless
        case Kids(head, kids, e, ids) =>
          match EndTag(s, e + 1, 0, name)
          case None => ElemError
          case Some(q) => Elem(s[p..l], Cons(id, s[l..r], false, head, kids, s[e..q + 1], "", Nil), q + 1, ids)
  }

  /** The elements from `p` up to an end tag. */
  function ParseKids(s: string, p: nat, id: nat): (x: KidsResult)
    requires p <= |s|
    ensures x.Kids? ==> p <= x.l < |s|
    decreases |s| - p, 1
  {
    match ParseElem(s, p, id)
    case ElemError => KidsError
    case ElemEndless => KidsEndless
    case EndHere(l) => Kids(s[p..l], Nil, l, id)
    case Elem(lead, c, q, ids) =>
      match ParseKids(s, q, ids)
      case KidsError => KidsError
      case KidsEndless => KidsEndless
      case Kids(head, f, l, ids') => Kids(lead, c.(gap := head, next := f), l, ids')
  }

  // ---- well-formed pieces ----

  /** Text the start tag loop passes over: no `<` but at a comment, processing
      instruction, document type or CDATA section that ends inside the text. */
  predicate GapOK(g: string, n: nat)
    requires n <= |g|
    decreases |g| - n
  {
    var j := FindChar(g, n, '<');
    j == |g| || (IsMisc(ParseNode(g, j).kind) && GapOK(g, ParseNode(g, j).next))
  }

  function TagName(c: Forest): string
    requires c.Cons?
  {
    match NextTag(OpenText(c), 0)
    case OpenTag(_, name, _) => name
    case _ => ""
  }

  /** The start tag is one start tag, and ends the way `empty` says. */
  predicate TagOK(c: Forest)
    requires c.Cons?
  {
    var o := OpenText(c);
    NextTag(o, 0) == OpenTag(0, TagName(c), |o| - 1) && (o[|o| - 2] == '/' <==> c.empty)
  }

  /** The end tag is one end tag that matches `name`. */
  predicate CloseOK(close: string, name: string) {
    |close| > 0 && NextTag(close, 0).CloseTag? && NextTag(close, 0).l == 0
        && EndTag(close, 1, 0, name) == Some(|close| - 1)
  }

  predicate CellOK(c: Forest)
    requires c.Cons?
  {
    TagOK(c) &&
    if c.empty then c.head == "" && c.kids.Nil? && c.close == ""
    else GapOK(c.head, 0) && CloseOK(c.close, TagName(c))
  }

  /** Every element of the forest is well-formed, and every gap is passed over. */
  predicate WF(f: Forest) {
    f.Nil? || (CellOK(f) && WF(f.kids) && GapOK(f.gap, 0) && WF(f.next))
  }

  /** A single well-formed element, whatever follows it. */
  predicate WFTree(c: Forest) { c.Cons? && CellOK(c) && WF(c.kids) }
}
