/**
  Base64 (section 4 of RFC 4648): the codes, the two encoders and the two decoders as
  functions, and how they fit together.
 */
module Base64 {
  import opened Common

  type Byte = x: int | 0 <= x < 256

  const UPPER := "ABCDEFGHIJKLMNOPQRSTUVWXYZ"
  const LOWER := "abcdefghijklmnopqrstuvwxyz"
  const OTHER := "0123456789+/"
  const CODES := UPPER + LOWER + OTHER
  const PAD := '='

  function Code(v: int): char
    requires 0 <= v < 64
  {
    CODES[v]
  }

  /** The codes by their ASCII values. */
  function Ascii(v: int): int
    requires 0 <= v < 64
  {
    if v < 26 then v + 65 else if v < 52 then v + 71 else if v < 62 then v - 4 else if v == 62 then 43 else 47
  }

  lemma CodeAscii(v: int)
    requires 0 <= v < 64
    ensures Code(v) as int == Ascii(v)
  {
    if v < 26 { Upper(v); } else if v < 52 { Lower(v - 26); } else { Digits(v - 52); }
  }

  lemma Upper(v: int)
    requires 0 <= v < 26
    ensures UPPER[v] as int == v + 65
  {
  }

  lemma Lower(v: int)
    requires 0 <= v < 26
    ensures LOWER[v] as int == v + 97
  {
  }

  lemma Digits(v: int)
    requires 0 <= v < 12
    ensures OTHER[v] as int == if v < 10 then v + 48 else if v == 10 then 43 else 47
  {
  }

  // ---- groups ----

  /** Three bytes as one number; missing bytes are 0. */
  function Number(b: seq<Byte>): (n: int)
    requires 1 <= |b| <= 3
    ensures 0 <= n < 0x100_0000
  {
    var b0: int, b1: int, b2: int := b[0], if |b| > 1 then b[1] else 0, if |b| > 2 then b[2] else 0;
    (b0 * 256 + b1) * 256 + b2
  }

  /** Six bits at a time, from the right. */
  function Six(n: int, k: nat): (v: int)
    requires 0 <= n
    ensures 0 <= v < 64
  {
    if k == 0 then n % 64 else Six(n / 64, k - 1)
  }

  /** The four characters for up to three bytes. */
  function Group(b: seq<Byte>): (s: string)
    requires 1 <= |b| <= 3
    ensures |s| == 4
  {
    var n := Number(b);
    [Code(Six(n, 3)), Code(Six(n, 2)), if |b| < 2 then PAD else Code(Six(n, 1)), if |b| < 3 then PAD
        else Code(Six(n, 0))]
  }

  /** The first group of bytes, and the rest. */
  function First(b: seq<Byte>): (r: seq<Byte>)
    requires b != []
    ensures 1 <= |r| <= 3
  {
    if |b| < 3 then b else b[..3]
  }

  function Rest(b: seq<Byte>): seq<Byte> { if |b| < 3 then [] else b[3..] }

  /** `base64_encode`: group after group. */
  function Flat(b: seq<Byte>): (s: string)
    ensures |s| == (|b| + 2) / 3 * 4
    decreases |b|
  {
    hide Group;
    Thirds(|b|);
    if b == [] then "" else Group(First(b)) + Flat(Rest(b))
  }

  lemma Thirds(n: nat)
    ensures n >= 3 ==> (n + 2) / 3 * 4 == (n - 3 + 2) / 3 * 4 + 4
    ensures 0 < n < 3 ==> (n + 2) / 3 * 4 == 4
  {
  }

  /** The alphabet of the standard. */
  lemma Alphabet(v: int)
    requires 0 <= v < 64
    ensures v < 26 ==> Code(v) == ('A' as int + v) as char
    ensures 26 <= v < 52 ==> Code(v) == ('a' as int + (v - 26)) as char
    ensures 52 <= v < 62 ==> Code(v) == ('0' as int + (v - 52)) as char
    ensures v == 62 ==> Code(v) == '+'
    ensures v == 63 ==> Code(v) == '/'
  {
    CodeAscii(v);
  }

  /** What one group says: four times six bits are three bytes, the first ones first. */
  lemma GroupBits(b: seq<Byte>, v: seq<int>)
    requires |b| == 3 && |v| == 4 && forall i :: 0 <= i < 4 ==> 0 <= v[i] < 64
    requires b[0] == v[0] * 4 + v[1] / 16 && b[1] == v[1] % 16 * 16 + v[2] / 4 && b[2] == v[2] % 4 * 64 + v[3]
    ensures Group(b) == [Code(v[0]), Code(v[1]), Code(v[2]), Code(v[3])]
    ensures b[2] == 0 ==> Group(b[..2]) == [Code(v[0]), Code(v[1]), Code(v[2]), '=']
    ensures b[1] == b[2] == 0 ==> Group(b[..1]) == [Code(v[0]), Code(v[1]), '=', '=']
  {
    hide Code;
    var n := ((v[0] * 64 + v[1]) * 64 + v[2]) * 64 + v[3];
    assert Number(b) == n;
    SixOf(n, v[0], v[1], v[2], v[3]);
    if b[2] == 0 { assert Number(b[..2]) == n; }
    if b[1] == b[2] == 0 { assert Number(b[..1]) == n; }
  }

  lemma SixOf(n: int, a: int, b: int, c: int, d: int)
    requires 0 <= a < 64 && 0 <= b < 64 && 0 <= c < 64 && 0 <= d < 64 && n == ((a * 64 + b) * 64 + c) * 64 + d
    ensures Six(n, 0) == d && Six(n, 1) == c && Six(n, 2) == b && Six(n, 3) == a
  {
    assert n / 64 == (a * 64 + b) * 64 + c;
    assert n / 64 / 64 == a * 64 + b;
    assert n / 64 / 64 / 64 == a;
    assert Six(n, 1) == Six(n / 64, 0);
    assert Six(n, 2) == Six(n / 64, 1) == Six(n / 64 / 64, 0);
    assert Six(n, 3) == Six(n / 64, 2) == Six(n / 64 / 64, 1) == Six(n / 64 / 64 / 64, 0);
  }

  /** How many pad characters the last group has. */
  function Pads(n: nat): nat { if n % 3 == 0 then 0 else 3 - n % 3 }

  // ---- lines ----

  /** `EncodeBase64` after the first line break, `g` groups into the line count. */
  function Lines(b: seq<Byte>, g: nat): string
    decreases |b|
  {
    if b == [] then ""
    else Group(First(b)) + ((if (g + 1) % 16 == 0 || |b| < 3 then CRLF else "") + Lines(Rest(b), g + 1))
  }

  function Wrapped(b: seq<Byte>): string { CRLF + Lines(b, 0) }

  /** Text broken after every 64 characters; a padded last line is broken too. */
  function Broken(s: string, padded: bool): string {
    if s == "" then "" else if |s| < 64 then s + (if padded then CRLF else "")
        else s[..64] + (CRLF + Broken(s[64..], padded))
  }

  /** The line breaks stand after every 64 code characters exactly. */
  lemma {:induction false} LinesBroken(b: seq<Byte>, g: nat, front: string)
    requires |front| == g % 16 * 4
    ensures front + Lines(b, g) == if b == [] then front else Broken(front + Flat(b), Pads(|b|) != 0)
    decreases |b|
  {
    hide *;
    LinesTurn(b, g);
    if b != [] {
      var s, more := Group(First(b)), Rest(b);
      if (g + 1) % 16 == 0 {
        LinesBroken(more, g + 1, "");
        RestPads(b);
        NoCodes(more);
        LineFull(front, s, Flat(more), Lines(more, g + 1), |more| > 0, Pads(|b|) != 0);
      } else {
        if |b| >= 3 { LinesBroken(more, g + 1, front + s); }
        RestPads(b);
        NoCodes(more);
        LineOpen(front, s, Flat(more), Lines(more, g + 1), |b|, |more|, Pads(|b|) != 0);
      }
    }
  }

  lemma LinesTurn(b: seq<Byte>, g: nat)
    ensures b == [] ==> Lines(b, g) == "" && Flat(b) == ""
    ensures b != [] ==>
      && Lines(b, g) == Group(First(b)) + ((if (g + 1) % 16 == 0 || |b| < 3 then CRLF else "") + Lines(Rest(b), g + 1))
      && Flat(b) == Group(First(b)) + Flat(Rest(b)) && |Rest(b)| == (if |b| < 3 then 0 else |b| - 3)
  {
    hide Group;
  }

  lemma NoCodes(b: seq<Byte>)
    ensures b == [] ==> Flat(b) == "" && forall g :: Lines(b, g) == ""
  {
  }

  /** The last group is padded in the rest too. */
  lemma RestPads(b: seq<Byte>)
    requires b != []
    ensures |b| >= 3 ==> Pads(|Rest(b)|) == Pads(|b|)
    ensures |b| < 3 ==> Pads(|b|) != 0 && Rest(b) == []
    ensures |b| > 3 ==> Rest(b) != []
    ensures |b| == 3 ==> Rest(b) == [] && Pads(|b|) == 0
  {
  }

  lemma LineFull(front: string, s: string, flat: string, lines: string, more: bool, padded: bool)
    requires |front + s| == 64 && "" + lines == if more then Broken("" + flat, padded) else ""
    requires !more ==> flat == "" && lines == ""
    ensures front + (s + (CRLF + lines)) == Broken(front + (s + flat), padded)
  {
    hide Broken;
    var w := front + (s + flat);
    assert w[..64] == front + s && w[64..] == flat;
    NoFront(lines);
    NoFront(flat);
    if !more { BrokenNone(padded); }
    BrokenTurn(w, padded);
    ThreeParts(front, s, CRLF + lines);
  }

  lemma NoFront(s: string)
    ensures "" + s == s
  {
  }

  lemma ThreeParts(a: string, b: string, c: string)
    ensures a + (b + c) == (a + b) + c
  {
  }

  lemma BrokenTurn(s: string, padded: bool)
    requires |s| >= 64
    ensures Broken(s, padded) == s[..64] + (CRLF + Broken(s[64..], padded))
  {
  }

  lemma LineOpen(front: string, s: string, flat: string, lines: string, n: nat, m: nat, padded: bool)
    requires |front + s| < 64 && n > 0 && |s| > 0
    requires n < 3 ==> m == 0 && padded
    requires n == 3 ==> m == 0 && !padded
    requires n > 3 ==> m > 0
    requires m == 0 ==> flat == "" && lines == ""
    requires n >= 3 ==> (front + s) + lines == if m == 0 then front + s else Broken((front + s) + flat, padded)
    ensures front + (s + ((if n < 3 then CRLF else "") + lines)) == Broken(front + (s + flat), padded)
  {
    hide Broken;
    assert front + (s + flat) == (front + s) + flat;
    if m == 0 {
      BrokenShort(front + s, padded);
      assert (front + s) + flat == front + s;
      assert front + (s + (CRLF + "")) == (front + s) + CRLF;
      assert front + (s + ("" + "")) == (front + s) + "";
    } else {
      assert front + (s + ("" + lines)) == (front + s) + lines;
    }
  }

  lemma BrokenShort(s: string, padded: bool)
    requires 0 < |s| < 64
    ensures Broken(s, padded) == s + (if padded then CRLF else "")
  {
  }

  /** The wrapped encoder breaks the lines of the flat one. */
  lemma WrappedBroken(b: seq<Byte>)
    ensures Wrapped(b) == CRLF + Broken(Flat(b), Pads(|b|) != 0)
  {
    hide *;
    LinesBroken(b, 0, "");
    WrappedIs(b);
    NoCodes(b);
    BrokenNone(Pads(|b|) != 0);
    assert "" + Lines(b, 0) == Lines(b, 0) && "" + Flat(b) == Flat(b);
  }

  lemma WrappedIs(b: seq<Byte>)
    ensures Wrapped(b) == CRLF + Lines(b, 0)
  {
    hide Lines;
  }

  lemma BrokenNone(padded: bool)
    ensures Broken("", padded) == ""
  {
  }

  /** Text without CR and LF. */
  function Strip(s: string): string {
    if s == "" then "" else (if s[0] == '\r' || s[0] == '\n' then "" else [s[0]]) + Strip(s[1..])
  }

  lemma {:induction false} StripConcat(s: string, t: string)
    ensures Strip(s + t) == Strip(s) + Strip(t)
  {
    if s == "" {
      assert s + t == t;
    } else {
      assert (s + t)[1..] == s[1..] + t;
      StripConcat(s[1..], t);
    }
  }

  lemma {:induction false} StripKeeps(s: string)
    requires forall i :: 0 <= i < |s| ==> s[i] != '\r' && s[i] != '\n'
    ensures Strip(s) == s
  {
    if s != "" { StripKeeps(s[1..]); }
  }

  lemma CodePlain(v: int)
    requires 0 <= v < 64
    ensures Code(v) != '\r' && Code(v) != '\n' && Code(v) != PAD && 42 < Code(v) as int < 123
  {
    CodeAscii(v);
  }

  lemma GroupPlain(b: seq<Byte>)
    requires 1 <= |b| <= 3
    ensures Strip(Group(b)) == Group(b)
  {
    hide Code, Six;
    var n := Number(b);
    CodePlain(Six(n, 0));
    CodePlain(Six(n, 1));
    CodePlain(Six(n, 2));
    CodePlain(Six(n, 3));
    StripKeeps(Group(b));
  }

  /** The two encoders agree: without CR and LF the wrapped text is the flat one. */
  lemma {:induction false} LinesFlat(b: seq<Byte>, g: nat)
    ensures Strip(Lines(b, g)) == Flat(b)
    decreases |b|
  {
    hide Group, Strip;
    if b == [] {
      StripKeeps("");
    } else {
      var brk := if (g + 1) % 16 == 0 || |b| < 3 then CRLF else "";
      StripBreak(brk);
      GroupPlain(First(b));
      StripConcat(Group(First(b)), brk + Lines(Rest(b), g + 1));
      StripConcat(brk, Lines(Rest(b), g + 1));
      LinesFlat(Rest(b), g + 1);
      assert "" + Flat(Rest(b)) == Flat(Rest(b));
    }
  }

  lemma StripBreak(s: string)
    requires s == "" || s == CRLF
    ensures Strip(s) == ""
  {
    if s == CRLF { assert s[1..] == "\n" && s[1..][1..] == ""; }
  }

  lemma WrappedFlat(b: seq<Byte>)
    ensures Strip(Wrapped(b)) == Flat(b)
  {
    hide Strip;
    StripConcat(CRLF, Lines(b, 0));
    StripBreak(CRLF);
    LinesFlat(b, 0);
    assert "" + Flat(b) == Flat(b);
  }

  // ---- sizes ----

  /** The size `EncodeBase64` reserves. */
  function Reserved(n: nat): nat {
    var m := n + n / 3 + 3;
    m + m / 64 * 2 + 4
  }

  lemma {:induction false} BrokenLen(s: string, padded: bool)
    ensures |Broken(s, padded)| == |s| + |s| / 64 * 2 + (if padded && |s| % 64 != 0 then 2 else 0)
    decreases |s|
  {
    if |s| >= 64 { BrokenLen(s[64..], padded); }
  }

  /** The reserved size is enough, and for one byte more than a multiple of three whose text does
      not end a line there is nothing to spare. */
  lemma WrappedFits(b: seq<Byte>)
    ensures |Wrapped(b)| <= Reserved(|b|)
    ensures |b| % 3 == 1 && |Flat(b)| % 64 != 0 ==> |Wrapped(b)| == Reserved(|b|)
  {
    hide *;
    WrappedBroken(b);
    BrokenLen(Flat(b), Pads(|b|) != 0);
    FitsLen(|b|);
    CrlfLen(CRLF, Broken(Flat(b), Pads(|b|) != 0));
    PadsIs(|b|);
    ReservedIs(|b|);
    Enough(|Flat(b)|, |b| + |b| / 3 + 3, |b| % 3);
  }

  lemma CrlfLen(c: string, s: string)
    requires c == CRLF
    ensures |c + s| == 2 + |s|
  {
  }

  lemma PadsIs(n: nat)
    ensures Pads(n) != 0 <==> n % 3 != 0
  {
  }

  lemma ReservedIs(n: nat)
    ensures var m := n + n / 3 + 3; Reserved(n) == m + m / 64 * 2 + 4
  {
  }

  lemma Enough(c: nat, m: nat, r: nat)
    requires r < 3 && (r == 0 ==> c + 3 == m) && (r == 1 ==> c == m) && (r == 2 ==> c + 1 == m)
    ensures 2 + c + c / 64 * 2 + (if r != 0 && c % 64 != 0 then 2 else 0) <= m + m / 64 * 2 + 4
    ensures r == 1 && c % 64 != 0 ==> 2 + c + c / 64 * 2 + 2 == m + m / 64 * 2 + 4
  {
    assert c / 64 <= m / 64;
  }

  lemma FitsLen(n: nat)
    ensures var c := (n + 2) / 3 * 4;
      && c <= n + n / 3 + 3 && (n % 3 == 1 ==> c == n + n / 3 + 3) && (n % 3 == 0 ==> c + 3 == n + n / 3 + 3)
      && (n % 3 == 2 ==> c + 1 == n + n / 3 + 3)
  {
    var q, r := n / 3, n % 3;
    assert n == 3 * q + r;
    assert (n + 2) / 3 == if r == 0 then q else q + 1;
  }
}
