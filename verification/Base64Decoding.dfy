/**
  The two Base64 decoders as functions, and the round trips.
 */
module Base64Decoding {
  import opened Common
  import opened Base64

  // ---- the decoder that skips line breaks (section 6.8 of RFC 2045) ----

  /** Bitwise or. */
  function Or(a: nat, b: nat): nat {
    if a == 0 && b == 0 then 0 else 2 * Or(a / 2, b / 2) + (if a % 2 == 1 || b % 2 == 1 then 1 else 0)
  }

  lemma {:induction false} OrHigh(a: nat, b: nat, k: nat)
    requires b < Pow2(k)
    ensures Or(a * Pow2(k), b) == a * Pow2(k) + b
    decreases k
  {
    if k == 0 {
      OrZero(a);
    } else {
      var p := Pow2(k - 1);
      Doubled(a, p);
      OrHigh(a, b / 2, k - 1);
    }
  }

  lemma Doubled(a: nat, p: nat)
    ensures a * (2 * p) == 2 * (a * p) && (a * (2 * p)) / 2 == a * p && (a * (2 * p)) % 2 == 0
  {
    assert a * (2 * p) == 2 * (a * p);
  }

  lemma {:induction false} OrZero(a: nat)
    ensures Or(a * 1, 0) == a
    decreases a
  {
    if a > 0 { OrZero(a / 2); }
  }

  /** Or-ing six bits behind a number shifted left by six. */
  lemma OrSix(a: nat, v: nat)
    requires v < 64
    ensures Or(a * 64, v) == a * 64 + v
  {
    assert Pow2(6) == 2 * Pow2(5) && Pow2(5) == 2 * Pow2(4) && Pow2(4) == 2 * Pow2(3) && Pow2(3) == 2 * Pow2(2)
        && Pow2(2) == 2 * Pow2(1) && Pow2(1) == 2 * Pow2(0);
    OrHigh(a, v, 6);
  }

  /** What a character adds, by its ASCII value; `=` and anything else below `+` adds nothing. */
  function Value(c: int): nat
    requires 0 <= c < 256
  {
    if c > 96 then c - 71
    else if c > 64 then c - 65
    else if c == 61 then 0
    else if c > 47 then c + 4
    else if c == 47 then 63
    else if c == 43 then 62
    else 0
  }

  lemma ValueOfCode(v: int)
    requires 0 <= v < 64
    ensures 0 <= Code(v) as int < 128 && Value(Code(v) as int) == v && Code(v) != PAD && Code(v) != '\r'
        && Code(v) != '\n'
  {
    CodeAscii(v);
  }

  /** Three bytes of a number, from the left. */
  function Bytes(n: nat): (b: seq<Byte>)
    ensures |b| == 3
  {
    [n / 256 / 256 % 256, n / 256 % 256, n % 256]
  }

  /** The bytes of a complete group; each pad character so far takes one away. */
  function Fill(n: nat, pad: nat): seq<Byte> { if pad > 3 then [] else Bytes(n)[..3 - pad] }

  function CharCode(c: char): (r: int)
    ensures 0 <= r < 256
  {
    c as int % 256
  }

  predicate IsBreak(c: char) { CharCode(c) == 13 || CharCode(c) == 10 }

  predicate IsPad(c: char) { CharCode(c) == 61 }

  /** `DecodeBase64` with room for everything: `cnt` characters of the current group are
      read into `acc`, and `pad` pad characters have been seen in all. */
  function Decode(s: string, cnt: nat, acc: nat, pad: nat): seq<Byte>
    requires cnt < 4
  {
    if s == "" then []
    else if IsBreak(s[0]) then Decode(s[1..], cnt, acc, pad)
    else
      var acc' := Or(acc * 64, Value(CharCode(s[0])));
      var pad' := pad + if IsPad(s[0]) then 1 else 0;
      if cnt == 3 then Fill(acc', pad') + Decode(s[1..], 0, 0, pad') else Decode(s[1..], cnt + 1, acc', pad')
  }

  lemma DecodeBreak(s: string, cnt: nat, acc: nat, pad: nat)
    requires cnt < 4
    ensures Decode(CRLF + s, cnt, acc, pad) == Decode(s, cnt, acc, pad)
  {
    var w := CRLF + s;
    assert w[0] == '\r' && w[1..][0] == '\n' && w[1..][1..] == s;
  }

  lemma DecodeStep(c: char, s: string, cnt: nat, acc: nat, pad: nat)
    requires cnt < 4 && !IsBreak(c)
    ensures var acc' := Or(acc * 64, Value(CharCode(c)));
      var pad' := pad + if IsPad(c) then 1 else 0;
      Decode([c] + s, cnt, acc, pad) == if cnt == 3 then Fill(acc', pad') + Decode(s, 0, 0, pad')
          else Decode(s, cnt + 1, acc', pad')
  {
    var w := [c] + s;
    assert w[0] == c && w[1..] == s;
    hide Or, Fill, Value;
  }

  /** One character of a group. */
  function CharOf(v: int, isPad: bool): char
    requires 0 <= v < 64
  {
    if isPad then PAD else Code(v)
  }

  lemma DecodeChar(v: int, isPad: bool, s: string, cnt: nat, acc: nat, pad: nat)
    requires 0 <= v < 64 && cnt < 4
    ensures var acc' := acc * 64 + if isPad then 0 else v;
      var pad' := pad + if isPad then 1 else 0;
      Decode([CharOf(v, isPad)] + s, cnt, acc, pad) == if cnt == 3 then Fill(acc', pad') + Decode(s, 0, 0, pad')
          else Decode(s, cnt + 1, acc', pad')
  {
    hide Decode, Or, Fill, Code;
    ValueOfCode(v);
    DecodeStep(CharOf(v, isPad), s, cnt, acc, pad);
    OrSix(acc, if isPad then 0 else v);
  }

  /** Four characters in a row. */
  lemma DecodeFour(a: int, b: int, c: int, d: int, pads: nat, s: string)
    requires 0 <= a < 64 && 0 <= b < 64 && 0 <= c < 64 && 0 <= d < 64 && pads <= 2
    ensures var n := ((a * 64 + b) * 64 + (if pads == 2 then 0 else c)) * 64 + (if pads >= 1 then 0 else d);
      var w := [CharOf(a, false), CharOf(b, false), CharOf(c, pads == 2), CharOf(d, pads >= 1)];
      Decode(w + s, 0, 0, 0) == Fill(n, pads) + Decode(s, 0, 0, pads)
  {
    hide *;
    var c0, c1, c2, c3 := CharOf(a, false), CharOf(b, false), CharOf(c, pads == 2), CharOf(d, pads >= 1);
    OneByOne(c0, c1, c2, c3, s);
    DecodeTwo(a, b, [c2] + ([c3] + s));
    DecodeEnd(c, d, pads, a * 64 + b, s);
  }

  lemma DecodeTwo(a: int, b: int, s: string)
    requires 0 <= a < 64 && 0 <= b < 64
    ensures Decode([CharOf(a, false)] + ([CharOf(b, false)] + s), 0, 0, 0) == Decode(s, 2, a * 64 + b, 0)
  {
    hide *;
    DecodeMid(a, false, [CharOf(b, false)] + s, 0, 0, 0);
    DecodeMid(b, false, s, 1, a, 0);
  }

  lemma DecodeEnd(c: int, d: int, pads: nat, acc: nat, s: string)
    requires 0 <= c < 64 && 0 <= d < 64 && pads <= 2
    ensures var n := (acc * 64 + (if pads == 2 then 0 else c)) * 64 + (if pads >= 1 then 0 else d);
      Decode([CharOf(c, pads == 2)] + ([CharOf(d, pads >= 1)] + s), 2, acc, 0) == Fill(n, pads) + Decode(s, 0, 0, pads)
  {
    hide *;
    DecodeMid(c, pads == 2, [CharOf(d, pads >= 1)] + s, 2, acc, 0);
    DecodeLast(d, pads >= 1, s, acc * 64 + (if pads == 2 then 0 else c), if pads == 2 then 1 else 0);
  }

  lemma DecodeMid(v: int, isPad: bool, s: string, cnt: nat, acc: nat, pad: nat)
    requires 0 <= v < 64 && cnt < 3
    ensures Decode([CharOf(v, isPad)] + s, cnt, acc, pad) == Decode(s, cnt + 1, acc * 64 + (if isPad then 0 else v),
        pad + (if isPad then 1 else 0))
  {
    hide *;
    DecodeChar(v, isPad, s, cnt, acc, pad);
  }

  lemma DecodeLast(v: int, isPad: bool, s: string, acc: nat, pad: nat)
    requires 0 <= v < 64
    ensures var pad' := pad + if isPad then 1 else 0;
      Decode([CharOf(v, isPad)] + s, 3, acc, pad) == Fill(acc * 64 + (if isPad then 0 else v), pad') + Decode(s, 0, 0,
          pad')
  {
    hide *;
    DecodeChar(v, isPad, s, 3, acc, pad);
  }

  lemma OneByOne(a: char, b: char, c: char, d: char, s: string)
    ensures [a, b, c, d] + s == [a] + ([b] + ([c] + ([d] + s)))
  {
  }

  lemma SixIs(n: nat)
    requires n < 0x100_0000
    ensures n == ((Six(n, 3) * 64 + Six(n, 2)) * 64 + Six(n, 1)) * 64 + Six(n, 0)
    ensures Six(n, 0) == n % 64 && Six(n, 1) == n / 64 % 64 && Six(n, 2) == n / 64 / 64 % 64
        && Six(n, 3) == n / 64 / 64 / 64
  {
    var n1, n2, n3 := n / 64, n / 64 / 64, n / 64 / 64 / 64;
    assert n3 < 64 && n3 % 64 == n3;
    assert Six(n, 1) == Six(n1, 0) == n1 % 64;
    assert Six(n, 2) == Six(n1, 1) == Six(n2, 0) == n2 % 64;
    assert Six(n, 3) == Six(n1, 2) == Six(n2, 1) == Six(n3, 0) == n3 % 64;
  }

  /** A group decodes to its bytes. */
  lemma DecodeGroup(b: seq<Byte>, s: string)
    requires 1 <= |b| <= 3
    ensures Decode(Group(b) + s, 0, 0, 0) == b + Decode(s, 0, 0, 3 - |b|)
  {
    hide *;
    var n := Number(b);
    SixIs(n);
    GroupIs(b);
    DecodeFour(Six(n, 3), Six(n, 2), Six(n, 1), Six(n, 0), 3 - |b|, s);
    GroupBytes(b);
  }

  lemma GroupIs(b: seq<Byte>)
    requires 1 <= |b| <= 3
    ensures var n := Number(b);
      Group(b) == [CharOf(Six(n, 3), false), CharOf(Six(n, 2), false), CharOf(Six(n, 1), |b| == 1),
          CharOf(Six(n, 0), |b| <= 2)]
  {
    hide Six, Code;
  }

  /** The missing bytes leave zeros behind: nothing is lost by the pad characters. */
  lemma GroupBytes(b: seq<Byte>)
    requires 1 <= |b| <= 3
    ensures var n := Number(b);
      var m := ((Six(n, 3) * 64 + Six(n, 2)) * 64 + (if |b| == 1 then 0 else Six(n, 1))) * 64 + (if |b| <= 2 then 0
          else Six(n, 0));
      Fill(m, 3 - |b|) == b
  {
    hide *;
    var n := Number(b);
    SixIs(n);
    NumberEnds(b);
    FillNumber(b);
  }

  lemma NumberEnds(b: seq<Byte>)
    requires 1 <= |b| <= 3
    ensures |b| <= 2 ==> Number(b) % 64 == 0
    ensures |b| == 1 ==> Number(b) / 64 % 64 == 0
  {
    ZeroSixes(b[0], if |b| > 1 then b[1] else 0, |b|, Number(b));
  }

  lemma FillNumber(b: seq<Byte>)
    requires 1 <= |b| <= 3
    ensures Fill(Number(b), 3 - |b|) == b
  {
    var b0: int, b1: int, b2: int := b[0], if |b| > 1 then b[1] else 0, if |b| > 2 then b[2] else 0;
    ThreeBytes(b0, b1, b2);
    assert Bytes(Number(b)) == [b0, b1, b2];
  }

  lemma ThreeBytes(b0: int, b1: int, b2: int)
    requires 0 <= b0 < 256 && 0 <= b1 < 256 && 0 <= b2 < 256
    ensures var n := (b0 * 256 + b1) * 256 + b2;
      n % 256 == b2 && n / 256 % 256 == b1 && n / 256 / 256 % 256 == b0
  {
    var n := (b0 * 256 + b1) * 256 + b2;
    assert n / 256 == b0 * 256 + b1;
    assert (b0 * 256 + b1) / 256 == b0;
  }

  lemma ZeroSixes(b0: int, b1: int, len: nat, n: int)
    requires 0 <= b0 < 256 && 0 <= b1 < 256
    ensures len == 1 && n == b0 * 65536 ==> n % 64 == 0 && n / 64 % 64 == 0
    ensures len == 2 && n == (b0 * 256 + b1) * 256 ==> n % 64 == 0
  {
    if len == 1 && n == b0 * 65536 { assert n == 64 * (b0 * 1024) && n / 64 == 64 * (b0 * 16); }
    if len == 2 && n == (b0 * 256 + b1) * 256 { assert n == 64 * ((b0 * 256 + b1) * 4); }
  }

  lemma {:induction false} DecodeLines(b: seq<Byte>, g: nat)
    ensures Decode(Lines(b, g), 0, 0, 0) == b
    decreases |b|
  {
    hide *;
    LinesTurn(b, g);
    if b == [] {
      DecodeNothing(0);
    } else {
      var brk := if (g + 1) % 16 == 0 || |b| < 3 then CRLF else "";
      var more := Rest(b);
      FirstRest(b);
      DecodeGroup(First(b), brk + Lines(more, g + 1));
      BreakAway(brk, Lines(more, g + 1), 3 - |First(b)|);
      if |b| < 3 {
        LinesTurn(more, g + 1);
        DecodeNothing(3 - |First(b)|);
      } else {
        DecodeLines(more, g + 1);
      }
    }
  }

  lemma FirstRest(b: seq<Byte>)
    requires b != []
    ensures First(b) + Rest(b) == b && (|b| >= 3 ==> |First(b)| == 3) && (|b| < 3 ==> Rest(b) == [])
  {
  }

  lemma BreakAway(brk: string, s: string, pad: nat)
    requires brk == "" || brk == CRLF
    ensures Decode(brk + s, 0, 0, pad) == Decode(s, 0, 0, pad)
  {
    hide Decode;
    if brk == CRLF { DecodeBreak(s, 0, 0, pad); } else { assert "" + s == s; }
  }

  lemma DecodeNothing(pad: nat)
    ensures Decode("", 0, 0, pad) == []
  {
  }

  /** Decoding what was encoded gives the bytes back, through line breaks and padding. */
  lemma DecodeWrapped(b: seq<Byte>)
    ensures Decode(Wrapped(b), 0, 0, 0) == b
  {
    hide Decode, Lines;
    DecodeBreak(Lines(b, 0), 0, 0, 0);
    DecodeLines(b, 0);
  }

  /** It decodes the flat text too. */
  lemma {:induction false} DecodeFlat(b: seq<Byte>)
    ensures Decode(Flat(b), 0, 0, 0) == b
    decreases |b|
  {
    hide *;
    LinesTurn(b, 0);
    if b == [] {
      DecodeNothing(0);
    } else {
      FirstRest(b);
      DecodeGroup(First(b), Flat(Rest(b)));
      if |b| < 3 {
        LinesTurn(Rest(b), 0);
        DecodeNothing(3 - |First(b)|);
      } else {
        DecodeFlat(Rest(b));
      }
    }
  }

  // ---- the decoder that reads four characters at a time ----

  /** The characters `base64_decode` knows: codes and `=`. */
  predicate Known(c: char) {
    var n := c as int;
    97 <= n <= 122 || 65 <= n <= 90 || 48 <= n <= 57 || n == 43 || n == 47 || n == 61
  }

  /** Its table, for them. */
  function Sym(c: char): (v: int)
    requires Known(c)
    ensures 0 <= v < 64
  {
    Value(c as int)
  }

  predicate Four(s: string) { |s| == 4 && Known(s[0]) && Known(s[1]) && Known(s[2]) && Known(s[3]) }

  /** Three bytes for four characters. */
  function Quad(s: string): (b: seq<Byte>)
    requires Four(s)
    ensures |b| == 3
  {
    var m0, m1, m2, m3 := Sym(s[0]), Sym(s[1]), Sym(s[2]), Sym(s[3]);
    [Or(m0 * 4, m1 / 16) % 256, Or(m1 * 16, m2 / 4) % 256, Or(m2 * 64, m3) % 256]
  }

  /** Text in groups of four such characters. */
  predicate Quads(s: string) { |s| % 4 == 0 && forall i :: 0 <= i < |s| ==> Known(s[i]) }

  /** `base64_decode`. */
  function Unflat(s: string): (b: seq<Byte>)
    requires Quads(s)
    ensures |b| == |s| / 4 * 3
  {
    hide Quad, Known;
    if s == "" then [] else Quad(s[..4]) + Unflat(s[4..])
  }

  lemma SymOfCode(v: int, isPad: bool)
    requires 0 <= v < 64
    ensures Known(CharOf(v, isPad)) && Sym(CharOf(v, isPad)) == if isPad then 0 else v
  {
    CodeAscii(v);
  }

  lemma {:induction false} FlatQuads(b: seq<Byte>)
    ensures Quads(Flat(b))
    decreases |b|
  {
    hide *;
    LinesTurn(b, 0);
    if b == [] {
      NoQuads();
    } else {
      FlatQuads(Rest(b));
      GroupKnown(First(b));
      QuadsConcat(Group(First(b)), Flat(Rest(b)));
    }
  }

  lemma NoQuads()
    ensures Quads("")
  {
  }

  lemma QuadsConcat(s: string, t: string)
    requires Four(s) && Quads(t)
    ensures Quads(s + t)
  {
    hide Known;
  }

  lemma GroupKnown(b: seq<Byte>)
    requires 1 <= |b| <= 3
    ensures Four(Group(b))
  {
    hide Known, CharOf, Six;
    GroupIs(b);
    var n := Number(b);
    SymOfCode(Six(n, 3), false);
    SymOfCode(Six(n, 2), false);
    SymOfCode(Six(n, 1), |b| == 1);
    SymOfCode(Six(n, 0), |b| <= 2);
  }

  lemma QuadOr(m0: nat, m1: nat, m2: nat, m3: nat)
    requires m0 < 64 && m1 < 64 && m2 < 64 && m3 < 64
    ensures Or(m0 * 4, m1 / 16) == m0 * 4 + m1 / 16 && Or(m1 * 16, m2 / 4) == m1 * 16 + m2 / 4
        && Or(m2 * 64, m3) == m2 * 64 + m3
  {
    assert Pow2(6) == 2 * Pow2(5) && Pow2(5) == 2 * Pow2(4) && Pow2(4) == 2 * Pow2(3) && Pow2(3) == 2 * Pow2(2)
        && Pow2(2) == 2 * Pow2(1) && Pow2(1) == 2 * Pow2(0);
    OrHigh(m0, m1 / 16, 2);
    OrHigh(m1, m2 / 4, 4);
    OrHigh(m2, m3, 6);
  }

  /** A group decodes to its bytes and a zero for each pad character. */
  lemma QuadGroup(b: seq<Byte>)
    requires 1 <= |b| <= 3
    ensures Four(Group(b)) && Quad(Group(b)) == b + Zeros(3 - |b|)
  {
    hide *;
    var n := Number(b);
    var c2, c3 := if |b| == 1 then 0 else Six(n, 1), if |b| <= 2 then 0 else Six(n, 0);
    GroupSyms(b);
    SixDigits(b, c2, c3);
    QuadBytes(b, Group(b), Six(n, 3), Six(n, 2), c2, c3);
  }

  lemma SixDigits(b: seq<Byte>, c2: int, c3: int)
    requires 1 <= |b| <= 3 && c2 == (if |b| == 1 then 0 else Six(Number(b), 1)) && c3 == if |b| <= 2 then 0
        else Six(Number(b), 0)
    ensures Number(b) == ((Six(Number(b), 3) * 64 + Six(Number(b), 2)) * 64 + c2) * 64 + c3
  {
    hide *;
    SixIs(Number(b));
    NumberEnds(b);
  }

  lemma QuadBytes(b: seq<Byte>, s: string, c0: int, c1: int, c2: int, c3: int)
    requires 1 <= |b| <= 3 && Number(b) == ((c0 * 64 + c1) * 64 + c2) * 64 + c3
    requires Four(s) && Sym(s[0]) == c0 && Sym(s[1]) == c1 && Sym(s[2]) == c2 && Sym(s[3]) == c3
    ensures Quad(s) == b + Zeros(3 - |b|)
  {
    hide *;
    QuadValues(s, c0, c1, c2, c3);
    SixBytes(b, c0, c1, c2, c3);
    GroupZeros(b);
  }

  lemma GroupSyms(b: seq<Byte>)
    requires 1 <= |b| <= 3
    ensures Four(Group(b))
    ensures var s, n := Group(b), Number(b);
      Sym(s[0]) == Six(n, 3) && Sym(s[1]) == Six(n, 2) && Sym(s[2]) == (if |b| == 1 then 0 else Six(n, 1))
          && Sym(s[3]) == if |b| <= 2 then 0 else Six(n, 0)
  {
    hide *;
    var n := Number(b);
    GroupKnown(b);
    GroupIs(b);
    SymOfCode(Six(n, 3), false);
    SymOfCode(Six(n, 2), false);
    SymOfCode(Six(n, 1), |b| == 1);
    SymOfCode(Six(n, 0), |b| <= 2);
  }

  lemma QuadValues(s: string, c0: int, c1: int, c2: int, c3: int)
    requires Four(s) && Sym(s[0]) == c0 && Sym(s[1]) == c1 && Sym(s[2]) == c2 && Sym(s[3]) == c3
    ensures 0 <= c0 < 64 && 0 <= c1 < 64 && 0 <= c2 < 64 && 0 <= c3 < 64
    ensures Quad(s) == [(c0 * 4 + c1 / 16) % 256, (c1 * 16 + c2 / 4) % 256, (c2 * 64 + c3) % 256]
  {
    hide *;
    QuadIs(s);
    QuadOr(c0, c1, c2, c3);
  }

  lemma QuadIs(s: string)
    requires Four(s)
    ensures var m0, m1, m2, m3 := Sym(s[0]), Sym(s[1]), Sym(s[2]), Sym(s[3]);
      Quad(s) == [Or(m0 * 4, m1 / 16) % 256, Or(m1 * 16, m2 / 4) % 256, Or(m2 * 64, m3) % 256]
  {
    hide Or, Sym, Known;
  }

  lemma GroupZeros(b: seq<Byte>)
    requires 1 <= |b| <= 3
    ensures b + Zeros(3 - |b|) == [b[0], if |b| > 1 then b[1] else 0, if |b| > 2 then b[2] else 0]
  {
    assert Zeros(0) == [] && Zeros(1) == [0] && Zeros(2) == [0, 0];
  }

  function Zeros(k: nat): (z: seq<Byte>)
    ensures |z| == k
  {
    if k == 0 then [] else [0] + Zeros(k - 1)
  }

  lemma SixBytes(b: seq<Byte>, c0: int, c1: int, c2: int, c3: int)
    requires 1 <= |b| <= 3 && 0 <= c0 < 64 && 0 <= c1 < 64 && 0 <= c2 < 64 && 0 <= c3 < 64
    requires Number(b) == ((c0 * 64 + c1) * 64 + c2) * 64 + c3
    ensures var b1: int, b2: int := if |b| > 1 then b[1] else 0, if |b| > 2 then b[2] else 0;
      && (c0 * 4 + c1 / 16) % 256 == b[0] && (c1 * 16 + c2 / 4) % 256 == b1 && (c2 * 64 + c3) % 256 == b2
  {
    var b0: int, b1: int, b2: int := b[0], if |b| > 1 then b[1] else 0, if |b| > 2 then b[2] else 0;
    SplitBytes(b0, b1, b2);
    SameDigits(c0, c1, c2, c3, b0 / 4, b0 % 4 * 16 + b1 / 16, b1 % 16 * 4 + b2 / 64, b2 % 64);
  }

  /** Numbers are the same in base 64 only if their digits are. */
  lemma SameDigits(c0: int, c1: int, c2: int, c3: int, d0: int, d1: int, d2: int, d3: int)
    requires 0 <= c0 < 64 && 0 <= c1 < 64 && 0 <= c2 < 64 && 0 <= c3 < 64 && 0 <= d0 < 64 && 0 <= d1 < 64
        && 0 <= d2 < 64 && 0 <= d3 < 64
    requires ((c0 * 64 + c1) * 64 + c2) * 64 + c3 == ((d0 * 64 + d1) * 64 + d2) * 64 + d3
    ensures c0 == d0 && c1 == d1 && c2 == d2 && c3 == d3
  {
  }

  lemma SplitBytes(b0: int, b1: int, b2: int)
    requires 0 <= b0 < 256 && 0 <= b1 < 256 && 0 <= b2 < 256
    ensures var d0, d1, d2, d3 := b0 / 4, b0 % 4 * 16 + b1 / 16, b1 % 16 * 4 + b2 / 64, b2 % 64;
      && 0 <= d0 < 64 && 0 <= d1 < 64 && 0 <= d2 < 64 && 0 <= d3 < 64
      && ((d0 * 64 + d1) * 64 + d2) * 64 + d3 == (b0 * 256 + b1) * 256 + b2
      && (d0 * 4 + d1 / 16) % 256 == b0 && (d1 * 16 + d2 / 4) % 256 == b1 && (d2 * 64 + d3) % 256 == b2
  {
    var d0, d1, d2, d3 := b0 / 4, b0 % 4 * 16 + b1 / 16, b1 % 16 * 4 + b2 / 64, b2 % 64;
    assert d1 / 16 == b0 % 4 && d2 / 4 == b1 % 16;
    assert d1 * 16 + d2 / 4 == 256 * (b0 % 4) + b1;
    assert d2 * 64 + d3 == 256 * (b1 % 16) + b2;
  }

  /** Decoding the flat text gives the bytes, and a zero byte for each pad character. */
  lemma {:induction false} UnflatFlat(b: seq<Byte>)
    ensures Quads(Flat(b)) && Unflat(Flat(b)) == b + Zeros(Pads(|b|))
    decreases |b|
  {
    hide *;
    LinesTurn(b, 0);
    FlatQuads(b);
    if b == [] {
      NothingLeft();
    } else {
      var more := Rest(b);
      FlatQuads(more);
      QuadGroup(First(b));
      UnflatJoin(Group(First(b)), Flat(more));
      UnflatFlat(more);
      RestPads(b);
      FirstRest(b);
      ZerosJoin(b, First(b), more);
    }
  }

  lemma NothingLeft()
    ensures Unflat("") == [] && [] + Zeros(Pads(0)) == []
  {
  }

  lemma UnflatJoin(s: string, t: string)
    requires Four(s) && Quads(t) && Quads(s + t)
    ensures Unflat(s + t) == Quad(s) + Unflat(t)
  {
    hide Known, Quad;
    assert (s + t)[..4] == s && (s + t)[4..] == t;
  }

  lemma ZerosJoin(b: seq<Byte>, f: seq<Byte>, more: seq<Byte>)
    requires b == f + more && 1 <= |f| <= 3 && (|b| < 3 ==> more == []) && (|b| >= 3 ==> |f| == 3)
    ensures (f + Zeros(3 - |f|)) + (more + Zeros(Pads(|more|))) == b + Zeros(Pads(|b|))
  {
    hide *;
    ZerosFew(|f|, |more|, |b|);
    JoinAll(b, f, more, Zeros(3 - |f|), Zeros(Pads(|more|)), Zeros(Pads(|b|)));
  }

  lemma JoinAll(b: seq<Byte>, f: seq<Byte>, more: seq<Byte>, y: seq<Byte>, z: seq<Byte>, w: seq<Byte>)
    requires b == f + more && ((y == [] && z == w) || (|more| == 0 && z == [] && w == y))
    ensures (f + y) + (more + z) == b + w
  {
    if y == [] && z == w {
      assert f + y == f;
    } else {
      assert more + z == [] && f + more == f;
    }
  }

  lemma ZerosFew(f: nat, more: nat, all: nat)
    requires 1 <= f <= 3 && (f < 3 ==> more == 0) && all == f + more
    ensures (Zeros(3 - f) == [] && Zeros(Pads(more)) == Zeros(Pads(all)))
        || (more == 0 && Zeros(Pads(more)) == [] && Zeros(Pads(all)) == Zeros(3 - f))
  {
    if f == 3 {
      assert Pads(more) == Pads(all);
    }
  }

  // ---- the string overloads ----

  /** A C string ends at its first zero byte. */
  function CString(b: seq<Byte>): seq<Byte> { if b == [] || b[0] == 0 then [] else [b[0]] + CString(b[1..]) }

  lemma {:induction false} CStringStops(b: seq<Byte>, z: seq<Byte>)
    requires (forall i :: 0 <= i < |b| ==> b[i] != 0) && (z == [] || z[0] == 0)
    ensures CString(b + z) == b
  {
    if b == [] {
      assert b + z == z;
    } else {
      assert (b + z)[1..] == b[1..] + z;
      CStringStops(b[1..], z);
    }
  }

  /** The string overloads are inverse on inputs without a zero byte. */
  lemma StringsInverse(b: seq<Byte>)
    requires b != [] && (forall i :: 0 <= i < |b| ==> b[i] != 0)
    ensures Quads(Flat(b)) && CString(Unflat(Flat(b))) == b && Flat(b) != ""
  {
    hide Flat, Unflat, Quads;
    UnflatFlat(b);
    CStringStops(b, Zeros(Pads(|b|)));
  }
}
