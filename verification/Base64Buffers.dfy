/**
  The Base64 routines as they stand: loops that fill buffers of computed size.
 */
module Base64Buffers {
  import opened Common
  import opened Base64
  import opened Base64Decoding

  // ---- EncodeBase64 ----

  /** The four characters of a number of which `nPad` bytes are missing. */
  function Quartet(n: int, nPad: nat): (s: string)
    requires 0 <= n && nPad <= 2
    ensures |s| == 4
  {
    [Code(Six(n, 3)), Code(Six(n, 2)), if nPad == 2 then PAD else Code(Six(n, 1)), if nPad >= 1 then PAD
        else Code(Six(n, 0))]
  }

  lemma QuartetIs(b: seq<Byte>)
    requires 1 <= |b| <= 3
    ensures Quartet(Number(b), 3 - |b|) == Group(b)
  {
    hide Code, Six;
  }

  /** The inner loop: from the last character to the first, six bits at a time. */
  method PutQuartet(strBase64: array<char>, nOffset: nat, n3: int, nPad: nat)
    requires nOffset + 4 <= strBase64.Length && 0 <= n3 && nPad <= 2
    modifies strBase64
    ensures strBase64[..nOffset] == old(strBase64[..nOffset])
    ensures strBase64[nOffset..nOffset + 4] == Quartet(n3, nPad)
  {
    hide Quartet, Six;
    var n3BufferBytes := n3;
    var nTop := nOffset + 4;
    while nTop != nOffset
      invariant nOffset <= nTop <= nOffset + 4 && n3BufferBytes == Shifted(n3, nOffset + 4 - nTop)
      invariant strBase64[..nOffset] == old(strBase64[..nOffset])
      invariant forall j :: nTop <= j < nOffset + 4 ==> strBase64[j] == Quartet(n3, nPad)[j - nOffset]
    {
      ShiftedSix(n3, nOffset + 4 - nTop);
      nTop := nTop - 1;
      QuartetAt(n3, nPad, nTop - nOffset);
      if nPad == 0 || nTop < nOffset + 4 - nPad {
        strBase64[nTop] := CODES[n3BufferBytes % 64];
      } else {
        strBase64[nTop] := PAD;
      }
      n3BufferBytes := n3BufferBytes / 64;
    }
  }

  /** The number after `k` shifts. */
  function Shifted(n: int, k: nat): (m: int)
    requires 0 <= n
    ensures 0 <= m
  {
    if k == 0 then n else Shifted(n / 64, k - 1)
  }

  lemma {:induction false} ShiftedSix(n: int, k: nat)
    requires 0 <= n
    ensures Six(n, k) == Shifted(n, k) % 64 && Shifted(n, k + 1) == Shifted(n, k) / 64
  {
    if k > 0 { ShiftedSix(n / 64, k - 1); }
  }

  lemma QuartetAt(n: int, nPad: nat, j: nat)
    requires 0 <= n && nPad <= 2 && j < 4
    ensures Quartet(n, nPad)[j] == if j < 4 - nPad then Code(Six(n, 3 - j)) else PAD
  {
    hide Six;
  }

  /** The place of the `g`th group. */
  function Place(g: nat): nat { 2 + 4 * g + 2 * (g / 16) }

  /** A line is full exactly where the offset is divisible by 66. */
  lemma LineEnd(g: nat)
    ensures (Place(g) + 4) % 66 == 0 <==> (g + 1) % 16 == 0
    ensures Place(g + 1) == Place(g) + 4 + if (g + 1) % 16 == 0 then 2 else 0
  {
    hide Place;
    var q, r := g / 16, g % 16;
    NextSixteenth(g, q, r);
    PlaceIs(g);
    PlaceIs(g + 1);
    Sixties(q, 4 * r + 6);
  }

  lemma PlaceIs(g: nat)
    ensures Place(g) == 2 + 4 * g + 2 * (g / 16)
  {
  }

  lemma NextSixteenth(g: nat, q: nat, r: nat)
    requires q == g / 16 && r == g % 16
    ensures g == 16 * q + r && (g + 1) / 16 == (if r == 15 then q + 1 else q) && ((g + 1) % 16 == 0 <==> r == 15)
  {
  }

  lemma Sixties(q: nat, k: nat)
    requires k <= 66
    ensures (66 * q + k) % 66 == if k == 66 then 0 else k
  {
  }

  lemma Splits(b: seq<Byte>, i: nat)
    requires i < |b|
    ensures b[i..] != []
    ensures |b| - i >= 3 ==> First(b[i..]) == [b[i], b[i + 1], b[i + 2]] && Rest(b[i..]) == b[i + 3..]
    ensures |b| - i == 2 ==> First(b[i..]) == [b[i], b[i + 1]] && Rest(b[i..]) == b[i + 2..]
    ensures |b| - i == 1 ==> First(b[i..]) == [b[i]] && Rest(b[i..]) == b[i + 1..]
  {
  }

  /** The loop body of `EncodeBase64`, first half: up to three bytes as one number. */
  method TakeBytes(pBuffer: seq<Byte>, nFrom: nat) returns (n3BufferBytes: int, nOffsetBuffer: nat, nPad: nat)
    requires nFrom < |pBuffer|
    ensures pBuffer[nFrom..] != [] && n3BufferBytes == Number(First(pBuffer[nFrom..]))
        && nPad == 3 - |First(pBuffer[nFrom..])|
    ensures nOffsetBuffer <= |pBuffer| && pBuffer[nOffsetBuffer..] == Rest(pBuffer[nFrom..])
  {
    hide First, Rest, Number;
    Splits(pBuffer, nFrom);
    NumberIs(First(pBuffer[nFrom..]));
    nOffsetBuffer, nPad := nFrom, 0;
    n3BufferBytes := pBuffer[nOffsetBuffer];
    nOffsetBuffer := nOffsetBuffer + 1;
    n3BufferBytes := n3BufferBytes * 256;
    if nOffsetBuffer < |pBuffer| {
      n3BufferBytes := n3BufferBytes + pBuffer[nOffsetBuffer];
      nOffsetBuffer := nOffsetBuffer + 1;
    } else {
      nPad := nPad + 1;
    }
    n3BufferBytes := n3BufferBytes * 256;
    if nOffsetBuffer < |pBuffer| {
      n3BufferBytes := n3BufferBytes + pBuffer[nOffsetBuffer];
      nOffsetBuffer := nOffsetBuffer + 1;
    } else {
      nPad := nPad + 1;
    }
  }

  /** Second half: four characters, and a line break if the line is full or padded. */
  method PutLine(strBase64: array<char>, nFrom: nat, n3BufferBytes: int, nPad: nat) returns (nOffsetBase64: nat)
    requires nFrom + 4 + (if (nFrom + 4) % 66 == 0 || nPad != 0 then 2 else 0) <= strBase64.Length && 0 <= n3BufferBytes
        && nPad <= 2
    modifies strBase64
    ensures nFrom + 4 <= nOffsetBase64 <= strBase64.Length
    ensures strBase64[..nOffsetBase64] == (old(strBase64[..nFrom]) + Quartet(n3BufferBytes,
        nPad)) + (if (nFrom + 4) % 66 == 0 || nPad != 0 then CRLF else "")
  {
    hide Quartet;
    ghost var front := strBase64[..nFrom];
    PutQuartet(strBase64, nFrom, n3BufferBytes, nPad);
    nOffsetBase64 := nFrom + 4;
    ghost var w := strBase64[..nOffsetBase64];
    assert w == front + Quartet(n3BufferBytes, nPad);
    if nOffsetBase64 % 66 == 0 || nPad != 0 {
      strBase64[nOffsetBase64] := '\r';
      strBase64[nOffsetBase64 + 1] := '\n';
      nOffsetBase64 := nOffsetBase64 + 2;
      assert strBase64[..nOffsetBase64] == w + CRLF;
    } else {
      assert w + "" == w;
    }
  }

  /** `EncodeBase64`: nothing is written past the reserved size. */
  method EncodeBase64(pBuffer: seq<Byte>) returns (r: string)
    ensures r == Wrapped(pBuffer)
  {
    hide *;
    var nBufferLen := |pBuffer|;
    var nLenBase64 := nBufferLen + nBufferLen / 3 + 3;
    nLenBase64 := nLenBase64 + nLenBase64 / 64 * 2 + 4;
    WrappedFits(pBuffer);
    StartLines(pBuffer);
    var strBase64 := new char[nLenBase64];
    strBase64[0] := '\r';
    strBase64[1] := '\n';
    var nOffsetBase64, nOffsetBuffer, nPad := 2, 0, 0;
    ghost var g := 0;
    TwoChars(strBase64[..2]);
    while nOffsetBuffer < nBufferLen
      invariant 0 <= nOffsetBuffer <= nBufferLen && 2 <= nOffsetBase64 <= strBase64.Length
      invariant strBase64[..nOffsetBase64] + Lines(pBuffer[nOffsetBuffer..], g) == Wrapped(pBuffer)
      invariant if nPad == 0 then nOffsetBase64 == Place(g) else nOffsetBuffer == nBufferLen
      decreases |pBuffer[nOffsetBuffer..]|
    {
      ghost var rest := pBuffer[nOffsetBuffer..];
      LinesTurn(rest, g);
      LineEnd(g);
      ghost var front := strBase64[..nOffsetBase64];
      var n3BufferBytes;
      n3BufferBytes, nOffsetBuffer, nPad := TakeBytes(pBuffer, nOffsetBuffer);
      QuartetIs(First(rest));
      FirstLen(rest);
      FrontFits(front, Group(First(rest)), if (g + 1) % 16 == 0 || |rest| < 3 then CRLF
          else "", Lines(Rest(rest), g + 1), pBuffer, strBase64.Length);
      nOffsetBase64 := PutLine(strBase64, nOffsetBase64, n3BufferBytes, nPad);
      PlaceNext(nOffsetBase64, front, strBase64[..nOffsetBase64], Quartet(n3BufferBytes, nPad), nPad, g);
      g := g + 1;
    }
    LinesTurn(pBuffer[nOffsetBuffer..], g);
    assert strBase64[..nOffsetBase64] + "" == strBase64[..nOffsetBase64];
    r := strBase64[..nOffsetBase64];
  }

  lemma TwoChars(s: string)
    requires |s| == 2 && s[0] == '\r' && s[1] == '\n'
    ensures s == CRLF
  {
  }

  lemma FirstLen(b: seq<Byte>)
    requires b != []
    ensures |First(b)| == (if |b| < 3 then |b| else 3) && |CRLF| == 2
  {
  }

  lemma PlaceNext(o: nat, front: string, w: string, q: string, nPad: nat, g: nat)
    requires |q| == 4 && |w| == o && |front| == Place(g) && w == (front + q) + (if (Place(g) + 4) % 66 == 0
        || nPad != 0 then CRLF else "")
    ensures nPad == 0 ==> o == Place(g + 1)
  {
    hide Place;
    LineEnd(g);
  }

  lemma StartLines(b: seq<Byte>)
    ensures CRLF + Lines(b[0..], 0) == Wrapped(b) && Place(0) == 2 && Reserved(|b|) >= 6
    ensures var m := |b| + |b| / 3 + 3; Reserved(|b|) == m + m / 64 * 2 + 4
  {
    assert b[0..] == b;
  }

  lemma NumberIs(b: seq<Byte>)
    requires 1 <= |b| <= 3
    ensures var b0: int, b1: int, b2: int := b[0], if |b| > 1 then b[1] else 0, if |b| > 2 then b[2] else 0;
      Number(b) == (b0 * 256 + b1) * 256 + b2
  {
  }

  lemma FrontFits(front: string, s: string, brk: string, rest: string, b: seq<Byte>, len: nat)
    requires front + (s + (brk + rest)) == Wrapped(b) && |Wrapped(b)| <= len
    ensures |front| + |s| + |brk| <= len && ((front + s) + brk) + rest == Wrapped(b)
  {
    assert ((front + s) + brk) + rest == front + (s + (brk + rest));
  }

  // ---- DecodeBase64 ----

  /** The pad characters of a text. */
  function PadCount(s: string): nat {
    if s == "" then 0 else (if !IsBreak(s[0]) && IsPad(s[0]) then 1 else 0) + PadCount(s[1..])
  }

  /** What is still to come when `cnt` characters of a group, up to all four, have been read. */
  ghost function ToCome(s: string, cnt: nat, acc: nat, pad: nat): seq<Byte>
    requires cnt <= 4
  {
    if cnt == 4 then Fill(acc, pad) + Decode(s, 0, 0, pad) else Decode(s, cnt, acc, pad)
  }

  lemma ToComeTurn(s: string, i: nat, cnt: nat, acc: nat, pad: nat)
    requires i < |s| && cnt < 4
    ensures var c := s[i];
      if IsBreak(c) then ToCome(s[i..], cnt, acc, pad) == ToCome(s[i + 1..], cnt, acc, pad)
          && PadCount(s[i..]) == PadCount(s[i + 1..])
      else
        var pad' := pad + if IsPad(c) then 1 else 0;
        && ToCome(s[i..], cnt, acc, pad) == ToCome(s[i + 1..], cnt + 1, Or(acc * 64, Value(CharCode(c))), pad')
        && pad + PadCount(s[i..]) == pad' + PadCount(s[i + 1..])
  {
    hide Or, Value, Fill;
    assert s[i..][0] == s[i] && s[i..][1..] == s[i + 1..];
  }

  /** The inner loop: up to four characters, line breaks bypassed. */
  method TakeCodes(strBase64: string, nFrom: nat, nPadFrom: nat) returns (n3BufferBytes: nat, nCount: nat,
      nOffsetBase64: nat, nPad: nat)
    requires nFrom < |strBase64|
    ensures nFrom < nOffsetBase64 <= |strBase64| && nCount <= 4 && nPadFrom <= nPad
        && (nCount < 4 ==> nOffsetBase64 == |strBase64|)
    ensures Decode(strBase64[nFrom..], 0, 0, nPadFrom) == ToCome(strBase64[nOffsetBase64..], nCount, n3BufferBytes,
        nPad)
    ensures nPadFrom + PadCount(strBase64[nFrom..]) == nPad + PadCount(strBase64[nOffsetBase64..])
  {
    hide Or, Value, Fill, Decode, PadCount;
    nCount, n3BufferBytes, nOffsetBase64, nPad := 0, 0, nFrom, nPadFrom;
    while nCount != 4 && nOffsetBase64 < |strBase64|
      invariant nFrom <= nOffsetBase64 <= |strBase64| && nCount <= 4 && nPadFrom <= nPad
          && (nOffsetBase64 == nFrom ==> nCount == 0)
      invariant Decode(strBase64[nFrom..], 0, 0, nPadFrom) == ToCome(strBase64[nOffsetBase64..], nCount, n3BufferBytes,
          nPad)
      invariant nPadFrom + PadCount(strBase64[nFrom..]) == nPad + PadCount(strBase64[nOffsetBase64..])
      decreases |strBase64| - nOffsetBase64
    {
      ToComeTurn(strBase64, nOffsetBase64, nCount, n3BufferBytes, nPad);
      var nCode := CharCode(strBase64[nOffsetBase64]);
      nOffsetBase64 := nOffsetBase64 + 1;
      if nCode == 13 || nCode == 10 {
        continue;
      }
      n3BufferBytes := Or(n3BufferBytes * 64, Value(nCode));
      if nCode == 61 {
        nPad := nPad + 1;
      }
      nCount := nCount + 1;
    }
  }

  /** The bytes of a group, from the last to the first, as far as they are not padded away. */
  method PutBytes(pBuffer: array<Byte>, nOffset: int, n3: nat, nPad: nat)
    requires nPad <= 3 ==> 0 <= nOffset && nOffset + 3 - nPad <= pBuffer.Length
    modifies pBuffer
    ensures nPad <= 3 ==>
        pBuffer[..nOffset] == old(pBuffer[..nOffset]) && pBuffer[nOffset..nOffset + 3 - nPad] == Fill(n3, nPad)
  {
    hide Fill;
    var n3BufferBytes := n3;
    var nTop := nOffset + 3;
    while nTop != nOffset
      invariant nOffset <= nTop <= nOffset + 3 && n3BufferBytes == Shifted8(n3, nOffset + 3 - nTop)
      invariant nPad <= 3 ==> pBuffer[..nOffset] == old(pBuffer[..nOffset])
      invariant nPad <= 3 ==> forall j :: nTop <= j < nOffset + 3 - nPad ==> pBuffer[j] == Bytes(n3)[j - nOffset]
      decreases nTop - nOffset
    {
      ByteAt(n3, nOffset + 3 - nTop);
      nTop := nTop - 1;
      if nPad == 0 || nTop < nOffset + 3 - nPad {
        pBuffer[nTop] := n3BufferBytes % 256;
      }
      n3BufferBytes := n3BufferBytes / 256;
    }
    if nPad <= 3 {
      FillIs(n3, nPad);
      assert pBuffer[nOffset..nOffset + 3 - nPad] == Bytes(n3)[..3 - nPad];
    }
  }

  lemma FillIs(n: nat, pad: nat)
    requires pad <= 3
    ensures Fill(n, pad) == Bytes(n)[..3 - pad]
  {
  }

  function Shifted8(n: nat, k: nat): nat { if k == 0 then n else Shifted8(n, k - 1) / 256 }

  lemma ByteAt(n: nat, k: nat)
    requires k < 3
    ensures Shifted8(n, k) % 256 == Bytes(n)[2 - k] && Shifted8(n, k + 1) == Shifted8(n, k) / 256
  {
    assert Shifted8(n, 0) == n && Shifted8(n, 1) == n / 256 && Shifted8(n, 2) == n / 256 / 256;
  }

  /** `DecodeBase64`.  The bytes, if they fit, for every text with at most three pad
      characters in all; a length to allocate if no room is given. */
  method DecodeBase64(strBase64: string, pBuffer: array<Byte>, nBufferLen: nat) returns (r: int)
    requires nBufferLen <= pBuffer.Length
    modifies pBuffer
    ensures nBufferLen == 0 ==> r == |strBase64| / 4 * 3 + 3
    ensures nBufferLen != 0 && PadCount(strBase64) <= 3 ==>
      var b := Decode(strBase64, 0, 0, 0);
      if |b| <= nBufferLen then r == |b| && pBuffer[..r] == b else r == 0
  {
    hide *;
    var nLenBase64 := |strBase64|;
    if nBufferLen == 0 {
      return nLenBase64 / 4 * 3 + 3;
    }
    ghost var all, few := Decode(strBase64, 0, 0, 0), PadCount(strBase64) <= 3;
    var nOffsetBase64, nOffsetBuffer: int, nPad := 0, 0, 0;
    assert strBase64[0..] == strBase64 && pBuffer[..0] + all == all;
    while nOffsetBase64 < nLenBase64
      invariant 0 <= nOffsetBase64 <= nLenBase64 && nPad + PadCount(strBase64[nOffsetBase64..]) == PadCount(strBase64)
      invariant nPad <= 3 ==> 0 <= nOffsetBuffer <= nBufferLen
      invariant few ==> nPad <= 3 && pBuffer[..nOffsetBuffer] + Decode(strBase64[nOffsetBase64..], 0, 0, nPad) == all
      decreases nLenBase64 - nOffsetBase64
    {
      var n3BufferBytes, nCount;
      ghost var done := if few then pBuffer[..nOffsetBuffer] else [];
      n3BufferBytes, nCount, nOffsetBase64, nPad := TakeCodes(strBase64, nOffsetBase64, nPad);
      ToComeIs(strBase64[nOffsetBase64..], nCount, n3BufferBytes, nPad);
      ghost var rest := Decode(strBase64[nOffsetBase64..], 0, 0, nPad);
      if nCount == 4 {
        if few { FewLeft(done, n3BufferBytes, nPad, rest, all); }
        if nOffsetBuffer + 3 - nPad > nBufferLen {
          return 0;
        }
        PutBytes(pBuffer, nOffsetBuffer, n3BufferBytes, nPad);
        if few { assert pBuffer[..nOffsetBuffer + 3 - nPad] == done + Fill(n3BufferBytes, nPad); }
        nOffsetBuffer := nOffsetBuffer + (3 - nPad);
      } else if few {
        NoneLeft(strBase64[nOffsetBase64..], nCount, n3BufferBytes, nPad, done, all);
      }
    }
    if few {
      NoneAtEnd(strBase64[nOffsetBase64..], nPad, pBuffer[..nOffsetBuffer], all);
    }
    r := nOffsetBuffer;
  }

  lemma ToComeIs(s: string, cnt: nat, acc: nat, pad: nat)
    requires cnt <= 4
    ensures ToCome(s, cnt, acc, pad) == if cnt == 4 then Fill(acc, pad) + Decode(s, 0, 0, pad)
        else Decode(s, cnt, acc, pad)
  {
    hide Fill, Decode;
  }

  lemma FewLeft(done: seq<Byte>, n: nat, pad: nat, rest: seq<Byte>, all: seq<Byte>)
    requires pad <= 3 && done + (Fill(n, pad) + rest) == all
    ensures (done + Fill(n, pad)) + rest == all && |done| + 3 - pad <= |all| && |Fill(n, pad)| == 3 - pad
  {
    hide Bytes;
    assert (done + Fill(n, pad)) + rest == done + (Fill(n, pad) + rest);
  }

  lemma NoneLeft(s: string, cnt: nat, acc: nat, pad: nat, done: seq<Byte>, all: seq<Byte>)
    requires s == "" && cnt < 4 && done + Decode(s, cnt, acc, pad) == all
    ensures done + Decode(s, 0, 0, pad) == all
  {
  }

  lemma NoneAtEnd(s: string, pad: nat, done: seq<Byte>, all: seq<Byte>)
    requires s == "" && done + Decode(s, 0, 0, pad) == all
    ensures done == all
  {
    assert done + [] == done;
  }

  // ---- the round trip ----

  lemma {:induction false} PadCountConcat(s: string, t: string)
    ensures PadCount(s + t) == PadCount(s) + PadCount(t)
  {
    hide IsBreak, IsPad;
    if s == "" { assert s + t == t; } else { assert (s + t)[1..] == s[1..] + t; PadCountConcat(s[1..], t); }
  }

  lemma GroupPads(b: seq<Byte>)
    requires 1 <= |b| <= 3
    ensures PadCount(Group(b)) == 3 - |b|
  {
    hide Six, Code, PadCount;
    var n := Number(b);
    ValueOfCode(Six(n, 3));
    ValueOfCode(Six(n, 2));
    ValueOfCode(Six(n, 1));
    ValueOfCode(Six(n, 0));
    var s := Group(b);
    PadFour(s[0], s[1], s[2], s[3]);
    assert s == [s[0], s[1], s[2], s[3]];
  }

  lemma PadFour(a: char, b: char, c: char, d: char)
    ensures PadCount([a, b, c, d]) == PadOne(a) + PadOne(b) + PadOne(c) + PadOne(d)
  {
    hide PadCount, PadOne;
    OnePad(a);
    OnePad(b);
    OnePad(c);
    OnePad(d);
    PadCountConcat([c], [d]);
    PadCountConcat([b], [c] + [d]);
    PadCountConcat([a], [b] + ([c] + [d]));
    assert [a, b, c, d] == [a] + ([b] + ([c] + [d]));
  }

  lemma OnePad(c: char)
    ensures PadCount([c]) == PadOne(c)
  {
    assert [c][1..] == "" && PadCount("") == 0;
  }

  function PadOne(c: char): nat { if !IsBreak(c) && IsPad(c) then 1 else 0 }

  lemma {:induction false} LinesPads(b: seq<Byte>, g: nat)
    ensures PadCount(Lines(b, g)) == Pads(|b|)
    decreases |b|
  {
    hide *;
    LinesTurn(b, g);
    if b == [] {
      NoPads();
    } else {
      var brk := if (g + 1) % 16 == 0 || |b| < 3 then CRLF else "";
      GroupPads(First(b));
      FirstLen(b);
      BreakPads(brk);
      PadCountConcat(Group(First(b)), brk + Lines(Rest(b), g + 1));
      PadCountConcat(brk, Lines(Rest(b), g + 1));
      RestPads(b);
      LinesPads(Rest(b), g + 1);
      ShortPads(b);
    }
  }

  lemma NoPads()
    ensures PadCount("") == 0 && Pads(0) == 0
  {
  }

  lemma ShortPads(b: seq<Byte>)
    requires b != []
    ensures |b| < 3 ==> Pads(|b|) == 3 - |b| && Pads(|Rest(b)|) == 0
  {
  }

  lemma BreakPads(s: string)
    requires s == "" || s == CRLF
    ensures PadCount(s) == 0
  {
    if s == CRLF { assert s[1..] == "\n" && s[1..][1..] == ""; }
  }

  lemma WrappedPads(b: seq<Byte>)
    ensures PadCount(Wrapped(b)) <= 2
  {
    hide PadCount, Lines;
    PadCountConcat(CRLF, Lines(b, 0));
    BreakPads(CRLF);
    LinesPads(b, 0);
  }

  /** Decoding what was encoded, into room for at least the original length, gives the
      original bytes and length. */
  method RoundTrip(b: seq<Byte>, pBuffer: array<Byte>) returns (r: int)
    requires 0 < pBuffer.Length && |b| <= pBuffer.Length
    modifies pBuffer
    ensures r == |b| && pBuffer[..r] == b
  {
    hide *;
    var s := EncodeBase64(b);
    WrappedPads(b);
    DecodeWrapped(b);
    r := DecodeBase64(s, pBuffer, pBuffer.Length);
  }

  // ---- base64_encode and base64_decode ----

  /** The four sextets as `base64_encode` picks them out of the bytes. */
  lemma Sextets(b: seq<Byte>)
    requires 1 <= |b| <= 3
    ensures var b0: int, b1: int, b2: int := b[0], if |b| > 1 then b[1] else 0, if |b| > 2 then b[2] else 0;
      var n := Number(b);
      && Six(n, 3) == b0 / 4 % 64 && Six(n, 2) == b0 % 4 * 16 + b1 / 16 % 16 && Six(n, 1) == b1 % 16 * 4 + b2 / 64 % 4
      && Six(n, 0) == b2 % 64
  {
    hide *;
    var b0: int, b1: int, b2: int := b[0], if |b| > 1 then b[1] else 0, if |b| > 2 then b[2] else 0;
    var n := Number(b);
    NumberIs(b);
    SixIs(n);
    SplitBytes(b0, b1, b2);
    ByteParts(b0, b1, b2);
    SameDigits(Six(n, 3), Six(n, 2), Six(n, 1), Six(n, 0), b0 / 4, b0 % 4 * 16 + b1 / 16, b1 % 16 * 4 + b2 / 64,
        b2 % 64);
  }

  lemma ByteParts(b0: int, b1: int, b2: int)
    requires 0 <= b0 < 256 && 0 <= b1 < 256 && 0 <= b2 < 256
    ensures b0 / 4 % 64 == b0 / 4 && b1 / 16 % 16 == b1 / 16 && b2 / 64 % 4 == b2 / 64
  {
  }

  /** Four characters of the result. */
  method PutFour(dst: array<char>, j: nat, c0: char, c1: char, c2: char, c3: char)
    requires j + 4 <= dst.Length
    modifies dst
    ensures dst[..j + 4] == old(dst[..j]) + [c0, c1, c2, c3]
  {
    dst[j] := c0;
    dst[j + 1] := c1;
    dst[j + 2] := c2;
    dst[j + 3] := c3;
  }

  lemma FlatTurn(b: seq<Byte>, i: nat)
    requires i < |b|
    ensures b[i..] != [] && Flat(b[i..]) == Group(First(b[i..])) + Flat(Rest(b[i..]))
    ensures |b| - i >= 3 ==> First(b[i..]) == [b[i], b[i + 1], b[i + 2]] && Rest(b[i..]) == b[i + 3..]
    ensures |b| - i == 2 ==> First(b[i..]) == [b[i], b[i + 1]] && Flat(Rest(b[i..])) == ""
    ensures |b| - i == 1 ==> First(b[i..]) == [b[i]] && Flat(Rest(b[i..])) == ""
  {
    hide Group;
    Splits(b, i);
  }

  lemma GroupOf(b: seq<Byte>)
    requires 1 <= |b| <= 3
    ensures var b0: int, b1: int, b2: int := b[0], if |b| > 1 then b[1] else 0, if |b| > 2 then b[2] else 0;
      var v1, v2 := b0 % 4 * 16 + b1 / 16 % 16, b1 % 16 * 4 + b2 / 64 % 4;
      Group(b) == [Code(b0 / 4 % 64), Code(v1), if |b| < 2 then PAD else Code(v2), if |b| < 3 then PAD
          else Code(b2 % 64)]
  {
    hide Six, Code;
    Sextets(b);
  }

  /** The loop body of `base64_encode`: three bytes. */
  method PutThree(src: seq<Byte>, i: nat, dst: array<char>, j: nat)
    requires i + 3 <= |src| && j + 4 <= dst.Length
    modifies dst
    ensures dst[..j + 4] == old(dst[..j]) + Group([src[i], src[i + 1], src[i + 2]])
  {
    hide *;
    GroupOf([src[i], src[i + 1], src[i + 2]]);
    var b0: int, b1: int, b2: int := src[i], src[i + 1], src[i + 2];
    PutFour(dst, j, Code(b0 / 4 % 64), Code(b0 % 4 * 16 + b1 / 16 % 16), Code(b1 % 16 * 4 + b2 / 64 % 4),
        Code(b2 % 64));
  }

  /** The end of `base64_encode`: one or two bytes. */
  method PutLast(src: seq<Byte>, i: nat, dst: array<char>, j: nat)
    requires (i + 1 == |src| || i + 2 == |src|) && j + 4 <= dst.Length
    modifies dst
    ensures dst[..j + 4] == old(dst[..j]) + Group(src[i..])
  {
    hide *;
    GroupOf(src[i..]);
    if i + 1 == |src| {
      var b0: int := src[i];
      PutFour(dst, j, Code(b0 / 4 % 64), Code(b0 % 4 * 16), PAD, PAD);
    } else {
      var b0: int, b1: int := src[i], src[i + 1];
      PutFour(dst, j, Code(b0 / 4 % 64), Code(b0 % 4 * 16 + b1 / 16 % 16), Code(b1 % 16 * 4), PAD);
    }
  }

  /** `base64_encode`, into a buffer of exactly the size computed for it. */
  method Encode(src: seq<Byte>, dst: array<char>)
    requires dst.Length >= (|src| + 2) / 3 * 4 + 1
    modifies dst
    ensures dst[..(|src| + 2) / 3 * 4] == Flat(src) && dst[(|src| + 2) / 3 * 4] == '\0'
  {
    hide *;
    var n := |src|;
    var i, j := 0, 0;
    ghost var k := 0;
    assert src[0..] == src && dst[..0] + Flat(src) == Flat(src);
    Quarters(n);
    while i < n - n % 3
      invariant i == 3 * k && j == 4 * k && k <= n / 3
      invariant dst[..j] + Flat(src[i..]) == Flat(src)
    {
      FlatTurn(src, i);
      ghost var front := dst[..j];
      PutThree(src, i, dst, j);
      Assoc(front, Group(First(src[i..])), Flat(src[i + 3..]));
      i, j := i + 3, j + 4;
      k := k + 1;
    }
    if n % 3 != 0 {
      FlatLast(src, i, dst[..j], Flat(src));
      PutLast(src, i, dst, j);
      j := j + 4;
    } else {
      FlatEnd(src[i..], dst[..j], Flat(src));
    }
    dst[j] := '\0';
  }

  lemma Quarters(n: nat)
    ensures n == 3 * (n / 3) + n % 3
    ensures (n + 2) / 3 * 4 == n / 3 * 4 + if n % 3 == 0 then 0 else 4
  {
  }

  lemma FlatLast(b: seq<Byte>, i: nat, front: string, all: string)
    requires (i + 1 == |b| || i + 2 == |b|) && front + Flat(b[i..]) == all
    ensures all == front + Group(b[i..])
  {
    hide Group;
    FlatTurn(b, i);
    assert First(b[i..]) == b[i..];
    assert Group(b[i..]) + "" == Group(b[i..]);
  }

  lemma Assoc(a: string, b: string, c: string)
    ensures (a + b) + c == a + (b + c) && (c == "" ==> a + (b + c) == a + b)
  {
  }

  lemma FlatEnd(b: seq<Byte>, front: string, all: string)
    requires b == [] && front + Flat(b) == all
    ensures front == all
  {
    assert front + "" == front;
  }

  /** `base64_decode`, for the characters it knows and a length divisible by four. */
  method DecodeFlat(src: string, dst: array<Byte>)
    requires Quads(src) && dst.Length >= |src| / 4 * 3 + 1
    modifies dst
    ensures dst[..|src| / 4 * 3] == Unflat(src) && dst[|src| / 4 * 3] == 0
  {
    hide *;
    var i, j := 0, 0;
    ghost var k := 0;
    QuadsLen(src);
    assert src[0..] == src && dst[..0] + Unflat(src) == Unflat(src);
    while i < |src|
      invariant i == 4 * k && j == 3 * k && i <= |src| && Quads(src[i..])
      invariant dst[..j] + Unflat(src[i..]) == Unflat(src)
    {
      UnflatTurn(src, i);
      ghost var front := dst[..j];
      PutTriple(src, i, dst, j);
      AssocBytes(front, Quad(src[i..i + 4]), Unflat(src[i + 4..]));
      i, j := i + 4, j + 3;
      k := k + 1;
    }
    UnflatEnd(src[i..], dst[..j], Unflat(src));
    dst[j] := 0;
  }

  /** The loop body of `base64_decode`. */
  method PutTriple(src: string, i: nat, dst: array<Byte>, j: nat)
    requires i + 4 <= |src| && j + 3 <= dst.Length && Four(src[i..i + 4])
    requires Known(src[i]) && Known(src[i + 1]) && Known(src[i + 2]) && Known(src[i + 3])
    modifies dst
    ensures dst[..j + 3] == old(dst[..j]) + Quad(src[i..i + 4])
  {
    hide *;
    QuadIs(src[i..i + 4]);
    var m0, m1, m2, m3 := Sym(src[i]), Sym(src[i + 1]), Sym(src[i + 2]), Sym(src[i + 3]);
    dst[j] := Or(m0 * 4, m1 / 16) % 256;
    dst[j + 1] := Or(m1 * 16, m2 / 4) % 256;
    dst[j + 2] := Or(m2 * 64, m3) % 256;
  }

  lemma AssocBytes(a: seq<Byte>, b: seq<Byte>, c: seq<Byte>)
    ensures (a + b) + c == a + (b + c)
  {
  }

  lemma QuadsLen(s: string)
    requires Quads(s)
    ensures |s| == 4 * (|s| / 4)
  {
  }

  lemma UnflatTurn(s: string, i: nat)
    requires i + 4 <= |s| && Quads(s) && i % 4 == 0
    ensures Quads(s[i..]) && Quads(s[i + 4..]) && Four(s[i..i + 4])
    ensures Known(s[i]) && Known(s[i + 1]) && Known(s[i + 2]) && Known(s[i + 3])
    ensures Unflat(s[i..]) == Quad(s[i..i + 4]) + Unflat(s[i + 4..])
    ensures var m0, m1, m2, m3 := Sym(s[i]), Sym(s[i + 1]), Sym(s[i + 2]), Sym(s[i + 3]);
      Quad(s[i..i + 4]) == [Or(m0 * 4, m1 / 16) % 256, Or(m1 * 16, m2 / 4) % 256, Or(m2 * 64, m3) % 256]
  {
    hide Known, Sym, Or, Quad;
    assert s[i..][..4] == s[i..i + 4] && s[i..][4..] == s[i + 4..];
    QuadIs(s[i..i + 4]);
  }

  lemma UnflatEnd(s: string, front: seq<Byte>, all: seq<Byte>)
    requires s == "" && front + Unflat(s) == all
    ensures front == all
  {
    assert front + [] == front;
  }

  /** The string overloads; an empty input leaves the result as it was. */
  method EncodeString(src: seq<Byte>, old_dst: string) returns (dst: string)
    ensures dst == if src == [] then old_dst else Flat(src)
  {
    hide *;
    if |src| == 0 {
      return old_dst;
    }
    var dstlen := (|src| + 2) / 3 * 4;
    var pdst := new char[dstlen + 1];
    pdst[dstlen] := '\0';
    Encode(src, pdst);
    return pdst[..dstlen];
  }

  method DecodeString(src: string, old_dst: seq<Byte>) returns (dst: seq<Byte>)
    requires Quads(src)
    ensures dst == if src == "" then old_dst else CString(Unflat(src))
  {
    hide *;
    if |src| == 0 {
      return old_dst;
    }
    var dstlen := |src| / 4 * 3;
    var pdst := new Byte[dstlen + 1];
    DecodeFlat(src, pdst);
    pdst[dstlen] := 0;
    dst := UpToZero(pdst);
    CStringEnds(Unflat(src), pdst[..]);
  }

  /** Assignment from a C string. */
  method UpToZero(p: array<Byte>) returns (s: seq<Byte>)
    ensures s == CString(p[..])
  {
    s := [];
    var i := 0;
    assert p[0..] == p[..];
    while i < p.Length && p[i] != 0
      invariant 0 <= i <= p.Length && s + CString(p[i..]) == CString(p[..])
    {
      assert p[i..][0] == p[i] && p[i..][1..] == p[i + 1..];
      s := s + [p[i]];
      i := i + 1;
    }
    assert i < p.Length ==> p[i..][0] == 0;
    assert s + [] == s;
  }

  lemma {:induction false} CStringEnds(b: seq<Byte>, w: seq<Byte>)
    requires w == b + [0]
    ensures CString(w) == CString(b)
  {
    if b != [] && b[0] != 0 {
      assert w[1..] == b[1..] + [0];
      CStringEnds(b[1..], w[1..]);
    }
  }

  /** Encoding and decoding strings gives every non-empty string without a zero byte back. */
  method StringRoundTrip(src: seq<Byte>) returns (dst: seq<Byte>)
    requires src != [] && forall i :: 0 <= i < |src| ==> src[i] != 0
    ensures dst == src
  {
    hide *;
    FlatQuads(src);
    StringsInverse(src);
    var s := EncodeString(src, "");
    dst := DecodeString(s, []);
  }
}
