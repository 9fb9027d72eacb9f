/** UTF-8 encoding and decoding of UTF-16 text, as written in the app: bit operators appear
    as the arithmetic they stand for (`x >> 6` as `x / 64`, `x & 0x3f` as `x % 64`, and `|`
    of disjoint bits as `+`). */
module Utf8 {
  import opened Streams
  import opened Text

  predicate IsHigh(u: int) {
    0xd800 <= u <= 0xdbff
  }

  predicate IsLow(u: int) {
    0xdc00 <= u <= 0xdfff
  }

  type Code = c: int | 0 <= c < 0x110000

  /** The code of a surrogate pair. */
  function PairCode(high: int, low: int): (c: int)
    ensures IsHigh(high) && IsLow(low) ==> 0x10000 <= c < 0x110000
  {
    0x10000 + (high - 0xd800) * 1024 + (low - 0xdc00)
  }

  /** The code at the front of a text, and how many units it takes: a surrogate pair is one
      code, a lone surrogate stands for itself. */
  function FirstCode(t: Text): (r: (Code, nat))
    requires t != []
    ensures 1 <= r.1 <= |t|
  {
    if IsHigh(t[0]) && |t| > 1 && IsLow(t[1]) then (PairCode(t[0], t[1]), 2)
    else (t[0], 1)
  }

  function CodeBytes(code: Code): (b: Bytes)
    ensures 1 <= |b| <= 4
  {
    if code < 0x80 then [code]
    else if code < 0x800 then [0xc0 + code / 64, 0x80 + code % 64]
    else if code < 0x10000 then [0xe0 + code / 4096, 0x80 + code / 64 % 64, 0x80 + code % 64]
    else [0xf0 + code / 262144, 0x80 + code / 4096 % 64, 0x80 + code / 64 % 64, 0x80 + code % 64]
  }

  function Encode(t: Text): Bytes {
    if t == [] then []
    else
      var (code, n) := FirstCode(t);
      CodeBytes(code) + Encode(t[n..])
  }

  method EncodeUtf8(text: Text) returns (bytes: Bytes)
    ensures bytes == Encode(text)
  {
    hide CodeBytes, PairCode, Encode;
    bytes := [];
    var i := 0;
    assert text[0..] == text && [] + Encode(text) == Encode(text);
    while i < |text|
      invariant i <= |text|
      invariant bytes + Encode(text[i..]) == Encode(text)
    {
      ghost var rest := text[i..];
      var code: Code := text[i];
      var start := i;
      if 0xd800 <= code && code <= 0xdbff && i + 1 < |text| {
        var low := text[i + 1];
        assert rest[1] == low;
        if 0xdc00 <= low && low <= 0xdfff {
          code := PairCode(code, low);
          i := i + 1;
        }
      }
      var encoded := EncodeCode(code);
      bytes := bytes + encoded;
      i := i + 1;
      assert rest[i - start..] == text[i..];
      EncodeStep(rest);
    }
    assert text[i..] == [];
    EncodeStep([]);
  }

  lemma EncodeStep(t: Text)
    ensures Encode(t) == if t == [] then [] else CodeBytes(FirstCode(t).0) + Encode(t[FirstCode(t).1..])
  {
  }

  /** The bytes pushed for one code. */
  method EncodeCode(code: Code) returns (b: Bytes)
    ensures b == CodeBytes(code)
  {
    if code < 0x80 {
      b := [code];
    } else if code < 0x800 {
      b := [0xc0 + code / 64, 0x80 + code % 64];
    } else if code < 0x10000 {
      b := [0xe0 + code / 4096, 0x80 + code / 64 % 64, 0x80 + code % 64];
    } else {
      b := [0xf0 + code / 262144, 0x80 + code / 4096 % 64, 0x80 + code / 64 % 64, 0x80 + code % 64];
    }
  }

  /** What a lead byte announces: the high bits of the code and the number of bytes to
      follow, or -1 for a byte that leads nothing. */
  function Lead(lead: byte): (r: (nat, int))
    ensures -1 <= r.1 <= 3
  {
    if lead < 0x80 then (lead, 0)
    else if lead / 32 == 6 then (lead % 32, 1)
    else if lead / 16 == 14 then (lead % 16, 2)
    else if lead / 8 == 30 then (lead % 8, 3)
    else (0, -1)
  }

  /** The code with the low six bits of each byte of `tail` behind it. */
  function Extend(high: nat, tail: Bytes): nat {
    if tail == [] then high
    else
      var last: nat := tail[|tail| - 1];
      Extend(high, tail[..|tail| - 1]) * 64 + last % 64
  }

  /** `String.fromCharCode` of a code, as a surrogate pair from 0x10000 on; an argument is
      cut to 16 bits. */
  function Units(code: nat): Text {
    if code <= 0xffff then [code]
    else
      var v := code - 0x10000;
      [(0xd800 + v / 1024) % 0x10000, 0xdc00 + v % 1024]
  }

  function Decode(b: Bytes): Text {
    if b == [] then []
    else
      var (high, extra) := Lead(b[0]);
      if extra < 0 then Decode(b[1..])
      else if extra >= |b| then []
      else Units(Extend(high, b[1..extra + 1])) + Decode(b[extra + 1..])
  }

  method DecodeUtf8(bytes: Bytes) returns (out: Text)
    ensures out == Decode(bytes)
  {
    hide Lead, Extend, Units;
    out := [];
    var i := 0;
    while i < |bytes|
      invariant i <= |bytes|
      invariant out + Decode(bytes[i..]) == Decode(bytes)
    {
      ghost var rest := bytes[i..];
      var codePoint, extra := ReadLead(bytes[i]);
      if extra < 0 {
        assert rest[1..] == bytes[i + 1..];
        i := i + 1;
        continue;
      }
      if i + extra >= |bytes| {
        assert out + [] == out;
        break;
      }
      assert rest[1..extra + 1] == bytes[i + 1..i + extra + 1] && rest[extra + 1..] == bytes[i + extra + 1..];
      codePoint := ReadTail(codePoint, bytes[i + 1..i + extra + 1]);
      var units := WriteUnits(codePoint);
      out := out + units;
      i := i + extra + 1;
    }
    assert i < |bytes| || bytes[i..] == [];
  }

  /** The classification of a lead byte; a byte below 0x80 is a code without continuation. */
  method ReadLead(lead: byte) returns (codePoint: nat, extra: int)
    ensures (codePoint, extra) == Lead(lead)
  {
    if lead < 0x80 {
      return lead, 0;
    }
    codePoint, extra := 0, 0;
    if lead / 32 == 6 {
      codePoint := lead % 32;
      extra := 1;
    } else if lead / 16 == 14 {
      codePoint := lead % 16;
      extra := 2;
    } else if lead / 8 == 30 {
      codePoint := lead % 8;
      extra := 3;
    } else {
      extra := -1;
    }
  }

  method WriteUnits(codePoint: nat) returns (units: Text)
    ensures units == Units(codePoint)
  {
    if codePoint <= 0xffff {
      units := [codePoint];
    } else {
      // astral plane: a surrogate pair
      var v := codePoint - 0x10000;
      units := [(0xd800 + v / 1024) % 0x10000, 0xdc00 + v % 1024];
    }
  }

  /** The continuation loop of the decoder. */
  method ReadTail(high: nat, tail: Bytes) returns (codePoint: nat)
    ensures codePoint == Extend(high, tail)
  {
    codePoint := high;
    assert tail[..0] == [];
    for j := 0 to |tail|
      invariant codePoint == Extend(high, tail[..j])
    {
      var next: nat := tail[j];
      assert tail[..j + 1][..j] == tail[..j];
      codePoint := codePoint * 64 + next % 64;
    }
    assert tail[..|tail|] == tail;
  }

  // ---- Round trip ----

  lemma DecodeCode(code: Code, rest: Bytes)
    ensures Decode(CodeBytes(code) + rest) == Units(code) + Decode(rest)
  {
    var c := CodeBytes(code);
    var b := c + rest;
    var (high, extra) := Lead(b[0]);
    assert extra + 1 == |c|;
    assert b[extra + 1..] == rest && b[1..extra + 1] == c[1..];
    ExtendCode(code);
  }

  lemma ExtendSnoc(high: nat, tail: Bytes, last: byte)
    ensures Extend(high, tail + [last]) == Extend(high, tail) * 64 + last % 64
  {
    assert (tail + [last])[..|tail|] == tail;
  }

  /** The lead byte of a code announces the bytes that follow and keeps the high bits. */
  lemma LeadOfCode(code: Code)
    ensures var c := CodeBytes(code);
            Lead(c[0]) == (if |c| == 1 then code else if |c| == 2 then code / 64 else if |c| == 3 then code / 4096
                           else code / 262144, |c| - 1)
  {
  }

  lemma SixBitGroups(code: nat)
    ensures code == code / 64 * 64 + code % 64
    ensures code / 64 == code / 4096 * 64 + code / 64 % 64
    ensures code / 4096 == code / 262144 * 64 + code / 4096 % 64
  {
    assert code / 4096 == code / 64 / 64 && code / 262144 == code / 4096 / 64;
  }

  /** A byte 10xxxxxx carrying the low bits of `x` gives them back. */
  lemma Low6(x: nat)
    ensures (0x80 + x % 64) % 64 == x % 64
  {
  }

  lemma ExtendUpTo3(high: nat, a: byte, b: byte, c: byte)
    ensures Extend(high, [a]) == high * 64 + a % 64
    ensures Extend(high, [a, b]) == Extend(high, [a]) * 64 + b % 64
    ensures Extend(high, [a, b, c]) == Extend(high, [a, b]) * 64 + c % 64
  {
    ExtendNone(high);
    ExtendSnoc(high, [], a);
    ExtendSnoc(high, [a], b);
    ExtendSnoc(high, [a, b], c);
    assert [] + [a] == [a] && [a] + [b] == [a, b] && [a, b] + [c] == [a, b, c];
  }

  lemma ExtendCode(code: Code)
    ensures var c := CodeBytes(code);
            Lead(c[0]).1 + 1 == |c| && Extend(Lead(c[0]).0, c[1..]) == code
  {
    hide Extend, Lead;
    var c := CodeBytes(code);
    LeadOfCode(code);
    var high := Lead(c[0]).0;
    SixBitGroups(code);
    Low6(code);
    Low6(code / 64);
    Low6(code / 4096);
    if |c| == 1 {
      ExtendNone(high);
      assert c[1..] == [];
    } else if |c| == 2 {
      ExtendUpTo3(high, c[1], 0, 0);
      assert c[1..] == [c[1]];
    } else if |c| == 3 {
      ExtendUpTo3(high, c[1], c[2], 0);
      assert c[1..] == [c[1], c[2]];
    } else {
      ExtendUpTo3(high, c[1], c[2], c[3]);
      assert c[1..] == [c[1], c[2], c[3]];
    }
  }

  lemma ExtendNone(high: nat)
    ensures Extend(high, []) == high
  {
  }

  /** A code read from the front of a text is written back as the units it came from. */
  lemma UnitsOfFirst(t: Text)
    requires t != []
    ensures Units(FirstCode(t).0) == t[..FirstCode(t).1]
  {
    if FirstCode(t).1 == 2 {
      var v := FirstCode(t).0 - 0x10000;
      var h: int, l: int := t[0], t[1];
      assert v == (h - 0xd800) * 1024 + (l - 0xdc00);
    }
  }

  /** Decoding inverts encoding on every sequence of code units, paired or not. */
  lemma {:induction false} DecodeInvertsEncode(t: Text)
    ensures Decode(Encode(t)) == t
  {
    hide CodeBytes, PairCode, Units, Decode;
    if t == [] {
      assert Decode([]) == [] by { DecodeNone(); }
    } else {
      var (code, n) := FirstCode(t);
      DecodeInvertsEncode(t[n..]);
      DecodeCode(code, Encode(t[n..]));
      UnitsOfFirst(t);
      assert t == t[..n] + t[n..];
    }
  }

  lemma DecodeNone()
    ensures Decode([]) == []
  {
  }

  // ---- The encoding is UTF-8 ----

  predicate IsTail(b: byte) {
    0x80 <= b <= 0xbf
  }

  /** Section 3 of RFC 3629: the bytes `b` encode the character number `code`; the number is
      read back from the free bits of the table, and the shortest form is required. */
  predicate Utf8Sequence(code: int, b: Bytes) {
    (|b| == 1 && b[0] <= 0x7f && code == b[0])
    || (|b| == 2 && 0xc0 <= b[0] <= 0xdf && IsTail(b[1]) && code >= 0x80 && code == Free(Minus(b[0], 0xc0), b[1]))
    || (|b| == 3 && 0xe0 <= b[0] <= 0xef && IsTail(b[1]) && IsTail(b[2]) && code >= 0x800
        && code == Free(Free(Minus(b[0], 0xe0), b[1]), b[2]))
    || (|b| == 4 && 0xf0 <= b[0] <= 0xf7 && IsTail(b[1]) && IsTail(b[2]) && IsTail(b[3]) && 0x10000 <= code <= 0x10ffff
        && code == Free(Free(Free(Minus(b[0], 0xf0), b[1]), b[2]), b[3]))
  }

  function Minus(a: int, b: int): int {
    a - b
  }

  /** Bits read so far, followed by the six free bits of a tail byte 10xxxxxx. */
  function Free(bits: int, tail: int): int {
    bits * 0x40 + (tail - 0x80)
  }

  lemma CodeBytesUtf8(code: Code)
    ensures Utf8Sequence(code, CodeBytes(code))
  {
    SixBitGroups(code);
  }

  /** A character number: a code that is not a surrogate. */
  predicate Scalar(code: nat) {
    code <= 0x10ffff && !(0xd800 <= code <= 0xdfff)
  }

  /** A character number as UTF-16 writes it, one unit or a surrogate pair. */
  predicate Utf16Sequence(code: nat, t: Text) {
    (|t| == 1 && code == t[0])
    || (|t| == 2 && IsHigh(t[0]) && IsLow(t[1]) && code == PairCode(t[0], t[1]))
  }

  /** `t` in UTF-16 and `b` in UTF-8 write the same character numbers. */
  ghost predicate SameCharacters(t: Text, b: Bytes, codes: seq<nat>)
    decreases |codes|
  {
    if codes == [] then t == [] && b == []
    else
      Scalar(codes[0]) && exists n: nat, m: nat ::
        && n <= |t| && m <= |b|
        && Utf16Sequence(codes[0], t[..n]) && Utf8Sequence(codes[0], b[..m])
        && SameCharacters(t[n..], b[m..], codes[1..])
  }

  /** No surrogate without its partner. */
  predicate WellFormed(t: Text) {
    t == [] || (Scalar(FirstCode(t).0) && WellFormed(t[FirstCode(t).1..]))
  }

  function Codes(t: Text): seq<nat> {
    if t == [] then [] else [FirstCode(t).0 as nat] + Codes(t[FirstCode(t).1..])
  }

  /** For well-formed text the bytes are the UTF-8 form of its characters. */
  lemma {:induction false} EncodeIsUtf8(t: Text)
    requires WellFormed(t)
    ensures SameCharacters(t, Encode(t), Codes(t))
  {
    if t != [] {
      var (code, n) := FirstCode(t);
      var c, b := CodeBytes(code), Encode(t);
      EncodeIsUtf8(t[n..]);
      CodeBytesUtf8(code);
      assert b[..|c|] == c && b[|c|..] == Encode(t[n..]);
      assert Utf16Sequence(code, t[..n]);
      assert Codes(t)[1..] == Codes(t[n..]);
    }
  }

  /** The encoded length is at most three bytes a unit. */
  lemma {:induction false} EncodeLength(t: Text)
    ensures |Encode(t)| <= 3 * |t|
  {
    if t != [] {
      EncodeLength(t[FirstCode(t).1..]);
    }
  }
}
