/** Which byte sequences survive decoding, and what becomes of the others. */
module Utf8Exact {
  import opened Streams
  import opened OptionType
  import opened Text
  import opened Utf8

  /** The shortest-form sequence at the front of `b`, and its length. */
  function FrontCode(b: Bytes): (r: Option<(Code, nat)>)
    ensures r.Some? ==> 1 <= r.value.1 <= |b| && CodeBytes(r.value.0) == b[..r.value.1]
  {
    if b == [] then None
    else
      var (high, extra) := Lead(b[0]);
      if extra < 0 || extra >= |b| then None
      else
        var code := Extend(high, b[1..extra + 1]);
        if code < 0x110000 && CodeBytes(code) == b[..extra + 1] then Some((code, extra + 1)) else None
  }

  /** Shortest-form sequences only, and none for a low surrogate right behind one for a high
      surrogate. */
  predicate Canonical(b: Bytes, afterHigh: bool) {
    b == []
    || match FrontCode(b)
       case None => false
       case Some((code, n)) => !(afterHigh && IsLow(code)) && Canonical(b[n..], IsHigh(code))
  }

  lemma FrontOfCode(code: Code, rest: Bytes)
    ensures FrontCode(CodeBytes(code) + rest) == Some((code, |CodeBytes(code)|))
    ensures (CodeBytes(code) + rest)[|CodeBytes(code)|..] == rest
  {
    ExtendCode(code);
    hide CodeBytes, Extend, Lead;
    var c := CodeBytes(code);
    var b := c + rest;
    assert b[0] == c[0] && b[1..|c|] == c[1..] && b[..|c|] == c;
  }

  /** Units of a code in front of a text are encoded on their own, unless they form a pair with
      the unit behind them. */
  lemma EncodeUnits(code: Code, t: Text)
    requires !(IsHigh(code) && t != [] && IsLow(t[0]))
    ensures Encode(Units(code) + t) == CodeBytes(code) + Encode(t)
  {
    hide CodeBytes;
    var units := Units(code);
    var all := units + t;
    EncodeStep(all);
    if code > 0xffff {
      var v := code - 0x10000;
      assert units == [0xd800 + v / 1024, 0xdc00 + v % 1024];
      assert all[0] == 0xd800 + v / 1024 && all[1] == 0xdc00 + v % 1024;
      assert FirstCode(all) == (code, 2) && all[2..] == t;
    } else {
      assert all[0] == code && all[1..] == t;
      assert |t| > 0 ==> all[1] == t[0];
      assert FirstCode(all) == (code, 1);
    }
  }

  lemma UnitsFront(code: Code)
    ensures Units(code) != [] && (IsLow(Units(code)[0]) <==> IsLow(code))
  {
  }

  lemma FirstUnit(b: Bytes)
    requires Canonical(b, true)
    ensures Decode(b) != [] ==> !IsLow(Decode(b)[0])
  {
    if b != [] {
      var (code, n) := FrontCode(b).value;
      hide CodeBytes, FrontCode, Decode, Units;
      DecodeCode(code, b[n..]);
      assert b == CodeBytes(code) + b[n..];
      UnitsFront(code);
    }
  }

  lemma {:induction false} CanonicalKept(b: Bytes, afterHigh: bool)
    requires Canonical(b, afterHigh)
    ensures Encode(Decode(b)) == b
  {
    if b != [] {
      var (code, n) := FrontCode(b).value;
      hide CodeBytes, FrontCode, Units, Decode, Encode;
      CanonicalKept(b[n..], IsHigh(code));
      DecodeCode(code, b[n..]);
      assert b == CodeBytes(code) + b[n..];
      if IsHigh(code) {
        FirstUnit(b[n..]);
      }
      EncodeUnits(code, Decode(b[n..]));
    }
  }

  lemma {:induction false} EncodeCanonical(t: Text, afterHigh: bool)
    requires !(afterHigh && t != [] && IsLow(t[0]))
    ensures Canonical(Encode(t), afterHigh)
  {
    if t != [] {
      var (code, n) := FirstCode(t);
      hide CodeBytes, FrontCode;
      assert n < |t| ==> t[n..][0] == t[n];
      EncodeCanonical(t[n..], IsHigh(code));
      FrontOfCode(code, Encode(t[n..]));
    }
  }

  /** Decoding loses nothing of a byte sequence if and only if it is canonical. */
  lemma DecodeExact(b: Bytes)
    ensures Encode(Decode(b)) == b <==> Canonical(b, false)
  {
    hide Encode, Decode, Canonical;
    if Canonical(b, false) {
      CanonicalKept(b, false);
    }
    EncodeCanonical(Decode(b), false);
  }

  /** An invalid sequence is not skipped: a lead byte takes whatever follows it, here a letter,
      for its tail. */
  lemma LeadSwallows(letter: byte)
    requires 0x41 <= letter <= 0x5a
    ensures Decode([0xc3, letter]) == [0xc0 + letter % 64] && !Canonical([0xc3, letter], false)
  {
    var b: Bytes := [0xc3, letter];
    ExtendUpTo3(3, letter, 0, 0);
    assert b[1..2] == [letter] && b[2..] == [];
  }

  /** An overlong form is not skipped either: two bytes for an ASCII character are read as it. */
  lemma OverlongAccepted(low: byte)
    requires low < 64
    ensures Decode([0xc1, 0x80 + low]) == [0x40 + low] && !Canonical([0xc1, 0x80 + low], false)
  {
    var b: Bytes := [0xc1, 0x80 + low];
    assert b[1..2] == [b[1]] && b[2..] == [];
    OverlongCode(low);
    assert Lead(b[0]) == (1, 1) && CodeBytes(0x40 + low) == [0x40 + low];
    assert FrontCode(b) == None;
    assert Units(0x40 + low) == [0x40 + low] && Decode([]) == [];
  }

  lemma OverlongCode(low: byte)
    requires low < 64
    ensures Extend(1, [0x80 + low]) == 0x40 + low
  {
    ExtendUpTo3(1, 0x80 + low, 0, 0);
    Low6(low);
  }

  /** Canonical bytes are decoded on their own, whatever follows. */
  lemma {:induction false} DecodeJoin(x: Bytes, y: Bytes, afterHigh: bool)
    requires Canonical(x, afterHigh)
    ensures Decode(x + y) == Decode(x) + Decode(y)
  {
    hide CodeBytes, FrontCode, Units, Decode;
    if x == [] {
      assert x + y == y && [] + Decode(y) == Decode(y);
      DecodeNone();
    } else {
      var (code, n) := FrontCode(x).value;
      DecodeJoin(x[n..], y, IsHigh(code));
      DecodeCode(code, x[n..]);
      DecodeCode(code, x[n..] + y);
      assert x == CodeBytes(code) + x[n..] && x + y == CodeBytes(code) + (x[n..] + y);
      assert Units(code) + Decode(x[n..]) + Decode(y) == Units(code) + (Decode(x[n..]) + Decode(y));
    }
  }

  /** A byte that leads nothing is skipped, and decoding goes on behind it. */
  lemma StraySkipped(x: Bytes, stray: byte, y: Bytes)
    requires Canonical(x, false) && (0x80 <= stray <= 0xbf || 0xf8 <= stray)
    ensures Decode(x + [stray] + y) == Decode(x) + Decode(y)
  {
    DecodeJoin(x, [stray] + y, false);
    hide Canonical;
    assert x + [stray] + y == x + ([stray] + y) && ([stray] + y)[1..] == y;
    assert Lead(stray).1 == -1;
  }

  /** A sequence that is cut off at the end is dropped. */
  lemma CutOffDropped(x: Bytes, lead: byte, tail: Bytes)
    requires Canonical(x, false) && 0xc0 <= lead <= 0xf7
    requires |tail| < if lead <= 0xdf then 1 else if lead <= 0xef then 2 else 3
    ensures Decode(x + [lead] + tail) == Decode(x)
  {
    DecodeJoin(x, [lead] + tail, false);
    LeadNeeds(lead);
    hide Canonical, Lead;
    assert x + [lead] + tail == x + ([lead] + tail);
    assert Decode([lead] + tail) == [];
  }

  lemma LeadNeeds(lead: byte)
    requires 0xc0 <= lead <= 0xf7
    ensures Lead(lead).1 == if lead <= 0xdf then 1 else if lead <= 0xef then 2 else 3
  {
  }
}
