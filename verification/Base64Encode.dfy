/** The encoder of sections 4 and 5 of RFC 4648, and its inversion by the decoder. */
module Base64Encode {
  import opened Streams
  import opened OptionType
  import opened Text
  import opened Base64

  /** Groups of three bytes become four values; a last group of one or two bytes becomes
      two or three, with zero bits added. */
  function EncodeValues(b: Bytes): seq<Six> {
    var n := |b|;
    if n == 0 then []
    else if n % 3 == 1 then
      var x: nat := b[n - 1];
      EncodeValues(b[..n - 1]) + [x / 4, x % 4 * 16]
    else if n % 3 == 2 then
      var x: nat, y: nat := b[n - 2], b[n - 1];
      EncodeValues(b[..n - 2]) + [x / 4, x % 4 * 16 + y / 16, y % 16 * 4]
    else
      var x: nat, y: nat, z: nat := b[n - 3], b[n - 2], b[n - 1];
      EncodeValues(b[..n - 3]) + [x / 4, x % 4 * 16 + y / 16, y % 16 * 4 + z / 64, z % 64]
  }

  /** The characters of values, in the standard or the URL-safe alphabet. */
  function Chars(vs: seq<Six>, url: bool): (t: Text)
    ensures |t| == |vs|
  {
    if vs == [] then []
    else
      var c := Char64(vs[0]);
      [if url && c == 43 then 45 else if url && c == 47 then 95 else c] + Chars(vs[1..], url)
  }

  function Padding(n: nat): Text {
    if n % 3 == 0 then [] else if n % 3 == 1 then [PAD, PAD] else [PAD]
  }

  function Encode(b: Bytes, url: bool, padded: bool): Text {
    Chars(EncodeValues(b), url) + if padded then Padding(|b|) else []
  }

  /** A text without its blanks. */
  function Strip(text: Text): Text {
    if text == [] then [] else (if IsBlank(text[0]) then [] else [text[0]]) + Strip(text[1..])
  }

  lemma Num256Append(b: Bytes, x: byte)
    ensures Num256(b + [x]) == Num256(b) * 256 + x
  {
    assert (b + [x])[..|b|] == b;
  }

  lemma Append1(vs: seq<Six>, b: Bytes, x: byte)
    requires Num64(vs) == Num256(b)
    ensures Num64(vs + [x / 4, x % 4 * 16]) == Num256(b + [x]) * 16
  {
    hide Num64, Num256;
    assert vs + [x / 4, x % 4 * 16] == vs + [x / 4] + [x % 4 * 16];
    NumSnoc(vs, x / 4);
    NumSnoc(vs + [x / 4], x % 4 * 16);
    Num256Append(b, x);
  }

  lemma Append2(vs: seq<Six>, b: Bytes, x: byte, y: byte)
    requires Num64(vs) == Num256(b)
    ensures Num64(vs + [x / 4, x % 4 * 16 + y / 16, y % 16 * 4]) == Num256(b + [x, y]) * 4
  {
    hide Num64, Num256;
    var v1: Six, v2: Six, v3: Six := x / 4, x % 4 * 16 + y / 16, y % 16 * 4;
    assert vs + [v1, v2, v3] == vs + [v1] + [v2] + [v3];
    NumSnoc(vs, v1);
    NumSnoc(vs + [v1], v2);
    NumSnoc(vs + [v1] + [v2], v3);
    assert b + [x, y] == b + [x] + [y];
    Num256Append(b, x);
    Num256Append(b + [x], y);
  }

  lemma Append3(vs: seq<Six>, b: Bytes, x: byte, y: byte, z: byte)
    requires Num64(vs) == Num256(b)
    ensures Num64(vs + [x / 4, x % 4 * 16 + y / 16, y % 16 * 4 + z / 64, z % 64]) == Num256(b + [x, y, z])
  {
    hide Num64, Num256;
    var v1: Six, v2: Six, v3: Six, v4: Six := x / 4, x % 4 * 16 + y / 16, y % 16 * 4 + z / 64, z % 64;
    assert vs + [v1, v2, v3, v4] == vs + [v1] + [v2] + [v3] + [v4];
    NumSnoc(vs, v1);
    NumSnoc(vs + [v1], v2);
    NumSnoc(vs + [v1] + [v2], v3);
    NumSnoc(vs + [v1] + [v2] + [v3], v4);
    assert b + [x, y, z] == b + [x] + [y] + [z];
    Num256Append(b, x);
    Num256Append(b + [x], y);
    Num256Append(b + [x] + [y], z);
  }

  lemma {:induction false} EncodeLength(b: Bytes)
    ensures |EncodeValues(b)| == 4 * (|b| / 3) + (if |b| % 3 == 0 then 0 else |b| % 3 + 1)
  {
    if |b| % 3 != 0 {
      EncodeLength(b[..|b| - |b| % 3]);
    } else if b != [] {
      EncodeLength(b[..|b| - 3]);
    }
  }

  lemma {:induction false} EncodeWhole(b: Bytes)
    requires |b| % 3 == 0
    ensures Num64(EncodeValues(b)) == Num256(b)
  {
    hide Num64, Num256;
    if b == [] {
      NumbersOfNothing();
    } else {
      var n := |b|;
      EncodeWhole(b[..n - 3]);
      Append3(EncodeValues(b[..n - 3]), b[..n - 3], b[n - 3], b[n - 2], b[n - 1]);
      assert b == b[..n - 3] + [b[n - 3], b[n - 2], b[n - 1]];
    }
  }

  /** The values spell the same number as the bytes, moved left by the added bits. */
  lemma {:induction false} EncodeNumber(b: Bytes)
    ensures |b| % 3 == 0 ==> Num64(EncodeValues(b)) == Num256(b)
    ensures |b| % 3 == 1 ==> Num64(EncodeValues(b)) == Num256(b) * 16
    ensures |b| % 3 == 2 ==> Num64(EncodeValues(b)) == Num256(b) * 4
  {
    hide Num64, Num256;
    var n := |b|;
    if n % 3 == 0 {
      EncodeWhole(b);
    } else if n % 3 == 1 {
      EncodeWhole(b[..n - 1]);
      Append1(EncodeValues(b[..n - 1]), b[..n - 1], b[n - 1]);
      assert b == b[..n - 1] + [b[n - 1]];
    } else {
      EncodeWhole(b[..n - 2]);
      Append2(EncodeValues(b[..n - 2]), b[..n - 2], b[n - 2], b[n - 1]);
      assert b == b[..n - 2] + [b[n - 2], b[n - 1]];
    }
  }

  lemma NumbersOfNothing()
    ensures Num64([]) == 0 && Num256([]) == 0
  {
  }

  lemma CarriedEncode(b: Bytes)
    ensures Carried(EncodeValues(b)) == b
  {
    EncodeNumber(b);
    EncodeLength(b);
    DigitsOfBytes(b);
    var vs, k := EncodeValues(b), |b| / 3;
    assert |b| == 3 * k + |b| % 3;
    assert ByteCount(|vs|) == |b|;
    assert Shift(Num64(vs), SpareBits(|vs|)) == Num256(b);
  }

  lemma {:induction false} ValuesOfChars(vs: seq<Six>, url: bool, tail: Text)
    requires tail == [] || tail[0] == PAD
    ensures Values(Chars(vs, url) + tail) == Some(vs)
  {
    var text := Chars(vs, url) + tail;
    if vs != [] {
      assert text[1..] == Chars(vs[1..], url) + tail;
      ValuesOfChars(vs[1..], url, tail);
      assert IndexInAlphabet(Normal(text[0])) == vs[0];
      assert vs == [vs[0]] + vs[1..];
    }
  }

  lemma {:induction false} ValuesIgnoreBlanks(text: Text)
    ensures Values(Strip(text)) == Values(text)
  {
    if text != [] {
      ValuesIgnoreBlanks(text[1..]);
      assert [] + Strip(text[1..]) == Strip(text[1..]);
      if !IsBlank(text[0]) {
        assert Strip(text)[1..] == Strip(text[1..]);
      }
    }
  }

  /** Decoding inverts encoding, for bytes of any number although the 32-bit accumulator
      overflows: either alphabet, padded or not, blanks anywhere. */
  lemma DecodeInvertsEncode(b: Bytes, url: bool, padded: bool, text: Text)
    requires Strip(text) == Encode(b, url, padded)
    ensures DecodeBytes(text) == Some(b)
  {
    ValuesIgnoreBlanks(text);
    ValuesOfChars(EncodeValues(b), url, if padded then Padding(|b|) else []);
    CarriedEncode(b);
  }

  /** An encoding has no blanks and only letters, digits and the five characters +-/_=. */
  lemma {:induction false} CharsPlain(vs: seq<Six>, url: bool)
    ensures forall i :: 0 <= i < |vs| ==> IsPlain(Chars(vs, url)[i])
    ensures Strip(Chars(vs, url)) == Chars(vs, url)
  {
    if vs != [] {
      CharsPlain(vs[1..], url);
    }
  }

  predicate IsPlain(u: Unit) {
    48 <= u <= 57 || 65 <= u <= 90 || 97 <= u <= 122 || u == 43 || u == 45 || u == 47 || u == 95 || u == PAD
  }

  lemma {:induction false} StripConcat(a: Text, b: Text)
    ensures Strip(a + b) == Strip(a) + Strip(b)
  {
    if a == [] {
      assert a + b == b;
    } else {
      assert (a + b)[1..] == a[1..] + b;
      StripConcat(a[1..], b);
    }
  }

  lemma EncodePlain(b: Bytes, url: bool, padded: bool)
    ensures forall i :: 0 <= i < |Encode(b, url, padded)| ==> IsPlain(Encode(b, url, padded)[i])
    ensures Strip(Encode(b, url, padded)) == Encode(b, url, padded)
    ensures DecodeBytes(Encode(b, url, padded)) == Some(b)
  {
    var chars, pad := Chars(EncodeValues(b), url), if padded then Padding(|b|) else [];
    CharsPlain(EncodeValues(b), url);
    StripConcat(chars, pad);
    assert Strip(pad) == pad by { PaddingPlain(|b|); }
    DecodeInvertsEncode(b, url, padded, Encode(b, url, padded));
  }

  lemma PaddingPlain(n: nat)
    ensures Strip(Padding(n)) == Padding(n)
  {
    assert Strip([PAD]) == [PAD];
    assert [PAD, PAD][1..] == [PAD];
    assert Strip([PAD, PAD]) == [PAD] + Strip([PAD]);
  }

  // ---- The characters, as literals ----

  /** The alphabet: the letters from 'A' to 'Z' and from 'a' to 'z' and the digits, each in a
      row, then '+' and '/', or '-' and '_' in the URL-safe one. */
  lemma AlphabetIs(v: Six)
    ensures v < 26 ==> Char64(v) == 'A' as int + v
    ensures 26 <= v < 52 ==> Char64(v) == 'a' as int + (v - 26)
    ensures 52 <= v < 62 ==> Char64(v) == '0' as int + (v - 52)
    ensures Char64(62) == '+' as int && Char64(63) == '/' as int
    ensures Chars([v], true) == [if v == 62 then '-' as int else if v == 63 then '_' as int else Char64(v)]
  {
    assert [v][1..] == [];
  }

  /** A blank, a tab, a carriage return or a line feed may stand anywhere. */
  lemma BlankAnywhere(a: Text, c: Unit, b: Text)
    requires c == 32 || c == 9 || c == 13 || c == 10
    ensures DecodeBytes(a + [c] + b) == DecodeBytes(a + b)
  {
    StripConcat(a + [c], b);
    StripConcat(a, [c]);
    StripConcat(a, b);
    assert [c][1..] == [];
    assert Strip([c]) == [];
    assert Strip(a) + [] == Strip(a);
    ValuesIgnoreBlanks(a + [c] + b);
    ValuesIgnoreBlanks(a + b);
  }

  /** Any other character that is not in one of the alphabets, in front of the padding, makes
      the whole text invalid. */
  lemma {:induction false} OtherRefused(a: Text, c: Unit, b: Text)
    requires PAD !in a && c != PAD && c != 32 && c != 9 && c != 13 && c != 10 && c != 45 && c != 95
    requires forall v: Six :: Char64(v) != c
    ensures DecodeBytes(a + [c] + b) == None
  {
    var text := a + [c] + b;
    if a == [] {
      assert text[0] == c;
    } else {
      OtherRefused(a[1..], c, b);
      assert text[0] == a[0] && text[1..] == a[1..] + [c] + b;
      assert a[0] in a && forall u :: u in a[1..] ==> u in a;
    }
  }
}
