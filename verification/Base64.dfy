/** Base64 decoding with a 32-bit accumulator that is never masked. */
module Base64 {
  import opened Streams
  import opened OptionType
  import opened Text

  /** A 6-bit value. */
  type Six = v: int | 0 <= v < 64

  const PAD: Unit := 61

  predicate IsBlank(u: Unit) {
    u == 32 || u == 9 || u == 13 || u == 10
  }

  /** `ALPHABET`, as ranges: A-Z, a-z, 0-9, and the two characters `+` and `/`. */
  function Char64(v: Six): Unit {
    if v < 26 then 65 + v
    else if v < 52 then 97 + (v - 26)
    else if v < 62 then 48 + (v - 52)
    else if v == 62 then 43
    else 47
  }

  /** `ALPHABET.indexOf(c)`. */
  function IndexInAlphabet(u: Unit): (v: int)
    ensures -1 <= v < 64
    ensures v >= 0 ==> Char64(v) == u
    ensures v < 0 ==> forall w: Six :: Char64(w) != u
  {
    if 65 <= u <= 90 then u - 65
    else if 97 <= u <= 122 then u - 97 + 26
    else if 48 <= u <= 57 then u - 48 + 52
    else if u == 43 then 62
    else if u == 47 then 63
    else -1
  }

  /** The URL-safe characters `-` and `_` stand for `+` and `/`. */
  function Normal(u: Unit): Unit {
    if u == 45 then 43 else if u == 95 then 47 else u
  }

  /** The 6-bit values written by a text: blanks are skipped, `=` ends it, and any other
      character makes it invalid. */
  function Values(text: Text): Option<seq<Six>> {
    if text == [] || Normal(text[0]) == PAD then Some([])
    else if IsBlank(Normal(text[0])) then Values(text[1..])
    else
      var v := IndexInAlphabet(Normal(text[0]));
      if v < 0 then None
      else
        match Values(text[1..])
        case None => None
        case Some(vs) => Some([v] + vs)
  }

  // ---- What the bits mean: one unbounded number ----

  function Num64(vs: seq<Six>): nat {
    if vs == [] then 0 else Num64(vs[..|vs| - 1]) * 64 + vs[|vs| - 1]
  }

  function Num256(b: Bytes): nat {
    if b == [] then 0 else Num256(b[..|b| - 1]) * 256 + b[|b| - 1]
  }

  function Low8(n: int): byte {
    n % 256
  }

  /** The last `len` base-256 digits of `n`. */
  function BytesOf(n: nat, len: nat): (b: Bytes)
    ensures |b| == len
  {
    if len == 0 then [] else BytesOf(n / 256, len - 1) + [Low8(n)]
  }

  lemma {:induction false} DigitsOfBytes(b: Bytes)
    ensures BytesOf(Num256(b), |b|) == b
  {
    if b != [] {
      DigitsOfBytes(b[..|b| - 1]);
      assert b == b[..|b| - 1] + [b[|b| - 1]];
    }
  }

  /** The left-over bits behind the last whole byte of `n` 6-bit values. */
  function SpareBits(n: nat): (k: nat)
    ensures k == 0 || k == 2 || k == 4 || k == 6
  {
    (6 * n) % 8
  }

  /** The whole bytes in `n` 6-bit values. */
  function ByteCount(n: nat): nat {
    (6 * n) / 8
  }

  /** `n >> k`, arithmetic, for the shifts that occur. */
  function Shift(n: int, k: nat): (r: int)
    ensures n >= 0 ==> r >= 0
  {
    if k == 0 then n else if k == 2 then n / 4 else if k == 4 then n / 16 else n / 64
  }

  /** The bytes carried by 6-bit values: the bits of the whole number, cut into bytes from
      the front, spare bits dropped. */
  function Carried(vs: seq<Six>): Bytes {
    BytesOf(Shift(Num64(vs), SpareBits(|vs|)), ByteCount(|vs|))
  }

  function DecodeBytes(text: Text): Option<Bytes> {
    match Values(text)
    case None => None
    case Some(vs) => Some(Carried(vs))
  }

  // ---- The decoder ----

  /** Two's complement: the int32 that a JavaScript bit operation leaves. */
  function Int32(n: int): (r: int)
    ensures -0x8000_0000 <= r < 0x8000_0000
  {
    (n + 0x8000_0000) % 0x1_0000_0000 - 0x8000_0000
  }

  /** `(buffer << 6) | value`: the six low bits are free, so `|` adds. */
  function Push6(buffer: int, value: Six): int {
    Int32(buffer * 64) + value
  }

  /** `(buffer >> bits) & 0xff`, with the arithmetic shift. */
  function Top8(buffer: int, bits: nat): (b: byte) {
    Low8(Shift(buffer, bits))
  }

  /** The accumulator is the whole number cut to 32 bits, however long the input; the eight
      bits above the spare ones are still intact because at most 12 are ever in use. */
  lemma PushKeepsNumber(n: nat, v: Six)
    ensures Push6(Int32(n), v) == Int32(64 * n + v)
  {
    var m := n + 0x8000_0000;
    var q := m / 0x1_0000_0000;
    assert m == 0x1_0000_0000 * q + m % 0x1_0000_0000;
    assert Int32(n) == n - 0x1_0000_0000 * q;
    Wrap(64 * n, -64 * q);
    var t := (64 * n + 0x8000_0000) / 0x1_0000_0000;
    assert Int32(64 * n) == 64 * n - 0x1_0000_0000 * t;
    assert Int32(64 * n) % 64 == 0;
    assert Int32(64 * n) + v < 0x8000_0000;
    Exact(Int32(64 * n) + v);
    Wrap(64 * n + v, -t);
  }

  lemma Wrap(n: int, k: int)
    ensures Int32(n + 0x1_0000_0000 * k) == Int32(n)
  {
    var m := n + 0x8000_0000;
    assert m + 0x1_0000_0000 * k == 0x1_0000_0000 * (m / 0x1_0000_0000 + k) + m % 0x1_0000_0000;
  }

  lemma Exact(n: int)
    requires -0x8000_0000 <= n < 0x8000_0000
    ensures Int32(n) == n
  {
  }

  lemma Top8OfNumber(n: nat, bits: nat)
    requires bits == 0 || bits == 2 || bits == 4
    ensures Top8(Int32(n), bits) == Low8(Shift(n, bits))
  {
    var q := (n + 0x8000_0000) / 0x1_0000_0000;
    var i := Int32(n);
    assert n == i + 0x1_0000_0000 * q;
    if bits == 0 {
      Mod256(i, 0x100_0000 * q);
    } else if bits == 2 {
      assert n / 4 == i / 4 + 0x4000_0000 * q;
      Mod256(i / 4, 0x40_0000 * q);
    } else {
      assert n / 16 == i / 16 + 0x1000_0000 * q;
      Mod256(i / 16, 0x10_0000 * q);
    }
  }

  lemma Mod256(a: int, k: int)
    ensures (a + 256 * k) % 256 == a % 256
  {
  }

  lemma SpareStep(n: nat)
    ensures SpareBits(n + 1) == if SpareBits(n) == 0 then 6 else SpareBits(n) - 2
    ensures ByteCount(n + 1) == ByteCount(n) + if SpareBits(n) == 0 then 0 else 1
  {
  }

  lemma NumberStep(n: nat, v: Six, k: nat)
    requires (k == 2 || k == 4 || k == 6)
    ensures Shift(64 * n + v, k - 2) / 256 == Shift(n, k)
  {
    if k == 2 {
      assert (64 * n + v) / 256 == n / 4;
    } else if k == 4 {
      assert (64 * n + v) / 4 / 256 == (64 * n + v) / 1024 == n / 16;
    } else {
      assert (64 * n + v) / 16 / 256 == (64 * n + v) / 4096 == n / 64;
    }
  }

  /** One more value after a spare-bit-free prefix: no new byte. */
  lemma CarriedSame(vs: seq<Six>, v: Six)
    requires SpareBits(|vs|) == 0
    ensures Carried(vs + [v]) == Carried(vs) && SpareBits(|vs| + 1) == 6
  {
    hide SpareBits, Num64, ByteCount, BytesOf, Shift;
    NumSnoc(vs, v);
    SpareStep(|vs|);
    ShiftSix(Num64(vs), v);
  }

  /** One more value completes a byte; the bytes so far stay. */
  lemma {:induction false} CarriedMore(vs: seq<Six>, v: Six)
    requires SpareBits(|vs|) > 0
    ensures SpareBits(|vs| + 1) == SpareBits(|vs|) - 2
    ensures Carried(vs + [v]) == Carried(vs) + [Low8(Shift(Num64(vs + [v]), SpareBits(|vs| + 1)))]
  {
    hide SpareBits, Num64, ByteCount, BytesOf, Shift, Low8;
    NumSnoc(vs, v);
    SpareStep(|vs|);
    NumberStep(Num64(vs), v, SpareBits(|vs|));
    var high: nat := Shift(Num64(vs + [v]), SpareBits(|vs| + 1));
    BytesOfSnoc(high, Shift(Num64(vs), SpareBits(|vs|)), ByteCount(|vs|));
  }

  lemma ShiftSix(n: nat, v: Six)
    ensures Shift(64 * n + v, 6) == Shift(n, 0)
  {
  }

  lemma BytesOfSnoc(n: nat, front: nat, len: nat)
    requires n / 256 == front
    ensures BytesOf(n, len + 1) == BytesOf(front, len) + [Low8(n)]
  {
  }

  lemma NumSnoc(vs: seq<Six>, v: Six)
    ensures Num64(vs + [v]) == 64 * Num64(vs) + v
  {
    assert (vs + [v])[..|vs|] == vs;
  }

  lemma CarriedNone()
    ensures Carried([]) == [] && SpareBits(0) == 0 && Int32(Num64([])) == 0
  {
  }

  method DecodeBase64(text: Text) returns (r: Option<Bytes>)
    ensures r == DecodeBytes(text)
  {
    hide Carried, Num64, SpareBits, Shift, Low8, Int32, Push6, Top8;
    CarriedNone();
    var bytes: Bytes := [];
    var buffer, bits := 0, 0;
    ghost var vs: seq<Six> := [];
    assert text[0..] == text && forall rest: seq<Six> :: [] + rest == rest;
    for i := 0 to |text|
      invariant buffer == Int32(Num64(vs)) && bits == SpareBits(|vs|)
      invariant bytes == Carried(vs)
      invariant match Values(text[i..])
                case None => Values(text) == None
                case Some(rest) => Values(text) == Some(vs + rest)
    {
      var c := Normal(text[i]);
      assert text[i..][0] == text[i] && text[i..][1..] == text[i + 1..];
      if c == PAD {
        assert vs + [] == vs;
        return Some(bytes);
      }
      if IsBlank(c) {
        continue;
      }
      var value := IndexInAlphabet(c);
      if value < 0 {
        return None;
      }
      if SpareBits(|vs|) == 0 {
        CarriedSame(vs, value);
      } else {
        CarriedMore(vs, value);
      }
      NumSnoc(vs, value);
      PushKeepsNumber(Num64(vs), value);
      buffer := Push6(buffer, value);
      bits := bits + 6;
      vs := vs + [value];
      if bits >= 8 {
        bits := bits - 8;
        Top8OfNumber(Num64(vs), bits);
        bytes := bytes + [Top8(buffer, bits)];
      }
      ghost var left := Values(text[i + 1..]);
      assert left.Some? ==> vs + left.value == vs[..|vs| - 1] + ([value] + left.value);
    }
    assert vs + [] == vs;
    r := Some(bytes);
  }
}
