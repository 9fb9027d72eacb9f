/** Searching, cutting and trimming sequences of characters of any kind. */
module Strings {
  /** The first position of `c`, or -1. */
  function IndexOf<T(==)>(s: seq<T>, c: T): (i: int)
    ensures -1 <= i < |s|
    ensures i >= 0 ==> s[i] == c && c !in s[..i]
    ensures i < 0 ==> c !in s
  {
    if s == [] then -1
    else if s[0] == c then 0
    else
      var r := IndexOf(s[1..], c);
      if r < 0 then -1 else assert s[..r + 1] == [s[0]] + s[1..][..r]; r + 1
  }

  /** The last position of `c`, or -1. */
  function LastIndexOf<T(==)>(s: seq<T>, c: T): (i: int)
    ensures -1 <= i < |s|
    ensures i >= 0 ==> s[i] == c && c !in s[i + 1..]
    ensures i < 0 ==> c !in s
  {
    if s == [] then -1
    else if s[|s| - 1] == c then |s| - 1
    else
      var r := LastIndexOf(s[..|s| - 1], c);
      assert s == s[..|s| - 1] + [s[|s| - 1]];
      if r < 0 then -1 else assert s[r + 1..] == s[..|s| - 1][r + 1..] + [s[|s| - 1]]; r
  }

  lemma InPrefix<T>(s: seq<T>, n: int, k: int)
    ensures 0 <= k < n <= |s| ==> s[k] in s[..n]
  {
    assert 0 <= k < n <= |s| ==> s[..n][k] == s[k];
  }

  lemma InSuffix<T>(s: seq<T>, n: int, k: int)
    ensures 0 <= n <= k < |s| ==> s[k] in s[n..]
  {
    assert 0 <= n <= k < |s| ==> s[n..][k - n] == s[k];
  }

  lemma IndexOfUnique<T>(s: seq<T>, c: T, i: nat)
    requires i < |s| && s[i] == c && c !in s[..i]
    ensures IndexOf(s, c) == i
  {
    var r := IndexOf(s, c);
    assert r >= 0;
    InPrefix(s, i, r);
    InPrefix(s, r, i);
  }

  lemma LastIndexOfUnique<T>(s: seq<T>, c: T, i: nat)
    requires i < |s| && s[i] == c && c !in s[i + 1..]
    ensures LastIndexOf(s, c) == i
  {
    var r := LastIndexOf(s, c);
    assert r >= 0;
    InSuffix(s, i + 1, r);
    InSuffix(s, r + 1, i);
  }

  /** The pieces between the occurrences of `c`. */
  function Split<T(==)>(s: seq<T>, c: T): (pieces: seq<seq<T>>)
    ensures pieces != []
  {
    var i := IndexOf(s, c);
    if i < 0 then [s] else [s[..i]] + Split(s[i + 1..], c)
  }

  /** Splitting a joint text gives the pieces of both parts. */
  lemma {:induction false} SplitJoin<T>(a: seq<T>, c: T, b: seq<T>)
    ensures Split(a + [c] + b, c) == Split(a, c) + Split(b, c)
    decreases |a|
  {
    hide IndexOf;
    var s := a + [c] + b;
    var i := IndexOf(a, c);
    if i < 0 {
      IndexOfUnique(s, c, |a|) by { assert s[..|a|] == a; }
      assert s[..|a|] == a && s[|a| + 1..] == b;
    } else {
      IndexOfUnique(s, c, i) by { assert s[..i] == a[..i]; }
      assert s[..i] == a[..i] && s[i + 1..] == a[i + 1..] + [c] + b;
      SplitJoin(a[i + 1..], c, b);
    }
  }

  function TrimStart<T>(s: seq<T>, blank: T -> bool): seq<T> {
    if s != [] && blank(s[0]) then TrimStart(s[1..], blank) else s
  }

  function TrimEnd<T>(s: seq<T>, blank: T -> bool): seq<T> {
    if s != [] && blank(s[|s| - 1]) then TrimEnd(s[..|s| - 1], blank) else s
  }

  function Trim<T>(s: seq<T>, blank: T -> bool): seq<T> {
    TrimEnd(TrimStart(s, blank), blank)
  }
}

/** Numbers in decimal, as character codes. */
module Decimals {
  type Digit = d: int | 48 <= d <= 57 witness 48

  function Digits(n: nat): (d: seq<Digit>)
    ensures d != []
  {
    if n < 10 then [48 + n] else Digits(n / 10) + [48 + n % 10]
  }

  /** The number written by decimal digits. */
  function Value(d: seq<int>): int {
    if d == [] then 0 else Value(d[..|d| - 1]) * 10 + (d[|d| - 1] - 48)
  }

  /** Reading inverts printing. */
  lemma {:induction false} ValueOfDigits(n: nat)
    ensures Value(Digits(n)) == n
  {
    if n >= 10 {
      ValueOfDigits(n / 10);
      assert Digits(n)[..|Digits(n)| - 1] == Digits(n / 10);
    } else {
      assert Digits(n)[..0] == [];
    }
  }
}

/** Strings as the app sees them: sequences of UTF-16 code units. */
module Text {
  import opened Strings
  import opened Decimals

  type Unit = u: int | 0 <= u < 65536
  type Text = seq<Unit>

  /** The code units of an ASCII literal. */
  function Lit(s: string): (t: Text)
    ensures |t| == |s|
    ensures forall i :: 0 <= i < |s| ==> t[i] == (s[i] as int) % 128
  {
    seq(|s|, i requires 0 <= i < |s| => (s[i] as int) % 128)
  }

  const HASH: Unit := 35
  const AMPERSAND: Unit := 38
  const COLON: Unit := 58
  const SEMICOLON: Unit := 59
  const EQUALS: Unit := 61
  const QUESTION: Unit := 63
  const AT: Unit := 64
  const OPEN: Unit := 91
  const CLOSE: Unit := 93
  const BRACE: Unit := 123

  /** The delimiters of links, as characters. */
  lemma Delimiters()
    ensures [HASH, AMPERSAND, COLON, SEMICOLON, EQUALS, QUESTION, AT, OPEN, CLOSE, BRACE] == Lit("#&:;=?@[]{")
  {
  }

  /** What is trimmed: the ASCII blanks, the non-breaking space, the byte order mark and the
      Unicode line ends among others, but no visible ASCII character. */
  lemma Blanks(u: Unit)
    ensures u in [9, 10, 11, 12, 13, 32, 0xa0, 0x2028, 0x2029, 0x3000, 0xfeff] ==> IsSpace(u)
    ensures 33 <= u <= 126 ==> !IsSpace(u)
  {
  }

  /** White space and line terminators, as `trim` strips them. */
  predicate IsSpace(u: Unit) {
    9 <= u <= 13 || u == 32 || u == 0xa0 || u == 0x1680 || 0x2000 <= u <= 0x200a || u == 0x2028 || u == 0x2029
    || u == 0x202f || u == 0x205f || u == 0x3000 || u == 0xfeff
  }

  function Trimmed(t: Text): Text {
    Trim(t, IsSpace)
  }

  predicate IsDigit(u: Unit) {
    48 <= u <= 57
  }

  function DigitPrefix(t: Text): (d: Text)
    ensures forall i :: 0 <= i < |d| ==> IsDigit(d[i])
    ensures d <= t
  {
    if t == [] || !IsDigit(t[0]) then [] else [t[0]] + DigitPrefix(t[1..])
  }

  datatype Number = NaN | Int(value: int)

  /** `Number.parseInt(t, 10)`: leading white space, an optional sign, the longest run of
      digits. */
  function ParseInt(t: Text): Number {
    var s := TrimStart(t, IsSpace);
    var negative := s != [] && s[0] == 45;
    var unsigned := if s != [] && (s[0] == 45 || s[0] == 43) then s[1..] else s;
    var d := DigitPrefix(unsigned);
    if d == [] then NaN else Int(if negative then -Value(d) else Value(d))
  }

  /** `n` in decimal. */
  function Decimal(n: nat): (d: Text)
    ensures d != [] && forall i :: 0 <= i < |d| ==> IsDigit(d[i])
  {
    Digits(n)
  }

  lemma {:induction false} DigitPrefixAll(d: Text)
    requires forall i :: 0 <= i < |d| ==> IsDigit(d[i])
    ensures DigitPrefix(d) == d
  {
    if d != [] {
      DigitPrefixAll(d[1..]);
      assert d == [d[0]] + d[1..];
    }
  }

  lemma {:induction false} DigitsInFront(d: Text, rest: Text)
    requires forall i :: 0 <= i < |d| ==> IsDigit(d[i])
    requires rest == [] || !IsDigit(rest[0])
    ensures DigitPrefix(d + rest) == d
  {
    if d == [] {
      assert d + rest == rest;
    } else {
      assert (d + rest)[1..] == d[1..] + rest;
      DigitsInFront(d[1..], rest);
      assert d == [d[0]] + d[1..];
    }
  }

  /** What stands behind the digits is ignored. */
  lemma ParseDigits(d: Text, rest: Text)
    requires d != [] && forall i :: 0 <= i < |d| ==> IsDigit(d[i])
    requires rest == [] || !IsDigit(rest[0])
    ensures ParseInt(d + rest) == Int(Value(d))
  {
    hide DigitPrefix, Value, TrimStart;
    DigitsInFront(d, rest);
    NoBlankInFront(d + rest);
  }

  /** One sign in front of the digits counts. */
  lemma ParseSigned(sign: Unit, d: Text, rest: Text)
    requires sign == 43 || sign == 45
    requires d != [] && forall i :: 0 <= i < |d| ==> IsDigit(d[i])
    requires rest == [] || !IsDigit(rest[0])
    ensures ParseInt([sign] + (d + rest)) == Int(if sign == 45 then -Value(d) else Value(d))
  {
    hide DigitPrefix, Value, TrimStart;
    DigitsInFront(d, rest);
    NoBlankInFront([sign] + (d + rest));
    assert ([sign] + (d + rest))[1..] == d + rest;
  }

  /** Without a digit in front there is no number. */
  lemma ParseNothing(t: Text)
    requires t != [] && !IsSpace(t[0]) && !IsDigit(t[0]) && t[0] != 43 && t[0] != 45
    ensures ParseInt(t) == NaN
  {
    hide DigitPrefix, Value, TrimStart;
    NoBlankInFront(t);
    NoDigitInFront(t);
  }

  lemma NoBlankInFront(t: Text)
    requires t != [] && !IsSpace(t[0])
    ensures TrimStart(t, IsSpace) == t
  {
  }

  lemma NoDigitInFront(t: Text)
    requires t != [] && !IsDigit(t[0])
    ensures DigitPrefix(t) == []
  {
  }

  /** Reading inverts printing. */
  lemma ParseDecimal(n: nat)
    ensures ParseInt(Decimal(n)) == Int(n)
  {
    var d := Decimal(n);
    assert TrimStart(d, IsSpace) == d;
    DigitPrefixAll(d);
    ValueOfDigits(n);
  }
}
