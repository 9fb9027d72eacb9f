/** The fake GET request: builder, and the receiver that takes it apart. */
module HttpRequest {
  import opened Streams
  import opened OptionType
  import opened HttpFraming
  import opened Decimals

  /** The bytes of an ASCII text. */
  function Ascii(s: string): (b: Bytes)
    ensures |b| == |s|
  {
    seq(|s|, i requires 0 <= i < |s| => (s[i] as int) % 256)
  }

  predicate Clean(b: Bytes) {
    forall i :: 0 <= i < |b| ==> b[i] != CR && b[i] != LF
  }

  /** `n` in decimal. */
  function Dec(n: nat): (b: Bytes)
    ensures Clean(b) && b != []
    ensures forall i :: 0 <= i < |b| ==> 48 <= b[i] < 58
  {
    Digits(n)
  }

  /** The random parts of the request: user-agent numbers and a base64 key. */
  datatype RawNonce = RawNonce(uaMajor: nat, uaMinor: nat, key: Bytes)
  type Nonce = n: RawNonce | n.uaMajor < 54 && n.uaMinor < 2 && Clean(n.key) witness RawNonce(0, 0, [])

  function HostHeader(host: Bytes, port: nat): Bytes {
    if port == 80 then host else host + Ascii(":") + Dec(port)
  }

  function HeaderLines(host: Bytes, port: nat, length: nat, nonce: Nonce): seq<Bytes> {
    [ Ascii("GET / HTTP/1.1"),
      Ascii("Host: ") + HostHeader(host, port),
      Ascii("User-Agent: curl/7.") + Dec(nonce.uaMajor) + Ascii(".") + Dec(nonce.uaMinor),
      Ascii("Upgrade: websocket"),
      Ascii("Connection: Upgrade"),
      Ascii("Sec-WebSocket-Key: ") + nonce.key,
      Ascii("Content-Length: ") + Dec(length) ]
  }

  function Join(lines: seq<Bytes>): Bytes {
    if lines == [] then [] else lines[0] + CRLF + Join(lines[1..])
  }

  function Request(host: Bytes, port: nat, body: Bytes, nonce: Nonce): Bytes {
    Join(HeaderLines(host, port, |body|, nonce)) + CRLF + body
  }

  method BuildHttpRequest(host: Bytes, port: nat, body: Bytes, nonce: Nonce) returns (req: Bytes)
    ensures req == Request(host, port, body, nonce)
  {
    var hostHeader := if port == 80 then host else host + Ascii(":") + Dec(port);
    hide Ascii, Dec, Join;
    var get, hostLine := Ascii("GET / HTTP/1.1"), Ascii("Host: ") + hostHeader;
    var agent := Ascii("User-Agent: curl/7.") + Dec(nonce.uaMajor) + Ascii(".") + Dec(nonce.uaMinor);
    var upgrade, connection := Ascii("Upgrade: websocket"), Ascii("Connection: Upgrade");
    var key, length := Ascii("Sec-WebSocket-Key: ") + nonce.key, Ascii("Content-Length: ") + Dec(|body|);
    ghost var lines := [get, hostLine, agent, upgrade, connection, key, length];
    assert lines == HeaderLines(host, port, |body|, nonce);
    hide HeaderLines;
    assert lines[..0] == [] && lines[..7] == lines;
    req := [];
    req := req + (get + CRLF);
    JoinSnoc(lines, 0);
    req := req + (hostLine + CRLF);
    JoinSnoc(lines, 1);
    req := req + (agent + CRLF);
    JoinSnoc(lines, 2);
    req := req + (upgrade + CRLF);
    JoinSnoc(lines, 3);
    req := req + (connection + CRLF);
    JoinSnoc(lines, 4);
    req := req + (key + CRLF);
    JoinSnoc(lines, 5);
    req := req + (length + CRLF);
    JoinSnoc(lines, 6);
    req := req + CRLF;
    req := req + body;
  }

  lemma {:induction false} JoinSnoc(lines: seq<Bytes>, k: nat)
    requires k < |lines|
    ensures Join(lines[..k + 1]) == Join(lines[..k]) + (lines[k] + CRLF)
    ensures Join(lines[..0]) == []
  {
    if k == 0 {
      assert lines[..1] == [lines[0]];
      assert Join([lines[0]]) == lines[0] + CRLF + Join([]);
    } else {
      assert lines[..k + 1][1..] == lines[1..][..k] && lines[..k][1..] == lines[1..][..k - 1];
      JoinSnoc(lines[1..], k - 1);
      assert lines[..k + 1][0] == lines[0] && lines[..k][0] == lines[0];
    }
  }

  // ---- The receiver ----

  ghost predicate NoTerm(data: Bytes) {
    forall i: nat :: !TermAt(data, i)
  }

  /** A terminator cannot reach across a byte that is neither CR nor LF. */
  lemma Barrier(front: Bytes, tail: Bytes)
    requires tail != [] && tail[0] != CR && tail[0] != LF
    ensures NoTerm(front + tail) <==> NoTerm(front) && NoTerm(tail)
  {
    var data := front + tail;
    forall i: nat ensures TermAt(data, i) ==> TermAt(front, i) || (i >= |front| && TermAt(tail, i - |front|)) {
      if i < |front| < i + 4 <= |data| {
        assert data[|front|] == tail[0];
      }
    }
    forall i: nat ensures TermAt(front, i) ==> TermAt(data, i) {
    }
    forall i: nat ensures TermAt(tail, i) ==> TermAt(data, |front| + i) {
    }
  }

  lemma CleanPrefix(p: Bytes, x: Bytes)
    requires Clean(p)
    ensures NoTerm(p + x) <==> NoTerm(x)
  {
    var data := p + x;
    forall i: nat ensures TermAt(data, i) ==> i >= |p| && TermAt(x, i - |p|) {
      if i < |p| && i + 4 <= |data| {
        assert data[i] == p[i];
      }
    }
    forall i: nat ensures TermAt(x, i) ==> TermAt(data, |p| + i) {
    }
  }

  ghost predicate Opens(l: Bytes) {
    l != [] && l[0] != CR && l[0] != LF
  }

  /** Lines that start with a printable byte are independent of each other. */
  lemma {:induction false} JoinTerms(lines: seq<Bytes>)
    requires forall l :: l in lines ==> Opens(l)
    ensures NoTerm(Join(lines)) <==> forall l :: l in lines ==> NoTerm(l + CRLF)
  {
    if lines != [] {
      var l, rest := lines[0], lines[1..];
      assert lines == [l] + rest;
      JoinTerms(rest);
      if rest == [] {
        assert l + CRLF + Join(rest) == l + CRLF;
      } else {
        assert rest[0] in lines;
        assert Join(rest) == rest[0] + CRLF + Join(rest[1..]);
        assert Join(rest)[0] == rest[0][0];
        Barrier(l + CRLF, Join(rest));
      }
    }
  }

  /** The blank line that closes a block of lines is the first terminator exactly when the
      block holds none. */
  lemma BlankLineFirst(block: Bytes, body: Bytes)
    requires |block| >= 2 && block[|block| - 2..] == CRLF
    ensures TermAt(block + CRLF + body, |block| - 2)
    ensures IsFirst(block + CRLF + body, |block| - 2) <==> NoTerm(block)
  {
    var data := block + CRLF + body;
    assert block[|block| - 2] == CRLF[0] && block[|block| - 1] == CRLF[1];
    assert block == block[..|block| - 2] + CRLF;
    forall i: nat ensures i < |block| - 2 ==> (TermAt(data, i) <==> TermAt(block, i)) {
      if i + 4 == |block| + 1 {
        assert data[i + 1] == CR;
      }
    }
    forall i: nat ensures TermAt(block, i) ==> i < |block| - 2 {
    }
  }

  lemma AsciiClean(s: string)
    requires forall i :: 0 <= i < |s| ==> ' ' <= s[i] < '~'
    ensures Clean(Ascii(s)) && (s != "" ==> Opens(Ascii(s)))
  {
  }

  lemma LinesClean(host: Bytes, port: nat, length: nat, nonce: Nonce)
    ensures var lines := HeaderLines(host, port, length, nonce);
            && (forall k :: 0 <= k < 7 ==> Opens(lines[k]))
            && (forall k :: 0 <= k < 7 && k != 1 ==> Clean(lines[k]))
            && Clean(Ascii("Host: "))
  {
    hide Ascii, Dec;
    AsciiClean("GET / HTTP/1.1");
    AsciiClean("Host: ");
    AsciiClean("User-Agent: curl/7.");
    AsciiClean(".");
    AsciiClean("Upgrade: websocket");
    AsciiClean("Connection: Upgrade");
    AsciiClean("Sec-WebSocket-Key: ");
    AsciiClean("Content-Length: ");
  }

  lemma {:induction false} JoinEnds(lines: seq<Bytes>)
    requires lines != []
    ensures |Join(lines)| >= 2 && Join(lines)[|Join(lines)| - 2..] == CRLF
  {
    if |lines| > 1 {
      JoinEnds(lines[1..]);
    }
  }

  /** The header block of a request, and where a terminator in it can come from. */
  lemma HeaderBlock(host: Bytes, port: nat, body: Bytes, nonce: Nonce)
    ensures var block := Join(HeaderLines(host, port, |body|, nonce));
            && |block| >= 2
            && (NoTerm(block) <==> NoTerm(HostHeader(host, port) + CRLF))
            && TermAt(Request(host, port, body, nonce), |block| - 2)
            && (IsFirst(Request(host, port, body, nonce), |block| - 2) <==> NoTerm(block))
  {
    var lines := HeaderLines(host, port, |body|, nonce);
    var hh := HostHeader(host, port);
    LinesClean(host, port, |body|, nonce);
    HostLine(host, port, |body|, nonce);
    hide Ascii, Dec, HeaderLines, HostHeader;
    JoinTerms(lines);
    JoinEnds(lines);
    BlankLineFirst(Join(lines), body);
    assert lines[1] + CRLF == Ascii("Host: ") + (hh + CRLF);
    CleanPrefix(Ascii("Host: "), hh + CRLF);
    forall l | l in lines && l != lines[1] ensures NoTerm(l + CRLF) {
      CleanPrefix(l, CRLF);
    }
  }

  predicate EndsWithCrlf(b: Bytes) {
    |b| >= 2 && b[|b| - 2..] == CRLF
  }

  /** The hosts whose header and line end form no CRLFCRLF: those that hold none themselves
      and, where no port follows them, do not end in CRLF. */
  lemma HostFits(host: Bytes, port: nat)
    ensures NoTerm(HostHeader(host, port) + CRLF) <==> NoTerm(host) && (port == 80 ==> !EndsWithCrlf(host))
  {
    if port == 80 {
      var data := host + CRLF;
      forall i: nat ensures TermAt(host, i) ==> TermAt(data, i) {
      }
      forall i: nat ensures TermAt(data, i) ==> TermAt(host, i) || (EndsWithCrlf(host) && i == |host| - 2) {
      }
      assert EndsWithCrlf(host) ==> TermAt(data, |host| - 2);
    } else {
      var tail := Ascii(":") + Dec(port) + CRLF;
      assert HostHeader(host, port) + CRLF == host + tail;
      Barrier(host, tail);
      CleanPrefix(Ascii(":") + Dec(port), CRLF);
    }
  }

  /** Cutting the request at the first CRLFCRLF gives back the body exactly when the host
      holds no CRLFCRLF and, on port 80, does not end in CRLF. */
  lemma RequestBody(host: Bytes, port: nat, body: Bytes, nonce: Nonce)
    ensures AfterHeader(Request(host, port, body, nonce)) == body <==>
            NoTerm(host) && (port == 80 ==> !EndsWithCrlf(host))
  {
    HostFits(host, port);
    BodyCut(host, port, body, nonce);
  }

  lemma BodyCut(host: Bytes, port: nat, body: Bytes, nonce: Nonce)
    ensures AfterHeader(Request(host, port, body, nonce)) == body <==> NoTerm(HostHeader(host, port) + CRLF)
  {
    var block := Join(HeaderLines(host, port, |body|, nonce));
    HeaderBlock(host, port, body, nonce);
    hide Find, HeaderLines, HostHeader;
    if NoTerm(block) {
      FirstUnique(block + CRLF + body, |block| - 2);
    } else {
      EarlierTerm(block + CRLF + body, |block| - 2);
    }
  }

  lemma HostLine(host: Bytes, port: nat, length: nat, nonce: Nonce)
    ensures HeaderLines(host, port, length, nonce)[1] == Ascii("Host: ") + HostHeader(host, port)
  {
  }

  lemma EarlierTerm(data: Bytes, i: nat)
    requires TermAt(data, i) && !IsFirst(data, i)
    ensures |AfterHeader(data)| > |data| - i - 4
  {
    assert Find(data).Some?;
  }

  /** The position of the first CRLF at or after `i`. */
  function LineEnd(b: Bytes, i: nat): Option<nat>
    decreases |b| - i
  {
    if i + 2 > |b| then None
    else if b[i] == CR && b[i + 1] == LF then Some(i)
    else LineEnd(b, i + 1)
  }

  function Lines(b: Bytes): seq<Bytes>
    decreases |b|
  {
    match LineEnd(b, 0)
    case None => if b == [] then [] else [b]
    case Some(j) => if j + 2 <= |b| then [b[..j]] + Lines(b[j + 2..]) else [b]
  }

  lemma {:induction false} CleanLineEnd(l: Bytes, tail: Bytes, i: nat)
    requires Clean(l) && i <= |l|
    ensures LineEnd(l + CRLF + tail, i) == Some(|l|)
    decreases |l| - i
  {
    var b := l + CRLF + tail;
    if i < |l| {
      assert b[i] == l[i];
      CleanLineEnd(l, tail, i + 1);
    }
  }

  /** Splitting inverts joining. */
  lemma {:induction false} LinesJoin(lines: seq<Bytes>)
    requires forall l :: l in lines ==> Clean(l)
    ensures Lines(Join(lines)) == lines
  {
    if lines != [] {
      var l, rest := lines[0], lines[1..];
      assert l in lines && forall r :: r in rest ==> r in lines;
      var b := l + CRLF + Join(rest);
      CleanLineEnd(l, Join(rest), 0);
      assert b[..|l|] == l && b[|l| + 2..] == Join(rest);
      LinesJoin(rest);
    }
  }

  /** The value of the first header line that starts with `name`. */
  function Field(lines: seq<Bytes>, name: Bytes): Option<Bytes> {
    if lines == [] then None
    else if name <= lines[0] then Some(lines[0][|name|..])
    else Field(lines[1..], name)
  }

  /** The Content-Length a receiver reads in the header of a request. */
  function ContentLength(request: Bytes): Option<int> {
    match Find(request)
    case None => None
    case Some(i) =>
      match Field(Lines(request[..i + 2]), Ascii("Content-Length: "))
      case None => None
      case Some(digits) => Some(Value(digits))
  }

  lemma NotLength(host: Bytes, port: nat, length: nat, nonce: Nonce)
    ensures var lines := HeaderLines(host, port, length, nonce);
            forall k :: 0 <= k < 6 ==> !(Ascii("Content-Length: ") <= lines[k])
  {
    hide Dec;
    var name := Ascii("Content-Length: ");
    var lines := HeaderLines(host, port, length, nonce);
    assert name[0] == 67 && name[3] == 116;
    assert lines[0][0] == 71 && lines[1][0] == 72 && lines[2][0] == 85;
    assert lines[3][0] == 85 && lines[4][3] == 110 && lines[5][0] == 83;
  }

  lemma LengthField(lines: seq<Bytes>, name: Bytes, digits: Bytes)
    requires |lines| == 7 && lines[6] == name + digits
    requires forall k :: 0 <= k < 6 ==> !(name <= lines[k])
    ensures Field(lines, name) == Some(digits)
  {
    assert Field(lines[6..], name) == Some(digits);
    assert lines[5..][1..] == lines[6..] && lines[4..][1..] == lines[5..] && lines[3..][1..] == lines[4..];
    assert lines[2..][1..] == lines[3..] && lines[1..][1..] == lines[2..];
    assert Field(lines[4..], name) == Field(lines[5..], name) == Field(lines[6..], name);
    assert Field(lines[2..], name) == Field(lines[3..], name) == Field(lines[4..], name);
    assert Field(lines, name) == Field(lines[1..], name) == Field(lines[2..], name);
  }

  /** For a host without CR and LF a receiver recovers the body and its length. */
  lemma RequestRecovered(host: Bytes, port: nat, body: Bytes, nonce: Nonce)
    requires Clean(host)
    ensures AfterHeader(Request(host, port, body, nonce)) == body
    ensures ContentLength(Request(host, port, body, nonce)) == Some(|body|)
  {
    hide Ascii, Dec, HeaderLines, HostHeader, Find, Join, Lines, Field;
    hide Value, TermAt, NoTerm, Clean, IsFirst, AfterHeader;
    var lines := HeaderLines(host, port, |body|, nonce);
    CleanHost(host, port);
    BodyCut(host, port, body, nonce);
    HeaderBlock(host, port, body, nonce);
    LengthRead(host, port, |body|, nonce);
    BlockInFront(Join(lines), body);
    FirstUnique(Request(host, port, body, nonce), |Join(lines)| - 2);
  }

  lemma BlockInFront(block: Bytes, body: Bytes)
    ensures (block + CRLF + body)[..|block|] == block
  {
  }

  lemma CleanHost(host: Bytes, port: nat)
    requires Clean(host)
    ensures Clean(HostHeader(host, port)) && NoTerm(HostHeader(host, port) + CRLF)
  {
    AsciiClean(":");
    CleanPrefix(HostHeader(host, port), CRLF);
  }

  /** A receiver that splits the header into lines finds the length in them. */
  lemma LengthRead(host: Bytes, port: nat, length: nat, nonce: Nonce)
    requires Clean(HostHeader(host, port))
    ensures var field := Field(Lines(Join(HeaderLines(host, port, length, nonce))), Ascii("Content-Length: "));
            field.Some? && Value(field.value) == length
  {
    var lines := HeaderLines(host, port, length, nonce);
    LinesClean(host, port, length, nonce);
    NotLength(host, port, length, nonce);
    LastLine(host, port, length, nonce);
    hide Ascii, Dec, HeaderLines, HostHeader, Join, Lines, Field;
    LinesJoin(lines);
    LengthField(lines, Ascii("Content-Length: "), Dec(length));
    ValueOfDigits(length);
    assert Dec(length) == Digits(length) by { DecIsDigits(length); }
  }

  lemma DecIsDigits(n: nat)
    ensures Dec(n) == Digits(n)
  {
  }

  lemma LastLine(host: Bytes, port: nat, length: nat, nonce: Nonce)
    ensures var lines := HeaderLines(host, port, length, nonce);
            && |lines| == 7 && lines[6] == Ascii("Content-Length: ") + Dec(length)
            && lines[1] == Ascii("Host: ") + HostHeader(host, port)
            && (Clean(HostHeader(host, port)) && Clean(Ascii("Host: ")) ==> Clean(lines[1]))
  {
  }
}
