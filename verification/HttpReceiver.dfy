/** A receiver of the fake request that knows only HTTP: request line, header fields, and the
    host and port that the Host field names (section 5.4 of RFC 7230). */
module HttpReceiver {
  import opened Streams
  import opened OptionType
  import opened Strings
  import opened Decimals
  import opened HttpFraming
  import opened HttpRequest

  const COLON: byte := 58

  /** The lines of the header. */
  function Header(request: Bytes): seq<Bytes> {
    match Find(request)
    case None => []
    case Some(i) => Lines(request[..i + 2])
  }

  /** The host and the port in the value of a Host field: the port stands behind the last ':',
      and is 80 where there is none. */
  function HostAndPort(value: Bytes): (Bytes, int) {
    var colon := LastIndexOf(value, COLON);
    if colon < 0 then (value, 80) else (value[..colon], Value(value[colon + 1..]))
  }

  /** What a receiver learns from the header. */
  predicate Announces(request: Bytes, host: Bytes, port: nat, nonce: Nonce) {
    var lines := Header(request);
    && lines != [] && lines[0] == Ascii("GET / HTTP/1.1")
    && (match Field(lines, Ascii("Host: ")) case None => false case Some(value) => HostAndPort(value) == (host, port))
    && Field(lines, Ascii("Upgrade: ")) == Some(Ascii("websocket"))
    && Field(lines, Ascii("Connection: ")) == Some(Ascii("Upgrade"))
    && Field(lines, Ascii("Sec-WebSocket-Key: ")) == Some(nonce.key)
    && Field(lines, Ascii("User-Agent: ")) ==
       Some(Ascii("curl/7.") + Digits(nonce.uaMajor) + Ascii(".") + Digits(nonce.uaMinor))
  }

  // ---- The receiver finds what the client wrote ----

  lemma {:induction false} FieldAt(lines: seq<Bytes>, name: Bytes, k: nat, value: Bytes)
    requires k < |lines| && lines[k] == name + value
    requires forall j :: 0 <= j < k ==> !(name <= lines[j])
    ensures Field(lines, name) == Some(value)
  {
    if k > 0 {
      assert !(name <= lines[0]);
      assert forall j :: 0 <= j < k - 1 ==> lines[1..][j] == lines[j + 1];
      FieldAt(lines[1..], name, k - 1, value);
    }
  }

  lemma AsciiConcat(a: string, b: string)
    ensures Ascii(a + b) == Ascii(a) + Ascii(b)
  {
  }

  lemma AsciiFirst(s: string, i: nat, tail: Bytes)
    requires i < |s|
    ensures (Ascii(s) + tail)[i] == (s[i] as int) % 256
  {
  }

  /** The first byte of every line, and the second where two lines share the first. */
  lemma Fronts(host: Bytes, port: nat, length: nat, nonce: Nonce)
    ensures var l := HeaderLines(host, port, length, nonce);
            && |l| == 7 && (forall k :: 0 <= k < 6 ==> |l[k]| > 1) && l[0][0] == 71 && l[1][0] == 72
            && l[2][0] == 85 && l[2][1] == 115 && l[3][0] == 85 && l[3][1] == 112 && l[4][0] == 67
  {
    AsciiFirst("GET / HTTP/1.1", 0, []);
    AsciiFirst("Host: ", 0, HostHeader(host, port));
  }

  lemma Names()
    ensures Ascii("Host: ")[0] == 72 && Ascii("User-Agent: ")[0] == 85
    ensures Ascii("Upgrade: ")[0] == 85 && Ascii("Upgrade: ")[1] == 112
    ensures Ascii("Connection: ")[0] == 67 && Ascii("Sec-WebSocket-Key: ")[0] == 83
  {
  }

  function Agent(nonce: Nonce): Bytes {
    Ascii("curl/7.") + Digits(nonce.uaMajor) + Ascii(".") + Digits(nonce.uaMinor)
  }

  /** The lines, cut behind the names of their fields. */
  lemma Cut(host: Bytes, port: nat, length: nat, nonce: Nonce)
    ensures var l := HeaderLines(host, port, length, nonce);
            && |l| == 7 && l[1] == Ascii("Host: ") + HostHeader(host, port)
            && l[2] == Ascii("User-Agent: ") + Agent(nonce)
            && l[3] == Ascii("Upgrade: ") + Ascii("websocket") && l[4] == Ascii("Connection: ") + Ascii("Upgrade")
            && l[5] == Ascii("Sec-WebSocket-Key: ") + nonce.key
  {
    AsciiConcat("User-Agent: ", "curl/7.");
    AsciiConcat("Upgrade: ", "websocket");
    AsciiConcat("Connection: ", "Upgrade");
    assert "User-Agent: " + "curl/7." == "User-Agent: curl/7.";
    assert "Upgrade: " + "websocket" == "Upgrade: websocket" && "Connection: " + "Upgrade" == "Connection: Upgrade";
    DecIsDigits(nonce.uaMajor);
    DecIsDigits(nonce.uaMinor);
    hide Ascii, Dec, Digits, HostHeader;
  }

  lemma FieldsRead(host: Bytes, port: nat, length: nat, nonce: Nonce)
    ensures var lines := HeaderLines(host, port, length, nonce);
            && Field(lines, Ascii("Host: ")) == Some(HostHeader(host, port))
            && Field(lines, Ascii("Upgrade: ")) == Some(Ascii("websocket"))
            && Field(lines, Ascii("Connection: ")) == Some(Ascii("Upgrade"))
            && Field(lines, Ascii("Sec-WebSocket-Key: ")) == Some(nonce.key)
            && Field(lines, Ascii("User-Agent: ")) == Some(Agent(nonce))
  {
    hide Ascii, HeaderLines, Field, HostHeader, Agent;
    var lines := HeaderLines(host, port, length, nonce);
    Fronts(host, port, length, nonce);
    Names();
    Cut(host, port, length, nonce);
    FieldAt(lines, Ascii("Host: "), 1, HostHeader(host, port));
    FieldAt(lines, Ascii("User-Agent: "), 2, Agent(nonce));
    forall j | 0 <= j < 3 ensures !(Ascii("Upgrade: ") <= lines[j]) {
      NoPrefix(Ascii("Upgrade: "), lines[j]);
    }
    FieldAt(lines, Ascii("Upgrade: "), 3, Ascii("websocket"));
    FieldAt(lines, Ascii("Connection: "), 4, Ascii("Upgrade"));
    FieldAt(lines, Ascii("Sec-WebSocket-Key: "), 5, nonce.key);
  }

  lemma NoPrefix(name: Bytes, line: Bytes)
    requires |name| > 1 && |line| > 1 && (name[0] != line[0] || name[1] != line[1])
    ensures !(name <= line)
  {
  }

  /** A port behind the last ':', or 80 without one. */
  lemma HostCut(host: Bytes, port: nat)
    ensures HostAndPort(HostHeader(host, port)) == (host, port) <==> (port == 80 ==> COLON !in host)
  {
    if port == 80 {
      assert LastIndexOf(host, COLON) < 0 <==> COLON !in host;
    } else {
      var digits: Bytes := Dec(port);
      var value := HostHeader(host, port);
      assert Ascii(":") == [COLON];
      assert value == host + [COLON] + digits;
      assert value[..|host|] == host && value[|host| + 1..] == digits && value[|host|] == COLON;
      LastIndexOfUnique(value, COLON, |host|);
      DecIsDigits(port);
      ValueOfDigits(port);
    }
  }

  lemma HeaderRead(host: Bytes, port: nat, body: Bytes, nonce: Nonce)
    requires Clean(host)
    ensures Header(Request(host, port, body, nonce)) == HeaderLines(host, port, |body|, nonce)
  {
    hide Ascii, Dec, HostHeader, Find, Join, Lines, TermAt, NoTerm, IsFirst, AfterHeader;
    var lines := HeaderLines(host, port, |body|, nonce);
    CleanHost(host, port);
    HeaderBlock(host, port, body, nonce);
    BlockInFront(Join(lines), body);
    FirstUnique(Request(host, port, body, nonce), |Join(lines)| - 2);
    LinesClean(host, port, |body|, nonce);
    LastLine(host, port, |body|, nonce);
    hide HeaderLines;
    LinesJoin(lines);
  }

  /** The request of a host without CR and LF announces its very host and port, unless the port
      is 80 and the host has a ':' of its own, as nothing is put behind it then. */
  lemma HostAnnounced(host: Bytes, port: nat, body: Bytes, nonce: Nonce)
    requires Clean(host)
    ensures Announces(Request(host, port, body, nonce), host, port, nonce) <==> (port == 80 ==> COLON !in host)
  {
    HeaderRead(host, port, body, nonce);
    FieldsRead(host, port, |body|, nonce);
    HostCut(host, port);
    FirstLine(host, port, |body|, nonce);
    hide Ascii, Dec, HeaderLines, HostHeader, Find, Field, Lines, HostAndPort, Request, Digits;
  }

  lemma FirstLine(host: Bytes, port: nat, length: nat, nonce: Nonce)
    ensures var lines := HeaderLines(host, port, length, nonce); lines != [] && lines[0] == Ascii("GET / HTTP/1.1")
  {
  }
}
