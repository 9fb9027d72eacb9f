/** A reader of TLS handshake records written from the specifications alone: the record
    layer of section 6.2.1 of RFC 5246, the ClientHello of section 7.4.1.2, its extension
    list of section 7.4.1.4, the session ticket of section 3.2 of RFC 5077 and the server
    name of section 3 of RFC 6066. It rejects a length field that is not exact, a trailing
    byte, a repeated extension and an empty host name; it does not enforce the 2^14 limit
    on a record. */
module HelloParser {
  import opened Streams
  import opened OptionType
  import opened TlsFraming

  datatype Message = Message(random: Bytes, sessionId: Bytes, cipherSuites: Bytes, compressions: Bytes,
                             extensions: seq<(nat, Bytes)>)

  function ReadVec8(b: Bytes): Option<(Bytes, Bytes)> {
    if |b| < 1 then None
    else
      var n: nat := b[0];
      if |b| < 1 + n then None else Some((b[1..1 + n], b[1 + n..]))
  }

  function ReadVec16(b: Bytes): Option<(Bytes, Bytes)> {
    if |b| < 2 then None
    else
      var n := U16(b[0], b[1]);
      if |b| < 2 + n then None else Some((b[2..2 + n], b[2 + n..]))
  }

  function ReadExtensions(b: Bytes): Option<seq<(nat, Bytes)>> {
    if b == [] then Some([])
    else if |b| < 2 then None
    else
      match ReadVec16(b[2..])
      case None => None
      case Some((body, rest)) =>
        match ReadExtensions(rest)
        case None => None
        case Some(others) => Some([(U16(b[0], b[1]), body)] + others)
  }

  predicate Distinct(extensions: seq<(nat, Bytes)>) {
    forall i, j :: 0 <= i < j < |extensions| ==> extensions[i].0 != extensions[j].0
  }

  /** The four vectors behind version and random, which must use up `b`. */
  function ReadVectors(b: Bytes): Option<(Bytes, Bytes, Bytes, Bytes)> {
    match ReadVec8(b)
    case None => None
    case Some((sessionId, b1)) =>
      match ReadVec16(b1)
      case None => None
      case Some((suites, b2)) =>
        match ReadVec8(b2)
        case None => None
        case Some((compressions, b3)) =>
          match ReadVec16(b3)
          case None => None
          case Some((extensions, b4)) =>
            if b4 == [] then Some((sessionId, suites, compressions, extensions)) else None
  }

  /** The body of a ClientHello, after the handshake header. */
  function ReadBody(b: Bytes): Option<Message> {
    if |b| < 34 || b[0] != 3 || b[1] != 3 then None
    else
      match ReadVectors(b[34..])
      case None => None
      case Some((sessionId, suites, compressions, extensionBytes)) =>
        match ReadExtensions(extensionBytes)
        case None => None
        case Some(extensions) =>
          if |sessionId| <= 32 && |suites| >= 2 && |suites| % 2 == 0 && compressions != [] && Distinct(extensions)
          then Some(Message(b[2..34], sessionId, suites, compressions, extensions))
          else None
  }

  /** The record and handshake headers of a ClientHello at the front of `wire`: its body,
      and what follows the record. */
  function ReadRecord(wire: Bytes): Option<(Bytes, Bytes)> {
    if |wire| < 3 || wire[..3] != [0x16, 0x03, 0x01] then None
    else
      match ReadVec16(wire[3..])
      case None => None
      case Some((f, rest)) =>
        if |f| < 4 || f[0] != 1 || f[1] * 65536 + U16(f[2], f[3]) != |f| - 4 then None
        else Some((f[4..], rest))
  }

  /** A handshake record with one ClientHello at the front of `wire`, and what follows it. */
  function ReadHello(wire: Bytes): Option<(Message, Bytes)> {
    match ReadRecord(wire)
    case None => None
    case Some((body, rest)) =>
      match ReadBody(body)
      case None => None
      case Some(m) => Some((m, rest))
  }

  function Lookup(extensions: seq<(nat, Bytes)>, kind: nat): Option<Bytes> {
    if extensions == [] then None
    else if extensions[0].0 == kind then Some(extensions[0].1)
    else Lookup(extensions[1..], kind)
  }

  /** The opaque ticket of the SessionTicket extension. */
  function Ticket(m: Message): Option<Bytes> {
    Lookup(m.extensions, 0x23)
  }

  /** The host name of a server_name extension holding exactly one. */
  function HostName(m: Message): Option<Bytes> {
    match Lookup(m.extensions, 0)
    case None => None
    case Some(list) =>
      match ReadVec16(list)
      case None => None
      case Some((entry, tail)) =>
        if tail != [] || |entry| < 1 || entry[0] != 0 then None
        else
          match ReadVec16(entry[1..])
          case None => None
          case Some((name, tail')) => if tail' == [] && name != [] then Some(name) else None
  }

  /** `bytes` are one ClientHello that carries `data` and names `server`. */
  predicate Carries(bytes: Bytes, data: Bytes, server: Bytes) {
    match ReadHello(bytes)
    case None => false
    case Some((m, rest)) => rest == [] && Ticket(m) == Some(data) && HostName(m) == Some(server)
  }
}

/** The hello the client builds is read back by the independent parser. */
module HelloRoundTrip {
  import opened Streams
  import opened OptionType
  import opened TlsFraming
  import opened ClientHello
  import opened HelloParser

  lemma Vec8Read(x: Bytes, rest: Bytes)
    requires |x| < 256
    ensures ReadVec8(Vec8(x) + rest) == Some((x, rest))
  {
    var b := Vec8(x) + rest;
    assert b[1..1 + |x|] == x && b[1 + |x|..] == rest;
  }

  lemma Vec16Read(x: Bytes, rest: Bytes)
    requires |x| < 65536
    ensures ReadVec16(Vec16(x) + rest) == Some((x, rest))
  {
    var b := Vec16(x) + rest;
    U16RoundTrip(|x|);
    assert b[2..2 + |x|] == x && b[2 + |x|..] == rest;
  }

  lemma ExtensionRead(kind: byte, body: Bytes, rest: Bytes)
    requires |body| < 65536
    ensures var b := Extension(kind, body) + rest;
            ReadExtensions(b) == match ReadExtensions(rest)
                                 case None => None
                                 case Some(others) => Some([(kind as nat, body)] + others)
  {
    var b := Extension(kind, body) + rest;
    assert b[2..] == Vec16(body) + rest;
    Vec16Read(body, rest);
  }

  function ExtensionList(data: Bytes, server: Bytes): seq<(nat, Bytes)> {
    [(0x23, data)] + ([(0, ServerName(server))] + ([(0x0b, POINT_FORMATS)] + ([(0x0a, GROUPS)]
    + ([(0x0d, SIGNATURES)] + ([(0x16, [])] + [(0x17, [])])))))
  }

  lemma ExtensionsRead(data: Bytes, server: Bytes)
    requires |data| < 65536 && |server| + 5 < 65536
    ensures ReadExtensions(Extensions(data, server)) == Some(ExtensionList(data, server))
  {
    var e7 := Extension(0x17, []);
    var e6 := Extension(0x16, []) + e7;
    var e5 := Extension(0x0d, SIGNATURES) + e6;
    var e4 := Extension(0x0a, GROUPS) + e5;
    var e3 := Extension(0x0b, POINT_FORMATS) + e4;
    var e2 := Extension(0x00, ServerName(server)) + e3;
    assert e7 == e7 + [];
    ExtensionRead(0x17, [], []);
    var last: seq<(nat, Bytes)> := [(0x17, [])];
    assert last + [] == last;
    ExtensionRead(0x16, [], e7);
    ExtensionRead(0x0d, SIGNATURES, e6);
    ExtensionRead(0x0a, GROUPS, e5);
    ExtensionRead(0x0b, POINT_FORMATS, e4);
    ExtensionRead(0x00, ServerName(server), e3);
    ExtensionRead(0x23, data, e2);
  }

  lemma NameRead(data: Bytes, server: Bytes, m: Message)
    requires |server| + 5 < 65536 && m.extensions == ExtensionList(data, server)
    ensures Ticket(m) == Some(data)
    ensures HostName(m) == if server == [] then None else Some(server)
  {
    var l := m.extensions;
    assert l[0].1 == data && l[1..][0] == (0, ServerName(server));
    assert Lookup(l, 0) == Lookup(l[1..], 0) == Some(ServerName(server));
    var entry := [0x00] + Vec16(server);
    assert Vec16(entry) + [] == ServerName(server);
    Vec16Read(entry, []);
    assert entry[1..] == Vec16(server) + [];
    Vec16Read(server, []);
  }

  lemma VectorsRead(sid: Bytes, suites: Bytes, compressions: Bytes, exts: Bytes)
    requires |sid| < 256 && |suites| < 65536 && |compressions| < 256 && |exts| < 65536
    ensures ReadVectors(Vec8(sid) + (Vec16(suites) + (Vec8(compressions) + Vec16(exts)))) ==
            Some((sid, suites, compressions, exts))
  {
    var b3 := Vec16(exts);
    var b2 := Vec8(compressions) + b3;
    var b1 := Vec16(suites) + b2;
    Vec8Read(sid, b1);
    Vec16Read(suites, b2);
    Vec8Read(compressions, b3);
    assert b3 == b3 + [];
    Vec16Read(exts, []);
  }

  /** Reading a body laid out as version, random, and four vectors. */
  lemma BodyRead(random: Bytes, sid: Bytes, suites: Bytes, compressions: Bytes, exts: Bytes, list: seq<(nat, Bytes)>)
    requires |random| == 32 && |sid| <= 32 && 2 <= |suites| < 65536 && |suites| % 2 == 0
    requires 0 < |compressions| < 256 && |exts| < 65536
    requires ReadExtensions(exts) == Some(list) && Distinct(list)
    ensures ReadBody([0x03, 0x03] + random + Vec8(sid) + Vec16(suites) + Vec8(compressions) + Vec16(exts)) ==
            Some(Message(random, sid, suites, compressions, list))
  {
    var front := [0x03, 0x03] + random;
    var vectors := Vec8(sid) + (Vec16(suites) + (Vec8(compressions) + Vec16(exts)));
    var b := front + vectors;
    Regroup(front, Vec8(sid), Vec16(suites), Vec8(compressions), Vec16(exts));
    assert b[34..] == vectors;
    assert b[2..34] == random;
    VectorsRead(sid, suites, compressions, exts);
  }

  lemma Regroup(a: Bytes, b: Bytes, c: Bytes, d: Bytes, e: Bytes)
    ensures a + b + c + d + e == a + (b + (c + (d + e)))
  {
    Shuffle(a + b + c, d, e);
    Shuffle(a + b, c, d + e);
    Shuffle(a, b, c + (d + e));
  }

  lemma RecordRead(body: Bytes, rest: Bytes)
    requires |body| + 4 < 65536
    ensures ReadRecord([0x16, 0x03, 0x01] + Vec16([0x01, 0x00] + Vec16(body)) + rest) == Some((body, rest))
  {
    var f := [0x01, 0x00] + Vec16(body);
    var wire := [0x16, 0x03, 0x01] + Vec16(f) + rest;
    assert wire[3..] == Vec16(f) + rest;
    assert wire[..3] == [0x16, 0x03, 0x01];
    Vec16Read(f, rest);
    U16RoundTrip(|body|);
    assert f[4..] == body;
  }

  function Expected(data: Bytes, server: Bytes, nonce: Nonce): Message {
    Message(nonce.now + nonce.random, nonce.sessionId, CIPHER_SUITES, [0x00], ExtensionList(data, server))
  }

  lemma ExpectedRead(data: Bytes, server: Bytes, nonce: Nonce)
    requires 212 + |data| + |server| < 65536
    ensures ReadBody(HelloBody(data, server, nonce)) == Some(Expected(data, server, nonce))
  {
    hide Extensions, ReadBody, ReadExtensions, Vec16, Vec8;
    ExtensionsRead(data, server);
    BodyRead(nonce.now + nonce.random, nonce.sessionId, CIPHER_SUITES, [0x00], Extensions(data, server),
             ExtensionList(data, server));
  }

  /** A receiver finds the hello at the front of a longer wire and gets the payload out of it. */
  lemma HelloRead(data: Bytes, server: Bytes, nonce: Nonce, rest: Bytes)
    requires 212 + |data| + |server| < 65536
    ensures var m := Expected(data, server, nonce);
            && ReadHello(Hello(data, server, nonce) + rest) == Some((m, rest))
            && Ticket(m) == Some(data) && HostName(m) == if server == [] then None else Some(server)
  {
    hide HelloBody, Extensions, ExtensionList, ReadBody, ReadRecord, Ticket, HostName, Vec16;
    ExpectedRead(data, server, nonce);
    RecordRead(HelloBody(data, server, nonce), rest);
    NameRead(data, server, Expected(data, server, nonce));
  }

  /** What the hello offers, and in which order its extensions come. */
  lemma HelloOffers(data: Bytes, server: Bytes, nonce: Nonce, rest: Bytes)
    requires 212 + |data| + |server| < 65536
    ensures var hello := ReadHello(Hello(data, server, nonce) + rest);
            && hello.Some? && hello.value.1 == rest
            && var m := hello.value.0;
               && m.random == nonce.now + nonce.random && m.sessionId == nonce.sessionId && m.compressions == [0]
               && m.cipherSuites == [
                    0xc0, 0x2c, 0xc0, 0x30, 0x00, 0x9f, 0xcc, 0xa9, 0xcc, 0xa8, 0xcc, 0xaa, 0xc0, 0x2b, 0xc0, 0x2f,
                    0x00, 0x9e, 0xc0, 0x24, 0xc0, 0x28, 0x00, 0x6b, 0xc0, 0x23, 0xc0, 0x27, 0x00, 0x67, 0xc0, 0x0a,
                    0xc0, 0x14, 0x00, 0x39, 0xc0, 0x09, 0xc0, 0x13, 0x00, 0x33, 0x00, 0x9d, 0x00, 0x9c, 0x00, 0x3d,
                    0x00, 0x3c, 0x00, 0x35, 0x00, 0x2f, 0x00, 0xff]
               && |m.extensions| == 7
               && m.extensions[0] == (0x23, data) && m.extensions[1].0 == 0
               && m.extensions[2] == (0x0b, [3, 1, 0, 2])
               && m.extensions[3] == (0x0a, [0, 8, 0, 0x1d, 0, 0x17, 0, 0x19, 0, 0x18])
               && m.extensions[4].0 == 0x0d && |m.extensions[4].1| == 32
               && m.extensions[5] == (0x16, []) && m.extensions[6] == (0x17, [])
  {
    HelloRead(data, server, nonce, rest);
    hide Hello, ReadHello, ServerName;
  }

  /** The hello is a well-formed carrier of its payload exactly when the sizes fit the
      u16 length fields and there is a host name. */
  lemma HelloCarries(data: Bytes, server: Bytes, nonce: Nonce)
    ensures Carries(Hello(data, server, nonce), data, server) <==> server != [] && 212 + |data| + |server| <= 65535
  {
    var hello := Hello(data, server, nonce);
    if 212 + |data| + |server| <= 65535 {
      assert hello + [] == hello;
      HelloRead(data, server, nonce, []);
    } else {
      var f := [0x01, 0x00] + Vec16(HelloBody(data, server, nonce));
      assert hello[3..] == Vec16(f);
      U16RoundTrip(|f|);
      assert ReadVec16(Vec16(f)).Some? ==> ReadVec16(Vec16(f)).value.1 != [];
    }
  }
}
