/** The fake ClientHello, and an independent reader of TLS handshake records. */
module ClientHello {
  import opened Streams
  import opened TlsFraming

  /** The parts of the hello that come from the clock and the random generator. */
  datatype RawNonce = RawNonce(now: Bytes, random: Bytes, sessionId: Bytes)
  type Nonce = n: RawNonce | |n.now| == 4 && |n.random| == 28 && |n.sessionId| == 32
    witness RawNonce(seq(4, _ => 0), seq(28, _ => 0), seq(32, _ => 0))

  const CIPHER_SUITES: Bytes := [
    0xc0, 0x2c, 0xc0, 0x30, 0x00, 0x9f, 0xcc, 0xa9, 0xcc, 0xa8, 0xcc, 0xaa, 0xc0, 0x2b, 0xc0,
    0x2f, 0x00, 0x9e, 0xc0, 0x24, 0xc0, 0x28, 0x00, 0x6b, 0xc0, 0x23, 0xc0, 0x27, 0x00, 0x67,
    0xc0, 0x0a, 0xc0, 0x14, 0x00, 0x39, 0xc0, 0x09, 0xc0, 0x13, 0x00, 0x33, 0x00, 0x9d, 0x00,
    0x9c, 0x00, 0x3d, 0x00, 0x3c, 0x00, 0x35, 0x00, 0x2f, 0x00, 0xff]
  const POINT_FORMATS: Bytes := [0x03, 0x01, 0x00, 0x02]
  const GROUPS: Bytes := [0x00, 0x08, 0x00, 0x1d, 0x00, 0x17, 0x00, 0x19, 0x00, 0x18]
  const SIGNATURES: Bytes := [
    0x00, 0x1e, 0x06, 0x01, 0x06, 0x02, 0x06, 0x03, 0x05, 0x01, 0x05, 0x02, 0x05, 0x03, 0x04,
    0x01, 0x04, 0x02, 0x04, 0x03, 0x03, 0x01, 0x03, 0x02, 0x03, 0x03, 0x02, 0x01, 0x02, 0x02,
    0x02, 0x03]

  // ---- The structure the bytes are meant to have: nested length-prefixed vectors ----

  /** A vector behind a one-byte length. */
  function Vec8(b: Bytes): Bytes {
    [|b| % 256] + b
  }

  /** A vector behind a 16-bit length (cut to 16 bits when the vector is longer). */
  function Vec16(b: Bytes): Bytes {
    U16Bytes(|b|) + b
  }

  function Extension(kind: byte, body: Bytes): Bytes {
    [0x00, kind] + Vec16(body)
  }

  /** The body of a server_name extension with one host name. */
  function ServerName(server: Bytes): Bytes {
    Vec16([0x00] + Vec16(server))
  }

  function Extensions(data: Bytes, server: Bytes): (e: Bytes)
    ensures |e| == 79 + |data| + |server|
  {
    var modes := Extension(0x16, []) + Extension(0x17, []);
    var fixed := Extension(0x0b, POINT_FORMATS) + (Extension(0x0a, GROUPS) + (Extension(0x0d, SIGNATURES) + modes));
    Extension(0x23, data) + (Extension(0x00, ServerName(server)) + fixed)
  }

  function HelloBody(data: Bytes, server: Bytes, nonce: Nonce): (b: Bytes)
    ensures |b| == 208 + |data| + |server|
  {
    [0x03, 0x03] + (nonce.now + nonce.random) + Vec8(nonce.sessionId) + Vec16(CIPHER_SUITES) + Vec8([0x00])
    + Vec16(Extensions(data, server))
  }

  function Hello(data: Bytes, server: Bytes, nonce: Nonce): (b: Bytes)
    ensures |b| == 217 + |data| + |server|
  {
    [0x16, 0x03, 0x01] + Vec16([0x01, 0x00] + Vec16(HelloBody(data, server, nonce)))
  }

  // ---- The builder ----

  /** Appends field after field with u16 sums that wrap, as in the release build; the
      constants 212, 208, 79, 5 and 3 come out as the lengths of the nested vectors. */
  method BuildClientHello(data: Bytes, server: Bytes, nonce: Nonce) returns (buf: Bytes)
    ensures buf == Hello(data, server, nonce)
  {
    var dataLen, serverLen := |data| % 65536, |server| % 65536;

    buf := [0x16];
    buf := buf + [0x03, 0x01];
    var recordLen := (212 + dataLen + serverLen) % 65536;
    buf := buf + U16Bytes(recordLen);
    buf := buf + [0x01];
    buf := buf + [0x00];
    var handshakeLen := (208 + dataLen + serverLen) % 65536;
    buf := buf + U16Bytes(handshakeLen);
    U16Wrap(212, |data|, |server|);
    U16Wrap(208, |data|, |server|);
    ghost var head := [0x16, 0x03, 0x01] + U16Bytes(212 + |data| + |server|)
      + ([0x01, 0x00] + U16Bytes(208 + |data| + |server|));
    assert buf == head;

    var body := BuildHelloBody(data, server, nonce);
    buf := buf + body;
    var l1, l2 := U16Bytes(212 + |data| + |server|), U16Bytes(208 + |data| + |server|);
    Shuffle([0x16, 0x03, 0x01] + l1, [0x01, 0x00] + l2, body);
    Shuffle([0x01, 0x00], l2, body);
    Shuffle([0x16, 0x03, 0x01], l1, [0x01, 0x00] + (l2 + body));
  }

  /** The second half of the builder: from client_version to the last extension. */
  method BuildHelloBody(data: Bytes, server: Bytes, nonce: Nonce) returns (buf: Bytes)
    ensures buf == HelloBody(data, server, nonce)
  {
    var dataLen, serverLen := |data| % 65536, |server| % 65536;
    buf := [0x03, 0x03];
    buf := buf + nonce.now;
    buf := buf + nonce.random;
    assert buf == [0x03, 0x03] + (nonce.now + nonce.random);
    buf := buf + [32];
    buf := buf + nonce.sessionId;
    assert buf == [0x03, 0x03] + (nonce.now + nonce.random) + Vec8(nonce.sessionId);
    ghost var before := buf;
    buf := buf + [0x00, 0x38];
    buf := buf + CIPHER_SUITES;
    assert buf == before + Vec16(CIPHER_SUITES) by { Shuffle(before, [0x00, 0x38], CIPHER_SUITES); }
    buf := buf + [0x01, 0x00];

    var extLen := (79 + dataLen + serverLen) % 65536;
    U16Wrap(79, |data|, |server|);
    buf := buf + U16Bytes(extLen);
    ghost var middle := buf;
    var exts := BuildExtensions(data, server);
    buf := buf + exts;
    assert buf == before + Vec16(CIPHER_SUITES) + Vec8([0x00]) + Vec16(exts) by {
      Shuffle(before + Vec16(CIPHER_SUITES) + [0x01, 0x00], U16Bytes(extLen), exts);
    }
  }

  method BuildExtensions(data: Bytes, server: Bytes) returns (buf: Bytes)
    ensures buf == Extensions(data, server)
  {
    var dataLen, serverLen := |data| % 65536, |server| % 65536;
    U16Wrap(0, |data|, 0);
    U16Wrap(0, |server|, 0);
    U16Wrap(5, |server|, 0);
    U16Wrap(3, |server|, 0);
    FixedExtensions();

    buf := [0x00, 0x23];
    buf := buf + U16Bytes(dataLen);
    buf := buf + data;
    ghost var e1 := Extension(0x23, data);
    assert buf == e1;
    buf := buf + [0x00, 0x00];
    buf := buf + U16Bytes((serverLen + 5) % 65536);
    buf := buf + U16Bytes((serverLen + 3) % 65536);
    buf := buf + [0x00];
    buf := buf + U16Bytes(serverLen);
    buf := buf + server;
    ghost var e2 := Extension(0x00, ServerName(server));
    assert buf == e1 + e2 by {
      NameEntry(e1 + [0x00, 0x00] + U16Bytes(|server| + 5), server);
      Shuffle(e1, [0x00, 0x00], U16Bytes(|server| + 5));
      Shuffle(e1, [0x00, 0x00] + U16Bytes(|server| + 5), ServerName(server));
    }
    buf := buf + [0x00, 0x0b, 0x00, 0x04, 0x03, 0x01, 0x00, 0x02];
    ghost var e3 := Extension(0x0b, POINT_FORMATS);
    buf := buf + [0x00, 0x0a, 0x00, 0x0a, 0x00, 0x08, 0x00, 0x1d, 0x00, 0x17, 0x00, 0x19, 0x00, 0x18];
    ghost var e4 := Extension(0x0a, GROUPS);
    ghost var e5 := Extension(0x0d, SIGNATURES);
    buf := buf + ([0x00, 0x0d, 0x00, 0x20] + SIGNATURES);
    ghost var e6, e7 := Extension(0x16, []), Extension(0x17, []);
    buf := buf + [0x00, 0x16, 0x00, 0x00];
    buf := buf + [0x00, 0x17, 0x00, 0x00];
    RightAssociate(e1, e2, e3, e4, e5, e6, e7);
  }

  lemma NameEntry(before: Bytes, server: Bytes)
    ensures before + U16Bytes(|server| + 3) + [0x00] + U16Bytes(|server|) + server == before + ServerName(server)
  {
    Shuffle(before + U16Bytes(|server| + 3) + [0x00], U16Bytes(|server|), server);
    Shuffle(before + U16Bytes(|server| + 3), [0x00], Vec16(server));
    Shuffle(before, U16Bytes(|server| + 3), [0x00] + Vec16(server));
  }

  lemma Shuffle(a: Bytes, b: Bytes, c: Bytes)
    ensures a + b + c == a + (b + c)
  {
  }

  lemma RightAssociate(a: Bytes, b: Bytes, c: Bytes, d: Bytes, e: Bytes, f: Bytes, g: Bytes)
    ensures a + b + c + d + e + f + g == a + (b + (c + (d + (e + (f + g)))))
  {
    Shuffle(a + b + c + d + e, f, g);
    Shuffle(a + b + c + d, e, f + g);
    Shuffle(a + b + c, d, e + (f + g));
    Shuffle(a + b, c, d + (e + (f + g)));
    Shuffle(a, b, c + (d + (e + (f + g))));
  }

  /** Cutting the operands first does not change the two bytes of a u16 sum. */
  lemma U16Wrap(c: nat, n: nat, m: nat)
    ensures U16Bytes(c + n + m) == U16Bytes((c + n % 65536 + m % 65536) % 65536)
    ensures m == 0 ==> U16Bytes(c + n) == U16Bytes((n % 65536 + c) % 65536)
    ensures c == m == 0 ==> U16Bytes(n) == U16Bytes(n % 65536)
  {
    var cut := c + n % 65536 + m % 65536;
    assert c + n + m == cut + 65536 * (n / 65536 + m / 65536);
    U16Cut(cut, n / 65536 + m / 65536);
    U16Cut(cut % 65536, cut / 65536);
  }

  lemma U16Cut(n: nat, k: nat)
    ensures U16Bytes(n + 65536 * k) == U16Bytes(n)
  {
    assert n + 65536 * k == 256 * (256 * k) + n;
    assert (n + 65536 * k) / 256 == n / 256 + 256 * k;
  }

  lemma FixedExtensions()
    ensures Extension(0x0b, POINT_FORMATS) == [0x00, 0x0b, 0x00, 0x04, 0x03, 0x01, 0x00, 0x02]
    ensures Extension(0x0a, GROUPS) ==
            [0x00, 0x0a, 0x00, 0x0a, 0x00, 0x08, 0x00, 0x1d, 0x00, 0x17, 0x00, 0x19, 0x00, 0x18]
    ensures Extension(0x0d, SIGNATURES) == [0x00, 0x0d, 0x00, 0x20] + SIGNATURES
    ensures Extension(0x16, []) == [0x00, 0x16, 0x00, 0x00] && Extension(0x17, []) == [0x00, 0x17, 0x00, 0x00]
  {
  }
}
