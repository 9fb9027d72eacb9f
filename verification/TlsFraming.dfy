/** What simple-obfs TLS framing means, independently of how it is polled. */
module TlsFraming {
  import opened Streams

  const TLS_CHUNK_SIZE: nat := 16384
  const TLS_FIRST_RESPONSE_DISCARD: nat := 105
  const TLS_RECORD_HEADER_DISCARD: nat := 3

  /** Big-endian u16; a number that does not fit is cut to 16 bits, as `as u16` does. */
  function U16Bytes(n: nat): (b: Bytes)
    ensures |b| == 2
  {
    [(n / 256) % 256, n % 256]
  }

  function U16(hi: byte, lo: byte): (n: nat)
    ensures n < 65536
  {
    hi * 256 + lo
  }

  lemma U16RoundTrip(n: nat)
    ensures U16(U16Bytes(n)[0], U16Bytes(n)[1]) == n % 65536
  {
    assert n == (n / 256) * 256 + n % 256;
    assert n / 256 == (n / 65536) * 256 + (n / 256) % 256;
  }

  /** The payload of a wire whose next `skip` bytes are to be ignored: a 16-bit length,
      that many bytes of payload, then the same again behind a 3-byte record header.
      A record that is still incomplete counts with the bytes it has. */
  function Deframe(skip: nat, wire: Bytes): Bytes
    decreases |wire|, 0
  {
    if |wire| < skip + 2 then []
    else
      var body := wire[skip + 2..];
      PayloadThen(U16(wire[skip], wire[skip + 1]), body)
  }

  function PayloadThen(n: nat, wire: Bytes): Bytes
    decreases |wire|, 1
  {
    if |wire| <= n then wire
    else wire[..n] + Deframe(TLS_RECORD_HEADER_DISCARD, wire[n..])
  }

  /** One application-data record. */
  function Record(chunk: Bytes): Bytes {
    [0x17, 0x03, 0x03] + U16Bytes(|chunk|) + chunk
  }

  function Records(chunks: seq<Bytes>): Bytes {
    if chunks == [] then [] else Record(chunks[0]) + Records(chunks[1..])
  }

  lemma {:induction false} RecordsSnoc(chunks: seq<Bytes>, last: Bytes)
    ensures Records(chunks + [last]) == Records(chunks) + Record(last)
  {
    if chunks == [] {
      assert Records([] + [last]) == Record(last) + Records([]);
    } else {
      assert (chunks + [last])[1..] == chunks[1..] + [last];
      RecordsSnoc(chunks[1..], last);
    }
  }

  lemma DeframeRecord(c: Bytes, wire: Bytes)
    requires |c| < 65536
    ensures Deframe(TLS_RECORD_HEADER_DISCARD, Record(c) + wire) == c + Deframe(TLS_RECORD_HEADER_DISCARD, wire)
  {
    U16RoundTrip(|c|);
    var w := Record(c) + wire;
    assert w[5..] == c + wire;
    assert Deframe(TLS_RECORD_HEADER_DISCARD, w) == PayloadThen(|c|, c + wire);
    if wire == [] {
      assert c + wire == c;
    } else {
      assert (c + wire)[..|c|] == c && (c + wire)[|c|..] == wire;
    }
  }

  /** Deframing inverts framing. */
  lemma {:induction false} DeframeRecords(chunks: seq<Bytes>)
    requires forall c :: c in chunks ==> |c| < 65536
    ensures Deframe(TLS_RECORD_HEADER_DISCARD, Records(chunks)) == Concat(chunks)
  {
    if chunks != [] {
      assert chunks[0] in chunks;
      DeframeRecord(chunks[0], Records(chunks[1..]));
      DeframeRecords(chunks[1..]);
    }
  }

  /** What the reader gets back from any 102 bytes of fake handshake and the records of
      a writer: exactly the chunks. The 105 bytes dropped first are those 102 and the
      first record's 3-byte header. */
  lemma WriterReaderAgree(handshake: Bytes, chunks: seq<Bytes>)
    requires |handshake| == TLS_FIRST_RESPONSE_DISCARD - TLS_RECORD_HEADER_DISCARD
    requires forall c :: c in chunks ==> |c| < 65536
    ensures Deframe(TLS_FIRST_RESPONSE_DISCARD, handshake + Records(chunks)) == Concat(chunks)
  {
    var wire := handshake + Records(chunks);
    DeframeRecords(chunks);
    if chunks != [] {
      assert wire[102..] == Records(chunks);
      assert wire[107..] == Records(chunks)[5..];
    }
  }
}

/** The resumable reading state and its link to one-shot deframing. */
module TlsReadState {
  import opened Streams
  import opened TlsFraming

  datatype Phase = Discard(remaining: nat) | Length | Payload(remaining: nat)

  /** What a reader in `phase`, with the length bytes `len` already read, still gets out
      of the wire bytes `x` to come. */
  function Residual(phase: Phase, len: Bytes, x: Bytes): Bytes {
    match phase
    case Discard(n) => Deframe(n, x)
    case Length => Deframe(0, len + x)
    case Payload(n) => PayloadThen(n, x)
  }

  /** Whatever follows on the wire, what was delivered and what is still to come out of
      the present state make up the one-shot deframing of the whole wire. */
  ghost predicate Linked(wire: Bytes, delivered: Bytes, phase: Phase, len: Bytes) {
    forall x: Bytes :: Deframe(TLS_FIRST_RESPONSE_DISCARD, wire + x) == delivered + Residual(phase, len, x)
  }

  lemma LinkedNow(wire: Bytes, delivered: Bytes, phase: Phase, len: Bytes)
    requires Linked(wire, delivered, phase, len)
    requires |len| <= 2
    ensures delivered == Deframe(TLS_FIRST_RESPONSE_DISCARD, wire)
  {
    assert wire + [] == wire && len + [] == len;
    if |len| == 2 {
      assert len[2..] == [];
    }
    assert Deframe(0, len) == [];
    assert Residual(phase, len, []) == [];
    assert delivered + [] == delivered;
    assert Deframe(TLS_FIRST_RESPONSE_DISCARD, wire + []) == delivered + Residual(phase, len, []);
  }

  /** One transition: consuming `c` and delivering `out` may lead from one state to
      another if the residuals agree on everything that may follow. */
  lemma LinkStep(wire: Bytes, delivered: Bytes, phase: Phase, len: Bytes,
                 c: Bytes, out: Bytes, phase': Phase, len': Bytes)
    requires Linked(wire, delivered, phase, len)
    requires forall x: Bytes :: Residual(phase, len, c + x) == out + Residual(phase', len', x)
    ensures Linked(wire + c, delivered + out, phase', len')
  {
    forall x: Bytes
      ensures Deframe(TLS_FIRST_RESPONSE_DISCARD, wire + c + x) == delivered + out + Residual(phase', len', x)
    {
      assert wire + c + x == wire + (c + x);
      assert Residual(phase, len, c + x) == out + Residual(phase', len', x);
      assert delivered + (out + Residual(phase', len', x)) == delivered + out + Residual(phase', len', x);
    }
  }

  lemma DeframeSkip(n: nat, c: Bytes, x: Bytes)
    requires |c| <= n
    ensures Deframe(n, c + x) == Deframe(n - |c|, x)
  {
    if |x| >= n - |c| + 2 {
      assert (c + x)[n + 2..] == x[n - |c| + 2..];
    }
  }

  lemma StepDiscard(wire: Bytes, delivered: Bytes, n: nat, len: Bytes, c: Bytes)
    requires Linked(wire, delivered, Discard(n), len) && |c| <= n
    ensures Linked(wire + c, delivered, Discard(n - |c|), len)
  {
    hide Linked, Deframe;
    forall x: Bytes ensures Residual(Discard(n), len, c + x) == [] + Residual(Discard(n - |c|), len, x) {
      DeframeSkip(n, c, x);
    }
    LinkStep(wire, delivered, Discard(n), len, c, [], Discard(n - |c|), len);
    assert delivered + [] == delivered;
  }

  lemma StepLength(wire: Bytes, delivered: Bytes, len: Bytes, c: Bytes)
    requires Linked(wire, delivered, Length, len)
    ensures Linked(wire + c, delivered, Length, len + c)
  {
    forall x: Bytes ensures Residual(Length, len, c + x) == [] + Residual(Length, len + c, x) {
      assert len + (c + x) == len + c + x;
    }
    LinkStep(wire, delivered, Length, len, c, [], Length, len + c);
    assert delivered + [] == delivered;
  }

  lemma StepPayload(wire: Bytes, delivered: Bytes, n: nat, len: Bytes, c: Bytes)
    requires Linked(wire, delivered, Payload(n), len) && |c| <= n
    ensures Linked(wire + c, delivered + c, Payload(n - |c|), len)
  {
    forall x: Bytes ensures Residual(Payload(n), len, c + x) == c + Residual(Payload(n - |c|), len, x) {
      if |x| > n - |c| {
        assert (c + x)[n..] == x[n - |c|..];
        assert (c + x)[..n] == c + x[..n - |c|];
      }
    }
    LinkStep(wire, delivered, Payload(n), len, c, c, Payload(n - |c|), len);
  }

  /** The three transitions that read nothing. */
  lemma StepSilent(wire: Bytes, delivered: Bytes, phase: Phase, len: Bytes)
    requires Linked(wire, delivered, phase, len)
    ensures phase == Discard(0) ==> Linked(wire, delivered, Length, [])
    ensures phase == Length && |len| == 2 ==> Linked(wire, delivered, Payload(U16(len[0], len[1])), len)
    ensures phase == Payload(0) ==> Linked(wire, delivered, Discard(TLS_RECORD_HEADER_DISCARD), len)
  {
    forall x: Bytes
      ensures phase == Discard(0) ==> Residual(phase, len, x) == Residual(Length, [], x)
      ensures phase == Length && |len| == 2 ==>
                Residual(phase, len, x) == Residual(Payload(U16(len[0], len[1])), len, x)
      ensures phase == Payload(0) ==> Residual(phase, len, x) == Residual(Discard(TLS_RECORD_HEADER_DISCARD), len, x)
    {
      assert [] + x == x;
      assert x[..0] == [] && x[0..] == x;
      if phase == Length && |len| == 2 {
        assert (len + x)[2..] == x;
      }
    }
  }

  /** What is delivered is never more than what a longer wire would give. */
  lemma LinkedPrefix(wire: Bytes, delivered: Bytes, phase: Phase, len: Bytes, more: Bytes)
    requires Linked(wire, delivered, phase, len)
    ensures delivered <= Deframe(TLS_FIRST_RESPONSE_DISCARD, wire + more)
  {
    assert Deframe(TLS_FIRST_RESPONSE_DISCARD, wire + more) == delivered + Residual(phase, len, more);
  }
}
