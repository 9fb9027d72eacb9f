/** What a TLS-mode client puts on the wire for a list of chunks, and how a server reads it. */
module TlsWire {
  import opened Streams
  import opened TlsFraming
  import opened ClientHello
  import opened HelloParser
  import opened OptionType
  import opened TlsRecords
  import HelloRoundTrip

  function Framed(server: Bytes, nonce: Nonce, first: bool, c: Bytes): Bytes {
    if first then Hello(c, server, nonce) else Record(c)
  }

  /** The first chunk inside the hello, every later chunk in a record of its own. */
  function Frames(server: Bytes, nonce: Nonce, chunks: seq<Bytes>): Bytes {
    if chunks == [] then [] else Hello(chunks[0], server, nonce) + Records(chunks[1..])
  }

  lemma FramesSnoc(server: Bytes, nonce: Nonce, chunks: seq<Bytes>, c: Bytes)
    ensures Frames(server, nonce, chunks + [c]) ==
            Frames(server, nonce, chunks) + Framed(server, nonce, chunks == [], c)
  {
    if chunks == [] {
      assert [] + [c] == [c];
      assert [c][1..] == [];
      assert Records([]) == [];
    } else {
      assert (chunks + [c])[1..] == chunks[1..] + [c];
      RecordsSnoc(chunks[1..], c);
    }
  }

  /** What a server that knows only the protocol gets out of the wire: the session ticket
      of the hello, then the payload of the application-data records, of which the rest of
      the wire must consist. */
  function ServerPayload(wire: Bytes): Option<Bytes> {
    match ReadHello(wire)
    case None => None
    case Some((m, rest)) =>
      match (Ticket(m), ReadRecords(rest))
      case (Some(ticket), Some(payloads)) => Some(ticket + Concat(payloads))
      case _ => None
  }

  /** The wire is a hello that carries the first chunk, and behind it exactly one
      application-data record for each later chunk. */
  lemma ServerReads(server: Bytes, nonce: Nonce, chunks: seq<Bytes>)
    requires chunks != [] && |server| <= 48939
    requires forall c :: c in chunks ==> |c| <= 16384
    ensures var hello := ReadHello(Frames(server, nonce, chunks));
            hello.Some? && Ticket(hello.value.0) == Some(chunks[0]) && ReadRecords(hello.value.1) == Some(chunks[1..])
  {
    assert chunks[0] in chunks;
    HelloRoundTrip.HelloRead(chunks[0], server, nonce, Records(chunks[1..]));
    RecordsRead(chunks[1..]);
  }

  /** The server recovers exactly the chunks, for every list of chunks. */
  lemma ServerRecovers(server: Bytes, nonce: Nonce, chunks: seq<Bytes>)
    requires chunks != [] && |server| <= 48939
    requires forall c :: c in chunks ==> |c| <= TLS_CHUNK_SIZE
    ensures ServerPayload(Frames(server, nonce, chunks)) == Some(Concat(chunks))
  {
    hide ReadHello, ReadRecords, Ticket, Frames;
    ServerReads(server, nonce, chunks);
  }
}

/** simple-obfs in TLS mode as a resumable state machine. */
module TlsObfs {
  import opened Streams
  import opened TlsFraming
  import opened TlsReadState
  import opened TlsWire
  import opened Accounts
  import Writers
  import Fake = ClientHello

  class TlsObfs {
    const inner: InnerStream
    const server: Bytes
    const nonce: Fake.Nonce

    // Read state.
    var readPhase: Phase
    const lenBuf: array<byte>
    var lenProgress: nat

    // Write state.
    var firstRequest: bool
    var writeBuf: Bytes
    var writeBufOff: nat
    var pendingInput: nat

    ghost var delivered: Bytes      // payload handed to the caller
    ghost var chunks: seq<Bytes>    // chunks framed so far
    ghost var pending: Bytes        // the chunk framed but not yet covered
    ghost var confirmed: Bytes      // chunks an answer has covered
    ghost var orphaned: nat         // bytes framed that no answer will ever cover

    ghost predicate ReadValid()
      reads this`readPhase, this`lenProgress, this`delivered, inner`received, lenBuf
    {
      && lenBuf.Length == 2 && lenProgress <= 2
      && Linked(inner.received, delivered, readPhase, lenBuf[..lenProgress])
    }

    ghost predicate WriteValid()
      reads this`firstRequest, this`writeBuf, this`writeBufOff, this`pendingInput
      reads this`chunks, this`pending, this`confirmed, this`orphaned, inner`sent
    {
      && (if writeBuf == [] then writeBufOff == 0 else writeBufOff < |writeBuf|)
      && (firstRequest <==> chunks == [])
      && inner.sent + writeBuf[writeBufOff..] == Frames(server, nonce, chunks)
      && |pending| == pendingInput
      && (writeBuf != [] ==> pending != [])
      && (pending != [] ==> chunks != [] && chunks[|chunks| - 1] == pending)
      && Accounted(Concat(chunks), confirmed, pending, orphaned)
    }

    /** The write half on values. */
    ghost function Writer(): Writers.Writer
      requires WriteValid()
      reads this`firstRequest, this`writeBuf, this`writeBufOff, this`pendingInput
      reads this`chunks, this`pending, this`confirmed, this`orphaned
      reads inner`sent, inner`writeScript, inner`controlScript
    {
      Writers.Writer(chunks, [], pending, |writeBuf| - writeBufOff, inner.writeScript, inner.controlScript)
    }

    constructor (inner: InnerStream, server: Bytes, nonce: Fake.Nonce)
      requires inner.received == [] && inner.sent == []
      ensures this.inner == inner && this.server == server && this.nonce == nonce && fresh(lenBuf)
      ensures ReadValid() && delivered == []
      ensures WriteValid() && chunks == [] && pending == [] && confirmed == [] && orphaned == 0
      ensures writeBuf == []
    {
      this.inner, this.server, this.nonce := inner, server, nonce;
      readPhase := Discard(TLS_FIRST_RESPONSE_DISCARD);
      lenBuf := new byte[2](_ => 0);
      lenProgress := 0;
      firstRequest := true;
      writeBuf, writeBufOff, pendingInput := [], 0, 0;
      delivered, chunks, pending, confirmed, orphaned := [], [], [], [], 0;
      new;
      forall x: Bytes
        ensures Deframe(TLS_FIRST_RESPONSE_DISCARD, [] + x) == [] + Deframe(TLS_FIRST_RESPONSE_DISCARD, x)
      {
        assert [] + x == x;
      }
    }

    /** What was delivered is the one-shot deframing of exactly the wire consumed. */
    lemma Refines()
      requires ReadValid()
      ensures delivered == Deframe(TLS_FIRST_RESPONSE_DISCARD, inner.received)
    {
      LinkedNow(inner.received, delivered, readPhase, lenBuf[..lenProgress]);
    }

    /** The write half in one line: every framed byte is on the wire or in the write buffer. */
    lemma Books()
      requires WriteValid()
      ensures writeBufOff <= |writeBuf| && (writeBufOff == |writeBuf| <==> writeBuf == [])
      ensures inner.sent + writeBuf[writeBufOff..] == Frames(server, nonce, chunks)
      ensures |pending| == pendingInput && (writeBuf != [] ==> pending != [])
      ensures Concat(chunks) == confirmed + pending <==> orphaned == 0
    {
      hide Frames;
      BalancedIff(Concat(chunks), confirmed, pending, orphaned);
    }

    /** Bounds the steps that read nothing. */
    ghost function Rank(): nat
      reads this`readPhase, this`lenProgress
    {
      match readPhase
      case Discard(n) => if n == 0 then 1 else 0
      case Length => if lenProgress >= 2 then 2 else 0
      case Payload(n) => if n == 0 then 1 else 0
    }

    /** Polls the inner stream into a temporary buffer of `room` bytes. */
    method PollTmp(room: nat) returns (r: Poll<Bytes>)
      requires room > 0
      modifies inner`readScript, inner`received, inner`ended, inner`readPolls, inner`readStalls, inner`lastRead
      ensures r.Ready? ==> |r.value| <= room
      ensures r.Ready? ==> inner.received == old(inner.received) + r.value
      ensures !r.Ready? || r.value == [] ==> inner.received == old(inner.received)
      ensures inner.Answered(Moved(Discarded(r), if r.Ready? then |r.value| else 0))
    {
      var rb := new ReadBuf(room);
      var answer := inner.PollRead(rb);
      match answer
      case Pending => r := Pending;
      case Failed(e) => r := Failed(e);
      case Ready(_) => r := Ready(rb.filled);
    }

    /** Reads up to 256 of the bytes to be ignored. */
    method PollDiscard(remaining: nat) returns (r: Poll<nat>)
      requires ReadValid() && readPhase == Discard(remaining) && remaining > 0
      modifies this`readPhase
      modifies inner`readScript, inner`received, inner`ended, inner`readPolls, inner`readStalls, inner`lastRead
      ensures ReadValid() && inner.Answered(r) && readPhase.Discard?
    {
      ghost var wire, len := inner.received, lenBuf[..lenProgress];
      var answer := PollTmp(Min(remaining, 256));
      match answer
      case Pending => r := Pending;
      case Failed(e) => r := Failed(e);
      case Ready(tmp) =>
        StepDiscard(wire, delivered, remaining, len, tmp);
        readPhase := Discard(remaining - |tmp|);
        r := Ready(|tmp|);
    }

    /** Reads what is missing of the length field into its place. */
    method PollLength() returns (r: Poll<nat>)
      requires ReadValid() && readPhase == Length && lenProgress < 2
      modifies this`lenProgress, lenBuf
      modifies inner`readScript, inner`received, inner`ended, inner`readPolls, inner`readStalls, inner`lastRead
      ensures ReadValid() && inner.Answered(r)
    {
      ghost var wire, len := inner.received, lenBuf[..lenProgress];
      var answer := PollTmp(2 - lenProgress);
      match answer
      case Pending => r := Pending;
      case Failed(e) => r := Failed(e);
      case Ready(tmp) =>
        var n, start := |tmp|, lenProgress;
        StepLength(wire, delivered, len, tmp);
        forall i | 0 <= i < n {
          lenBuf[start + i] := tmp[i];
        }
        lenProgress := lenProgress + n;
        assert lenBuf[..lenProgress] == len + tmp;
        r := Ready(n);
    }

    /** Stages payload in a temporary buffer and hands it to the caller. */
    method PollPayload(buf: ReadBuf, remaining: nat) returns (r: Poll<nat>)
      requires ReadValid() && readPhase == Payload(remaining) && remaining > 0
      requires buf.Valid() && buf.Remaining() > 0
      modifies this`readPhase, this`delivered, buf
      modifies inner`readScript, inner`received, inner`ended, inner`readPolls, inner`readStalls, inner`lastRead
      ensures ReadValid() && inner.Answered(r) && buf.Valid() && old(buf.filled) <= buf.filled
      ensures delivered == old(delivered) + buf.filled[|old(buf.filled)|..]
      ensures |buf.filled| == |old(buf.filled)| + if r.Ready? then r.value else 0
    {
      ghost var wire, len := inner.received, lenBuf[..lenProgress];
      var answer := PollTmp(Min(buf.Remaining(), remaining));
      match answer
      case Pending => r := Pending;
      case Failed(e) => r := Failed(e);
      case Ready(tmp) =>
        StepPayload(wire, delivered, remaining, len, tmp);
        buf.PutSlice(tmp);
        delivered := delivered + tmp;
        readPhase := Payload(remaining - |tmp|);
        r := Ready(|tmp|);
    }

    method PollRead(buf: ReadBuf) returns (r: Poll<()>)
      requires ReadValid() && buf.Valid()
      modifies this`readPhase, this`lenProgress, this`delivered, lenBuf, buf
      modifies inner`readScript, inner`received, inner`ended, inner`readPolls, inner`readStalls, inner`lastRead
      ensures ReadValid() && buf.Valid() && old(buf.filled) <= buf.filled
      ensures delivered == old(delivered) + buf.filled[|old(buf.filled)|..]
      ensures !old(inner.ended) ==> inner.Total() == old(inner.Total())
      ensures old(buf.Remaining()) > 0 ==>
                && (inner.ended <==> old(inner.ended) || Ends(r, |buf.filled| - |old(buf.filled)|, 1))
                && (old(inner.readScript) != [] ==> Weight(inner.readScript) < old(Weight(inner.readScript)))
                && (old(inner.readScript) == [] ==> inner.readScript == [])
      ensures !r.Ready? ==> buf.filled == old(buf.filled)
      // With room in the buffer, the call stops at the first answer that is not a successful
      // read of framing and passes it on: Pending, an error, the end of the stream (nothing
      // new) and payload are reported exactly when the inner stream gave them.
      ensures old(buf.Remaining()) > 0 ==>
                && old(inner.readPolls) < inner.readPolls
                && inner.lastRead == Moved(r, |buf.filled| - |old(buf.filled)|)
                && inner.readStalls == old(inner.readStalls) + if Progress(inner.lastRead) then 0 else 1
      // Without room the call stops in front of payload, or where the inner stream stalls.
      ensures old(buf.Remaining()) == 0 ==>
                if inner.readStalls == old(inner.readStalls)
                then r == Ready(()) && readPhase.Payload? && readPhase.remaining > 0
                else inner.lastRead == Moved(r, 0)
    {
      hide Linked, Ahead, Weight;
      while true
        invariant ReadValid() && buf.Valid() && buf.filled == old(buf.filled) && delivered == old(delivered)
        invariant inner.ended == old(inner.ended) && (!inner.ended ==> inner.Total() == old(inner.Total()))
        invariant Weight(inner.readScript) < old(Weight(inner.readScript)) || inner.readScript == old(inner.readScript)
        invariant old(inner.readPolls) <= inner.readPolls && inner.readStalls == old(inner.readStalls)
        decreases Weight(inner.readScript), Rank()
      {
        ghost var wire, len := inner.received, lenBuf[..lenProgress];
        match readPhase
        case Discard(remaining) =>
          if remaining == 0 {
            StepSilent(wire, delivered, readPhase, len);
            readPhase := Length;
            lenProgress := 0;
            assert lenBuf[..lenProgress] == [];
          } else {
            var answer := PollDiscard(remaining);
            if !answer.Ready? || answer.value == 0 {
              return Discarded(answer);
            }
          }
        case Length =>
          if lenProgress >= 2 {
            StepSilent(wire, delivered, readPhase, len);
            readPhase := Payload(U16(lenBuf[0], lenBuf[1]));
          } else {
            var answer := PollLength();
            if !answer.Ready? || answer.value == 0 {
              return Discarded(answer);
            }
          }
        case Payload(remaining) =>
          if remaining == 0 {
            StepSilent(wire, delivered, readPhase, len);
            readPhase := Discard(TLS_RECORD_HEADER_DISCARD);
          } else {
            if Min(buf.Remaining(), remaining) == 0 {
              return Ready(());
            }
            var answer := PollPayload(buf, remaining);
            return Discarded(answer);
          }
      }
    }

    method PollDrainWriteBuf() returns (r: Poll<()>)
      requires WriteValid()
      modifies this`writeBuf, this`writeBufOff, inner`writeScript, inner`sent
      ensures WriteValid()
      ensures var (outcome, taken, rest) := Drain(old(inner.writeScript), |old(writeBuf)| - old(writeBufOff));
              && r == outcome && inner.writeScript == rest
              && inner.sent == old(inner.sent) + old(writeBuf)[old(writeBufOff)..old(writeBufOff) + taken]
              && (!r.Ready? ==> writeBufOff == old(writeBufOff) + taken)
      ensures writeBuf == if r.Ready? then [] else old(writeBuf)
    {
      hide Frames, Drain, Accounted;
      r, writeBufOff := DrainBuffer(inner, writeBuf, writeBufOff);
      if !r.Ready? {
        return;
      }
      assert inner.sent + writeBuf[writeBufOff..] == inner.sent;
      writeBuf := [];
      writeBufOff := 0;
    }

    method PollWrite(buf: Bytes) returns (r: Poll<nat>)
      requires WriteValid()
      modifies this`firstRequest, this`writeBuf, this`writeBufOff, this`pendingInput
      modifies this`chunks, this`pending, this`confirmed, this`orphaned
      modifies inner`writeScript, inner`sent
      ensures WriteValid()
      // A chunk still being drained is finished first; otherwise the front of `buf` becomes the next chunk.
      ensures var draining := old(writeBuf) != [];
              var chunk := if draining then old(pending) else buf[..Min(|buf|, 16384)];
              && chunks == (if draining || buf == [] then old(chunks) else old(chunks) + [chunk])
              && orphaned == old(orphaned) + (if draining || buf == [] then 0 else |old(pending)|)
              && (r.Ready? ==> r.value == |chunk| && confirmed == old(confirmed) + chunk && writeBuf == [])
              && (r.Ready? ==> pending == if draining || buf != [] then [] else old(pending))
              && (!r.Ready? ==> confirmed == old(confirmed) && pending == chunk && writeBuf != [])
      // Nothing but the inner writer decides whether the call completes.
      ensures var size := if old(writeBuf) != [] then |old(writeBuf)| - old(writeBufOff)
                          else if buf == [] then 0
                          else |Framed(server, nonce, old(chunks) == [], buf[..Min(|buf|, 16384)])|;
              var (outcome, taken, rest) := Drain(old(inner.writeScript), size);
              && Discarded(r) == outcome && inner.writeScript == rest
              && (!r.Ready? ==> |writeBuf| - writeBufOff == size - taken)
    {
      hide Frames, Accounted, Drain;
      DrainNothing(inner.writeScript);
      if writeBuf != [] {
        var drained := PollDrainWriteBuf();
        if !drained.Ready? {
          return if drained.Pending? then Pending else Failed(drained.error);
        }
        var consumed := pendingInput;
        Report();
        return Ready(consumed);
      }

      if buf == [] {
        assert confirmed + [] == confirmed;
        return Ready(0);
      }

      FrameChunk(buf[..Min(|buf|, TLS_CHUNK_SIZE)]);
      var drained := PollDrainWriteBuf();
      match drained
      case Ready(_) =>
        var consumed := pendingInput;
        Report();
        r := Ready(consumed);
      case Failed(e) => r := Failed(e);
      case Pending => r := Pending;
    }

    /** Makes `chunk` the content of the write buffer: the hello the first time, then a record. */
    method FrameChunk(chunk: Bytes)
      requires WriteValid() && writeBuf == [] && chunk != []
      modifies this`firstRequest, this`writeBuf, this`pendingInput, this`chunks, this`pending, this`orphaned
      ensures WriteValid() && writeBuf != []
      ensures |writeBuf| - writeBufOff == |Framed(server, nonce, old(chunks) == [], chunk)|
      ensures chunks == old(chunks) + [chunk] && pending == chunk && orphaned == old(orphaned) + |old(pending)|
    {
      hide Frames, Framed;
      FramesSnoc(server, nonce, chunks, chunk);
      ConcatSnoc(chunks, chunk);
      Frame(Concat(chunks), confirmed, pending, orphaned, chunk);
      writeBuf := BuildFrame(firstRequest, chunk);
      firstRequest := false;
      pendingInput := |chunk|;
      chunks, orphaned, pending := chunks + [chunk], orphaned + |pending|, chunk;
      assert writeBuf[writeBufOff..] == writeBuf;
    }

    method BuildFrame(first: bool, chunk: Bytes) returns (framed: Bytes)
      ensures framed == Framed(server, nonce, first, chunk) && framed != []
    {
      if first {
        framed := Fake.BuildClientHello(chunk, server, nonce);
      } else {
        framed := [0x17, 0x03, 0x03];
        framed := framed + U16Bytes(|chunk|);
        framed := framed + chunk;
      }
    }

    /** Clears `pending_input` once the chunk it stands for has been reported. */
    method Report()
      requires WriteValid() && writeBuf == []
      modifies this`pendingInput, this`pending, this`confirmed
      ensures WriteValid() && pendingInput == 0 && pending == [] && confirmed == old(confirmed) + old(pending)
    {
      Confirm(Concat(chunks), confirmed, pending, orphaned);
      pendingInput := 0;
      confirmed, pending := confirmed + pending, [];
    }

    /** `poll_flush` and `poll_shutdown`: drain, then pass the call on. A drained chunk stays unreported. */
    method PollFlush() returns (r: Poll<()>)
      requires WriteValid()
      modifies this`writeBuf, this`writeBufOff
      modifies inner`writeScript, inner`sent, inner`controlScript
      ensures WriteValid()
      ensures r.Ready? ==> writeBuf == [] && inner.sent == Frames(server, nonce, chunks)
      ensures var (outcome, taken, rest) := Drain(old(inner.writeScript), |old(writeBuf)| - old(writeBufOff));
              && inner.writeScript == rest
              && (writeBuf == [] <==> outcome.Ready?) && (!outcome.Ready? ==> r == outcome)
              && |writeBuf| - writeBufOff == |old(writeBuf)| - old(writeBufOff) - taken
              && inner.controlScript == (if outcome.Ready? then Tail(old(inner.controlScript))
                                         else old(inner.controlScript))
      ensures writeBuf == [] ==> r == if old(inner.controlScript) == [] then Pending else old(inner.controlScript)[0]
    {
      if writeBuf != [] {
        r := PollDrainWriteBuf();
        if !r.Ready? {
          return;
        }
      }
      r := inner.PollControl();
    }
  }
}
