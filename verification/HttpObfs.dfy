/** simple-obfs in HTTP mode as a resumable state machine. */
module HttpObfs {
  import opened Streams
  import opened HttpFraming
  import opened Accounts
  import Writers
  import Fake = HttpRequest

  class HttpObfs {
    const inner: InnerStream
    const host: Bytes
    const port: nat
    const nonce: Fake.Nonce

    // First-write framing.
    var firstRequest: bool
    var writeBuf: Bytes
    var writeBufOff: nat
    var pendingInput: nat

    // First-read header stripping.
    var firstResponse: bool
    var responseScratch: Bytes
    var leftover: Bytes
    var leftoverOff: nat

    ghost var delivered: Bytes     // bytes handed to the caller
    ghost var limitErrors: nat     // how often the header limit was reported
    ghost var first: Bytes         // the body of the fake request
    ghost var raw: Bytes           // bytes passed through after it
    ghost var pending: Bytes       // the part of `first` a coming answer covers
    ghost var confirmed: Bytes     // bytes an answer has covered
    ghost var orphaned: nat        // bytes sent that no answer will ever cover

    ghost predicate ReadValid()
      reads this`firstResponse, this`responseScratch, this`leftover, this`leftoverOff, this`delivered
      reads this`limitErrors, inner`received
    {
      if firstResponse then
        && responseScratch == inner.received && Find(inner.received).None?
        && leftover == [] && leftoverOff == 0 && delivered == []
        // The buffer is bounded by the limit while no error was reported, and by one more
        // read for every reported error; each of those made it grow.
        && (limitErrors == 0 ==> |responseScratch| <= MAX_HEADER)
        && (limitErrors > 0 ==> MAX_HEADER + limitErrors <= |responseScratch| <= MAX_HEADER + READ_SIZE * limitErrors)
      else
        && responseScratch == []
        && Find(inner.received).Some?
        && (if leftover == [] then leftoverOff == 0 else leftoverOff < |leftover| < READ_SIZE)
        && AfterHeader(inner.received) == delivered + leftover[leftoverOff..]
        && (limitErrors == 0 ==> Find(inner.received).value + 4 <= MAX_HEADER + READ_SIZE)
    }

    ghost predicate WriteValid()
      reads this`firstRequest, this`writeBuf, this`writeBufOff, this`pendingInput
      reads this`first, this`raw, this`pending, this`confirmed, this`orphaned, inner`sent
    {
      && (if writeBuf == [] then writeBufOff == 0 else writeBufOff < |writeBuf|)
      && (firstRequest ==> writeBuf == [] && inner.sent == [] && first == raw == [] && pendingInput == 0)
      && (!firstRequest ==> inner.sent + writeBuf[writeBufOff..] == Fake.Request(host, port, first, nonce) + raw)
      && (writeBuf != [] ==> raw == [] && pending == first && |first| == pendingInput)
      && (pending != [] ==> raw == [] && pending == first && |pending| == pendingInput)
      && Accounted(first + raw, confirmed, pending, orphaned)
    }

    /** The write half on values. */
    ghost function Writer(): Writers.Writer
      requires WriteValid()
      reads this`firstRequest, this`writeBuf, this`writeBufOff, this`pendingInput
      reads this`first, this`raw, this`pending, this`confirmed, this`orphaned
      reads inner`sent, inner`writeScript, inner`controlScript
    {
      Writers.Writer(if firstRequest then [] else [first], raw, pending, |writeBuf| - writeBufOff,
                     inner.writeScript, inner.controlScript)
    }

    constructor (inner: InnerStream, host: Bytes, port: nat, nonce: Fake.Nonce)
      requires inner.received == [] && inner.sent == []
      ensures this.inner == inner && this.host == host && this.port == port && this.nonce == nonce
      ensures ReadValid() && delivered == [] && firstResponse && limitErrors == 0
      ensures WriteValid() && firstRequest && pending == confirmed == [] && orphaned == 0
    {
      this.inner, this.host, this.port, this.nonce := inner, host, port, nonce;
      firstRequest, writeBuf, writeBufOff, pendingInput := true, [], 0, 0;
      firstResponse, responseScratch, leftover, leftoverOff := true, [], [], 0;
      delivered, limitErrors, first, raw, pending, confirmed, orphaned := [], 0, [], [], [], [], 0;
    }

    /** What was delivered, with what is kept for the next call, is what lies behind the first
        terminator of exactly the wire consumed. */
    lemma Finished()
      requires ReadValid() && leftover == []
      ensures delivered == AfterHeader(inner.received)
      ensures limitErrors == 0 ==>
                match Find(inner.received)
                case None => |inner.received| <= MAX_HEADER
                case Some(i) => i + 4 <= MAX_HEADER + READ_SIZE
    {
      assert delivered + [] == delivered;
    }

    lemma Searching()
      requires ReadValid() && firstResponse
      ensures delivered == [] && Find(inner.received).None?
      ensures limitErrors > 0 ==> |inner.received| > MAX_HEADER
    {
    }

    /** The buffers in every reachable state: less than one read is left over, and until the
        limit was reported a second time the header is at most one read past it. */
    lemma Buffers()
      requires ReadValid()
      ensures |leftover| < 1024
      ensures limitErrors <= 1 ==> |responseScratch| <= 17408
      ensures firstResponse && limitErrors > 0 ==>
                MAX_HEADER + limitErrors <= |responseScratch| <= MAX_HEADER + READ_SIZE * limitErrors
    {
    }

    /** The write half in one line: the request and what was passed through are on the wire
        or in the write buffer. */
    lemma Books()
      requires WriteValid()
      ensures writeBufOff <= |writeBuf| && (writeBufOff == |writeBuf| <==> writeBuf == [])
      ensures !firstRequest ==> inner.sent + writeBuf[writeBufOff..] == Fake.Request(host, port, first, nonce) + raw
      ensures writeBuf != [] ==> raw == [] && pending == first && |first| == pendingInput
      ensures firstRequest ==> writeBuf == [] && first == raw == []
      ensures first + raw == confirmed + pending <==> orphaned == 0
    {
      hide Fake.Request;
    }

    /** Reads up to 1024 bytes into a temporary buffer. */
    method PollTmp() returns (r: Poll<Bytes>)
      modifies inner`readScript, inner`received, inner`ended, inner`readPolls, inner`readStalls, inner`lastRead
      ensures (r, inner.readScript) == NextRead(old(inner.readScript), READ_SIZE)
      ensures r.Ready? ==> inner.received == old(inner.received) + r.value
      ensures !r.Ready? || r.value == [] ==> inner.received == old(inner.received)
      ensures r.Failed? ==> r.error.Inner?
      ensures inner.Answered(Moved(Discarded(r), if r.Ready? then |r.value| else 0))
    {
      var rb := new ReadBuf(READ_SIZE);
      var answer := inner.PollRead(rb);
      match answer
      case Pending => r := Pending;
      case Failed(e) => r := Failed(e);
      case Ready(_) => r := Ready(rb.filled);
    }

    method PollRead(buf: ReadBuf) returns (r: Poll<()>)
      requires ReadValid() && buf.Valid()
      modifies this`firstResponse, this`responseScratch, this`leftover, this`leftoverOff, this`delivered
      modifies this`limitErrors, buf
      modifies inner`readScript, inner`received, inner`ended, inner`readPolls, inner`readStalls, inner`lastRead
      ensures ReadValid() && buf.Valid() && old(buf.filled) <= buf.filled
      ensures delivered == old(delivered) + buf.filled[|old(buf.filled)|..]
      ensures !old(inner.ended) ==> inner.Total() == old(inner.Total())
      ensures old(buf.Remaining()) > 0 ==>
                && (inner.ended <==> old(inner.ended) || (r.Failed? && r.error.Inner?)
                                     || (r.Ready? && buf.filled == old(buf.filled)))
                && (if old(leftover) != [] then
                      && inner.readScript == old(inner.readScript)
                      && |leftover| - leftoverOff < old(|leftover| - leftoverOff)
                    else if old(inner.readScript) == [] then r.Pending? && inner.readScript == []
                    else Weight(inner.readScript) < old(Weight(inner.readScript)))
      ensures buf.Remaining() > 0 ==> leftover == []
      ensures !r.Ready? ==> buf.filled == old(buf.filled)
      // Bytes kept from the header reads go out before anything else is read.
      ensures old(leftover) != [] ==>
                && r.Ready? && inner.received == old(inner.received)
                && |buf.filled| - |old(buf.filled)| == Min(|old(leftover)| - old(leftoverOff), old(buf.Remaining()))
      // The header phase ends once, and as a search over the script does.
      ensures !old(firstResponse) ==> !firstResponse
      ensures old(firstResponse) ==>
                var (outcome, s, rest) := Seek(old(inner.readScript), old(responseScratch));
                && (outcome.Found? <==> !firstResponse)
                && (outcome.TooLong? <==> r == Failed(InvalidData))
                && (outcome.Stopped? ==> r == outcome.answer)
                && (!outcome.Found? ==>
                      responseScratch == s && inner.readScript == rest && buf.filled == old(buf.filled))
      ensures r.Failed? ==> r.error.Inner? || r.error == InvalidData
      ensures limitErrors == old(limitErrors) + if r == Failed(InvalidData) then 1 else 0
      ensures r == Failed(InvalidData) ==> old(firstResponse) && firstResponse
      // Nothing new with room in the buffer means that the inner stream has just said that it ended.
      ensures r.Ready? && buf.filled == old(buf.filled) && old(buf.Remaining()) > 0 ==>
                old(inner.readPolls) < inner.readPolls && inner.lastRead == Ready(0)
      // Whatever stalls the inner stream is passed on, and nothing else stalls the call.
      ensures old(inner.readPolls) < inner.readPolls && !Progress(inner.lastRead) ==>
                inner.lastRead == Moved(r, |buf.filled| - |old(buf.filled)|)
      ensures r.Pending? || (r.Failed? && r.error != InvalidData) ==>
                old(inner.readPolls) < inner.readPolls && inner.lastRead == Moved(r, 0)
    {
      hide Find, AfterHeader, Seek, NextRead, Ahead, Weight;
      if leftoverOff < |leftover| {
        TakeLeftover(buf);
        return Ready(());
      }

      if firstResponse {
        SeekOutcome(inner.readScript, responseScratch);
        SeekWeight(inner.readScript, responseScratch);
        var outcome := PollHeader();
        match outcome {
          case Stopped(answer) =>
            return answer;
          case TooLong =>
            return Failed(InvalidData);
          case Found =>
            var take := TakeBody(buf);
            if take > 0 {
              return Ready(());
            }
        }
      }

      r := Passthrough(buf);
    }

    method TakeLeftover(buf: ReadBuf)
      requires ReadValid() && buf.Valid() && leftover != []
      modifies this`leftover, this`leftoverOff, this`delivered, buf
      ensures ReadValid() && buf.Valid() && old(buf.filled) <= buf.filled
      ensures delivered == old(delivered) + buf.filled[|old(buf.filled)|..]
      ensures |buf.filled| - |old(buf.filled)| == Min(|old(leftover)| - old(leftoverOff), old(buf.Remaining()))
      ensures |leftover| - leftoverOff == old(|leftover| - leftoverOff) - (|buf.filled| - |old(buf.filled)|)
      ensures buf.Remaining() > 0 ==> leftover == []
    {
      hide Find, AfterHeader;
      ghost var avail := leftover[leftoverOff..];
      var take := Min(|leftover| - leftoverOff, buf.Remaining());
      CutAt(delivered, avail, take, 0);
      assert avail[take..] == leftover[leftoverOff + take..];
      buf.PutSlice(leftover[leftoverOff..][..take]);
      delivered := delivered + avail[..take];
      leftoverOff := leftoverOff + take;
      if leftoverOff >= |leftover| {
        leftover, leftoverOff := [], 0;
      }
    }

    /** Reads into the scratch buffer until the terminator is in it, the stream stops or the
        limit is exceeded. */
    method PollHeader() returns (outcome: Outcome)
      requires ReadValid() && firstResponse
      modifies this`responseScratch, this`limitErrors
      modifies inner`readScript, inner`received, inner`ended, inner`readPolls, inner`readStalls, inner`lastRead
      ensures (outcome, responseScratch, inner.readScript) == Seek(old(inner.readScript), old(responseScratch))
      ensures !outcome.Found? ==> ReadValid()
      ensures responseScratch == inner.received
      ensures limitErrors == old(limitErrors) + if outcome.TooLong? then 1 else 0
      ensures !old(inner.ended) ==> inner.Total() == old(inner.Total())
      ensures inner.ended <==> old(inner.ended) || (outcome.Stopped? && !outcome.answer.Pending?)
      ensures old(inner.readPolls) < inner.readPolls
      ensures outcome.Stopped? ==> inner.lastRead == Moved(outcome.answer, 0)
      ensures outcome.Stopped? && outcome.answer.Failed? ==> outcome.answer.error.Inner?
      ensures !outcome.Stopped? ==> Progress(inner.lastRead)
    {
      hide Find, Seek, NextRead, Ahead, Weight;
      while true
        invariant ReadValid()
        invariant |responseScratch| <= MAX_HEADER || responseScratch == old(responseScratch)
        invariant limitErrors == old(limitErrors)
        invariant inner.ended == old(inner.ended) && (!inner.ended ==> inner.Total() == old(inner.Total()))
        invariant old(inner.readPolls) <= inner.readPolls
        invariant Seek(inner.readScript, responseScratch) == Seek(old(inner.readScript), old(responseScratch))
        decreases Weight(inner.readScript)
      {
        SeekStep(inner.readScript, responseScratch);
        var answer := PollTmp();
        if !answer.Ready? {
          return Stopped(Discarded(answer));
        }
        if answer.value == [] {
          return Stopped(Ready(()));
        }
        responseScratch := responseScratch + answer.value;
        var found := FindDoubleCrlf(responseScratch);
        if found.Some? {
          return Found;
        }
        if |responseScratch| > MAX_HEADER {
          limitErrors := limitErrors + 1;
          return TooLong;
        }
      }
    }

    /** Ends the header phase: what fits of the bytes behind the terminator goes to the
        caller, the rest is kept. */
    method TakeBody(buf: ReadBuf) returns (take: nat)
      requires firstResponse && responseScratch == inner.received && leftover == [] && leftoverOff == 0
      requires Find(responseScratch).Some? && |AfterHeader(responseScratch)| < READ_SIZE && delivered == []
      requires buf.Valid() && (limitErrors == 0 ==> |responseScratch| <= MAX_HEADER + READ_SIZE)
      modifies this`firstResponse, this`responseScratch, this`leftover, this`leftoverOff, this`delivered, buf
      ensures ReadValid() && buf.Valid() && !firstResponse && old(buf.filled) <= buf.filled
      ensures delivered == buf.filled[|old(buf.filled)|..] && |delivered| == take
      ensures leftover == [] || buf.Remaining() == 0
      ensures responseScratch == []
    {
      hide Find, AfterHeader;
      AfterFound(responseScratch);
      var found := FindDoubleCrlf(responseScratch);
      firstResponse := false;
      var body := responseScratch[found.value + 4..];
      take := Min(|body|, buf.Remaining());
      assert body[..take] + body[take..] == body && body[take..][0..] == body[take..];
      buf.PutSlice(body[..take]);
      delivered := body[..take];
      if take < |body| {
        leftover, leftoverOff := body[take..], 0;
      }
      responseScratch := [];
    }

    /** The final stage: the caller's buffer goes straight to the inner stream. */
    method Passthrough(buf: ReadBuf) returns (r: Poll<()>)
      requires ReadValid() && !firstResponse && buf.Valid()
      requires leftover == [] || buf.Remaining() == 0
      modifies this`delivered, buf
      modifies inner`readScript, inner`received, inner`ended, inner`readPolls, inner`readStalls, inner`lastRead
      ensures ReadValid() && buf.Valid() && old(buf.filled) <= buf.filled
      ensures delivered == old(delivered) + buf.filled[|old(buf.filled)|..]
      ensures !old(inner.ended) ==> inner.Total() == old(inner.Total())
      ensures inner.readPolls == old(inner.readPolls) + 1
      ensures inner.lastRead == Moved(r, |buf.filled| - |old(buf.filled)|)
      ensures inner.ended <==> old(inner.ended) || Ends(r, |buf.filled| - |old(buf.filled)|, old(buf.Remaining()))
      ensures old(inner.readScript) == [] ==> r.Pending? && inner.readScript == []
      ensures old(inner.readScript) != [] && old(buf.Remaining()) > 0 ==>
                Weight(inner.readScript) < old(Weight(inner.readScript))
      ensures r.Failed? ==> r.error.Inner?
      ensures !r.Ready? ==> buf.filled == old(buf.filled)
    {
      hide NextRead, Ahead, Find, AfterHeader;
      ghost var wire := inner.received;
      r := inner.PollRead(buf);
      ghost var new_ := buf.filled[|old(buf.filled)|..];
      FindExtends(wire, new_);
      assert delivered + [] == delivered;
      delivered := delivered + new_;
    }

    method PollDrainWriteBuf() returns (r: Poll<()>)
      requires WriteValid()
      modifies this`writeBuf, this`writeBufOff, inner`writeScript, inner`sent
      ensures WriteValid()
      ensures var (outcome, taken, rest) := Drain(old(inner.writeScript), |old(writeBuf)| - old(writeBufOff));
              && r == outcome && inner.writeScript == rest
              && inner.sent == old(inner.sent) + old(writeBuf)[old(writeBufOff)..old(writeBufOff) + taken]
              && (!r.Ready? ==> writeBufOff == old(writeBufOff) + taken)
      ensures writeBuf == if r.Ready? then [] else old(writeBuf)
    {
      hide Fake.Request, Drain, Accounted;
      r, writeBufOff := DrainBuffer(inner, writeBuf, writeBufOff);
      if !r.Ready? {
        return;
      }
      assert inner.sent + writeBuf[writeBufOff..] == inner.sent;
      writeBuf := [];
      writeBufOff := 0;
    }

    method PollWrite(buf: Bytes) returns (r: Poll<nat>)
      requires WriteValid()
      modifies this`firstRequest, this`writeBuf, this`writeBufOff, this`pendingInput
      modifies this`first, this`raw, this`pending, this`confirmed, this`orphaned
      modifies inner`writeScript, inner`sent
      ensures WriteValid() && !firstRequest
      ensures first == if old(firstRequest) then buf else old(first)
      // The request is drained before anything else; once it is out, writes pass through.
      ensures var passing := !old(firstRequest) && old(writeBuf) == [];
              && (passing ==> r == NextWrite(old(inner.writeScript), |buf|) && pendingInput == old(pendingInput))
              && (passing ==> inner.writeScript == Tail(old(inner.writeScript)))
              && raw == old(raw) + (if passing && r.Ready? then buf[..r.value] else [])
              && (passing && r.Ready? && r.value > 0 ==> pending == [] && orphaned == old(orphaned) + |old(pending)|)
              && (passing && !(r.Ready? && r.value > 0) ==> pending == old(pending) && orphaned == old(orphaned))
              && (!passing ==> orphaned == old(orphaned) && pending == if r.Ready? then [] else first)
              && (!passing && r.Ready? ==> r.value == |first| && pendingInput == 0)
              && confirmed == old(confirmed) + (if !r.Ready? then [] else if passing then buf[..r.value] else first)
              && (writeBuf == [] <==> r.Ready? || passing)
      // Nothing but the inner writer decides whether the request completes.
      ensures old(firstRequest) || old(writeBuf) != [] ==>
                var size := if old(firstRequest) then |Fake.Request(host, port, buf, nonce)|
                            else |old(writeBuf)| - old(writeBufOff);
                var (outcome, taken, rest) := Drain(old(inner.writeScript), size);
                && Discarded(r) == outcome && inner.writeScript == rest
                && |writeBuf| - writeBufOff == size - taken
    {
      hide Fake.Request, Drain, Accounted;
      assert raw + [] == raw && confirmed + [] == confirmed;
      if writeBuf != [] {
        var drained := PollDrainWriteBuf();
        if !drained.Ready? {
          return if drained.Pending? then Pending else Failed(drained.error);
        }
        var consumed := pendingInput;
        Report();
        return Ready(consumed);
      }

      if firstRequest {
        FrameRequest(buf);
        var drained := PollDrainWriteBuf();
        match drained
        case Ready(_) =>
          var consumed := pendingInput;
          Report();
          r := Ready(consumed);
        case Failed(e) => r := Failed(e);
        case Pending => r := Pending;
      } else {
        r := inner.PollWrite(buf);
        if r.Ready? {
          PassedThrough(buf[..r.value]);
        }
      }
    }

    method FrameRequest(buf: Bytes)
      requires WriteValid() && firstRequest
      modifies this`firstRequest, this`writeBuf, this`writeBufOff, this`pendingInput, this`first, this`pending
      ensures WriteValid() && !firstRequest && writeBuf != [] && writeBufOff == 0
      ensures writeBuf == Fake.Request(host, port, buf, nonce)
      ensures first == buf && pending == buf && pendingInput == |buf|
    {
      RequestNonEmpty(buf);
      hide Fake.Request;
      firstRequest := false;
      writeBuf := Fake.BuildHttpRequest(host, port, buf, nonce);
      writeBufOff := 0;
      pendingInput := |buf|;
      first, pending := buf, buf;
      assert [] + writeBuf[0..] == writeBuf && writeBuf + raw == writeBuf;
      assert first + raw == first && confirmed + pending == first;
    }

    lemma RequestNonEmpty(body: Bytes)
      ensures Fake.Request(host, port, body, nonce) != []
    {
    }

    /** Clears `pending_input` once the request body has been reported. */
    method Report()
      requires WriteValid() && writeBuf == [] && pending == first && |first| == pendingInput
      modifies this`pendingInput, this`pending, this`confirmed
      ensures WriteValid() && pendingInput == 0 && pending == [] && confirmed == old(confirmed) + first
    {
      hide Fake.Request;
      pendingInput := 0;
      confirmed, pending := confirmed + pending, [];
      assert confirmed + [] == confirmed;
    }

    /** The books after `b` was passed through: a request body still unreported is orphaned. */
    ghost method PassedThrough(b: Bytes)
      requires writeBuf == [] && writeBufOff == 0 && !firstRequest
      requires inner.sent == Fake.Request(host, port, first, nonce) + raw + b
      requires (pending != [] ==> raw == [] && pending == first && |pending| == pendingInput)
      requires Accounted(first + raw, confirmed, pending, orphaned)
      modifies this`raw, this`pending, this`confirmed, this`orphaned
      ensures WriteValid() && raw == old(raw) + b && confirmed == old(confirmed) + b
      ensures b != [] ==> pending == [] && orphaned == old(orphaned) + |old(pending)|
      ensures b == [] ==> pending == old(pending) && orphaned == old(orphaned)
    {
      hide Fake.Request;
      var request := Fake.Request(host, port, first, nonce);
      if b == [] {
        assert raw + b == raw && confirmed + b == confirmed && request + raw + b == request + raw;
      } else {
        assert request + raw + b == request + (raw + b);
        assert orphaned == 0 && pending == [] ==> first + (raw + b) == first + raw + b == confirmed + b + [];
        orphaned, pending := orphaned + |pending|, [];
      }
      raw, confirmed := raw + b, confirmed + b;
      assert inner.sent + [] == inner.sent;
    }

    /** `poll_flush` and `poll_shutdown`: drain, then pass the call on. A drained body stays unreported. */
    method PollFlush() returns (r: Poll<()>)
      requires WriteValid()
      modifies this`writeBuf, this`writeBufOff
      modifies inner`writeScript, inner`sent, inner`controlScript
      ensures WriteValid()
      ensures r.Ready? ==> writeBuf == []
      ensures var (outcome, taken, rest) := Drain(old(inner.writeScript), |old(writeBuf)| - old(writeBufOff));
              && inner.writeScript == rest
              && (writeBuf == [] <==> outcome.Ready?) && (!outcome.Ready? ==> r == outcome)
              && |writeBuf| - writeBufOff == |old(writeBuf)| - old(writeBufOff) - taken
              && inner.controlScript == (if outcome.Ready? then Tail(old(inner.controlScript))
                                         else old(inner.controlScript))
      ensures writeBuf == [] ==> r == if old(inner.controlScript) == [] then Pending else old(inner.controlScript)[0]
    {
      hide Fake.Request, Drain;
      DrainNothing(inner.writeScript);
      if writeBuf != [] {
        r := PollDrainWriteBuf();
        if !r.Ready? {
          return;
        }
      }
      r := inner.PollControl();
    }
  }
}
