/** Whole runs of the TLS wrapper, over every script of the stream below it. */
module TlsSessions {
  import opened Streams
  import opened TlsFraming
  import opened TlsWire
  import opened Accounts
  import opened WriteLedger
  import opened Writers
  import opened TlsWriter
  import opened OptionType
  import opened TlsObfs
  import Fake = ClientHello

  /** Reading a new wrapper to the end delivers the one-shot deframing of everything the peer
      sent, for every chunking, every Pending and every choice of buffer sizes. */
  method ReadToEnd(t: TlsObfs, room: nat -> nat) returns (got: Bytes)
    requires t.ReadValid() && t.inner.received == [] && !t.inner.ended
    requires forall k :: room(k) > 0
    modifies t`readPhase, t`lenProgress, t`delivered, t.lenBuf
    modifies t.inner`readScript, t.inner`received, t.inner`ended
    modifies t.inner`readPolls, t.inner`readStalls, t.inner`lastRead
    ensures t.ReadValid() && t.inner.received == Ahead(old(t.inner.readScript))
    ensures got == t.delivered == Deframe(TLS_FIRST_RESPONSE_DISCARD, Ahead(old(t.inner.readScript)))
  {
    hide Deframe, Weight, TlsObfs.ReadValid, TlsObfs.WriteValid;
    ghost var script := t.inner.readScript;
    got := [];
    t.Refines();
    NothingDeframed();
    assert t.inner.Total() == Ahead(script) by { assert [] + Ahead(script) == Ahead(script); }
    var k := 0;
    while true
      invariant t.ReadValid() && got == t.delivered
      invariant !t.inner.ended && t.inner.Total() == Ahead(script)
      decreases Weight(t.inner.readScript)
    {
      var buf := new ReadBuf(room(k));
      k := k + 1;
      var exhausted := t.inner.readScript == [];
      var r := t.PollRead(buf);
      got := got + buf.filled;
      if r.Failed? || (r.Ready? && buf.filled == []) || exhausted {
        break;
      }
    }
    t.Refines();
    assert t.inner.received + [] == t.inner.received;
  }

  lemma NothingDeframed()
    ensures Deframe(TLS_FIRST_RESPONSE_DISCARD, []) == []
  {
  }

  /** A peer that frames its chunks as the client does, behind any 102 bytes of fake
      handshake, is read back exactly. */
  method ReadReply(t: TlsObfs, room: nat -> nat, ghost handshake: Bytes, ghost chunks: seq<Bytes>) returns (got: Bytes)
    requires t.ReadValid() && t.inner.received == [] && !t.inner.ended
    requires forall k :: room(k) > 0
    requires |handshake| == 102 && Ahead(t.inner.readScript) == handshake + Records(chunks)
    requires forall c :: c in chunks ==> |c| <= TLS_CHUNK_SIZE
    modifies t`readPhase, t`lenProgress, t`delivered, t.lenBuf
    modifies t.inner`readScript, t.inner`received, t.inner`ended
    modifies t.inner`readPolls, t.inner`readStalls, t.inner`lastRead
    ensures t.ReadValid() && got == t.delivered == Concat(chunks)
  {
    hide TlsObfs.ReadValid;
    got := ReadToEnd(t, room);
    WriterReaderAgree(handshake, chunks);
  }

  /** One call, on the wrapper and on values. */
  method Call(t: TlsObfs, op: WriteOp) returns (answer: Poll<nat>)
    requires t.WriteValid()
    modifies t`firstRequest, t`writeBuf, t`writeBufOff, t`pendingInput, t`chunks, t`pending, t`confirmed, t`orphaned
    modifies t.inner`writeScript, t.inner`sent, t.inner`controlScript
    ensures t.WriteValid() && (t.Writer(), answer) == After(Tls(t.server, t.nonce), old(t.Writer()), op)
  {
    hide Frames, Framed, Drain, Accounted;
    DrainNothing(t.inner.writeScript);
    match op
    case Write(buf) =>
      answer := t.PollWrite(buf);
    case Flush =>
      var flushed := t.PollFlush();
      answer := Moved(flushed, 0);
  }

  /** Any run of writes and flushes from a new wrapper does what the same calls do on values.
      So the caller is told the truth after each of them if and only if every write met its
      guard. */
  method WriteRun(t: TlsObfs, ops: seq<WriteOp>) returns (answers: seq<Poll<nat>>)
    requires t.WriteValid() && t.chunks == [] && t.writeBuf == []
    modifies t`firstRequest, t`writeBuf, t`writeBufOff, t`pendingInput, t`chunks, t`pending, t`confirmed, t`orphaned
    modifies t.inner`writeScript, t.inner`sent, t.inner`controlScript
    ensures t.WriteValid() && (t.Writer(), answers) == Ran(Tls(t.server, t.nonce), old(t.Writer()), ops)
    ensures t.writeBufOff <= |t.writeBuf|
            && t.inner.sent + t.writeBuf[t.writeBufOff..] == Frames(t.server, t.nonce, t.chunks)
    ensures old(t.Writer()) == Fresh(old(t.inner.writeScript), old(t.inner.controlScript))
    ensures (forall k :: 0 <= k <= |ops| ==> TruthfulRun(Tls(t.server, t.nonce), old(t.Writer()), ops[..k])) <==>
            (forall k :: 0 <= k < |ops| ==> GuardedAt(Tls(t.server, t.nonce), old(t.Writer()), ops, k))
  {
    hide Frames, After, Ran, TruthfulRun, GuardedAt, TlsObfs.WriteValid;
    ghost var start := t.Writer();
    NewWriter(t);
    TruthfulIff(Tls(t.server, t.nonce), t.inner.writeScript, t.inner.controlScript, ops);
    RanNothing(Tls(t.server, t.nonce), start);
    answers := [];
    assert ops[..0] == [];
    for k := 0 to |ops|
      invariant t.WriteValid() && (t.Writer(), answers) == Ran(Tls(t.server, t.nonce), start, ops[..k])
    {
      RanSnoc(Tls(t.server, t.nonce), start, ops[..k], ops[k]);
      assert ops[..k + 1] == ops[..k] + [ops[k]];
      var answer := Call(t, ops[k]);
      answers := answers + [answer];
    }
    assert ops[..|ops|] == ops;
    t.Books();
  }

  lemma NewWriter(t: TlsObfs)
    requires t.WriteValid() && t.chunks == [] && t.writeBuf == []
    ensures t.Writer() == Fresh(t.inner.writeScript, t.inner.controlScript)
    ensures t.orphaned == 0 && t.confirmed == [] && t.pendingInput == 0
  {
  }

  /** The guard is needed: over this script, Pending, a flush that drains, and the retry of
      the same chunk put that chunk on the wire twice. */
  method FlushThenRetrySendsTwice(t: TlsObfs, chunk: Bytes, room: nat) returns (answers: seq<Poll<nat>>)
    requires t.WriteValid() && t.chunks == [] && t.writeBuf == []
    requires 0 < |chunk| <= TLS_CHUNK_SIZE && room >= 217 + |chunk| + |t.server|
    requires t.inner.writeScript == [WritePending, Accept(room), Accept(room)] && t.inner.controlScript == [Ready(())]
    modifies t`firstRequest, t`writeBuf, t`writeBufOff, t`pendingInput, t`chunks, t`pending, t`confirmed, t`orphaned
    modifies t.inner`writeScript, t.inner`sent, t.inner`controlScript
    ensures answers == [Pending, Ready(0), Ready(|chunk|)]
    ensures t.inner.sent == Frames(t.server, t.nonce, [chunk, chunk])
  {
    hide Ran, TruthfulRun, GuardedAt, Frames, TlsObfs.WriteValid;
    FlushThenRetryFramesTwice(t.server, t.nonce, chunk, room);
    answers := WriteRun(t, [Write(chunk), Flush, Write(chunk)]);
    t.Books();
    assert t.inner.sent + [] == t.inner.sent;
  }

  /** One call under the caller's discipline: a buffer that starts with the waiting chunk,
      and no chunk drained behind the caller's back. The answers then never lose or repeat
      a byte. */
  method OfferAgain(t: TlsObfs, buf: Bytes) returns (r: Poll<nat>)
    requires t.WriteValid() && t.orphaned == 0 && Sized(t.chunks)
    requires t.pending <= buf && (t.writeBuf == [] ==> t.pending == [])
    modifies t`firstRequest, t`writeBuf, t`writeBufOff, t`pendingInput, t`chunks, t`pending, t`confirmed, t`orphaned
    modifies t.inner`writeScript, t.inner`sent
    ensures t.WriteValid() && (t.Writer(), r) == AfterWrite(Tls(t.server, t.nonce), old(t.Writer()), buf)
    ensures t.orphaned == 0 && Sized(t.chunks)
    ensures t.pending <= buf && (t.writeBuf == [] <==> t.pending == []) && |t.pending| == t.pendingInput
    ensures r.Ready? ==> r.value <= |buf| && t.confirmed == old(t.confirmed) + buf[..r.value] && t.pending == []
    ensures !r.Ready? ==> t.confirmed == old(t.confirmed)
    ensures !r.Ready? && old(t.pending) == [] ==> t.pending == ChunkOf(buf)
    ensures !r.Ready? && old(t.pending) != [] ==> t.pending == old(t.pending)
  {
    hide Frames, Framed, Drain, Concat, Sized, TlsObfs.WriteValid, TlsObfs.ReadValid;
    SizedSnoc(t.chunks, buf[..Min(|buf|, TLS_CHUNK_SIZE)]);
    t.Books();
    DrainNothing(t.inner.writeScript);
    r := t.PollWrite(buf);
    t.Books();
  }

  /** Of `src`, `reported` bytes were reported as written and `waiting` more are framed. */
  ghost predicate Copying(t: TlsObfs, src: Bytes, reported: nat, waiting: nat)
    reads t, t.lenBuf, t.inner
  {
    && t.WriteValid() && t.orphaned == 0 && (t.writeBuf == [] <==> t.pending == []) && Sized(t.chunks)
    && waiting == t.pendingInput == |t.pending| && reported + waiting <= |src|
    && t.confirmed == src[..reported] && t.pending == src[reported..reported + waiting]
  }

  /** One step of copying: the waiting chunk is offered again, or up to `offered` new bytes. */
  method CopyStep(t: TlsObfs, src: Bytes, reported: nat, waiting: nat, offered: nat)
    returns (buf: Bytes, r: Poll<nat>)
    requires Copying(t, src, reported, waiting)
    modifies t`firstRequest, t`writeBuf, t`writeBufOff, t`pendingInput, t`chunks, t`pending, t`confirmed, t`orphaned
    modifies t.inner`writeScript, t.inner`sent
    ensures buf == src[reported..reported + Max(waiting, Min(offered, |src| - reported))]
    ensures t.WriteValid() && (t.Writer(), r) == AfterWrite(Tls(t.server, t.nonce), old(t.Writer()), buf)
    ensures r.Ready? ==> r.value <= |buf| && src[..reported] + buf[..r.value] == src[..reported + r.value]
    ensures Copying(t, src, reported + (if r.Ready? then r.value else 0), t.pendingInput)
    ensures (if r.Ready? then r.value else 0) + t.pendingInput ==
            waiting + if old(t.writeBuf) == [] then |ChunkOf(buf)| else 0
  {
    hide Frames, Framed, Drain, Concat, Sized, TlsObfs.WriteValid, TlsObfs.ReadValid, AfterWrite;
    var hi := reported + Max(waiting, Min(offered, |src| - reported));
    buf := src[reported..hi];
    t.Books();
    WriteAmount(t.server, t.nonce, t.Writer(), buf);
    r := OfferAgain(t, buf);
    Slices(src, reported, hi, if r.Ready? then r.value else t.pendingInput);
  }

  /** What a write answers for, and leaves waiting, is what it frames and finds waiting. */
  lemma WriteAmount(server: Bytes, nonce: Fake.Nonce, w: Writer, buf: Bytes)
    requires w.unsent == 0 ==> w.waiting == []
    ensures var (w', answer) := AfterWrite(Tls(server, nonce), w, buf);
            (if answer.Ready? then answer.value else 0) + |w'.waiting| ==
            |w.waiting| + if w.unsent == 0 then |ChunkOf(buf)| else 0
  {
    hide Framed, Drain;
  }

  /** Copying `src` through a new wrapper the way `copy_bidirectional` does: every retry after
      Pending offers at least the waiting chunk, and no flush comes in between. The caller is
      told the truth at every point, and over a script that never fails and takes enough,
      everything gets out. */
  method CopyOut(t: TlsObfs, src: Bytes, offer: nat -> nat, steps: nat)
    returns (reported: nat, waiting: nat, ghost ops: seq<WriteOp>, ghost answers: seq<Poll<nat>>)
    requires t.WriteValid() && t.chunks == [] && t.writeBuf == []
    modifies t`firstRequest, t`writeBuf, t`writeBufOff, t`pendingInput, t`chunks, t`pending, t`confirmed, t`orphaned
    modifies t.inner`writeScript, t.inner`sent
    // What was called, and what came of it.
    ensures t.WriteValid() && (t.Writer(), answers) == Ran(Tls(t.server, t.nonce), old(t.Writer()), ops)
    ensures |ops| == steps && reported + waiting <= |src| && Told(ops, answers) == Some(src[..reported])
    ensures forall k :: 0 <= k < steps ==> Discipline(Tls(t.server, t.nonce), old(t.Writer()), src, offer(k), ops, k)
    ensures Concat(t.chunks) == src[..reported + waiting]
    ensures t.writeBuf == [] <==> waiting == 0
    // Whenever nothing is left to send, the server has exactly the bytes reported as written.
    ensures t.writeBuf == [] && t.chunks != [] && |t.server| <= 48939 ==>
              ServerPayload(t.inner.sent) == Some(src[..reported])
    // Everything gets out.
    ensures Enough(old(t.inner.writeScript), t.server, src, steps) && (forall k :: offer(k) > 0) ==>
              reported == |src| && t.writeBuf == []
  {
    hide Frames, Framed, Drain, ServerPayload, Concat, Sized, TlsObfs.WriteValid, TlsObfs.ReadValid, Copying;
    hide AfterWrite, Ran, Told, Steady, Takes, Stalls, TakesFor, Enough, Left, Discipline, Course;
    ghost var mode, start := Tls(t.server, t.nonce), t.Writer();
    ghost var steady := Enough(start.script, t.server, src, steps) && forall k :: offer(k) > 0;
    reported, waiting, ops, answers := 0, 0, [], [];
    CopyingNothing(t, src);
    CourseStart(mode, start, src, offer);
    if steady {
      EnoughAtFirst(start.script, t.server, src, steps);
    }
    for k := 0 to steps
      invariant Copying(t, src, reported, waiting) && t.WriteValid() && |ops| == k && reported + waiting <= |src|
      invariant Course(mode, start, src, offer, ops, answers, t.Writer(), reported)
      invariant steady ==> Left(t.Writer(), t.server, |src| - reported - waiting)
      invariant steady ==> reported == |src| || k + Stalls(t.inner.writeScript) <= reported + Stalls(start.script)
    {
      ghost var before := t.Writer();
      CopyingNow(t, src, reported, waiting);
      var buf, r := CopyStep(t, src, reported, waiting, offer(k));
      if steady {
        Progress(before, t.server, t.nonce, buf, |src| - reported - waiting);
      }
      CopyingNow(t, src, reported + (if r.Ready? then r.value else 0), t.pendingInput);
      CourseStep(mode, start, src, offer, ops, answers, before, reported, buf, t.Writer(), r);
      ops, answers := ops + [Write(buf)], answers + [r];
      reported := reported + if r.Ready? then r.value else 0;
      waiting := t.pendingInput;
    }
    CopyingNow(t, src, reported, waiting);
    CopyingEnd(t, src, reported, waiting);
    CourseEnd(mode, start, src, offer, ops, answers, t.Writer(), reported);
    if steady {
      EnoughAtLast(start.script, t.server, src, steps);
    }
  }

  lemma CopyingNothing(t: TlsObfs, src: Bytes)
    requires t.WriteValid() && t.chunks == [] && t.writeBuf == []
    ensures Copying(t, src, 0, 0)
    ensures Told([], []) == Some(src[..0]) && t.Writer() == Fresh(t.inner.writeScript, t.inner.controlScript)
  {
    NewWriter(t);
    SizedNone();
  }

  lemma CopyingNow(t: TlsObfs, src: Bytes, reported: nat, waiting: nat)
    requires Copying(t, src, reported, waiting)
    ensures t.WriteValid() && reported + waiting <= |src| && waiting == t.pendingInput
    ensures t.writeBuf == [] <==> waiting == 0
    ensures var w := t.Writer(); (w.unsent == 0 <==> w.waiting == []) && |w.waiting| == waiting && w.chunks == t.chunks
    ensures t.writeBuf == [] <==> t.Writer().unsent == 0
  {
    hide Frames, Sized, Concat;
    t.Books();
  }

  lemma CopyingEnd(t: TlsObfs, src: Bytes, reported: nat, waiting: nat)
    requires Copying(t, src, reported, waiting)
    ensures reported + waiting <= |src| && Concat(t.chunks) == src[..reported + waiting]
    ensures t.writeBuf == [] && t.chunks != [] && |t.server| <= 48939 ==>
              ServerPayload(t.inner.sent) == Some(src[..reported])
  {
    hide Frames, ServerPayload, Sized, Concat;
    t.Books();
    Slices(src, reported, reported + waiting, waiting);
    AllSent(t.server, t.nonce, t.chunks, t.inner.sent, t.writeBuf[t.writeBufOff..]);
  }

  /** A script that never fails, with takes for every byte, and steps for every byte and
      every stall. */
  predicate Enough(script: seq<WriteEvent>, server: Bytes, src: Bytes, steps: nat) {
    && Steady(script) && Takes(script) >= TakesFor(|src|, server)
    && steps >= |src| + Stalls(script)
  }

  /** Takes for what is unsent and for `n` more bytes are left. */
  predicate Left(w: Writer, server: Bytes, n: nat) {
    Steady(w.script) && Takes(w.script) >= w.unsent + TakesFor(n, server)
  }

  lemma EnoughAtFirst(script: seq<WriteEvent>, server: Bytes, src: Bytes, steps: nat)
    requires Enough(script, server, src, steps)
    ensures forall controls :: Left(Fresh(script, controls), server, |src|)
  {
  }

  lemma EnoughAtLast(script: seq<WriteEvent>, server: Bytes, src: Bytes, steps: nat)
    requires Enough(script, server, src, steps)
    ensures steps >= |src| + Stalls(script)
  {
  }

  lemma Progress(w: Writer, server: Bytes, nonce: Fake.Nonce, buf: Bytes, rest: nat)
    requires Left(w, server, rest) && (w.unsent == 0 <==> w.waiting == [])
    requires w.unsent == 0 ==> |ChunkOf(buf)| <= rest
    ensures var (w', answer) := AfterWrite(Tls(server, nonce), w, buf);
            && Left(w', server, if w.unsent > 0 then rest else rest - |ChunkOf(buf)|)
            && Stalls(w'.script) + (if answer.Ready? then 0 else 1) == Stalls(w.script)
            && (answer.Ready? && (w.unsent > 0 || buf != []) ==> answer.value > 0)
  {
    if w.unsent == 0 && buf == [] {
      assert AfterWrite(Tls(server, nonce), w, buf) == (w, Ready(0));
      return;
    }
    hide AfterWrite, Steady, Takes, Stalls, TakesFor;
    if w.unsent > 0 {
      SteadyWrite(server, nonce, w, buf, TakesFor(rest, server));
    } else {
      var n := |ChunkOf(buf)|;
      TakesForSum(n, rest - n, server);
      SteadyWrite(server, nonce, w, buf, TakesFor(rest - n, server));
    }
  }

  predicate Sized(chunks: seq<Bytes>) {
    forall c :: c in chunks ==> 0 < |c| <= TLS_CHUNK_SIZE
  }

  lemma SizedNone()
    ensures Sized([])
  {
  }

  lemma SizedSnoc(chunks: seq<Bytes>, c: Bytes)
    requires Sized(chunks)
    ensures 0 < |c| <= TLS_CHUNK_SIZE ==> Sized(chunks + [c])
  {
  }

  lemma AllSent(server: Bytes, nonce: Fake.Nonce, chunks: seq<Bytes>, sent: Bytes, unsent: Bytes)
    requires sent + unsent == Frames(server, nonce, chunks)
    requires Sized(chunks)
    ensures unsent == [] && chunks != [] && |server| <= 48939 ==> ServerPayload(sent) == Some(Concat(chunks))
  {
    hide ServerPayload, Frames;
    if unsent == [] && chunks != [] && |server| <= 48939 {
      assert sent + [] == sent;
      ServerRecovers(server, nonce, chunks);
    }
  }
}
