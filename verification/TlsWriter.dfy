/** Runs of the TLS writer: over which scripts everything gets out, and the two ways to break
    the guard. */
module TlsWriter {
  import opened Streams
  import opened OptionType
  import opened TlsFraming
  import opened TlsWire
  import opened WriteLedger
  import opened Writers
  import opened ClientHello

  // ---- When a run gets everything out ----

  /** Takes that suffice for `n` bytes, even with a hello or a record header for each. */
  function TakesFor(n: nat, server: Bytes): nat {
    n * (218 + |server|)
  }

  lemma TakesForSum(n: nat, m: nat, server: Bytes)
    ensures TakesFor(n + m, server) == TakesFor(n, server) + TakesFor(m, server)
  {
  }

  lemma FrameFits(server: Bytes, nonce: Nonce, first: bool, c: Bytes)
    requires c != []
    ensures |Framed(server, nonce, first, c)| <= TakesFor(|c|, server)
  {
    hide Framed;
    FramedSize(server, nonce, first, c);
    var n, k := |c|, 217 + |server|;
    assert n * k >= k;
    assert n * (k + 1) == n * k + n;
  }

  /** One write over a steady script: it answers for at least one byte or stalls once, and
      leaves takes enough for what it did not send. */
  lemma SteadyWrite(server: Bytes, nonce: Nonce, w: Writer, buf: Bytes, spare: nat)
    requires Steady(w.script) && (w.unsent == 0 <==> w.waiting == []) && (w.unsent == 0 ==> buf != [])
    requires Takes(w.script) >=
             (if w.unsent > 0 then w.unsent else TakesFor(|ChunkOf(buf)|, server)) + spare
    ensures var (w', answer) := AfterWrite(Tls(server, nonce), w, buf);
            && Steady(w'.script) && Takes(w'.script) >= w'.unsent + spare
            && Stalls(w'.script) + (if answer.Ready? then 0 else 1) == Stalls(w.script)
            && (answer.Ready? ==> answer.value > 0)
  {
    hide Framed, Steady, Takes, Stalls, TakesFor;
    if w.unsent > 0 {
      SteadyDrain(w.script, w.unsent);
    } else {
      FrameFits(server, nonce, w.chunks == [], ChunkOf(buf));
      SteadyDrain(w.script, |Framed(server, nonce, w.chunks == [], ChunkOf(buf))|);
    }
  }

  lemma FramedSize(server: Bytes, nonce: Nonce, first: bool, c: Bytes)
    ensures 0 < |Framed(server, nonce, first, c)| <= 217 + |c| + |server|
  {
  }

  /** A first call that finds the inner stream busy: its chunk is framed and waits. */
  lemma BusyWrite(server: Bytes, nonce: Nonce, chunk: Bytes, rest: seq<WriteEvent>, controls: seq<Poll<()>>)
    requires 0 < |chunk| <= TLS_CHUNK_SIZE
    ensures var size := |Framed(server, nonce, true, chunk)|;
            AfterWrite(Tls(server, nonce), Fresh([WritePending] + rest, controls), chunk) ==
            (Writer([chunk], [], chunk, size, rest, controls), Pending)
    ensures ChunkOf(chunk) == chunk
  {
    hide Framed;
    FramedSize(server, nonce, true, chunk);
    assert ChunkOf(chunk) == chunk && [] + [chunk] == [chunk];
    DrainStep([WritePending] + rest, |Framed(server, nonce, true, chunk)|);
    assert ([WritePending] + rest)[1..] == rest;
  }

  /** A flush between Pending and the retry breaks the guard: every chunk retried that way
      is framed twice, and the caller is told of it once. */
  lemma FlushThenRetryFramesTwice(server: Bytes, nonce: Nonce, chunk: Bytes, room: nat)
    requires 0 < |chunk| <= TLS_CHUNK_SIZE && room >= 217 + |chunk| + |server|
    ensures var w := Fresh([WritePending, Accept(room), Accept(room)], [Ready(())]);
            var ops := [Write(chunk), Flush, Write(chunk)];
            var (w', answers) := Ran(Tls(server, nonce), w, ops);
            && answers == [Pending, Ready(0), Ready(|chunk|)] && Told(ops, answers) == Some(chunk)
            && w'.chunks == [chunk, chunk] && w'.unsent == 0
            && !GuardedAt(Tls(server, nonce), w, ops, 2)
  {
    hide Framed, Ran, Told, Drain;
    var rest := [Accept(room), Accept(room)];
    assert [WritePending, Accept(room), Accept(room)] == [WritePending] + rest;
    var w, ops := Fresh([WritePending] + rest, [Ready(())]), [Write(chunk), Flush, Write(chunk)];
    assert ops[..3] == ops;
    BusyWrite(server, nonce, chunk, rest, [Ready(())]);
    RanSteps(Tls(server, nonce), w, ops);
    FramedSize(server, nonce, true, chunk);
    DrainAll(rest, |Framed(server, nonce, true, chunk)|);
    var w2 := AfterFlush(After(Tls(server, nonce), w, ops[0]).0).0;
    assert rest[1..] == [Accept(room)];
    FramedSize(server, nonce, false, chunk);
    DrainAll([Accept(room)], |Framed(server, nonce, false, chunk)|);
    assert [chunk] + [chunk] == [chunk, chunk] && [] + chunk == chunk && chunk[..|chunk|] == chunk;
  }

  /** A retry with other bytes breaks it without any flush: the chunk of the first call is
      sent, and the caller is not told so, but that its second buffer was, or more than it. */
  lemma OtherRetryMisleads(server: Bytes, nonce: Nonce, chunk: Bytes, other: Bytes, room: nat)
    requires 0 < |chunk| <= TLS_CHUNK_SIZE && room >= 217 + |chunk| + |server| && !(chunk <= other)
    ensures var w := Fresh([WritePending, Accept(room)], []);
            var ops := [Write(chunk), Write(other)];
            var (w', answers) := Ran(Tls(server, nonce), w, ops);
            && answers == [Pending, Ready(|chunk|)] && Told(ops, answers) != Some(chunk)
            && w'.chunks == [chunk] && w'.unsent == 0
            && !GuardedAt(Tls(server, nonce), w, ops, 1)
  {
    hide Framed, Ran, Told, Drain;
    var rest := [Accept(room)];
    assert [WritePending, Accept(room)] == [WritePending] + rest;
    var w, ops := Fresh([WritePending] + rest, []), [Write(chunk), Write(other)];
    assert ops[..2] == ops;
    BusyWrite(server, nonce, chunk, rest, []);
    RanSteps(Tls(server, nonce), w, ops);
    FramedSize(server, nonce, true, chunk);
    DrainAll(rest, |Framed(server, nonce, true, chunk)|);
    assert |chunk| <= |other| ==> [] + other[..|chunk|] == other[..|chunk|];
  }
}
