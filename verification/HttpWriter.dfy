/** Runs of the HTTP writer: over which scripts everything gets out, and the two ways to break
    the guard. */
module HttpWriter {
  import opened Streams
  import opened OptionType
  import opened WriteLedger
  import opened Writers
  import opened HttpRequest

  // ---- When a run gets everything out ----

  /** What one write has to send: the unsent bytes, the whole request, or its own buffer. */
  function Load(host: Bytes, port: nat, nonce: Nonce, w: Writer, buf: Bytes): nat {
    if w.unsent > 0 then w.unsent else if w.chunks == [] then |Request(host, port, buf, nonce)| else |buf|
  }

  /** One write over a steady script: it answers, passing on at least one byte of a buffer
      that has any, or stalls once, and leaves takes enough for what it did not send. */
  lemma SteadyWrite(host: Bytes, port: nat, nonce: Nonce, w: Writer, buf: Bytes, spare: nat)
    requires Steady(w.script) && Takes(w.script) >= Load(host, port, nonce, w, buf) + spare
    ensures var (w', answer) := AfterWrite(Http(host, port, nonce), w, buf);
            && Steady(w'.script) && !answer.Failed?
            && (w.unsent > 0 || w.chunks == [] ==> Takes(w'.script) >= w'.unsent + spare)
            && (w.unsent == 0 && w.chunks != [] && buf != [] ==>
                  && w'.unsent == 0 && (answer.Ready? ==> 0 < answer.value <= |buf|)
                  && Takes(w'.script) >= |buf| + spare - (if answer.Ready? then answer.value else 0))
            && (w.unsent > 0 || w.chunks == [] || buf != [] ==>
                  Stalls(w'.script) + (if answer.Ready? then 0 else 1) == Stalls(w.script))
  {
    hide Request;
    if w.unsent > 0 {
      SteadyDrain(w.script, w.unsent);
    } else if w.chunks == [] {
      SteadyDrain(w.script, |Request(host, port, buf, nonce)|);
    } else if w.script != [] {
      assert w.script[0] in w.script;
    }
  }

  // ---- Breaking the guard ----

  lemma RequestSize(host: Bytes, port: nat, nonce: Nonce, body: Bytes)
    ensures Request(host, port, body, nonce) != []
  {
  }

  /** A first call that finds the inner stream busy: the request is framed and waits. */
  lemma BusyWrite(host: Bytes, port: nat, nonce: Nonce, buf: Bytes, rest: seq<WriteEvent>, controls: seq<Poll<()>>)
    ensures AfterWrite(Http(host, port, nonce), Fresh([WritePending] + rest, controls), buf) ==
            (Writer([buf], [], buf, |Request(host, port, buf, nonce)|, rest, controls), Pending)
  {
    RequestSize(host, port, nonce, buf);
    hide Request;
    DrainStep([WritePending] + rest, |Request(host, port, buf, nonce)|);
    assert ([WritePending] + rest)[1..] == rest;
  }

  /** A flush between Pending and the retry: the retried bytes are sent twice, as the body of
      the request and behind it, and the caller is told of them once. */
  lemma FlushThenRetryPassesTwice(host: Bytes, port: nat, nonce: Nonce, chunk: Bytes, room: nat)
    requires chunk != [] && room >= |Request(host, port, chunk, nonce)| + |chunk|
    ensures var w := Fresh([WritePending, Accept(room), Accept(room)], [Ready(())]);
            var ops := [Write(chunk), Flush, Write(chunk)];
            var (w', answers) := Ran(Http(host, port, nonce), w, ops);
            && answers == [Pending, Ready(0), Ready(|chunk|)] && Told(ops, answers) == Some(chunk)
            && w'.chunks == [chunk] && w'.raw == chunk && w'.unsent == 0
            && !GuardedAt(Http(host, port, nonce), w, ops, 2)
  {
    RequestSize(host, port, nonce, chunk);
    hide Request, Ran, Told, Drain;
    var rest := [Accept(room), Accept(room)];
    assert [WritePending, Accept(room), Accept(room)] == [WritePending] + rest;
    var w, ops := Fresh([WritePending] + rest, [Ready(())]), [Write(chunk), Flush, Write(chunk)];
    assert ops[..3] == ops;
    BusyWrite(host, port, nonce, chunk, rest, [Ready(())]);
    RanSteps(Http(host, port, nonce), w, ops);
    DrainAll(rest, |Request(host, port, chunk, nonce)|);
    assert rest[1..] == [Accept(room)] && [Accept(room)][1..] == [];
    assert [] + chunk == chunk && chunk[..|chunk|] == chunk;
  }

  /** A retry with other bytes, without any flush: the first buffer is sent, and the caller is
      not told so, but that its second buffer was, or more than it. */
  lemma OtherRetryMisleads(host: Bytes, port: nat, nonce: Nonce, chunk: Bytes, other: Bytes, room: nat)
    requires room >= |Request(host, port, chunk, nonce)| && !(chunk <= other)
    ensures var w := Fresh([WritePending, Accept(room)], []);
            var ops := [Write(chunk), Write(other)];
            var (w', answers) := Ran(Http(host, port, nonce), w, ops);
            && answers == [Pending, Ready(|chunk|)] && Told(ops, answers) != Some(chunk)
            && w'.chunks == [chunk] && w'.raw == [] && w'.unsent == 0
            && !GuardedAt(Http(host, port, nonce), w, ops, 1)
  {
    RequestSize(host, port, nonce, chunk);
    hide Request, Ran, Told, Drain;
    var rest := [Accept(room)];
    assert [WritePending, Accept(room)] == [WritePending] + rest;
    var w, ops := Fresh([WritePending] + rest, []), [Write(chunk), Write(other)];
    assert ops[..2] == ops;
    BusyWrite(host, port, nonce, chunk, rest, []);
    RanSteps(Http(host, port, nonce), w, ops);
    DrainAll(rest, |Request(host, port, chunk, nonce)|);
    assert |chunk| <= |other| ==> [] + other[..|chunk|] == other[..|chunk|];
  }
}
