/** The write halves of both wrappers on values: what every call does to the bytes framed, the
    bytes waiting to be answered for and the unsent bytes, and when the answers tell the
    caller the truth. */
module Writers {
  import opened Streams
  import opened OptionType
  import opened TlsFraming
  import opened TlsWire
  import opened WriteLedger
  import FakeHello = ClientHello
  import FakeGet = HttpRequest

  datatype Mode = Tls(server: Bytes, helloNonce: FakeHello.Nonce)
                | Http(host: Bytes, port: nat, requestNonce: FakeGet.Nonce)

  /** The chunks framed so far (in HTTP mode the body of the request alone), the bytes passed
      through behind them, those framed that no answer has covered yet, how many framed bytes
      are still unsent, and what the inner stream will answer. */
  datatype Writer = Writer(chunks: seq<Bytes>, raw: Bytes, waiting: Bytes, unsent: nat, script: seq<WriteEvent>,
                           controls: seq<Poll<()>>)

  function Payload(w: Writer): Bytes {
    Concat(w.chunks) + w.raw
  }

  function Fresh(script: seq<WriteEvent>, controls: seq<Poll<()>>): Writer {
    Writer([], [], [], 0, script, controls)
  }

  function ChunkOf(buf: Bytes): Bytes {
    buf[..Min(|buf|, TLS_CHUNK_SIZE)]
  }

  /** Drains `size` bytes for `chunk` and answers for it. */
  function Drained(w: Writer, chunk: Bytes, size: nat): (Writer, Poll<nat>) {
    var (outcome, taken, rest) := Drain(w.script, size);
    (w.(waiting := if outcome.Ready? then [] else chunk, unsent := size - taken, script := rest),
     Moved(outcome, |chunk|))
  }

  function AfterWrite(mode: Mode, w: Writer, buf: Bytes): (Writer, Poll<nat>) {
    match mode
    case Tls(server, nonce) => AfterTlsWrite(server, nonce, w, buf)
    case Http(host, port, nonce) => AfterHttpWrite(host, port, nonce, w, buf)
  }

  function AfterTlsWrite(server: Bytes, nonce: FakeHello.Nonce, w: Writer, buf: Bytes): (Writer, Poll<nat>) {
    if w.unsent > 0 then Drained(w, w.waiting, w.unsent)
    else if buf == [] then (w, Ready(0))
    else
      var chunk := ChunkOf(buf);
      Drained(w.(chunks := w.chunks + [chunk]), chunk, |Framed(server, nonce, w.chunks == [], chunk)|)
  }

  function AfterHttpWrite(host: Bytes, port: nat, nonce: FakeGet.Nonce, w: Writer, buf: Bytes): (Writer, Poll<nat>) {
    if w.unsent > 0 then Drained(w, w.waiting, w.unsent)
    else if w.chunks == [] then Drained(w.(chunks := [buf]), buf, |FakeGet.Request(host, port, buf, nonce)|)
    else
      var answer := NextWrite(w.script, |buf|);
      var n := if answer.Ready? then answer.value else 0;
      (w.(raw := w.raw + buf[..n], waiting := if n > 0 then [] else w.waiting, script := Tail(w.script)), answer)
  }

  function AfterFlush(w: Writer): (Writer, Poll<nat>) {
    var (outcome, taken, rest) := Drain(w.script, w.unsent);
    var drained := w.(unsent := w.unsent - taken, script := rest);
    if !outcome.Ready? then (drained, Moved(outcome, 0))
    else (drained.(controls := Tail(w.controls)), Moved(if w.controls == [] then Pending else w.controls[0], 0))
  }

  function After(mode: Mode, w: Writer, op: WriteOp): (Writer, Poll<nat>) {
    match op
    case Write(buf) => AfterWrite(mode, w, buf)
    case Flush => AfterFlush(w)
  }

  /** A whole run: the writer it ends in, and the answers it gave. */
  function Ran(mode: Mode, w: Writer, ops: seq<WriteOp>): (r: (Writer, seq<Poll<nat>>))
    ensures |r.1| == |ops|
  {
    if ops == [] then (w, [])
    else
      var n := |ops| - 1;
      var (before, answers) := Ran(mode, w, ops[..n]);
      var (w', answer) := After(mode, before, ops[n]);
      (w', answers + [answer])
  }

  lemma RanSnoc(mode: Mode, w: Writer, ops: seq<WriteOp>, op: WriteOp)
    ensures var (before, answers) := Ran(mode, w, ops);
            var (w', answer) := After(mode, before, op);
            Ran(mode, w, ops + [op]) == (w', answers + [answer])
  {
    assert (ops + [op])[..|ops|] == ops;
  }

  lemma RanNothing(mode: Mode, w: Writer)
    ensures Ran(mode, w, []) == (w, [])
  {
  }

  // ---- When the caller is told the truth ----

  /** What the caller was told, and the waiting bytes behind it, are the bytes framed and passed
      through. */
  predicate Truthful(w: Writer, told: Option<Bytes>) {
    told.Some? && Payload(w) == told.value + w.waiting
  }

  predicate TruthfulRun(mode: Mode, w: Writer, ops: seq<WriteOp>) {
    var (w', answers) := Ran(mode, w, ops);
    Truthful(w', Told(ops, answers))
  }

  /** The guard of a call, on the state before it and the answers the inner stream has ready: a
      write that completes the waiting bytes must offer them again, and nothing may be framed
      or passed through while drained bytes still wait for their answer. */
  predicate Guarded(mode: Mode, w: Writer, op: WriteOp) {
    match op
    case Flush => true
    case Write(buf) =>
      if w.unsent > 0 then Drain(w.script, w.unsent).0.Ready? ==> w.waiting <= buf
      else w.waiting == [] || !Consumes(mode, w, buf)
  }

  /** A write with nothing unsent would take bytes of `buf`. */
  predicate Consumes(mode: Mode, w: Writer, buf: Bytes) {
    match mode
    case Tls(_, _) => buf != []
    case Http(_, _, _) => NextWrite(w.script, |buf|).Ready? && NextWrite(w.script, |buf|).value > 0
  }

  predicate GuardedAt(mode: Mode, w: Writer, ops: seq<WriteOp>, k: nat)
    requires k < |ops|
  {
    Guarded(mode, Ran(mode, w, ops[..k]).0, ops[k])
  }

  /** Before the first write nothing waits; TLS mode passes nothing through. */
  predicate Sound(mode: Mode, w: Writer) {
    && (w.chunks == [] ==> w.raw == [] && w.waiting == [] && w.unsent == 0)
    && (mode.Tls? ==> w.raw == [])
  }

  lemma StepSound(mode: Mode, w: Writer, op: WriteOp)
    requires Sound(mode, w)
    ensures Sound(mode, After(mode, w, op).0)
  {
    hide Framed, FakeGet.Request, Drain;
  }

  lemma StepTruthful(mode: Mode, w: Writer, told: Option<Bytes>, op: WriteOp)
    requires Truthful(w, told) && Sound(mode, w)
    ensures var (w', answer) := After(mode, w, op);
            Truthful(w', Tell(told, op, answer)) <==> Guarded(mode, w, op)
  {
    hide Framed, FakeGet.Request, Drain;
    if op.Write? {
      if w.unsent > 0 {
        DrainTruthful(w, told, op.buf);
      } else if mode.Tls? {
        TlsTruthful(mode, w, told, op.buf);
      } else if w.chunks == [] {
        assert Payload(w) == [] && Concat([op.buf]) == op.buf + Concat([]);
        assert told.value == [] && [] + op.buf[..|op.buf|] == op.buf && op.buf + [] == op.buf;
      } else {
        PassTruthful(mode, w, told, op.buf);
      }
    }
  }

  /** The guard without a look at the inner stream. */
  predicate Careful(w: Writer, op: WriteOp) {
    match op
    case Flush => true
    case Write(buf) => if w.unsent > 0 then w.waiting <= buf else w.waiting == [] || buf == []
  }

  /** Whatever the inner stream answers, a call keeps the caller told the truth if and only if
      it is careful, which the caller can tell before the call: that write again offers what
      waits, or nothing waits. */
  lemma CarefulIff(mode: Mode, w: Writer, told: Option<Bytes>, op: WriteOp)
    requires Truthful(w, told) && Sound(mode, w)
    ensures (forall script :: TruthfulOver(mode, w, told, op, script)) <==> Careful(w, op)
  {
    hide Framed, FakeGet.Request, Drain, After;
    forall script
      ensures TruthfulOver(mode, w, told, op, script) <==> Guarded(mode, w.(script := script), op)
    {
      assert Sound(mode, w.(script := script)) && Truthful(w.(script := script), told);
      StepTruthful(mode, w.(script := script), told, op);
    }
    if op.Write? && !Careful(w, op) {
      var script := [Accept(w.unsent + 1)];
      if w.unsent > 0 {
        DrainAll(script, w.unsent);
      } else {
        assert NextWrite(script, |op.buf|) == Ready(1);
      }
      assert !Guarded(mode, w.(script := script), op);
    }
  }

  predicate TruthfulOver(mode: Mode, w: Writer, told: Option<Bytes>, op: WriteOp, script: seq<WriteEvent>) {
    var (w', answer) := After(mode, w.(script := script), op);
    Truthful(w', Tell(told, op, answer))
  }

  lemma DrainTruthful(w: Writer, told: Option<Bytes>, buf: Bytes)
    requires Truthful(w, told) && w.unsent > 0
    ensures var (w', answer) := Drained(w, w.waiting, w.unsent);
            Truthful(w', Tell(told, Write(buf), answer)) <==> (Drain(w.script, w.unsent).0.Ready? ==> w.waiting <= buf)
  {
    hide Drain;
    var t, n := told.value, |w.waiting|;
    if n <= |buf| {
      assert t + buf[..n] + [] == t + buf[..n];
      SameTail(t, buf[..n], w.waiting);
    }
  }

  lemma TlsTruthful(mode: Mode, w: Writer, told: Option<Bytes>, buf: Bytes)
    requires mode.Tls? && w.unsent == 0 && w.raw == [] && Truthful(w, told)
    ensures var (w', answer) := AfterWrite(mode, w, buf);
            Truthful(w', Tell(told, Write(buf), answer)) <==> (w.waiting == [] || buf == [])
  {
    hide Framed, Drain;
    var t := told.value;
    if buf == [] {
      assert t + buf[..0] == t;
    } else {
      var chunk := ChunkOf(buf);
      ConcatSnoc(w.chunks, chunk);
      assert t + chunk + [] == t + chunk;
      assert Concat(w.chunks + [chunk]) + w.raw == Payload(w) + chunk;
    }
  }

  lemma PassTruthful(mode: Mode, w: Writer, told: Option<Bytes>, buf: Bytes)
    requires mode.Http? && w.unsent == 0 && w.chunks != [] && Truthful(w, told)
    ensures var (w', answer) := AfterWrite(mode, w, buf);
            Truthful(w', Tell(told, Write(buf), answer)) <==> (w.waiting == [] || !Consumes(mode, w, buf))
  {
    hide Concat;
    var (w', answer) := AfterWrite(mode, w, buf);
    var n := if answer.Ready? then answer.value else 0;
    assert Payload(w') == Payload(w) + buf[..n];
    if n == 0 {
      assert Payload(w) + [] == Payload(w) && told.value + [] == told.value;
    } else {
      assert told.value + buf[..n] + [] == told.value + buf[..n];
    }
  }

  lemma SameTail(front: Bytes, a: Bytes, b: Bytes)
    ensures front + a == front + b <==> a == b
  {
    assert (front + a)[|front|..] == a && (front + b)[|front|..] == b;
  }

  /** From a new writer, the caller is told the truth after every call of a run if and only
      if every write of the run met the guard: nothing is lost, repeated or made up. */
  lemma TruthfulIff(mode: Mode, script: seq<WriteEvent>, controls: seq<Poll<()>>, ops: seq<WriteOp>)
    ensures var w := Fresh(script, controls);
            (forall k :: 0 <= k <= |ops| ==> TruthfulRun(mode, w, ops[..k])) <==>
            (forall k :: 0 <= k < |ops| ==> GuardedAt(mode, w, ops, k))
  {
    TruthfulUpTo(mode, Fresh(script, controls), ops, |ops|);
  }

  lemma {:induction false} TruthfulUpTo(mode: Mode, w: Writer, ops: seq<WriteOp>, n: nat)
    requires w.chunks == [] && Sound(mode, w) && n <= |ops|
    ensures (forall k :: 0 <= k <= n ==> TruthfulRun(mode, w, ops[..k])) <==>
            (forall k :: 0 <= k < n ==> GuardedAt(mode, w, ops, k))
  {
    hide TruthfulRun, GuardedAt;
    if n == 0 {
      NothingTold(mode, w, ops);
    } else {
      TruthfulUpTo(mode, w, ops, n - 1);
      if TruthfulRun(mode, w, ops[..n - 1]) {
        LastTruthful(mode, w, ops, n - 1);
      }
    }
  }

  lemma NothingTold(mode: Mode, w: Writer, ops: seq<WriteOp>)
    requires w.chunks == [] && Sound(mode, w)
    ensures TruthfulRun(mode, w, ops[..0])
  {
  }

  lemma {:induction false} RanSound(mode: Mode, w: Writer, ops: seq<WriteOp>)
    requires Sound(mode, w)
    ensures Sound(mode, Ran(mode, w, ops).0)
  {
    hide After, Sound;
    if ops != [] {
      RanSound(mode, w, ops[..|ops| - 1]);
      StepSound(mode, Ran(mode, w, ops[..|ops| - 1]).0, ops[|ops| - 1]);
    }
  }

  lemma LastTruthful(mode: Mode, w: Writer, ops: seq<WriteOp>, k: nat)
    requires k < |ops| && TruthfulRun(mode, w, ops[..k]) && Sound(mode, w)
    ensures TruthfulRun(mode, w, ops[..k + 1]) <==> GuardedAt(mode, w, ops, k)
  {
    hide After, Guarded, Truthful, Tell, Ran, Told, Sound;
    var (before, answers) := Ran(mode, w, ops[..k]);
    RanSound(mode, w, ops[..k]);
    StepTruthful(mode, before, Told(ops[..k], answers), ops[k]);
    RanSnoc(mode, w, ops[..k], ops[k]);
    ToldSnoc(ops[..k], answers, ops[k], After(mode, before, ops[k]).1);
    assert ops[..k + 1] == ops[..k] + [ops[k]];
  }

  /** The first three calls of a run, one after the other. */
  lemma RanSteps(mode: Mode, w: Writer, ops: seq<WriteOp>)
    requires 2 <= |ops| <= 3
    ensures var (w1, a1) := After(mode, w, ops[0]);
            var (w2, a2) := After(mode, w1, ops[1]);
            && Ran(mode, w, ops[..1]) == (w1, [a1])
            && Ran(mode, w, ops[..2]) == (w2, [a1, a2])
            && Told(ops[..2], [a1, a2]) == Tell(Tell(Some([]), ops[0], a1), ops[1], a2)
            && (|ops| == 3 ==>
                  var (w3, a3) := After(mode, w2, ops[2]);
                  && Ran(mode, w, ops[..3]) == (w3, [a1, a2, a3])
                  && Told(ops[..3], [a1, a2, a3]) == Tell(Told(ops[..2], [a1, a2]), ops[2], a3))
  {
    hide After, Tell;
    var (w1, a1) := After(mode, w, ops[0]);
    var (w2, a2) := After(mode, w1, ops[1]);
    RanSnoc(mode, w, [], ops[0]);
    ToldSnoc([], [], ops[0], a1);
    assert [] + [ops[0]] == ops[..1] && [] + [a1] == [a1];
    RanSnoc(mode, w, ops[..1], ops[1]);
    ToldSnoc(ops[..1], [a1], ops[1], a2);
    assert ops[..1] + [ops[1]] == ops[..2] && [a1] + [a2] == [a1, a2];
    if |ops| == 3 {
      var (w3, a3) := After(mode, w2, ops[2]);
      RanSnoc(mode, w, ops[..2], ops[2]);
      ToldSnoc(ops[..2], [a1, a2], ops[2], a3);
      assert ops[..2] + [ops[2]] == ops[..3] && [a1, a2] + [a3] == [a1, a2, a3];
    }
  }

  // ---- Callers that keep to the guard ----

  /** Call `k` offers, from the first byte not yet reported on, the waiting chunk and at most
      `offered` bytes. */
  predicate Discipline(mode: Mode, w: Writer, src: Bytes, offered: nat, ops: seq<WriteOp>, k: nat)
    requires k < |ops|
  {
    var (w', answers) := Ran(mode, w, ops[..k]);
    var told := Told(ops[..k], answers);
    && told.Some? && |told.value| <= |src|
    && var rest := src[|told.value|..];
       var n := Max(|w'.waiting|, Min(offered, |rest|));
       n <= |rest| && ops[k] == Write(rest[..n])
  }

  /** The waiting bytes are the next ones of the source, and wait because they are unsent. */
  predicate InStep(w: Writer, told: Option<Bytes>, src: Bytes) {
    && (w.unsent == 0 ==> w.waiting == [])
    && told.Some? && |told.value| + |w.waiting| <= |src|
    && w.waiting == src[|told.value|..][..|w.waiting|]
  }

  /** Whoever keeps to the discipline meets the guard, and stays in step. */
  lemma StepInStep(mode: Mode, w: Writer, told: Option<Bytes>, src: Bytes, n: nat)
    requires InStep(w, told, src) && |w.waiting| <= n <= |src| - |told.value|
    ensures var op := Write(src[|told.value|..][..n]);
            var (w', answer) := After(mode, w, op);
            Guarded(mode, w, op) && InStep(w', Tell(told, op, answer), src)
  {
    hide Framed, FakeGet.Request, Drain;
    var rest := src[|told.value|..];
    var buf := rest[..n];
    var (w', answer) := AfterWrite(mode, w, buf);
    assert w.waiting == rest[..|w.waiting|] == buf[..|w.waiting|];
    assert ChunkOf(buf) == rest[..|ChunkOf(buf)|];
    if answer.Ready? {
      assert answer.value <= |buf|;
      assert w'.waiting == [];
    }
  }

  lemma FlushInStep(mode: Mode, w: Writer, told: Option<Bytes>, src: Bytes)
    requires InStep(w, told, src) && w.unsent == 0
    ensures var (w', answer) := After(mode, w, Flush);
            Guarded(mode, w, Flush) && InStep(w', Tell(told, Flush, answer), src)
  {
    DrainNothing(w.script);
  }

  /** A call of a well-behaved caller: a write under the discipline, or a flush that does not
      come between Pending and the retry. */
  predicate Behaves(mode: Mode, w: Writer, src: Bytes, offered: nat, ops: seq<WriteOp>, k: nat)
    requires k < |ops|
  {
    || Discipline(mode, w, src, offered, ops, k)
    || (ops[k].Flush? && Ran(mode, w, ops[..k]).0.unsent == 0)
  }

  /** From a new writer, a well-behaved caller is told the truth at every point. */
  lemma {:induction false} DisciplineTruthful(mode: Mode, script: seq<WriteEvent>, controls: seq<Poll<()>>, src: Bytes,
                                              offer: nat -> nat, ops: seq<WriteOp>)
    requires forall k :: 0 <= k < |ops| ==> Behaves(mode, Fresh(script, controls), src, offer(k), ops, k)
    ensures forall k :: 0 <= k <= |ops| ==> TruthfulRun(mode, Fresh(script, controls), ops[..k])
  {
    var w := Fresh(script, controls);
    hide Ran, Told, After, Tell, Guarded, InStep, TruthfulRun;
    StartInStep(mode, w, src);
    assert ops[..0] == [];
    for k := 0 to |ops|
      invariant InStep(Ran(mode, w, ops[..k]).0, Told(ops[..k], Ran(mode, w, ops[..k]).1), src)
      invariant forall j :: 0 <= j < k ==> GuardedAt(mode, w, ops, j)
    {
      assert Behaves(mode, w, src, offer(k), ops, k);
      var (before, answers) := Ran(mode, w, ops[..k]);
      var told := Told(ops[..k], answers);
      match ops[k] {
        case Write(buf) => StepInStep(mode, before, told, src, |buf|);
        case Flush => FlushInStep(mode, before, told, src);
      }
      RanSnoc(mode, w, ops[..k], ops[k]);
      ToldSnoc(ops[..k], answers, ops[k], After(mode, before, ops[k]).1);
      assert ops[..k + 1] == ops[..k] + [ops[k]];
    }
    TruthfulIff(mode, script, controls, ops);
  }

  lemma StartInStep(mode: Mode, w: Writer, src: Bytes)
    requires w.waiting == [] && w.unsent == 0
    ensures Ran(mode, w, []) == (w, []) && InStep(w, Told([], []), src)
  {
  }

  /** A run under the discipline: it ends in `w`, and the caller was told of `reported` bytes. */
  ghost predicate Course(mode: Mode, start: Writer, src: Bytes, offer: nat -> nat, ops: seq<WriteOp>,
                         answers: seq<Poll<nat>>, w: Writer, reported: nat)
  {
    && (w, answers) == Ran(mode, start, ops) && |answers| == |ops|
    && reported + |w.waiting| <= |src| && Told(ops, answers) == Some(src[..reported])
    && forall k :: 0 <= k < |ops| ==> Discipline(mode, start, src, offer(k), ops, k)
  }

  lemma CourseStart(mode: Mode, start: Writer, src: Bytes, offer: nat -> nat)
    requires start.waiting == []
    ensures Course(mode, start, src, offer, [], [], start, 0)
  {
    RanNothing(mode, start);
  }

  lemma CourseEnd(mode: Mode, start: Writer, src: Bytes, offer: nat -> nat, ops: seq<WriteOp>,
                  answers: seq<Poll<nat>>, w: Writer, reported: nat)
    requires Course(mode, start, src, offer, ops, answers, w, reported)
    ensures (w, answers) == Ran(mode, start, ops) && |answers| == |ops|
    ensures reported <= |src| && Told(ops, answers) == Some(src[..reported])
    ensures forall k :: 0 <= k < |ops| ==> Discipline(mode, start, src, offer(k), ops, k)
  {
  }

  lemma CourseStep(mode: Mode, start: Writer, src: Bytes, offer: nat -> nat, ops: seq<WriteOp>,
                   answers: seq<Poll<nat>>, w: Writer, reported: nat, buf: Bytes, w': Writer, answer: Poll<nat>)
    requires Course(mode, start, src, offer, ops, answers, w, reported)
    requires buf == src[reported..reported + Max(|w.waiting|, Min(offer(|ops|), |src| - reported))]
    requires (w', answer) == AfterWrite(mode, w, buf)
    requires answer.Ready? ==> answer.value <= |buf|
    requires reported + (if answer.Ready? then answer.value else 0) + |w'.waiting| <= |src|
    ensures Course(mode, start, src, offer, ops + [Write(buf)], answers + [answer], w',
                   reported + if answer.Ready? then answer.value else 0)
  {
    hide AfterWrite, Ran, Told, Discipline;
    RanSnoc(mode, start, ops, Write(buf));
    ToldSnoc(ops, answers, Write(buf), answer);
    DisciplineKept(mode, start, src, offer, ops, Write(buf), answers, w, reported);
    if answer.Ready? {
      Slices(src, reported, reported + |buf|, answer.value);
    }
  }

  lemma DisciplineKept(mode: Mode, w: Writer, src: Bytes, offer: nat -> nat, ops: seq<WriteOp>,
                       op: WriteOp, answers: seq<Poll<nat>>, before: Writer, reported: nat)
    requires forall j :: 0 <= j < |ops| ==> Discipline(mode, w, src, offer(j), ops, j)
    requires (before, answers) == Ran(mode, w, ops)
    requires reported + |before.waiting| <= |src| && Told(ops, answers) == Some(src[..reported])
    requires op == Write(src[reported..reported + Max(|before.waiting|, Min(offer(|ops|), |src| - reported))])
    ensures forall j :: 0 <= j <= |ops| ==> Discipline(mode, w, src, offer(j), ops + [op], j)
  {
    hide Discipline;
    forall j | 0 <= j <= |ops| ensures Discipline(mode, w, src, offer(j), ops + [op], j) {
      if j == |ops| {
        DisciplineLast(mode, w, src, offer(j), ops, op, answers, before, reported);
      } else {
        DisciplineEarlier(mode, w, src, offer(j), ops, op, j);
      }
    }
  }

  lemma DisciplineEarlier(mode: Mode, w: Writer, src: Bytes, offered: nat, ops: seq<WriteOp>,
                          op: WriteOp, k: nat)
    requires k < |ops|
    ensures Discipline(mode, w, src, offered, ops + [op], k) ==
            Discipline(mode, w, src, offered, ops, k)
  {
    hide Ran, Told;
    assert (ops + [op])[..k] == ops[..k];
  }

  lemma DisciplineLast(mode: Mode, w: Writer, src: Bytes, offered: nat, ops: seq<WriteOp>,
                       op: WriteOp, answers: seq<Poll<nat>>, before: Writer, reported: nat)
    requires (before, answers) == Ran(mode, w, ops)
    requires reported + |before.waiting| <= |src| && Told(ops, answers) == Some(src[..reported])
    requires op == Write(src[reported..reported + Max(|before.waiting|, Min(offered, |src| - reported))])
    ensures Discipline(mode, w, src, offered, ops + [op], |ops|)
  {
    hide Ran, Told;
    assert (ops + [op])[..|ops|] == ops;
    assert src[reported..][..|op.buf|] == op.buf;
  }
}
