/** Whole runs of the HTTP wrapper, over every script of the stream below it. */
module HttpSessions {
  import opened Streams
  import opened OptionType
  import opened HttpFraming
  import opened HttpLimit
  import opened HttpObfs
  import opened Accounts
  import opened WriteLedger
  import opened Writers
  import opened HttpWriter
  import Fake = HttpRequest

  /** Reading a new wrapper until the stream ends or the limit is reported. Unless it is, the
      caller gets everything behind the first CRLFCRLF of the whole stream. The limit spares
      every header that ends within 16385 bytes, and no header past 17408 bytes gets through. */
  method ReadToEnd(h: HttpObfs, room: nat -> nat) returns (got: Bytes, tooLong: bool)
    requires h.ReadValid() && h.firstResponse && h.inner.received == [] && h.limitErrors == 0 && !h.inner.ended
    requires forall k :: room(k) > 0
    modifies h`firstResponse, h`responseScratch, h`leftover, h`leftoverOff, h`delivered, h`limitErrors
    modifies h.inner`readScript, h.inner`received, h.inner`ended
    modifies h.inner`readPolls, h.inner`readStalls, h.inner`lastRead
    ensures h.ReadValid() && got == h.delivered && (tooLong <==> h.limitErrors == 1)
    ensures !tooLong ==> h.inner.received == Ahead(old(h.inner.readScript))
    ensures !tooLong ==> got == AfterHeader(Ahead(old(h.inner.readScript)))
    ensures tooLong ==> got == [] && |Ahead(old(h.inner.readScript))| > 16384
    ensures var end := Find(Ahead(old(h.inner.readScript)));
            && (end.Some? && end.value + 4 <= 16385 ==> !tooLong)
            && (end.Some? && end.value + 4 > 17408 ==> tooLong)
            && (end.None? ==> (tooLong <==> |Ahead(old(h.inner.readScript))| > 16384))
  {
    hide Seek, Weight, AfterHeader, Find, HttpObfs.WriteValid, HttpObfs.ReadValid;
    ghost var script := h.inner.readScript;
    got, tooLong := [], false;
    h.Searching();
    assert h.inner.Total() == Ahead(script) by { assert [] + Ahead(script) == Ahead(script); }
    var k := 0;
    while true
      invariant h.ReadValid() && got == h.delivered
      invariant h.limitErrors == 0 && !tooLong
      invariant !h.inner.ended && h.inner.Total() == Ahead(script)
      decreases Weight(h.inner.readScript), |h.leftover| - h.leftoverOff
    {
      var buf := new ReadBuf(room(k));
      k := k + 1;
      var exhausted := h.inner.readScript == [] && h.leftover == [];
      var r := h.PollRead(buf);
      got := got + buf.filled;
      if r == Failed(InvalidData) {
        tooLong := true;
        break;
      }
      if r.Failed? || (r.Ready? && buf.filled == []) || exhausted {
        break;
      }
    }
    assert h.inner.received + [] == h.inner.received;
    if tooLong {
      h.Searching();
      Unterminated(h.inner.received, if h.inner.ended then [] else Ahead(h.inner.readScript));
    } else {
      assert h.inner.ended || h.inner.readScript == [];
      assert h.inner.received == Ahead(script);
      h.Finished();
    }
  }

  lemma Unterminated(wire: Bytes, more: Bytes)
    requires Find(wire).None?
    ensures Find(wire + more).Some? ==> Find(wire + more).value + 4 > |wire|
  {
    if Find(wire + more).Some? {
      FindStraddles(wire, more);
    }
  }

  /** Polling a new wrapper does to its buffer what the search on values does. */
  method SearchRun(h: HttpObfs, polls: nat, room: nat -> nat)
    requires h.ReadValid() && h.firstResponse && h.inner.received == [] && h.limitErrors == 0
    modifies h`firstResponse, h`responseScratch, h`leftover, h`leftoverOff, h`delivered, h`limitErrors
    modifies h.inner`readScript, h.inner`received, h.inner`ended, h.inner`readPolls
    modifies h.inner`readStalls, h.inner`lastRead
    ensures var s := Searched(old(h.inner.readScript), polls);
            && h.ReadValid() && (h.firstResponse <==> !s.found)
            && h.responseScratch == s.scratch && h.limitErrors == s.errors
  {
    hide Seek, Find, AfterHeader, Weight;
    ghost var script := h.inner.readScript;
    for k := 0 to polls
      invariant h.ReadValid()
      invariant var s := Searched(script, k);
                && (h.firstResponse <==> !s.found) && h.responseScratch == s.scratch && h.limitErrors == s.errors
                && (h.firstResponse ==> h.inner.readScript == s.script)
    {
      var buf := new ReadBuf(room(k));
      var r := h.PollRead(buf);
    }
  }

  /** The limit is no bound for a caller that polls on: a peer that floods the header makes a
      new wrapper buffer a further read for every error it reports. */
  method PollPastLimit(h: HttpObfs, n: nat, room: nat -> nat)
    requires h.ReadValid() && h.firstResponse && h.inner.received == [] && h.limitErrors == 0
    requires n > 0 && h.inner.readScript == Flood(n + 16)
    modifies h`firstResponse, h`responseScratch, h`leftover, h`leftoverOff, h`delivered, h`limitErrors
    modifies h.inner`readScript, h.inner`received, h.inner`ended, h.inner`readPolls
    modifies h.inner`readStalls, h.inner`lastRead
    ensures h.limitErrors == n && |h.responseScratch| == 16384 + 1024 * n
  {
    hide Searched, Flood, Zeros, HttpObfs.ReadValid;
    FloodGrows(0, n);
    ZerosLength(MAX_HEADER + READ_SIZE * n);
    SearchRun(h, n, room);
  }

  /** One call, on the wrapper and on values. */
  method Call(h: HttpObfs, op: WriteOp) returns (answer: Poll<nat>)
    requires h.WriteValid()
    modifies h`firstRequest, h`writeBuf, h`writeBufOff, h`pendingInput
    modifies h`first, h`raw, h`pending, h`confirmed, h`orphaned
    modifies h.inner`writeScript, h.inner`sent, h.inner`controlScript
    ensures h.WriteValid()
    ensures (h.Writer(), answer) == After(Http(h.host, h.port, h.nonce), old(h.Writer()), op)
  {
    hide Fake.Request, Drain, Accounted;
    DrainNothing(h.inner.writeScript);
    match op
    case Write(buf) =>
      answer := h.PollWrite(buf);
    case Flush =>
      var flushed := h.PollFlush();
      answer := Moved(flushed, 0);
  }

  /** Any run of writes and flushes from a new wrapper does what the same calls do on values.
      So the caller is told the truth after each of them if and only if every write met its
      guard. */
  method WriteRun(h: HttpObfs, ops: seq<WriteOp>) returns (answers: seq<Poll<nat>>)
    requires h.WriteValid() && h.firstRequest && h.pending == []
    modifies h`firstRequest, h`writeBuf, h`writeBufOff, h`pendingInput
    modifies h`first, h`raw, h`pending, h`confirmed, h`orphaned
    modifies h.inner`writeScript, h.inner`sent, h.inner`controlScript
    ensures h.WriteValid() && (h.Writer(), answers) == Ran(Http(h.host, h.port, h.nonce), old(h.Writer()), ops)
    ensures h.writeBufOff <= |h.writeBuf|
            && (ops != [] && !h.firstRequest ==> h.inner.sent + h.writeBuf[h.writeBufOff..] ==
                                                 Fake.Request(h.host, h.port, h.first, h.nonce) + h.raw)
    ensures old(h.Writer()) == Fresh(old(h.inner.writeScript), old(h.inner.controlScript))
    ensures var mode, start := Http(h.host, h.port, h.nonce), old(h.Writer());
            (forall k :: 0 <= k <= |ops| ==> TruthfulRun(mode, start, ops[..k])) <==>
            (forall k :: 0 <= k < |ops| ==> GuardedAt(mode, start, ops, k))
  {
    hide Fake.Request, After, Ran, TruthfulRun, GuardedAt, HttpObfs.WriteValid, HttpObfs.ReadValid;
    ghost var mode, start := Http(h.host, h.port, h.nonce), h.Writer();
    NewWriter(h);
    TruthfulIff(mode, h.inner.writeScript, h.inner.controlScript, ops);
    RanNothing(mode, start);
    answers := [];
    assert ops[..0] == [];
    for k := 0 to |ops|
      invariant h.WriteValid() && (h.Writer(), answers) == Ran(mode, start, ops[..k])
    {
      RanSnoc(mode, start, ops[..k], ops[k]);
      assert ops[..k + 1] == ops[..k] + [ops[k]];
      var answer := Call(h, ops[k]);
      answers := answers + [answer];
    }
    assert ops[..|ops|] == ops;
    h.Books();
  }

  lemma NewWriter(h: HttpObfs)
    requires h.WriteValid() && h.firstRequest && h.pending == []
    ensures h.Writer() == Fresh(h.inner.writeScript, h.inner.controlScript)
    ensures h.orphaned == 0 && h.confirmed == []
  {
    hide Fake.Request;
  }

  /** The guard is needed: over this script, Pending, a flush that drains, and the retry of
      the same bytes put them on the wire twice. */
  method FlushThenRetrySendsTwice(h: HttpObfs, chunk: Bytes, room: nat) returns (answers: seq<Poll<nat>>)
    requires h.WriteValid() && h.firstRequest && h.pending == []
    requires chunk != [] && room >= |Fake.Request(h.host, h.port, chunk, h.nonce)| + |chunk|
    requires h.inner.writeScript == [WritePending, Accept(room), Accept(room)] && h.inner.controlScript == [Ready(())]
    modifies h`firstRequest, h`writeBuf, h`writeBufOff, h`pendingInput
    modifies h`first, h`raw, h`pending, h`confirmed, h`orphaned
    modifies h.inner`writeScript, h.inner`sent, h.inner`controlScript
    ensures answers == [Pending, Ready(0), Ready(|chunk|)]
    ensures h.inner.sent == Fake.Request(h.host, h.port, chunk, h.nonce) + chunk
  {
    hide Ran, TruthfulRun, GuardedAt, Fake.Request, HttpObfs.WriteValid, HttpObfs.ReadValid;
    FlushThenRetryPassesTwice(h.host, h.port, h.nonce, chunk, room);
    answers := WriteRun(h, [Write(chunk), Flush, Write(chunk)]);
    h.Books();
    assert h.inner.sent + [] == h.inner.sent;
  }

  /** One call under the caller's discipline: a buffer that starts with the waiting bytes,
      and no request drained behind the caller's back. The answers then never lose or repeat
      a byte. */
  method OfferAgain(h: HttpObfs, buf: Bytes) returns (r: Poll<nat>)
    requires h.WriteValid() && h.orphaned == 0
    requires h.pending <= buf && (h.writeBuf == [] ==> h.pending == [])
    modifies h`firstRequest, h`writeBuf, h`writeBufOff, h`pendingInput
    modifies h`first, h`raw, h`pending, h`confirmed, h`orphaned
    modifies h.inner`writeScript, h.inner`sent
    ensures h.WriteValid()
    ensures (h.Writer(), r) == AfterWrite(Http(h.host, h.port, h.nonce), old(h.Writer()), buf)
    ensures h.orphaned == 0 && !h.firstRequest
    ensures h.pending <= buf && (h.writeBuf == [] ==> h.pending == [])
    ensures r.Ready? ==> r.value <= |buf| && h.confirmed == old(h.confirmed) + buf[..r.value] && h.pending == []
    ensures !r.Ready? ==> h.confirmed == old(h.confirmed)
    ensures !r.Ready? ==> h.pending == if old(h.firstRequest) then buf else old(h.pending)
    ensures h.first == if old(h.firstRequest) then buf else old(h.first)
  {
    hide Fake.Request, Drain, Accounted, HttpObfs.WriteValid, HttpObfs.ReadValid;
    h.Books();
    r := h.PollWrite(buf);
    h.Books();
    assert old(h.confirmed) + [] == old(h.confirmed);
    assert buf[..|buf|] == buf;
  }

  /** Of `src`, `reported` bytes were reported as written and `waiting` more are framed; the
      first `firstLength` are the body of the request. */
  ghost predicate Copying(h: HttpObfs, src: Bytes, reported: nat, waiting: nat, firstLength: nat)
    reads h, h.inner
  {
    && h.WriteValid() && h.orphaned == 0 && (h.writeBuf == [] ==> h.pending == [])
    && reported + waiting <= |src| && firstLength <= |src|
    && h.confirmed == src[..reported] && h.pending == src[reported..reported + waiting]
    && (h.firstRequest ==> reported == waiting == 0)
    && (!h.firstRequest ==> h.first == src[..firstLength])
  }

  /** One step of copying: the waiting bytes are offered again, or up to `offered` new ones. */
  method CopyStep(h: HttpObfs, src: Bytes, reported: nat, waiting: nat, firstLength: nat, offered: nat)
    returns (buf: Bytes, r: Poll<nat>, waiting': nat, firstLength': nat)
    requires Copying(h, src, reported, waiting, firstLength)
    modifies h`firstRequest, h`writeBuf, h`writeBufOff, h`pendingInput
    modifies h`first, h`raw, h`pending, h`confirmed, h`orphaned
    modifies h.inner`writeScript, h.inner`sent
    ensures buf == src[reported..reported + Max(waiting, Min(offered, |src| - reported))]
    ensures h.WriteValid()
    ensures (h.Writer(), r) == AfterWrite(Http(h.host, h.port, h.nonce), old(h.Writer()), buf)
    ensures r.Ready? ==> r.value <= |buf| && src[..reported] + buf[..r.value] == src[..reported + r.value]
    ensures Copying(h, src, reported + (if r.Ready? then r.value else 0), waiting', firstLength') && !h.firstRequest
    ensures waiting' == if r.Ready? then 0 else if old(h.firstRequest) then |buf| else waiting
    ensures firstLength' == if old(h.firstRequest) then |buf| else firstLength
  {
    hide Fake.Request, Drain, Accounted, HttpObfs.WriteValid, HttpObfs.ReadValid, AfterWrite;
    var hi := reported + Max(waiting, Min(offered, |src| - reported));
    buf := src[reported..hi];
    h.Books();
    var first := h.firstRequest;
    r := OfferAgain(h, buf);
    waiting' := if r.Ready? then 0 else if first then |buf| else waiting;
    firstLength' := if first then |buf| else firstLength;
    if r.Ready? {
      Slices(src, reported, hi, r.value);
    }
  }

  /** Copying `src` through a new wrapper the way `copy_bidirectional` does: every retry after
      Pending offers at least the waiting bytes, and no flush comes in between. The caller is
      told the truth at every point, and over a script that never fails and takes enough,
      everything gets out. */
  method CopyOut(h: HttpObfs, src: Bytes, offer: nat -> nat, steps: nat)
    returns (reported: nat, waiting: nat, firstLength: nat, ghost ops: seq<WriteOp>, ghost answers: seq<Poll<nat>>)
    requires h.WriteValid() && h.firstRequest && h.pending == []
    modifies h`firstRequest, h`writeBuf, h`writeBufOff, h`pendingInput
    modifies h`first, h`raw, h`pending, h`confirmed, h`orphaned
    modifies h.inner`writeScript, h.inner`sent
    // What was called, and what came of it.
    ensures h.WriteValid() && (h.Writer(), answers) == Ran(Http(h.host, h.port, h.nonce), old(h.Writer()), ops)
    ensures |ops| == steps && reported + waiting <= |src| && Told(ops, answers) == Some(src[..reported])
    ensures forall k :: 0 <= k < steps ==>
              Discipline(Http(h.host, h.port, h.nonce), old(h.Writer()), src, offer(k), ops, k)
    ensures steps > 0 ==>
              && firstLength <= reported + waiting && h.writeBufOff <= |h.writeBuf|
              && h.inner.sent + h.writeBuf[h.writeBufOff..] ==
                 Fake.Request(h.host, h.port, src[..firstLength], h.nonce) + src[firstLength..reported + waiting]
    // Once the request is out, the receiver has exactly the bytes reported as written.
    ensures steps > 0 && h.writeBuf == [] && Fake.Clean(h.host) ==>
              AfterHeader(h.inner.sent) == src[..reported] && Fake.ContentLength(h.inner.sent) == Some(firstLength)
    // Everything gets out.
    ensures Enough(old(h.inner.writeScript), h, src, offer(0), steps) && (forall k :: offer(k) > 0) ==>
              reported == |src| && h.writeBuf == []
  {
    hide Fake.Request, Fake.ContentLength, Fake.Clean, Drain, AfterHeader, Accounted, Copying;
    hide HttpObfs.WriteValid, HttpObfs.ReadValid, AfterWrite, Ran, Told, Steady;
    hide Takes, Stalls, Enough, Left, Discipline;
    hide OnCourse, Course;
    ghost var mode, start := Http(h.host, h.port, h.nonce), h.Writer();
    ghost var steady := Enough(start.script, h, src, offer(0), steps) && forall k :: offer(k) > 0;
    reported, waiting, firstLength, ops, answers := 0, 0, 0, [], [];
    CopyingNothing(h, src);
    CourseStart(mode, start, src, offer);
    if steady {
      EnoughAtFirst(h, src, offer(0), steps);
    }
    assert Underway(h, start, src, offer, steady, ops, answers, reported, waiting, firstLength);
    hide Underway;
    for k := 0 to steps
      invariant Underway(h, start, src, offer, steady, ops, answers, reported, waiting, firstLength) && |ops| == k
    {
      ops, answers, reported, waiting, firstLength :=
        CopyOnce(h, start, src, offer, offer(k), steady, ops, answers, reported, waiting, firstLength);
    }
    UnderwayNow(h, start, src, offer, steady, ops, answers, reported, waiting, firstLength);
    CopyingEnd(h, src, reported, waiting, firstLength);
    if steady {
      EnoughAtLast(start.script, h, src, offer(0), steps, h.Writer(), reported);
    }
  }

  /** A copy in progress: what holds of the wrapper, of the run so far, and of what is left. */
  ghost predicate Underway(h: HttpObfs, start: Writer, src: Bytes, offer: nat -> nat, steady: bool,
                           ops: seq<WriteOp>, answers: seq<Poll<nat>>, reported: nat, waiting: nat, firstLength: nat)
    reads h, h.inner
  {
    && Copying(h, src, reported, waiting, firstLength) && (h.firstRequest <==> ops == [])
    && Course(Http(h.host, h.port, h.nonce), start, src, offer, ops, answers, h.Writer(), reported)
    && (ops != [] ==> firstLength == Min(offer(0), |src|))
    && (steady ==> OnCourse(h.Writer(), h, src, offer(0), reported, |ops|, Stalls(start.script)))
  }

  method CopyOnce(h: HttpObfs, ghost start: Writer, src: Bytes, ghost offer: nat -> nat, offered: nat,
                  ghost steady: bool, ghost ops: seq<WriteOp>, ghost answers: seq<Poll<nat>>, reported: nat,
                  waiting: nat, firstLength: nat)
    returns (ghost ops': seq<WriteOp>, ghost answers': seq<Poll<nat>>, reported': nat, waiting': nat, firstLength': nat)
    requires Underway(h, start, src, offer, steady, ops, answers, reported, waiting, firstLength)
    requires offered == offer(|ops|) && (steady ==> forall k :: offer(k) > 0)
    modifies h`firstRequest, h`writeBuf, h`writeBufOff, h`pendingInput
    modifies h`first, h`raw, h`pending, h`confirmed, h`orphaned
    modifies h.inner`writeScript, h.inner`sent
    ensures Underway(h, start, src, offer, steady, ops', answers', reported', waiting', firstLength')
    ensures |ops'| == |ops| + 1
  {
    hide Fake.Request, Copying, HttpObfs.WriteValid, HttpObfs.ReadValid, AfterWrite, Stalls, OnCourse, Course;
    CopyingNow(h, src, reported, waiting, firstLength);
    ghost var mode, before := Http(h.host, h.port, h.nonce), h.Writer();
    var buf, r, w, f := CopyStep(h, src, reported, waiting, firstLength, offered);
    reported', waiting', firstLength' := reported + (if r.Ready? then r.value else 0), w, f;
    if steady {
      StepOnCourse(before, h, src, offer(0), offered, reported, |ops|, Stalls(start.script));
    }
    CopyingNow(h, src, reported', waiting', firstLength');
    CourseStep(mode, start, src, offer, ops, answers, before, reported, buf, h.Writer(), r);
    ops', answers' := ops + [Write(buf)], answers + [r];
  }

  lemma UnderwayNow(h: HttpObfs, start: Writer, src: Bytes, offer: nat -> nat, steady: bool, ops: seq<WriteOp>,
                    answers: seq<Poll<nat>>, reported: nat, waiting: nat, firstLength: nat)
    requires Underway(h, start, src, offer, steady, ops, answers, reported, waiting, firstLength)
    ensures Copying(h, src, reported, waiting, firstLength) && (h.firstRequest <==> ops == [])
    ensures h.WriteValid() && (h.Writer().unsent == 0 <==> h.writeBuf == [])
    ensures var mode := Http(h.host, h.port, h.nonce);
            && (h.Writer(), answers) == Ran(mode, start, ops) && |answers| == |ops|
            && reported + waiting <= |src| && Told(ops, answers) == Some(src[..reported])
            && forall k :: 0 <= k < |ops| ==> Discipline(mode, start, src, offer(k), ops, k)
    ensures steady ==> OnCourse(h.Writer(), h, src, offer(0), reported, |ops|, Stalls(start.script))
  {
    hide Fake.Request, Course, Copying, HttpObfs.WriteValid, OnCourse, Ran, Told, Discipline;
    CopyingNow(h, src, reported, waiting, firstLength);
    CourseEnd(Http(h.host, h.port, h.nonce), start, src, offer, ops, answers, h.Writer(), reported);
  }

  lemma CopyingNothing(h: HttpObfs, src: Bytes)
    requires h.WriteValid() && h.firstRequest && h.pending == []
    ensures Copying(h, src, 0, 0, 0) && Told([], []) == Some(src[..0])
    ensures h.Writer() == Fresh(h.inner.writeScript, h.inner.controlScript)
  {
    hide Fake.Request;
    NewWriter(h);
  }

  lemma CopyingNow(h: HttpObfs, src: Bytes, reported: nat, waiting: nat, firstLength: nat)
    requires Copying(h, src, reported, waiting, firstLength)
    ensures h.WriteValid() && reported + waiting <= |src|
    ensures var w := h.Writer();
            && |w.waiting| == waiting && (w.unsent == 0 ==> waiting == 0) && (w.unsent == 0 <==> h.writeBuf == [])
            && (w.unsent > 0 ==> waiting == firstLength) && (w.chunks == [] <==> h.firstRequest)
            && (h.firstRequest ==> w.unsent == 0 && reported == 0)
  {
    hide Fake.Request;
    h.Books();
  }

  lemma CopyingEnd(h: HttpObfs, src: Bytes, reported: nat, waiting: nat, firstLength: nat)
    requires Copying(h, src, reported, waiting, firstLength)
    ensures h.WriteValid() && reported + waiting <= |src|
    ensures !h.firstRequest ==>
              && firstLength <= reported + waiting && h.writeBufOff <= |h.writeBuf|
              && h.inner.sent + h.writeBuf[h.writeBufOff..] ==
                 Fake.Request(h.host, h.port, src[..firstLength], h.nonce) + src[firstLength..reported + waiting]
    ensures !h.firstRequest && h.writeBuf == [] && Fake.Clean(h.host) ==>
              AfterHeader(h.inner.sent) == src[..reported] && Fake.ContentLength(h.inner.sent) == Some(firstLength)
  {
    hide Fake.Request, Fake.ContentLength, Fake.Clean, AfterHeader;
    h.Books();
    Slices(src, reported, reported + waiting, waiting);
    if !h.firstRequest {
      assert h.first + h.raw == src[..reported + waiting];
      Rest(src, h.first, h.raw, firstLength, reported + waiting);
      if h.writeBuf == [] && Fake.Clean(h.host) {
        assert h.inner.sent + h.writeBuf[h.writeBufOff..] == h.inner.sent;
        Received(h.host, h.port, h.nonce, h.first, h.raw);
      }
    }
  }

  /** A script that never fails, with takes for the request and every byte behind it, and steps
      for every byte and every stall. */
  predicate Enough(script: seq<WriteEvent>, h: HttpObfs, src: Bytes, offered: nat, steps: nat) {
    && Steady(script) && Takes(script) >= RequestLoad(h, src, offered) + |src|
    && steps > |src| + Stalls(script)
  }

  function RequestLoad(h: HttpObfs, src: Bytes, offered: nat): nat {
    |Fake.Request(h.host, h.port, src[..Min(offered, |src|)], h.nonce)|
  }

  /** Takes for what is unsent, or for the whole request, and for `n` more bytes are left. */
  predicate Left(w: Writer, h: HttpObfs, src: Bytes, offered: nat, n: nat) {
    && Steady(w.script)
    && Takes(w.script) >= (if w.chunks == [] then RequestLoad(h, src, offered) else w.unsent) + n
  }

  lemma EnoughAtFirst(h: HttpObfs, src: Bytes, offered: nat, steps: nat)
    requires h.WriteValid() && h.firstRequest && h.pending == [] && Enough(h.inner.writeScript, h, src, offered, steps)
    ensures OnCourse(h.Writer(), h, src, offered, 0, 0, Stalls(h.inner.writeScript))
  {
  }

  lemma EnoughAtLast(script: seq<WriteEvent>, h: HttpObfs, src: Bytes, offered: nat, steps: nat, w: Writer,
                     reported: nat)
    requires Enough(script, h, src, offered, steps) && OnCourse(w, h, src, offered, reported, steps, Stalls(script))
    ensures reported == |src| && w.unsent == 0
  {
  }

  /** One step of copying over a steady script: `rest` bytes are neither reported nor waiting. */
  lemma Progress(w: Writer, h: HttpObfs, buf: Bytes, src: Bytes, offered: nat, rest: nat)
    requires Left(w, h, src, offered, rest) && (w.unsent == 0 ==> w.waiting == [] && |buf| <= rest)
    requires w.chunks == [] ==> w.unsent == 0 && buf == src[..Min(offered, |src|)]
    requires w.chunks != [] && w.unsent == 0 && buf == [] ==> rest == 0
    ensures var (w', answer) := AfterWrite(Http(h.host, h.port, h.nonce), w, buf);
            var passing := w.unsent == 0 && w.chunks != [];
            var told := if answer.Ready? then answer.value else 0;
            && told + |w'.waiting| <= |w.waiting| + rest
            && Left(w', h, src, offered, |w.waiting| + rest - told - |w'.waiting|)
            && (!passing || buf != [] ==>
                  && Stalls(w'.script) + (if answer.Ready? then 0 else 1) == Stalls(w.script)
                  && (passing && answer.Ready? ==> answer.value > 0))
            && (w.unsent > 0 && answer.Ready? ==> answer.value == |w.waiting|)
            && (w.chunks == [] && answer.Ready? ==> answer.value == |buf|)
            && (answer.Ready? || passing ==> w'.unsent == 0)
  {
    hide Fake.Request, Steady, Takes, Stalls;
    var n := if w.unsent == 0 then |buf| else 0;
    SteadyWrite(h.host, h.port, h.nonce, w, buf, rest - n);
    if w.unsent == 0 && w.chunks != [] && buf == [] {
      SteadyTail(w.script);
    }
  }

  lemma SteadyTail(script: seq<WriteEvent>)
    requires Steady(script)
    ensures Steady(Tail(script))
  {
  }

  /** After `k` steps everything is out, or there was a byte reported or a stall for each. */
  predicate OnCourse(w: Writer, h: HttpObfs, src: Bytes, offered: nat, reported: nat, k: nat, stalls: nat) {
    && reported + |w.waiting| <= |src| && Left(w, h, src, offered, |src| - reported - |w.waiting|)
    && ((k > 0 && reported == |src| && w.unsent == 0) || k + Stalls(w.script) <= reported + stalls)
  }

  lemma StepOnCourse(w: Writer, h: HttpObfs, src: Bytes, first: nat, offered: nat, reported: nat, k: nat, stalls: nat)
    requires OnCourse(w, h, src, first, reported, k, stalls) && offered > 0 && (k == 0 ==> offered == first)
    requires w.unsent == 0 ==> w.waiting == []
    requires w.unsent > 0 && w.waiting == [] ==> reported == |src|
    requires w.chunks == [] <==> k == 0
    requires k == 0 ==> w.unsent == 0 && reported == 0
    ensures var buf := src[reported..reported + Max(|w.waiting|, Min(offered, |src| - reported))];
            var (w', answer) := AfterWrite(Http(h.host, h.port, h.nonce), w, buf);
            OnCourse(w', h, src, first, reported + (if answer.Ready? then answer.value else 0), k + 1, stalls)
  {
    hide AfterWrite, Left, Stalls;
    var buf := src[reported..reported + Max(|w.waiting|, Min(offered, |src| - reported))];
    Progress(w, h, buf, src, first, |src| - reported - |w.waiting|);
    if k > 0 && w.unsent == 0 && buf == [] {
      assert AfterWrite(Http(h.host, h.port, h.nonce), w, buf).1 != Ready(1);
    }
  }

  lemma Rest(src: Bytes, first: Bytes, raw: Bytes, n: nat, m: nat)
    requires n <= |src| && m <= |src| && first == src[..n] && first + raw == src[..m]
    ensures n <= m && raw == src[n..m]
  {
    assert raw == (first + raw)[n..];
  }

  /** Whatever follows the request, the receiver cuts it at the same place. */
  lemma Received(host: Bytes, port: nat, nonce: Fake.Nonce, first: Bytes, raw: Bytes)
    requires Fake.Clean(host)
    ensures var wire := Fake.Request(host, port, first, nonce) + raw;
            AfterHeader(wire) == first + raw && Fake.ContentLength(wire) == Some(|first|)
  {
    hide Fake.Request;
    var request := Fake.Request(host, port, first, nonce);
    Fake.RequestRecovered(host, port, first, nonce);
    FindExtends(request, raw);
    var i := Find(request).value;
    assert (request + raw)[..i + 2] == request[..i + 2];
  }
}
