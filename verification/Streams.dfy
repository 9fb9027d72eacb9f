/** The byte stream below the obfuscation wrappers, as an adversary.

    The inner stream plays back a script: every poll takes the next event, and a
    poll after the last event is Pending. A script is an arbitrary sequence, so a
    statement over all scripts covers every chunking, every Pending, every error and
    every premature end of stream that a real peer or kernel can produce. */
module Streams {
  type byte = b: int | 0 <= b < 256
  type Bytes = seq<byte>

  datatype IoError = Inner(code: int) | WriteZero | InvalidData

  /** `Poll<io::Result<T>>`. */
  datatype Poll<+T> = Pending | Ready(value: T) | Failed(error: IoError)

  /** One answer of the read half; `Data([])` is the end of the stream. */
  datatype ReadEvent = ReadPending | ReadFail(code: int) | Data(bytes: Bytes)

  /** One answer of the write half: `Accept(n)` takes at most `n` of the offered bytes. */
  datatype WriteEvent = WritePending | WriteFail(code: int) | Accept(n: nat)

  function Min(a: nat, b: nat): nat {
    if a <= b then a else b
  }

  function Max(a: nat, b: nat): nat {
    if a < b then b else a
  }

  /** The bytes a read script still delivers before the stream first ends or fails. */
  function Ahead(script: seq<ReadEvent>): Bytes {
    if script == [] then []
    else
      match script[0]
      case ReadPending => Ahead(script[1..])
      case ReadFail(_) => []
      case Data(b) => if b == [] then [] else b + Ahead(script[1..])
  }

  /** Bounds the number of polls with room that a script can answer. */
  function Weight(script: seq<ReadEvent>): (w: nat)
    ensures script == [] ==> w == 0
  {
    if script == [] then 0
    else 1 + (match script[0] case Data(b) => |b| case _ => 0) + Weight(script[1..])
  }

  /** An answer after which nothing more is promised: an error or, with room in the
      buffer, no bytes. */
  predicate Ends(r: Poll<()>, n: int, room: nat) {
    r.Failed? || (r.Ready? && n == 0 && room > 0)
  }

  /** The answer of a read script to a poll with `room` bytes of space, and what is left of it. */
  function NextRead(script: seq<ReadEvent>, room: nat): (r: (Poll<Bytes>, seq<ReadEvent>))
    ensures r.0.Ready? ==> |r.0.value| <= room
    ensures if Ends(Discarded(r.0), if r.0.Ready? then |r.0.value| else 0, room) then Ahead(script) == []
            else Ahead(script) == (if r.0.Ready? then r.0.value else []) + Ahead(r.1)
    ensures script != [] && room > 0 ==> Weight(r.1) < Weight(script)
    ensures script == [] ==> r == (Pending, [])
    ensures r.0.Failed? ==> r.0.error.Inner?
  {
    if script == [] then (Pending, [])
    else
      var rest := script[1..];
      match script[0]
      case ReadPending => (Pending, rest)
      case ReadFail(code) => (Failed(Inner(code)), rest)
      case Data(b) =>
        if room == 0 then (Ready([]), script)
        else if |b| <= room then (Ready(b), rest)
        else
          assert b == b[..room] + b[room..];
          assert ([Data(b[room..])] + rest)[1..] == rest;
          (Ready(b[..room]), [Data(b[room..])] + rest)
  }

  function Discarded<T>(r: Poll<T>): Poll<()> {
    match r
    case Pending => Pending
    case Ready(_) => Ready(())
    case Failed(e) => Failed(e)
  }

  function Tail<T>(script: seq<T>): seq<T> {
    if script == [] then [] else script[1..]
  }

  /** The answer of a write script to an offer of `n` bytes. */
  function NextWrite(script: seq<WriteEvent>, n: nat): (r: Poll<nat>)
    ensures r.Ready? ==> r.value <= n
  {
    if script == [] then Pending
    else
      match script[0]
      case WritePending => Pending
      case WriteFail(code) => Failed(Inner(code))
      case Accept(k) => Ready(Min(k, n))
  }

  /** Offering the rest of `n` bytes again and again until all are taken, the writer is not
      ready, fails, or takes nothing: the outcome, how many bytes were taken, and what is
      left of the script. */
  function Drain(script: seq<WriteEvent>, n: nat): (r: (Poll<()>, nat, seq<WriteEvent>))
    ensures r.1 <= n && (r.0.Ready? <==> r.1 == n) && (r.0.Ready? ==> r.0 == Ready(()))
    decreases |script|
  {
    if n == 0 then (Ready(()), 0, script)
    else
      match NextWrite(script, n)
      case Pending => (Pending, 0, Tail(script))
      case Failed(e) => (Failed(e), 0, Tail(script))
      case Ready(k) =>
        if k == 0 then (Failed(WriteZero), 0, Tail(script))
        else
          var (outcome, taken, rest) := Drain(script[1..], n - k);
          (outcome, k + taken, rest)
  }

  lemma DrainStep(script: seq<WriteEvent>, n: nat)
    requires n > 0
    ensures var answer := NextWrite(script, n);
            if answer.Ready? && answer.value > 0 then
              && |script| > 0
              && var (outcome, taken, rest) := Drain(script[1..], n - answer.value);
                 Drain(script, n) == (outcome, answer.value + taken, rest)
            else
              Drain(script, n) == (if answer.Ready? then Failed(WriteZero) else Discarded(answer), 0, Tail(script))
  {
  }

  lemma DrainNothing(script: seq<WriteEvent>)
    ensures Drain(script, 0) == (Ready(()), 0, script)
  {
  }

  lemma DrainAll(script: seq<WriteEvent>, n: nat)
    requires script != [] && script[0].Accept? && 0 < n <= script[0].n
    ensures Drain(script, n) == (Ready(()), n, script[1..])
  {
    DrainStep(script, n);
    DrainNothing(script[1..]);
  }

  lemma CutAt(before: Bytes, s: Bytes, i: nat, n: nat)
    requires i + n <= |s|
    ensures before + s[..i] + s[i..] == before + s
    ensures before + s[..i] + s[i..][..n] == before + s[..i + n]
    ensures s[i..][n..] == s[i + n..]
  {
  }

  lemma Slices(src: Bytes, from: nat, to: nat, n: nat)
    requires from + n <= to <= |src|
    ensures src[from..to][..n] == src[from..from + n]
    ensures src[..from] + src[from..from + n] == src[..from + n]
  {
  }

  function Concat(chunks: seq<Bytes>): Bytes {
    if chunks == [] then [] else chunks[0] + Concat(chunks[1..])
  }

  lemma {:induction false} ConcatSnoc(chunks: seq<Bytes>, last: Bytes)
    ensures Concat(chunks + [last]) == Concat(chunks) + last
  {
    if chunks == [] {
      assert Concat([] + [last]) == last + Concat([]);
    } else {
      assert (chunks + [last])[1..] == chunks[1..] + [last];
      ConcatSnoc(chunks[1..], last);
    }
  }

  /** tokio's `ReadBuf`: a bounded buffer that is only ever appended to. */
  class ReadBuf {
    const capacity: nat
    var filled: Bytes

    ghost predicate Valid()
      reads this
    {
      |filled| <= capacity
    }

    constructor (capacity: nat)
      ensures Valid() && this.capacity == capacity && filled == []
    {
      this.capacity := capacity;
      filled := [];
    }

    function Remaining(): nat
      reads this
      requires Valid()
    {
      capacity - |filled|
    }

    method PutSlice(b: Bytes)
      requires Valid() && |b| <= Remaining()
      modifies this
      ensures Valid() && filled == old(filled) + b
    {
      filled := filled + b;
    }
  }

  /** An answer together with the number of bytes it moved. */
  function Moved(r: Poll<()>, n: nat): Poll<nat> {
    match r
    case Pending => Pending
    case Ready(_) => Ready(n)
    case Failed(e) => Failed(e)
  }

  predicate Progress(answer: Poll<nat>) {
    answer.Ready? && answer.value > 0
  }

  class InnerStream {
    var readScript: seq<ReadEvent>
    var writeScript: seq<WriteEvent>
    var controlScript: seq<Poll<()>>

    // Ghost history: every byte handed up and every byte taken for sending; the number of
    // polls, the last answer with the number of bytes it moved, and how many answers so
    // far moved nothing.
    ghost var received: Bytes
    ghost var sent: Bytes
    ghost var ended: bool           // the read half has reported its end or an error
    ghost var readPolls: nat
    ghost var readStalls: nat
    ghost var lastRead: Poll<nat>

    constructor (readScript: seq<ReadEvent>, writeScript: seq<WriteEvent>, controlScript: seq<Poll<()>>)
      ensures this.readScript == readScript && this.writeScript == writeScript && this.controlScript == controlScript
      ensures received == [] && sent == [] && !ended
    {
      this.readScript, this.writeScript, this.controlScript := readScript, writeScript, controlScript;
      received, sent, ended := [], [], false;
      readPolls, readStalls, lastRead := 0, 0, Pending;
    }

    /** What the read half delivers in all, before it first ends. */
    ghost function Total(): Bytes
      reads this`received, this`readScript, this`ended
    {
      received + if ended then [] else Ahead(readScript)
    }

    /** One poll of the read half with room in the buffer has given `answer`. */
    twostate predicate Answered(new answer: Poll<nat>)
      reads this
    {
      && (!old(ended) ==> Total() == old(Total()))
      && (ended <==> old(ended) || answer.Failed? || answer == Ready(0))
      && (old(readScript) != [] ==> Weight(readScript) < old(Weight(readScript)))
      && (old(readScript) == [] ==> answer.Pending? && readScript == [])
      && readPolls == old(readPolls) + 1 && lastRead == answer
      && readStalls == old(readStalls) + if Progress(answer) then 0 else 1
    }

    method PollRead(buf: ReadBuf) returns (r: Poll<()>)
      requires buf.Valid()
      modifies this`readScript, this`received, this`ended, this`readPolls, this`readStalls, this`lastRead, buf
      ensures buf.Valid() && old(buf.filled) <= buf.filled
      ensures received == old(received) + buf.filled[|old(buf.filled)|..]
      ensures var (answer, rest) := NextRead(old(readScript), old(buf.Remaining()));
              && readScript == rest && r == Discarded(answer)
              && buf.filled == old(buf.filled) + if answer.Ready? then answer.value else []
      ensures !old(ended) ==> Total() == old(Total())
      ensures ended <==> old(ended) || Ends(r, |buf.filled| - |old(buf.filled)|, old(buf.Remaining()))
      ensures old(readScript) != [] && old(buf.Remaining()) > 0 ==> Weight(readScript) < old(Weight(readScript))
      ensures old(readScript) == [] ==> r.Pending? && readScript == []
      ensures !r.Ready? ==> buf.filled == old(buf.filled)
      ensures readPolls == old(readPolls) + 1 && lastRead == Moved(r, |buf.filled| - |old(buf.filled)|)
      ensures readStalls == old(readStalls) + if Progress(lastRead) then 0 else 1
      ensures r.Failed? ==> r.error.Inner?
    {
      hide NextRead, Ahead, Weight;
      var room := buf.Remaining();
      var (answer, rest) := NextRead(readScript, room);
      readScript := rest;
      if answer.Ready? {
        buf.PutSlice(answer.value);
        received := received + answer.value;
      }
      r := Discarded(answer);
      ghost var n := if answer.Ready? then |answer.value| else 0;
      readPolls, lastRead := readPolls + 1, Moved(r, n);
      readStalls := readStalls + if Progress(lastRead) then 0 else 1;
      ended := ended || Ends(r, n, room);
    }

    method PollWrite(data: Bytes) returns (r: Poll<nat>)
      modifies this`writeScript, this`sent
      ensures r == NextWrite(old(writeScript), |data|)
      ensures writeScript == Tail(old(writeScript))
      ensures sent == old(sent) + if r.Ready? then data[..r.value] else []
    {
      r := NextWrite(writeScript, |data|);
      writeScript := Tail(writeScript);
      if r.Ready? {
        sent := sent + data[..r.value];
      } else {
        assert sent + [] == sent;
      }
    }

    /** `poll_flush` and `poll_shutdown` of the inner stream: both only report. */
    method PollControl() returns (r: Poll<()>)
      modifies this`controlScript
      ensures r == if old(controlScript) == [] then Pending else old(controlScript)[0]
      ensures controlScript == Tail(old(controlScript))
    {
      if controlScript == [] {
        return Pending;
      }
      r := controlScript[0];
      controlScript := controlScript[1..];
    }
  }

  /** The loop of `poll_drain_write_buf`: offers `buf[off..]` until everything is taken or the
      writer stops. */
  method DrainBuffer(inner: InnerStream, buf: Bytes, off: nat) returns (r: Poll<()>, off': nat)
    requires off <= |buf|
    modifies inner`writeScript, inner`sent
    ensures off <= off' <= |buf|
    ensures (r, off' - off, inner.writeScript) == Drain(old(inner.writeScript), |buf| - off)
    ensures inner.sent == old(inner.sent) + buf[off..off']
    ensures inner.sent + buf[off'..] == old(inner.sent) + buf[off..]
  {
    hide Drain;
    ghost var sent := inner.sent;
    off' := off;
    CutRange(sent, buf, off, off, off);
    while off' < |buf|
      invariant off <= off' <= |buf|
      invariant inner.sent == sent + buf[off..off']
      invariant var (outcome, taken, rest) := Drain(inner.writeScript, |buf| - off');
                Drain(old(inner.writeScript), |buf| - off) == (outcome, off' - off + taken, rest)
    {
      DrainStep(inner.writeScript, |buf| - off');
      CutRange(sent, buf, off, off', off');
      var answer := inner.PollWrite(buf[off'..]);
      match answer
      case Pending =>
        return Pending, off';
      case Failed(e) =>
        return Failed(e), off';
      case Ready(n) =>
        CutRange(sent, buf, off, off', off' + n);
        if n == 0 {
          return Failed(WriteZero), off';
        }
        off' := off' + n;
    }
    DrainNothing(inner.writeScript);
    CutRange(sent, buf, off, off', off');
    r := Ready(());
  }

  lemma CutRange(before: Bytes, s: Bytes, i: nat, j: nat, k: nat)
    requires i <= j <= k <= |s|
    ensures before + s[i..j] + s[j..] == before + s[i..]
    ensures before + s[i..j] + s[j..][..k - j] == before + s[i..k]
    ensures i == j ==> before + s[i..j] == before
  {
  }
}
