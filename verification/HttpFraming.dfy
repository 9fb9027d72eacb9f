/** The header terminator, and what lies behind the first one. */
module HttpFraming {
  import opened Streams
  import opened OptionType

  const CR: byte := 13
  const LF: byte := 10
  const CRLF: Bytes := [CR, LF]
  const MAX_HEADER: nat := 16384
  const READ_SIZE: nat := 1024

  predicate TermAt(data: Bytes, i: nat) {
    i + 4 <= |data| && data[i] == CR && data[i + 1] == LF && data[i + 2] == CR && data[i + 3] == LF
  }

  /** The terminator, as bytes. */
  lemma TerminatorIs(data: Bytes, i: nat)
    ensures TermAt(data, i) <==> i + 4 <= |data| && data[i..i + 4] == [13, 10, 13, 10]
  {
    if i + 4 <= |data| {
      assert data[i..i + 4] == [data[i], data[i + 1], data[i + 2], data[i + 3]];
    }
  }

  predicate IsFirst(data: Bytes, i: nat) {
    TermAt(data, i) && forall j: nat :: j < i ==> !TermAt(data, j)
  }

  /** The position of the first CRLFCRLF. */
  function Find(data: Bytes): (r: Option<nat>)
    ensures r.Some? ==> IsFirst(data, r.value)
    ensures r.None? ==> forall i: nat :: !TermAt(data, i)
  {
    FindFrom(data, 0)
  }

  function FindFrom(data: Bytes, from: nat): (r: Option<nat>)
    requires forall j: nat :: j < from ==> !TermAt(data, j)
    ensures r.Some? ==> IsFirst(data, r.value)
    ensures r.None? ==> forall i: nat :: !TermAt(data, i)
    decreases |data| - from
  {
    if from + 4 > |data| then None
    else if TermAt(data, from) then Some(from)
    else FindFrom(data, from + 1)
  }

  lemma FirstUnique(data: Bytes, i: nat)
    requires IsFirst(data, i)
    ensures Find(data) == Some(i)
  {
    assert TermAt(data, i);
  }

  method FindDoubleCrlf(data: Bytes) returns (r: Option<nat>)
    ensures r == Find(data)
  {
    if |data| < 4 {
      return None;
    }
    for i := 0 to |data| - 3
      invariant forall j: nat :: j < i ==> !TermAt(data, j)
    {
      if data[i..i + 4] == [CR, LF, CR, LF] {
        assert data[i..i + 4][0] == data[i] && data[i..i + 4][1] == data[i + 1];
        assert data[i..i + 4][2] == data[i + 2] && data[i..i + 4][3] == data[i + 3];
        FirstUnique(data, i);
        return Some(i);
      }
    }
    r := None;
  }

  /** Everything behind the first CRLFCRLF; nothing while there is none. */
  function AfterHeader(wire: Bytes): Bytes {
    match Find(wire)
    case None => []
    case Some(i) => wire[i + 4..]
  }

  lemma AfterFound(wire: Bytes)
    ensures Find(wire).Some? ==> AfterHeader(wire) == wire[Find(wire).value + 4..]
  {
  }

  /** A terminator found early stays the first one, whatever follows. */
  lemma FindExtends(wire: Bytes, more: Bytes)
    requires Find(wire).Some?
    ensures Find(wire + more) == Find(wire)
    ensures AfterHeader(wire + more) == AfterHeader(wire) + more
  {
    var i := Find(wire).value;
    forall j: nat | j < i ensures !TermAt(wire + more, j) {
      assert !TermAt(wire, j);
    }
    assert TermAt(wire + more, i);
    FirstUnique(wire + more, i);
    assert (wire + more)[i + 4..] == wire[i + 4..] + more;
  }

  lemma TermAtPrefix(data: Bytes, more: Bytes, i: nat)
    requires i + 4 <= |data|
    ensures TermAt(data + more, i) == TermAt(data, i)
  {
  }

  /** A terminator missing before a read and present after it ends inside that read, even
      when it straddles the boundary. */
  lemma FindStraddles(before: Bytes, read: Bytes)
    requires Find(before).None? && Find(before + read).Some?
    ensures Find(before + read).value + 4 > |before|
    ensures |AfterHeader(before + read)| < |read|
  {
    var i := Find(before + read).value;
    if i + 4 <= |before| {
      TermAtPrefix(before, read, i);
    }
  }

  /** How the search for the terminator ends. */
  datatype Outcome = Stopped(answer: Poll<()>) | TooLong | Found

  /** Reading up to 1024 bytes at a time until the terminator is there, the stream stops,
      or more than MAX_HEADER bytes are there without it: the outcome, all bytes read so
      far, and what is left of the script. */
  function Seek(script: seq<ReadEvent>, scratch: Bytes): (Outcome, Bytes, seq<ReadEvent>)
    decreases Weight(script)
  {
    var (answer, rest) := NextRead(script, READ_SIZE);
    match answer
    case Pending => (Stopped(Pending), scratch, rest)
    case Failed(e) => (Stopped(Failed(e)), scratch, rest)
    case Ready(b) =>
      if b == [] then (Stopped(Ready(())), scratch, rest)
      else if Find(scratch + b).Some? then (Found, scratch + b, rest)
      else if |scratch + b| > MAX_HEADER then (TooLong, scratch + b, rest)
      else Seek(rest, scratch + b)
  }

  lemma SeekStep(script: seq<ReadEvent>, scratch: Bytes)
    ensures var (answer, rest) := NextRead(script, READ_SIZE);
            Seek(script, scratch) ==
            if !answer.Ready? || answer.value == [] then (Stopped(Discarded(answer)), scratch, rest)
            else
              var s := scratch + answer.value;
              if Find(s).Some? then (Found, s, rest) else if |s| > MAX_HEADER then (TooLong, s, rest) else Seek(rest, s)
  {
    assert NextRead(script, READ_SIZE).0.Ready? ==> Discarded(NextRead(script, READ_SIZE).0) == Ready(());
  }

  /** The limit is enforced on the first read past it, and only without a terminator. */
  lemma {:induction false} SeekOutcome(script: seq<ReadEvent>, scratch: Bytes)
    requires Find(scratch).None?
    ensures var (outcome, s, rest) := Seek(script, scratch);
            && scratch <= s && |s| <= Max(|scratch|, MAX_HEADER) + READ_SIZE
            && (outcome.Found? <==> Find(s).Some?)
            && (outcome.TooLong? <==> Find(s).None? && |s| > MAX_HEADER && |s| > |scratch|)
            && (outcome.Found? ==> |AfterHeader(s)| < READ_SIZE)
    decreases Weight(script)
  {
    var (answer, rest) := NextRead(script, READ_SIZE);
    if answer.Ready? && answer.value != [] {
      var s := scratch + answer.value;
      if Find(s).Some? {
        FindStraddles(scratch, answer.value);
      } else if |s| <= MAX_HEADER {
        SeekOutcome(rest, s);
      }
    }
  }

  lemma {:induction false} SeekWeight(script: seq<ReadEvent>, scratch: Bytes)
    ensures script != [] ==> Weight(Seek(script, scratch).2) < Weight(script)
    ensures script == [] ==> Seek(script, scratch) == (Stopped(Pending), scratch, [])
    decreases Weight(script)
  {
    var (answer, rest) := NextRead(script, READ_SIZE);
    if answer.Ready? && answer.value != [] {
      SeekWeight(rest, scratch + answer.value);
    }
  }
}
