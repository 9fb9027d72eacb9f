/** The books a writer keeps on the bytes it framed. */
module Accounts {
  import opened Streams

  /** Every framed byte was confirmed, is waiting to be confirmed, or is orphaned: framed
      where no confirmation will ever cover it. Without orphans the confirmed and the waiting
      bytes are exactly the framed bytes, in order. */
  ghost predicate Accounted(framed: Bytes, confirmed: Bytes, pending: Bytes, orphaned: nat) {
    && |framed| == |confirmed| + |pending| + orphaned
    && (orphaned == 0 ==> framed == confirmed + pending)
  }

  lemma Frame(framed: Bytes, confirmed: Bytes, pending: Bytes, orphaned: nat, c: Bytes)
    requires Accounted(framed, confirmed, pending, orphaned)
    ensures Accounted(framed + c, confirmed, c, orphaned + |pending|)
  {
  }

  lemma Confirm(framed: Bytes, confirmed: Bytes, pending: Bytes, orphaned: nat)
    requires Accounted(framed, confirmed, pending, orphaned)
    ensures Accounted(framed, confirmed + pending, [], orphaned)
  {
    assert confirmed + pending + [] == confirmed + pending;
  }

  /** The books balance exactly when nothing is orphaned. */
  lemma BalancedIff(framed: Bytes, confirmed: Bytes, pending: Bytes, orphaned: nat)
    requires Accounted(framed, confirmed, pending, orphaned)
    ensures framed == confirmed + pending <==> orphaned == 0
  {
  }
}

/** What the caller of a writer knows: the calls it made and the answers it got. */
module WriteLedger {
  import opened Streams
  import opened OptionType

  datatype WriteOp = Write(buf: Bytes) | Flush

  /** What the caller was told is written: of each buffer the part that its answer covers.
      None once an answer covers more than the buffer it was given for. */
  function Told(ops: seq<WriteOp>, answers: seq<Poll<nat>>): Option<Bytes>
    requires |ops| == |answers|
  {
    if ops == [] then Some([])
    else
      var n := |ops| - 1;
      Tell(Told(ops[..n], answers[..n]), ops[n], answers[n])
  }

  function Tell(told: Option<Bytes>, op: WriteOp, answer: Poll<nat>): Option<Bytes> {
    if told.None? || op.Flush? || !answer.Ready? then told
    else if answer.value <= |op.buf| then Some(told.value + op.buf[..answer.value])
    else None
  }

  lemma ToldSnoc(ops: seq<WriteOp>, answers: seq<Poll<nat>>, op: WriteOp, answer: Poll<nat>)
    requires |ops| == |answers|
    ensures Told(ops + [op], answers + [answer]) == Tell(Told(ops, answers), op, answer)
  {
    assert (ops + [op])[..|ops|] == ops && (answers + [answer])[..|answers|] == answers;
  }

  // ---- Scripts that let a writer finish ----

  /** The writer below may be busy, but never fails and never takes nothing. */
  predicate Steady(script: seq<WriteEvent>) {
    forall e :: e in script ==> e.WritePending? || (e.Accept? && e.n > 0)
  }

  /** How often the writer takes something, and how often it is busy. */
  function Takes(script: seq<WriteEvent>): nat {
    if script == [] then 0 else (if script[0].Accept? then 1 else 0) + Takes(script[1..])
  }

  function Stalls(script: seq<WriteEvent>): nat {
    if script == [] then 0 else (if script[0].Accept? then 0 else 1) + Stalls(script[1..])
  }

  /** Draining over a steady script with enough takes: it completes or stalls once. */
  lemma {:induction false} SteadyDrain(script: seq<WriteEvent>, n: nat)
    requires Steady(script) && Takes(script) >= n
    ensures var (outcome, taken, rest) := Drain(script, n);
            && Steady(rest) && Takes(rest) + taken >= Takes(script)
            && Stalls(rest) + (if outcome.Ready? then 0 else 1) == Stalls(script)
            && !outcome.Failed?
    decreases |script|
  {
    if n == 0 {
      DrainNothing(script);
    } else {
      DrainStep(script, n);
      if script[0].Accept? {
        SteadyDrain(script[1..], n - Min(script[0].n, n));
      }
    }
  }

  // ---- What draining does over a script, event by event ----

  function Sum(takes: seq<nat>): nat {
    if takes == [] then 0 else takes[0] + Sum(takes[1..])
  }

  function Accepts(takes: seq<nat>): seq<WriteEvent> {
    if takes == [] then [] else [Accept(takes[0])] + Accepts(takes[1..])
  }

  /** While bytes are left after some takes, the next event decides: a busy or exhausted stream
      leaves the call pending, an error is passed on, and a take of nothing is an error. */
  lemma {:induction false} DrainStops(takes: seq<nat>, rest: seq<WriteEvent>, n: nat)
    requires (forall i :: 0 <= i < |takes| ==> takes[i] > 0) && Sum(takes) < n
    ensures var r := Drain(Accepts(takes) + rest, n);
            && (rest == [] ==> r == (Pending, Sum(takes), []))
            && (rest != [] && rest[0] == WritePending ==> r == (Pending, Sum(takes), rest[1..]))
            && (rest != [] && rest[0] == Accept(0) ==> r == (Failed(WriteZero), Sum(takes), rest[1..]))
            && (rest != [] && rest[0].WriteFail? ==> r == (Failed(Inner(rest[0].code)), Sum(takes), rest[1..]))
  {
    hide Drain;
    var script := Accepts(takes) + rest;
    DrainStep(script, n);
    if takes == [] {
      assert script == rest;
    } else {
      assert script[1..] == Accepts(takes[1..]) + rest && script[0] == Accept(takes[0]);
      DrainStops(takes[1..], rest, n - takes[0]);
      assert NextWrite(script, n) == Ready(takes[0]);
    }
  }

  /** Once the takes reach what is left, draining is done and asks for nothing more. */
  lemma {:induction false} DrainCompletes(takes: seq<nat>, last: nat, rest: seq<WriteEvent>, n: nat)
    requires (forall i :: 0 <= i < |takes| ==> takes[i] > 0) && Sum(takes) < n <= Sum(takes) + last
    ensures Drain(Accepts(takes) + ([Accept(last)] + rest), n) == (Ready(()), n, rest)
  {
    hide Drain;
    var script := Accepts(takes) + ([Accept(last)] + rest);
    DrainStep(script, n);
    if takes == [] {
      assert script == [Accept(last)] + rest && script[1..] == rest;
      DrainNothing(rest);
    } else {
      assert script[1..] == Accepts(takes[1..]) + ([Accept(last)] + rest) && script[0] == Accept(takes[0]);
      DrainCompletes(takes[1..], last, rest, n - takes[0]);
      assert NextWrite(script, n) == Ready(takes[0]);
    }
  }
}
