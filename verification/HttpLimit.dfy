/** How much a caller that polls again after the limit error makes the HTTP wrapper buffer. */
module HttpLimit {
  import opened Streams
  import opened HttpFraming

  /** The header phase after some polls: what the inner stream will still answer, the bytes
      buffered, how often the limit was reported, and whether the terminator was found. */
  datatype Search = Search(script: seq<ReadEvent>, scratch: Bytes, errors: nat, found: bool)

  function Poll1(s: Search): Search {
    if s.found then s
    else
      match Seek(s.script, s.scratch)
      case (Found, _, rest) => Search(rest, [], s.errors, true)
      case (TooLong, scratch, rest) => Search(rest, scratch, s.errors + 1, false)
      case (Stopped(_), scratch, rest) => Search(rest, scratch, s.errors, false)
  }

  /** A new wrapper polled `polls` times over a script. */
  function Searched(script: seq<ReadEvent>, polls: nat): Search {
    if polls == 0 then Search(script, [], 0, false) else Poll1(Searched(script, polls - 1))
  }

  /** Every reported error made the buffer grow, by one read at most. */
  predicate Bracketed(s: Search) {
    && (s.found ==> s.scratch == [])
    && (!s.found ==> Find(s.scratch).None?)
    && (s.errors == 0 ==> |s.scratch| <= MAX_HEADER)
    && (!s.found && s.errors > 0 ==> MAX_HEADER + s.errors <= |s.scratch| <= MAX_HEADER + READ_SIZE * s.errors)
  }

  lemma {:induction false} SearchedBracketed(script: seq<ReadEvent>, polls: nat)
    ensures Bracketed(Searched(script, polls))
  {
    hide Find, Seek;
    if polls == 0 {
      NoneInNothing();
    } else {
      SearchedBracketed(script, polls - 1);
      var s := Searched(script, polls - 1);
      if !s.found {
        SeekOutcome(s.script, s.scratch);
      }
    }
  }

  lemma NoneInNothing()
    ensures Find([]).None?
  {
  }

  // ---- A peer that never ends its header ----

  function Zeros(n: nat): Bytes {
    seq(n, _ => 0)
  }

  /** `n` full reads without a CR or LF in them. */
  function Flood(n: nat): seq<ReadEvent> {
    if n == 0 then [] else [Data(Zeros(READ_SIZE))] + Flood(n - 1)
  }

  lemma SeekOne(n: nat, k: nat)
    requires n > 0
    ensures Seek(Flood(n), Zeros(READ_SIZE * k)) ==
            if READ_SIZE * (k + 1) > MAX_HEADER then (TooLong, Zeros(READ_SIZE * (k + 1)), Flood(n - 1))
            else Seek(Flood(n - 1), Zeros(READ_SIZE * (k + 1)))
  {
    var script, scratch := Flood(n), Zeros(READ_SIZE * k);
    SeekStep(script, scratch);
    assert script[1..] == Flood(n - 1);
    assert scratch + Zeros(READ_SIZE) == Zeros(READ_SIZE * (k + 1));
    NoneInZeros(READ_SIZE * (k + 1));
  }

  lemma NoneInZeros(n: nat)
    ensures Find(Zeros(n)).None?
  {
    var found := Find(Zeros(n));
    assert found.Some? ==> TermAt(Zeros(n), found.value);
  }

  /** The first poll reads 17 times before it reports the limit. */
  lemma {:induction false} SeekFlood(n: nat, k: nat)
    requires k <= 16 && n >= 17 - k
    ensures Seek(Flood(n), Zeros(READ_SIZE * k)) == (TooLong, Zeros(READ_SIZE * 17), Flood(n - (17 - k)))
    decreases 16 - k
  {
    hide Seek, Flood, Zeros;
    SeekOne(n, k);
    if k < 16 {
      SeekFlood(n - 1, k + 1);
    }
  }

  /** Over such a peer, `n` polls report the limit `n` times and buffer a read for each. */
  lemma {:induction false} FloodGrows(more: nat, n: nat)
    requires n > 0
    ensures Searched(Flood(n + 16 + more), n) == Search(Flood(more), Zeros(MAX_HEADER + READ_SIZE * n), n, false)
    decreases n
  {
    hide Seek, Flood, Zeros;
    if n == 1 {
      assert Searched(Flood(17 + more), 0) == Search(Flood(17 + more), [], 0, false);
      assert Zeros(READ_SIZE * 0) == [] by { ZerosNone(); }
      SeekFlood(17 + more, 0);
    } else {
      FloodGrows(more + 1, n - 1);
      SeekOne(more + 1, 16 + n - 1);
    }
  }

  lemma ZerosNone()
    ensures Zeros(0) == []
  {
  }

  lemma ZerosLength(n: nat)
    ensures |Zeros(n)| == n
  {
  }

  /** The bound on the buffer, one read past the limit, holds in every run that reported the
      limit `errors` times if and only if that is at most once. */
  lemma BoundIff(errors: nat)
    ensures (forall script, polls: nat :: Searched(script, polls).errors == errors ==>
                                            |Searched(script, polls).scratch| <= 17408)
            <==> errors <= 1
  {
    hide Searched, Find;
    if errors <= 1 {
      forall script, polls: nat | Searched(script, polls).errors == errors
        ensures |Searched(script, polls).scratch| <= MAX_HEADER + READ_SIZE
      {
        SearchedBracketed(script, polls);
      }
    } else {
      FloodGrows(0, errors);
      ZerosLength(MAX_HEADER + READ_SIZE * errors);
      assert Searched(Flood(errors + 16), errors).errors == errors;
      assert READ_SIZE * errors >= READ_SIZE * 2;
    }
  }
}
