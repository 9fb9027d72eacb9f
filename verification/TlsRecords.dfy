/** A reader of application-data records written from section 6.2.1 of RFC 5246 alone: content
    type 23, version 3.3, a big-endian length of at most 2^14 that must be there in full. */
module TlsRecords {
  import opened Streams
  import opened OptionType
  import opened TlsFraming

  /** The payload of the record at the front of `wire`, and what follows it. */
  function ReadRecord(wire: Bytes): Option<(Bytes, Bytes)> {
    if |wire| < 5 || wire[0] != 23 || wire[1] != 3 || wire[2] != 3 then None
    else
      var high: nat, low: nat := wire[3], wire[4];
      var n := high * 256 + low;
      if n > 16384 || |wire| < 5 + n then None else Some((wire[5..5 + n], wire[5 + n..]))
  }

  /** The payloads of records that make up all of `wire`. */
  function ReadRecords(wire: Bytes): Option<seq<Bytes>> {
    if wire == [] then Some([])
    else
      match ReadRecord(wire)
      case None => None
      case Some((payload, rest)) =>
        match ReadRecords(rest)
        case None => None
        case Some(payloads) => Some([payload] + payloads)
  }

  lemma RecordRead(chunk: Bytes, rest: Bytes)
    requires |chunk| <= 16384
    ensures ReadRecord(Record(chunk) + rest) == Some((chunk, rest))
  {
    var wire := Record(chunk) + rest;
    assert wire[..5] == [0x17, 0x03, 0x03] + U16Bytes(|chunk|);
    assert wire[3] == U16Bytes(|chunk|)[0] && wire[4] == U16Bytes(|chunk|)[1];
    assert wire[5..5 + |chunk|] == chunk && wire[5 + |chunk|..] == rest;
  }

  /** Records are read back one by one, and nothing else is on the wire. */
  lemma {:induction false} RecordsRead(chunks: seq<Bytes>)
    requires forall c :: c in chunks ==> |c| <= 16384
    ensures ReadRecords(Records(chunks)) == Some(chunks)
  {
    hide ReadRecord, Record;
    if chunks != [] {
      var front, rest := chunks[0], chunks[1..];
      RecordRead(front, Records(rest));
      RecordsRead(rest);
      assert Records(chunks) != [] by { RecordNonEmpty(front); }
      assert [front] + rest == chunks;
    }
  }

  lemma RecordNonEmpty(chunk: Bytes)
    ensures Record(chunk) != []
  {
  }
}
