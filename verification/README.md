# Verified model of the shadowsocks client's protocol code

This project models four parts of a shadowsocks client for HarmonyOS and proves what they promise.

* **The simple-obfs stream wrappers** of the native library. `TlsObfs` and `HttpObfs` are resumable state
  machines between a caller that polls with buffers of any size and an inner stream that may answer every poll
  with Pending, an error, its end, or any short count. Here the inner stream is an arbitrary script of such
  answers (`Streams.dfy`). The classes keep ghost histories of the bytes consumed, delivered and framed;
  invariants tie them to the concrete fields, and refinements say that reading is a one-shot
  deframing and writing a one-shot framing of the whole stream. The reading invariant of the TLS wrapper
  quantifies over every continuation of the wire, which is what makes its transitions compose. The write halves
  are refined to a writer on values, and what its answers tell the caller is compared with what was framed. The fake
  ClientHello is read back by a parser written from RFC 5246, RFC 6066 and RFC 5077.
* **The codecs and parsers** of the app: base64 with an accumulator that overflows, UTF-8 over UTF-16 code
  units, `ss://` links in both forms, and subscription bodies. They are loops proved against functions, and the
  functions are proved to round-trip over unbounded texts.
* **Plugin options and the configuration rewrite**: option strings as overrides, and a JSON-to-JSON
  transformation that redirects entries with a plugin and leaves everything else alone.
* **The instance behind the C ABI**: one object with the library's global cells. Who owns the runtime, the
  duplicated descriptors and the error buffers is proved over every run of calls.

| file | about |
|---|---|
| `Option.dfy`, `Strings.dfy`, `Streams.dfy` | optional values, texts, the byte stream below the wrappers |
| `Ledger.dfy`, `Writers.dfy`, `TlsWriter.dfy`, `HttpWriter.dfy` | both write halves on values, and what callers are told |
| `TlsFraming.dfy`, `TlsObfs.dfy`, `TlsSessions.dfy` | TLS mode: meaning, state machine, whole runs |
| `ClientHello.dfy`, `HelloParser.dfy`, `TlsRecords.dfy` | the fake hello and the independent parsers |
| `HttpFraming.dfy`, `HttpLimit.dfy`, `HttpRequest.dfy`, `HttpReceiver.dfy`, `HttpObfs.dfy`, `HttpSessions.dfy` | HTTP mode: meaning, request, state machine, whole runs |
| `Base64.dfy`, `Base64Encode.dfy`, `Utf8.dfy`, `Utf8Exact.dfy` | the codecs |
| `Links.dfy`, `LinkPlugins.dfy`, `Profile.dfy`, `Subscription.dfy`, `Sip008.dfy` | links, profiles, subscription bodies |
| `PluginOptions.dfy`, `OptionMeanings.dfy`, `PluginConfig.dfy`, `Instance.dfy` | plugin options, configuration rewrite, lifecycle |

## Where the code does not do what one would expect

* **What answers cover.** `poll_write` answers for the chunk it framed earlier, whatever the retry offers. A
  caller that gets Pending and retries with other bytes is told that those were written
  (`TlsWriter.OtherRetryMisleads`, `HttpWriter.OtherRetryMisleads`).
* **Flush between Pending and retry.** `poll_flush` drains the write buffer without clearing `pending_input`.
  A caller that gets Pending, flushes successfully and then retries sends its bytes twice, in both wrappers
  (`TlsSessions.FlushThenRetrySendsTwice`, `HttpSessions.FlushThenRetrySendsTwice`).
* **When the caller is told the truth.** After every call of a run, if and only if every write of it met its
  guard (`Writers.TruthfulIff`): a write that completes the waiting bytes offers them again, and none takes
  bytes while drained bytes wait for their answer. What a caller can tell before a call, without knowing the
  answers to come, is `Writers.CarefulIff`. A caller that retries like `copy_bidirectional` and does not flush in
  between is told the truth at every point (`Writers.DisciplineTruthful`).
* **Header limit.** After the limit error the HTTP wrapper stays in its header phase, and a caller that polls
  again makes it buffer another read (`HttpSessions.PollPastLimit`). The bound of 16384 + 1024 bytes holds for
  every script if and only if the limit was reported at most once (`HttpLimit.BoundIff`).
* **Empty server name.** A ClientHello for an empty server name has no valid server_name extension
  (`HelloRoundTrip.HelloCarries`). The app never builds one: an empty `obfs-host` gives way to the server host
  (`plugin.rs`, lines 183-186), to which a connection has just been made.
* **Host header.** A host that contains CRLFCRLF, or ends in CRLF when the port is 80, splits the fake request
  early, and no other does (`HttpRequest.HostFits`, `HttpRequest.RequestBody`). On port 80 a host with a ':', such
  as an IPv6 address, is announced as another host and port (`HttpReceiver.HostAnnounced`). An `obfs-host` option is trimmed,
  so it cannot end in CRLF, but it can contain CRLFCRLF.
* **Invalid UTF-8.** The decoder's comment says that invalid sequences are skipped. A lead byte takes whatever
  follows it for its tail, so most are turned into other characters (`Utf8Exact.LeadSwallows`), and overlong
  forms are accepted (`Utf8Exact.OverlongAccepted`). Only stray bytes are skipped (`Utf8Exact.StraySkipped`),
  and nothing is lost exactly for the sequences of `Utf8Exact.DecodeExact`.
* **SIP008 documents.** A null entry in `servers`, or a `servers` that is a number, a boolean or an object, makes
  the parser throw instead of giving the other entries or an empty list, and nothing else does
  (`SubscriptionText.BodyThrowsIff`, `SubscriptionText.NullEntryThrows`).

## Model

| member | source | states |
|---|---|---|
| TlsSessions.ReadToEnd | native/sslocal-ffi/src/obfs.rs:371-441 | for every chunking of the wire, every Pending and every sequence of buffer sizes, a caller that reads a new wrapper to the end holds exactly the one-shot deframing (ignore 105 bytes, then length and payload, then again behind 3 ignored bytes) of all the peer sent |
| TlsSessions.ReadReply | native/sslocal-ffi/src/obfs.rs:45-47 | a peer that puts its chunks (at most 16384 bytes each) into records behind any 102 bytes of handshake is read back as the concatenation of the chunks, for every chunking and buffer size |
| TlsObfs.TlsObfs.PollRead | native/sslocal-ffi/src/obfs.rs:371-441 | one call keeps the link between wire consumed, payload delivered and the resumable state; it terminates on any run of empty records; with room in the buffer it reports Pending, an error or nothing new only if the inner stream has just done so, so there is no false end of stream; no byte is lost or delivered twice |
| TlsObfs.TlsObfs.Refines | native/sslocal-ffi/src/obfs.rs:379-440 | in every reachable state the payload delivered is the one-shot deframing of exactly the wire consumed so far |
| TlsObfs.TlsObfs.PollDiscard | native/sslocal-ffi/src/obfs.rs:385-395 | ignoring at most 256 bytes keeps the link, and the remaining count never underflows |
| TlsObfs.TlsObfs.PollLength | native/sslocal-ffi/src/obfs.rs:396-414 | a length field may arrive one byte at a time; the bytes land at their place, in range, and keep the link |
| TlsReadState.LinkedNow | native/sslocal-ffi/src/obfs.rs:379-440 | the invariant, which quantifies over every continuation of the wire, gives the refinement for the wire as it is |
| TlsReadState.StepDiscard | native/sslocal-ffi/src/obfs.rs:385-395 | ignoring any part of the bytes to be ignored keeps the invariant |
| TlsReadState.StepLength | native/sslocal-ffi/src/obfs.rs:411-413 | appending length bytes keeps the invariant |
| TlsReadState.StepPayload | native/sslocal-ffi/src/obfs.rs:420-437 | handing over any part of a payload keeps the invariant |
| TlsObfs.TlsObfs.PollPayload | native/sslocal-ffi/src/obfs.rs:420-437 | payload goes from the inner stream to the caller byte for byte, never more than is left of the record or fits the buffer |
| TlsReadState.StepSilent | native/sslocal-ffi/src/obfs.rs:381-384 | the transitions that read nothing (Discard(0), a complete length, Payload(0)) keep the invariant |
| TlsReadState.LinkedPrefix | native/sslocal-ffi/src/obfs.rs:371-441 | what is delivered is a prefix of what any longer wire gives: nothing is delivered early |
| TlsFraming.DeframeRecords | native/sslocal-ffi/src/obfs.rs:471-475 | deframing inverts the records of the writer, for every list of chunks below 65536 bytes, empty ones included |
| TlsFraming.DeframeRecord | native/sslocal-ffi/src/obfs.rs:415-419 | one record at the front of any wire yields its chunk and then whatever the rest yields |
| TlsFraming.WriterReaderAgree | native/sslocal-ffi/src/obfs.rs:45-47 | because 105 = 102 + 3, a reader that starts by ignoring 105 bytes and a writer that puts records behind 102 bytes agree on every list of chunks |
| TlsSessions.CopyOut | native/sslocal-ffi/src/obfs.rs:445-489 | copying any source with retries that extend the pending chunk, over any script: the calls made are exactly those of the discipline, the wrapper and the answers are those of the writer on values, the caller was told of a prefix of the source, and the bytes framed are that prefix and the waiting chunk; whenever nothing waits the server decodes exactly the bytes reported; over a script that never fails and takes often enough, everything is reported and sent |
| TlsSessions.OfferAgain | native/sslocal-ffi/src/obfs.rs:452-478 | one call under that discipline reports a prefix of the offered buffer exactly once and leaves the pending chunk a prefix of it |
| TlsSessions.WriteRun | native/sslocal-ffi/src/obfs.rs:445-505 | any run of writes and flushes on a new wrapper gives the answers and the state of the writer on values, with every framed byte sent or in the buffer; the caller is told the truth after every call if and only if every write met its guard |
| TlsSessions.FlushThenRetrySendsTwice | native/sslocal-ffi/src/obfs.rs:491-497 | on a new wrapper over a stream that is busy once: Pending, a flush that drains and the retry of a chunk leave that chunk on the wire twice, and the retry is answered for it once |
| TlsObfs.TlsObfs.PollWrite | native/sslocal-ffi/src/obfs.rs:445-489 | a waiting chunk is finished and reported before the new buffer is looked at; otherwise at most 16384 bytes of it become the next chunk; sent bytes and unsent tail stay the frames of all chunks; outcome and write position follow from the inner writer's answers alone |
| TlsObfs.TlsObfs.PollDrainWriteBuf | native/sslocal-ffi/src/obfs.rs:352-368 | exactly the next unsent bytes reach the wire, in order; the buffer is cleared when and only when all of them did; a zero write is an error |
| TlsObfs.TlsObfs.FrameChunk | native/sslocal-ffi/src/obfs.rs:467-478 | the first chunk goes into the hello, every later one into a record of its own |
| TlsObfs.TlsObfs.PollFlush | native/sslocal-ffi/src/obfs.rs:491-505 | a flush (or shutdown) answers ready only with every frame on the wire; it is passed on only once the buffer is drained |
| TlsObfs.TlsObfs.Books | native/sslocal-ffi/src/obfs.rs:316-320 | in every reachable state sent bytes and unsent tail are the frames of all chunks, and the chunks are those answered for and the waiting one exactly when none was orphaned |
| TlsObfs.TlsObfs.constructor | native/sslocal-ffi/src/obfs.rs:334-348 | a new wrapper has consumed, delivered, framed and reported nothing |
| Streams.DrainBuffer | native/sslocal-ffi/src/obfs.rs:353-367 | the drain loop: bytes taken and unsent bytes always add up to the buffer, over every script of answers |
| Writers.TruthfulIff | native/sslocal-ffi/src/obfs.rs:445-505 | in both modes, from a new writer and over every script: what the caller was told (of each buffer the part its answer covers), followed by the waiting bytes, is exactly what was framed and passed through after every call, if and only if every write met its guard: a write that completes waiting bytes offers them again, and no bytes are taken while drained bytes wait for their answer |
| Writers.StepTruthful | native/sslocal-ffi/src/obfs.rs:445-505 | one call keeps a truthful writer truthful exactly when it meets the guard, which takes the answers the inner stream has ready into account |
| Writers.CarefulIff | native/sslocal-ffi/src/obfs.rs:452-478 | whatever the inner stream will answer, a call keeps a truthful writer truthful if and only if it offers the waiting bytes again while some are unsent, and otherwise nothing waits or nothing is offered: a condition on the state before the call alone |
| Writers.DisciplineTruthful | native/sslocal-ffi/src/obfs.rs:454-457 | a caller that always offers, from the first unreported byte on, at least the waiting bytes, as `copy_bidirectional` does, and never flushes between Pending and the retry is told the truth at every point, in both modes |
| TlsWriter.FlushThenRetryFramesTwice | native/sslocal-ffi/src/obfs.rs:491-497 | a flush between Pending and the retry breaks the guard: the chunk is framed twice, the caller is told of it once |
| TlsWriter.OtherRetryMisleads | native/sslocal-ffi/src/obfs.rs:453-458 | a retry that does not start with the pending chunk breaks the guard without any flush: the chunk is sent, and the caller is told of other bytes or of more than it offered |
| TlsWriter.SteadyWrite | native/sslocal-ffi/src/obfs.rs:352-368 | over a script that never fails, a write answers for at least one byte or uses up one stall, and never takes more than its frame needs |
| WriteLedger.SteadyDrain | native/sslocal-ffi/src/obfs.rs:353-367 | draining over such a script completes or uses up one stall, and never fails |
| WriteLedger.DrainStops | native/sslocal-ffi/src/obfs.rs:352-368 | after any takes that leave bytes unsent, a busy stream leaves the drain pending, an error is passed on, and a take of nothing is the write-zero error, with exactly the bytes taken sent |
| WriteLedger.DrainCompletes | native/sslocal-ffi/src/obfs.rs:352-368 | the take that reaches the end of the buffer completes the drain, and nothing more is asked |
| TlsSessions.Call | native/sslocal-ffi/src/obfs.rs:445-505 | a write or flush on the wrapper is that call on values |
| TlsWire.FramesSnoc | native/sslocal-ffi/src/obfs.rs:467-476 | framing one more chunk only appends to the wire |
| TlsWire.ServerRecovers | native/sslocal-ffi/src/obfs.rs:464-476 | a server that reads the hello as the standard says, and behind it application-data records and nothing else, recovers the concatenated chunks, for every list of chunks and every server name up to 48939 bytes |
| TlsWire.ServerReads | native/sslocal-ffi/src/obfs.rs:467-476 | the session ticket is the first chunk, and the rest of the wire is read as exactly one application-data record for each later chunk |
| TlsRecords.RecordsRead | native/sslocal-ffi/src/obfs.rs:471-475 | a reader that accepts only content type 23, version 3.3 and an exact length of at most 2^14 (section 6.2.1 of RFC 5246) reads the records of any list of chunks back one by one |
| HelloRoundTrip.HelloCarries | native/sslocal-ffi/src/obfs.rs:511-600 | the record is read by the independent parser as one ClientHello with `data` in the session ticket and `server` as its only host name if and only if the name is non-empty and 212 + data + server <= 65535 |
| HelloRoundTrip.HelloRead | native/sslocal-ffi/src/obfs.rs:511-600 | at the front of a longer wire, every nested length is exact: the parser stops right behind the hello and recovers ticket, name, random and session id |
| HelloRoundTrip.HelloOffers | native/sslocal-ffi/src/obfs.rs:538-597 | read back: timestamp and random, session id, the 28 cipher suites, the null compression, and the seven extensions in their order with their fixed contents |
| HelloRoundTrip.RecordRead | native/sslocal-ffi/src/obfs.rs:523-533 | record and handshake lengths (sections 6.2.1 and 7.4 of RFC 5246) enclose exactly the body |
| HelloRoundTrip.BodyRead | native/sslocal-ffi/src/obfs.rs:535-563 | version, random, session id, cipher suites and compression methods are read back as section 7.4.1.2 of RFC 5246 lays them out, and the extension block uses up the body |
| HelloRoundTrip.ExtensionsRead | native/sslocal-ffi/src/obfs.rs:565-597 | the extension block is seven distinct extensions with exact lengths (section 7.4.1.4 of RFC 5246) |
| HelloRoundTrip.NameRead | native/sslocal-ffi/src/obfs.rs:565-576 | the session ticket is the payload (section 3.2 of RFC 5077) and the server_name entry is the server, where an empty name is not an entry (section 3 of RFC 6066) |
| ClientHello.BuildClientHello | native/sslocal-ffi/src/obfs.rs:511-600 | the bytes appended one by one are the nested vectors of the standard, every length cut to 16 bits |
| ClientHello.BuildHelloBody | native/sslocal-ffi/src/obfs.rs:535-563 | the part behind the handshake header is version, random and four length-prefixed vectors |
| ClientHello.BuildExtensions | native/sslocal-ffi/src/obfs.rs:565-597 | the literal bytes and length fields are seven extensions, each behind the length of its own body |
| ClientHello.U16Wrap | native/sslocal-ffi/src/obfs.rs:526-573 | adding lengths cut to 16 bits and wrapping gives the same two bytes as cutting the true sum |
| HttpSessions.ReadToEnd | native/sslocal-ffi/src/obfs.rs:158-226 | for every chunking and every sequence of buffer sizes the caller of a new wrapper gets exactly what lies behind the first CRLFCRLF of the whole stream, or nothing and the limit error; never the error when the header ends by byte 16385, always when it ends past 17408 or, unterminated, exceeds 16384 |
| HttpObfs.HttpObfs.PollRead | native/sslocal-ffi/src/obfs.rs:158-226 | leftover bytes go out before anything is read; the header phase ends as a search over the inner reads does; delivered and leftover bytes stay what lies behind the first terminator of the wire consumed; nothing new with room in the buffer means the inner stream has just reported its end, also when the header ends at a read boundary |
| HttpObfs.HttpObfs.PollHeader | native/sslocal-ffi/src/obfs.rs:179-222 | the incremental search finds what one search over all bytes read would find; the limit error comes exactly with more than 16384 bytes without a terminator |
| HttpObfs.HttpObfs.TakeBody | native/sslocal-ffi/src/obfs.rs:193-204 | bytes behind the terminator go to the caller as far as there is room and are kept otherwise, at most 1023 of them |
| HttpObfs.HttpObfs.TakeLeftover | native/sslocal-ffi/src/obfs.rs:167-177 | kept bytes are handed out in order, none twice |
| HttpObfs.HttpObfs.Passthrough | native/sslocal-ffi/src/obfs.rs:213-225 | after the header the caller's buffer goes to the inner stream and its answer is passed on unchanged |
| HttpObfs.HttpObfs.Finished | native/sslocal-ffi/src/obfs.rs:158-226 | in every reachable state without leftover bytes, delivered is what lies behind the first terminator of the wire consumed; before any limit error an unterminated header is within 16384 bytes and a terminated one within 17408 |
| HttpObfs.HttpObfs.Searching | native/sslocal-ffi/src/obfs.rs:183-221 | while the terminator is missing nothing is delivered, and the limit error implies more than 16384 bytes read |
| HttpFraming.FindDoubleCrlf | native/sslocal-ffi/src/obfs.rs:283-293 | the index loop returns the first CRLFCRLF, and None exactly when there is none |
| HttpFraming.TerminatorIs | native/sslocal-ffi/src/obfs.rs:288 | the terminator is the bytes 13, 10, 13, 10 |
| HttpFraming.FindExtends | native/sslocal-ffi/src/obfs.rs:192-193 | a terminator found in a prefix is the first one of the whole stream, and the rest only appends to the body |
| HttpFraming.FindStraddles | native/sslocal-ffi/src/obfs.rs:192-198 | a terminator that appears with a read ends inside that read, even if it began before, so fewer bytes than were read are left over |
| HttpFraming.SeekOutcome | native/sslocal-ffi/src/obfs.rs:184-221 | over every script: found exactly when the buffered bytes hold a terminator, too long exactly when they exceed the limit without one, and buffered bytes exceed the limit by at most one read |
| HttpLimit.BoundIff | native/sslocal-ffi/src/obfs.rs:183-220 | the bound of 16384 + 1024 buffered bytes holds in every run that reported the limit error a given number of times, over every script and number of polls, if and only if that number is at most one |
| HttpLimit.SearchedBracketed | native/sslocal-ffi/src/obfs.rs:184-221 | after any number of polls over any script: at most 16384 bytes are buffered without an error, and with n errors between 16384 + n and 16384 + 1024 n |
| HttpLimit.FloodGrows | native/sslocal-ffi/src/obfs.rs:215-220 | a peer that sends full reads without a CRLF makes n polls report the limit n times and buffer 16384 + 1024 n bytes |
| HttpSessions.SearchRun | native/sslocal-ffi/src/obfs.rs:179-222 | polling a new wrapper any number of times, with any buffers, leaves the scratch buffer, the error count and the phase of the search on values |
| HttpSessions.PollPastLimit | native/sslocal-ffi/src/obfs.rs:215-220 | a new wrapper polled n times over such a peer holds 16384 + 1024 n bytes |
| HttpObfs.HttpObfs.Buffers | native/sslocal-ffi/src/obfs.rs:70-74 | in every reachable state at most 1023 bytes are left over, and at most 17408 are buffered until the limit error was reported twice |
| HttpSessions.CopyOut | native/sslocal-ffi/src/obfs.rs:230-264 | copying any source with retries that extend the pending bytes, over any script: the calls made are exactly those of the discipline, the wrapper and the answers are those of the writer on values, and the wire is one request with the first buffer followed by the later bytes as they are; once the request is out a receiver that cuts at the first CRLFCRLF has exactly the bytes reported, with Content-Length equal to the first buffer, for every host without CR and LF; over a script that never fails and takes often enough, everything is reported and sent |
| HttpSessions.OfferAgain | native/sslocal-ffi/src/obfs.rs:239-263 | one call under that discipline reports a prefix of the offered buffer exactly once |
| HttpSessions.Received | native/sslocal-ffi/src/obfs.rs:116-135 | whatever follows the request, the receiver cuts it at the same place and reads the same length |
| HttpSessions.WriteRun | native/sslocal-ffi/src/obfs.rs:230-281 | any run of writes and flushes on a new wrapper gives the answers and the state of the writer on values, with request and passed-through bytes sent or in the buffer; the caller is told the truth after every call if and only if every write met its guard |
| HttpSessions.FlushThenRetrySendsTwice | native/sslocal-ffi/src/obfs.rs:266-272 | on a new wrapper over a stream that is busy once: Pending, a flush that drains and the retry leave the bytes on the wire twice, in the request and behind it |
| HttpWriter.FlushThenRetryPassesTwice | native/sslocal-ffi/src/obfs.rs:266-272 | a flush between Pending and the retry breaks the guard: the bytes are sent twice, the caller is told of them once |
| HttpWriter.OtherRetryMisleads | native/sslocal-ffi/src/obfs.rs:239-244 | a retry that does not start with the pending bytes breaks the guard without any flush |
| HttpWriter.SteadyWrite | native/sslocal-ffi/src/obfs.rs:230-264 | over a script that never fails, a write passes on at least one byte or uses up one stall |
| HttpSessions.Call | native/sslocal-ffi/src/obfs.rs:230-281 | a write or flush on the wrapper is that call on values |
| HttpObfs.HttpObfs.PollWrite | native/sslocal-ffi/src/obfs.rs:230-264 | the request is framed once, around the first buffer, and drained before anything else; afterwards the call is the inner write; sent bytes and unsent tail stay request plus passed-through bytes |
| HttpObfs.HttpObfs.PollDrainWriteBuf | native/sslocal-ffi/src/obfs.rs:139-155 | exactly the next unsent bytes reach the wire; the buffer is cleared when and only when all of them did |
| HttpObfs.HttpObfs.FrameRequest | native/sslocal-ffi/src/obfs.rs:246-251 | the first buffer, also an empty one, becomes the body of the one request |
| HttpObfs.HttpObfs.PollFlush | native/sslocal-ffi/src/obfs.rs:266-280 | a flush or shutdown is passed on only once the buffer is drained, and leaves a drained body unreported |
| HttpObfs.HttpObfs.Books | native/sslocal-ffi/src/obfs.rs:64-68 | in every reachable state sent bytes and unsent tail are the request and the passed-through bytes, and these are the bytes answered for and the waiting ones exactly when none was orphaned |
| HttpObfs.HttpObfs.constructor | native/sslocal-ffi/src/obfs.rs:77-92 | a new wrapper has consumed, delivered, framed and reported nothing |
| HttpRequest.BuildHttpRequest | native/sslocal-ffi/src/obfs.rs:101-136 | the bytes written are seven header lines, a blank line and the body; the port is left out of the host exactly when it is 80 |
| HttpRequest.RequestBody | native/sslocal-ffi/src/obfs.rs:106-134 | cutting at the first CRLFCRLF recovers the body if and only if the host holds no CRLFCRLF and, on port 80, does not end in CRLF, for every body and random part |
| HttpRequest.HostFits | native/sslocal-ffi/src/obfs.rs:106-121 | the host header and its line end form a CRLFCRLF exactly for the other hosts |
| HttpRequest.RequestRecovered | native/sslocal-ffi/src/obfs.rs:116-134 | for a host without CR and LF the receiver recovers the body and, line by line, a Content-Length equal to its size |
| HttpReceiver.HostAnnounced | native/sslocal-ffi/src/obfs.rs:101-132 | a receiver that splits the header into fields and cuts Host at the last ':' learns the very host and port, the request line, the upgrade, the connection, the key and the user agent, for every host without CR and LF, if and only if on port 80 the host has no ':' of its own |
| HttpReceiver.HostCut | native/sslocal-ffi/src/obfs.rs:106-110 | host and port are recovered from the Host field exactly under that condition |
| HttpRequest.LinesJoin | native/sslocal-ffi/src/obfs.rs:120-127 | splitting a block of lines at CRLF inverts joining, for lines without CR and LF |
| Decimals.ValueOfDigits | native/sslocal-ffi/src/obfs.rs:126-132 | a number printed in decimal is read back as the number |
| Base64.DecodeBase64 | entry/src/main/ets/model/Profile.ets:88-114 | for every text: the bytes pushed are the whole bytes of the one big number its characters spell, although the 32-bit accumulator is never masked; any other character before the first '=' is an error |
| Base64.PushKeepsNumber | entry/src/main/ets/model/Profile.ets:106 | shifting in six bits keeps the accumulator equal to the whole number cut to 32 bits, however long the input |
| Base64.Top8OfNumber | entry/src/main/ets/model/Profile.ets:107-110 | the eight bits taken from the wrapped, possibly negative accumulator are those of the whole number, for each shift that occurs |
| Base64.CarriedMore | entry/src/main/ets/model/Profile.ets:107-111 | a further character completes exactly one byte and leaves the bytes before it as they were |
| Base64.DigitsOfBytes | entry/src/main/ets/model/Profile.ets:91-110 | cutting the number of a byte sequence into bytes gives back the sequence |
| Base64Encode.DecodeInvertsEncode | entry/src/main/ets/model/Profile.ets:82-114 | for bytes of any number: the standard or URL-safe encoding (sections 4 and 5 of RFC 4648), padded or not, with blanks inserted anywhere, decodes to those bytes |
| Base64Encode.EncodeNumber | entry/src/main/ets/model/Profile.ets:89-111 | the characters of an encoding spell the number of the bytes, moved left by the padding bits |
| Base64Encode.ValuesIgnoreBlanks | entry/src/main/ets/model/Profile.ets:99-101 | blanks change nothing, wherever they stand |
| Base64Encode.BlankAnywhere | entry/src/main/ets/model/Profile.ets:99-101 | a space, tab, carriage return or line feed may stand anywhere in the text |
| Base64Encode.OtherRefused | entry/src/main/ets/model/Profile.ets:102-105 | any other character outside the alphabets, in front of the padding, makes the text invalid |
| Base64Encode.AlphabetIs | entry/src/main/ets/model/Profile.ets:89-90 | the alphabet, and the two characters that differ in the URL-safe one |
| Base64Encode.ValuesOfChars | entry/src/main/ets/model/Profile.ets:90-105 | both alphabets are read back, and '=' ends the input |
| Utf8.DecodeInvertsEncode | entry/src/main/ets/model/JsonStore.ets:87-154 | decoding inverts encoding for every sequence of UTF-16 code units, unpaired surrogates included |
| Utf8.EncodeIsUtf8 | entry/src/main/ets/model/JsonStore.ets:87-111 | for well-formed text the bytes are, character by character, those of section 3 of RFC 3629 |
| Utf8.EncodeLength | entry/src/main/ets/model/JsonStore.ets:87-111 | an encoding has at most three bytes for each code unit |
| Utf8.EncodeUtf8 | entry/src/main/ets/model/JsonStore.ets:87-111 | the index loop, with its double step over surrogate pairs, yields the concatenated encodings of the codes of the text |
| Utf8.CodeBytesUtf8 | entry/src/main/ets/model/JsonStore.ets:99-108 | the bytes of a code are a UTF-8 sequence of the shortest form with the bits of the code in their free places |
| Utf8.DecodeUtf8 | entry/src/main/ets/model/Profile.ets:120-161 | the decoder loop skips a stray byte, stops before a truncated sequence and otherwise reads sequence after sequence |
| Utf8.ExtendCode | entry/src/main/ets/model/Profile.ets:132-150 | the lead byte of an encoded code announces its length and, extended by the tail, gives the code back |
| Utf8.UnitsOfFirst | entry/src/main/ets/model/Profile.ets:151-157 | a code is written back as the very units it was read from |
| Utf8Exact.DecodeExact | entry/src/main/ets/model/Profile.ets:116-161 | for every byte sequence: encoding what was decoded gives it back if and only if it consists of shortest-form sequences with none for a low surrogate right behind one for a high surrogate |
| Utf8Exact.LeadSwallows | entry/src/main/ets/model/Profile.ets:132-158 | a lead byte with a letter behind it is not skipped: both become one other character |
| Utf8Exact.OverlongAccepted | entry/src/main/ets/model/Profile.ets:132-158 | nor is an overlong form: two bytes for an ASCII character are read as the character |
| Utf8Exact.StraySkipped | entry/src/main/ets/model/Profile.ets:141-144 | a byte that leads nothing is skipped, and what stands before and behind it is decoded as if it were not there |
| Utf8Exact.CutOffDropped | entry/src/main/ets/model/Profile.ets:145-147 | a sequence cut off at the end is dropped, and what stands before it is kept |
| Utf8Exact.EncodeCanonical | entry/src/main/ets/model/JsonStore.ets:87-111 | an encoding has that form, for every sequence of code units |
| Utf8.DecodeCode | entry/src/main/ets/model/Profile.ets:123-158 | a code at the front of any byte sequence is decoded without touching what follows |
| Links.Sip002RoundTrip | entry/src/main/ets/model/Profile.ets:182-267 | a printed SIP002 link gives back cipher, password (with ':' and '@'), host with or without brackets, and port, whatever query and fragment follow, in either alphabet, padded or not |
| Links.LegacyRoundTrip | entry/src/main/ets/model/Profile.ets:227-242 | the same for the legacy form, for hosts with '#' and '?' as well |
| Links.Sip002Exact | entry/src/main/ets/model/Profile.ets:182-267 | the plain SIP002 link of arbitrary fields is read back as those fields if and only if cipher, password and host are non-empty, the cipher has no ':', the host none of @ # ? and brackets, and the port is in 1..65535 |
| Links.LegacyExact | entry/src/main/ets/model/Profile.ets:227-257 | the plain legacy link of arbitrary fields is read back as those fields if and only if cipher, password and host are non-empty, the cipher has no ':', the host no '@' and no brackets, and the port is in 1..65535 |
| Links.ParsedComplete | entry/src/main/ets/model/Profile.ets:246-257 | every accepted link starts with `ss://` and has a non-empty host, cipher, password and name, and a port in 1..65535 |
| Text.Delimiters | entry/src/main/ets/model/Profile.ets:189-246 | the delimiters of a link, as the characters they are |
| Links.CredentialsRead | entry/src/main/ets/model/Profile.ets:221-226 | user info is cut at the first ':', so a password may contain one |
| Links.AddressReads | entry/src/main/ets/model/Profile.ets:246-254 | host and port are cut at the last ':', brackets are dropped and the port is read back |
| Links.SuffixCuts | entry/src/main/ets/model/Profile.ets:187-200 | the fragment is cut off before the query, so '?' in a fragment is harmless |
| Text.ParseDecimal | entry/src/main/ets/model/Profile.ets:251 | reading an integer inverts printing it |
| Text.ParseDigits | entry/src/main/ets/model/Profile.ets:251 | reading stops behind the digits |
| Text.ParseSigned | entry/src/main/ets/model/Profile.ets:251 | one sign in front of the digits counts |
| Text.ParseNothing | entry/src/main/ets/model/Profile.ets:251 | without a digit there is no number |
| Profiles.ParseUrl | entry/src/main/ets/model/Profile.ets:182-267 | the parser returns null exactly for texts that hold no link, and otherwise a new profile with the fields of the link and every other field at its default |
| Profiles.ReadQuery | entry/src/main/ets/model/Profile.ets:195-211 | the query loop computes what the parameters mean; `LinkPlugins.PluginRead` and `LinkPlugins.NoPluginRead` say what that is |
| LinkPlugins.PluginRead | entry/src/main/ets/model/Profile.ets:195-211 | a link of either form whose query sets `plugin=` to the encoding of `name;options` gives exactly that name and those options, whatever stands before the parameter and whatever other parameters follow; without a ';' all of it is the name |
| LinkPlugins.NoPluginRead | entry/src/main/ets/model/Profile.ets:195-211 | a link without a query, or with one in which no parameter starts with `plugin=`, names no plugin |
| LinkPlugins.NameRead | entry/src/main/ets/model/Profile.ets:187-193 | the name of a link is its decoded fragment, or its host where that is missing or empty; its other fields are those printed |
| Profiles.DecodeBase64Text | entry/src/main/ets/model/Profile.ets:88-114 | base64 and UTF-8 decoding one after the other; None where the former throws |
| Profiles.Fill | entry/src/main/ets/model/Profile.ets:258-266 | the fields of a link are set on a new profile, and no others |
| Profiles.Profile.constructor | entry/src/main/ets/model/Profile.ets:54-73 | the defaults of a profile |
| SubscriptionText.WrappingTransparent | entry/src/main/ets/model/Subscription.ets:113-143 | for every text that mentions `ss://` and is no document, the text and its base64 give the same links: the in-order links of its trimmed lines |
| SubscriptionText.LinksJoin | entry/src/main/ets/model/Subscription.ets:129-141 | what stands on one line never affects the links of another |
| Sip008.LineMeans | entry/src/main/ets/model/Subscription.ets:129-135 | a line gives the link in its trimmed text, or nothing |
| SubscriptionText.LinksIgnoreFront | entry/src/main/ets/model/Subscription.ets:114-115 | blanks before the first line, line ends included, change nothing |
| SubscriptionText.LinksIgnoreBack | entry/src/main/ets/model/Subscription.ets:114-115 | blanks after the last line, line ends included, change nothing |
| SubscriptionText.EncodedOpaque | entry/src/main/ets/model/Subscription.ets:118-126 | an encoding is never mistaken for plain links or a document |
| Subscriptions.ParseSubscriptionBody | entry/src/main/ets/model/Subscription.ets:113-143 | parsing throws exactly for the bodies named by `SubscriptionText.BodyThrowsIff`; otherwise the profiles are new, distinct objects, one for each link of the body in order, each with its link's fields, the subscription's id, an id of its own and defaults elsewhere |
| SubscriptionText.BodyThrowsIff | entry/src/main/ets/model/Subscription.ets:113-168 | parsing throws if and only if the body is, or encodes, a JSON document whose `servers` is a number, a boolean or an object, or holds a null entry |
| SubscriptionText.NullEntryThrows | entry/src/main/ets/model/Subscription.ets:153-156 | a null entry anywhere in `servers`, or a `servers` that cannot be iterated, throws, whatever links the other entries hold |
| Subscriptions.ParseLines | entry/src/main/ets/model/Subscription.ets:128-142 | a line that is blank or no link is skipped and affects no other |
| Subscriptions.ParseLine | entry/src/main/ets/model/Subscription.ets:130-135 | a line gives a profile exactly when its trimmed text is a link |
| Subscriptions.ParseSip008 | entry/src/main/ets/model/Subscription.ets:145-168 | text that is no JSON gives nothing; a null entry or a `servers` that cannot be iterated throws; otherwise the profiles are those of the entries, in order |
| Sip008.EntryMeans | entry/src/main/ets/model/Subscription.ets:154-165 | an entry gives a profile if and only if server, password and method are given and not empty and the port is given and not 0; every field of the profile is that of the entry, and its name the remark or the server |
| Sip008.EntryIsLink | entry/src/main/ets/model/Subscription.ets:157-162 | an entry and the link printed from its fields, in either form, give the same profile; remarks stand for the fragment |
| Sip008.EntriesJoin | entry/src/main/ets/model/Subscription.ets:153-166 | the profiles of a document are those of its parts, in order, and an entry that is skipped changes nothing |
| Sip008.DocumentMeans | entry/src/main/ets/model/Subscription.ets:113-127 | a document and its base64 give the profiles of its entries |
| Sip008.GarbageMeansNothing | entry/src/main/ets/model/Subscription.ets:118-125 | a body that is no document, mentions no `ss://` and is no base64 gives no profiles |
| Subscriptions.Adopt | entry/src/main/ets/model/Subscription.ets:136-138 | stamping and pushing a profile changes no other profile of the list |
| PluginOptions.ObfsLastWins | native/sslocal-ffi/src/plugin.rs:137-151 | the outcome depends on the last `obfs` and the last `obfs-host` alone |
| PluginOptions.ObfsOverride | native/sslocal-ffi/src/plugin.rs:141-151 | parsing `a;b` is applying the options of `b` to the result for `a`, for all strings |
| PluginOptions.ParseSimpleObfsOpts | native/sslocal-ffi/src/plugin.rs:137-163 | the token loop folds the options in order; `OptionMeanings.ObfsMeans` says what the outcome is |
| OptionMeanings.ObfsMeans | native/sslocal-ffi/src/plugin.rs:137-163 | the last `obfs` decides between HTTP mode, TLS mode, a missing and an unknown mode, and the last `obfs-host` names the host |
| OptionMeanings.ObfsPrinted | native/sslocal-ffi/src/plugin.rs:137-163 | printed options are read back as mode and host |
| OptionMeanings.NamesMean | native/sslocal-ffi/src/plugin.rs:127-133 | three names select simple-obfs, one v2ray-plugin, and every other name is refused by name |
| OptionMeanings.KeyValueReads | native/sslocal-ffi/src/plugin.rs:142-145 | a token is cut at its first '=', and a bare key has the value of a bare key |
| PluginOptions.TokensJoin | native/sslocal-ffi/src/plugin.rs:141 | the tokens of `a;b` are those of `a` and then those of `b` |
| PluginOptions.V2rayRejects | native/sslocal-ffi/src/v2ray_plugin.rs:109-118 | options are rejected if and only if some `mode` in them is unsupported, wherever it stands |
| PluginOptions.V2rayOverride | native/sslocal-ffi/src/v2ray_plugin.rs:100-140 | parsing `a;b` is applying `b` to the result for `a`, and an error in `a` is final |
| PluginOptions.V2rayLastTexts | native/sslocal-ffi/src/v2ray_plugin.rs:120-121 | the last host and the last path decide, with the defaults where there is none |
| PluginOptions.V2rayLastSwitches | native/sslocal-ffi/src/v2ray_plugin.rs:119-123 | the last value of each of the three switches decides; a bare key switches on |
| PluginOptions.V2rayHeaders | native/sslocal-ffi/src/v2ray_plugin.rs:124-132 | the headers are exactly the named ones, each with its last value; malformed entries add none |
| OptionMeanings.HeaderReads | native/sslocal-ffi/src/v2ray_plugin.rs:124-128 | a printed header is read back as name and value |
| OptionMeanings.Spellings | native/sslocal-ffi/src/v2ray_plugin.rs:91-111 | how switches and modes may be spelled, in any case |
| PluginOptions.V2rayFirstBad | native/sslocal-ffi/src/v2ray_plugin.rs:109-118 | the error names the value of the first unsupported mode |
| PluginOptions.ParseV2rayOpts | native/sslocal-ffi/src/v2ray_plugin.rs:100-140 | the token loop folds the options in order and returns at the first bad mode |
| PluginConfig.ExtractPluginSpecs | native/sslocal-ffi/src/lib.rs:111-124 | success yields exactly one spec for every entry that declares a plugin, read from that very entry, the top level first and the servers in their order; an error is that of the first entry that cannot be read; it succeeds if and only if every entry with a plugin has a string plugin with accepted options, a string server and a port from 0 to 65535 |
| PluginConfig.ExtractMeans | native/sslocal-ffi/src/lib.rs:126-168 | an entry is readable if and only if plugin and server are strings, the options (empty unless a string) are accepted and the port is an integer from 0 to 65535; kind, host and port are then those its fields say |
| PluginConfig.ExtractFails | native/sslocal-ffi/src/lib.rs:126-161 | otherwise the error is that of the first field missing or wrong: plugin, options, server, port |
| PluginConfig.CompleteUnique | native/sslocal-ffi/src/lib.rs:111-124 | the specs of a configuration are determined by it, with their order |
| PluginConfig.RewrittenUnique | native/sslocal-ffi/src/lib.rs:182-205 | the rewritten configuration is determined by the given one, the specs and the ports |
| PluginConfig.ApplyPluginForwarders | native/sslocal-ffi/src/lib.rs:174-207 | success if and only if every listener could be bound; then one forwarder runs for each plugin with its own kind, host and port, and the configuration is the given one with exactly those entries redirected to them |
| PluginConfig.PluginEntryServed | native/sslocal-ffi/src/lib.rs:182-204 | every entry that had a plugin now points at 127.0.0.1 and the port of a forwarder whose host and port are the `server` and `server_port` fields of that entry and whose kind is what its `plugin` and `plugin_opts` mean, without plugin keys and with every other key unchanged |
| PluginConfig.PlainEntryKept | native/sslocal-ffi/src/lib.rs:197-204 | every entry without a plugin is as it was |
| PluginConfig.NoPluginLeft | native/sslocal-ffi/src/lib.rs:170-173 | after the rewrite no entry declares a plugin |
| PluginConfig.Runtime.StartForwarder | native/sslocal-ffi/src/plugin.rs:201-248 | a forwarder that binds lives on the runtime with the given target; one that does not leaves nothing |
| InstanceRuns.Run | native/sslocal-ffi/src/lib.rs:211-261 | over every run of start, stop, error and address calls on a new library, counted by the codes they returned: successful starts minus successful stops is 0 or 1, is what is_running answers, and tells whether an instance is stored; every code is the one that the calls before it explain; the descriptors the kernel duplicated are distinct, were all handed to successful starts, and are as many as the successful starts that asked for one |
| InstanceRuns.CodesUnique | native/sslocal-ffi/src/lib.rs:211-261 | the codes of a run are determined by its calls and their surroundings |
| InstanceRuns.CodeUnique | native/sslocal-ffi/src/lib.rs:211-261 | so is the code of each call by whether an instance runs and what `dup` answers |
| InstanceRuns.Step | native/sslocal-ffi/src/lib.rs:51-68 | each call keeps the invariant: the only live forwarders are the instance's, the only live error buffers are the recorded and the handed-out one |
| InstanceRuns.HandedOutSurvives | native/sslocal-ffi/src/lib.rs:458-475 | a message handed out keeps its text and stays readable through any calls, errors of the core's own tasks included, until the next message is asked for |
| Instances.Sslocal.StartWithJson | native/sslocal-ffi/src/lib.rs:211-261 | a failing start leaves instance, counters and descriptors as they were, leaves no forwarder alive and gives the code of the first check that fails, judged with the ports the listeners got; a successful one runs the rewritten configuration on its own runtime, with one descriptor of its own if asked for |
| Instances.OutcomeUnique | native/sslocal-ffi/src/lib.rs:211-261 | a start that fails for some reason cannot succeed, and fails with one code: plugins, bound ports, rewritten configuration and tun local leave nothing open |
| Instances.Sslocal.Launch | native/sslocal-ffi/src/lib.rs:223-260 | every early return after the runtime was built drops it with the forwarders already started |
| Instances.Sslocal.LoadRewritten | native/sslocal-ffi/src/lib.rs:231-240 | the core sees the rewritten configuration, and only if every listener was bound |
| Instances.Sslocal.Finish | native/sslocal-ffi/src/lib.rs:241-260 | the loaded configuration with the stat address and the prepared tun local is what runs |
| Instances.Sslocal.Commit | native/sslocal-ffi/src/lib.rs:253-260 | the instance owns the runtime from here on |
| Instances.Sslocal.PrepareConfig | native/sslocal-ffi/src/lib.rs:309-356 | the descriptor is duplicated only when a local to take it exists; the first tun local, else the only local, gets it and, without a name of its own, the recovered one |
| Instances.TunIndex | native/sslocal-ffi/src/lib.rs:309-320 | the first tun local if there is one, else the only local, else none |
| Instances.WithTun | native/sslocal-ffi/src/lib.rs:341-352 | one local becomes a tun with the descriptor and keeps a name of its own; every other local stays |
| Instances.Sslocal.Abandon | native/sslocal-ffi/src/lib.rs:229-234 | after a failed start no runtime of its own is alive |
| Instances.Sslocal.Start | native/sslocal-ffi/src/lib.rs:286-308 | a negative descriptor, a null or non-UTF-8 argument and text that is no JSON are refused, in this order, with their codes and without touching the instance |
| Instances.Sslocal.Stop | native/sslocal-ffi/src/lib.rs:438-451 | stopping succeeds exactly while an instance runs and ends its runtime; otherwise only the error changes |
| Instances.Sslocal.SetLastError | native/sslocal-ffi/src/lib.rs:65-68 | the recorded message is replaced in a buffer of its own and an inner NUL makes it empty; a message handed out stays alive |
| Instances.Sslocal.LastError | native/sslocal-ffi/src/lib.rs:467-475 | the message is handed out in a buffer distinct from the recorded one; null exactly when none was recorded |
| Instances.Kernel.Dup | native/sslocal-ffi/src/lib.rs:330-340 | a descriptor is given once, or the call fails and gives none |
| Instances.Sslocal.constructor | native/sslocal-ffi/src/lib.rs:55-63 | nothing runs and no message is recorded at the start |

## Left out

- Sockets, the accept loop, `wrap_stream`, `dial` and the TLS and WebSocket layers: the inner stream is an arbitrary script of answers, and binding a forwarder is an arbitrary script of ports and failures.
- `shadowsocks_service` and `Config::load_from_str`: loading is an arbitrary function from JSON to a configuration or failure; of a configuration only the locals' tun fields and the stat address are kept.
- Subscriptions.ParseSip008: entry fields of another type than the declared one are not modelled; the source stores them as they are.
- JSON text: configurations are values of a datatype, and the SIP008 reader is an arbitrary function from text to the entries of a document, with integer ports.
- `decodeURIComponent`: percent-decoding is an arbitrary total function, so names and plugin queries are covered for any decoder, but its own inversion is not.
- Randomness and time: user-agent numbers, key, random, session id and timestamp are arbitrary values of the right size, chosen when a wrapper is built; ids of profiles are arbitrary non-empty texts.
- Debug builds: the u16 sums of the hello wrap, as in a release build; a debug build panics where they overflow.
- HelloCarries: does not claim the 2^14 limit of section 6.2.1 of RFC 5246 on the record, because a hello with a full chunk exceeds it; the parser accepts any 16-bit record length.
- `first_response` of `TlsObfs`: the field is written but never read.
- `poll_shutdown`: differs from `poll_flush` only in what it passes on, so `PollFlush` stands for both, with one script for the inner stream's answers.
- Wakers and contexts: Pending only says that the caller polls again.
- Bit operators: written as the division, remainder and sum they equal on the values that occur; the wrap to int32 is explicit. ALPHABET is given by its ranges.
- Error texts: abbreviated; only which error, which code and that a message was recorded is modelled.
- Kernel.Dup: closing descriptors is not modelled, so a number is never given again, while the kernel reuses closed ones.
- Sslocal.Stop: ends the instance's runtime at once, while the source's `shutdown_background` returns before its tasks have ended; tasks that outlive the call are not modelled.
- InstanceRuns.Step: calls are steps that follow one another, as the mutexes order them; deadlock and poisoning are not modelled.
- Raw pointers, NAPI and `ioctl`: an argument is null, not UTF-8, no JSON, or a value; the interface name of a descriptor is an arbitrary function.
- Builds without the `local-tun` or `local-flow-stat` feature: only the default build is modelled.
- `toLocalConfig`, `toTunConfig`, file I/O of `JsonStore`, subscription download, profile and subscription stores, routes, traffic statistics, UI and VPN ability: short list edits, formatting and platform code.
