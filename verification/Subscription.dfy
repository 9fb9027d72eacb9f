/** What a subscription body means: the links of its lines, or a SIP008 document. */
module SubscriptionText {
  import opened OptionType
  import opened Strings
  import opened Text
  import opened Links

  const LF: Unit := 10
  const CR: Unit := 13

  /** One entry of a SIP008 document; a missing field is None. An entry that is no object, but
      not null either, has no fields. */
  datatype Sip008Server = Sip008Server(server: Option<Text>, serverPort: Option<int>, password: Option<Text>,
                                       cipher: Option<Text>, remarks: Option<Text>)

  /** What `servers` of a document holds, for the loop over it: a value that cannot be iterated
      (a number, a boolean, an object), or entries, None for null. Without `servers`, or with
      null there, no entries. */
  datatype Servers = NotIterable | Entries(entries: seq<Option<Sip008Server>>)

  /** Reads a SIP008 document: None where JSON parsing throws. */
  type JsonReader = Text -> Option<Servers>

  predicate Given(t: Option<Text>) {
    t.Some? && t.value != []
  }

  function ServerLink(s: Sip008Server): Option<Link> {
    if !Given(s.server) || s.serverPort == None || s.serverPort == Some(0) || !Given(s.password) || !Given(s.cipher)
    then None
    else
      Some(Link(if Given(s.remarks) then s.remarks.value else s.server.value, s.server.value, s.serverPort.value,
                s.cipher.value, s.password.value, [], []))
  }

  /** The links of entries, in order; None where the loop over them throws. */
  function EntryLinks(entries: seq<Option<Sip008Server>>): Option<seq<Link>> {
    if entries == [] then Some([])
    else
      match (EntryLinks(entries[..|entries| - 1]), entries[|entries| - 1])
      case (Some(links), Some(s)) => Some(links + match ServerLink(s) case None => [] case Some(l) => [l])
      case _ => None
  }

  function Sip008Links(text: Text, json: JsonReader): Option<seq<Link>> {
    match json(text)
    case None => Some([])
    case Some(NotIterable) => None
    case Some(Entries(entries)) => EntryLinks(entries)
  }

  function DropCR(line: Text): Text {
    if line != [] && line[|line| - 1] == CR then line[..|line| - 1] else line
  }

  /** `split(/\r?\n/)`. */
  function Lines(text: Text): seq<Text> {
    var i := IndexOf(text, LF);
    if i < 0 then [text] else [DropCR(text[..i])] + Lines(text[i + 1..])
  }

  /** The link on one line, if there is one: a list of at most one. */
  function LineLinks(line: Text, decode: Decoder): seq<Link> {
    var entry := Trimmed(line);
    if entry == [] then []
    else
      match ParseLink(entry, decode)
      case None => []
      case Some(l) => [l]
  }

  /** The links of lines, in order; a line without one adds nothing. */
  function LinksOf(lines: seq<Text>, decode: Decoder): seq<Link> {
    if lines == [] then [] else LineLinks(lines[0], decode) + LinksOf(lines[1..], decode)
  }

  /** `text.indexOf(part) >= 0`. */
  predicate Contains(text: Text, part: Text) {
    part <= text || (text != [] && Contains(text[1..], part))
  }

  predicate IsDocument(text: Text) {
    [BRACE] <= text
  }

  /** The text in a body: itself, or what it encodes; None where decoding throws. */
  function Unwrapped(body: Text): Option<Text> {
    var trimmed := Trimmed(body);
    if !IsDocument(trimmed) && !Contains(trimmed, Lit("ss://")) then DecodeText(trimmed) else Some(trimmed)
  }

  /** The links of a body; None where parsing it throws. */
  function BodyLinks(body: Text, decode: Decoder, json: JsonReader): Option<seq<Link>> {
    if Trimmed(body) == [] then Some([])
    else
      match Unwrapped(body)
      case None => Some([])
      case Some(text) =>
        if IsDocument(Trimmed(text)) then Sip008Links(text, json) else Some(LinksOf(Lines(text), decode))
  }

  // ---- Bodies that make the parser throw ----

  /** A document over whose servers the loop throws. */
  predicate Unloopable(servers: Servers) {
    servers.NotIterable? || None in servers.entries
  }

  lemma {:induction false} EntryLinksThrow(entries: seq<Option<Sip008Server>>)
    ensures EntryLinks(entries).None? <==> None in entries
  {
    if entries != [] {
      EntryLinksThrow(entries[..|entries| - 1]);
      assert entries == entries[..|entries| - 1] + [entries[|entries| - 1]];
    }
  }

  /** Parsing a body throws if and only if it is, or encodes, a document whose `servers` cannot
      be iterated or hold a null entry. */
  lemma BodyThrowsIff(body: Text, decode: Decoder, json: JsonReader)
    ensures BodyLinks(body, decode, json).None? <==>
            match Unwrapped(body)
            case None => false
            case Some(text) => IsDocument(Trimmed(text)) && json(text).Some? && Unloopable(json(text).value)
  {
    hide DecodeText, Trimmed, Contains, LinksOf, Lines, Lit;
    if Trimmed(body) == [] {
      NothingUnwrapped(body);
    } else if Unwrapped(body).Some? && json(Unwrapped(body).value).Some? && json(Unwrapped(body).value).value.Entries? {
      EntryLinksThrow(json(Unwrapped(body).value).value.entries);
    }
  }

  lemma NothingUnwrapped(body: Text)
    requires Trimmed(body) == []
    ensures Unwrapped(body) == Some([]) && Trimmed([]) == []
  {
    EmptyReads();
    NothingContained();
  }

  /** One null entry costs all the others, and so does a `servers` that is no list: such
      documents throw, while the entries without the null give their links. */
  lemma NullEntryThrows(body: Text, front: seq<Option<Sip008Server>>, back: seq<Option<Sip008Server>>,
                        decode: Decoder, json: JsonReader)
    requires IsDocument(Trimmed(body)) && None !in front + back
    requires json(Trimmed(body)) == Some(Entries(front + [None] + back)) || json(Trimmed(body)) == Some(NotIterable)
    ensures BodyLinks(body, decode, json) == None && EntryLinks(front + back).Some?
  {
    hide DecodeText, Contains, LinksOf, Lines, Lit;
    TrimTwice(body);
    EntryLinksThrow(front + back);
    EntryLinksThrow(front + [None] + back);
  }

  // ---- Lines and white space ----

  predicate Blank(t: Text) {
    forall u :: u in t ==> IsSpace(u)
  }

  lemma {:induction false} TrimStartSpace(w: Text, x: Text)
    requires Blank(w)
    ensures TrimStart(w + x, IsSpace) == TrimStart(x, IsSpace)
  {
    if w == [] {
      assert w + x == x;
    } else {
      assert w[0] in w && (w + x)[1..] == w[1..] + x;
      TrimStartSpace(w[1..], x);
    }
  }

  lemma {:induction false} TrimEndSpace(x: Text, w: Text)
    requires Blank(w)
    ensures TrimEnd(x + w, IsSpace) == TrimEnd(x, IsSpace)
  {
    if w == [] {
      assert x + w == x;
    } else {
      var n := |w| - 1;
      assert w[n] in w && (x + w)[..|x| + n] == x + w[..n];
      TrimEndSpace(x, w[..n]);
    }
  }

  /** A text is its trimmed part between blanks. */
  lemma {:induction false} TrimStartParts(t: Text) returns (w: Text)
    ensures Blank(w) && t == w + TrimStart(t, IsSpace)
    ensures TrimStart(t, IsSpace) != [] ==> !IsSpace(TrimStart(t, IsSpace)[0])
  {
    if t != [] && IsSpace(t[0]) {
      w := TrimStartParts(t[1..]);
      w := [t[0]] + w;
    } else {
      w := [];
    }
  }

  lemma {:induction false} TrimEndParts(t: Text) returns (w: Text)
    ensures Blank(w) && t == TrimEnd(t, IsSpace) + w
    ensures TrimEnd(t, IsSpace) != [] ==> !IsSpace(TrimEnd(t, IsSpace)[|TrimEnd(t, IsSpace)| - 1])
  {
    if t != [] && IsSpace(t[|t| - 1]) {
      w := TrimEndParts(t[..|t| - 1]);
      w := w + [t[|t| - 1]];
    } else {
      w := [];
    }
  }

  lemma TrimParts(t: Text) returns (before: Text, after: Text)
    ensures Blank(before) && Blank(after) && t == before + Trimmed(t) + after
    ensures Trimmed(t) != [] ==> !IsSpace(Trimmed(t)[0]) && !IsSpace(Trimmed(t)[|Trimmed(t)| - 1])
  {
    before := TrimStartParts(t);
    var s := TrimStart(t, IsSpace);
    after := TrimEndParts(s);
    assert Trimmed(t) + after == s;
  }

  lemma TrimTwice(t: Text)
    ensures Trimmed(Trimmed(t)) == Trimmed(t)
  {
    var before, after := TrimParts(t);
    if Trimmed(t) != [] {
      TrimNothing(Trimmed(t));
    }
  }

  /** A blank more at either end of a line does not change its entry. */
  lemma EntryIgnoresBlank(line: Text, c: Unit, decode: Decoder)
    requires IsSpace(c)
    ensures LineLinks([c] + line, decode) == LineLinks(line, decode)
    ensures LineLinks(line + [c], decode) == LineLinks(line, decode)
  {
    hide ParseLink;
    assert Blank([c]);
    TrimStartSpace([c], line);
    var w := TrimStartParts(line);
    var s := TrimStart(line, IsSpace);
    if s == [] {
      assert line == w && Blank(line + [c]);
      TrimStartSpace(line + [c], []);
      assert line + [c] + [] == line + [c];
    } else {
      assert line + [c] == w + (s + [c]);
      TrimStartSpace(w, s + [c]);
      assert TrimStart(s + [c], IsSpace) == s + [c];
      TrimEndSpace(s, [c]);
    }
  }

  lemma EntryDropsCR(line: Text, decode: Decoder)
    ensures LineLinks(DropCR(line), decode) == LineLinks(line, decode)
  {
    hide LineLinks;
    if DropCR(line) != line {
      EntryIgnoresBlank(DropCR(line), CR, decode);
      assert line == DropCR(line) + [CR];
    }
  }

  /** The links of a text, cut at its first line end; the CR of the line is a blank. */
  lemma LinksStep(text: Text, decode: Decoder)
    ensures var i := IndexOf(text, LF);
            LinksOf(Lines(text), decode) ==
            if i < 0 then LineLinks(text, decode)
            else LineLinks(text[..i], decode) + LinksOf(Lines(text[i + 1..]), decode)
  {
    hide LineLinks;
    var i := IndexOf(text, LF);
    if i < 0 {
      assert LinksOf([text], decode) == LineLinks(text, decode) + LinksOf([], decode);
    } else {
      EntryDropsCR(text[..i], decode);
      assert Lines(text)[1..] == Lines(text[i + 1..]);
    }
  }

  /** Bodies are read line by line: what one part holds never affects another. */
  lemma {:induction false} LinksJoin(a: Text, b: Text, decode: Decoder)
    ensures LinksOf(Lines(a + [10] + b), decode) == LinksOf(Lines(a), decode) + LinksOf(Lines(b), decode)
    decreases |a|
  {
    hide LineLinks, Lines, IndexOf, LinksOf;
    var text := a + [LF] + b;
    var i := IndexOf(a, LF);
    LinksStep(a, decode);
    LinksStep(text, decode);
    if i < 0 {
      assert text[..|a|] == a && text[|a| + 1..] == b;
      IndexOfUnique(text, LF, |a|);
    } else {
      assert text[..i] == a[..i] && text[i + 1..] == a[i + 1..] + [LF] + b;
      IndexOfUnique(text, LF, i);
      LinksJoin(a[i + 1..], b, decode);
    }
  }

  lemma NoLinks(decode: Decoder)
    ensures LinksOf(Lines([]), decode) == []
  {
    LinksStep([], decode);
    assert Trimmed([]) == [];
  }

  lemma {:induction false} LinksIgnoreFront(w: Text, x: Text, decode: Decoder)
    requires Blank(w)
    ensures LinksOf(Lines(w + x), decode) == LinksOf(Lines(x), decode)
  {
    hide LineLinks, Lines, IndexOf, LinksOf;
    if w == [] {
      assert w + x == x;
    } else {
      var c, y := w[0], w[1..] + x;
      assert c in w && w + x == [c] + y;
      LinksIgnoreFront(w[1..], x, decode);
      if c == LF {
        NoLinks(decode);
        LinksJoin([], y, decode);
        assert [] + [LF] + y == [c] + y;
      } else {
        LinksStep(y, decode);
        LinksStep([c] + y, decode);
        var i := IndexOf(y, LF);
        if i < 0 {
          EntryIgnoresBlank(y, c, decode);
          assert LF !in [c] + y;
        } else {
          EntryIgnoresBlank(y[..i], c, decode);
          assert ([c] + y)[..i + 1] == [c] + y[..i] && ([c] + y)[i + 2..] == y[i + 1..];
          IndexOfUnique([c] + y, LF, i + 1);
        }
      }
    }
  }

  lemma {:induction false} LinksIgnoreLast(x: Text, c: Unit, decode: Decoder)
    requires IsSpace(c)
    ensures LinksOf(Lines(x + [c]), decode) == LinksOf(Lines(x), decode)
    decreases |x|
  {
    hide LineLinks, Lines, IndexOf, LinksOf;
    if c == LF {
      NoLinks(decode);
      LinksJoin(x, [], decode);
      assert x + [LF] + [] == x + [c];
    } else {
      LinksStep(x, decode);
      LinksStep(x + [c], decode);
      var i := IndexOf(x, LF);
      if i < 0 {
        EntryIgnoresBlank(x, c, decode);
        assert LF !in x + [c];
      } else {
        assert (x + [c])[..i] == x[..i] && (x + [c])[i + 1..] == x[i + 1..] + [c];
        IndexOfUnique(x + [c], LF, i);
        LinksIgnoreLast(x[i + 1..], c, decode);
      }
    }
  }

  lemma {:induction false} LinksIgnoreBack(x: Text, w: Text, decode: Decoder)
    requires Blank(w)
    ensures LinksOf(Lines(x + w), decode) == LinksOf(Lines(x), decode)
  {
    if w == [] {
      assert x + w == x;
    } else {
      var n := |w| - 1;
      assert w[n] in w && x + w == x + w[..n] + [w[n]];
      LinksIgnoreLast(x + w[..n], w[n], decode);
      LinksIgnoreBack(x, w[..n], decode);
    }
  }

  // ---- Wrapping ----

  /** A part that holds no blank is not lost by trimming. */
  lemma {:induction false} ContainsAt(text: Text, part: Text, i: nat)
    requires i <= |text| && part <= text[i..]
    ensures Contains(text, part)
  {
    if i > 0 {
      assert text[1..][i - 1..] == text[i..];
      ContainsAt(text[1..], part, i - 1);
    }
  }

  lemma {:induction false} ContainedAt(text: Text, part: Text) returns (i: nat)
    requires Contains(text, part)
    ensures i <= |text| && part <= text[i..]
  {
    if part <= text {
      i := 0;
      assert text[0..] == text;
    } else {
      i := ContainedAt(text[1..], part);
      assert text[1..][i..] == text[i + 1..];
      i := i + 1;
    }
  }

  lemma TrimKeepsPart(text: Text, part: Text)
    requires Contains(text, part) && part != [] && forall u :: u in part ==> !IsSpace(u)
    ensures Contains(Trimmed(text), part)
  {
    var i := ContainedAt(text, part);
    var before, after := TrimParts(text);
    var core, n := Trimmed(text), |part|;
    forall k | 0 <= k < |before| ensures IsSpace(text[k]) {
      assert text[k] == before[k];
    }
    forall k | |before| + |core| <= k < |text| ensures IsSpace(text[k]) {
      assert text[k] == after[k - |before| - |core|];
    }
    assert text[i] == part[0] && text[i + n - 1] == part[n - 1];
    assert core[i - |before|..][..n] == text[i..][..n] == part;
    ContainsAt(core, part, i - |before|);
  }

  lemma {:induction false} ContainsMember(text: Text, part: Text, u: Unit)
    requires u in part
    ensures Contains(text, part) ==> u in text
  {
    if !(part <= text) && text != [] {
      ContainsMember(text[1..], part, u);
    }
  }

  lemma SchemeVisible()
    ensures forall u :: u in Lit("ss://") ==> !IsSpace(u)
  {
  }

  lemma EncodedOpaque(t: Text, url: bool, padded: bool)
    requires t != []
    ensures var e := Encoded(t, url, padded);
            e != [] && Trimmed(e) == e && !IsDocument(e) && !Contains(e, Lit("ss://"))
  {
    EncodedReads(t, url, padded);
    hide DecodeText, Encoded;
    var e := Encoded(t, url, padded);
    assert e != [] by { EmptyReads(); }
    assert e[0] in e && e[|e| - 1] in e;
    TrimNothing(e);
    assert Lit("ss://")[2] == COLON;
    ContainsMember(e, Lit("ss://"), COLON);
  }

  lemma EmptyReads()
    ensures DecodeText([]) == Some([])
  {
  }

  /** Wrapping a list of links in base64 is transparent: for every text that mentions
      `ss://` and is not a document, the body and its encoding give the same links, namely
      those of the lines of the text. */
  lemma {:induction false} WrappingTransparent(text: Text, url: bool, padded: bool, decode: Decoder, json: JsonReader)
    requires Contains(text, Lit("ss://")) && !IsDocument(Trimmed(text))
    ensures BodyLinks(text, decode, json) == Some(LinksOf(Lines(text), decode))
    ensures BodyLinks(Encoded(text, url, padded), decode, json) == Some(LinksOf(Lines(text), decode))
  {
    hide LinksOf, Lines, DecodeText, Encoded, Trimmed, Lit, Contains, Sip008Links;
    SchemeVisible();
    TrimKeepsPart(text, Lit("ss://"));
    NothingContained();
    TrimTwice(text);
    var before, after := TrimParts(text);
    LinksIgnoreFront(before, Trimmed(text) + after, decode);
    LinksIgnoreBack(Trimmed(text), after, decode);
    assert before + (Trimmed(text) + after) == text;
    EncodedOpaque(text, url, padded);
    EncodedReads(text, url, padded);
  }

  lemma NothingContained()
    ensures !Contains([], Lit("ss://")) && Trimmed([]) == []
  {
  }
}

/** The imperative subscription parser. */
module Subscriptions {
  import opened OptionType
  import opened Text
  import opened Links
  import opened Profiles
  import opened SubscriptionText

  /** `profiles` are new objects, one for each link, with its fields, the subscription's id
      and an id of their own. */
  ghost predicate Hold(profiles: seq<Profile>, links: seq<Link>, subscriptionId: Text)
    reads profiles
  {
    && |profiles| == |links|
    && (forall i :: 0 <= i < |links| ==>
                      && profiles[i].Fields() == links[i] && profiles[i].subscriptionId == subscriptionId
                      && profiles[i].id != [] && profiles[i].Defaults())
    && (forall i, j :: 0 <= i < j < |profiles| ==> profiles[i] != profiles[j])
  }

  /** The profiles of a body, or None where parsing throws. */
  method ParseSubscriptionBody(body: Text, subscriptionId: Text, decode: Decoder, json: JsonReader, newId: nat -> Text)
    returns (r: Option<seq<Profile>>)
    requires forall k :: newId(k) != []
    ensures r.None? <==> BodyLinks(body, decode, json).None?
    ensures r.Some? ==>
              fresh(set p | p in r.value) && Hold(r.value, BodyLinks(body, decode, json).value, subscriptionId)
  {
    hide Trimmed, Contains, Lit, DecodeText, LinksOf, Lines, Sip008Links;
    var trimmed := Trimmed(body);
    if |trimmed| == 0 {
      return Some([]);
    }
    var text := trimmed;
    if !IsDocument(trimmed) && !Contains(trimmed, Lit("ss://")) {
      var decoded := DecodeBase64Text(trimmed);
      if decoded == None {
        return Some([]);
      }
      text := decoded.value;
    }
    if IsDocument(Trimmed(text)) {
      r := ParseSip008(text, subscriptionId, json, newId);
    } else {
      var profiles := ParseLines(Lines(text), subscriptionId, decode, newId);
      r := Some(profiles);
    }
  }

  /** Stamps a new profile with the subscription and an id, and pushes it. */
  method Adopt(profiles: seq<Profile>, profile: Profile, subscriptionId: Text, newId: Text, ghost links: seq<Link>)
    returns (r: seq<Profile>)
    requires Hold(profiles, links, subscriptionId) && profile !in profiles && newId != []
    requires profile.id == [] && profile.Defaults()
    modifies profile
    ensures r == profiles + [profile] && Hold(r, links + [old(profile.Fields())], subscriptionId)
  {
    ghost var link := profile.Fields();
    profile.subscriptionId := subscriptionId;
    profile.EnsureId(newId);
    r := profiles + [profile];
    assert profile.Fields() == link && profile.Defaults();
  }

  /** One line: null where it is blank or no link. */
  method ParseLine(line: Text, decode: Decoder) returns (profile: Profile?)
    ensures profile != null ==> fresh(profile) && profile.id == [] && profile.Defaults()
    ensures LineLinks(line, decode) == if profile == null then [] else [profile.Fields()]
  {
    hide Trimmed;
    var entry := Trimmed(line);
    if |entry| == 0 {
      return null;
    }
    profile := ParseUrl(entry, decode);
  }

  method ParseLines(lines: seq<Text>, subscriptionId: Text, decode: Decoder, newId: nat -> Text)
    returns (profiles: seq<Profile>)
    requires forall k :: newId(k) != []
    ensures fresh(set p | p in profiles) && Hold(profiles, LinksOf(lines, decode), subscriptionId)
  {
    profiles := [];
    assert Hold(profiles, LinksOf(lines[..0], decode), subscriptionId);
    hide Hold, LinksOf, LineLinks;
    for i := 0 to |lines|
      invariant fresh(set p | p in profiles)
      invariant Hold(profiles, LinksOf(lines[..i], decode), subscriptionId)
    {
      LinksSnoc(lines, i, decode);
      var profile := ParseLine(lines[i], decode);
      if profile != null {
        profiles := Adopt(profiles, profile, subscriptionId, newId(i), LinksOf(lines[..i], decode));
      }
    }
    assert lines[..|lines|] == lines;
  }

  lemma {:induction false} LinksTogether(a: seq<Text>, b: seq<Text>, decode: Decoder)
    ensures LinksOf(a + b, decode) == LinksOf(a, decode) + LinksOf(b, decode)
  {
    hide LineLinks;
    if a == [] {
      assert a + b == b;
    } else {
      assert (a + b)[0] == a[0] && (a + b)[1..] == a[1..] + b;
      LinksTogether(a[1..], b, decode);
    }
  }

  lemma LinksSnoc(lines: seq<Text>, i: nat, decode: Decoder)
    requires i < |lines|
    ensures LinksOf(lines[..i + 1], decode) == LinksOf(lines[..i], decode) + LineLinks(lines[i], decode)
    ensures LineLinks(lines[i], decode) == [] ==> LinksOf(lines[..i + 1], decode) == LinksOf(lines[..i], decode)
  {
    hide LineLinks;
    LinksTogether(lines[..i], [lines[i]], decode);
    assert lines[..i] + [lines[i]] == lines[..i + 1];
    assert LinksOf([lines[i]][1..], decode) == [];
  }

  lemma EntriesSnoc(entries: seq<Option<Sip008Server>>, i: nat)
    requires i < |entries|
    ensures EntryLinks(entries[..i + 1]) ==
            match (EntryLinks(entries[..i]), entries[i])
            case (Some(links), Some(s)) => Some(links + match ServerLink(s) case None => [] case Some(l) => [l])
            case _ => None
  {
    assert entries[..i + 1][..i] == entries[..i] && entries[..i + 1][i] == entries[i];
  }

  /** A null anywhere in a list makes the whole of it throw. */
  lemma NullAt(entries: seq<Option<Sip008Server>>, i: nat)
    requires i < |entries| && entries[i] == None
    ensures EntryLinks(entries) == None
  {
    EntryLinksThrow(entries);
  }

  /** The profiles of a document, or None where the loop over its servers throws. */
  method ParseSip008(text: Text, subscriptionId: Text, json: JsonReader, newId: nat -> Text)
    returns (r: Option<seq<Profile>>)
    requires forall k :: newId(k) != []
    ensures r.None? <==> Sip008Links(text, json).None?
    ensures r.Some? ==>
              fresh(set p | p in r.value) && Hold(r.value, Sip008Links(text, json).value, subscriptionId)
  {
    var doc := json(text);
    if doc == None {
      return Some([]);
    }
    if doc.value.NotIterable? {
      return None;
    }
    var servers := doc.value.entries;
    var profiles := [];
    assert Hold(profiles, EntryLinks(servers[..0]).value, subscriptionId);
    hide Hold;
    for i := 0 to |servers|
      invariant fresh(set p | p in profiles)
      invariant EntryLinks(servers[..i]).Some? && Hold(profiles, EntryLinks(servers[..i]).value, subscriptionId)
    {
      if servers[i] == None {
        NullAt(servers, i);
        return None;
      }
      var s := servers[i].value;
      EntriesSnoc(servers, i);
      hide EntryLinks;
      if !Given(s.server) || s.serverPort == None || s.serverPort == Some(0) || !Given(s.password) || !Given(s.cipher) {
        assert EntryLinks(servers[..i]).value + [] == EntryLinks(servers[..i]).value;
        continue;
      }
      var name := if Given(s.remarks) then s.remarks.value else s.server.value;
      var profile := Fill(name, s.server.value, s.serverPort.value, s.cipher.value, s.password.value, [], []);
      profiles := Adopt(profiles, profile, subscriptionId, newId(i), EntryLinks(servers[..i]).value);
    }
    assert servers[..|servers|] == servers;
    r := Some(profiles);
  }
}
