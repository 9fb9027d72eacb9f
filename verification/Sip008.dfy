/** What the entries of a SIP008 document mean: the same as the links with their fields. */
module Sip008 {
  import opened OptionType
  import opened Strings
  import opened Text
  import opened Links
  import opened LinkPlugins
  import opened SubscriptionText

  /** An entry gives a profile if and only if server, password and method are given and not
      empty, and a port is given that is not 0; then every field is that of the entry, and the
      name is the remark or, without one, the server. */
  lemma EntryMeans(s: Sip008Server, decode: Decoder)
    ensures EntryLinks([Some(s)]).Some?
    ensures var links := EntryLinks([Some(s)]).value;
            var complete := && s.server.Some? && s.server.value != [] && s.password.Some? && s.password.value != []
                            && s.cipher.Some? && s.cipher.value != [] && s.serverPort.Some? && s.serverPort.value != 0;
            && (!complete ==> links == [])
            && (complete ==>
                  && |links| == 1
                  && links[0].host == s.server.value && links[0].port == s.serverPort.value
                  && links[0].cipher == s.cipher.value && links[0].password == s.password.value
                  && links[0].plugin == [] && links[0].pluginOpts == []
                  && (links[0].name ==
                      if s.remarks.Some? && s.remarks.value != [] then s.remarks.value else s.server.value))
  {
    var entries := [Some(s)];
    assert entries[..0] == [];
    assert EntryLinks(entries[..0]) == Some([]);
  }

  /** An entry and the link printed from its fields give the same profile: without remarks the
      plain link, in either form, and with remarks the link with them as its fragment. */
  lemma EntryIsLink(s: Sip008Server, legacy: bool, bracketed: bool, url: bool, padded: bool, fragment: Option<Text>,
                    decode: Decoder)
    requires s.server.Some? && s.password.Some? && s.cipher.Some? && s.serverPort.Some? && s.serverPort.value >= 0
    requires Fits(legacy, s.cipher.value, s.password.value, s.server.value, s.serverPort.value, None, fragment)
    requires match fragment
             case None => s.remarks == None
             case Some(f) => s.remarks == Some(decode(f))
    ensures var link := ParseLink(PrintedLink(legacy, s.cipher.value, s.password.value, s.server.value, bracketed,
                                              s.serverPort.value, url, padded, None, fragment), decode);
            link.Some? && EntryLinks([Some(s)]) == Some([link.value])
  {
    hide EntryLinks, ParseLink, PrintedLink, Fits;
    EntryMeans(s, decode);
    NameRead(legacy, s.cipher.value, s.password.value, s.server.value, bracketed, s.serverPort.value, url, padded, None,
             fragment, decode);
    NoPluginRead(legacy, s.cipher.value, s.password.value, s.server.value, bracketed, s.serverPort.value, url, padded,
                 [], fragment, decode);
    var link := ParseLink(PrintedLink(legacy, s.cipher.value, s.password.value, s.server.value, bracketed,
                                      s.serverPort.value, url, padded, None, fragment), decode);
    FitsGiven(legacy, s.cipher.value, s.password.value, s.server.value, s.serverPort.value, None, fragment);
    assert EntryLinks([Some(s)]).value[0] == link.value;
    assert EntryLinks([Some(s)]).value == [link.value];
  }

  lemma FitsGiven(legacy: bool, cipher: Text, password: Text, host: Text, port: nat, query: Option<Text>,
                  fragment: Option<Text>)
    requires Fits(legacy, cipher, password, host, port, query, fragment)
    ensures cipher != [] && password != [] && host != [] && port != 0
  {
  }

  /** The profiles of a document are those of its parts, in order: entries never affect one
      another, and one that is skipped changes nothing. */
  lemma {:induction false} EntriesJoin(a: seq<Option<Sip008Server>>, b: seq<Option<Sip008Server>>)
    requires EntryLinks(a).Some? && EntryLinks(b).Some?
    ensures EntryLinks(a + b) == Some(EntryLinks(a).value + EntryLinks(b).value)
  {
    hide ServerLink;
    if b == [] {
      assert a + b == a && EntryLinks(a).value + [] == EntryLinks(a).value;
    } else {
      var n := |b| - 1;
      assert (a + b)[..|a + b| - 1] == a + b[..n] && (a + b)[|a + b| - 1] == b[n];
      EntriesJoin(a, b[..n]);
      var last := match ServerLink(b[n].value) case None => [] case Some(l) => [l];
      var front := EntryLinks(b[..n]).value;
      assert EntryLinks(a).value + (front + last) == EntryLinks(a).value + front + last;
    }
  }

  /** A document and its base64 give the same profiles: those of its entries. */
  lemma DocumentMeans(body: Text, url: bool, padded: bool, decode: Decoder, json: JsonReader)
    requires IsDocument(body) && Trimmed(body) == body
    requires json(body).Some? && json(body).value.Entries?
    ensures BodyLinks(body, decode, json) == EntryLinks(json(body).value.entries)
    ensures BodyLinks(Encoded(body, url, padded), decode, json) == EntryLinks(json(body).value.entries)
  {
    EncodedOpaque(body, url, padded);
    EncodedReads(body, url, padded);
    hide Encoded, DecodeText, Trimmed, Contains, Lit, LinksOf, Lines, EntryLinks;
  }

  /** A body that is neither a list of links, nor a document, nor base64 gives no profiles. */
  lemma GarbageMeansNothing(body: Text, decode: Decoder, json: JsonReader)
    requires var trimmed := Trimmed(body);
             !IsDocument(trimmed) && !Contains(trimmed, Lit("ss://")) && DecodeText(trimmed) == None
    ensures BodyLinks(body, decode, json) == Some([])
  {
  }

  /** A line gives its link, read from its trimmed text, or nothing. */
  lemma LineMeans(line: Text, decode: Decoder)
    requires 10 !in line
    ensures LinksOf(Lines(line), decode) ==
            match ParseLink(Trimmed(line), decode) case None => [] case Some(l) => [l]
  {
    LinksStep(line, decode);
    hide LinksOf, Lines, IndexOf, Trimmed, ParseLink;
    NothingParsed(decode);
  }

  lemma NothingParsed(decode: Decoder)
    ensures ParseLink([], decode) == None
  {
    assert Trimmed([]) == [];
  }
}
