/** What an `ss://` link means. */
module Links {
  import opened OptionType
  import opened Strings
  import opened Text
  import Base64
  import Base64Encode
  import Utf8

  datatype Link = Link(name: Text, host: Text, port: int, cipher: Text, password: Text, plugin: Text, pluginOpts: Text)

  /** `percentDecode`, which never fails; any total function will do. */
  type Decoder = Text -> Text

  function Upto(t: Text, c: Unit): Text {
    var i := IndexOf(t, c);
    if i < 0 then t else t[..i]
  }

  /** What follows the first `c`, if there is one. */
  function Behind(t: Text, c: Unit): Option<Text> {
    var i := IndexOf(t, c);
    if i < 0 then None else Some(t[i + 1..])
  }

  function DecodeText(t: Text): Option<Text> {
    match Base64.DecodeBytes(t)
    case None => None
    case Some(b) => Some(Utf8.Decode(b))
  }

  /** The plugin and its options named by one query parameter. */
  function PluginIn(param: Text, decode: Decoder): Option<(Text, Text)> {
    var eq := IndexOf(param, EQUALS);
    if eq > 0 && param[..eq] == Lit("plugin") then
      var decoded := decode(param[eq + 1..]);
      Some((Upto(decoded, SEMICOLON), match Behind(decoded, SEMICOLON) case None => [] case Some(opts) => opts))
    else None
  }

  /** The last parameter that names a plugin decides. */
  function PluginOf(params: seq<Text>, decode: Decoder): (Text, Text) {
    if params == [] then ([], [])
    else
      match PluginIn(params[|params| - 1], decode)
      case Some(p) => p
      case None => PluginOf(params[..|params| - 1], decode)
  }

  function QueryPlugin(query: Option<Text>, decode: Decoder): (Text, Text) {
    match query
    case None => ([], [])
    case Some(q) => PluginOf(Split(q, AMPERSAND), decode)
  }

  /** The credentials and the address of a link body: SIP002 with an '@', legacy without. */
  function Sections(body: Text): Option<(Text, Text)> {
    var at := LastIndexOf(body, AT);
    if at >= 0 then
      match DecodeText(body[..at])
      case None => None
      case Some(userInfo) => Some((userInfo, body[at + 1..]))
    else
      match DecodeText(body)
      case None => None
      case Some(decoded) =>
        var at := LastIndexOf(decoded, AT);
        if at < 0 then None else Some((decoded[..at], decoded[at + 1..]))
  }

  function Credentials(userInfo: Text): Option<(Text, Text)> {
    match Behind(userInfo, COLON)
    case None => None
    case Some(password) =>
      if Upto(userInfo, COLON) == [] || password == [] then None else Some((Upto(userInfo, COLON), password))
  }

  /** `replace(c, '')`: only the first occurrence goes. */
  function RemoveFirst(t: Text, c: Unit): (r: Text)
    ensures c !in t ==> r == t
    ensures c in t ==> |r| == |t| - 1
    ensures forall u :: u in r ==> u in t
  {
    var i := IndexOf(t, c);
    if i < 0 then t else t[..i] + t[i + 1..]
  }

  function Address(hostPort: Text): Option<(Text, nat)> {
    var colon := LastIndexOf(hostPort, COLON);
    if colon < 0 then None
    else
      var host := RemoveFirst(RemoveFirst(hostPort[..colon], OPEN), CLOSE);
      match ParseInt(hostPort[colon + 1..])
      case NaN => None
      case Int(port) => if host == [] || port <= 0 || port > 65535 then None else Some((host, port))
  }

  /** The link in a text, or None when there is none. */
  function ParseLink(url: Text, decode: Decoder): Option<Link> {
    var trimmed := Trimmed(url);
    if !(Lit("ss://") <= trimmed) then None
    else
      var rest := trimmed[5..];
      var front := Upto(rest, HASH);
      var name := match Behind(rest, HASH) case None => [] case Some(f) => decode(f);
      var plugin := QueryPlugin(Behind(front, QUESTION), decode);
      match Sections(Upto(front, QUESTION))
      case None => None
      case Some((userInfo, hostPort)) =>
        match (Credentials(userInfo), Address(hostPort))
        case (Some(c), Some(a)) =>
          Some(Link(if name != [] then name else a.0, a.0, a.1, c.0, c.1, plugin.0, plugin.1))
        case _ => None
  }

  /** Every link that is accepted is complete. */
  lemma ParsedComplete(url: Text, decode: Decoder)
    ensures ParseLink(url, decode).Some? ==> [115, 115, 58, 47, 47] <= Trimmed(url)
    ensures ParseLink(url, decode).Some? ==>
              var l := ParseLink(url, decode).value;
              && l.host != [] && l.cipher != [] && l.password != [] && l.name != []
              && 1 <= l.port <= 65535 && COLON !in l.cipher
  {
    assert Lit("ss://") == [115, 115, 58, 47, 47];
  }

  // ---- Printed links ----

  function UserInfo(cipher: Text, password: Text): Text {
    cipher + [COLON] + password
  }

  function HostPort(host: Text, bracketed: bool, port: nat): Text {
    (if bracketed then [OPEN] + host + [CLOSE] else host) + [COLON] + Decimal(port)
  }

  function Encoded(t: Text, url: bool, padded: bool): Text {
    Base64Encode.Encode(Utf8.Encode(t), url, padded)
  }

  function Suffix(query: Option<Text>, fragment: Option<Text>): Text {
    (match query case None => [] case Some(q) => [QUESTION] + q)
    + (match fragment case None => [] case Some(f) => [HASH] + f)
  }

  function Sip002(cipher: Text, password: Text, hostPort: Text, url: bool, padded: bool): Text {
    Encoded(UserInfo(cipher, password), url, padded) + [AT] + hostPort
  }

  function Legacy(cipher: Text, password: Text, hostPort: Text, url: bool, padded: bool): Text {
    Encoded(UserInfo(cipher, password) + [AT] + hostPort, url, padded)
  }

  lemma EncodedReads(t: Text, url: bool, padded: bool)
    ensures DecodeText(Encoded(t, url, padded)) == Some(t)
    ensures forall u :: u in Encoded(t, url, padded) ==> Base64Encode.IsPlain(u)
  {
    Base64Encode.EncodePlain(Utf8.Encode(t), url, padded);
    Utf8.DecodeInvertsEncode(t);
  }

  lemma CredentialsRead(cipher: Text, password: Text)
    requires COLON !in cipher && cipher != [] && password != []
    ensures Credentials(UserInfo(cipher, password)) == Some((cipher, password))
  {
    var u := UserInfo(cipher, password);
    assert u[..|cipher|] == cipher && u[|cipher| + 1..] == password;
    IndexOfUnique(u, COLON, |cipher|);
  }

  lemma HostPortSplits(host: Text, bracketed: bool, port: nat)
    ensures var t := HostPort(host, bracketed, port);
            var shown := if bracketed then [OPEN] + host + [CLOSE] else host;
            && LastIndexOf(t, COLON) == |shown| && t[..|shown|] == shown && t[|shown| + 1..] == Decimal(port)
  {
    var t := HostPort(host, bracketed, port);
    var shown := if bracketed then [OPEN] + host + [CLOSE] else host;
    assert t[..|shown|] == shown && t[|shown| + 1..] == Decimal(port);
    LastIndexOfUnique(t, COLON, |shown|);
  }

  lemma BracketsOff(host: Text)
    requires OPEN !in host && CLOSE !in host
    ensures RemoveFirst(RemoveFirst([OPEN] + host + [CLOSE], OPEN), CLOSE) == host
    ensures RemoveFirst(RemoveFirst(host, OPEN), CLOSE) == host
  {
    var shown, half := [OPEN] + host + [CLOSE], host + [CLOSE];
    hide IndexOf;
    IndexOfUnique(shown, OPEN, 0);
    assert shown[..0] + shown[1..] == half;
    assert half[..|host|] == host;
    IndexOfUnique(half, CLOSE, |host|);
    assert half[..|host|] + half[|host| + 1..] == host;
  }

  lemma AddressReads(host: Text, bracketed: bool, port: nat)
    requires host != [] && OPEN !in host && CLOSE !in host && 1 <= port <= 65535
    ensures Address(HostPort(host, bracketed, port)) == Some((host, port))
  {
    hide ParseInt, Decimal, HostPort, LastIndexOf, RemoveFirst;
    HostPortSplits(host, bracketed, port);
    ParseDecimal(port);
    BracketsOff(host);
  }

  lemma CutsAt(before: Text, c: Unit, after: Text)
    requires c !in before
    ensures Upto(before + [c] + after, c) == before && Behind(before + [c] + after, c) == Some(after)
    ensures Upto(before, c) == before && Behind(before, c) == None
  {
    var t := before + [c] + after;
    assert t[..|before|] == before && t[|before| + 1..] == after;
    IndexOfUnique(t, c, |before|);
  }

  lemma SuffixCuts(core: Text, query: Option<Text>, fragment: Option<Text>)
    requires HASH !in core && QUESTION !in core && (query.Some? ==> HASH !in query.value)
    ensures var rest := core + Suffix(query, fragment);
            && Behind(rest, HASH) == fragment
            && Upto(Upto(rest, HASH), QUESTION) == core
            && Behind(Upto(rest, HASH), QUESTION) == query
  {
    var front := core + match query case None => [] case Some(q) => [QUESTION] + q;
    assert HASH !in front;
    match fragment {
      case None => assert core + Suffix(query, None) == front;
      case Some(f) => assert core + Suffix(query, Some(f)) == front + [HASH] + f;
    }
    CutsAt(front, HASH, if fragment.Some? then fragment.value else []);
    match query {
      case None => assert front == core;
      case Some(q) => assert front == core + [QUESTION] + q;
    }
    CutsAt(core, QUESTION, if query.Some? then query.value else []);
  }

  lemma TrimNothing(t: Text)
    requires t != [] && !IsSpace(t[0]) && !IsSpace(t[|t| - 1])
    ensures Trimmed(t) == t
  {
    assert TrimStart(t, IsSpace) == t;
  }

  /** The expected outcome for printed fields. */
  function Printed(cipher: Text, password: Text, host: Text, port: nat,
                   query: Option<Text>, fragment: Option<Text>, decode: Decoder): Link {
    var name := match fragment case None => [] case Some(f) => decode(f);
    var plugin := QueryPlugin(query, decode);
    Link(if name != [] then name else host, host, port, cipher, password, plugin.0, plugin.1)
  }

  /** Fields that a link can carry. */
  predicate Printable(cipher: Text, password: Text, host: Text, port: nat) {
    && cipher != [] && COLON !in cipher && password != [] && 1 <= port <= 65535
    && host != [] && OPEN !in host && CLOSE !in host && AT !in host
  }

  lemma Scheme(core: Text, suffix: Text)
    requires core + suffix != [] ==> !IsSpace((core + suffix)[|core + suffix| - 1])
    ensures var t := Lit("ss://") + core + suffix;
            Trimmed(t) == t && Lit("ss://") <= t && t[5..] == core + suffix
  {
    var t := Lit("ss://") + core + suffix;
    assert t == Lit("ss://") + (core + suffix);
    assert !IsSpace(t[0]);
    TrimNothing(t);
  }

  lemma HostPortPlain(host: Text, bracketed: bool, port: nat)
    ensures var hp := HostPort(host, bracketed, port);
            && hp != [] && IsDigit(hp[|hp| - 1])
            && (AT !in host ==> AT !in hp) && (HASH !in host ==> HASH !in hp) && (QUESTION !in host ==> QUESTION !in hp)
  {
  }

  /** The end of a printed link must survive trimming. */
  predicate EndsVisibly(suffix: Text) {
    suffix != [] ==> !IsSpace(suffix[|suffix| - 1])
  }

  lemma LinkFromParts(core: Text, query: Option<Text>, fragment: Option<Text>, decode: Decoder,
      userInfo: Text, hostPort: Text, cipher: Text, password: Text, host: Text, port: nat)
    requires core != [] && !IsSpace(core[|core| - 1]) && HASH !in core && QUESTION !in core
    requires (query.Some? ==> HASH !in query.value) && EndsVisibly(Suffix(query, fragment))
    requires Sections(core) == Some((userInfo, hostPort))
    requires Credentials(userInfo) == Some((cipher, password)) && Address(hostPort) == Some((host, port))
    ensures ParseLink(Lit("ss://") + core + Suffix(query, fragment), decode)
            == Some(Printed(cipher, password, host, port, query, fragment, decode))
  {
    hide Suffix, Sections, Credentials, Address, Trimmed, QueryPlugin, Lit;
    var suffix := Suffix(query, fragment);
    assert (core + suffix)[|core + suffix| - 1] == if suffix == [] then core[|core| - 1] else suffix[|suffix| - 1];
    Scheme(core, suffix);
    SuffixCuts(core, query, fragment);
  }

  lemma Sip002Sections(cipher: Text, password: Text, hostPort: Text, url: bool, padded: bool)
    requires AT !in hostPort
    ensures Sections(Sip002(cipher, password, hostPort, url, padded)) == Some((UserInfo(cipher, password), hostPort))
  {
    var info := UserInfo(cipher, password);
    EncodedReads(info, url, padded);
    hide Encoded, UserInfo, DecodeText, LastIndexOf;
    var e := Encoded(info, url, padded);
    var core := Sip002(cipher, password, hostPort, url, padded);
    assert core[..|e|] == e && core[|e| + 1..] == hostPort;
    LastIndexOfUnique(core, AT, |e|);
  }

  lemma LegacySections(cipher: Text, password: Text, hostPort: Text, url: bool, padded: bool)
    requires AT !in hostPort
    ensures Sections(Legacy(cipher, password, hostPort, url, padded)) == Some((UserInfo(cipher, password), hostPort))
  {
    var info := UserInfo(cipher, password);
    var plain := info + [AT] + hostPort;
    EncodedReads(plain, url, padded);
    hide Encoded, UserInfo, DecodeText, LastIndexOf;
    assert plain[..|info|] == info && plain[|info| + 1..] == hostPort;
    LastIndexOfUnique(plain, AT, |info|);
    assert AT !in Legacy(cipher, password, hostPort, url, padded);
  }

  /** A SIP002 link gives back its fields: cipher and password of any characters (a ':' in
      the password included), a host with or without brackets, any query and fragment. */
  lemma Sip002RoundTrip(cipher: Text, password: Text, host: Text, bracketed: bool, port: nat,
      url: bool, padded: bool, query: Option<Text>, fragment: Option<Text>, decode: Decoder)
    requires Printable(cipher, password, host, port) && HASH !in host && QUESTION !in host
    requires (query.Some? ==> HASH !in query.value) && EndsVisibly(Suffix(query, fragment))
    ensures ParseLink(Lit("ss://") + Sip002(cipher, password, HostPort(host, bracketed, port), url, padded)
                      + Suffix(query, fragment), decode)
            == Some(Printed(cipher, password, host, port, query, fragment, decode))
  {
    hide UserInfo, HostPort, Suffix, Encoded, Credentials, Address, Sections, ParseLink, Printed;
    var hp := HostPort(host, bracketed, port);
    var core := Sip002(cipher, password, hp, url, padded);
    EncodedReads(UserInfo(cipher, password), url, padded);
    HostPortPlain(host, bracketed, port);
    CredentialsRead(cipher, password);
    AddressReads(host, bracketed, port);
    Sip002Sections(cipher, password, hp, url, padded);
    assert core[|core| - 1] == hp[|hp| - 1];
    LinkFromParts(core, query, fragment, decode, UserInfo(cipher, password), hp, cipher, password, host, port);
  }

  /** A legacy link gives back its fields, even with ':' and '@' in the password. */
  lemma LegacyRoundTrip(cipher: Text, password: Text, host: Text, bracketed: bool, port: nat,
      url: bool, padded: bool, query: Option<Text>, fragment: Option<Text>, decode: Decoder)
    requires Printable(cipher, password, host, port)
    requires (query.Some? ==> HASH !in query.value) && EndsVisibly(Suffix(query, fragment))
    ensures ParseLink(Lit("ss://") + Legacy(cipher, password, HostPort(host, bracketed, port), url, padded)
                      + Suffix(query, fragment), decode)
            == Some(Printed(cipher, password, host, port, query, fragment, decode))
  {
    hide UserInfo, HostPort, Suffix, Encoded, Credentials, Address, Sections, ParseLink, Printed;
    var hp, info := HostPort(host, bracketed, port), UserInfo(cipher, password);
    var core := Legacy(cipher, password, hp, url, padded);
    EncodedReads(info + [AT] + hp, url, padded);
    HostPortPlain(host, bracketed, port);
    CredentialsRead(cipher, password);
    AddressReads(host, bracketed, port);
    LegacySections(cipher, password, hp, url, padded);
    assert core != [] by { SectionsNonEmpty(); }
    assert core[|core| - 1] in core;
    LinkFromParts(core, query, fragment, decode, info, hp, cipher, password, host, port);
  }

  lemma SectionsNonEmpty()
    ensures Sections([]) == None
  {
    assert Base64.DecodeBytes([]) == Some([]);
  }

  // ---- Which fields survive ----

  /** What a SIP002 body can give as a host. */
  lemma HostOfBody(body: Text, hostPort: Text)
    requires AT in body && Sections(body).Some? && Sections(body).value.1 == hostPort && Address(hostPort).Some?
    ensures forall u :: u in Address(hostPort).value.0 ==> u in body && u != AT
  {
    hide DecodeText, ParseInt;
    var at := LastIndexOf(body, AT);
    assert hostPort == body[at + 1..];
  }

  /** The plain SIP002 link of some fields is read back as those fields if and only if they
      are printable and the host holds neither '#' nor '?'. */
  lemma Sip002Exact(cipher: Text, password: Text, host: Text, port: nat, url: bool, padded: bool,
                    decode: Decoder)
    ensures var link := Lit("ss://") + Sip002(cipher, password, HostPort(host, false, port), url, padded);
            ParseLink(link, decode) == Some(Link(host, host, port, cipher, password, [], []))
            <==> Printable(cipher, password, host, port) && HASH !in host && QUESTION !in host
  {
    var hp := HostPort(host, false, port);
    var core := Sip002(cipher, password, hp, url, padded);
    var link := Lit("ss://") + core;
    assert link == link + Suffix(None, None);
    if Printable(cipher, password, host, port) && HASH !in host && QUESTION !in host {
      Sip002RoundTrip(cipher, password, host, false, port, url, padded, None, None, decode);
    } else if ParseLink(link, decode) == Some(Link(host, host, port, cipher, password, [], [])) {
      ParsedComplete(link, decode);
      Sip002HostKept(cipher, password, host, port, url, padded, decode);
    }
  }

  /** The plain legacy link of some fields is read back as those fields if and only if they are
      printable: '#' and '?' in the host survive inside the encoding. */
  lemma LegacyExact(cipher: Text, password: Text, host: Text, port: nat, url: bool, padded: bool, decode: Decoder)
    ensures var link := Lit("ss://") + Legacy(cipher, password, HostPort(host, false, port), url, padded);
            ParseLink(link, decode) == Some(Link(host, host, port, cipher, password, [], []))
            <==> Printable(cipher, password, host, port)
  {
    hide UserInfo, HostPort, Encoded, Sections, Credentials, Address, ParseLink, Lit;
    var link := Lit("ss://") + Legacy(cipher, password, HostPort(host, false, port), url, padded);
    assert link == link + Suffix(None, None);
    if Printable(cipher, password, host, port) {
      LegacyRoundTrip(cipher, password, host, false, port, url, padded, None, None, decode);
    } else if ParseLink(link, decode) == Some(Link(host, host, port, cipher, password, [], [])) {
      ParsedComplete(link, decode);
      LegacyHostKept(cipher, password, host, port, url, padded, decode);
    }
  }

  /** A host that survives the plain legacy link has no '@' and no brackets. */
  lemma LegacyHostKept(cipher: Text, password: Text, host: Text, port: nat, url: bool, padded: bool, decode: Decoder)
    requires var core := Legacy(cipher, password, HostPort(host, false, port), url, padded);
             var l := ParseLink(Lit("ss://") + core, decode);
             l.Some? && l.value.host == host
    ensures AT !in host && OPEN !in host && CLOSE !in host
  {
    hide UserInfo, HostPort, Encoded, Sections, Address, ParseLink, Lit, Upto;
    var hp, info := HostPort(host, false, port), UserInfo(cipher, password);
    var core := Legacy(cipher, password, hp, url, padded);
    EncodedReads(info + [AT] + hp, url, padded);
    HostPortPlain(host, false, port);
    assert core != [] by { SectionsNonEmpty(); NonEmptyDecoded(core); }
    assert core[|core| - 1] in core;
    HostOfLink(core, decode);
    CutsAt(core, HASH, []);
    CutsAt(core, QUESTION, []);
    HostOfLegacy(core, Sections(core).value.1);
    LegacySections(cipher, password, hp, url, padded);
    HostUnbracketed(host, port);
  }

  lemma NonEmptyDecoded(core: Text)
    requires DecodeText(core).Some? && DecodeText(core).value != []
    ensures core != []
  {
    assert DecodeText([]) == Some([]);
  }

  lemma HostOfLegacy(body: Text, hostPort: Text)
    requires AT !in body && Sections(body).Some? && Sections(body).value.1 == hostPort && Address(hostPort).Some?
    ensures AT !in hostPort && AT !in Address(hostPort).value.0
  {
    hide DecodeText, ParseInt;
  }

  /** Where the host of an accepted link comes from. */
  lemma HostOfLink(core: Text, decode: Decoder)
    requires core != [] && !IsSpace(core[|core| - 1])
    requires ParseLink(Lit("ss://") + core, decode).Some?
    ensures var sections := Sections(Upto(Upto(core, HASH), QUESTION));
            && sections.Some? && Address(sections.value.1).Some?
            && Address(sections.value.1).value.0 == ParseLink(Lit("ss://") + core, decode).value.host
  {
    hide Sections, Address, Credentials, QueryPlugin, Upto, Behind, Trimmed, Lit;
    assert core + [] == core && Lit("ss://") + core + [] == Lit("ss://") + core;
    Scheme(core, []);
  }

  /** A host that survives the plain SIP002 link has none of the delimiters. */
  lemma Sip002HostKept(cipher: Text, password: Text, host: Text, port: nat, url: bool, padded: bool,
                       decode: Decoder)
    requires var core := Sip002(cipher, password, HostPort(host, false, port), url, padded);
             var l := ParseLink(Lit("ss://") + core, decode);
             l.Some? && l.value.host == host
    ensures HASH !in host && QUESTION !in host && AT !in host && OPEN !in host && CLOSE !in host
  {
    hide UserInfo, HostPort, Encoded, Sections, Address, ParseLink, Lit, Upto;
    var hp := HostPort(host, false, port);
    var e := Encoded(UserInfo(cipher, password), url, padded);
    var core := Sip002(cipher, password, hp, url, padded);
    EncodedReads(UserInfo(cipher, password), url, padded);
    HostPortPlain(host, false, port);
    assert core[|core| - 1] == hp[|hp| - 1];
    HostOfLink(core, decode);
    var front := Upto(core, HASH);
    KeepsFront(e + [AT], hp, HASH);
    assert front == e + [AT] + front[|e| + 1..];
    KeepsFront(e + [AT], front[|e| + 1..], QUESTION);
    var body := Upto(front, QUESTION);
    assert body[|e|] == AT;
    HostOfBody(body, Sections(body).value.1);
    assert HASH !in host && QUESTION !in host && AT !in host;
    KeepsFront(e + [AT], hp, QUESTION);
    Sip002Sections(cipher, password, hp, url, padded);
    HostUnbracketed(host, port);
  }

  lemma HostUnbracketed(host: Text, port: nat)
    requires var a := Address(HostPort(host, false, port)); a.Some? && a.value.0 == host
    ensures OPEN !in host && CLOSE !in host
  {
    hide ParseInt, Decimal, HostPort, LastIndexOf, IndexOf;
    HostPortSplits(host, false, port);
    var once := RemoveFirst(host, OPEN);
    assert host == RemoveFirst(once, CLOSE);
  }

  lemma KeepsFront(front: Text, rest: Text, c: Unit)
    requires c !in front
    ensures front <= Upto(front + rest, c) && c !in Upto(front + rest, c)
    ensures c !in rest ==> Upto(front + rest, c) == front + rest
    ensures forall u :: u in Upto(front + rest, c) ==> u in front + rest
  {
    var t := front + rest;
    forall k | 0 <= k < |front| ensures t[k] != c {
      assert t[k] == front[k];
    }
  }
}
