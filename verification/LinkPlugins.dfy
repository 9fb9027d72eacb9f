/** Which plugin a link names: what a printed query gives, read back from the whole link. */
module LinkPlugins {
  import opened OptionType
  import opened Strings
  import opened Text
  import opened Links

  /** Parameters joined by '&'. */
  function Joined(params: seq<Text>): Text {
    if params == [] then []
    else if |params| == 1 then params[0]
    else params[0] + [AMPERSAND] + Joined(params[1..])
  }

  lemma {:induction false} SplitJoined(params: seq<Text>)
    requires params != [] && forall p :: p in params ==> AMPERSAND !in p
    ensures Split(Joined(params), AMPERSAND) == params
  {
    SplitPlain(params[0]);
    if |params| > 1 {
      SplitJoined(params[1..]);
      SplitJoin(params[0], AMPERSAND, Joined(params[1..]));
      assert params == [params[0]] + params[1..];
    } else {
      assert params == [params[0]];
    }
  }

  lemma SplitPlain(p: Text)
    requires AMPERSAND !in p
    ensures Split(p, AMPERSAND) == [p]
  {
  }

  /** The parameter does not set the plugin. */
  predicate Other(param: Text) {
    !(Lit("plugin=") <= param)
  }

  lemma PluginLiteral()
    ensures Lit("plugin=") == Lit("plugin") + [EQUALS] && EQUALS !in Lit("plugin") && |Lit("plugin")| == 6
  {
  }

  lemma OtherGivesNone(param: Text, decode: Decoder)
    requires Other(param)
    ensures PluginIn(param, decode) == None
  {
    PluginLiteral();
    hide Lit;
    var eq := IndexOf(param, EQUALS);
    assert eq >= 0 ==> param[..eq] + [EQUALS] <= param;
  }

  lemma PluginGiven(value: Text, decode: Decoder)
    ensures var given := PluginIn(Lit("plugin=") + value, decode);
            && given.Some?
            && (SEMICOLON !in decode(value) ==> given.value == (decode(value), []))
            && forall name: Text, options: Text ::
                 SEMICOLON !in name && decode(value) == name + [SEMICOLON] + options ==> given.value == (name, options)
  {
    PluginLiteral();
    hide Lit;
    var param := Lit("plugin=") + value;
    assert param[..6] == Lit("plugin") && param[6] == EQUALS && param[7..] == value;
    IndexOfUnique(param, EQUALS, 6);
    forall name: Text, options: Text | SEMICOLON !in name && decode(value) == name + [SEMICOLON] + options
      ensures PluginIn(param, decode).value == (name, options)
    {
      CutsAt(name, SEMICOLON, options);
    }
    if SEMICOLON !in decode(value) {
      CutsAt(decode(value), SEMICOLON, []);
    }
  }

  lemma {:induction false} OthersIgnored(front: seq<Text>, back: seq<Text>, decode: Decoder)
    requires forall p :: p in back ==> Other(p)
    ensures PluginOf(front + back, decode) == PluginOf(front, decode)
  {
    hide Other, PluginIn;
    if back == [] {
      assert front + back == front;
    } else {
      var n := |back| - 1;
      assert back[n] in back && forall p :: p in back[..n] ==> p in back;
      OtherGivesNone(back[n], decode);
      OthersIgnored(front, back[..n], decode);
      assert (front + back)[..|front + back| - 1] == front + back[..n];
    }
  }

  /** The plugin named by the last parameter that sets one. */
  lemma LastDecides(front: seq<Text>, value: Text, back: seq<Text>, decode: Decoder)
    requires forall p :: p in front + [Lit("plugin=") + value] + back ==> AMPERSAND !in p
    requires forall p :: p in back ==> Other(p)
    ensures var plugin := QueryPlugin(Some(Joined(front + [Lit("plugin=") + value] + back)), decode);
            && (SEMICOLON !in decode(value) ==> plugin == (decode(value), []))
            && forall name: Text, options: Text ::
                 SEMICOLON !in name && decode(value) == name + [SEMICOLON] + options ==> plugin == (name, options)
  {
    hide Other, PluginIn, Lit, Joined;
    var set_ := front + [Lit("plugin=") + value];
    SplitJoined(set_ + back);
    OthersIgnored(set_, back, decode);
    PluginGiven(value, decode);
    assert set_[|set_| - 1] == Lit("plugin=") + value;
  }

  lemma NoneDecides(params: seq<Text>, decode: Decoder)
    requires params != [] && forall p :: p in params ==> AMPERSAND !in p && Other(p)
    ensures QueryPlugin(Some(Joined(params)), decode) == ([], [])
  {
    hide Other, PluginIn, Joined;
    SplitJoined(params);
    OthersIgnored([], params, decode);
    assert [] + params == params;
  }

  /** A printed link in one of the two forms. */
  function PrintedLink(legacy: bool, cipher: Text, password: Text, host: Text, bracketed: bool, port: nat,
                       url: bool, padded: bool, query: Option<Text>, fragment: Option<Text>): Text {
    var hostPort := HostPort(host, bracketed, port);
    Lit("ss://")
    + (if legacy then Legacy(cipher, password, hostPort, url, padded)
       else Sip002(cipher, password, hostPort, url, padded))
    + Suffix(query, fragment)
  }

  /** What a link may be printed from. */
  predicate Fits(legacy: bool, cipher: Text, password: Text, host: Text, port: nat, query: Option<Text>,
                 fragment: Option<Text>) {
    && Printable(cipher, password, host, port) && (legacy || (HASH !in host && QUESTION !in host))
    && (query.Some? ==> HASH !in query.value) && EndsVisibly(Suffix(query, fragment))
  }

  lemma PrintedReads(legacy: bool, cipher: Text, password: Text, host: Text, bracketed: bool, port: nat,
                     url: bool, padded: bool, query: Option<Text>, fragment: Option<Text>, decode: Decoder)
    requires Fits(legacy, cipher, password, host, port, query, fragment)
    ensures var link := PrintedLink(legacy, cipher, password, host, bracketed, port, url, padded, query, fragment);
            ParseLink(link, decode) == Some(Printed(cipher, password, host, port, query, fragment, decode))
  {
    hide Printed, Legacy, Sip002, HostPort, Lit, Suffix, ParseLink;
    if legacy {
      LegacyRoundTrip(cipher, password, host, bracketed, port, url, padded, query, fragment, decode);
    } else {
      Sip002RoundTrip(cipher, password, host, bracketed, port, url, padded, query, fragment, decode);
    }
  }

  /** A link whose query sets the plugin to `name;options`, percent-encoded as a whole, gives
      that name and those options, and its other fields, whatever stands before the parameter,
      and behind it as long as it sets no plugin. Without a ';' all of it is the name. */
  lemma PluginRead(legacy: bool, cipher: Text, password: Text, host: Text, bracketed: bool, port: nat, url: bool,
                   padded: bool, front: seq<Text>, value: Text, back: seq<Text>, fragment: Option<Text>,
                   decode: Decoder)
    requires Fits(legacy, cipher, password, host, port, Some(Joined(front + [Lit("plugin=") + value] + back)), fragment)
    requires forall p :: p in front + [Lit("plugin=") + value] + back ==> AMPERSAND !in p
    requires forall p :: p in back ==> !(Lit("plugin=") <= p)
    ensures var query := Some(Joined(front + [Lit("plugin=") + value] + back));
            var link := ParseLink(PrintedLink(legacy, cipher, password, host, bracketed, port, url, padded, query,
                                              fragment), decode);
            && link.Some?
            && (SEMICOLON !in decode(value) ==> link.value.plugin == decode(value) && link.value.pluginOpts == [])
            && forall name: Text, options: Text ::
                 SEMICOLON !in name && decode(value) == name + [SEMICOLON] + options ==>
                   link.value.plugin == name && link.value.pluginOpts == options
  {
    hide Lit, Joined, QueryPlugin, ParseLink, PrintedLink, Fits;
    var query := Some(Joined(front + [Lit("plugin=") + value] + back));
    PrintedReads(legacy, cipher, password, host, bracketed, port, url, padded, query, fragment, decode);
    LastDecides(front, value, back, decode);
  }

  /** Without a parameter that sets one, and without a query, a link names no plugin. */
  lemma NoPluginRead(legacy: bool, cipher: Text, password: Text, host: Text, bracketed: bool, port: nat, url: bool,
                     padded: bool, params: seq<Text>, fragment: Option<Text>, decode: Decoder)
    requires forall p :: p in params ==> AMPERSAND !in p && !(Lit("plugin=") <= p)
    requires Fits(legacy, cipher, password, host, port, if params == [] then None else Some(Joined(params)), fragment)
    ensures var query := if params == [] then None else Some(Joined(params));
            var link := ParseLink(PrintedLink(legacy, cipher, password, host, bracketed, port, url, padded, query,
                                              fragment), decode);
            link.Some? && link.value.plugin == [] && link.value.pluginOpts == []
  {
    hide Lit, Joined, ParseLink, PrintedLink, Fits;
    var query := if params == [] then None else Some(Joined(params));
    PrintedReads(legacy, cipher, password, host, bracketed, port, url, padded, query, fragment, decode);
    if params != [] {
      NoneDecides(params, decode);
    }
  }

  /** The name of a link is its decoded fragment, or its host without one. */
  lemma NameRead(legacy: bool, cipher: Text, password: Text, host: Text, bracketed: bool, port: nat, url: bool,
                 padded: bool, query: Option<Text>, fragment: Option<Text>, decode: Decoder)
    requires Fits(legacy, cipher, password, host, port, query, fragment)
    ensures var link := ParseLink(PrintedLink(legacy, cipher, password, host, bracketed, port, url, padded, query,
                                              fragment), decode);
            && link.Some? && link.value.cipher == cipher && link.value.password == password
            && link.value.host == host && link.value.port == port
            && (fragment.Some? && decode(fragment.value) != [] ==> link.value.name == decode(fragment.value))
            && (fragment.None? || decode(fragment.value) == [] ==> link.value.name == host)
  {
    hide ParseLink, PrintedLink, Fits, QueryPlugin;
    PrintedReads(legacy, cipher, password, host, bracketed, port, url, padded, query, fragment, decode);
  }
}
