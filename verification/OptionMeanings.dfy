/** What option strings mean, from what is printed in them. */
module OptionMeanings {
  import opened OptionType
  import opened Strings
  import opened PluginOptions

  /** No blank at either end. */
  predicate Neat(s: string) {
    Trimmed(s) == s
  }

  /** What is trimmed from options: the ASCII blanks among others, but no visible ASCII
      character. */
  lemma Blanks(c: char)
    ensures c in " \t\n\r" ==> IsWhite(c)
    ensures '!' <= c <= '~' ==> !IsWhite(c)
  {
  }

  lemma NeatPlain(s: string)
    requires s == "" || (!IsWhite(s[0]) && !IsWhite(s[|s| - 1]))
    ensures Neat(s)
  {
    if s != "" {
      assert TrimStart(s, IsWhite) == s;
    }
  }

  lemma KeyValueReads(key: string, value: string, bare: string)
    requires '=' !in key && Neat(key) && Neat(value)
    ensures KeyValue(key + "=" + value, bare) == (key, value)
    ensures KeyValue(key, bare) == (key, bare)
  {
    var token := key + "=" + value;
    assert token[|key|] == '=' && token[..|key|] == key && token[|key| + 1..] == value;
    IndexOfUnique(token, '=', |key|);
  }

  lemma OneToken(token: string)
    requires ';' !in token && Neat(token) && token != ""
    ensures Tokens(token) == [token]
  {
    assert Split(token, ';') == [token];
    assert [token][1..] == [] && Kept([]) == [];
    assert Kept([token]) == [token];
  }

  /** The last `obfs` decides between the two modes and the two errors, and the last
      `obfs-host` names the host. */
  lemma ObfsMeans(opts: string)
    ensures var mode, host := LastValue(Tokens(opts), "obfs", ""), LastValue(Tokens(opts), "obfs-host", "");
            var r := PluginOutcome("obfs-local", opts);
            && (mode == Some("http") ==> r == Ok(SimpleObfsHttp(if host.Some? then host.value else "")))
            && (mode == Some("tls") ==> r == Ok(SimpleObfsTls(if host.Some? then host.value else "")))
            && (mode == None ==> r == Err(MissingObfs))
            && (mode.Some? && mode.value != "http" && mode.value != "tls" ==> r == Err(UnknownObfs(mode.value)))
  {
    ObfsLastWins(Tokens(opts));
    hide FoldObfs, Tokens, LastValue;
  }

  /** The names of a plugin: three for simple-obfs, one for v2ray-plugin, and no other. */
  lemma NamesMean(name: string, opts: string)
    ensures name == "simple-obfs" || name == "obfs" || name == "obfs-local" ==>
              PluginOutcome(name, opts) == PluginOutcome("obfs-local", opts)
    ensures name == "v2ray-plugin" ==>
              match FoldV2ray(DEFAULT_V2RAY, Tokens(opts))
              case Ok(cfg) => PluginOutcome(name, opts) == Ok(V2ray(cfg))
              case Err(e) => PluginOutcome(name, opts) == Err(e)
    ensures name != "simple-obfs" && name != "obfs" && name != "obfs-local" && name != "v2ray-plugin" ==>
              PluginOutcome(name, opts) == Err(Unsupported(name))
  {
    hide FoldObfs, FoldV2ray, ObfsOutcome, Tokens;
  }

  /** Printed simple-obfs options are read back. */
  lemma ObfsPrinted(tls: bool, host: string)
    requires Neat(host) && ';' !in host
    ensures PluginOutcome("obfs-local", ("obfs=" + if tls then "tls" else "http") + ";" + ("obfs-host=" + host)) ==
            Ok(if tls then SimpleObfsTls(host) else SimpleObfsHttp(host))
  {
    hide PluginOutcome, Tokens, KeyValue, LastValue, Neat, Trimmed;
    var mode := if tls then "tls" else "http";
    var first, second := "obfs=" + mode, "obfs-host=" + host;
    NeatLiterals();
    assert "obfs" + "=" == "obfs=" && "obfs-host" + "=" == "obfs-host=";
    KeyValueReads("obfs", mode, "");
    KeyValueReads("obfs-host", host, "");
    NeatJoined("obfs=", mode);
    NeatJoined("obfs-host=", host);
    OneToken(first);
    OneToken(second);
    TokensJoin(first, second);
    assert [first] + [second] == [first, second];
    LastOfTwo(first, second, "obfs");
    LastOfTwo(first, second, "obfs-host");
    ObfsMeans(first + ";" + second);
  }

  lemma NeatLiterals()
    ensures Neat("tls") && Neat("http") && Neat("obfs") && Neat("obfs-host")
  {
    NeatPlain("tls");
    NeatPlain("http");
    NeatPlain("obfs");
    NeatPlain("obfs-host");
  }

  lemma LastOfTwo(first: string, second: string, key: string)
    ensures LastValue([first, second], key, "") ==
            if KeyValue(second, "").0 == key then Some(KeyValue(second, "").1)
            else if KeyValue(first, "").0 == key then Some(KeyValue(first, "").1)
            else None
  {
    hide KeyValue;
    var tokens := [first, second];
    assert tokens[..1] == [first] && [first][..0] == [];
    assert LastValue([], key, "") == None;
    assert LastValue([first], key, "") ==
           if KeyValue(first, "").0 == key then Some(KeyValue(first, "").1) else None;
  }

  lemma NeatJoined(front: string, back: string)
    requires front != "" && !IsWhite(front[0]) && !IsWhite(front[|front| - 1]) && Neat(back)
    ensures Neat(front + back)
  {
    if back != "" {
      NeatEnds(back);
      assert (front + back)[|front + back| - 1] == back[|back| - 1];
    } else {
      assert front + back == front;
    }
    NeatPlain(front + back);
  }

  lemma NeatEnds(s: string)
    requires Neat(s) && s != ""
    ensures !IsWhite(s[0]) && !IsWhite(s[|s| - 1])
  {
    TrimmedEnds(s);
  }

  lemma TrimmedEnds(s: string)
    ensures Trimmed(s) != "" ==> !IsWhite(Trimmed(s)[0]) && !IsWhite(Trimmed(s)[|Trimmed(s)| - 1])
  {
    StartEnds(s);
    EndEnds(TrimStart(s, IsWhite));
  }

  lemma {:induction false} StartEnds(s: string)
    ensures TrimStart(s, IsWhite) != "" ==> !IsWhite(TrimStart(s, IsWhite)[0])
  {
    if s != "" {
      StartEnds(s[1..]);
    }
  }

  lemma {:induction false} EndEnds(s: string)
    ensures var t := TrimEnd(s, IsWhite);
            && t <= s && (t != "" ==> !IsWhite(t[|t| - 1]))
  {
    if s != "" {
      EndEnds(s[..|s| - 1]);
    }
  }

  /** A printed header is read back; the name ends at the first ':'. */
  lemma HeaderReads(name: string, value: string)
    requires ':' !in name && '=' !in name && Neat(name) && Neat(value) && Neat(name + ":" + value)
    ensures HeaderOf("header=" + (name + ":" + value)) == Some((name, value))
  {
    var field := name + ":" + value;
    NeatPlain("header");
    assert "header" + "=" == "header=";
    KeyValueReads("header", field, "true");
    hide KeyValue;
    assert field[|name|] == ':' && field[..|name|] == name && field[|name| + 1..] == value;
    IndexOfUnique(field, ':', |name|);
  }

  /** How a switch and a mode may be spelled. */
  lemma Spellings()
    ensures ParseBool("1") && ParseBool("true") && ParseBool("YES") && ParseBool("On")
    ensures !ParseBool("0") && !ParseBool("false") && !ParseBool("no") && !ParseBool("off") && !ParseBool("2")
    ensures SupportedMode("websocket") && SupportedMode("WS") && !SupportedMode("quic") && !SupportedMode("")
  {
    assert Lower("1") == "1" && Lower("true") == "true" && Lower("YES") == "yes" && Lower("On") == "on";
    assert |Lower("0")| == 1 && Lower("0")[0] == '0' && |Lower("2")| == 1 && Lower("2")[0] == '2';
    assert Lower("false")[0] == 'f' && Lower("no")[0] == 'n' && Lower("off")[1] == 'f';
    assert Lower("websocket") == "websocket" && Lower("WS") == "ws" && Lower("quic")[0] == 'q' && |Lower("")| == 0;
  }
}
