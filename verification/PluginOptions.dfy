/** SIP003 option strings: `;`-separated `key=value` tokens folded into a configuration. */
module PluginOptions {
  import opened OptionType
  import opened Strings

  datatype Result<+T, +E> = Ok(value: T) | Err(error: E)

  datatype PluginError = Unsupported(name: string) | UnknownObfs(mode: string) | MissingObfs
                       | UnsupportedMode(mode: string)

  datatype V2rayConfig = V2rayConfig(tls: bool, host: string, path: string, headers: map<string, string>,
                                     skipCertVerify: bool, mux: bool)

  datatype PluginKind = SimpleObfsHttp(host: string) | SimpleObfsTls(host: string) | V2ray(config: V2rayConfig)

  /** White space as `str::trim` strips it. */
  predicate IsWhite(c: char) {
    var u := c as int;
    9 <= u <= 13 || u == 32 || u == 0x85 || u == 0xa0 || u == 0x1680 || 0x2000 <= u <= 0x200a || u == 0x2028
    || u == 0x2029 || u == 0x202f || u == 0x205f || u == 0x3000
  }

  function Trimmed(s: string): string {
    Trim(s, IsWhite)
  }

  /** The trimmed, non-empty pieces. */
  function Kept(pieces: seq<string>): seq<string> {
    if pieces == [] then []
    else (if Trimmed(pieces[0]) == "" then [] else [Trimmed(pieces[0])]) + Kept(pieces[1..])
  }

  function Tokens(opts: string): seq<string> {
    Kept(Split(opts, ';'))
  }

  /** Key and value of a token; a bare key has the value `bare`. */
  function KeyValue(token: string, bare: string): (string, string) {
    var eq := IndexOf(token, '=');
    if eq < 0 then (token, bare) else (Trimmed(token[..eq]), Trimmed(token[eq + 1..]))
  }

  /** The value of the last token with the key, if there is one. */
  function LastValue(tokens: seq<string>, key: string, bare: string): Option<string> {
    if tokens == [] then None
    else
      var n := |tokens| - 1;
      var (k, value) := KeyValue(tokens[n], bare);
      if k == key then Some(value) else LastValue(tokens[..n], key, bare)
  }

  lemma {:induction false} KeptConcat(a: seq<string>, b: seq<string>)
    ensures Kept(a + b) == Kept(a) + Kept(b)
  {
    if a == [] {
      assert a + b == b;
    } else {
      assert (a + b)[1..] == a[1..] + b;
      KeptConcat(a[1..], b);
    }
  }

  lemma TokensJoin(a: string, b: string)
    ensures Tokens(a + ";" + b) == Tokens(a) + Tokens(b)
  {
    assert a + ";" + b == a + [';'] + b;
    SplitJoin(a, ';', b);
    KeptConcat(Split(a, ';'), Split(b, ';'));
  }

  // ---- simple-obfs ----

  datatype ObfsState = ObfsState(mode: Option<string>, host: string)

  function ApplyObfs(state: ObfsState, token: string): ObfsState {
    var (key, value) := KeyValue(token, "");
    if key == "obfs" then state.(mode := Some(value))
    else if key == "obfs-host" then state.(host := value)
    else state
  }

  function FoldObfs(start: ObfsState, tokens: seq<string>): ObfsState {
    if tokens == [] then start
    else ApplyObfs(FoldObfs(start, tokens[..|tokens| - 1]), tokens[|tokens| - 1])
  }

  function ObfsOutcome(state: ObfsState): Result<PluginKind, PluginError> {
    match state.mode
    case None => Err(MissingObfs)
    case Some(m) =>
      if m == "http" then Ok(SimpleObfsHttp(state.host))
      else if m == "tls" then Ok(SimpleObfsTls(state.host))
      else Err(UnknownObfs(m))
  }

  const NO_OBFS := ObfsState(None, "")

  method ParseSimpleObfsOpts(opts: string) returns (r: Result<PluginKind, PluginError>)
    ensures r == ObfsOutcome(FoldObfs(NO_OBFS, Tokens(opts)))
  {
    var mode: Option<string>, host := None, "";
    var tokens := Tokens(opts);
    assert tokens[..0] == [];
    for i := 0 to |tokens|
      invariant ObfsState(mode, host) == FoldObfs(NO_OBFS, tokens[..i])
    {
      assert tokens[..i + 1][..i] == tokens[..i] && tokens[..i + 1][i] == tokens[i];
      var (key, value) := KeyValue(tokens[i], "");
      if key == "obfs" {
        mode := Some(value);
      } else if key == "obfs-host" {
        host := value;
      }
    }
    assert tokens[..|tokens|] == tokens;
    match mode
    case None => r := Err(MissingObfs);
    case Some(m) =>
      if m == "http" {
        r := Ok(SimpleObfsHttp(host));
      } else if m == "tls" {
        r := Ok(SimpleObfsTls(host));
      } else {
        r := Err(UnknownObfs(m));
      }
  }

  lemma {:induction false} FoldObfsConcat(start: ObfsState, a: seq<string>, b: seq<string>)
    ensures FoldObfs(start, a + b) == FoldObfs(FoldObfs(start, a), b)
  {
    if b == [] {
      assert a + b == a;
    } else {
      var n := |b| - 1;
      assert (a + b)[..|a + b| - 1] == a + b[..n];
      FoldObfsConcat(start, a, b[..n]);
    }
  }

  /** Later options override earlier ones: parsing `a;b` is parsing `b` on top of `a`. */
  lemma ObfsOverride(a: string, b: string)
    ensures FoldObfs(NO_OBFS, Tokens(a + ";" + b)) == FoldObfs(FoldObfs(NO_OBFS, Tokens(a)), Tokens(b))
  {
    TokensJoin(a, b);
    FoldObfsConcat(NO_OBFS, Tokens(a), Tokens(b));
  }

  /** Only the last `obfs` and the last `obfs-host` matter. */
  lemma {:induction false} ObfsLastWins(tokens: seq<string>)
    ensures FoldObfs(NO_OBFS, tokens) ==
            ObfsState(LastValue(tokens, "obfs", ""),
                      match LastValue(tokens, "obfs-host", "") case None => "" case Some(h) => h)
  {
    if tokens != [] {
      ObfsLastWins(tokens[..|tokens| - 1]);
    }
  }

  // ---- v2ray-plugin ----

  function Lower(s: string): string {
    seq(|s|, i requires 0 <= i < |s| => if 'A' <= s[i] <= 'Z' then (s[i] as int + 32) as char else s[i])
  }

  predicate ParseBool(s: string) {
    Lower(s) == "1" || Lower(s) == "true" || Lower(s) == "yes" || Lower(s) == "on"
  }

  predicate SupportedMode(value: string) {
    Lower(value) == "websocket" || Lower(value) == "ws"
  }

  const DEFAULT_V2RAY := V2rayConfig(false, "", "/", map[], false, false)

  predicate BadMode(token: string) {
    KeyValue(token, "true").0 == "mode" && !SupportedMode(KeyValue(token, "true").1)
  }

  /** The effect of a token that is not a bad mode. */
  function ApplyV2ray(cfg: V2rayConfig, token: string): V2rayConfig {
    var (key, value) := KeyValue(token, "true");
    if key == "tls" then cfg.(tls := ParseBool(value))
    else if key == "host" then cfg.(host := value)
    else if key == "path" then cfg.(path := value)
    else if key == "mux" then cfg.(mux := ParseBool(value))
    else if key == "skip-cert-verify" then cfg.(skipCertVerify := ParseBool(value))
    else if key == "header" then
      var colon := IndexOf(value, ':');
      if colon < 0 then cfg else cfg.(headers := cfg.headers[Trimmed(value[..colon]) := Trimmed(value[colon + 1..])])
    else cfg
  }

  function FoldV2ray(start: V2rayConfig, tokens: seq<string>): Result<V2rayConfig, PluginError> {
    if tokens == [] then Ok(start)
    else
      var n := |tokens| - 1;
      match FoldV2ray(start, tokens[..n])
      case Err(e) => Err(e)
      case Ok(cfg) =>
        if BadMode(tokens[n]) then Err(UnsupportedMode(KeyValue(tokens[n], "true").1))
        else Ok(ApplyV2ray(cfg, tokens[n]))
  }

  method ParseV2rayOpts(opts: string) returns (r: Result<V2rayConfig, PluginError>)
    ensures r == FoldV2ray(DEFAULT_V2RAY, Tokens(opts))
  {
    hide KeyValue, ParseBool, SupportedMode, Trimmed, Tokens;
    var cfg := DEFAULT_V2RAY;
    var tokens := Tokens(opts);
    assert tokens[..0] == [];
    for i := 0 to |tokens|
      invariant FoldV2ray(DEFAULT_V2RAY, tokens[..i]) == Ok(cfg)
    {
      assert tokens[..i + 1][..i] == tokens[..i] && tokens[..i + 1][i] == tokens[i];
      var (key, value) := KeyValue(tokens[i], "true");
      if key == "mode" {
        if !SupportedMode(value) {
          r := Err(UnsupportedMode(value));
          ErrorStays(DEFAULT_V2RAY, tokens[..i + 1], tokens[i + 1..]);
          assert tokens[..i + 1] + tokens[i + 1..] == tokens;
          return;
        }
      } else if key == "tls" {
        cfg := cfg.(tls := ParseBool(value));
      } else if key == "host" {
        cfg := cfg.(host := value);
      } else if key == "path" {
        cfg := cfg.(path := value);
      } else if key == "mux" {
        cfg := cfg.(mux := ParseBool(value));
      } else if key == "skip-cert-verify" {
        cfg := cfg.(skipCertVerify := ParseBool(value));
      } else if key == "header" {
        var colon := IndexOf(value, ':');
        if colon >= 0 {
          cfg := cfg.(headers := cfg.headers[Trimmed(value[..colon]) := Trimmed(value[colon + 1..])]);
        }
      }
    }
    assert tokens[..|tokens|] == tokens;
    r := Ok(cfg);
  }

  lemma {:induction false} ErrorStays(start: V2rayConfig, a: seq<string>, b: seq<string>)
    ensures FoldV2ray(start, a).Err? ==> FoldV2ray(start, a + b) == FoldV2ray(start, a)
    ensures FoldV2ray(start, a).Ok? ==> FoldV2ray(start, a + b) == FoldV2ray(FoldV2ray(start, a).value, b)
  {
    if b == [] {
      assert a + b == a;
    } else {
      var n := |b| - 1;
      assert (a + b)[..|a + b| - 1] == a + b[..n] && (a + b)[|a + b| - 1] == b[n];
      ErrorStays(start, a, b[..n]);
    }
  }

  /** Later options override earlier ones; an error in the first part is final. */
  lemma V2rayOverride(a: string, b: string)
    ensures FoldV2ray(DEFAULT_V2RAY, Tokens(a + ";" + b)) ==
            match FoldV2ray(DEFAULT_V2RAY, Tokens(a))
            case Err(e) => Err(e)
            case Ok(cfg) => FoldV2ray(cfg, Tokens(b))
  {
    TokensJoin(a, b);
    ErrorStays(DEFAULT_V2RAY, Tokens(a), Tokens(b));
  }

  /** The options are rejected if and only if some mode in them is unsupported, wherever it stands. */
  lemma {:induction false} V2rayRejects(tokens: seq<string>)
    ensures FoldV2ray(DEFAULT_V2RAY, tokens).Err? <==> exists t :: t in tokens && BadMode(t)
  {
    hide BadMode, ApplyV2ray;
    if tokens != [] {
      var n := |tokens| - 1;
      assert tokens == tokens[..n] + [tokens[n]];
      V2rayRejects(tokens[..n]);
    }
  }

  /** The error names the value of the first unsupported mode. */
  lemma {:induction false} V2rayFirstBad(tokens: seq<string>, k: nat)
    requires k < |tokens| && KeyValue(tokens[k], "true").0 == "mode" && !SupportedMode(KeyValue(tokens[k], "true").1)
    requires forall j :: 0 <= j < k ==> !BadMode(tokens[j])
    ensures FoldV2ray(DEFAULT_V2RAY, tokens) == Err(UnsupportedMode(KeyValue(tokens[k], "true").1))
  {
    hide KeyValue, SupportedMode, ApplyV2ray;
    var n := |tokens| - 1;
    if k < n {
      V2rayFirstBad(tokens[..n], k);
    } else {
      V2rayRejects(tokens[..n]);
      assert forall t :: t in tokens[..n] ==> exists j :: 0 <= j < n && tokens[j] == t;
    }
  }

  function Or<T>(o: Option<T>, default: T): T {
    match o
    case None => default
    case Some(v) => v
  }

  function Switch(tokens: seq<string>, key: string): bool {
    ParseBool(Or(LastValue(tokens, key, "true"), ""))
  }

  /** Accepted options: the last host and path decide. */
  lemma {:induction false} V2rayLastTexts(tokens: seq<string>)
    requires FoldV2ray(DEFAULT_V2RAY, tokens).Ok?
    ensures var cfg := FoldV2ray(DEFAULT_V2RAY, tokens).value;
            && cfg.host == Or(LastValue(tokens, "host", "true"), "")
            && cfg.path == Or(LastValue(tokens, "path", "true"), "/")
  {
    hide ParseBool, SupportedMode, KeyValue, Trimmed;
    if tokens != [] {
      V2rayLastTexts(tokens[..|tokens| - 1]);
    }
  }

  /** Accepted options: the last value of each switch decides. */
  lemma {:induction false} V2rayLastSwitches(tokens: seq<string>)
    requires FoldV2ray(DEFAULT_V2RAY, tokens).Ok?
    ensures var cfg := FoldV2ray(DEFAULT_V2RAY, tokens).value;
            && cfg.tls == Switch(tokens, "tls") && cfg.mux == Switch(tokens, "mux")
            && cfg.skipCertVerify == Switch(tokens, "skip-cert-verify")
  {
    EmptyIsFalse();
    hide ParseBool, SupportedMode, KeyValue, Trimmed;
    if tokens != [] {
      V2rayLastSwitches(tokens[..|tokens| - 1]);
    }
  }

  lemma EmptyIsFalse()
    ensures !ParseBool("")
  {
    assert |Lower("")| == 0;
  }

  /** Name and value of a header token. */
  function HeaderOf(token: string): Option<(string, string)> {
    var (key, value) := KeyValue(token, "true");
    var colon := IndexOf(value, ':');
    if key != "header" || colon < 0 then None else Some((Trimmed(value[..colon]), Trimmed(value[colon + 1..])))
  }

  function LastHeader(tokens: seq<string>, name: string): Option<string> {
    if tokens == [] then None
    else
      var n := |tokens| - 1;
      match HeaderOf(tokens[n])
      case None => LastHeader(tokens[..n], name)
      case Some(h) => if h.0 == name then Some(h.1) else LastHeader(tokens[..n], name)
  }

  /** The headers are exactly the named ones, each with its last value. */
  lemma {:induction false} V2rayHeaders(tokens: seq<string>, name: string)
    requires FoldV2ray(DEFAULT_V2RAY, tokens).Ok?
    ensures var headers := FoldV2ray(DEFAULT_V2RAY, tokens).value.headers;
            LastHeader(tokens, name) == if name in headers then Some(headers[name]) else None
  {
    hide ParseBool, SupportedMode, KeyValue, Trimmed;
    if tokens != [] {
      V2rayHeaders(tokens[..|tokens| - 1], name);
    }
  }

  // ---- Dispatch ----

  function PluginOutcome(name: string, opts: string): Result<PluginKind, PluginError> {
    if name == "obfs-local" || name == "simple-obfs" || name == "obfs" then ObfsOutcome(FoldObfs(NO_OBFS, Tokens(opts)))
    else if name == "v2ray-plugin" then
      match FoldV2ray(DEFAULT_V2RAY, Tokens(opts))
      case Ok(cfg) => Ok(V2ray(cfg))
      case Err(e) => Err(e)
    else Err(Unsupported(name))
  }

  method ParsePlugin(name: string, opts: string) returns (r: Result<PluginKind, PluginError>)
    ensures r == PluginOutcome(name, opts)
  {
    if name == "obfs-local" || name == "simple-obfs" || name == "obfs" {
      r := ParseSimpleObfsOpts(opts);
    } else if name == "v2ray-plugin" {
      var cfg := ParseV2rayOpts(opts);
      match cfg
      case Ok(c) => r := Ok(V2ray(c));
      case Err(e) => r := Err(e);
    } else {
      r := Err(Unsupported(name));
    }
  }
}
