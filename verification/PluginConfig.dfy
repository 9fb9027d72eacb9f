/** Server entries with SIP003 plugins: what is collected from a configuration, and what the
    configuration looks like once loopback forwarders have taken the plugins' place. */
module PluginConfig {
  import opened OptionType
  import opened PluginOptions

  datatype Json = Null | Bool(b: bool) | Int(n: int) | Real(r: real) | Str(s: string) | Arr(items: seq<Json>)
                | Obj(fields: map<string, Json>)

  /** `value.get(key)`. */
  function Get(json: Json, key: string): Option<Json> {
    if json.Obj? && key in json.fields then Some(json.fields[key]) else None
  }

  function AsStr(o: Option<Json>): Option<string> {
    if o.Some? && o.value.Str? then Some(o.value.s) else None
  }

  /** `as_u64` followed by `u16::try_from`. */
  function AsPort(o: Option<Json>): Option<nat> {
    if o.Some? && o.value.Int? && 0 <= o.value.n < 65536 then Some(o.value.n) else None
  }

  /** The entries of the "servers" array; none when it is missing or not an array. */
  function Servers(json: Json): seq<Json> {
    match Get(json, "servers")
    case Some(Arr(items)) => items
    case _ => []
  }

  datatype Site = TopLevel | Server(index: nat)

  datatype PluginSpec = PluginSpec(site: Site, kind: PluginKind, host: string, port: nat)

  datatype ConfigError = PluginNotString | BadPlugin(error: PluginError) | NoServer(name: string) | NoPort(name: string)

  function ExtractOne(entry: Json, site: Site): Result<PluginSpec, ConfigError> {
    match AsStr(Get(entry, "plugin"))
    case None => Err(PluginNotString)
    case Some(name) =>
      var opts := match AsStr(Get(entry, "plugin_opts")) case None => "" case Some(o) => o;
      match PluginOutcome(name, opts)
      case Err(e) => Err(BadPlugin(e))
      case Ok(kind) =>
        match AsStr(Get(entry, "server"))
        case None => Err(NoServer(name))
        case Some(host) =>
          match AsPort(Get(entry, "server_port"))
          case None => Err(NoPort(name))
          case Some(port) => Ok(PluginSpec(site, kind, host, port))
  }

  predicate HasPlugin(entry: Json) {
    Get(entry, "plugin").Some?
  }

  /** The entry a site names. */
  function At(json: Json, site: Site): Option<Json> {
    match site
    case TopLevel => Some(json)
    case Server(i) => if i < |Servers(json)| then Some(Servers(json)[i]) else None
  }

  /** What the fields of an entry say: its plugin string, with the options beside it if they are
      a string and none otherwise, means `kind`, and its address is `host` and `port`. */
  predicate Declared(entry: Json, kind: PluginKind, host: string, port: nat) {
    && entry.Obj? && "plugin" in entry.fields && entry.fields["plugin"].Str?
    && PluginOutcome(entry.fields["plugin"].s, OptionText(entry.fields)) == Ok(kind)
    && "server" in entry.fields && entry.fields["server"] == Str(host)
    && "server_port" in entry.fields && entry.fields["server_port"] == Int(port) && port < 65536
  }

  function OptionText(fields: map<string, Json>): string {
    if "plugin_opts" in fields && fields["plugin_opts"].Str? then fields["plugin_opts"].s else ""
  }

  /** An entry whose plugin can be served: plugin and server are strings, the options are
      accepted, and the port is an integer from 0 to 65535. */
  predicate WellDeclared(entry: Json) {
    && entry.Obj? && "plugin" in entry.fields && entry.fields["plugin"].Str?
    && PluginOutcome(entry.fields["plugin"].s, OptionText(entry.fields)).Ok?
    && "server" in entry.fields && entry.fields["server"].Str?
    && "server_port" in entry.fields && entry.fields["server_port"].Int?
    && 0 <= entry.fields["server_port"].n <= 65535
  }

  /** An entry is read as what its fields say, or not at all. */
  lemma ExtractMeans(entry: Json, site: Site)
    ensures ExtractOne(entry, site).Ok? <==> WellDeclared(entry)
    ensures forall kind, host, port ::
              ExtractOne(entry, site) == Ok(PluginSpec(site, kind, host, port)) <==> Declared(entry, kind, host, port)
  {
    hide PluginOutcome;
  }

  /** Why an entry is not read: the first of its fields that is missing or wrong, of plugin,
      options, server and port in this order. */
  lemma ExtractFails(fields: map<string, Json>, site: Site)
    requires "plugin" in fields
    ensures var r := ExtractOne(Obj(fields), site);
            var plugin := fields["plugin"];
            if !plugin.Str? then r == Err(PluginNotString)
            else if PluginOutcome(plugin.s, OptionText(fields)).Err? then
              r == Err(BadPlugin(PluginOutcome(plugin.s, OptionText(fields)).error))
            else if "server" !in fields || !fields["server"].Str? then r == Err(NoServer(plugin.s))
            else if "server_port" !in fields || !fields["server_port"].Int?
                    || fields["server_port"].n < 0 || fields["server_port"].n > 65535 then r == Err(NoPort(plugin.s))
            else r.Ok?
  {
    hide PluginOutcome;
  }

  /** The order in which entries are visited: the top level, then the servers. */
  predicate Before(a: Site, b: Site) {
    b.Server? && (a.TopLevel? || a.index < b.index)
  }

  predicate Declares(json: Json, site: Site) {
    At(json, site).Some? && HasPlugin(At(json, site).value)
  }

  /** `specs` are the plugins of a configuration: one for every entry that declares one, read
      from that entry, in the order of the entries. */
  ghost predicate Complete(json: Json, specs: seq<PluginSpec>) {
    && (forall k :: 0 <= k < |specs| ==> ReadFrom(json, specs[k]))
    && (forall site :: Declares(json, site) ==> exists k :: 0 <= k < |specs| && specs[k].site == site)
    && (forall j, k :: 0 <= j < k < |specs| ==> Before(specs[j].site, specs[k].site))
  }

  predicate ReadFrom(json: Json, spec: PluginSpec) {
    At(json, spec.site).Some? && HasPlugin(At(json, spec.site).value)
    && ExtractOne(At(json, spec.site).value, spec.site) == Ok(spec)
  }

  predicate Readable(json: Json, site: Site) {
    Declares(json, site) ==> ExtractOne(At(json, site).value, site).Ok?
  }

  /** Some entry that declares a plugin cannot be read, and `e` is what is wrong with the first
      of them. */
  ghost predicate Unreadable(json: Json, e: ConfigError) {
    exists site :: Declares(json, site) && ExtractOne(At(json, site).value, site) == Err(e)
                   && forall s :: Before(s, site) ==> Readable(json, s)
  }

  /** The plugins of a configuration are determined by it, in their order. */
  lemma CompleteUnique(json: Json, a: seq<PluginSpec>, b: seq<PluginSpec>)
    requires Complete(json, a) && Complete(json, b)
    ensures a == b
  {
    hide ExtractOne;
    CompletePrefix(json, a, b, |a|);
    CompletePrefix(json, b, a, |b|);
  }

  lemma {:induction false} CompletePrefix(json: Json, a: seq<PluginSpec>, b: seq<PluginSpec>, n: nat)
    requires Complete(json, a) && Complete(json, b) && n <= |a|
    ensures n <= |b| && a[..n] == b[..n]
  {
    hide ExtractOne, Complete;
    if n > 0 {
      var k := n - 1;
      CompletePrefix(json, a, b, k);
      var j := ComesAt(json, a, b, k);
      var i := ComesAt(json, b, a, k);
      assert b[k].site == a[k].site;
      SameSpec(json, a, b, k);
      assert a[..n] == a[..k] + [a[k]] && b[..n] == b[..k] + [b[k]];
    }
  }

  lemma ComesAt(json: Json, a: seq<PluginSpec>, b: seq<PluginSpec>, k: nat) returns (j: nat)
    requires Complete(json, a) && Complete(json, b) && k < |a| && k <= |b| && a[..k] == b[..k]
    ensures k <= j < |b| && b[j].site == a[k].site && (k < j ==> Before(b[k].site, a[k].site))
  {
    hide ExtractOne;
    assert ReadFrom(json, a[k]) && Declares(json, a[k].site);
    j :| 0 <= j < |b| && b[j].site == a[k].site;
    forall i | 0 <= i < k ensures b[i].site != a[k].site {
      assert b[i] == b[..k][i] == a[..k][i] == a[i];
      assert Before(a[i].site, a[k].site);
    }
  }

  lemma SameSpec(json: Json, a: seq<PluginSpec>, b: seq<PluginSpec>, k: nat)
    requires Complete(json, a) && Complete(json, b) && k < |a| && k < |b| && a[k].site == b[k].site
    ensures a[k] == b[k]
  {
    hide ExtractOne;
    assert ReadFrom(json, a[k]) && ReadFrom(json, b[k]);
  }

  lemma WellDeclaredIff(json: Json)
    ensures (exists specs :: Complete(json, specs)) ==>
              forall site :: Declares(json, site) ==> WellDeclared(At(json, site).value)
    ensures forall e :: Unreadable(json, e) ==>
              exists site :: Declares(json, site) && !WellDeclared(At(json, site).value)
  {
    hide ExtractOne, WellDeclared;
    forall site | Declares(json, site)
      ensures WellDeclared(At(json, site).value) <==> ExtractOne(At(json, site).value, site).Ok?
    {
      ExtractMeans(At(json, site).value, site);
    }
    if specs: seq<PluginSpec> :| Complete(json, specs) {
      forall site | Declares(json, site) ensures WellDeclared(At(json, site).value) {
        var k :| 0 <= k < |specs| && specs[k].site == site;
        assert ReadFrom(json, specs[k]);
      }
    }
  }

  method ExtractPluginSpecs(json: Json) returns (r: Result<seq<PluginSpec>, ConfigError>)
    ensures r.Ok? ==> Complete(json, r.value)
    ensures r.Err? ==> Unreadable(json, r.error)
    ensures r.Ok? <==> forall site :: Declares(json, site) ==> WellDeclared(At(json, site).value)
  {
    WellDeclaredIff(json);
    hide ExtractOne, Get, Collected, Complete;
    var specs: seq<PluginSpec> := [];
    if HasPlugin(json) {
      var spec := ExtractOneSpec(json, TopLevel);
      if spec.Err? {
        assert At(json, TopLevel) == Some(json);
        return Err(spec.error);
      }
      specs := specs + [spec.value];
    }
    CollectTop(json, specs);
    var servers := Servers(json);
    for i := 0 to |servers|
      invariant Collected(json, specs, i)
    {
      if HasPlugin(servers[i]) {
        var spec := ExtractOneSpec(servers[i], Server(i));
        if spec.Err? {
          assert At(json, Server(i)) == Some(servers[i]);
          CollectedReadable(json, specs, i);
          return Err(spec.error);
        }
        CollectServer(json, specs, i, spec.value);
        specs := specs + [spec.value];
      } else {
        CollectNothing(json, specs, i);
      }
    }
    CollectedAll(json, specs);
    r := Ok(specs);
  }

  /** The plugins of the top level and of the first `i` servers. */
  ghost predicate Collected(json: Json, specs: seq<PluginSpec>, i: nat) {
    InOrder(json, specs, i) && AllFound(json, specs, i)
  }

  predicate InOrder(json: Json, specs: seq<PluginSpec>, i: nat) {
    && (forall k :: 0 <= k < |specs| ==> ReadFrom(json, specs[k]) && Before(specs[k].site, Server(i)))
    && (forall j, k :: 0 <= j < k < |specs| ==> Before(specs[j].site, specs[k].site))
  }

  ghost predicate AllFound(json: Json, specs: seq<PluginSpec>, i: nat) {
    forall site :: Before(site, Server(i)) && Declares(json, site) ==>
                     exists k :: 0 <= k < |specs| && specs[k].site == site
  }

  lemma CollectedReadable(json: Json, specs: seq<PluginSpec>, i: nat)
    requires Collected(json, specs, i)
    ensures forall s :: Before(s, Server(i)) ==> Readable(json, s)
  {
    hide ExtractOne, HasPlugin;
    forall s | Before(s, Server(i)) ensures Readable(json, s) {
      if Declares(json, s) {
        var k :| 0 <= k < |specs| && specs[k].site == s;
        assert ReadFrom(json, specs[k]);
      }
    }
  }

  lemma CollectTop(json: Json, specs: seq<PluginSpec>)
    requires if HasPlugin(json) then |specs| == 1 && ExtractOne(json, TopLevel) == Ok(specs[0]) else specs == []
    ensures Collected(json, specs, 0)
  {
    SiteKept(json, TopLevel);
    hide ExtractOne;
    if HasPlugin(json) {
      assert specs[0].site == TopLevel;
    }
  }

  lemma CollectServer(json: Json, specs: seq<PluginSpec>, i: nat, spec: PluginSpec)
    requires Collected(json, specs, i) && i < |Servers(json)| && HasPlugin(Servers(json)[i])
    requires ExtractOne(Servers(json)[i], Server(i)) == Ok(spec)
    ensures Collected(json, specs + [spec], i + 1)
  {
    SiteKept(Servers(json)[i], Server(i));
    assert ReadFrom(json, spec);
    hide ExtractOne, HasPlugin, ReadFrom, Declares;
    var all := specs + [spec];
    assert InOrder(json, all, i + 1);
    forall site | Before(site, Server(i + 1)) && Declares(json, site)
      ensures exists k :: 0 <= k < |all| && all[k].site == site
    {
      if site == Server(i) {
        assert all[|specs|].site == site;
      } else {
        var k :| 0 <= k < |specs| && specs[k].site == site;
        assert all[k].site == site;
      }
    }
  }

  lemma CollectNothing(json: Json, specs: seq<PluginSpec>, i: nat)
    requires Collected(json, specs, i) && i < |Servers(json)| && !HasPlugin(Servers(json)[i])
    ensures Collected(json, specs, i + 1)
  {
    hide ExtractOne, HasPlugin;
  }

  lemma CollectedAll(json: Json, specs: seq<PluginSpec>)
    requires Collected(json, specs, |Servers(json)|)
    ensures Complete(json, specs)
  {
    hide ExtractOne, HasPlugin;
  }

  lemma SiteKept(entry: Json, site: Site)
    ensures ExtractOne(entry, site).Ok? ==> ExtractOne(entry, site).value.site == site
  {
  }

  method ExtractOneSpec(entry: Json, site: Site) returns (r: Result<PluginSpec, ConfigError>)
    ensures r == ExtractOne(entry, site)
    ensures r.Ok? ==> r.value.site == site
  {
    var plugin := AsStr(Get(entry, "plugin"));
    if plugin == None {
      return Err(PluginNotString);
    }
    var name := plugin.value;
    var given := AsStr(Get(entry, "plugin_opts"));
    var kind := ParsePlugin(name, if given.Some? then given.value else "");
    if kind.Err? {
      return Err(BadPlugin(kind.error));
    }
    var host := AsStr(Get(entry, "server"));
    if host == None {
      return Err(NoServer(name));
    }
    var port := AsPort(Get(entry, "server_port"));
    if port == None {
      return Err(NoPort(name));
    }
    r := Ok(PluginSpec(site, kind.value, host.value, port.value));
  }

  // ---- The rewritten configuration ----

  const PLUGIN_KEYS: set<string> := {"plugin", "plugin_opts"}
  const ADDRESS_KEYS: set<string> := {"server", "server_port"}

  /** `after` is `before` untouched, or pointed at a local port and freed of its plugin. */
  ghost predicate PointsTo(before: map<string, Json>, after: map<string, Json>, port: Option<nat>) {
    match port
    case None => after == before
    case Some(p) =>
      && (forall key :: key !in PLUGIN_KEYS + ADDRESS_KEYS ==>
            (key in after <==> key in before) && (key in before ==> after[key] == before[key]))
      && "server" in after && after["server"] == Str("127.0.0.1")
      && "server_port" in after && after["server_port"] == Int(p)
      && "plugin" !in after && "plugin_opts" !in after
  }

  /** The local port that took the place of the plugin at a site. */
  function PortAt(specs: seq<PluginSpec>, ports: seq<nat>, site: Site): Option<nat>
    requires |specs| == |ports|
  {
    if specs == [] then None
    else if specs[|specs| - 1].site == site then Some(ports[|specs| - 1])
    else PortAt(specs[..|specs| - 1], ports[..|specs| - 1], site)
  }

  ghost predicate EntryPointsTo(before: Json, after: Json, port: Option<nat>) {
    if port == None then after == before
    else before.Obj? && after.Obj? && PointsTo(before.fields, after.fields, port)
  }

  /** `after` is `before` with the entries of `specs` pointed at `ports`: every other entry and
      every other key is the same, and the servers keep their order. */
  ghost predicate Rewritten(before: Json, after: Json, specs: seq<PluginSpec>, ports: seq<nat>)
    requires |specs| == |ports|
  {
    if specs == [] then after == before
    else
      && before.Obj? && after.Obj?
      && PointsTo(before.fields - {"servers"}, after.fields - {"servers"}, PortAt(specs, ports, TopLevel))
      && ("servers" in before.fields <==> "servers" in after.fields)
      && ("servers" in before.fields && !before.fields["servers"].Arr? ==>
            after.fields["servers"] == before.fields["servers"])
      && ("servers" in before.fields && before.fields["servers"].Arr? ==>
            && after.fields["servers"].Arr?
            && |Servers(after)| == |Servers(before)|
            && forall i: nat :: i < |Servers(before)| ==>
                 EntryPointsTo(Servers(before)[i], Servers(after)[i], PortAt(specs, ports, Server(i))))
  }

  lemma PointsToUnique(before: map<string, Json>, a: map<string, Json>, b: map<string, Json>,
                       port: Option<nat>)
    requires PointsTo(before, a, port) && PointsTo(before, b, port)
    ensures a == b
  {
    if port.Some? {
      forall key ensures key in a <==> key in b {
        if key !in PLUGIN_KEYS + ADDRESS_KEYS {
          assert (key in a <==> key in before) && (key in b <==> key in before);
        }
      }
      forall key | key in a ensures a[key] == b[key] {
        if key !in ADDRESS_KEYS {
          assert key !in PLUGIN_KEYS + ADDRESS_KEYS;
        }
      }
    }
  }

  /** A rewrite is determined by the plugins and the ports: it leaves nothing open. */
  lemma RewrittenUnique(before: Json, a: Json, b: Json, specs: seq<PluginSpec>, ports: seq<nat>)
    requires |specs| == |ports| && Rewritten(before, a, specs, ports) && Rewritten(before, b, specs, ports)
    ensures a == b
  {
    hide PortAt, PointsTo;
    if specs != [] {
      PointsToUnique(before.fields - {"servers"}, a.fields - {"servers"}, b.fields - {"servers"},
                     PortAt(specs, ports, TopLevel));
      if "servers" in before.fields && before.fields["servers"].Arr? {
        forall i: nat | i < |Servers(before)| ensures Servers(a)[i] == Servers(b)[i] {
          var port := PortAt(specs, ports, Server(i));
          if port.Some? {
            PointsToUnique(Servers(before)[i].fields, Servers(a)[i].fields, Servers(b)[i].fields, port);
          }
        }
        assert Servers(a) == Servers(b);
      }
      SameFields(a.fields, b.fields, "servers");
    }
  }

  lemma SameFields(a: map<string, Json>, b: map<string, Json>, key: string)
    requires a - {key} == b - {key} && (key in a <==> key in b) && (key in a ==> a[key] == b[key])
    ensures a == b
  {
    forall k ensures (k in a <==> k in b) && (k in a ==> a[k] == b[k]) {
      if k != key {
        assert (k in a <==> k in a - {key}) && (k in b <==> k in b - {key});
      }
    }
  }

  /** The assignments made to one entry. */
  function Redirect(fields: map<string, Json>, port: nat): map<string, Json> {
    fields["server" := Str("127.0.0.1")]["server_port" := Int(port)] - PLUGIN_KEYS
  }

  lemma RedirectPoints(fields: map<string, Json>, port: nat)
    ensures PointsTo(fields, Redirect(fields, port), Some(port))
    ensures PointsTo(fields - {"servers"}, Redirect(fields, port) - {"servers"}, Some(port))
    ensures "servers" in fields <==> "servers" in Redirect(fields, port)
    ensures "servers" in fields ==> Redirect(fields, port)["servers"] == fields["servers"]
  {
  }

  /** The configuration with the entry of one site redirected. */
  function RedirectAt(json: Json, site: Site, port: nat): Json
    requires json.Obj? && (site.Server? ==> site.index < |Servers(json)| && Servers(json)[site.index].Obj?)
  {
    match site
    case TopLevel => Obj(Redirect(json.fields, port))
    case Server(i) =>
      Obj(json.fields["servers" := Arr(Servers(json)[i := Obj(Redirect(Servers(json)[i].fields, port))])])
  }

  lemma PortAtSnoc(specs: seq<PluginSpec>, ports: seq<nat>, spec: PluginSpec, port: nat, site: Site)
    requires |specs| == |ports|
    ensures PortAt(specs + [spec], ports + [port], site) ==
            if spec.site == site then Some(port) else PortAt(specs, ports, site)
  {
    assert (specs + [spec])[..|specs|] == specs && (ports + [port])[..|ports|] == ports;
  }

  lemma {:induction false} NoPortYet(specs: seq<PluginSpec>, ports: seq<nat>, site: Site)
    requires |specs| == |ports| && forall k :: 0 <= k < |specs| ==> specs[k].site != site
    ensures PortAt(specs, ports, site) == None
  {
    if specs != [] {
      NoPortYet(specs[..|specs| - 1], ports[..|specs| - 1], site);
    }
  }

  /** A site not rewritten yet still has its original entry. */
  lemma EntryUntouched(before: Json, json: Json, specs: seq<PluginSpec>, ports: seq<nat>,
                       spec: PluginSpec)
    requires |specs| == |ports| && Rewritten(before, json, specs, ports)
    requires ReadFrom(before, spec) && forall k :: 0 <= k < |specs| ==> specs[k].site != spec.site
    ensures json.Obj? && before.Obj?
    ensures spec.site.Server? ==> spec.site.index < |Servers(json)| == |Servers(before)|
                                  && Servers(json)[spec.site.index] == Servers(before)[spec.site.index]
                                  && Servers(json)[spec.site.index].Obj?
    ensures spec.site.TopLevel? ==> json.fields - {"servers"} == before.fields - {"servers"}
  {
    hide ExtractOne;
    NoPortYet(specs, ports, spec.site);
  }

  lemma RewriteTop(before: Json, json: Json, specs: seq<PluginSpec>, ports: seq<nat>,
                   spec: PluginSpec, port: nat)
    requires |specs| == |ports| && Rewritten(before, json, specs, ports) && spec.site == TopLevel
    requires ReadFrom(before, spec) && forall k :: 0 <= k < |specs| ==> specs[k].site != spec.site
    requires json.Obj?
    ensures Rewritten(before, RedirectAt(json, TopLevel, port), specs + [spec], ports + [port])
  {
    EntryUntouched(before, json, specs, ports, spec);
    hide ExtractOne, PortAt, Redirect;
    PortAtSnoc(specs, ports, spec, port, TopLevel);
    RedirectPoints(json.fields, port);
    RedirectPoints(before.fields, port);
    SameRedirect(before.fields, json.fields, port);
    forall i: nat ensures PortAt(specs + [spec], ports + [port], Server(i)) == PortAt(specs, ports, Server(i)) {
      PortAtSnoc(specs, ports, spec, port, Server(i));
    }
    if specs == [] {
      NothingRewritten(ports);
    }
  }

  lemma SameRedirect(a: map<string, Json>, b: map<string, Json>, port: nat)
    requires a - {"servers"} == b - {"servers"}
    ensures PointsTo(a - {"servers"}, Redirect(b, port) - {"servers"}, Some(port))
  {
    RedirectPoints(b, port);
  }

  lemma NothingRewritten(ports: seq<nat>)
    requires ports == []
    ensures forall site :: PortAt([], ports, site) == None
  {
  }

  lemma RewriteServer(before: Json, json: Json, specs: seq<PluginSpec>, ports: seq<nat>,
                      spec: PluginSpec, port: nat)
    requires |specs| == |ports| && Rewritten(before, json, specs, ports) && spec.site.Server?
    requires ReadFrom(before, spec) && forall k :: 0 <= k < |specs| ==> specs[k].site != spec.site
    requires json.Obj? && spec.site.index < |Servers(json)| && Servers(json)[spec.site.index].Obj?
    ensures Rewritten(before, RedirectAt(json, spec.site, port), specs + [spec], ports + [port])
  {
    hide ExtractOne, PortAt, Redirect, PointsTo, RedirectAt, Servers;
    EntryUntouched(before, json, specs, ports, spec);
    var n := spec.site.index;
    RedirectPoints(Servers(json)[n].fields, port);
    ServersAfter(json, n, port);
    ServersGiven(before, n);
    PortAtSnoc(specs, ports, spec, port, TopLevel);
    forall i: nat
      ensures PortAt(specs + [spec], ports + [port], Server(i)) ==
              if i == n then Some(port) else PortAt(specs, ports, Server(i))
    {
      PortAtSnoc(specs, ports, spec, port, Server(i));
    }
    if specs == [] {
      NothingRewritten(ports);
      PointsToSelf(before.fields - {"servers"});
    }
  }

  lemma PointsToSelf(fields: map<string, Json>)
    ensures PointsTo(fields, fields, None)
  {
  }

  lemma ServersAfter(json: Json, n: nat, port: nat)
    requires json.Obj? && n < |Servers(json)| && Servers(json)[n].Obj?
    ensures var after := RedirectAt(json, Server(n), port);
            && after.Obj? && after.fields - {"servers"} == json.fields - {"servers"}
            && Servers(after) == Servers(json)[n := Obj(Redirect(Servers(json)[n].fields, port))]
            && "servers" in after.fields && after.fields["servers"].Arr?
  {
  }

  lemma ServersGiven(json: Json, n: nat)
    requires n < |Servers(json)|
    ensures json.Obj? && "servers" in json.fields && json.fields["servers"].Arr?
  {
  }

  /** After the rewrite no entry declares a plugin, so the core never sees one. */
  lemma NoPluginLeft(before: Json, after: Json, specs: seq<PluginSpec>, ports: seq<nat>, site: Site)
    requires |specs| == |ports| && Complete(before, specs) && Rewritten(before, after, specs, ports)
    requires At(after, site).Some?
    ensures !HasPlugin(At(after, site).value)
  {
    hide ExtractOne;
    assert At(before, site).Some? && HasPlugin(At(before, site).value) ==> Declares(before, site);
    if specs != [] {
      PortFound(specs, ports, site);
      var port := PortAt(specs, ports, site);
      if site.TopLevel? {
        assert HasPlugin(before) <==> "plugin" in before.fields - {"servers"};
        assert At(before, TopLevel) == Some(before);
      } else {
        assert At(before, site) == Some(Servers(before)[site.index]);
      }
    } else {
      assert At(before, site) == At(after, site);
    }
  }

  lemma {:induction false} PortFound(specs: seq<PluginSpec>, ports: seq<nat>, site: Site)
    requires |specs| == |ports|
    ensures PortAt(specs, ports, site).Some? <==> exists k :: 0 <= k < |specs| && specs[k].site == site
  {
    if specs != [] {
      var n := |specs| - 1;
      PortFound(specs[..n], ports[..n], site);
      assert specs == specs[..n] + [specs[n]];
    }
  }

  lemma {:induction false} PortOwn(specs: seq<PluginSpec>, ports: seq<nat>, k: nat)
    requires |specs| == |ports| && k < |specs|
    requires forall i, j :: 0 <= i < j < |specs| ==> specs[i].site != specs[j].site
    ensures PortAt(specs, ports, specs[k].site) == Some(ports[k])
  {
    var n := |specs| - 1;
    if k < n {
      PortOwn(specs[..n], ports[..n], k);
    }
  }

  // ---- Forwarders ----

  datatype Forwarder = Forwarder(kind: PluginKind, host: string, port: nat, localPort: nat)

  /** The forwarders that take the place of plugins. */
  function Forwarders(specs: seq<PluginSpec>, ports: seq<nat>): seq<Forwarder>
    requires |specs| == |ports|
  {
    seq(|specs|, k requires 0 <= k < |specs| => Forwarder(specs[k].kind, specs[k].host, specs[k].port, ports[k]))
  }

  /** Every entry with a plugin now points at a forwarder that was started for its own
      plugin, host and port. */
  lemma PluginEntryServed(before: Json, after: Json, specs: seq<PluginSpec>, ports: seq<nat>,
                          site: Site)
    requires |specs| == |ports| && Complete(before, specs) && Rewritten(before, after, specs, ports)
    requires At(before, site).Some? && HasPlugin(At(before, site).value)
    ensures At(after, site).Some?
    ensures var entry, entry' := At(before, site).value, At(after, site).value;
            exists f :: f in Forwarders(specs, ports) && Declared(entry, f.kind, f.host, f.port)
                        && entry.Obj? && entry'.Obj?
                        && PointsTo(entry.fields - SiteBelow(site), entry'.fields - SiteBelow(site), Some(f.localPort))
  {
    hide ExtractOne, PointsTo;
    PortFound(specs, ports, site);
    var entry := At(before, site).value;
    assert Declares(before, site);
    var k :| 0 <= k < |specs| && specs[k].site == site;
    PortOwn(specs, ports, k);
    var f := Forwarders(specs, ports)[k];
    assert f in Forwarders(specs, ports) && ReadFrom(before, specs[k]);
    assert specs[k] == PluginSpec(site, f.kind, f.host, f.port);
    ExtractMeans(entry, site);
    assert Declared(entry, f.kind, f.host, f.port);
    hide Declared;
    if site.Server? {
      var e, e' := Servers(before)[site.index], Servers(after)[site.index];
      assert e.fields - {} == e.fields && e'.fields - {} == e'.fields;
    }
  }

  /** Every entry without a plugin is as it was. */
  lemma PlainEntryKept(before: Json, after: Json, specs: seq<PluginSpec>, ports: seq<nat>,
                       site: Site)
    requires |specs| == |ports| && Complete(before, specs) && Rewritten(before, after, specs, ports)
    requires At(before, site).Some? && !HasPlugin(At(before, site).value)
    ensures At(after, site).Some?
    ensures site.Server? ==> At(after, site) == At(before, site)
    ensures site.TopLevel? && before.Obj? ==> after.Obj? && after.fields - {"servers"} == before.fields - {"servers"}
  {
    hide ExtractOne;
    forall k | 0 <= k < |specs| ensures specs[k].site != site {
      assert ReadFrom(before, specs[k]);
    }
    NoPortYet(specs, ports, site);
  }

  /** The keys of a top-level entry that belong to other entries. */
  function SiteBelow(site: Site): set<string> {
    if site.TopLevel? then {"servers"} else {}
  }

  /** A tokio runtime with the tasks that live on it. Its script says, for each forwarder to
      come, the port the listener gets, or None where binding fails. */
  class Runtime {
    var alive: bool
    var forwarders: seq<Forwarder>
    var bindScript: seq<Option<nat>>

    constructor (bindScript: seq<Option<nat>>)
      ensures alive && forwarders == [] && this.bindScript == bindScript
    {
      alive, forwarders := true, [];
      this.bindScript := bindScript;
    }

    method StartForwarder(kind: PluginKind, host: string, port: nat) returns (r: Option<nat>)
      modifies this`forwarders, this`bindScript
      ensures r == if old(bindScript) == [] then None else old(bindScript)[0]
      ensures bindScript == if old(bindScript) == [] then [] else old(bindScript)[1..]
      ensures forwarders == old(forwarders) + match r case None => [] case Some(p) => [Forwarder(kind, host, port, p)]
    {
      if bindScript == [] {
        assert forwarders + [] == forwarders;
        return None;
      }
      r := bindScript[0];
      bindScript := bindScript[1..];
      if r.Some? {
        forwarders := forwarders + [Forwarder(kind, host, port, r.value)];
      } else {
        assert forwarders + [] == forwarders;
      }
    }

    /** Dropping the runtime tears down every task on it. */
    method Drop()
      modifies this`alive
      ensures !alive
    {
      alive := false;
    }
  }

  predicate CanBind(script: seq<Option<nat>>, n: nat) {
    n <= |script| && forall k :: 0 <= k < n ==> script[k].Some?
  }

  /** Starts one forwarder for each plugin and points its entry there. */
  method ApplyPluginForwarders(runtime: Runtime, json: Json, specs: seq<PluginSpec>)
    returns (ok: bool, after: Json, ghost ports: seq<nat>)
    requires Complete(json, specs) && runtime.forwarders == []
    modifies runtime`forwarders, runtime`bindScript
    ensures ok <==> CanBind(old(runtime.bindScript), |specs|)
    ensures ok ==> |ports| == |specs| && Rewritten(json, after, specs, ports)
                   && runtime.forwarders == Forwarders(specs, ports)
    ensures ok ==> forall k :: 0 <= k < |specs| ==> old(runtime.bindScript)[k] == Some(ports[k])
  {
    hide Complete, ReadFrom, PointsTo, Redirect, RedirectAt, Rewritten, EntryPointsTo, Forwarders;
    after, ports := json, [];
    assert specs[..0] == [];
    RewrittenNone(json);
    for k := 0 to |specs|
      invariant |ports| == k && Rewritten(json, after, specs[..k], ports)
      invariant runtime.forwarders == Forwarders(specs[..k], ports)
      invariant CanBind(old(runtime.bindScript), k) && runtime.bindScript == old(runtime.bindScript)[k..]
      invariant forall n :: 0 <= n < k ==> old(runtime.bindScript)[n] == Some(ports[n])
    {
      var spec := specs[k];
      CompleteAt(json, specs, k);
      EntryUntouched(json, after, specs[..k], ports, spec);
      var port := runtime.StartForwarder(spec.kind, spec.host, spec.port);
      if port == None {
        return false, after, ports;
      }
      match spec.site {
        case TopLevel => RewriteTop(json, after, specs[..k], ports, spec, port.value);
        case Server(_) => RewriteServer(json, after, specs[..k], ports, spec, port.value);
      }
      assert specs[..k + 1] == specs[..k] + [spec];
      ForwardersSnoc(specs[..k], ports, spec, port.value);
      after := RedirectAt(after, spec.site, port.value);
      ports := ports + [port.value];
    }
    assert specs[..|specs|] == specs;
    ok := true;
  }

  lemma CompleteAt(json: Json, specs: seq<PluginSpec>, k: nat)
    requires Complete(json, specs) && k < |specs|
    ensures ReadFrom(json, specs[k])
    ensures forall n :: 0 <= n < k ==> specs[..k][n].site != specs[k].site
  {
  }

  lemma ForwardersSnoc(specs: seq<PluginSpec>, ports: seq<nat>, spec: PluginSpec, port: nat)
    requires |specs| == |ports|
    ensures Forwarders(specs + [spec], ports + [port]) ==
            Forwarders(specs, ports) + [Forwarder(spec.kind, spec.host, spec.port, port)]
  {
  }

  lemma RewrittenNone(json: Json)
    ensures Rewritten(json, json, [], []) && Forwarders([], []) == []
  {
  }
}
