/** The single in-process instance behind the C ABI: starting, stopping and reporting errors. */
module Instances {
  import opened OptionType
  import opened PluginOptions
  import opened PluginConfig

  const SSLOCAL_OK := 0
  const SSLOCAL_ERR_INVALID_ARG := -1
  const SSLOCAL_ERR_BAD_CONFIG := -2
  const SSLOCAL_ERR_ALREADY_RUNNING := -3
  const SSLOCAL_ERR_NOT_RUNNING := -4
  const SSLOCAL_ERR_RUNTIME := -5

  /** A local of the loaded configuration, as far as starting looks at it. */
  datatype LocalConfig = LocalConfig(isTun: bool, tunFd: Option<nat>, tunName: Option<string>)
  datatype Config = Config(locals: seq<LocalConfig>, statAddr: Option<string>)

  /** What a call finds around it: whether a runtime can be built, how listeners bind, and how
      the core's loader reads a configuration. */
  datatype Environment = Environment(runtimeBuilds: bool, binds: seq<Option<nat>>, load: Json -> Option<Config>)

  /** The configuration argument of a start call. */
  datatype JsonArg = NullPointer | NotUtf8 | NotJson | Parsed(json: Json)

  /** What is done to the loaded configuration before launch. */
  datatype Prepare = Keep | AttachTun(fd: nat)

  /** The first tun local, else the only local. */
  function TunIndex(locals: seq<LocalConfig>): (i: Option<nat>)
    ensures i.Some? ==> i.value < |locals|
    ensures (exists l :: l in locals && l.isTun) ==>
              i.Some? && locals[i.value].isTun && forall k :: 0 <= k < i.value ==> !locals[k].isTun
    ensures (forall l :: l in locals ==> !l.isTun) ==> i == if |locals| == 1 then Some(0) else None
  {
    match FirstTun(locals, 0)
    case Some(i) => Some(i)
    case None => if |locals| == 1 then Some(0) else None
  }

  function FirstTun(locals: seq<LocalConfig>, from: nat): (i: Option<nat>)
    ensures i.Some? ==> from <= i.value < |locals| && locals[i.value].isTun
    ensures forall k :: from <= k < (if i.Some? then i.value else |locals|) ==> !locals[k].isTun
    decreases |locals| - from
  {
    if from >= |locals| then None else if locals[from].isTun then Some(from) else FirstTun(locals, from + 1)
  }

  /** The configuration with a descriptor attached to one local. */
  function WithTun(config: Config, i: nat, fd: nat, recovered: Option<string>): (c: Config)
    requires i < |config.locals|
    ensures c.statAddr == config.statAddr && |c.locals| == |config.locals|
    ensures forall k :: 0 <= k < |c.locals| && k != i ==> c.locals[k] == config.locals[k]
    ensures c.locals[i].isTun && c.locals[i].tunFd == Some(fd)
    ensures config.locals[i].tunName.Some? ==> c.locals[i].tunName == config.locals[i].tunName
    ensures config.locals[i].tunName.None? ==> c.locals[i].tunName == recovered
  {
    var l := config.locals[i];
    config.(locals := config.locals[i := LocalConfig(true, Some(fd), if l.tunName.Some? then l.tunName else recovered)])
  }

  /** A C string on the heap. */
  class CString {
    const text: string
    var live: bool

    constructor (text: string)
      ensures this.text == text && live
    {
      this.text := text;
      live := true;
    }
  }

  /** What `dup` still answers after a call that may have tried it. */
  function DupsAfter(script: seq<bool>, tried: bool): seq<bool> {
    if tried && script != [] then script[1..] else script
  }

  /** A start that got as far as `dup`. */
  predicate TriedDup(prepare: Prepare, code: int) {
    prepare.AttachTun? && (code == SSLOCAL_OK || code == SSLOCAL_ERR_INVALID_ARG)
  }

  /** The kernel's descriptor table: `dup` gives a number never given before, or fails. */
  class Kernel {
    var dupScript: seq<bool>
    var nextFd: nat
    const tunName: nat -> Option<string>
    ghost var duplicated: seq<nat>

    /** No number is given twice. */
    ghost predicate Valid()
      reads this
    {
      && (forall i :: 0 <= i < |duplicated| ==> duplicated[i] < nextFd)
      && (forall i, j :: 0 <= i < j < |duplicated| ==> duplicated[i] != duplicated[j])
    }

    constructor (dupScript: seq<bool>, tunName: nat -> Option<string>)
      ensures this.dupScript == dupScript && duplicated == [] && Valid()
    {
      this.dupScript, this.tunName, nextFd, duplicated := dupScript, tunName, 0, [];
    }

    /** Whether the next `dup` will succeed. */
    predicate DupWorks()
      reads this
    {
      dupScript != [] && dupScript[0]
    }

    method Dup(fd: nat) returns (r: Option<nat>)
      requires Valid()
      modifies this
      ensures Valid() && dupScript == DupsAfter(old(dupScript), true)
      ensures r.Some? <==> old(DupWorks())
      ensures r.Some? ==> r.value == old(nextFd) && nextFd == old(nextFd) + 1
      ensures duplicated == old(duplicated) + match r case None => [] case Some(n) => [n]
    {
      var works := DupWorks();
      dupScript := DupsAfter(dupScript, true);
      if works {
        r := Some(nextFd);
        duplicated := duplicated + [nextFd];
        nextFd := nextFd + 1;
      } else {
        r := None;
        assert duplicated + [] == duplicated;
      }
    }
  }

  class Instance {
    const runtime: Runtime
    ghost const config: Config

    constructor (runtime: Runtime, ghost config: Config)
      ensures this.runtime == runtime && this.config == config
    {
      this.runtime, this.config := runtime, config;
    }
  }

  /** The listeners got these ports. */
  ghost predicate Bound(binds: seq<Option<nat>>, ports: seq<nat>) {
    |ports| <= |binds| && forall k :: 0 <= k < |ports| ==> binds[k] == Some(ports[k])
  }

  ghost predicate AllReadable(json: Json) {
    forall site :: Readable(json, site)
  }

  lemma CompleteReadable(json: Json, specs: seq<PluginSpec>)
    requires Complete(json, specs)
    ensures AllReadable(json)
  {
    hide ExtractOne;
    forall site ensures Readable(json, site) {
      if Declares(json, site) {
        var k :| 0 <= k < |specs| && specs[k].site == site;
        assert ReadFrom(json, specs[k]);
      }
    }
  }

  lemma UnreadableNot(json: Json, e: ConfigError)
    requires Unreadable(json, e)
    ensures !AllReadable(json)
  {
    hide ExtractOne;
    var site :| Declares(json, site) && ExtractOne(At(json, site).value, site) == Err(e);
    assert !Readable(json, site);
  }

  /** `instance` runs the configuration `json`: its plugins were replaced by forwarders on its
      own runtime and the rest was loaded as it stood. */
  ghost predicate Runs(instance: Instance, json: Json, prepare: Prepare, env: Environment, statAddr: Option<string>,
                       fd: nat, name: Option<string>)
    reads instance.runtime
  {
    exists specs, ports, after ::
      && Complete(json, specs) && |ports| == |specs| && Rewritten(json, after, specs, ports)
      && Bound(env.binds, ports)
      && instance.runtime.forwarders == Forwarders(specs, ports)
      && env.load(after).Some?
      && Launched(env.load(after).value, instance.config, prepare, statAddr, fd, name)
  }

  /** The launched configuration is the loaded one with the stat address, and with the
      descriptor `fd` on the chosen local if one was to be attached. */
  predicate Launched(loaded: Config, launched: Config, prepare: Prepare, statAddr: Option<string>, fd: nat,
                     name: Option<string>) {
    var config := if statAddr.Some? then loaded.(statAddr := statAddr) else loaded;
    match prepare
    case Keep => launched == config
    case AttachTun(_) =>
      TunIndex(config.locals).Some? && launched == WithTun(config, TunIndex(config.locals).value, fd, name)
  }

  /** Attaching a descriptor fails with `code`. */
  predicate PrepareFails(config: Config, dupWorks: bool, code: int) {
    if TunIndex(config.locals) == None then code == -2
    else !dupWorks && code == -1
  }

  /** Why a start with readable plugins fails with `code`, once a runtime was built: too few
      listeners could be bound, the rewritten configuration does not load, or the descriptor
      could not be attached. */
  ghost predicate Refused(json: Json, prepare: Prepare, env: Environment, dupWorks: bool, code: int) {
    exists specs, ports, after ::
      Complete(json, specs) && RefusedFor(json, prepare, env, dupWorks, code, specs, ports, after)
  }

  ghost predicate RefusedFor(json: Json, prepare: Prepare, env: Environment, dupWorks: bool, code: int,
                             specs: seq<PluginSpec>, ports: seq<nat>, after: Json) {
    if !CanBind(env.binds, |specs|) then code == -5
    else
      && |ports| == |specs| && Bound(env.binds, ports) && Rewritten(json, after, specs, ports)
      && match env.load(after)
         case None => code == -2
         case Some(config) => prepare.AttachTun? && PrepareFails(config, dupWorks, code)
  }

  /** A start with the configuration `json` succeeds. */
  ghost predicate Succeeds(json: Json, running: bool, prepare: Prepare, env: Environment, dupWorks: bool) {
    && AllReadable(json) && !running && env.runtimeBuilds
    && (exists specs, ports, after ::
          Complete(json, specs) && SucceedsFor(json, prepare, env, dupWorks, specs, ports, after))
  }

  ghost predicate SucceedsFor(json: Json, prepare: Prepare, env: Environment, dupWorks: bool,
                              specs: seq<PluginSpec>, ports: seq<nat>, after: Json) {
    && CanBind(env.binds, |specs|) && |ports| == |specs| && Bound(env.binds, ports)
    && Rewritten(json, after, specs, ports) && env.load(after).Some?
    && (prepare.AttachTun? ==> TunIndex(env.load(after).value.locals).Some? && dupWorks)
  }

  /** A start with the configuration `json` fails with `code`: the checks in their order. */
  ghost predicate Fails(json: Json, running: bool, prepare: Prepare, env: Environment, dupWorks: bool, code: int) {
    if !AllReadable(json) then code == -2
    else if running then code == -3
    else if !env.runtimeBuilds then code == -5
    else Refused(json, prepare, env, dupWorks, code)
  }

  /** What a start answers is determined by the calls' surroundings: it succeeds or fails, and
      it fails with one code. */
  lemma OutcomeUnique(json: Json, running: bool, prepare: Prepare, env: Environment, dupWorks: bool,
                      code: int)
    requires Fails(json, running, prepare, env, dupWorks, code)
    ensures !Succeeds(json, running, prepare, env, dupWorks)
    ensures forall c :: Fails(json, running, prepare, env, dupWorks, c) ==> c == code
  {
    hide Complete, RefusedFor, SucceedsFor, AllReadable;
    if AllReadable(json) && !running && env.runtimeBuilds {
      var specs, ports, after :|
        Complete(json, specs) && RefusedFor(json, prepare, env, dupWorks, code, specs, ports, after);
      forall s, p, a | Complete(json, s) && SucceedsFor(json, prepare, env, dupWorks, s, p, a) ensures false {
        CompleteUnique(json, s, specs);
        NotBoth(json, prepare, env, dupWorks, code, specs, ports, after, p, a);
      }
      forall c, s, p, a | Complete(json, s) && RefusedFor(json, prepare, env, dupWorks, c, s, p, a) ensures c == code {
        CompleteUnique(json, s, specs);
        OneCode(json, prepare, env, dupWorks, code, specs, ports, after, c, p, a);
      }
    }
  }

  lemma SamePlan(json: Json, env: Environment, specs: seq<PluginSpec>, ports: seq<nat>, after: Json,
                 p: seq<nat>, a: Json)
    requires |ports| == |specs| && Bound(env.binds, ports) && Rewritten(json, after, specs, ports)
    requires |p| == |specs| && Bound(env.binds, p) && Rewritten(json, a, specs, p)
    ensures p == ports && a == after
  {
    hide Rewritten;
    assert forall k :: 0 <= k < |p| ==> Some(p[k]) == env.binds[k] == Some(ports[k]);
    assert p == ports;
    RewrittenUnique(json, a, after, specs, ports);
  }

  lemma NotBoth(json: Json, prepare: Prepare, env: Environment, dupWorks: bool, code: int,
                specs: seq<PluginSpec>, ports: seq<nat>, after: Json, p: seq<nat>, a: Json)
    requires RefusedFor(json, prepare, env, dupWorks, code, specs, ports, after)
    ensures !SucceedsFor(json, prepare, env, dupWorks, specs, p, a)
  {
    hide Rewritten, Bound;
    if SucceedsFor(json, prepare, env, dupWorks, specs, p, a) {
      SamePlan(json, env, specs, ports, after, p, a);
      assert false;
    }
  }

  lemma OneCode(json: Json, prepare: Prepare, env: Environment, dupWorks: bool, code: int,
                specs: seq<PluginSpec>, ports: seq<nat>, after: Json, c: int, p: seq<nat>, a: Json)
    requires RefusedFor(json, prepare, env, dupWorks, code, specs, ports, after)
    requires RefusedFor(json, prepare, env, dupWorks, c, specs, p, a)
    ensures c == code
  {
    hide Rewritten, Bound;
    if CanBind(env.binds, |specs|) {
      SamePlan(json, env, specs, ports, after, p, a);
    }
  }

  lemma RunsSucceeds(instance: Instance, json: Json, prepare: Prepare, env: Environment,
                     statAddr: Option<string>, fd: nat, name: Option<string>, dupWorks: bool)
    requires Runs(instance, json, prepare, env, statAddr, fd, name) && AllReadable(json) && env.runtimeBuilds
    requires prepare.AttachTun? ==> dupWorks
    ensures Succeeds(json, false, prepare, env, dupWorks)
  {
    hide Complete, Rewritten, AllReadable, Forwarders;
    var specs, ports, after :|
      && Complete(json, specs) && |ports| == |specs| && Rewritten(json, after, specs, ports)
      && Bound(env.binds, ports)
      && instance.runtime.forwarders == Forwarders(specs, ports)
      && env.load(after).Some?
      && Launched(env.load(after).value, instance.config, prepare, statAddr, fd, name);
    assert SucceedsFor(json, prepare, env, dupWorks, specs, ports, after);
  }

  lemma RefusedBy(json: Json, prepare: Prepare, env: Environment, dupWorks: bool, code: int,
                  specs: seq<PluginSpec>, ports: seq<nat>, after: Json)
    requires Complete(json, specs) && RefusedFor(json, prepare, env, dupWorks, code, specs, ports, after)
    ensures Refused(json, prepare, env, dupWorks, code)
  {
    hide Complete, RefusedFor;
  }

  function PrepareFor(tunFd: Option<int>): Prepare {
    if tunFd.Some? && tunFd.value >= 0 then AttachTun(tunFd.value) else Keep
  }

  /** The arguments of a start that asks for a descriptor and gets past their checks. */
  predicate Attached(arg: JsonArg, tunFd: Option<int>) {
    arg.Parsed? && tunFd.Some? && tunFd.value >= 0
  }

  class Sslocal {
    var instance: Instance?
    var lastError: CString?
    var handedOut: CString?
    var statAddr: Option<string>
    const kernel: Kernel

    ghost var runtimes: set<Runtime>   // every runtime ever built
    ghost var buffers: set<CString>    // every error buffer ever made
    ghost var starts: nat              // successful starts and stops so far
    ghost var stops: nat
    ghost var adopted: seq<nat>        // descriptors handed to successful starts

    /** `live` is the only live runtime, the error buffers are in order, and every duplicated
        descriptor went to a successful start. */
    ghost predicate Sound(live: Runtime?)
      reads this, kernel, runtimes, buffers
    {
      && (live != null ==> live in runtimes)
      && (forall r :: r in runtimes ==> (r.alive <==> r == live))
      // The only live buffers are the recorded message and the one handed out, which are two.
      && (lastError != null ==> lastError in buffers) && (handedOut != null ==> handedOut in buffers)
      && (forall b :: b in buffers ==> (b.live <==> b == lastError || b == handedOut))
      && (lastError != null ==> lastError != handedOut)
      && adopted == kernel.duplicated && kernel.Valid()
    }

    /** The only live runtime, and so the only live forwarders, are those of the instance. */
    ghost predicate Valid()
      reads this, kernel, runtimes, buffers
    {
      && Sound(if instance != null then instance.runtime else null)
      && starts == stops + (if instance != null then 1 else 0)
    }

    /** The interface name the kernel reports for the descriptor to be attached. */
    function TunName(prepare: Prepare): Option<string> {
      match prepare
      case Keep => None
      case AttachTun(fd) => kernel.tunName(fd)
    }

    constructor (kernel: Kernel)
      requires kernel.duplicated == [] && kernel.Valid()
      ensures Valid() && this.kernel == kernel && instance == null && starts == stops == 0
      ensures runtimes == {} && buffers == {} && lastError == null && handedOut == null
    {
      this.kernel := kernel;
      instance, lastError, handedOut, statAddr := null, null, null, None;
      runtimes, buffers, starts, stops, adopted := {}, {}, 0, 0, [];
    }

    /** Records a message; one with an inner NUL becomes the empty string. */
    method SetLastError(message: string)
      requires Valid()
      modifies this`lastError, this`buffers, buffers
      ensures Valid() && fresh(buffers - old(buffers)) && old(buffers) <= buffers
      ensures lastError != null && fresh(lastError)
      ensures lastError.text == if '\0' in message then "" else message
    {
      var previous := lastError;
      lastError := new CString(if '\0' in message then "" else message);
      buffers := buffers + {lastError};
      if previous != null {
        previous.live := false;
      }
    }

    /** Hands out the recorded message in a buffer of its own. */
    method LastError() returns (p: CString?)
      requires Valid()
      modifies this`handedOut, this`buffers, buffers
      ensures Valid() && fresh(buffers - old(buffers)) && old(buffers) <= buffers
      ensures p == handedOut && (p == null <==> lastError == null)
      ensures p != null ==> fresh(p) && p.live && p.text == lastError.text
    {
      var previous := handedOut;
      if lastError != null {
        handedOut := new CString(lastError.text);
        buffers := buffers + {handedOut};
      } else {
        handedOut := null;
      }
      if previous != null {
        previous.live := false;
      }
      p := handedOut;
    }

    method IsRunning() returns (r: int)
      ensures r == if instance != null then 1 else 0
    {
      r := if instance != null then 1 else 0;
    }

    /** Sets or clears the stat address; `parsed` is None for text that is no address. */
    method SetStatAddress(text: Option<string>, parses: bool) returns (code: int)
      requires Valid()
      modifies this`statAddr, this`lastError, this`buffers, buffers
      ensures Valid() && fresh(buffers - old(buffers)) && old(buffers) <= buffers
      ensures code == if text == None || text == Some("") || parses then SSLOCAL_OK else SSLOCAL_ERR_INVALID_ARG
      ensures statAddr == if code != SSLOCAL_OK then old(statAddr)
                          else if text == None || text == Some("") then None else text
    {
      if text == None || text == Some("") {
        statAddr := None;
        return SSLOCAL_OK;
      }
      if parses {
        statAddr := text;
        return SSLOCAL_OK;
      }
      SetLastError("invalid stat address");
      code := SSLOCAL_ERR_INVALID_ARG;
    }

    method StartWithJson(json: Json, prepare: Prepare, env: Environment) returns (code: int)
      requires Valid()
      modifies this`instance, this`lastError, this`runtimes, this`buffers, this`starts, this`adopted, kernel, buffers
      ensures Valid() && fresh(buffers - old(buffers)) && old(buffers) <= buffers
      ensures fresh(runtimes - old(runtimes)) && old(runtimes) <= runtimes
      ensures kernel.dupScript == DupsAfter(old(kernel.dupScript), TriedDup(prepare, code))
      // A start that fails leaves the instance as it was, says why, and keeps no descriptor.
      ensures code != SSLOCAL_OK ==> instance == old(instance) && starts == old(starts) && adopted == old(adopted)
                                     && fresh(lastError)
                                     && Fails(json, old(instance) != null, prepare, env, old(kernel.DupWorks()), code)
      // A start that succeeds runs this very configuration, with at most one descriptor of its own.
      ensures code == SSLOCAL_OK ==>
                && AllReadable(json) && old(instance) == null && env.runtimeBuilds
                && instance != null && fresh(instance) && starts == old(starts) + 1
                && fresh(instance.runtime)
                && Runs(instance, json, prepare, env, statAddr, old(kernel.nextFd), TunName(prepare))
                && adopted == old(adopted) + (if prepare.Keep? then [] else [old(kernel.nextFd)])
                && (prepare.AttachTun? ==> old(kernel.DupWorks()))
    {
      hide AllReadable, Unreadable, Complete, Refused, Runs;
      var extracted := ExtractPluginSpecs(json);
      if extracted.Err? {
        UnreadableNot(json, extracted.error);
        SetLastError("plugin error");
        return SSLOCAL_ERR_BAD_CONFIG;
      }
      var specs := extracted.value;
      CompleteReadable(json, specs);
      if instance != null {
        SetLastError("sslocal is already running");
        return SSLOCAL_ERR_ALREADY_RUNNING;
      }
      if !env.runtimeBuilds {
        SetLastError("failed to create tokio runtime");
        return SSLOCAL_ERR_RUNTIME;
      }
      code := Launch(json, specs, prepare, env);
    }

    /** From building the runtime on: every early return drops it. */
    method Launch(json: Json, specs: seq<PluginSpec>, prepare: Prepare, env: Environment) returns (code: int)
      requires Valid() && instance == null && Complete(json, specs)
      modifies this`instance, this`lastError, this`runtimes, this`buffers, this`starts, this`adopted, kernel, buffers
      ensures Valid() && fresh(buffers - old(buffers)) && old(buffers) <= buffers
      ensures fresh(runtimes - old(runtimes)) && old(runtimes) <= runtimes
      ensures kernel.dupScript == DupsAfter(old(kernel.dupScript), TriedDup(prepare, code))
      ensures code != SSLOCAL_OK ==> instance == null && starts == old(starts) && adopted == old(adopted)
                                     && fresh(lastError) && Refused(json, prepare, env, old(kernel.DupWorks()), code)
      ensures code == SSLOCAL_OK ==>
                && instance != null && fresh(instance) && starts == old(starts) + 1
                && fresh(instance.runtime)
                && Runs(instance, json, prepare, env, statAddr, old(kernel.nextFd), TunName(prepare))
                && adopted == old(adopted) + (if prepare.Keep? then [] else [old(kernel.nextFd)])
                && (prepare.AttachTun? ==> old(kernel.DupWorks()))
    {
      hide Rewritten, Complete, Forwarders, Launched, Runs, CanBind, Bound, Refused;
      var runtime := new Runtime(env.binds);
      runtimes := runtimes + {runtime};
      var loaded, after, ports := LoadRewritten(runtime, json, specs, env);
      if loaded.Err? {
        RefusedBy(json, prepare, env, kernel.DupWorks(), loaded.error.0, specs, ports, after);
        Abandon(runtime, loaded.error.1);
        return loaded.error.0;
      }
      code := Finish(runtime, loaded.value, json, prepare, env, specs, ports, after);
    }

    /** The loaded configuration is prepared and launched on the runtime. */
    method Finish(runtime: Runtime, loaded: Config, ghost json: Json, prepare: Prepare, ghost env: Environment,
                  ghost specs: seq<PluginSpec>, ghost ports: seq<nat>, ghost after: Json) returns (code: int)
      requires Sound(runtime) && instance == null && starts == stops
      requires Complete(json, specs) && CanBind(env.binds, |specs|) && |ports| == |specs| && Bound(env.binds, ports)
      requires Rewritten(json, after, specs, ports) && runtime.forwarders == Forwarders(specs, ports)
      requires env.load(after) == Some(loaded)
      modifies this`instance, this`lastError, this`buffers, this`starts, this`adopted, runtime`alive, kernel, buffers
      ensures Valid() && fresh(buffers - old(buffers)) && old(buffers) <= buffers
      ensures kernel.dupScript == DupsAfter(old(kernel.dupScript), TriedDup(prepare, code))
      ensures code != SSLOCAL_OK ==> instance == null && starts == old(starts) && adopted == old(adopted)
                                     && fresh(lastError) && Refused(json, prepare, env, old(kernel.DupWorks()), code)
      ensures code == SSLOCAL_OK ==>
                && instance != null && fresh(instance) && instance.runtime == runtime && starts == old(starts) + 1
                && Runs(instance, json, prepare, env, statAddr, old(kernel.nextFd), TunName(prepare))
                && adopted == old(adopted) + (if prepare.Keep? then [] else [old(kernel.nextFd)])
                && (prepare.AttachTun? ==> old(kernel.DupWorks()))
    {
      hide Rewritten, Complete, Forwarders, Launched, Runs, CanBind, Bound, Refused;
      var config := if statAddr.Some? then loaded.(statAddr := statAddr) else loaded;
      var prepared := PrepareConfig(loaded, config, prepare);
      if prepared.Err? {
        RefusedBy(json, prepare, env, old(kernel.DupWorks()), prepared.error.0, specs, ports, after);
        Abandon(runtime, prepared.error.1);
        return prepared.error.0;
      }
      Commit(runtime, prepared.value);
      RunsWith(instance, json, prepare, env, statAddr, old(kernel.nextFd), TunName(prepare), specs, ports, after);
      code := SSLOCAL_OK;
    }

    /** Forwarders take the plugins' place, and the core reads what results. */
    method LoadRewritten(runtime: Runtime, json: Json, specs: seq<PluginSpec>, env: Environment)
      returns (r: Result<Config, (int, string)>, ghost after: Json, ghost ports: seq<nat>)
      requires Complete(json, specs) && runtime.forwarders == [] && runtime.bindScript == env.binds
      modifies runtime`forwarders, runtime`bindScript
      ensures CanBind(env.binds, |specs|) ==>
                && |ports| == |specs| && Bound(env.binds, ports) && Rewritten(json, after, specs, ports)
                && runtime.forwarders == Forwarders(specs, ports)
                && (r.Ok? <==> env.load(after).Some?) && (r.Ok? ==> env.load(after) == Some(r.value))
                && (r.Err? ==> r.error.0 == SSLOCAL_ERR_BAD_CONFIG)
      ensures !CanBind(env.binds, |specs|) ==> r.Err? && r.error.0 == SSLOCAL_ERR_RUNTIME
    {
      hide Rewritten, Complete, Forwarders;
      var ok, json', ports' := ApplyPluginForwarders(runtime, json, specs);
      after, ports := json', ports';
      if !ok {
        return Err((SSLOCAL_ERR_RUNTIME, "failed to start plugin forwarder")), after, ports;
      }
      match env.load(json')
      case None => r := Err((SSLOCAL_ERR_BAD_CONFIG, "invalid sslocal config"));
      case Some(config) => r := Ok(config);
    }

    /** The core's task is spawned and the instance stored. */
    method Commit(runtime: Runtime, ghost config: Config)
      requires Sound(runtime) && instance == null && starts == stops
      modifies this`instance, this`starts
      ensures Valid() && fresh(instance) && instance.runtime == runtime && instance.config == config
      ensures starts == old(starts) + 1
    {
      instance := new Instance(runtime, config);
      starts := starts + 1;
    }

    /** A failing start: the runtime is dropped with everything on it, and the message recorded. */
    method Abandon(runtime: Runtime, message: string)
      requires Sound(runtime) && instance == null && starts == stops
      modifies runtime`alive, this`lastError, this`buffers, buffers
      ensures Valid() && fresh(buffers - old(buffers)) && old(buffers) <= buffers && fresh(lastError)
    {
      runtime.Drop();
      SetLastError(message);
    }

    /** Post-processing before launch: the tun descriptor is duplicated for the core. */
    method PrepareConfig(ghost loaded: Config, config: Config, prepare: Prepare)
      returns (r: Result<Config, (int, string)>)
      requires adopted == kernel.duplicated && kernel.Valid()
      requires config == if statAddr.Some? then loaded.(statAddr := statAddr) else loaded
      modifies this`adopted, kernel
      ensures adopted == kernel.duplicated && kernel.Valid()
      ensures kernel.dupScript ==
              DupsAfter(old(kernel.dupScript), TriedDup(prepare, if r.Ok? then SSLOCAL_OK else r.error.0))
      ensures r.Ok? && prepare.AttachTun? ==> old(kernel.DupWorks())
      ensures r.Ok? ==> Launched(loaded, r.value, prepare, statAddr, old(kernel.nextFd), TunName(prepare))
                        && adopted == old(adopted) + (if prepare.Keep? then [] else [old(kernel.nextFd)])
      ensures r.Err? ==> adopted == old(adopted) && prepare.AttachTun?
                         && PrepareFails(config, old(kernel.DupWorks()), r.error.0)
    {
      if prepare.Keep? {
        assert adopted + [] == adopted;
        return Ok(config);
      }
      var index := TunIndex(config.locals);
      if index == None {
        return Err((SSLOCAL_ERR_BAD_CONFIG, "config must contain a local with \"protocol\": \"tun\""));
      }
      var fd := kernel.Dup(prepare.fd);
      if fd == None {
        return Err((SSLOCAL_ERR_INVALID_ARG, "failed to duplicate tun file descriptor"));
      }
      adopted := adopted + [fd.value];
      r := Ok(WithTun(config, index.value, fd.value, kernel.tunName(prepare.fd)));
    }

    lemma RunsWith(i: Instance, json: Json, prepare: Prepare, env: Environment, statAddr: Option<string>,
                   fd: nat, name: Option<string>, specs: seq<PluginSpec>, ports: seq<nat>, after: Json)
      requires Complete(json, specs) && |ports| == |specs| && Rewritten(json, after, specs, ports)
      requires Bound(env.binds, ports) && i.runtime.forwarders == Forwarders(specs, ports) && env.load(after).Some?
      requires Launched(env.load(after).value, i.config, prepare, statAddr, fd, name)
      ensures Runs(i, json, prepare, env, statAddr, fd, name)
    {
      hide Complete, Rewritten, Forwarders, Launched, Bound;
    }

    /** `sslocal_start`, and with `tunFd` `sslocal_start_tun_fd`. */
    method Start(arg: JsonArg, tunFd: Option<int>, env: Environment) returns (code: int)
      requires Valid()
      modifies this`instance, this`lastError, this`runtimes, this`buffers, this`starts, this`adopted, kernel, buffers
      ensures Valid() && fresh(buffers - old(buffers)) && old(buffers) <= buffers
      ensures fresh(runtimes - old(runtimes)) && old(runtimes) <= runtimes
      ensures (tunFd.Some? && tunFd.value < 0) || arg.NullPointer? || arg.NotUtf8? ==> code == SSLOCAL_ERR_INVALID_ARG
      ensures (tunFd.Some? ==> tunFd.value >= 0) && arg.NotJson? ==> code == SSLOCAL_ERR_BAD_CONFIG
      ensures code != SSLOCAL_OK ==> instance == old(instance) && starts == old(starts) && adopted == old(adopted)
                                     && fresh(lastError)
      ensures code != SSLOCAL_OK && (tunFd.Some? ==> tunFd.value >= 0) && arg.Parsed? ==>
                Fails(arg.json, old(instance) != null, PrepareFor(tunFd), env, old(kernel.DupWorks()), code)
      ensures code == SSLOCAL_OK ==>
                && arg.Parsed? && (tunFd.Some? ==> tunFd.value >= 0)
                && old(instance) == null && instance != null && fresh(instance) && starts == old(starts) + 1
                && Runs(instance, arg.json, PrepareFor(tunFd), env, statAddr, old(kernel.nextFd),
                        TunName(PrepareFor(tunFd)))
                && adopted == old(adopted) + (if tunFd.None? then [] else [old(kernel.nextFd)])
                && Succeeds(arg.json, false, PrepareFor(tunFd), env, old(kernel.DupWorks()))
      ensures kernel.dupScript ==
              DupsAfter(old(kernel.dupScript), Attached(arg, tunFd) && TriedDup(PrepareFor(tunFd), code))
    {
      if tunFd.Some? && tunFd.value < 0 {
        SetLastError("invalid tun file descriptor");
        return SSLOCAL_ERR_INVALID_ARG;
      }
      match arg
      case NullPointer =>
        SetLastError("config_json is null");
        code := SSLOCAL_ERR_INVALID_ARG;
      case NotUtf8 =>
        SetLastError("config_json is not valid UTF-8");
        code := SSLOCAL_ERR_INVALID_ARG;
      case NotJson =>
        SetLastError("invalid sslocal config");
        code := SSLOCAL_ERR_BAD_CONFIG;
      case Parsed(json) =>
        ghost var works, fd := kernel.DupWorks(), kernel.nextFd;
        code := StartWithJson(json, PrepareFor(tunFd), env);
        if code == SSLOCAL_OK {
          RunsSucceeds(instance, json, PrepareFor(tunFd), env, statAddr, fd, TunName(PrepareFor(tunFd)), works);
        }
    }

    method Stop() returns (code: int)
      requires Valid()
      modifies this`instance, this`lastError, this`buffers, this`stops, buffers, runtimes
      ensures Valid() && fresh(buffers - old(buffers)) && old(buffers) <= buffers
      ensures instance == null
      ensures code == if old(instance) != null then SSLOCAL_OK else SSLOCAL_ERR_NOT_RUNNING
      ensures stops == old(stops) + if code == SSLOCAL_OK then 1 else 0
      ensures code == SSLOCAL_OK ==> !old(instance).runtime.alive && lastError == old(lastError)
      ensures code != SSLOCAL_OK ==> fresh(lastError) && lastError.text == "sslocal is not running"
      ensures forall r :: r in runtimes ==> r.forwarders == old(r.forwarders)
    {
      if instance != null {
        var taken := instance;
        instance := null;
        taken.runtime.Drop();
        stops := stops + 1;
        code := SSLOCAL_OK;
      } else {
        SetLastError("sslocal is not running");
        code := SSLOCAL_ERR_NOT_RUNNING;
      }
    }
  }
}

/** Whole runs of calls. */
module InstanceRuns {
  import opened OptionType
  import opened Instances

  datatype Op = StartOp(arg: JsonArg, tunFd: Option<int>, env: Environment) | StopOp | LastErrorOp
              | CoreError(message: string) | SetStat(text: Option<string>, parses: bool)

  /** The code a call returns, given whether an instance runs and what `dup` will answer. */
  ghost predicate Explained(op: Op, running: bool, dups: seq<bool>, code: int) {
    match op
    case StartOp(arg, tunFd, env) =>
      if (tunFd.Some? && tunFd.value < 0) || arg.NullPointer? || arg.NotUtf8? then code == -1
      else if arg.NotJson? then code == -2
      else
        var prepare, works := PrepareFor(tunFd), dups != [] && dups[0];
        if code == 0 then Succeeds(arg.json, running, prepare, env, works)
        else Fails(arg.json, running, prepare, env, works, code)
    case StopOp => code == if running then 0 else -4
    case SetStat(text, parses) =>
      code == if text == None || text == Some("") || parses then 0 else -1
    case _ => code == 0
  }

  predicate TriesDup(op: Op, code: int) {
    op.StartOp? && Attached(op.arg, op.tunFd) && TriedDup(PrepareFor(op.tunFd), code)
  }

  /** The code of a call is determined by that, so no other run of codes is explained. */
  lemma CodeUnique(op: Op, running: bool, dups: seq<bool>, a: int, b: int)
    requires Explained(op, running, dups, a) && Explained(op, running, dups, b)
    ensures a == b
  {
    hide Succeeds, Fails;
    if op.StartOp? && op.arg.Parsed? && (op.tunFd.Some? ==> op.tunFd.value >= 0) && !(a == b == SSLOCAL_OK) {
      var works := dups != [] && dups[0];
      OutcomeUnique(op.arg.json, running, PrepareFor(op.tunFd), op.env, works, if a == SSLOCAL_OK then b else a);
    }
  }

  /** One call; an error recorded by the core's own tasks counts as one. */
  method Step(s: Sslocal, op: Op) returns (code: int)
    requires s.Valid()
    modifies s, s.kernel, s.buffers, s.runtimes
    ensures s.Valid() && fresh(s.buffers - old(s.buffers)) && fresh(s.runtimes - old(s.runtimes))
    ensures Explained(op, old(s.instance) != null, old(s.kernel.dupScript), code)
    ensures s.kernel.dupScript == DupsAfter(old(s.kernel.dupScript), TriesDup(op, code))
    ensures s.starts == old(s.starts) + if op.StartOp? && code == SSLOCAL_OK then 1 else 0
    ensures s.stops == old(s.stops) + if op.StopOp? && code == SSLOCAL_OK then 1 else 0
    ensures |s.adopted| == |old(s.adopted)| + if op.StartOp? && op.tunFd.Some? && code == SSLOCAL_OK then 1 else 0
    ensures !op.LastErrorOp? ==> s.handedOut == old(s.handedOut)
  {
    hide Succeeds, Fails, Runs;
    code := SSLOCAL_OK;
    match op
    case StartOp(arg, tunFd, env) => code := s.Start(arg, tunFd, env);
    case StopOp => code := s.Stop();
    case LastErrorOp => var p := s.LastError();
    case CoreError(message) => s.SetLastError(message);
    case SetStat(text, parses) => code := s.SetStatAddress(text, parses);
  }

  /** Successful starts, those among them that asked for a descriptor, and successful stops. */
  function Starts(ops: seq<Op>, codes: seq<int>): nat
    requires |ops| == |codes|
  {
    if ops == [] then 0
    else
      var n := |ops| - 1;
      Starts(ops[..n], codes[..n]) + if ops[n].StartOp? && codes[n] == SSLOCAL_OK then 1 else 0
  }

  function TunStarts(ops: seq<Op>, codes: seq<int>): nat
    requires |ops| == |codes|
  {
    if ops == [] then 0
    else
      var n := |ops| - 1;
      TunStarts(ops[..n], codes[..n])
      + if ops[n].StartOp? && ops[n].tunFd.Some? && codes[n] == SSLOCAL_OK then 1 else 0
  }

  function Stops(ops: seq<Op>, codes: seq<int>): nat
    requires |ops| == |codes|
  {
    if ops == [] then 0
    else
      var n := |ops| - 1;
      Stops(ops[..n], codes[..n]) + if ops[n].StopOp? && codes[n] == SSLOCAL_OK then 1 else 0
  }

  /** What `dup` still answers after some calls. */
  function DupsLeft(dups: seq<bool>, ops: seq<Op>, codes: seq<int>): seq<bool>
    requires |ops| == |codes|
  {
    if ops == [] then dups
    else
      var n := |ops| - 1;
      DupsAfter(DupsLeft(dups, ops[..n], codes[..n]), TriesDup(ops[n], codes[n]))
  }

  /** Call `k` answered as the calls before it, counted by their codes, determine. */
  ghost predicate ExplainedAt(dups: seq<bool>, ops: seq<Op>, codes: seq<int>, k: nat)
    requires k < |ops| == |codes|
  {
    Explained(ops[k], Starts(ops[..k], codes[..k]) > Stops(ops[..k], codes[..k]),
              DupsLeft(dups, ops[..k], codes[..k]), codes[k])
  }

  /** The codes of a run are determined by its calls and their surroundings. */
  lemma {:induction false} CodesUnique(dups: seq<bool>, ops: seq<Op>, a: seq<int>, b: seq<int>)
    requires |a| == |b| == |ops|
    requires forall k :: 0 <= k < |ops| ==> ExplainedAt(dups, ops, a, k) && ExplainedAt(dups, ops, b, k)
    ensures a == b
  {
    hide Explained;
    for k := 0 to |ops|
      invariant a[..k] == b[..k]
    {
      assert ExplainedAt(dups, ops, a, k) && ExplainedAt(dups, ops, b, k);
      var running := Starts(ops[..k], a[..k]) > Stops(ops[..k], a[..k]);
      CodeUnique(ops[k], running, DupsLeft(dups, ops[..k], a[..k]), a[k], b[k]);
      assert a[..k + 1] == a[..k] + [a[k]] && b[..k + 1] == b[..k] + [b[k]];
    }
    assert a[..|ops|] == a && b[..|ops|] == b;
  }

  /** Over any run of calls on a new library, successful starts exceed successful stops by one
      while an instance runs and equal them otherwise; the descriptors the kernel duplicated
      are distinct, and as many as the successful starts that asked for one. */
  method Run(s: Sslocal, ops: seq<Op>) returns (codes: seq<int>, running: int)
    requires s.Valid() && s.starts == s.stops == 0 && s.adopted == []
    modifies s, s.kernel, s.buffers, s.runtimes
    ensures s.Valid()
    ensures |codes| == |ops| && forall k :: 0 <= k < |ops| ==> ExplainedAt(old(s.kernel.dupScript), ops, codes, k)
    ensures Starts(ops, codes) - Stops(ops, codes) == running && (running == 1 <==> s.instance != null)
    ensures running == 0 || running == 1
    ensures s.adopted == s.kernel.duplicated && |s.kernel.duplicated| == TunStarts(ops, codes)
    ensures forall i, j :: 0 <= i < j < |s.kernel.duplicated| ==> s.kernel.duplicated[i] != s.kernel.duplicated[j]
  {
    ghost var dups := s.kernel.dupScript;
    codes := [];
    CountedNone(s);
    assert ops[..0] == [];
    hide Explained, TriesDup, ExplainedAt, Counted, Sslocal.Valid;
    for k := 0 to |ops|
      invariant fresh(s.buffers - old(s.buffers)) && fresh(s.runtimes - old(s.runtimes))
      invariant s.Valid() && |codes| == k && Counted(s, dups, ops[..k], codes)
      invariant forall j :: 0 <= j < k ==> ExplainedAt(dups, ops[..k], codes, j)
    {
      var code := CountedStep(s, dups, ops[..k], codes, ops[k]);
      codes := codes + [code];
      assert ops[..k + 1] == ops[..k] + [ops[k]];
    }
    assert ops[..|ops|] == ops;
    running := s.IsRunning();
    CountedNow(s, dups, ops, codes);
  }

  /** One call of a run. */
  method CountedStep(s: Sslocal, ghost dups: seq<bool>, ghost ops: seq<Op>, ghost codes: seq<int>, op: Op)
    returns (code: int)
    requires |ops| == |codes| && s.Valid() && Counted(s, dups, ops, codes)
    requires forall j :: 0 <= j < |ops| ==> ExplainedAt(dups, ops, codes, j)
    modifies s, s.kernel, s.buffers, s.runtimes
    ensures fresh(s.buffers - old(s.buffers)) && fresh(s.runtimes - old(s.runtimes))
    ensures s.Valid() && Counted(s, dups, ops + [op], codes + [code])
    ensures forall j :: 0 <= j <= |ops| ==> ExplainedAt(dups, ops + [op], codes + [code], j)
  {
    hide Explained, TriesDup, ExplainedAt, Starts, Stops, TunStarts, DupsLeft, DupsAfter, Sslocal.Valid;
    CountedNow(s, dups, ops, codes);
    code := Step(s, op);
    CountedSnoc(dups, ops, codes, op, code);
  }

  lemma CountedNone(s: Sslocal)
    requires s.starts == s.stops == 0 && s.adopted == []
    ensures Counted(s, s.kernel.dupScript, [], [])
  {
  }

  lemma CountedNow(s: Sslocal, dups: seq<bool>, ops: seq<Op>, codes: seq<int>)
    requires |ops| == |codes| && s.Valid() && Counted(s, dups, ops, codes)
    ensures s.instance != null <==> Starts(ops, codes) > Stops(ops, codes)
    ensures Starts(ops, codes) == Stops(ops, codes) + if s.instance != null then 1 else 0
    ensures s.adopted == s.kernel.duplicated && |s.kernel.duplicated| == TunStarts(ops, codes)
    ensures forall i, j :: 0 <= i < j < |s.kernel.duplicated| ==> s.kernel.duplicated[i] != s.kernel.duplicated[j]
  {
    hide Starts, Stops, TunStarts, DupsLeft;
  }

  /** The library's own counters are the counts of the run. */
  ghost predicate Counted(s: Sslocal, dups: seq<bool>, ops: seq<Op>, codes: seq<int>)
    requires |ops| == |codes|
    reads s, s.kernel
  {
    && s.starts == Starts(ops, codes) && s.stops == Stops(ops, codes) && |s.adopted| == TunStarts(ops, codes)
    && s.kernel.dupScript == DupsLeft(dups, ops, codes)
  }

  lemma CountedSnoc(dups: seq<bool>, ops: seq<Op>, codes: seq<int>, op: Op, code: int)
    requires |ops| == |codes|
    requires forall j :: 0 <= j < |ops| ==> ExplainedAt(dups, ops, codes, j)
    requires Explained(op, Starts(ops, codes) > Stops(ops, codes), DupsLeft(dups, ops, codes), code)
    ensures var ops', codes' := ops + [op], codes + [code];
            && Starts(ops', codes') == Starts(ops, codes) + (if op.StartOp? && code == SSLOCAL_OK then 1 else 0)
            && Stops(ops', codes') == Stops(ops, codes) + (if op.StopOp? && code == SSLOCAL_OK then 1 else 0)
            && TunStarts(ops', codes') ==
               TunStarts(ops, codes) + (if op.StartOp? && op.tunFd.Some? && code == SSLOCAL_OK then 1 else 0)
            && DupsLeft(dups, ops', codes') == DupsAfter(DupsLeft(dups, ops, codes), TriesDup(op, code))
            && forall j :: 0 <= j <= |ops| ==> ExplainedAt(dups, ops', codes', j)
  {
    hide Explained, TriesDup;
    var ops', codes' := ops + [op], codes + [code];
    assert ops'[..|ops|] == ops && codes'[..|ops|] == codes;
    forall j | 0 <= j <= |ops| ensures ExplainedAt(dups, ops', codes', j) {
      assert ops'[..j] == ops[..j] && codes'[..j] == codes[..j];
      if j < |ops| {
        assert ExplainedAt(dups, ops, codes, j);
      }
    }
  }

  /** A message handed out stays readable, with the text it had, through any calls but the
      next request for a message. */
  method HandedOutSurvives(s: Sslocal, ops: seq<Op>) returns (p: CString?)
    requires s.Valid() && forall op :: op in ops ==> !op.LastErrorOp?
    modifies s, s.kernel, s.buffers, s.runtimes
    ensures s.Valid() && (p == null <==> old(s.lastError) == null)
    ensures p != null ==> p.live && p.text == old(s.lastError).text
  {
    p := s.LastError();
    for k := 0 to |ops|
      invariant s.Valid() && s.handedOut == p
      invariant fresh(s.buffers - old(s.buffers)) && fresh(s.runtimes - old(s.runtimes))
    {
      var code := Step(s, ops[k]);
    }
  }
}
