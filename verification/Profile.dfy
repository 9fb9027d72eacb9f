/** The server profile object and the imperative link parser that fills it. */
module Profiles {
  import opened OptionType
  import opened Strings
  import opened Text
  import opened Links
  import Base64
  import Utf8

  class Profile {
    var id: Text
    var name: Text
    var host: Text
    var remotePort: int
    var password: Text
    var cipher: Text
    var route: Text
    var subscriptionId: Text
    var localAddress: Text
    var localPort: int
    var plugin: Text
    var pluginOpts: Text

    constructor ()
      ensures id == [] && subscriptionId == [] && Defaults()
      ensures Fields() == Link(Lit("Default"), [], 8388, Lit("aes-256-gcm"), [], [], [])
    {
      id, name, host, remotePort, password := [], Lit("Default"), [], 8388, [];
      cipher, route, subscriptionId := Lit("aes-256-gcm"), Lit("all"), [];
      localAddress, localPort, plugin, pluginOpts := Lit("127.0.0.1"), 1080, [], [];
    }

    /** The fields a link sets. */
    function Fields(): Link
      reads this
    {
      Link(name, host, remotePort, cipher, password, plugin, pluginOpts)
    }

    /** The fields no link sets. */
    predicate Defaults()
      reads this
    {
      route == Lit("all") && localAddress == Lit("127.0.0.1") && localPort == 1080
    }

    /** Assigns the id `fresh` unless the profile has one. */
    method EnsureId(newId: Text)
      modifies this`id
      ensures id == if old(id) == [] then newId else old(id)
    {
      if |id| == 0 {
        id := newId;
      }
    }
  }

  /** `decodeBase64`: the decoded text, or None where it throws. */
  method DecodeBase64Text(t: Text) returns (r: Option<Text>)
    ensures r == DecodeText(t)
  {
    var bytes := Base64.DecodeBase64(t);
    match bytes
    case None => r := None;
    case Some(b) =>
      var text := Utf8.DecodeUtf8(b);
      r := Some(text);
  }

  method ParseUrl(url: Text, decode: Decoder) returns (p: Profile?)
    ensures p == null <==> ParseLink(url, decode) == None
    ensures p != null ==> fresh(p) && Some(p.Fields()) == ParseLink(url, decode)
                          && p.id == [] && p.subscriptionId == [] && p.Defaults()
  {
    hide ParseInt, DecodeText, IndexOf, LastIndexOf, Trimmed, Split, Lit, Sections, QueryPlugin, Credentials, Address;
    var trimmed := Trimmed(url);
    if !(Lit("ss://") <= trimmed) {
      return null;
    }
    var body := trimmed[5..];
    var name: Text := [];
    var hashIndex := IndexOf(body, HASH);
    if hashIndex >= 0 {
      name := decode(body[hashIndex + 1..]);
      body := body[..hashIndex];
    }
    assert body == Upto(trimmed[5..], HASH);
    ghost var front := body;
    var plugin, pluginOpts := [], [];
    var queryIndex := IndexOf(body, QUESTION);
    if queryIndex >= 0 {
      var query := body[queryIndex + 1..];
      body := body[..queryIndex];
      plugin, pluginOpts := ReadQuery(query, decode);
    }
    assert body == Upto(front, QUESTION);
    assert (plugin, pluginOpts) == QueryPlugin(Behind(front, QUESTION), decode) by { NoPlugin(decode); }
    var sections := ReadSections(body);
    if sections == None {
      return null;
    }
    var (userInfo, hostPort) := sections.value;
    var credentials := ReadCredentials(userInfo);
    var address := ReadAddress(hostPort);
    if credentials == None || address == None {
      return null;
    }
    var (host, port) := address.value;
    var (cipher, password) := credentials.value;
    p := Fill(if |name| > 0 then name else host, host, port, cipher, password, plugin, pluginOpts);
  }

  /** A new profile with the fields of a link set one after the other. */
  method Fill(name: Text, host: Text, port: int, cipher: Text, password: Text, plugin: Text, pluginOpts: Text)
    returns (p: Profile)
    ensures fresh(p) && p.Fields() == Link(name, host, port, cipher, password, plugin, pluginOpts)
    ensures p.id == [] && p.subscriptionId == [] && p.Defaults()
  {
    hide Lit;
    p := new Profile();
    p.name := name;
    p.host := host;
    p.remotePort := port;
    p.cipher := cipher;
    p.password := password;
    p.plugin := plugin;
    p.pluginOpts := pluginOpts;
  }

  lemma NoPlugin(decode: Decoder)
    ensures QueryPlugin(None, decode) == ([], [])
  {
  }

  /** Splits user info at the first ':'; both sides must be non-empty. */
  method ReadCredentials(userInfo: Text) returns (r: Option<(Text, Text)>)
    ensures r == Credentials(userInfo)
  {
    var colon := IndexOf(userInfo, COLON);
    if colon < 0 {
      return None;
    }
    var cipher, password := userInfo[..colon], userInfo[colon + 1..];
    if |cipher| == 0 || |password| == 0 {
      return None;
    }
    r := Some((cipher, password));
  }

  /** Splits host and port at the last ':' and checks both. */
  method ReadAddress(hostPort: Text) returns (r: Option<(Text, nat)>)
    ensures r == Address(hostPort)
  {
    var portColon := LastIndexOf(hostPort, COLON);
    if portColon < 0 {
      return None;
    }
    var host := RemoveFirst(RemoveFirst(hostPort[..portColon], OPEN), CLOSE);
    var port := ParseInt(hostPort[portColon + 1..]);
    if |host| == 0 || port.NaN? || port.value <= 0 || port.value > 65535 {
      return None;
    }
    r := Some((host, port.value));
  }

  /** The query loop: the last parameter that names a plugin wins. */
  method ReadQuery(query: Text, decode: Decoder) returns (plugin: Text, pluginOpts: Text)
    ensures (plugin, pluginOpts) == QueryPlugin(Some(query), decode)
  {
    hide IndexOf, Split, Lit;
    plugin, pluginOpts := [], [];
    var params := Split(query, AMPERSAND);
    assert params[..0] == [];
    for i := 0 to |params|
      invariant (plugin, pluginOpts) == PluginOf(params[..i], decode)
    {
      var param := params[i];
      assert params[..i + 1][..i] == params[..i] && params[..i + 1][i] == param;
      var eq := IndexOf(param, EQUALS);
      if eq > 0 && param[..eq] == Lit("plugin") {
        var decoded := decode(param[eq + 1..]);
        var semi := IndexOf(decoded, SEMICOLON);
        plugin := if semi >= 0 then decoded[..semi] else decoded;
        pluginOpts := if semi >= 0 then decoded[semi + 1..] else [];
      }
    }
    assert params[..|params|] == params;
  }

  /** The two link forms: credentials and address, or None where the source gives up. */
  method ReadSections(body: Text) returns (r: Option<(Text, Text)>)
    ensures r == Sections(body)
  {
    var atIndex := LastIndexOf(body, AT);
    if atIndex >= 0 {
      var userInfo := DecodeBase64Text(body[..atIndex]);
      match userInfo
      case None => return None;
      case Some(u) => return Some((u, body[atIndex + 1..]));
    }
    var decoded := DecodeBase64Text(body);
    match decoded
    case None => r := None;
    case Some(d) =>
      var at := LastIndexOf(d, AT);
      if at < 0 {
        return None;
      }
      r := Some((d[..at], d[at + 1..]));
  }
}
