/** The apt proxy settings: two exclusive scopes, legacy fields, cached reads, and the apt file they are written to. */
module AptProxy {
  import opened Json
  import opened Text

  datatype Protocol = Http | Https

  datatype Scope = GlobalScope | ProScope

  /** The keys of `pro config` that set an apt proxy; a legacy key stands for the global one. */
  datatype Key = Global(protocol: Protocol) | Pro(protocol: Protocol) | Legacy(protocol: Protocol)

  /** The proxy fields of the user configuration, each of which may be missing. */
  type UserConfig = map<Key, string>

  predicate Truthy(v: Option<string>) {
    v.Some? && v.value != ""
  }

  function Field(user: UserConfig, key: Key): Option<string> {
    if key in user then Some(user[key]) else None
  }

  function SetField(user: UserConfig, key: Key, v: Option<string>): UserConfig {
    if v.Some? then user[key := v.value] else user - {key}
  }

  /** The global proxy without any cache: the global field, else the legacy one, else none. */
  function GlobalProxy(user: UserConfig, p: Protocol): Option<string> {
    if Truthy(Field(user, Global(p))) then Field(user, Global(p))
    else if Truthy(Field(user, Legacy(p))) then Field(user, Legacy(p))
    else None
  }

  predicate GlobalInUse(user: UserConfig) {
    Truthy(GlobalProxy(user, Http)) || Truthy(GlobalProxy(user, Https))
  }

  predicate ProInUse(user: UserConfig) {
    Truthy(Field(user, Pro(Http))) || Truthy(Field(user, Pro(Https)))
  }

  // ---------------------------------------------------------------------------------------------------------
  // The apt file

  const APT_PROXY_CONFIG_HEADER :=
    "/*\n * Autogenerated by ubuntu-pro-client\n * Do not edit this file directly\n *\n"
    + " * To change what ubuntu-pro-client sets, use the `pro config set`\n"
    + " * or the `pro config unset` commands to set/unset either:\n"
    + " *      global_apt_http_proxy and global_apt_https_proxy\n * for a global apt proxy\n * or\n"
    + " *      ua_apt_http_proxy and ua_apt_https_proxy\n"
    + " * for an apt proxy that only applies to Ubuntu Pro related repos.\n */\n"

  function Directive(scope: Scope, p: Protocol, url: string): string {
    (if p == Http then "Acquire::http::Proxy" else "Acquire::https::Proxy")
    + (if scope == ProScope then "::esm.ubuntu.com" else "") + " \"" + url + "\";\n"
  }

  /** The file that holds these proxies, absent when there are none. */
  function Render(http: Option<string>, https: Option<string>, scope: Scope): Option<string> {
    var config := (if Truthy(http) then Directive(scope, Http, http.value) else "")
      + if Truthy(https) then Directive(scope, Https, https.value) else "";
    if config == "" then None else Some(APT_PROXY_CONFIG_HEADER + config)
  }

  function RenderGlobal(user: UserConfig): Option<string> {
    Render(GlobalProxy(user, Http), GlobalProxy(user, Https), GlobalScope)
  }

  function RenderPro(user: UserConfig): Option<string> {
    Render(Field(user, Pro(Http)), Field(user, Pro(Https)), ProScope)
  }

  /** The file that the settings call for. */
  function Rendered(user: UserConfig): Option<string> {
    if GlobalInUse(user) then RenderGlobal(user)
    else if ProInUse(user) then RenderPro(user)
    else None
  }

  // ---------------------------------------------------------------------------------------------------------
  // What the commands do

  datatype Command = Set(key: Key, value: string, accepted: bool) | Unset(key: Key)

  datatype World = World(user: UserConfig, file: Option<string>)

  /** A legacy key is taken for the global one. */
  function Renamed(key: Key): Key {
    if key.Legacy? then Global(key.protocol) else key
  }

  /** Setting a global proxy also drops the legacy field. */
  function Assign(user: UserConfig, key: Key, v: Option<string>): UserConfig {
    var written := SetField(user, key, v);
    if key.Global? then SetField(written, Legacy(key.protocol), None) else written
  }

  function DropGlobal(user: UserConfig): UserConfig {
    user - {Global(Http), Global(Https), Legacy(Http), Legacy(Https)}
  }

  function DropPro(user: UserConfig): UserConfig {
    user - {Pro(Http), Pro(Https)}
  }

  /** The file after one proxy of the key's scope is changed: the other proxy of that scope is kept. */
  function Configured(user: UserConfig, key: Key, v: Option<string>): Option<string> {
    var scope := if key.Pro? then ProScope else GlobalScope;
    var http := if scope == ProScope then Field(user, Pro(Http)) else GlobalProxy(user, Http);
    var https := if scope == ProScope then Field(user, Pro(Https)) else GlobalProxy(user, Https);
    if key.protocol == Https then Render(http, v, scope) else Render(v, https, scope)
  }

  predicate Blank(s: string) {
    forall i | 0 <= i < |s| :: IsSpace(s[i])
  }

  /** A blank value or one that the proxy check does not accept raises before anything is changed. */
  function Execute(w: World, c: Command): World {
    match c
    case Set(key, value, accepted) =>
      if Blank(value) || !accepted then w
      else
        var k := Renamed(key);
        var user := if k.Pro? then DropGlobal(w.user) else DropPro(w.user);
        World(Assign(user, k, Some(value)), Configured(w.user, k, Some(value)))
    case Unset(key) =>
      var k := Renamed(key);
      World(Assign(w.user, k, None), Configured(w.user, k, None))
  }

  // ---------------------------------------------------------------------------------------------------------
  // Cached reads: a read keeps its value, none included, until the next global set of its protocol

  datatype Access = Read(protocol: Protocol) | SetGlobal(protocol: Protocol, v: Option<string>)
    | SetPro(protocol: Protocol, v: Option<string>)

  datatype Cached = Cached(user: UserConfig, cache: map<Protocol, Option<string>>)

  function ReadCached(c: Cached, p: Protocol): Option<string> {
    if p in c.cache then c.cache[p] else GlobalProxy(c.user, p)
  }

  function Perform(c: Cached, a: Access): Cached {
    match a
    case Read(p) => c.(cache := c.cache[p := ReadCached(c, p)])
    case SetGlobal(p, v) => Cached(Assign(c.user, Global(p), v), c.cache - {p})
    case SetPro(p, v) => c.(user := Assign(c.user, Pro(p), v))
  }

  function PerformAll(c: Cached, accesses: seq<Access>): Cached {
    if accesses == [] then c else Perform(PerformAll(c, accesses[..|accesses| - 1]), accesses[|accesses| - 1])
  }

  /** After every interleaving of reads and sets a read gives what would be computed without a cache. */
  lemma {:induction false} CacheAgrees(user: UserConfig, accesses: seq<Access>, p: Protocol)
    ensures var c := PerformAll(Cached(user, map[]), accesses);
      ReadCached(c, p) == GlobalProxy(c.user, p)
  {
    if accesses != [] {
      var init := accesses[..|accesses| - 1];
      CacheAgrees(user, init, p);
      CacheAgrees(user, init, accesses[|accesses| - 1].protocol);
    }
  }

  lemma SetKeepsOther(user: UserConfig, p: Protocol, v: Option<string>, q: Protocol)
    requires p != q
    ensures GlobalProxy(Assign(user, Global(p), v), q) == GlobalProxy(user, q)
  {
  }

  // ---------------------------------------------------------------------------------------------------------
  // The code

  class AptConf {
    var content: Option<string>

    constructor (c: Option<string>)
      ensures content == c
    {
      content := c;
    }

    method SetupAptProxy(httpProxy: Option<string>, httpsProxy: Option<string>, proxyScope: Scope)
      modifies this
      ensures content == Render(httpProxy, httpsProxy, proxyScope)
    {
      var config := "";
      if Truthy(httpProxy) { config := config + Directive(proxyScope, Http, httpProxy.value); }
      assert config == if Truthy(httpProxy) then Directive(proxyScope, Http, httpProxy.value) else "";
      if Truthy(httpsProxy) { config := config + Directive(proxyScope, Https, httpsProxy.value); }
      assert config == (if Truthy(httpProxy) then Directive(proxyScope, Http, httpProxy.value) else "")
        + if Truthy(httpsProxy) then Directive(proxyScope, Https, httpsProxy.value) else "";
      if config != "" { config := APT_PROXY_CONFIG_HEADER + config; }
      content := if config == "" then None else Some(config);
    }
  }

  class UAConfig {
    var user: UserConfig
    var saved: UserConfig
    var cache: map<Protocol, Option<string>>

    /** What is cached is what would be computed, and what is in memory is what was saved. */
    ghost predicate Valid()
      reads this
    {
      && saved == user
      && forall p | p in cache :: cache[p] == GlobalProxy(user, p)
    }

    constructor (u: UserConfig)
      ensures Valid() && user == u
    {
      user, saved, cache := u, u, map[];
    }

    method GetGlobalAptProxy(p: Protocol) returns (v: Option<string>)
      requires Valid()
      modifies this`cache
      ensures Valid() && v == GlobalProxy(user, p)
      ensures v == old(ReadCached(Cached(user, cache), p))
      ensures Cached(user, cache) == Perform(old(Cached(user, cache)), Read(p))
    {
      if p in cache {
        assert cache[p := cache[p]] == cache;
        return cache[p];
      }
      v := None;
      if Truthy(Field(user, Global(p))) {
        v := Field(user, Global(p));
      } else if Truthy(Field(user, Legacy(p))) {
        v := Field(user, Legacy(p));
      }
      cache := cache[p := v];
    }

    method SetGlobalAptProxy(p: Protocol, v: Option<string>)
      requires Valid()
      modifies this
      ensures Valid() && user == Assign(old(user), Global(p), v)
      ensures Cached(user, cache) == Perform(old(Cached(user, cache)), SetGlobal(p, v))
    {
      hide GlobalProxy;
      user := SetField(user, Global(p), v);
      user := SetField(user, Legacy(p), None);
      cache := cache - {p};
      saved := user;
      assert user == Assign(old(user), Global(p), v);
      forall q | q in cache ensures GlobalProxy(user, q) == GlobalProxy(old(user), q) {
        SetKeepsOther(old(user), p, v, q);
      }
    }

    method SetProAptProxy(p: Protocol, v: Option<string>)
      requires Valid()
      modifies this
      ensures Valid() && user == Assign(old(user), Pro(p), v)
      ensures Cached(user, cache) == Perform(old(Cached(user, cache)), SetPro(p, v))
    {
      user := SetField(user, Pro(p), v);
      saved := user;
    }

    method SetAttr(key: Key, v: Option<string>)
      requires Valid() && !key.Legacy?
      modifies this
      ensures Valid() && user == Assign(old(user), key, v)
    {
      if key.Global? { SetGlobalAptProxy(key.protocol, v); } else { SetProAptProxy(key.protocol, v); }
    }
  }

  method ConfigureAptProxy(cfg: UAConfig, file: AptConf, scope: Scope, setKey: Key, setValue: Option<string>)
    requires cfg.Valid() && scope == if setKey.Pro? then ProScope else GlobalScope
    modifies cfg`cache, file
    ensures cfg.Valid() && file.content == Configured(cfg.user, setKey, setValue)
  {
    var httpProxy, httpsProxy := None, None;
    if scope == GlobalScope {
      httpProxy := cfg.GetGlobalAptProxy(Http);
      httpsProxy := cfg.GetGlobalAptProxy(Https);
    } else {
      httpProxy, httpsProxy := Field(cfg.user, Pro(Http)), Field(cfg.user, Pro(Https));
    }
    if setKey.protocol == Https { httpsProxy := setValue; } else { httpProxy := setValue; }
    file.SetupAptProxy(httpProxy, httpsProxy, scope);
  }

  /** The apt proxy branches of `pro config set`; `accepted` is the outcome of the proxy check. */
  method ActionConfigSet(cfg: UAConfig, file: AptConf, key: Key, setValue: string, accepted: bool)
    requires cfg.Valid()
    modifies cfg, file
    ensures cfg.Valid()
    ensures World(cfg.user, file.content) == Execute(old(World(cfg.user, file.content)), Set(key, setValue, accepted))
  {
    hide Configured, GlobalProxy, Blank;
    var setKey := key;
    if Blank(setValue) { return; }
    if setKey.Global? { var _ := cfg.GetGlobalAptProxy(setKey.protocol); }
    if setKey.Pro? {
      if !accepted { return; }
      var currentHttp := cfg.GetGlobalAptProxy(Http);
      var currentHttps := cfg.GetGlobalAptProxy(Https);
      ConfigureAptProxy(cfg, file, ProScope, setKey, Some(setValue));
      cfg.SetGlobalAptProxy(Http, None);
      cfg.SetGlobalAptProxy(Https, None);
      assert cfg.user == DropGlobal(old(cfg.user));
    } else {
      if setKey.Legacy? { setKey := Global(setKey.protocol); }
      if !accepted { return; }
      ConfigureAptProxy(cfg, file, GlobalScope, setKey, Some(setValue));
      cfg.SetProAptProxy(Http, None);
      cfg.SetProAptProxy(Https, None);
      assert cfg.user == DropPro(old(cfg.user));
    }
    cfg.SetAttr(setKey, Some(setValue));
  }

  /** The apt proxy branches of `pro config unset`. */
  method ActionConfigUnset(cfg: UAConfig, file: AptConf, key: Key)
    requires cfg.Valid()
    modifies cfg, file
    ensures cfg.Valid()
    ensures World(cfg.user, file.content) == Execute(old(World(cfg.user, file.content)), Unset(key))
  {
    var argsKey := key;
    if argsKey.Pro? {
      ConfigureAptProxy(cfg, file, ProScope, argsKey, None);
    } else {
      if argsKey.Legacy? { argsKey := Global(argsKey.protocol); }
      ConfigureAptProxy(cfg, file, GlobalScope, argsKey, None);
    }
    cfg.SetAttr(argsKey, None);
  }

  // ---------------------------------------------------------------------------------------------------------
  // Runs of commands

  function Run(w: World, commands: seq<Command>): World {
    if commands == [] then w else Execute(Run(w, commands[..|commands| - 1]), commands[|commands| - 1])
  }

  predicate Exclusive(user: UserConfig) {
    !(GlobalInUse(user) && ProInUse(user))
  }

  /** The command raises and changes nothing. */
  predicate Rejected(c: Command) {
    c.Set? && (Blank(c.value) || !c.accepted)
  }

  /** An unset of one scope while the other is in use. */
  predicate Clashes(user: UserConfig, c: Command) {
    c.Unset? && if c.key.Pro? then GlobalInUse(user) else ProInUse(user)
  }

  /** The directives by scope and protocol; http comes first, and a proxy that is missing or empty is left out. */
  lemma FileTexts(h: string, s: string)
    requires h != "" && s != ""
    ensures Render(Some(h), Some(s), GlobalScope) == Some(APT_PROXY_CONFIG_HEADER
      + ("Acquire::http::Proxy \"" + h + "\";\n" + ("Acquire::https::Proxy \"" + s + "\";\n")))
    ensures Render(Some(h), Some(s), ProScope) == Some(APT_PROXY_CONFIG_HEADER
      + ("Acquire::http::Proxy::esm.ubuntu.com \"" + h + "\";\n"
         + ("Acquire::https::Proxy::esm.ubuntu.com \"" + s + "\";\n")))
    ensures forall none | none in {None, Some("")} ::
      && Render(Some(h), none, GlobalScope)
           == Some(APT_PROXY_CONFIG_HEADER + ("Acquire::http::Proxy \"" + h + "\";\n"))
      && Render(none, Some(s), GlobalScope)
           == Some(APT_PROXY_CONFIG_HEADER + ("Acquire::https::Proxy \"" + s + "\";\n"))
      && Render(none, none, GlobalScope) == None
  {
    hide APT_PROXY_CONFIG_HEADER;
    DirectiveTexts(h);
    DirectiveTexts(s);
    hide Directive;
    assert Directive(GlobalScope, Http, h) + "" == Directive(GlobalScope, Http, h);
    assert "" + Directive(GlobalScope, Https, s) == Directive(GlobalScope, Https, s);
  }

  lemma DirectiveTexts(url: string)
    ensures Directive(GlobalScope, Http, url) == "Acquire::http::Proxy \"" + url + "\";\n" != ""
    ensures Directive(GlobalScope, Https, url) == "Acquire::https::Proxy \"" + url + "\";\n" != ""
    ensures Directive(ProScope, Http, url) == "Acquire::http::Proxy::esm.ubuntu.com \"" + url + "\";\n" != ""
    ensures Directive(ProScope, Https, url) == "Acquire::https::Proxy::esm.ubuntu.com \"" + url + "\";\n" != ""
  {
    assert "Acquire::http::Proxy" + "" + " \"" == "Acquire::http::Proxy \"";
    assert "Acquire::https::Proxy" + "" + " \"" == "Acquire::https::Proxy \"";
    assert "Acquire::http::Proxy" + "::esm.ubuntu.com" + " \"" == "Acquire::http::Proxy::esm.ubuntu.com \"";
    assert "Acquire::https::Proxy" + "::esm.ubuntu.com" + " \"" == "Acquire::https::Proxy::esm.ubuntu.com \"";
  }

  /** A proxy in use is the global field, or the legacy one where that is missing or empty. */
  lemma GlobalBeforeLegacy(user: UserConfig, p: Protocol, url: string)
    requires url != ""
    ensures GlobalProxy(user, p) == Some(url) <==>
      || (Global(p) in user && user[Global(p)] == url)
      || ((Global(p) in user ==> user[Global(p)] == "") && Legacy(p) in user && user[Legacy(p)] == url)
  {
  }

  /** Every field after a command that is carried out. */
  lemma FieldsAfter(w: World, c: Command, k: Key)
    requires !Rejected(c)
    ensures var p, v := c.key.protocol, if c.Set? then Some(c.value) else None;
      Field(Execute(w, c).user, k)
        == if c.key.Pro? then
             if k == Pro(p) then v else if c.Set? && !k.Pro? then None else Field(w.user, k)
           else
             if k == Global(p) then v
             else if k == Legacy(p) || (c.Set? && k.Pro?) then None
             else Field(w.user, k)
  {
    DropsScope(w.user, k);
    hide DropGlobal, DropPro, GlobalProxy, Configured, Blank;
  }

  lemma DropsScope(user: UserConfig, k: Key)
    ensures Field(DropGlobal(user), k) == if k.Pro? then Field(user, k) else None
    ensures Field(DropPro(user), k) == if k.Pro? then None else Field(user, k)
  {
    assert k.protocol == Http || k.protocol == Https;
  }

  /** A set whose value is blank or not accepted changes nothing; a value with a visible character that is accepted
      is carried out, and so is every unset. */
  lemma RejectedChangesNothing(w: World, c: Command)
    ensures Rejected(c) ==> Execute(w, c) == w
    ensures c.Set? && (!c.accepted || forall i | 0 <= i < |c.value| :: c.value[i] in " \t\n\r") ==> Rejected(c)
    ensures c.Unset? || (c.accepted && exists i | 0 <= i < |c.value| :: '!' <= c.value[i] <= '~') ==> !Rejected(c)
  {
  }

  /** Setting one scope always ends the use of the other; unsetting begins no use. */
  lemma ExecuteExclusive(w: World, c: Command)
    ensures Exclusive(w.user) || (c.Set? && !Rejected(c)) ==> Exclusive(Execute(w, c).user)
  {
    var after := Execute(w, c).user;
    if c.Unset? {
      forall p ensures Truthy(GlobalProxy(after, p)) ==> Truthy(GlobalProxy(w.user, p)) {}
      forall p ensures Truthy(Field(after, Pro(p))) ==> Truthy(Field(w.user, Pro(p))) {}
    } else if !Rejected(c) {
      forall p | c.key.Pro? ensures GlobalProxy(after, p) == None {
        assert p == Http || p == Https;
      }
    }
  }

  lemma RenderAbsent(http: Option<string>, https: Option<string>, scope: Scope)
    ensures Render(http, https, scope) == None <==> !Truthy(http) && !Truthy(https)
  {
    if Truthy(http) { assert Directive(scope, Http, http.value) != ""; }
    if Truthy(https) { assert Directive(scope, Https, https.value) != ""; }
  }

  /** A command writes the file of the scope it names, as that scope is afterwards. */
  lemma ExecuteWrites(w: World, c: Command)
    requires !Rejected(c)
    ensures var after := Execute(w, c);
      after.file == if c.key.Pro? then RenderPro(after.user) else RenderGlobal(after.user)
  {
    var after, k := Execute(w, c), Renamed(c.key);
    var v := if c.Set? then Some(c.value) else None;
    var q := if k.protocol == Http then Https else Http;
    hide Render;
    assert c.Set? ==> Truthy(v);
    if k.Pro? {
      assert Field(after.user, k) == v && Field(after.user, Pro(q)) == Field(w.user, Pro(q));
    } else {
      assert GlobalProxy(after.user, k.protocol) == v && GlobalProxy(after.user, q) == GlobalProxy(w.user, q);
    }
  }

  /** After any command that is carried out, the file is what the settings call for exactly if the command was not
      an unset of one scope while the other was in use: every command writes the whole file. */
  lemma ExecuteRenders(w: World, c: Command)
    requires Exclusive(w.user) && !Rejected(c)
    ensures Execute(w, c).file == Rendered(Execute(w, c).user) <==> !Clashes(w.user, c)
  {
    var after := Execute(w, c).user;
    ExecuteWrites(w, c);
    ExecuteExclusive(w, c);
    RenderAbsent(GlobalProxy(after, Http), GlobalProxy(after, Https), GlobalScope);
    RenderAbsent(Field(after, Pro(Http)), Field(after, Pro(Https)), ProScope);
    OtherScope(w, c);
  }

  /** With only a global proxy in use, unsetting a pro proxy that is not set removes the file. */
  lemma UnsetLosesFile(url: string)
    requires url != ""
    ensures var user := map[Global(Http) := url];
      var after := Execute(World(user, Rendered(user)), Unset(Pro(Http)));
      after.user == user && Rendered(user).Some? && after.file == None
  {
    var user := map[Global(Http) := url];
    assert GlobalProxy(user, Http) == Some(url);
    assert Assign(user, Pro(Http), None) == user;
    RenderAbsent(Some(url), GlobalProxy(user, Https), GlobalScope);
    RenderAbsent(None, None, ProScope);
  }

  /** What a command leaves of the scope it does not name. */
  lemma OtherScope(w: World, c: Command)
    requires !Rejected(c)
    ensures var after := Execute(w, c).user;
      if c.key.Pro? then GlobalInUse(after) <==> c.Unset? && GlobalInUse(w.user)
      else ProInUse(after) <==> c.Unset? && ProInUse(w.user)
  {
    var after := Execute(w, c).user;
    if c.key.Pro? {
      forall p ensures GlobalProxy(after, p) == if c.Unset? then GlobalProxy(w.user, p) else None {
        assert p == Http || p == Https;
      }
    }
  }

  /** From an exclusive start every run stays exclusive; and after it the file is what the settings call for exactly
      if it was at the start and nothing was carried out, or the last command carried out did not clash. */
  lemma {:induction false} RunRenders(w: World, commands: seq<Command>)
    requires Exclusive(w.user)
    ensures Exclusive(Run(w, commands).user)
    ensures Run(w, commands).file == Rendered(Run(w, commands).user) <==> RendersAfter(w, commands)
  {
    if commands != [] {
      var init, last := commands[..|commands| - 1], commands[|commands| - 1];
      RunRenders(w, init);
      ExecuteExclusive(Run(w, init), last);
      if !Rejected(last) { ExecuteRenders(Run(w, init), last); }
    }
  }

  predicate RendersAfter(w: World, commands: seq<Command>) {
    if commands == [] then w.file == Rendered(w.user)
    else
      var init, last := commands[..|commands| - 1], commands[|commands| - 1];
      if Rejected(last) then RendersAfter(w, init) else !Clashes(Run(w, init).user, last)
  }
}
