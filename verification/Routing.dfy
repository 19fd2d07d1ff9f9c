/** Routing: the locations that a config has, the factories registered for them, and the dispatcher. */
module Routing {
  import opened Wrappers
  import opened ConfigLexer
  import opened ConfigGrammar
  import opened ConfigText
  import opened ConfigParser
  import opened UrlSegments
  import opened EntityStoreValidation
  import RequestParser

  newtype int16 = x: int | -0x8000 <= x < 0x8000

  datatype Location = Location(path: string, handlerName: string, args: map<string, string>)

  datatype ServerConfig = ServerConfig(port: int16, locations: seq<Location>)

  datatype Factory =
    | EchoFactory(location: Location)
    | StaticFactory(location: Location)
    | HealthFactory(location: Location)
    | SleepFactory(location: Location)
    | ApiFactory(location: Location, dataPath: string)

  type Factories = map<string, Factory>

  datatype Handler = NotFoundHandler | Made(factory: Factory)

  // ---------- What a config means ----------

  function FactoryFor(l: Location): Option<Factory> {
    if l.handlerName == "EchoHandler" then Some(EchoFactory(l))
    else if l.handlerName == "StaticHandler" then Some(StaticFactory(l))
    else if l.handlerName == "HealthHandler" then Some(HealthFactory(l))
    else if l.handlerName == "SleepHandler" then Some(SleepFactory(l))
    else if l.handlerName == "ApiHandler" then
      Some(ApiFactory(l, if "data_path" in l.args then l.args["data_path"] else "."))
    else None
  }

  /** A directive of a location block sets the handler or an argument; one without a value is ignored. */
  function WithDirective(l: Location, s: Statement): Location {
    if |s.tokens| < 2 then l
    else if s.tokens[0] == "handler" then l.(handlerName := s.tokens[1])
    else l.(args := l.args[s.tokens[0] := s.tokens[1]])
  }

  function LocationOf(path: string, b: Block): Location {
    if b == [] then Location(path, "", map[]) else WithDirective(LocationOf(path, b[..|b| - 1]), b[|b| - 1])
  }

  predicate IsListen(s: Statement) {
    |s.tokens| >= 2 && s.tokens[0] == "listen"
  }

  predicate IsLocation(s: Statement) {
    |s.tokens| >= 2 && s.tokens[0] == "location" && s.WithBlock?
  }

  /** The location of a statement, if it is one that is kept. */
  function KeptOf(s: Statement): seq<Location> {
    if IsLocation(s) && FactoryFor(LocationOf(s.tokens[1], s.block)).Some?
    then [LocationOf(s.tokens[1], s.block)]
    else []
  }

  function Kept(b: Block): seq<Location> {
    if b == [] then [] else Kept(b[..|b| - 1]) + KeptOf(b[|b| - 1])
  }

  function Listening(b: Block): Option<string> {
    if b == [] then None
    else if IsListen(b[|b| - 1]) then Some(b[|b| - 1].tokens[1])
    else Listening(b[..|b| - 1])
  }

  /** `atoi`, of which the language defines the result only within the range of `int`. */
  function Atoi(s: string): int {
    var t := RequestParser.SkipSpaces(s);
    var signed := t != "" && (t[0] == '-' || t[0] == '+');
    var magnitude: int := Value(LeadingDigits(if signed then t[1..] else t));
    if signed && t[0] == '-' then -magnitude else magnitude
  }

  /** The conversion of an `int` to a `short`, which wraps around. */
  function ToShort(n: int): int16 {
    ((n + 0x8000) % 0x1_0000 - 0x8000) as int16
  }

  predicate PortsFit(b: Block) {
    forall i | 0 <= i < |b| :: IsListen(b[i]) ==> -INT_MAX - 1 <= Atoi(b[i].tokens[1]) <= INT_MAX
  }

  function PortOf(b: Block, defaultPort: int16): int16 {
    match Listening(b)
    case None => defaultPort
    case Some(text) => ToShort(Atoi(text))
  }

  lemma {:induction false} SpelledAtoi(n: nat)
    ensures Atoi(Decimal(n)) == n
  {
    LeadingDigitsOfDigits(Decimal(n));
    ValueOfDecimal(n);
    assert IsDigit(Decimal(n)[0]);
  }

  lemma {:induction false} ShortIsModulo(n: nat)
    ensures ToShort(n) as int % 0x1_0000 == n % 0x1_0000
    ensures n < 0x8000 ==> ToShort(n) as int == n
    ensures ToShort(n) == 0 <==> n % 0x1_0000 == 0
  {
    var k, q := ToShort(n) as int, (n + 0x8000) / 0x1_0000;
    assert n == k + q * 0x1_0000;
    assert k % 0x1_0000 == 0 ==> k == 0;
  }

  /** A port spelled in decimal is kept modulo 2^16, by which the socket takes it back as an unsigned number;
      it becomes 0 exactly for the multiples of 2^16. */
  lemma {:induction false} SpelledPort(n: nat, port: int16)
    requires port == ToShort(Atoi(Decimal(n)))
    ensures port as int % 0x1_0000 == n % 0x1_0000
    ensures n < 0x8000 ==> port as int == n
    ensures port == 0 <==> n % 0x1_0000 == 0
  {
    SpelledAtoi(n);
    ShortIsModulo(n);
  }

  /** A quoted port keeps its quotes, and is 0. */
  lemma {:induction false} QuotedPortIsZero(t: string)
    requires IsQuoted(t)
    ensures ToShort(Atoi(t)) == 0
  {
    assert RequestParser.SkipSpaces(t) == t && LeadingDigits(t) == "";
  }

  predicate IsServer(s: Statement) {
    |s.tokens| >= 1 && s.tokens[0] == "server" && s.WithBlock?
  }

  /** The block of the first server statement. */
  function ServerBlock(b: Block): Block {
    if b == [] then [] else if IsServer(b[0]) then b[0].block else ServerBlock(b[1..])
  }

  /** What is registered after the locations, one after the other, have been. */
  function Registered(factories: Factories, kept: seq<Location>): Factories {
    if kept == [] then factories
    else
      var l := kept[|kept| - 1];
      var before := Registered(factories, kept[..|kept| - 1]);
      match FactoryFor(l)
      case None => before
      case Some(factory) => before[l.path := factory]
  }

  // ---------- Extraction ----------

  class HandlerRegistry {
    var factories: Factories

    constructor ()
      ensures factories == map[]
    {
      factories := map[];
    }
  }

  method RegisterHandlerForLocation(location: Location, registry: HandlerRegistry) returns (ok: bool)
    modifies registry
    ensures ok == FactoryFor(location).Some?
    ensures registry.factories == Registered(old(registry.factories), [location])
  {
    assert [location][..0] == [];
    var factory;
    if location.handlerName == "" {
      return false;
    }
    if location.handlerName == "EchoHandler" {
      factory := EchoFactory(location);
    } else if location.handlerName == "StaticHandler" {
      factory := StaticFactory(location);
    } else if location.handlerName == "HealthHandler" {
      factory := HealthFactory(location);
    } else if location.handlerName == "SleepHandler" {
      factory := SleepFactory(location);
    } else if location.handlerName == "ApiHandler" {
      var dataPath := ".";
      if "data_path" in location.args {
        dataPath := location.args["data_path"];
      }
      factory := ApiFactory(location, dataPath);
    } else {
      return false;
    }
    registry.factories := registry.factories[location.path := factory];
    return true;
  }

  /** The loop over the directives of a location block. */
  method ReadLocation(path: string, block: NginxConfig, ghost b: Block, ghost tree: set<object>)
    returns (location: Location)
    requires StatementsAre(block.statements, b, tree)
    ensures location == LocationOf(path, b)
  {
    location := Location(path, "", map[]);
    for i := 0 to |block.statements|
      invariant location == LocationOf(path, b[..i])
    {
      assert b[..i + 1][..i] == b[..i] && StatementIs(block.statements[i], b[i], tree);
      var tokens := block.statements[i].tokens;
      if |tokens| >= 1 {
        var directive := tokens[0];
        if directive == "handler" && |tokens| >= 2 {
          location := location.(handlerName := tokens[1]);
        } else if directive == "root" && |tokens| >= 2 {
          location := location.(args := location.args["root" := tokens[1]]);
        } else if directive == "data_path" && |tokens| >= 2 {
          location := location.(args := location.args["data_path" := tokens[1]]);
        } else if |tokens| >= 2 {
          location := location.(args := location.args[directive := tokens[1]]);
        }
      }
    }
    assert b[..|b|] == b;
  }

  lemma {:induction false} RegisteredThen(factories: Factories, kept: seq<Location>, l: Location)
    ensures Registered(factories, kept + [l]) == Registered(Registered(factories, kept), [l])
  {
    assert (kept + [l])[..|kept|] == kept && [l][..0] == [];
  }

  lemma {:induction false} NextStatement(b: Block, i: nat)
    requires i < |b|
    ensures Kept(b[..i + 1]) == Kept(b[..i]) + KeptOf(b[i])
    ensures Listening(b[..i + 1]) == if IsListen(b[i]) then Some(b[i].tokens[1]) else Listening(b[..i])
  {
    assert b[..i + 1][..i] == b[..i];
  }

  /** A location is kept if it names a handler that can be registered. */
  method KeepLocation(config: ServerConfig, location: Location, registry: HandlerRegistry, ghost before: Factories)
    returns (config': ServerConfig)
    requires registry.factories == Registered(before, config.locations)
    modifies registry
    ensures config'.port == config.port
    ensures config'.locations == config.locations + if FactoryFor(location).Some? then [location] else []
    ensures registry.factories == Registered(before, config'.locations)
  {
    config' := config;
    RegisteredThen(before, config.locations, location);
    if location.handlerName != "" {
      var ok := RegisterHandlerForLocation(location, registry);
      if ok {
        config' := config.(locations := config.locations + [location]);
      }
    }
  }

  /** The loop over the directives of the server block. */
  method ReadServer(block: NginxConfig, registry: HandlerRegistry, defaultPort: int16,
                    ghost b: Block, ghost tree: set<object>)
    returns (config: ServerConfig)
    requires StatementsAre(block.statements, b, tree) && registry !in tree && block in tree && PortsFit(b)
    modifies registry
    ensures config.locations == Kept(b)
    ensures config.port == PortOf(b, defaultPort)
    ensures registry.factories == Registered(old(registry.factories), Kept(b))
  {
    config := ServerConfig(defaultPort, []);
    for i := 0 to |block.statements|
      invariant block.statements == old(block.statements) && StatementsAre(block.statements, b, tree)
      invariant config.locations == Kept(b[..i])
      invariant config.port == PortOf(b[..i], defaultPort)
      invariant registry.factories == Registered(old(registry.factories), Kept(b[..i]))
    {
      NextStatement(b, i);
      assert StatementIs(block.statements[i], b[i], tree);
      var statement := block.statements[i];
      if |statement.tokens| >= 2 && statement.tokens[0] == "listen" {
        config := config.(port := ToShort(Atoi(statement.tokens[1])));
      } else if |statement.tokens| >= 2 && statement.tokens[0] == "location" && statement.child != null {
        var location := ReadLocation(statement.tokens[1], statement.child, b[i].block, tree);
        config := KeepLocation(config, location, registry, old(registry.factories));
      }
    }
    assert b[..|b|] == b;
  }

  method ExtractServerConfig(config: NginxConfig, registry: HandlerRegistry, defaultPort: int16,
                             ghost b: Block, ghost tree: set<object>)
    returns (serverConfig: ServerConfig)
    requires StatementsAre(config.statements, b, tree) && registry !in tree && PortsFit(ServerBlock(b))
    modifies registry
    ensures serverConfig.locations == Kept(ServerBlock(b))
    ensures serverConfig.port == PortOf(ServerBlock(b), defaultPort)
    ensures registry.factories == Registered(old(registry.factories), serverConfig.locations)
  {
    for i := 0 to |config.statements|
      invariant ServerBlock(b[i..]) == ServerBlock(b)
      invariant registry.factories == old(registry.factories) && StatementsAre(config.statements, b, tree)
    {
      assert b[i..][1..] == b[i + 1..] && StatementIs(config.statements[i], b[i], tree);
      var statement := config.statements[i];
      if |statement.tokens| >= 1 && statement.tokens[0] == "server" && statement.child != null {
        serverConfig := ReadServer(statement.child, registry, defaultPort, b[i].block, tree);
        return;
      }
    }
    serverConfig := ServerConfig(defaultPort, []);
  }

  // ---------- Dispatch ----------

  predicate Matches(l: Location, url: string) {
    l.path != "" && StartsWith(url, l.path)
  }

  /** The location at `i` matches, none that matches has a longer path, and none as long comes before it. */
  predicate IsBestMatch(locations: seq<Location>, url: string, i: int) {
    && 0 <= i < |locations| && Matches(locations[i], url)
    && (forall j | 0 <= j < |locations| && Matches(locations[j], url) :: |locations[j].path| <= |locations[i].path|)
    && (forall j | 0 <= j < i && Matches(locations[j], url) :: |locations[j].path| < |locations[i].path|)
  }

  predicate NoMatch(locations: seq<Location>, url: string) {
    forall j | 0 <= j < |locations| :: !Matches(locations[j], url)
  }

  class RequestDispatcher {
    var locations: seq<Location>

    constructor ()
      ensures locations == []
    {
      locations := [];
    }

    method InitFromServerConfig(config: ServerConfig) returns (ok: bool)
      modifies this
      ensures ok == (config.locations != [])
      ensures locations == if ok then config.locations else old(locations)
    {
      if config.locations == [] {
        return false;
      }
      locations := config.locations;
      return true;
    }

    method FindBestMatch(url: string) returns (best: Option<Location>)
      ensures best.None? ==> NoMatch(locations, url)
      ensures best.Some? ==> exists i :: IsBestMatch(locations, url, i) && locations[i] == best.value
    {
      best := None;
      var bestMatchLength := 0;
      ghost var at := 0;
      for i := 0 to |locations|
        invariant best.None? ==> bestMatchLength == 0 && NoMatch(locations[..i], url)
        invariant best.Some? ==>
                    && IsBestMatch(locations[..i], url, at) && locations[at] == best.value
                    && bestMatchLength == |best.value.path|
      {
        var location := locations[i];
        if StartsWith(url, location.path) && |location.path| > bestMatchLength {
          best, bestMatchLength, at := Some(location), |location.path|, i;
        }
      }
      assert locations[..|locations|] == locations;
    }

    method CreateHandler(url: string, registry: HandlerRegistry) returns (handler: Handler)
      ensures NoMatch(locations, url) ==> handler == NotFoundHandler
      ensures forall i | IsBestMatch(locations, url, i) ::
                handler == Lookup(registry.factories, locations[i].path)
    {
      var matched := FindBestMatch(url);
      if matched.None? {
        return NotFoundHandler;
      }
      assert forall i, j | IsBestMatch(locations, url, i) && IsBestMatch(locations, url, j) :: i == j;
      if matched.value.path !in registry.factories {
        return NotFoundHandler;
      }
      return Made(registry.factories[matched.value.path]);
    }
  }

  // ---------- What dispatch does with a config ----------

  /** The last location with a path. */
  function LastWith(kept: seq<Location>, path: string): Option<Location> {
    if kept == [] then None
    else if kept[|kept| - 1].path == path then Some(kept[|kept| - 1])
    else LastWith(kept[..|kept| - 1], path)
  }

  lemma {:induction false} RegisteredIsLast(factories: Factories, kept: seq<Location>, path: string)
    requires forall i | 0 <= i < |kept| :: FactoryFor(kept[i]).Some?
    ensures LastWith(kept, path).Some? <==> exists i :: 0 <= i < |kept| && kept[i].path == path
    ensures LastWith(kept, path).Some? ==>
              && path in Registered(factories, kept)
              && FactoryFor(LastWith(kept, path).value) == Some(Registered(factories, kept)[path])
    ensures LastWith(kept, path).None? ==> (path in Registered(factories, kept) <==> path in factories)
  {
    if kept != [] {
      var init := kept[..|kept| - 1];
      RegisteredIsLast(factories, init, path);
      assert forall i | 0 <= i < |init| :: kept[i] == init[i];
    }
  }

  lemma {:induction false} KeptHaveFactories(b: Block)
    ensures forall i | 0 <= i < |Kept(b)| :: FactoryFor(Kept(b)[i]).Some?
  {
    if b != [] {
      KeptHaveFactories(b[..|b| - 1]);
    }
  }

  /** What the last location with a path makes. */
  function HandlerOf(kept: seq<Location>, path: string): Handler {
    match LastWith(kept, path)
    case None => NotFoundHandler
    case Some(l) =>
      match FactoryFor(l)
      case None => NotFoundHandler
      case Some(factory) => Made(factory)
  }

  /** The handler of a URL in a config: that of the last location with the longest path that matches. */
  ghost predicate Dispatches(kept: seq<Location>, url: string, handler: Handler) {
    && (NoMatch(kept, url) ==> handler == NotFoundHandler)
    && (forall i | IsBestMatch(kept, url, i) :: handler.Made? && handler == HandlerOf(kept, kept[i].path))
  }

  function Lookup(registered: Factories, path: string): Handler {
    if path in registered then Made(registered[path]) else NotFoundHandler
  }

  lemma {:induction false} FactoryOfKept(factories: Factories, b: Block, i: nat)
    requires i < |Kept(b)|
    ensures var path, registered := Kept(b)[i].path, Registered(factories, Kept(b));
            Lookup(registered, path).Made? && Lookup(registered, path) == HandlerOf(Kept(b), path)
  {
    KeptHaveFactories(b);
    RegisteredIsLast(factories, Kept(b), Kept(b)[i].path);
  }

  /** Behind extraction, the dispatcher finds a factory for whatever matches: the fallback for a missing one
      is not reached, whatever had been registered before. */
  lemma {:induction false} DispatchAfterExtraction(factories: Factories, b: Block, url: string, handler: Handler)
    requires NoMatch(Kept(b), url) ==> handler == NotFoundHandler
    requires forall i | IsBestMatch(Kept(b), url, i) ::
               handler == Lookup(Registered(factories, Kept(b)), Kept(b)[i].path)
    ensures Dispatches(Kept(b), url, handler)
  {
    forall i | IsBestMatch(Kept(b), url, i)
      ensures handler.Made? && handler == HandlerOf(Kept(b), Kept(b)[i].path)
    {
      FactoryOfKept(factories, b, i);
    }
  }

  // ---------- The order of locations ----------

  lemma {:induction false} BestMatchExists(locations: seq<Location>, url: string)
    ensures NoMatch(locations, url) || exists i :: IsBestMatch(locations, url, i)
  {
    if locations != [] {
      var init, n := locations[..|locations| - 1], |locations| - 1;
      BestMatchExists(init, url);
      if NoMatch(init, url) {
        assert Matches(locations[n], url) ==> IsBestMatch(locations, url, n);
        assert forall j | 0 <= j < n :: init[j] == locations[j];
      } else {
        var i :| IsBestMatch(init, url, i);
        if Matches(locations[n], url) && |locations[n].path| > |init[i].path| {
          assert IsBestMatch(locations, url, n);
        } else {
          assert IsBestMatch(locations, url, i);
        }
      }
    }
  }

  function PathsOf(locations: seq<Location>): set<string> {
    set i | 0 <= i < |locations| :: locations[i].path
  }

  /** Reordering locations does not change the path that is chosen for a URL. */
  lemma {:induction false} ChosenPathIgnoresOrder(a: seq<Location>, b: seq<Location>, url: string, i: int, k: int)
    requires PathsOf(a) == PathsOf(b) && IsBestMatch(a, url, i) && IsBestMatch(b, url, k)
    ensures b[k].path == a[i].path
  {
    assert a[i].path in PathsOf(b) && b[k].path in PathsOf(a);
    var j :| 0 <= j < |b| && b[j].path == a[i].path;
    var l :| 0 <= l < |a| && a[l].path == b[k].path;
    assert Matches(b[j], url) && Matches(a[l], url);
    assert |b[k].path| == |a[i].path|;
  }

  lemma {:induction false} MatchIgnoresOrder(a: seq<Location>, b: seq<Location>, url: string)
    requires PathsOf(a) == PathsOf(b) && NoMatch(a, url)
    ensures NoMatch(b, url)
  {
    forall k | 0 <= k < |b| ensures !Matches(b[k], url) {
      assert b[k].path in PathsOf(a);
      var l :| 0 <= l < |a| && a[l].path == b[k].path;
      assert !Matches(a[l], url);
    }
  }

  predicate DistinctPaths(kept: seq<Location>) {
    forall i, j | 0 <= i < j < |kept| :: kept[i].path != kept[j].path
  }

  lemma {:induction false} LastWithIs(kept: seq<Location>, i: nat)
    requires DistinctPaths(kept) && i < |kept|
    ensures LastWith(kept, kept[i].path) == Some(kept[i])
  {
    if i < |kept| - 1 {
      LastWithIs(kept[..|kept| - 1], i);
    }
  }

  lemma {:induction false} SameLocations(a: seq<Location>, b: seq<Location>)
    requires multiset(a) == multiset(b)
    ensures PathsOf(a) == PathsOf(b)
    ensures forall l :: l in a ==> l in b
  {
    assert forall l :: l in a <==> l in multiset(a);
    assert forall l :: l in b <==> l in multiset(b);
    forall path ensures path in PathsOf(a) <==> path in PathsOf(b) {
      if i :| 0 <= i < |a| && a[i].path == path {
        assert a[i] in b;
      }
      if i :| 0 <= i < |b| && b[i].path == path {
        assert b[i] in a;
      }
    }
  }

  /** Reordering locations with distinct paths changes the handler of no URL. */
  lemma {:induction false} OrderDoesNotMatter(a: seq<Location>, b: seq<Location>, url: string, x: Handler, y: Handler)
    requires multiset(a) == multiset(b) && DistinctPaths(a) && DistinctPaths(b)
    requires Dispatches(a, url, x) && Dispatches(b, url, y)
    ensures x == y
  {
    SameLocations(a, b);
    BestMatchExists(a, url);
    BestMatchExists(b, url);
    if NoMatch(a, url) {
      MatchIgnoresOrder(a, b, url);
    } else if NoMatch(b, url) {
      MatchIgnoresOrder(b, a, url);
    } else {
      var i :| IsBestMatch(a, url, i);
      var j :| IsBestMatch(b, url, j);
      ChosenPathIgnoresOrder(a, b, url, i, j);
      assert a[i] in b;
      var k :| 0 <= k < |b| && b[k] == a[i];
      LastWithIs(a, i);
      LastWithIs(b, k);
    }
  }

  // ---------- From the text of a config file to the handler of a URL ----------

  const DEFAULT_PORT: int16 := 8080

  class ServerInitResult {
    const dispatcher: RequestDispatcher?
    const port: int16

    constructor (dispatcher: RequestDispatcher?, port: int16)
      ensures this.dispatcher == dispatcher && this.port == port
    {
      this.dispatcher, this.port := dispatcher, port;
    }

    predicate IsValid() {
      dispatcher != null && port != 0
    }
  }

  /** The server block of a config file. */
  function ServerBlockOf(text: string): Block {
    match ParseText(text)
    case None => []
    case Some(b) => ServerBlock(b)
  }

  /** A dispatcher is made if the text is accepted and a location is kept. */
  predicate HasRoutes(text: string) {
    ParseText(text).Some? && Kept(ServerBlockOf(text)) != []
  }

  /** `initialize_from_args` behind the check of the arguments, with an empty registry. */
  method InitializeFromText(text: string) returns (result: ServerInitResult, registry: HandlerRegistry)
    requires PortsFit(ServerBlockOf(text))
    ensures result.dispatcher != null <==> HasRoutes(text)
    ensures result.port == if HasRoutes(text) then PortOf(ServerBlockOf(text), DEFAULT_PORT) else 0
    ensures result.dispatcher != null ==>
              && result.dispatcher.locations == Kept(ServerBlockOf(text))
              && registry.factories == Registered(map[], result.dispatcher.locations)
  {
    registry := new HandlerRegistry();
    var config := new NginxConfig();
    var input := new InputStream(text);
    var parsed, m, stack, mine, tree := Parse(input, config);
    if !parsed {
      result := new ServerInitResult(null, 0);
      return;
    }
    assert config.statements[0..] == config.statements;
    result := InitializeFromConfig(config, registry, m.top.closed, tree);
  }

  /** The part behind the parser. */
  method InitializeFromConfig(config: NginxConfig, registry: HandlerRegistry, ghost b: Block, ghost tree: set<object>)
    returns (result: ServerInitResult)
    requires StatementsAre(config.statements, b, tree) && registry !in tree && PortsFit(ServerBlock(b))
    modifies registry
    ensures result.dispatcher != null <==> Kept(ServerBlock(b)) != []
    ensures result.port == if Kept(ServerBlock(b)) != [] then PortOf(ServerBlock(b), DEFAULT_PORT) else 0
    ensures result.dispatcher != null ==>
              && result.dispatcher.locations == Kept(ServerBlock(b))
              && registry.factories == Registered(old(registry.factories), Kept(ServerBlock(b)))
  {
    var serverConfig := ExtractServerConfig(config, registry, DEFAULT_PORT, b, tree);
    var dispatcher := new RequestDispatcher();
    var ok := dispatcher.InitFromServerConfig(serverConfig);
    if !ok {
      result := new ServerInitResult(null, 0);
      return;
    }
    result := new ServerInitResult(dispatcher, serverConfig.port);
  }
}
