/** What a config means for routing, told from the statements and tokens of its tree: which server block counts,
    which of its locations are routes, which route a URL takes, and which handler it gets there. */
module RoutingMeaning {
  import opened Wrappers
  import opened ConfigGrammar
  import opened ConfigText
  import opened EntityStoreValidation
  import opened Routing
  import RequestParser
  import UrlSegments

  // ---------- The meaning ----------

  /** A directive with a value. */
  predicate Says(s: Statement, name: string) {
    |s.tokens| >= 2 && s.tokens[0] == name
  }

  predicate LastSaying(b: Block, name: string, i: int) {
    0 <= i < |b| && Says(b[i], name) && forall j | i < j < |b| :: !Says(b[j], name)
  }

  predicate NeverSays(b: Block, name: string) {
    forall j | 0 <= j < |b| :: !Says(b[j], name)
  }

  /** The first statement that is a server block. */
  predicate IsTheServer(b: Block, i: int) {
    && 0 <= i < |b| && OpensServer(b[i])
    && forall j | 0 <= j < i :: !OpensServer(b[j])
  }

  predicate OpensServer(s: Statement) {
    s.WithBlock? && s.tokens != [] && s.tokens[0] == "server"
  }

  predicate IsHandlerName(name: string) {
    || name == "EchoHandler" || name == "StaticHandler" || name == "HealthHandler" || name == "SleepHandler"
    || name == "ApiHandler"
  }

  /** A location block whose last handler directive names one of the handlers. */
  ghost predicate IsRoute(s: Statement, name: string) {
    && Says(s, "location") && s.WithBlock? && IsHandlerName(name)
    && exists i :: LastSaying(s.block, "handler", i) && s.block[i].tokens[1] == name
  }

  /** The route at `j` is for the URL: its path is a prefix of it, not empty. */
  ghost predicate IsRouteFor(b: Block, url: string, j: int, name: string) {
    0 <= j < |b| && IsRoute(b[j], name) && b[j].tokens[1] != "" && b[j].tokens[1] <= url
  }

  /** Of the routes for the URL it has the longest path, and it is the last one with that path. */
  ghost predicate Takes(b: Block, url: string, j: int, name: string) {
    && IsRouteFor(b, url, j, name)
    && forall k, other | IsRouteFor(b, url, k, other) ::
         |b[k].tokens[1]| < |b[j].tokens[1]| || (|b[k].tokens[1]| == |b[j].tokens[1]| && k <= j)
  }

  /** The class that a name stands for. */
  predicate HasClass(f: Factory, name: string) {
    && (f.EchoFactory? <==> name == "EchoHandler")
    && (f.StaticFactory? <==> name == "StaticHandler")
    && (f.HealthFactory? <==> name == "HealthHandler")
    && (f.SleepFactory? <==> name == "SleepHandler")
    && (f.ApiFactory? <==> name == "ApiHandler")
  }

  /** Every other directive is an argument, with the value that it has last. */
  ghost predicate ArgsAre(args: map<string, string>, b: Block) {
    && (forall i, key | LastSaying(b, key, i) && key != "handler" :: key in args && args[key] == b[i].tokens[1])
    && (forall key | key in args :: key != "handler" && !NeverSays(b, key))
  }

  /** The handler that the route `s` asks for. */
  ghost predicate MadeFor(handler: Handler, s: Statement, name: string)
    requires |s.tokens| >= 2 && s.WithBlock?
  {
    && handler.Made? && HasClass(handler.factory, name)
    && handler.factory.location.path == s.tokens[1] && ArgsAre(handler.factory.location.args, s.block)
    && (handler.factory.ApiFactory? ==>
          && (NeverSays(s.block, "data_path") ==> handler.factory.dataPath == ".")
          && (forall i | LastSaying(s.block, "data_path", i) :: handler.factory.dataPath == s.block[i].tokens[1]))
  }

  /** What a server block says of a URL. */
  ghost predicate Means(b: Block, url: string, handler: Handler) {
    && (forall j, name | Takes(b, url, j, name) :: MadeFor(handler, b[j], name))
    && ((forall j, name :: !IsRouteFor(b, url, j, name)) ==> handler == NotFoundHandler)
  }

  // ---------- One location ----------

  lemma {:induction false} SaysLast(b: Block, name: string)
    ensures NeverSays(b, name) || exists i :: LastSaying(b, name, i)
  {
    if b != [] {
      var init, n := b[..|b| - 1], |b| - 1;
      SaysLast(init, name);
      if Says(b[n], name) {
        assert LastSaying(b, name, n);
      } else if i :| LastSaying(init, name, i) {
        assert LastSaying(b, name, i);
      } else {
        assert forall j | 0 <= j < n :: !Says(init[j], name);
      }
    }
  }

  /** The name that the location's fold has is that of the last handler directive. */
  lemma {:induction false} NameIsLast(path: string, b: Block)
    ensures LocationOf(path, b).path == path
    ensures forall i | LastSaying(b, "handler", i) :: LocationOf(path, b).handlerName == b[i].tokens[1]
    ensures NeverSays(b, "handler") ==> LocationOf(path, b).handlerName == ""
  {
    if b != [] {
      var init, n := b[..|b| - 1], |b| - 1;
      NameIsLast(path, init);
      forall i | LastSaying(b, "handler", i) ensures LocationOf(path, b).handlerName == b[i].tokens[1] {
        if i < n {
          assert !Says(b[n], "handler") && LastSaying(init, "handler", i);
        }
      }
      if NeverSays(b, "handler") {
        assert !Says(b[n], "handler");
        assert forall j | 0 <= j < n :: init[j] == b[j];
      }
    }
  }

  lemma {:induction false} ArgsAreLast(path: string, b: Block)
    ensures ArgsAre(LocationOf(path, b).args, b)
  {
    if b != [] {
      var init, n := b[..|b| - 1], |b| - 1;
      var args, before := LocationOf(path, b).args, LocationOf(path, init).args;
      ArgsAreLast(path, init);
      forall i, key | LastSaying(b, key, i) && key != "handler" ensures key in args && args[key] == b[i].tokens[1] {
        if i < n {
          assert !Says(b[n], key) && LastSaying(init, key, i);
        }
      }
      forall key | key in args ensures key != "handler" && !NeverSays(b, key) {
        if Says(b[n], key) {
          assert !NeverSays(b, key);
        } else {
          assert key in before;
          var j :| 0 <= j < |init| && Says(init[j], key);
          assert Says(b[j], key);
        }
      }
    }
  }

  lemma {:induction false} KnownNames(l: Location)
    ensures FactoryFor(l).Some? <==> IsHandlerName(l.handlerName)
    ensures FactoryFor(l).Some? ==> HasClass(FactoryFor(l).value, l.handlerName) && FactoryFor(l).value.location == l
  {
    NamesDiffer();
  }

  lemma {:induction false} NamesDiffer()
    ensures "EchoHandler" != "StaticHandler" && "EchoHandler" != "HealthHandler" && "EchoHandler" != "SleepHandler"
    ensures "EchoHandler" != "ApiHandler" && "StaticHandler" != "HealthHandler" && "StaticHandler" != "SleepHandler"
    ensures "StaticHandler" != "ApiHandler" && "HealthHandler" != "SleepHandler" && "HealthHandler" != "ApiHandler"
    ensures "SleepHandler" != "ApiHandler"
  {
    assert "EchoHandler"[0] != "StaticHandler"[0] && "EchoHandler"[0] != "HealthHandler"[0];
    assert "StaticHandler"[1] != "SleepHandler"[1] && "EchoHandler"[0] != "SleepHandler"[0];
    assert "ApiHandler"[0] != "EchoHandler"[0] && "ApiHandler"[0] != "StaticHandler"[0];
    assert "ApiHandler"[0] != "HealthHandler"[0] && "ApiHandler"[0] != "SleepHandler"[0];
    assert "StaticHandler"[0] != "HealthHandler"[0] && "HealthHandler"[0] != "SleepHandler"[0];
  }

  /** A statement is kept exactly if it is a route. */
  lemma {:induction false} KeptIsRoute(s: Statement)
    ensures KeptOf(s) != [] ==>
              && IsLocation(s) && KeptOf(s) == [LocationOf(s.tokens[1], s.block)]
              && IsRoute(s, KeptOf(s)[0].handlerName)
    ensures forall name | IsRoute(s, name) ::
              KeptOf(s) == [LocationOf(s.tokens[1], s.block)] && KeptOf(s)[0].handlerName == name
  {
    if IsLocation(s) {
      var l := LocationOf(s.tokens[1], s.block);
      NameIsLast(s.tokens[1], s.block);
      SaysLast(s.block, "handler");
      KnownNames(l);
      assert !IsHandlerName("");
    }
  }

  lemma {:induction false} MadeForRoute(s: Statement, name: string)
    requires IsRoute(s, name)
    ensures FactoryFor(LocationOf(s.tokens[1], s.block)).Some?
    ensures MadeFor(Made(FactoryFor(LocationOf(s.tokens[1], s.block)).value), s, name)
  {
    var l := LocationOf(s.tokens[1], s.block);
    KeptIsRoute(s);
    NameIsLast(s.tokens[1], s.block);
    ArgsAreLast(s.tokens[1], s.block);
    KnownNames(l);
    SaysLast(s.block, "data_path");
    assert "data_path"[0] != "handler"[0];
  }

  // ---------- All locations ----------

  lemma {:induction false} KeptFrom(b: Block, l: Location) returns (j: int)
    requires l in Kept(b)
    ensures 0 <= j < |b| && KeptOf(b[j]) == [l]
  {
    var init, n := b[..|b| - 1], |b| - 1;
    if l in KeptOf(b[n]) {
      j := n;
    } else {
      j := KeptFrom(init, l);
    }
  }

  lemma {:induction false} RouteIsKept(b: Block, j: int)
    requires 0 <= j < |b| && KeptOf(b[j]) != []
    ensures KeptOf(b[j])[0] in Kept(b)
  {
    if j < |b| - 1 {
      RouteIsKept(b[..|b| - 1], j);
    }
  }

  /** The last kept location with a path is the last route with it. */
  lemma {:induction false} LastRoute(b: Block, j: int, path: string)
    requires 0 <= j < |b| && KeptOf(b[j]) != [] && KeptOf(b[j])[0].path == path
    requires forall k | j < k < |b| && KeptOf(b[k]) != [] :: KeptOf(b[k])[0].path != path
    ensures LastWith(Kept(b), path) == Some(KeptOf(b[j])[0])
  {
    var init, n := b[..|b| - 1], |b| - 1;
    var kept := Kept(init);
    if KeptOf(b[n]) == [] {
      assert Kept(b) == kept;
      LastRoute(init, j, path);
    } else {
      assert Kept(b) == kept + [KeptOf(b[n])[0]] && Kept(b)[..|kept|] == kept;
      if j < n {
        LastRoute(init, j, path);
      }
    }
  }

  lemma {:induction false} MatchesIsPrefix(l: Location, url: string)
    ensures Matches(l, url) <==> l.path != "" && l.path <= url
  {
  }

  /** A kept location that matches is a route for the URL, and the other way round. */
  lemma {:induction false} MatchIsRoute(b: Block, url: string, l: Location) returns (k: int)
    requires l in Kept(b) && Matches(l, url)
    ensures IsRouteFor(b, url, k, l.handlerName) && b[k].tokens[1] == l.path && KeptOf(b[k]) == [l]
  {
    k := KeptFrom(b, l);
    KeptIsRoute(b[k]);
    NameIsLast(b[k].tokens[1], b[k].block);
    MatchesIsPrefix(l, url);
  }

  lemma {:induction false} RouteMatches(b: Block, url: string, j: int, name: string)
    requires IsRouteFor(b, url, j, name)
    ensures KeptOf(b[j]) != [] && KeptOf(b[j])[0] in Kept(b)
    ensures KeptOf(b[j])[0].path == b[j].tokens[1] && Matches(KeptOf(b[j])[0], url)
    ensures KeptOf(b[j])[0] == LocationOf(b[j].tokens[1], b[j].block)
  {
    KeptIsRoute(b[j]);
    NameIsLast(b[j].tokens[1], b[j].block);
    RouteIsKept(b, j);
    MatchesIsPrefix(KeptOf(b[j])[0], url);
  }

  /** The best match has the path of the route that the URL takes. */
  lemma {:induction false} BestIsTaken(b: Block, url: string, j: int, name: string) returns (i: int)
    requires Takes(b, url, j, name)
    ensures IsBestMatch(Kept(b), url, i) && Kept(b)[i].path == b[j].tokens[1]
  {
    var kept, path := Kept(b), b[j].tokens[1];
    RouteMatches(b, url, j, name);
    var l := KeptOf(b[j])[0];
    var m :| 0 <= m < |kept| && kept[m] == l;
    BestMatchExists(kept, url);
    assert Matches(kept[m], url);
    i :| IsBestMatch(kept, url, i);
    var k := MatchIsRoute(b, url, kept[i]);
    assert |kept[i].path| == |path|;
    MatchesIsPrefix(kept[i], url);
    assert kept[i].path == url[..|path|] == path;
  }

  lemma {:induction false} TakenIsLast(b: Block, url: string, j: int, name: string)
    requires Takes(b, url, j, name)
    ensures LastWith(Kept(b), b[j].tokens[1]) == Some(LocationOf(b[j].tokens[1], b[j].block))
  {
    var path := b[j].tokens[1];
    RouteMatches(b, url, j, name);
    forall k | j < k < |b| && KeptOf(b[k]) != [] ensures KeptOf(b[k])[0].path != path {
      KeptIsRoute(b[k]);
      NameIsLast(b[k].tokens[1], b[k].block);
      if KeptOf(b[k])[0].path == path {
        assert IsRouteFor(b, url, k, KeptOf(b[k])[0].handlerName);
      }
    }
    LastRoute(b, j, path);
  }

  /** Dispatch follows the meaning of the server block. */
  lemma {:induction false} DispatchMeans(b: Block, url: string, handler: Handler)
    requires Dispatches(Kept(b), url, handler)
    ensures Means(b, url, handler)
  {
    forall j, name | Takes(b, url, j, name) ensures MadeFor(handler, b[j], name) {
      var i := BestIsTaken(b, url, j, name);
      TakenIsLast(b, url, j, name);
      MadeForRoute(b[j], name);
    }
    if forall j, name :: !IsRouteFor(b, url, j, name) {
      forall i | 0 <= i < |Kept(b)| ensures !Matches(Kept(b)[i], url) {
        if Matches(Kept(b)[i], url) {
          var k := MatchIsRoute(b, url, Kept(b)[i]);
        }
      }
    }
  }

  lemma {:induction false} ServerBlockIs(b: Block)
    ensures forall i | IsTheServer(b, i) :: ServerBlock(b) == b[i].block
    ensures (forall i :: !IsTheServer(b, i)) ==> ServerBlock(b) == []
    decreases |b|
  {
    if b != [] {
      if IsServer(b[0]) {
        assert IsTheServer(b, 0);
      } else {
        ServerBlockIs(b[1..]);
        forall i ensures IsTheServer(b, i) <==> IsTheServer(b[1..], i - 1) {
          if IsTheServer(b[1..], i - 1) {
            forall j | 0 <= j < i ensures !OpensServer(b[j]) {
              assert j > 0 ==> !OpensServer(b[1..][j - 1]);
            }
          }
        }
        if forall i :: !IsTheServer(b, i) {
          forall i ensures !IsTheServer(b[1..], i) {
            assert !IsTheServer(b, i + 1);
          }
        }
      }
    }
  }

  ghost predicate HasRoute(b: Block) {
    exists j, name :: 0 <= j < |b| && IsRoute(b[j], name)
  }

  lemma {:induction false} HasRouteIsKept(b: Block)
    ensures HasRoute(b) <==> Kept(b) != []
  {
    if j, name :| 0 <= j < |b| && IsRoute(b[j], name) {
      KeptIsRoute(b[j]);
      RouteIsKept(b, j);
    }
    if Kept(b) != [] {
      var j := KeptFrom(b, Kept(b)[0]);
      KeptIsRoute(b[j]);
    }
  }

  // ---------- The port ----------

  lemma {:induction false} ListeningIsLast(b: Block)
    ensures forall i | LastSaying(b, "listen", i) :: Listening(b) == Some(b[i].tokens[1])
    ensures NeverSays(b, "listen") ==> Listening(b) == None
  {
    if b != [] {
      var init, n := b[..|b| - 1], |b| - 1;
      if Says(b[n], "listen") {
        forall i | LastSaying(b, "listen", i) ensures i == n {
        }
      } else {
        ListeningIsLast(init);
        forall i | LastSaying(b, "listen", i) ensures LastSaying(init, "listen", i) {
        }
        assert NeverSays(b, "listen") ==> NeverSays(init, "listen");
      }
    }
  }

  /** The last listen directive gives the port: itself below 2^15, and modulo 2^16 for the socket; without one the
      port is the default. */
  lemma {:induction false} PortMeans(b: Block, i: int, n: nat, port: int16, defaultPort: int16)
    requires LastSaying(b, "listen", i) && b[i].tokens[1] == Decimal(n) && port == PortOf(b, defaultPort)
    ensures n < 0x8000 ==> port as int == n
    ensures port as int % 0x1_0000 == n % 0x1_0000
    ensures port == 0 <==> n % 0x1_0000 == 0
  {
    ListeningIsLast(b);
    SpelledPort(n, port);
  }

  lemma {:induction false} DefaultPort(b: Block, defaultPort: int16)
    requires NeverSays(b, "listen")
    ensures PortOf(b, defaultPort) == defaultPort
  {
    ListeningIsLast(b);
  }

  /** The number at the start of a text, behind spaces and a sign; a text that has none is 0. */
  lemma {:induction false} AtoiReads(spaces: string, sign: string, n: nat, rest: string)
    requires forall i | 0 <= i < |spaces| :: spaces[i] in " \t\n\U{0B}\U{0C}\r"
    requires (sign == "" || sign == "-" || sign == "+") && (rest == "" || !('0' <= rest[0] <= '9'))
    ensures sign == "-" ==> Atoi(spaces + (sign + (Decimal(n) + rest))) + n == 0
    ensures sign != "-" ==> Atoi(spaces + (sign + (Decimal(n) + rest))) == n
  {
    var digits := Decimal(n);
    var number := sign + (digits + rest);
    assert number[0] == if sign == "" then digits[0] else sign[0];
    SkipFront(spaces, number);
    NumberReads(spaces + number, sign, n, rest);
  }

  lemma {:induction false} NumberReads(s: string, sign: string, n: nat, rest: string)
    requires RequestParser.SkipSpaces(s) == sign + (Decimal(n) + rest)
    requires (sign == "" || sign == "-" || sign == "+") && (rest == "" || !('0' <= rest[0] <= '9'))
    ensures sign == "-" ==> Atoi(s) + n == 0
    ensures sign != "-" ==> Atoi(s) == n
  {
    var tail := Decimal(n) + rest;
    assert tail[0] == Decimal(n)[0];
    LeadingDigitsThen(Decimal(n), rest);
    ValueOfDecimal(n);
    if sign == "" {
      assert sign + tail == tail;
      UnsignedReads(s, tail, n);
    } else {
      SignedReads(s, sign[0], tail, n);
    }
  }

  lemma {:induction false} UnsignedReads(s: string, tail: string, n: nat)
    requires RequestParser.SkipSpaces(s) == tail && tail != "" && IsDigit(tail[0])
    requires Value(LeadingDigits(tail)) == n
    ensures Atoi(s) == n
  {
  }

  lemma {:induction false} SignedReads(s: string, sign: char, tail: string, n: nat)
    requires RequestParser.SkipSpaces(s) == [sign] + tail && (sign == '-' || sign == '+')
    requires Value(LeadingDigits(tail)) == n
    ensures sign == '-' ==> Atoi(s) + n == 0
    ensures sign == '+' ==> Atoi(s) == n
  {
    assert ([sign] + tail)[1..] == tail;
  }

  lemma {:induction false} SkipFront(spaces: string, s: string)
    requires forall i | 0 <= i < |spaces| :: spaces[i] in " \t\n\U{0B}\U{0C}\r"
    requires s != "" && !RequestParser.IsSpace(s[0])
    ensures RequestParser.SkipSpaces(spaces + s) == s
    decreases |spaces|
  {
    if spaces == "" {
      assert spaces + s == s;
    } else {
      assert (spaces + s)[1..] == spaces[1..] + s;
      SkipFront(spaces[1..], s);
    }
  }

  lemma {:induction false} LeadingDigitsThen(digits: string, rest: string)
    requires IsDigits(digits) && (rest == "" || !IsDigit(rest[0]))
    ensures LeadingDigits(digits + rest) == digits
    decreases |digits|
  {
    if digits == "" {
      assert digits + rest == rest;
    } else {
      assert (digits + rest)[1..] == digits[1..] + rest;
      LeadingDigitsThen(digits[1..], rest);
    }
  }

  // ---------- From the text of a config file to the handler of a URL ----------

  /** The statement at `i` is the server block of the config that the text is. */
  ghost predicate Configures(text: string, b: Block, i: int) {
    ParseText(text) == Some(b) && IsTheServer(b, i)
  }

  /** The server starts exactly if the text is accepted, a location is kept and the port is not 0; then every URL
      gets the handler that the statements of its server block ask for. */
  method Serve(text: string, url: string) returns (started: bool, handler: Handler)
    requires PortsFit(ServerBlockOf(text))
    ensures started <==>
            exists b: Block, i: int ::
              Configures(text, b, i) && HasRoute(b[i].block) && PortOf(b[i].block, 8080) != 0
    ensures started ==> forall b: Block, i: int | Configures(text, b, i) :: Means(b[i].block, url, handler)
  {
    var result, registry := InitializeFromText(text);
    started, handler := result.IsValid(), NotFoundHandler;
    StartMeans(text, started);
    if started {
      handler := result.dispatcher.CreateHandler(url, registry);
      DispatchAfterExtraction(map[], ServerBlockOf(text), url, handler);
      DispatchMeans(ServerBlockOf(text), url, handler);
      ServerBlockIs(ParseText(text).value);
    }
  }

  lemma {:induction false} StartMeans(text: string, started: bool)
    requires started == (HasRoutes(text) && PortOf(ServerBlockOf(text), DEFAULT_PORT) != 0)
    ensures started <==>
            exists b: Block, i: int ::
              Configures(text, b, i) && HasRoute(b[i].block) && PortOf(b[i].block, 8080) != 0
  {
    if ParseText(text).Some? {
      var b := ParseText(text).value;
      ServerBlockIs(b);
      HasRouteIsKept(ServerBlock(b));
      if started {
        var i :| IsTheServer(b, i);
        assert Configures(text, b, i);
      }
    }
  }
}
