/**
 The route whitelist: which route sets are accepted, and which route a method and path select.
 */
module Routes {
  import opened Wrappers
  import opened Paths

  datatype RouteConfig = RouteConfig(
    id: string, method_: string, path: string, kind: string, parser: string, interceptors: seq<string>)

  datatype Pattern = Exact(method_: string, path: string) | Template(method_: string, prefix: string, suffix: string)

  const PLACEHOLDER := "{model}"

  // ----- Patterns -----

  predicate ModelChar(c: char) {
    'a' <= c <= 'z' || 'A' <= c <= 'Z' || '0' <= c <= '9' || c == '.' || c == '_' || c == '-'
  }

  predicate ValidModel(model: string) {
    model != "" && forall i :: 0 <= i < |model| ==> ModelChar(model[i])
  }

  predicate TokenChar(c: char) {
    'A' <= c <= 'Z' || '0' <= c <= '9' || c in "!#$%&'*+-.^_`|~"
  }

  predicate ValidMethod(name: string) {
    name != "" && forall i :: 0 <= i < |name| ==> TokenChar(name[i])
  }

  predicate ValidPath(path: string) {
    && path != "" && path[0] == '/' && (path == "/" || path[|path| - 1] != '/')
    && !Contains(path, "//") && !ContainsAny(path, "\\") && !ContainsAny(path, "?#")
    && (forall i :: 0 <= i < |path| ==> ' ' < path[i] && path[i] != 127 as char)
    && !SlashHidden(path)
    && var decoded := Unescape(WithModel(path));
    && decoded.Some? && !ContainsAny(decoded.value, "\\") && !DotSegment(decoded.value)
  }

  /** Every placeholder replaced by a word. */
  function WithModel(path: string): string
    decreases |path|
  {
    match IndexOf(path, PLACEHOLDER)
    case None => path
    case Some(i) => path[..i] + "model" + WithModel(path[i + |PLACEHOLDER|..])
  }

  /** The pattern a route stands for, if it is well formed. */
  function ParsePattern(route: RouteConfig): Option<Pattern> {
    if !ValidMethod(route.method_) || !ValidPath(route.path) then None
    else if route.kind == "exact" then
      if ContainsAny(route.path, "{}") then None else Some(Exact(route.method_, route.path))
    else if route.kind == "template" then
      match IndexOf(route.path, PLACEHOLDER)
      case None => None
      case Some(i) =>
        var prefix, suffix := route.path[..i], route.path[i + |PLACEHOLDER|..];
        if Contains(suffix, PLACEHOLDER) || ContainsAny(prefix + suffix, "{}") then None
        else if !HasSuffix(prefix, "/") || Contains(suffix, "/") then None
        else if suffix != "" && suffix[0] != ':' then None
        else Some(Template(route.method_, prefix, suffix))
    else None
  }

  predicate TemplateMatches(prefix: string, suffix: string, path: string) {
    && prefix <= path && HasSuffix(path, suffix) && |path| - |suffix| >= |prefix|
    && ValidModel(path[|prefix|..|path| - |suffix|])
  }

  predicate PatternsOverlap(left: Pattern, right: Pattern) {
    && left.method_ == right.method_
    && match (left, right)
       case (Exact(_, a), Exact(_, b)) => a == b
       case (Exact(_, a), Template(_, prefix, suffix)) => TemplateMatches(prefix, suffix, a)
       case (Template(_, prefix, suffix), Exact(_, b)) => TemplateMatches(prefix, suffix, b)
       case (Template(_, prefix, suffix), Template(_, prefix', suffix')) => prefix == prefix' && suffix == suffix'
  }

  /** What it means for a request to match a pattern. */
  predicate Matches(pattern: Pattern, name: string, path: string) {
    && pattern.method_ == name
    && match pattern
       case Exact(_, p) => path == p
       case Template(_, prefix, suffix) => TemplateMatches(prefix, suffix, path)
  }

  /** The last slash ends the prefix, and the first colon after it starts the suffix. */
  lemma TemplateUnique(prefix: string, suffix: string, prefix': string, suffix': string, path: string)
    requires HasSuffix(prefix, "/") && '/' !in suffix && (suffix != "" ==> suffix[0] == ':')
    requires HasSuffix(prefix', "/") && '/' !in suffix' && (suffix' != "" ==> suffix'[0] == ':')
    requires TemplateMatches(prefix, suffix, path) && TemplateMatches(prefix', suffix', path)
    ensures prefix == prefix' && suffix == suffix'
  {
    LastSlash(prefix, suffix, path);
    LastSlash(prefix', suffix', path);
    assert |prefix| == |prefix'|;
    FirstColon(prefix, suffix, path);
    FirstColon(prefix', suffix', path);
    SuffixAtMost(prefix, suffix, suffix', path);
    SuffixAtMost(prefix, suffix', suffix, path);
    assert suffix == path[|path| - |suffix|..] && suffix' == path[|path| - |suffix'|..];
  }

  lemma LastSlash(prefix: string, suffix: string, path: string)
    requires HasSuffix(prefix, "/") && '/' !in suffix && TemplateMatches(prefix, suffix, path)
    ensures path[|prefix| - 1] == '/' && forall i :: |prefix| <= i < |path| ==> path[i] != '/'
  {
    assert prefix[|prefix| - 1..] == "/";
    assert prefix[|prefix| - 1] == '/';
    var model := path[|prefix|..|path| - |suffix|];
    forall i | |prefix| <= i < |path| ensures path[i] != '/' {
      if i < |path| - |suffix| {
        assert path[i] == model[i - |prefix|];
        assert ModelChar(model[i - |prefix|]);
      } else {
        assert path[i] == suffix[i - (|path| - |suffix|)];
      }
    }
  }

  lemma FirstColon(prefix: string, suffix: string, path: string)
    requires TemplateMatches(prefix, suffix, path)
    ensures forall i :: |prefix| <= i < |path| - |suffix| ==> path[i] != ':'
  {
    var model := path[|prefix|..|path| - |suffix|];
    forall i | |prefix| <= i < |path| - |suffix| ensures path[i] != ':' {
      assert path[i] == model[i - |prefix|];
      assert ModelChar(model[i - |prefix|]);
    }
  }

  /** A longer suffix would put a colon inside the other model. */
  lemma SuffixAtMost(prefix: string, suffix: string, other: string, path: string)
    requires other != "" ==> other[0] == ':'
    requires HasSuffix(path, other) && |path| - |other| >= |prefix|
    requires forall i :: |prefix| <= i < |path| - |suffix| ==> path[i] != ':'
    ensures |other| <= |suffix|
  {
    if other != "" {
      assert path[|path| - |other|] == path[|path| - |other|..][0];
    }
  }

  lemma ContainsSlash(s: string)
    ensures Contains(s, "/") <==> '/' in s
  {
    if s != [] {
      ContainsSlash(s[1..]);
      assert "/" <= s <==> s[0] == '/';
      assert s == [s[0]] + s[1..];
    }
  }

  /** Two accepted patterns that one request matches overlap. */
  lemma MatchesOverlap(a: RouteConfig, b: RouteConfig, name: string, path: string)
    requires ParsePattern(a).Some? && ParsePattern(b).Some?
    requires Matches(ParsePattern(a).value, name, path) && Matches(ParsePattern(b).value, name, path)
    ensures PatternsOverlap(ParsePattern(a).value, ParsePattern(b).value)
  {
    hide TemplateMatches;
    hide ValidPath;
    var l, r := ParsePattern(a).value, ParsePattern(b).value;
    if l.Template? && r.Template? {
      ContainsSlash(l.suffix);
      ContainsSlash(r.suffix);
      TemplateUnique(l.prefix, l.suffix, r.prefix, r.suffix, path);
    }
  }

  /** Two accepted patterns overlap exactly when some request matches both. */
  lemma OverlapExactly(a: RouteConfig, b: RouteConfig)
    requires ParsePattern(a).Some? && ParsePattern(b).Some?
    ensures var l, r := ParsePattern(a).value, ParsePattern(b).value;
      PatternsOverlap(l, r) <==> exists name, path :: Matches(l, name, path) && Matches(r, name, path)
  {
    hide ParsePattern;
    hide TemplateMatches;
    var l, r := ParsePattern(a).value, ParsePattern(b).value;
    if PatternsOverlap(l, r) {
      var path := if l.Exact? then l.path else if r.Exact? then r.path else l.prefix + "m" + l.suffix;
      if l.Template? {
        ModelFits(l.prefix, "m", l.suffix);
      }
      assert Matches(l, l.method_, path) && Matches(r, l.method_, path);
    }
    if name, path :| Matches(l, name, path) && Matches(r, name, path) {
      MatchesOverlap(a, b, name, path);
    }
  }

  lemma ModelFits(prefix: string, model: string, suffix: string)
    ensures TemplateMatches(prefix, suffix, prefix + model + suffix) <==> ValidModel(model)
  {
    var path := prefix + model + suffix;
    assert path[..|prefix|] == prefix && path[|path| - |suffix|..] == suffix;
    assert path[|prefix|..|path| - |suffix|] == model;
  }

  /** A template matches the paths that fill its placeholder with a model name. */
  lemma ModelExactly(prefix: string, suffix: string, path: string)
    ensures TemplateMatches(prefix, suffix, path) <==>
      exists model :: path == prefix + model + suffix && IsName(model)
  {
    hide ValidModel;
    if TemplateMatches(prefix, suffix, path) {
      var model := path[|prefix|..|path| - |suffix|];
      assert path == prefix + model + suffix;
      NameExactly(model);
    }
    if model :| path == prefix + model + suffix && IsName(model) {
      ModelFits(prefix, model, suffix);
      NameExactly(model);
    }
  }

  /** Letters, digits, dots, underscores and dashes, at least one. */
  ghost predicate IsName(model: string) {
    model != "" && forall c :: c in model ==>
      48 <= c as int < 58 || 65 <= c as int < 91 || 97 <= c as int < 123 || c == '.' || c == '_' || c == '-'
  }

  lemma NameExactly(model: string)
    ensures ValidModel(model) <==> IsName(model)
  {
    if IsName(model) {
      forall i | 0 <= i < |model| ensures ModelChar(model[i]) {
        assert model[i] in model;
      }
    }
  }

  // ----- Route sets -----

  predicate NoRepeats(s: seq<string>) {
    forall i, j :: 0 <= i < j < |s| ==> s[i] != s[j]
  }

  predicate RouteValid(route: RouteConfig) {
    && !Blank(route.id) && route.parser != "" && Trimmed(route.parser)
    && ParsePattern(route).Some? && NoRepeats(route.interceptors)
  }

  /** Valid routes with distinct ids, no two of which overlap. */
  ghost predicate Accepted(routes: seq<RouteConfig>) {
    && (forall i :: 0 <= i < |routes| ==> RouteValid(routes[i]))
    && (forall i, j :: 0 <= i < j < |routes| ==> routes[i].id != routes[j].id)
    && (forall i, j :: 0 <= i < j < |routes| ==>
          !PatternsOverlap(ParsePattern(routes[i]).value, ParsePattern(routes[j]).value))
  }

  method ValidateRoutes(routes: seq<RouteConfig>) returns (ok: bool)
    ensures ok <==> Accepted(routes)
  {
    hide ParsePattern;
    hide PatternsOverlap;
    var ids: set<string> := {};
    var patterns: seq<Pattern> := [];
    for index := 0 to |routes|
      invariant Accepted(routes[..index])
      invariant ids == set i | 0 <= i < index :: routes[i].id
      invariant |patterns| == index
      invariant forall i :: 0 <= i < index ==> ParsePattern(routes[i]) == Some(patterns[i])
    {
      var route := routes[index];
      assert routes[..index + 1] == routes[..index] + [route];
      if !RouteValid(route) || route.id in ids {
        assert !Accepted(routes);
        return false;
      }
      var pattern := ParsePattern(route).value;
      for k := 0 to |patterns|
        invariant forall j :: 0 <= j < k ==> !PatternsOverlap(patterns[j], pattern)
      {
        if PatternsOverlap(patterns[k], pattern) {
          assert ParsePattern(routes[k]).value == patterns[k];
          return false;
        }
      }
      ids, patterns := ids + {route.id}, patterns + [pattern];
    }
    assert routes[..|routes|] == routes;
    return true;
  }

  ghost predicate RouteMatches(route: RouteConfig, name: string, path: string) {
    ParsePattern(route).Some? && Matches(ParsePattern(route).value, name, path)
  }

  /** In an accepted set at most one route matches any method and path. */
  lemma AtMostOneRoute(routes: seq<RouteConfig>, name: string, path: string, i: nat, j: nat)
    requires Accepted(routes) && i < |routes| && j < |routes|
    requires RouteMatches(routes[i], name, path) && RouteMatches(routes[j], name, path)
    ensures i == j
  {
    hide ParsePattern;
    hide PatternsOverlap;
    hide Matches;
    MatchesOverlap(routes[i], routes[j], name, path);
    MatchesOverlap(routes[j], routes[i], name, path);
  }

  // ----- Matching -----

  datatype CompiledRoute = CompiledRoute(
    routeID: string, parser: string, interceptors: seq<string>, prefix: string, suffix: string)

  datatype Match = Match(routeID: string, parser: string, interceptors: seq<string>, model: Option<string>)

  datatype RouteTable = RouteTable(
    exact: map<string, CompiledRoute>, templates: map<string, seq<CompiledRoute>>,
    exactPaths: seq<string>, templatePrefixes: seq<string>)

  function RouteKey(name: string, path: string): string {
    name + "\0" + path
  }

  /** Paths whose structure decoding cannot change. */
  predicate SafeEscapedPath(path: string) {
    && path != "" && path[0] == '/' && !Contains(path, "//") && !ContainsAny(path, "\\") && !ContainsAny(path, "?#")
    && !SlashHidden(path)
    && var decoded := Unescape(path);
    && decoded.Some? && !ContainsAny(decoded.value, "\\") && !DotSegment(decoded.value)
  }

  function CompileRoute(route: RouteConfig): CompiledRoute
    requires ParsePattern(route).Some?
  {
    var pattern := ParsePattern(route).value;
    CompiledRoute(route.id, route.parser, route.interceptors,
                  if pattern.Template? then pattern.prefix else "", if pattern.Template? then pattern.suffix else "")
  }

  function MakeMatch(route: CompiledRoute, model: Option<string>): Match {
    Match(route.routeID, route.parser, route.interceptors, model)
  }

  /** What a matching route answers. */
  ghost function MatchOf(route: RouteConfig, path: string): Match
    requires ParsePattern(route).Some?
  {
    var pattern := ParsePattern(route).value;
    Match(route.id, route.parser, route.interceptors,
          if pattern.Template? && |pattern.prefix| + |pattern.suffix| <= |path|
          then Some(path[|pattern.prefix|..|path| - |pattern.suffix|]) else None)
  }

  /** A key names one method and one path. */
  lemma RouteKeyInjective(name: string, path: string, name': string, path': string)
    requires '\0' !in name && '\0' !in path && RouteKey(name, path) == RouteKey(name', path')
    ensures name == name' && path == path'
  {
    var key := RouteKey(name, path);
    assert key[|name|] == '\0' && key[|name'|] == '\0';
    assert forall i :: 0 <= i < |key| && i != |name| ==> key[i] in name || key[i] in path;
    assert |name| == |name'|;
    assert key[..|name|] == name && key[..|name|] == name';
    assert key[|name| + 1..] == path && key[|name| + 1..] == path';
  }

  predicate IsExact(route: RouteConfig) {
    ParsePattern(route).Some? && ParsePattern(route).value.Exact?
  }

  predicate IsTemplate(route: RouteConfig) {
    ParsePattern(route).Some? && ParsePattern(route).value.Template?
  }

  ghost predicate ExactNamed(routes: seq<RouteConfig>, key: string, compiled: CompiledRoute) {
    exists i :: 0 <= i < |routes| && IsExact(routes[i]) && key == RouteKey(routes[i].method_, routes[i].path) &&
      compiled == CompileRoute(routes[i])
  }

  ghost predicate TemplateNamed(routes: seq<RouteConfig>, name: string, compiled: CompiledRoute) {
    exists i :: 0 <= i < |routes| && IsTemplate(routes[i]) && routes[i].method_ == name &&
      compiled == CompileRoute(routes[i])
  }

  ghost predicate ExactProtected(routes: seq<RouteConfig>, path: string) {
    exists i :: 0 <= i < |routes| && IsExact(routes[i]) && path == Last(Forms(routes[i].path))
  }

  ghost predicate PrefixProtected(routes: seq<RouteConfig>, prefix: string) {
    exists i :: 0 <= i < |routes| && IsTemplate(routes[i]) && prefix == Last(Forms(CompileRoute(routes[i]).prefix))
  }

  /** The tables hold the routes, all of them and nothing else. */
  ghost predicate CompiledFrom(m: RouteTable, routes: seq<RouteConfig>) {
    && (forall key :: key in m.exact ==> ExactNamed(routes, key, m.exact[key]))
    && (forall key, c :: ExactNamed(routes, key, c) ==> key in m.exact)
    && (forall name, c :: name in m.templates && c in m.templates[name] ==> TemplateNamed(routes, name, c))
    && (forall name, c :: TemplateNamed(routes, name, c) ==> name in m.templates && c in m.templates[name])
    && (forall path :: path in m.exactPaths <==> ExactProtected(routes, path))
    && (forall prefix :: prefix in m.templatePrefixes <==> PrefixProtected(routes, prefix))
  }

  method Compile(routes: seq<RouteConfig>) returns (r: Option<RouteTable>)
    ensures r.Some? <==> Accepted(routes)
    ensures r.Some? ==> CompiledFrom(r.value, routes)
  {
    hide ParsePattern;
    hide PatternsOverlap;
    hide CompiledFrom;
    var ok := ValidateRoutes(routes);
    if !ok {
      return None;
    }
    var m := RouteTable(map[], map[], [], []);
    CompiledNothing(m);
    for index := 0 to |routes|
      invariant CompiledFrom(m, routes[..index])
    {
      var route := routes[index];
      var compiled := CompileRoute(route);
      assert routes[..index + 1] == routes[..index] + [route];
      if IsExact(route) {
        var decoded := FullyUnescape(route.path);
        CompileExact(m, routes[..index], route);
        m := m.(exact := m.exact[RouteKey(route.method_, route.path) := compiled],
                exactPaths := m.exactPaths + [decoded]);
      } else {
        var decoded := FullyUnescape(compiled.prefix);
        CompileTemplate(m, routes[..index], route);
        var others := if route.method_ in m.templates then m.templates[route.method_] else [];
        m := m.(templates := m.templates[route.method_ := others + [compiled]],
                templatePrefixes := m.templatePrefixes + [decoded]);
      }
    }
    assert routes[..|routes|] == routes;
    return Some(m);
  }

  lemma CompiledNothing(m: RouteTable)
    requires m == RouteTable(map[], map[], [], [])
    ensures CompiledFrom(m, [])
  {
  }

  lemma NamedSnoc(routes: seq<RouteConfig>, route: RouteConfig)
    requires ParsePattern(route).Some?
    ensures forall key, c :: ExactNamed(routes + [route], key, c) <==>
              ExactNamed(routes, key, c) ||
                (IsExact(route) && key == RouteKey(route.method_, route.path) && c == CompileRoute(route))
    ensures forall name, c :: TemplateNamed(routes + [route], name, c) <==>
              TemplateNamed(routes, name, c) || (IsTemplate(route) && name == route.method_ && c == CompileRoute(route))
    ensures forall path :: ExactProtected(routes + [route], path) <==>
              ExactProtected(routes, path) || (IsExact(route) && path == Last(Forms(route.path)))
    ensures forall prefix :: PrefixProtected(routes + [route], prefix) <==>
              PrefixProtected(routes, prefix) ||
                (IsTemplate(route) && prefix == Last(Forms(CompileRoute(route).prefix)))
  {
    hide ParsePattern;
    hide Forms;
    var all := routes + [route];
    assert all[|routes|] == route;
    assert forall i :: 0 <= i < |routes| ==> all[i] == routes[i];
  }

  lemma CompileExact(m: RouteTable, routes: seq<RouteConfig>, route: RouteConfig)
    requires CompiledFrom(m, routes) && IsExact(route)
    ensures CompiledFrom(
              m.(exact := m.exact[RouteKey(route.method_, route.path) := CompileRoute(route)],
                 exactPaths := m.exactPaths + [Last(Forms(route.path))]), routes + [route])
  {
    hide ExactNamed;
    hide TemplateNamed;
    hide ExactProtected;
    hide PrefixProtected;
    hide ParsePattern;
    hide Forms;
    NamedSnoc(routes, route);
  }

  lemma CompileTemplate(m: RouteTable, routes: seq<RouteConfig>, route: RouteConfig)
    requires CompiledFrom(m, routes) && IsTemplate(route)
    ensures var others := if route.method_ in m.templates then m.templates[route.method_] else [];
            CompiledFrom(
              m.(templates := m.templates[route.method_ := others + [CompileRoute(route)]],
                 templatePrefixes := m.templatePrefixes + [Last(Forms(CompileRoute(route).prefix))]), routes + [route])
  {
    hide ExactNamed;
    hide TemplateNamed;
    hide ExactProtected;
    hide PrefixProtected;
    hide ParsePattern;
    hide Forms;
    NamedSnoc(routes, route);
  }

  /** The answer a route set gives: the one matching route, for a safe path. */
  ghost predicate Answer(routes: seq<RouteConfig>, name: string, path: string, r: Option<Match>) {
    && (r.None? ==> !SafeEscapedPath(path) || forall x :: x in routes ==> !RouteMatches(x, name, path))
    && (r.Some? ==> SafeEscapedPath(path))
    && (r.Some? ==> exists x :: x in routes && RouteMatches(x, name, path) && r.value == MatchOf(x, path))
  }

  method MatchRequest(m: RouteTable, name: string, path: string, ghost routes: seq<RouteConfig>)
    returns (r: Option<Match>)
    requires Accepted(routes) && CompiledFrom(m, routes)
    ensures Answer(routes, name, path, r)
  {
    hide Accepted;
    hide ParsePattern;
    hide SafeEscapedPath;
    hide TemplateMatches;
    if !SafeEscapedPath(path) {
      return None;
    }
    var key := RouteKey(name, path);
    if key in m.exact {
      ExactFound(m, routes, name, path);
      return Some(MakeMatch(m.exact[key], None));
    }
    var templates := if name in m.templates then m.templates[name] else [];
    for i := 0 to |templates|
      invariant forall k :: 0 <= k < i ==> !TemplateMatches(templates[k].prefix, templates[k].suffix, path)
    {
      var route := templates[i];
      if TemplateMatches(route.prefix, route.suffix, path) {
        ModelInPath(route.prefix, route.suffix, path);
        TemplateFound(m, routes, name, path, route);
        return Some(MakeMatch(route, Some(path[|route.prefix|..|path| - |route.suffix|])));
      }
    }
    NothingFound(m, routes, name, path, templates);
    return None;
  }

  lemma ModelInPath(prefix: string, suffix: string, path: string)
    requires TemplateMatches(prefix, suffix, path)
    ensures |prefix| + |suffix| <= |path|
  {
  }

  /** Accepted methods and paths are free of the separator. */
  lemma KeyClean(route: RouteConfig)
    requires ParsePattern(route).Some?
    ensures '\0' !in route.method_ && '\0' !in route.path
  {
    hide Contains;
    hide Unescape;
    hide SlashHidden;
    assert forall i :: 0 <= i < |route.method_| ==> TokenChar(route.method_[i]) && route.method_[i] != '\0';
  }

  lemma PatternOf(route: RouteConfig)
    requires ParsePattern(route).Some?
    ensures ParsePattern(route).value.method_ == route.method_
    ensures IsExact(route) ==> ParsePattern(route).value.path == route.path
  {
    hide ValidPath;
    hide ValidMethod;
  }

  lemma ExactFound(m: RouteTable, routes: seq<RouteConfig>, name: string, path: string)
    requires CompiledFrom(m, routes) && RouteKey(name, path) in m.exact
    ensures exists x ::
      && x in routes && RouteMatches(x, name, path)
      && MakeMatch(m.exact[RouteKey(name, path)], None) == MatchOf(x, path)
  {
    hide ParsePattern;
    hide RouteKey;
    var key := RouteKey(name, path);
    assert ExactNamed(routes, key, m.exact[key]);
    var i :| 0 <= i < |routes| && IsExact(routes[i]) && key == RouteKey(routes[i].method_, routes[i].path) &&
      m.exact[key] == CompileRoute(routes[i]);
    KeyClean(routes[i]);
    RouteKeyInjective(routes[i].method_, routes[i].path, name, path);
    PatternOf(routes[i]);
    assert RouteMatches(routes[i], name, path);
  }

  lemma TemplateFound(m: RouteTable, routes: seq<RouteConfig>, name: string, path: string, route: CompiledRoute)
    requires CompiledFrom(m, routes) && name in m.templates && route in m.templates[name]
    requires TemplateMatches(route.prefix, route.suffix, path) && |route.prefix| + |route.suffix| <= |path|
    ensures exists x :: x in routes && RouteMatches(x, name, path) &&
                        MakeMatch(route, Some(path[|route.prefix|..|path| - |route.suffix|])) == MatchOf(x, path)
  {
    hide ParsePattern;
    hide TemplateMatches;
    assert TemplateNamed(routes, name, route);
    var i :| 0 <= i < |routes| && IsTemplate(routes[i]) && routes[i].method_ == name &&
      route == CompileRoute(routes[i]);
    PatternOf(routes[i]);
    assert RouteMatches(routes[i], name, path);
  }

  lemma NothingFound(m: RouteTable, routes: seq<RouteConfig>, name: string, path: string, templates: seq<CompiledRoute>)
    requires CompiledFrom(m, routes) && RouteKey(name, path) !in m.exact
    requires templates == if name in m.templates then m.templates[name] else []
    requires forall k :: 0 <= k < |templates| ==> !TemplateMatches(templates[k].prefix, templates[k].suffix, path)
    ensures forall x :: x in routes ==> !RouteMatches(x, name, path)
  {
    hide ParsePattern;
    hide TemplateMatches;
    forall i | 0 <= i < |routes| ensures !RouteMatches(routes[i], name, path) {
      if ParsePattern(routes[i]).Some? {
        PatternOf(routes[i]);
        if IsExact(routes[i]) {
          assert ExactNamed(routes, RouteKey(routes[i].method_, routes[i].path), CompileRoute(routes[i]));
        } else {
          assert TemplateNamed(routes, routes[i].method_, CompileRoute(routes[i]));
        }
      }
    }
  }

  /** The answer does not depend on the order of the routes. */
  lemma OrderFree(routes: seq<RouteConfig>, routes': seq<RouteConfig>, name: string, path: string, r: Option<Match>,
                  r': Option<Match>)
    requires Accepted(routes) && Answer(routes, name, path, r) && Answer(routes', name, path, r')
    requires forall x :: x in routes <==> x in routes'
    ensures r == r'
  {
    hide Accepted;
    hide Matches;
    hide ParsePattern;
    hide SafeEscapedPath;
    if r.Some? && r'.Some? {
      var x :| x in routes && RouteMatches(x, name, path) && r.value == MatchOf(x, path);
      var y :| y in routes' && RouteMatches(y, name, path) && r'.value == MatchOf(y, path);
      var i :| 0 <= i < |routes| && routes[i] == x;
      assert y in routes;
      var j :| 0 <= j < |routes| && routes[j] == y;
      AtMostOneRoute(routes, name, path, i, j);
    }
  }
}
