/**
 Which unmatched paths may bypass auditing. Paths of configured routes, paths below them, and
 every spelling of these that decoding or letter case could turn into them stay protected.
 */
module Passthrough {
  import opened Wrappers
  import opened Paths
  import opened Routes

  type Folding = (string, string) -> bool

  /** A case-insensitive comparison that accepts at least what differs in ASCII case only. */
  ghost predicate FoldsCase(equal: Folding) {
    forall a, b :: FoldEq(a, b) ==> equal(a, b)
  }

  predicate UnsafePathForm(path: string) {
    || path == "" || path[0] != '/' || Contains(path, "//") || ContainsAny(path, "\\") || ContainsAny(path, "?#")
    || SlashHidden(path) || DotSegment(path)
  }

  predicate HasFoldedPrefix(equal: Folding, value: string, prefix: string) {
    |value| >= |prefix| && equal(value[..|prefix|], prefix)
  }

  predicate ProtectedBy(equal: Folding, form: string, exact: string) {
    equal(form, exact) || (exact != "/" && HasFoldedPrefix(equal, form, exact + "/"))
  }

  ghost predicate Protects(m: RouteTable, equal: Folding, form: string) {
    || (exists e :: e in m.exactPaths && ProtectedBy(equal, form, e))
    || (exists p :: p in m.templatePrefixes && HasFoldedPrefix(equal, form, p))
  }

  /** Paths that may bypass auditing: in none of their forms unsafe or protected. */
  ghost predicate Allowed(m: RouteTable, equal: Folding, path: string) {
    && SafeEscapedPath(path) && DecodesFully(path)
    && forall form :: form in Forms(path) ==> !UnsafePathForm(form) && !Protects(m, equal, form)
  }

  method AllowsPassthrough(m: RouteTable, equal: Folding, path: string) returns (allowed: bool)
    ensures allowed <==> Allowed(m, equal, path)
  {
    hide SafeEscapedPath;
    hide UnsafePathForm;
    hide Protects;
    hide Forms;
    hide DecodesFully;
    if !SafeEscapedPath(path) {
      return false;
    }
    var forms, complete := UnescapedForms(path);
    if !complete {
      return false;
    }
    for i := 0 to |forms|
      invariant forall k :: 0 <= k < i ==> !UnsafePathForm(forms[k]) && !Protects(m, equal, forms[k])
    {
      var protected := CheckForm(m, equal, forms[i]);
      if UnsafePathForm(forms[i]) || protected {
        return false;
      }
    }
    return true;
  }

  method CheckForm(m: RouteTable, equal: Folding, form: string) returns (protected: bool)
    ensures protected <==> Protects(m, equal, form)
  {
    hide ProtectedBy;
    hide HasFoldedPrefix;
    for i := 0 to |m.exactPaths|
      invariant forall k :: 0 <= k < i ==> !ProtectedBy(equal, form, m.exactPaths[k])
    {
      if ProtectedBy(equal, form, m.exactPaths[i]) {
        return true;
      }
    }
    for i := 0 to |m.templatePrefixes|
      invariant forall k :: 0 <= k < i ==> !HasFoldedPrefix(equal, form, m.templatePrefixes[k])
    {
      if HasFoldedPrefix(equal, form, m.templatePrefixes[i]) {
        return true;
      }
    }
    return false;
  }

  // ----- What is protected -----

  /** Some form of the path spells some form of an exact route, or lies below it. */
  ghost predicate SpellsExact(route: RouteConfig, path: string, j: nat, i: nat)
    requires j < |Forms(route.path)| && i < |Forms(path)|
  {
    var r, p := Forms(route.path)[j], Forms(path)[i];
    FoldEq(r, p) || (route.path != "/" && FoldPrefix(r, p) && |r| < |p| && p[|r|] == '/')
  }

  /** Some form of the path belongs to the family of a template route. */
  ghost predicate SpellsTemplate(prefix: string, path: string, j: nat, i: nat)
    requires j < |Forms(prefix)| && i < |Forms(path)|
  {
    FoldPrefix(Forms(prefix)[j], Forms(path)[i])
  }

  /** Nothing but the root path decodes to the root path. */
  lemma {:induction false} NotRoot(path: string, rounds: nat)
    requires |path| > 1 && path[0] == '/'
    ensures |Last(FormsFrom(path, rounds).0)| > 1
    decreases rounds
  {
    hide Unescape;
    if rounds > 0 && Unescape(path).Some? && Unescape(path).value != path {
      var rest := path[1..];
      assert path == "/" + rest;
      UnescapeUnfold(path);
      UnescapeShrinks(rest);
      UnescapeSlash(path);
      NotRoot(Unescape(path).value, rounds - 1);
    }
  }

  lemma ExactNeverAllowed(m: RouteTable, routes: seq<RouteConfig>, equal: Folding, route: RouteConfig, path: string,
                          j: nat, i: nat)
    requires CompiledFrom(m, routes) && FoldsCase(equal) && DecodesFully(path)
    requires route in routes && IsExact(route) && j < |Forms(route.path)| && i < |Forms(path)|
    requires SpellsExact(route, path, j, i)
    ensures exists form :: form in Forms(path) && Protects(m, equal, form)
  {
    hide ParsePattern;
    hide Forms;
    var k := FormsMeet(route.path, j, path, i);
    var last, form := Last(Forms(route.path)), Forms(path)[k];
    assert ExactProtected(routes, last);
    if FoldEq(Forms(route.path)[j], Forms(path)[i]) {
      assert form[..|last|] == form;
      assert FoldEq(form, last);
    } else {
      ExactIsAbsolute(route);
      assert |route.path| > 1;
      NotRootForms(route.path);
      var start := form[..|last| + 1];
      assert start == form[..|last|] + "/";
      assert FoldEq(start, last + "/");
    }
    assert ProtectedBy(equal, form, last);
    assert Protects(m, equal, form) && form in Forms(path);
  }

  lemma NotRootForms(path: string)
    requires |path| > 1 && path[0] == '/'
    ensures |Last(Forms(path))| > 1
  {
    NotRoot(path, MAX_ROUNDS);
  }

  lemma ExactIsAbsolute(route: RouteConfig)
    requires ParsePattern(route).Some?
    ensures route.path != "" && route.path[0] == '/' && (route.path != "/" ==> |route.path| > 1)
  {
    hide Contains;
    hide Unescape;
    hide SlashHidden;
    hide ValidMethod;
    assert route.path == [route.path[0]] + route.path[1..];
  }

  lemma TemplateNeverAllowed(m: RouteTable, routes: seq<RouteConfig>, equal: Folding, route: RouteConfig, path: string,
                             j: nat, i: nat)
    requires CompiledFrom(m, routes) && FoldsCase(equal) && DecodesFully(path)
    requires route in routes && IsTemplate(route)
    requires var prefix := CompileRoute(route).prefix;
             j < |Forms(prefix)| && i < |Forms(path)| && SpellsTemplate(prefix, path, j, i)
    ensures exists form :: form in Forms(path) && Protects(m, equal, form)
  {
    hide ParsePattern;
    hide Forms;
    var prefix := CompileRoute(route).prefix;
    var k := FormsMeet(prefix, j, path, i);
    var last, form := Last(Forms(prefix)), Forms(path)[k];
    assert PrefixProtected(routes, last);
    assert FoldEq(form[..|last|], last);
    assert HasFoldedPrefix(equal, form, last);
    assert Protects(m, equal, form) && form in Forms(path);
  }

  /** A path that any method matches is never let through. */
  method ClassifyMatched(m: RouteTable, equal: Folding, name: string, path: string, ghost routes: seq<RouteConfig>)
    returns (found: Option<Match>, allowed: bool)
    requires Accepted(routes) && CompiledFrom(m, routes) && FoldsCase(equal)
    ensures Answer(routes, name, path, found)
    ensures (exists method_, route :: route in routes && RouteMatches(route, method_, path)) ==> !allowed
    ensures found.Some? ==> !allowed
  {
    hide Accepted;
    hide CompiledFrom;
    hide FoldsCase;
    hide SafeEscapedPath;
    hide ParsePattern;
    hide Matches;
    hide Forms;
    hide Protects;
    found := MatchRequest(m, name, path, routes);
    allowed := AllowsPassthrough(m, equal, path);
    if allowed {
      forall method_, route | route in routes && RouteMatches(route, method_, path) ensures false {
        MatchedIsProtected(m, routes, equal, route, method_, path);
      }
    }
  }

  lemma MatchedIsProtected(m: RouteTable, routes: seq<RouteConfig>, equal: Folding, route: RouteConfig, name: string,
                           path: string)
    requires CompiledFrom(m, routes) && FoldsCase(equal) && DecodesFully(path)
    requires route in routes && RouteMatches(route, name, path)
    ensures exists form :: form in Forms(path) && Protects(m, equal, form)
  {
    hide ParsePattern;
    hide CompiledFrom;
    hide FoldsCase;
    hide Protects;
    PatternOf(route);
    assert Forms(path)[0] == path;
    if IsExact(route) {
      assert SpellsExact(route, path, 0, 0);
      ExactNeverAllowed(m, routes, equal, route, path, 0, 0);
    } else {
      var prefix := CompileRoute(route).prefix;
      assert path[..|prefix|] == prefix;
      assert SpellsTemplate(prefix, path, 0, 0);
      TemplateNeverAllowed(m, routes, equal, route, path, 0, 0);
    }
  }
}
