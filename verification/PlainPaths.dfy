/**
 What the path checks look for, position by position: which paths have the segments they seem to
 have, and what therefore holds of every path that a route matches or that is let through.
 */
module PlainPaths {
  import opened Wrappers
  import opened Paths
  import opened Routes
  import opened Passthrough

  ghost predicate OccursAt(s: string, i: int, part: string) {
    0 <= i && i + |part| <= |s| && s[i..i + |part|] == part
  }

  /** A segment of a path, from one slash or end to the next. */
  ghost predicate SegmentAt(path: string, i: int, part: string) {
    && OccursAt(path, i, part)
    && (i == 0 || path[i - 1] == '/') && (i + |part| == |path| || path[i + |part|] == '/')
  }

  /** An escape of a byte: its first digit, and the second in either case. */
  predicate EscapeAt(path: string, i: int, high: char, lows: string) {
    0 <= i && i + 2 < |path| && path[i] == '%' && path[i + 1] == high && path[i + 2] in lows
  }

  /** No segment is "." or "..". */
  ghost predicate NoDots(path: string) {
    forall i :: !SegmentAt(path, i, ".") && !SegmentAt(path, i, "..")
  }

  /** No slash or backslash is escaped. */
  ghost predicate NoHiddenSlash(path: string) {
    forall i :: !EscapeAt(path, i, '2', "fF") && !EscapeAt(path, i, '5', "cC")
  }

  /** Absolute, without an empty segment, a backslash, a query or a fragment. */
  ghost predicate Rooted(path: string) {
    && path != "" && path[0] == '/'
    && (forall i :: 0 <= i < |path| - 1 && path[i] == '/' ==> path[i + 1] != '/')
    && forall i :: 0 <= i < |path| ==> path[i] != '\\' && path[i] != '?' && path[i] != '#'
  }

  lemma OccursLater(s: string, i: int, part: string)
    requires s != [] && i > 0
    ensures OccursAt(s, i, part) <==> OccursAt(s[1..], i - 1, part)
  {
    if i + |part| <= |s| {
      assert s[1..][i - 1..i - 1 + |part|] == s[i..i + |part|];
    }
  }

  lemma {:induction false} ContainsExactly(s: string, part: string)
    ensures Contains(s, part) <==> exists i :: OccursAt(s, i, part)
  {
    if part <= s {
      assert OccursAt(s, 0, part);
    } else if s != [] {
      ContainsExactly(s[1..], part);
      forall i | i > 0 ensures OccursAt(s, i, part) <==> OccursAt(s[1..], i - 1, part) {
        OccursLater(s, i, part);
      }
      assert !OccursAt(s, 0, part);
      if Contains(s, part) {
        var i :| OccursAt(s[1..], i, part);
        assert OccursAt(s, i + 1, part);
      }
      if i :| OccursAt(s, i, part) {
        assert OccursAt(s[1..], i - 1, part);
      }
    }
  }

  /** The first segment, and the others. */
  lemma {:induction false} SplitExactly(s: string, part: string)
    requires '/' !in part
    ensures Split(s, '/')[0] == part <==> SegmentAt(s, 0, part)
    ensures part in Split(s, '/')[1..] <==> exists i :: i > 0 && SegmentAt(s, i, part)
  {
    if s == [] {
    } else {
      var rest := s[1..];
      forall i | i > 1 ensures SegmentAt(s, i, part) <==> SegmentAt(rest, i - 1, part) {
        OccursLater(s, i, part);
      }
      OccursLater(s, 1, part);
      if s[0] == '/' {
        SplitExactly(rest, part);
        assert Split(s, '/')[1..] == Split(rest, '/');
        assert SegmentAt(s, 1, part) <==> SegmentAt(rest, 0, part);
        SplitShifted(s, part);
      } else {
        if part != [] && part[0] == s[0] {
          SplitExactly(rest, part[1..]);
          FirstShifted(s, part);
        }
        SplitExactly(rest, part);
        assert Split(s, '/')[1..] == Split(rest, '/')[1..];
        assert !SegmentAt(s, 1, part);
        LaterShifted(s, part);
      }
    }
  }

  lemma SplitShifted(s: string, part: string)
    requires s != [] && s[0] == '/' && (SegmentAt(s, 1, part) <==> SegmentAt(s[1..], 0, part))
    requires forall i :: i > 1 ==> (SegmentAt(s, i, part) <==> SegmentAt(s[1..], i - 1, part))
    ensures (exists i :: i > 0 && SegmentAt(s, i, part)) <==>
      SegmentAt(s[1..], 0, part) || exists i :: i > 0 && SegmentAt(s[1..], i, part)
  {
    hide SegmentAt;
    if i :| i > 0 && SegmentAt(s, i, part) {
      assert i == 1 || SegmentAt(s[1..], i - 1, part);
    }
    if i :| i > 0 && SegmentAt(s[1..], i, part) {
      assert SegmentAt(s, i + 1, part);
    }
  }

  lemma LaterShifted(s: string, part: string)
    requires s != [] && !SegmentAt(s, 1, part)
    requires forall i :: i > 1 ==> (SegmentAt(s, i, part) <==> SegmentAt(s[1..], i - 1, part))
    ensures (exists i :: i > 0 && SegmentAt(s, i, part)) <==> exists i :: i > 0 && SegmentAt(s[1..], i, part)
  {
    hide SegmentAt;
    if i :| i > 0 && SegmentAt(s, i, part) {
      assert SegmentAt(s[1..], i - 1, part);
    }
    if i :| i > 0 && SegmentAt(s[1..], i, part) {
      assert SegmentAt(s, i + 1, part);
    }
  }

  lemma FirstShifted(s: string, part: string)
    requires s != [] && part != [] && part[0] == s[0]
    ensures SegmentAt(s, 0, part) <==> SegmentAt(s[1..], 0, part[1..])
  {
    if |part| <= |s| {
      assert s[0..|part|] == [s[0]] + s[1..][0..|part| - 1] && part == [part[0]] + part[1..];
    }
  }

  /** Dot segments are found exactly. */
  lemma DotsExactly(path: string)
    ensures DotSegment(path) <==> !NoDots(path)
  {
    hide Split;
    hide SegmentAt;
    DotExactly(path, ".");
    DotExactly(path, "..");
  }

  lemma DotExactly(path: string, part: string)
    requires '/' !in part
    ensures part in Split(path, '/') <==> exists i :: SegmentAt(path, i, part)
  {
    SplitExactly(path, part);
    var parts := Split(path, '/');
    assert parts == [parts[0]] + parts[1..];
  }

  lemma LowerAt(path: string, i: int, high: char, low: char, upper: char)
    requires '0' <= high <= '9' && 'a' <= low <= 'z' && upper as int + 32 == low as int
    ensures OccursAt(Lower(path), i, ['%', high, low]) <==> EscapeAt(path, i, high, [low, upper])
  {
    if 0 <= i && i + 3 <= |path| {
      var part := Lower(path)[i..i + 3];
      assert part == [part[0], part[1], part[2]];
      assert part[0] == LowerChar(path[i]) && part[1] == LowerChar(path[i + 1]) && part[2] == LowerChar(path[i + 2]);
    }
  }

  /** Hidden slashes are found exactly, in either case. */
  lemma HiddenExactly(path: string)
    ensures SlashHidden(path) <==> !NoHiddenSlash(path)
  {
    ContainsExactly(Lower(path), "%2f");
    ContainsExactly(Lower(path), "%5c");
    forall i
      ensures OccursAt(Lower(path), i, "%2f") <==> EscapeAt(path, i, '2', "fF")
      ensures OccursAt(Lower(path), i, "%5c") <==> EscapeAt(path, i, '5', "cC")
    {
      LowerAt(path, i, '2', 'f', 'F');
      LowerAt(path, i, '5', 'c', 'C');
    }
  }

  lemma RootedExactly(path: string)
    ensures Rooted(path) <==>
      path != "" && path[0] == '/' && !Contains(path, "//") && !ContainsAny(path, "\\") && !ContainsAny(path, "?#")
  {
    hide Contains;
    SlashesExactly(path);
    assert ContainsAny(path, "\\") <==> exists i :: 0 <= i < |path| && path[i] == '\\';
    assert ContainsAny(path, "?#") <==> exists i :: 0 <= i < |path| && (path[i] == '?' || path[i] == '#');
  }

  lemma SlashesExactly(path: string)
    ensures Contains(path, "//") <==> exists i :: 0 <= i < |path| - 1 && path[i] == '/' && path[i + 1] == '/'
  {
    ContainsExactly(path, "//");
    if Contains(path, "//") {
      var i :| OccursAt(path, i, "//");
      assert path[i] == path[i..i + 2][0] && path[i + 1] == path[i..i + 2][1];
    }
    if i :| 0 <= i < |path| - 1 && path[i] == '/' && path[i + 1] == '/' {
      assert path[i..i + 2] == "//";
      assert OccursAt(path, i, "//");
    }
  }

  /** A form of a path is safe exactly when its segments are what they seem. */
  lemma SafeFormExactly(path: string)
    ensures UnsafePathForm(path) <==> !(Rooted(path) && NoDots(path) && NoHiddenSlash(path))
  {
    hide Contains;
    hide SlashHidden;
    hide DotSegment;
    hide Rooted;
    hide NoDots;
    hide NoHiddenSlash;
    RootedExactly(path);
    DotsExactly(path);
    HiddenExactly(path);
  }

  /** An escaped path is safe exactly when, as it is, it is rooted and hides no slash, and decoded
      it has neither a backslash nor a dot segment. */
  lemma SafePathExactly(path: string)
    ensures SafeEscapedPath(path) <==>
      && Rooted(path) && NoHiddenSlash(path) && Unescape(path).Some?
      && NoDots(Unescape(path).value) && '\\' !in Unescape(path).value
  {
    hide Contains;
    hide SlashHidden;
    hide DotSegment;
    hide Rooted;
    hide NoDots;
    hide NoHiddenSlash;
    hide Unescape;
    RootedExactly(path);
    HiddenExactly(path);
    if Unescape(path).Some? {
      DotsExactly(Unescape(path).value);
    }
  }

  // ----- Route patterns -----

  /** Capital letters, digits and the other token characters of RFC 9110, section 5.6.2. */
  ghost predicate IsToken(name: string) {
    name != "" && forall c :: c in name ==>
      65 <= c as int < 91 || 48 <= c as int < 58 ||
      c as int in {33, 35, 36, 37, 38, 39, 42, 43, 45, 46, 94, 95, 96, 124, 126}
  }

  lemma TokenExactly(name: string)
    ensures ValidMethod(name) <==> IsToken(name)
  {
    forall c: char ensures c in "!#$%&'*+-.^_`|~" <==>
      c as int in {33, 35, 36, 37, 38, 39, 42, 43, 45, 46, 94, 95, 96, 124, 126}
    {
      TokenMarks(c);
    }
    if IsToken(name) {
      forall i | 0 <= i < |name| ensures TokenChar(name[i]) {
        assert name[i] in name;
      }
    }
  }

  lemma TokenMarks(c: char)
    ensures c in "!#$%&'*+-.^_`|~" <==>
      c as int in {33, 35, 36, 37, 38, 39, 42, 43, 45, 46, 94, 95, 96, 124, 126}
  {
    var marks := ['!', '#', '$', '%', '&', '\'', '*', '+', '-', '.', '^', '_', '`', '|', '~'];
    assert "!#$%&'*+-.^_`|~" == marks;
    assert c in marks <==>
      || c == '!' || c == '#' || c == '$' || c == '%' || c == '&' || c == '\'' || c == '*' || c == '+' || c == '-'
      || c == '.' || c == '^' || c == '_' || c == '`' || c == '|' || c == '~';
  }

  predicate White(c: char) {
    c as int in {9, 10, 11, 12, 13, 32}
  }

  /** A route that may stand in a set: an id that is not blank, a parser name without space around
      it, no interceptor twice, and a well-formed pattern. */
  lemma RouteExactly(route: RouteConfig)
    ensures RouteValid(route) <==>
      && (exists c :: c in route.id && !White(c))
      && route.parser != "" && !White(route.parser[0]) && !White(route.parser[|route.parser| - 1])
      && (forall name :: multiset(route.interceptors)[name] <= 1)
      && ParsePattern(route).Some?
  {
    hide ParsePattern;
    assert forall c: char :: IsSpace(c) <==> White(c);
    OnceExactly(route.interceptors);
    if !Blank(route.id) {
      var i :| 0 <= i < |route.id| && !IsSpace(route.id[i]);
      assert route.id[i] in route.id;
    }
  }

  lemma {:induction false} OnceExactly(names: seq<string>)
    ensures NoRepeats(names) <==> forall name :: multiset(names)[name] <= 1
  {
    if names != [] {
      var n := |names| - 1;
      OnceExactly(names[..n]);
      assert names == names[..n] + [names[n]];
      var before, last := names[..n], names[n];
      assert forall name :: multiset(names)[name] == multiset(before)[name] + (if name == last then 1 else 0);
      assert last in before <==> multiset(before)[last] > 0;
      assert NoRepeats(names) <==> NoRepeats(before) && last !in before;
      if NoRepeats(names) {
        assert forall name :: multiset(names)[name] <= 1;
      }
      if forall name :: multiset(names)[name] <= 1 {
        assert forall name :: multiset(before)[name] <= multiset(names)[name];
        assert multiset(names)[last] <= 1;
      }
    }
  }

  predicate Braceless(s: string) {
    '{' !in s && '}' !in s
  }

  /** A path a route may have, with what it stands for once its placeholder is filled. */
  ghost predicate GoodPath(path: string, filled: string) {
    && Rooted(path) && NoHiddenSlash(path) && (path == "/" || path[|path| - 1] != '/')
    && (forall i :: 0 <= i < |path| ==> 32 < path[i] as int && path[i] as int != 127)
    && Unescape(filled).Some? && NoDots(Unescape(filled).value) && '\\' !in Unescape(filled).value
  }

  lemma GoodPathExactly(path: string)
    ensures ValidPath(path) <==> GoodPath(path, WithModel(path))
  {
    hide Contains;
    hide SlashHidden;
    hide DotSegment;
    hide Rooted;
    hide NoDots;
    hide NoHiddenSlash;
    hide Unescape;
    hide WithModel;
    RootedExactly(path);
    HiddenExactly(path);
    if Unescape(WithModel(path)).Some? {
      DotsExactly(Unescape(WithModel(path)).value);
    }
  }

  lemma {:induction false} NoPlaceholder(s: string)
    requires '{' !in s
    ensures IndexOf(s, "{model}") == None && WithModel(s) == s
  {
    IndexOfAfter(s, "", "{model}");
    assert s + "" == s;
  }

  /** The first placeholder is found past anything without a brace. */
  lemma {:induction false} IndexOfAfter(prefix: string, rest: string, part: string)
    requires part != [] && part[0] !in prefix
    ensures IndexOf(prefix + rest, part) ==
      if IndexOf(rest, part).None? then None else Some(|prefix| + IndexOf(rest, part).value)
  {
    var s := prefix + rest;
    if prefix == [] {
      assert s == rest;
    } else {
      assert s[0] == prefix[0] && s[1..] == prefix[1..] + rest;
      IndexOfAfter(prefix[1..], rest, part);
    }
  }

  lemma Filled(prefix: string, suffix: string)
    requires '{' !in prefix && '{' !in suffix
    ensures IndexOf(prefix + ("{model}" + suffix), "{model}") == Some(|prefix|)
    ensures WithModel(prefix + ("{model}" + suffix)) == prefix + "model" + suffix
  {
    var path := prefix + ("{model}" + suffix);
    IndexOfAfter(prefix, "{model}" + suffix, "{model}");
    NoPlaceholder(suffix);
    assert path[..|prefix|] == prefix && path[|prefix| + 7..] == suffix;
  }

  /** The exact routes: of kind "exact", with a method and a path as they should be and no braces. */
  lemma ExactPattern(route: RouteConfig, name: string, path: string)
    ensures ParsePattern(route) == Some(Exact(name, path)) <==>
      && route.kind == "exact" && name == route.method_ && path == route.path
      && IsToken(name) && GoodPath(path, path) && Braceless(path)
  {
    hide GoodPath;
    hide ValidPath;
    hide Contains;
    hide IndexOf;
    hide WithModel;
    hide ValidMethod;
    hide IsToken;
    assert |"exact"| == 5 && |"template"| == 8;
    TokenExactly(route.method_);
    GoodPathExactly(route.path);
    if Braceless(route.path) {
      NoPlaceholder(route.path);
    }
    BracesExactly(route.path);
  }

  lemma BracesExactly(s: string)
    ensures ContainsAny(s, "{}") <==> !Braceless(s)
  {
    assert "{}"[0] == '{' && "{}"[1] == '}';
  }

  /** What is on both sides of a placeholder. */
  ghost predicate TemplateOf(path: string, prefix: string, suffix: string) {
    && path == prefix + ("{model}" + suffix) && Braceless(prefix) && Braceless(suffix)
    && prefix != "" && prefix[|prefix| - 1] == '/' && '/' !in suffix && (suffix == "" || suffix[0] == ':')
  }

  /** The template routes: of kind "template", with one placeholder after a slash, and after it
      nothing, or a colon and more without a slash. */
  lemma TemplatePattern(route: RouteConfig, name: string, prefix: string, suffix: string)
    ensures ParsePattern(route) == Some(Template(name, prefix, suffix)) <==>
      && route.kind == "template" && name == route.method_ && TemplateOf(route.path, prefix, suffix)
      && IsToken(name) && GoodPath(route.path, prefix + "model" + suffix)
  {
    hide GoodPath;
    hide ValidPath;
    hide WithModel;
    hide ValidMethod;
    hide IsToken;
    assert |"exact"| == 5 && |"template"| == 8 && |"{model}"| == 7;
    TokenExactly(route.method_);
    GoodPathExactly(route.path);
    if TemplateOf(route.path, prefix, suffix) {
      Filled(prefix, suffix);
      TemplateParses(route, prefix, suffix);
    }
    if ParsePattern(route) == Some(Template(name, prefix, suffix)) {
      TemplateParsed(route, name, prefix, suffix);
      Filled(prefix, suffix);
    }
  }

  lemma TemplateParses(route: RouteConfig, prefix: string, suffix: string)
    requires TemplateOf(route.path, prefix, suffix) && IndexOf(route.path, "{model}") == Some(|prefix|)
    ensures route.kind == "template" && ValidMethod(route.method_) && ValidPath(route.path) ==>
      ParsePattern(route) == Some(Template(route.method_, prefix, suffix))
  {
    hide ValidPath;
    hide ValidMethod;
    hide IndexOf;
    assert |"exact"| == 5 && |"template"| == 8;
    assert route.path[..|prefix|] == prefix && route.path[|prefix| + 7..] == suffix;
    NoPlaceholder(suffix);
    BracesExactly(prefix + suffix);
    ContainsSlash(suffix);
    assert prefix[|prefix| - 1..] == "/";
  }

  lemma TemplateParsed(route: RouteConfig, name: string, prefix: string, suffix: string)
    requires ParsePattern(route) == Some(Template(name, prefix, suffix))
    ensures route.kind == "template" && name == route.method_ && TemplateOf(route.path, prefix, suffix)
    ensures ValidMethod(name) && ValidPath(route.path)
  {
    hide ValidPath;
    hide ValidMethod;
    hide IndexOf;
    var i := IndexOf(route.path, "{model}").value;
    assert route.path == route.path[..i] + (route.path[i..i + 7] + route.path[i + 7..]);
    BracesExactly(prefix + suffix);
    ContainsSlash(suffix);
    assert prefix[|prefix| - 1..] == "/";
  }

  /** What the answer for a path tells: whose it is, and for a template the model in the path. */
  ghost predicate Tells(route: RouteConfig, path: string, answer: Match) {
    && answer.routeID == route.id && answer.parser == route.parser && answer.interceptors == route.interceptors
    && (route.kind == "exact" ==> path == route.path && answer.model.None?)
    && (route.kind == "template" ==> answer.model.Some? && FillsIn(route.path, path, answer.model.value))
  }

  ghost predicate FillsIn(template: string, path: string, model: string) {
    exists prefix, suffix :: template == prefix + ("{model}" + suffix) && path == prefix + model + suffix
  }

  lemma AnswerTells(route: RouteConfig, name: string, path: string)
    requires RouteMatches(route, name, path)
    ensures (route.kind == "exact" || route.kind == "template") && Tells(route, path, MatchOf(route, path))
  {
    hide ParsePattern;
    hide GoodPath;
    hide ValidMethod;
    hide ValidModel;
    assert |"exact"| == 5 && |"template"| == 8;
    match ParsePattern(route).value
    case Exact(m, p) => ExactPattern(route, m, p);
    case Template(m, prefix, suffix) =>
      TemplatePattern(route, m, prefix, suffix);
      assert path == prefix + path[|prefix|..|path| - |suffix|] + suffix;
  }

  // ----- What is protected, route by route -----

  /** A form of a path is that of an exact route, or below it, or starts with what precedes the
      placeholder of a template route. */
  ghost predicate Guards(route: RouteConfig, equal: Folding, form: string)
    requires ParsePattern(route).Some?
  {
    match ParsePattern(route).value
    case Exact(_, path) =>
      var last := Last(Forms(path));
      equal(form, last) || (last != "/" && |last| < |form| && equal(form[..|last| + 1], last + "/"))
    case Template(_, prefix, _) =>
      var last := Last(Forms(prefix));
      |last| <= |form| && equal(form[..|last|], last)
  }

  /** The compiled table protects a form exactly when one of the routes does. */
  lemma ProtectedExactly(m: RouteTable, routes: seq<RouteConfig>, equal: Folding, form: string)
    requires CompiledFrom(m, routes)
    ensures Protects(m, equal, form) <==>
      exists route :: route in routes && ParsePattern(route).Some? && Guards(route, equal, form)
  {
    hide ParsePattern;
    hide FormsFrom;
    forall route | route in routes && ParsePattern(route).Some? && Guards(route, equal, form)
      ensures Protects(m, equal, form)
    {
      PatternOf(route);
      if IsExact(route) {
        assert ExactProtected(routes, Last(Forms(route.path)));
        assert ProtectedBy(equal, form, Last(Forms(route.path)));
      } else {
        assert PrefixProtected(routes, Last(Forms(CompileRoute(route).prefix)));
      }
    }
    if e :| e in m.exactPaths && ProtectedBy(equal, form, e) {
      assert ExactProtected(routes, e);
      var i :| 0 <= i < |routes| && IsExact(routes[i]) && e == Last(Forms(routes[i].path));
      PatternOf(routes[i]);
      assert Guards(routes[i], equal, form);
    }
    if p :| p in m.templatePrefixes && HasFoldedPrefix(equal, form, p) {
      assert PrefixProtected(routes, p);
      var i :| 0 <= i < |routes| && IsTemplate(routes[i]) && p == Last(Forms(CompileRoute(routes[i]).prefix));
      assert Guards(routes[i], equal, form);
    }
  }

  lemma {:induction false} PlainDecodes(s: string)
    requires '%' !in s
    ensures Unescape(s) == Some(s)
  {
    if s != [] {
      PlainDecodes(s[1..]);
      assert s == [s[0]] + s[1..];
    }
  }

  lemma PlainForms(path: string)
    requires '%' !in path
    ensures Forms(path) == [path] && DecodesFully(path)
  {
    hide Unescape;
    PlainDecodes(path);
  }

  /** A path without escapes is let through exactly when its segments are what they seem and no
      route protects it. */
  lemma LetThroughExactly(m: RouteTable, routes: seq<RouteConfig>, equal: Folding, path: string)
    requires CompiledFrom(m, routes) && '%' !in path
    ensures Allowed(m, equal, path) <==>
      && Rooted(path) && NoDots(path)
      && forall route :: route in routes && ParsePattern(route).Some? ==> !Guards(route, equal, path)
  {
    hide ParsePattern;
    hide CompiledFrom;
    hide Protects;
    hide Guards;
    hide SafeEscapedPath;
    hide UnsafePathForm;
    hide NoDots;
    hide Unescape;
    hide Forms;
    hide DecodesFully;
    PlainForms(path);
    PlainDecodes(path);
    SafePathExactly(path);
    SafeFormExactly(path);
    ProtectedExactly(m, routes, equal, path);
  }
}
