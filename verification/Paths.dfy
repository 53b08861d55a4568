/**
 Escaped paths: percent-decoding round by round, until nothing changes, decoding fails, or
 the rounds run out.
 */
module Paths {
  import opened Wrappers

  // ----- Strings -----

  predicate HasSuffix(s: string, suffix: string) {
    |suffix| <= |s| && s[|s| - |suffix|..] == suffix
  }

  function IndexOf(s: string, part: string): (r: Option<nat>)
    ensures r.Some? ==> r.value + |part| <= |s| && s[r.value..r.value + |part|] == part
  {
    if part <= s then Some(0)
    else if s == [] then None
    else
      match IndexOf(s[1..], part)
      case None => None
      case Some(i) => Some(i + 1)
  }

  predicate Contains(s: string, part: string) {
    IndexOf(s, part).Some?
  }

  predicate ContainsAny(s: string, chars: string) {
    exists i :: 0 <= i < |s| && s[i] in chars
  }

  function Split(s: string, separator: char): (r: seq<string>)
    ensures |r| > 0
  {
    if s == [] then [[]]
    else
      var rest := Split(s[1..], separator);
      if s[0] == separator then [[]] + rest else [[s[0]] + rest[0]] + rest[1..]
  }

  function LowerChar(c: char): char {
    if 'A' <= c <= 'Z' then c + 32 as char else c
  }

  function Lower(s: string): string {
    seq(|s|, i requires 0 <= i < |s| => LowerChar(s[i]))
  }

  predicate IsSpace(c: char) {
    c == ' ' || '\t' <= c <= '\r'
  }

  predicate Blank(s: string) {
    forall i :: 0 <= i < |s| ==> IsSpace(s[i])
  }

  predicate Trimmed(s: string) {
    s != [] ==> !IsSpace(s[0]) && !IsSpace(s[|s| - 1])
  }

  // ----- Percent-decoding -----

  function HexValue(c: char): Option<nat> {
    if '0' <= c <= '9' then Some(c as int - '0' as int)
    else if 'a' <= c <= 'f' then Some(10 + (c as int - 'a' as int))
    else if 'A' <= c <= 'F' then Some(10 + (c as int - 'A' as int))
    else None
  }

  function Decode(high: char, low: char): Option<char> {
    if HexValue(high).Some? && HexValue(low).Some? then
      Some((16 * HexValue(high).value + HexValue(low).value) as char)
    else None
  }

  /** The first decoded byte and how much of the path it takes; a stray percent sign is an error. */
  function Next(s: string): (r: Option<(char, nat)>)
    requires s != []
    ensures r.Some? ==> 1 <= r.value.1 <= |s| && (r.value.1 == 1 ==> r.value.0 == s[0])
    ensures r.Some? && s[0] == '/' ==> r.value.0 == '/'
  {
    if s[0] != '%' then Some((s[0], 1))
    else if |s| < 3 || Decode(s[1], s[2]).None? then None
    else Some((Decode(s[1], s[2]).value, 3))
  }

  /** One round of percent-decoding. */
  function Unescape(s: string): Option<string> {
    if s == [] then Some([])
    else if Next(s).None? then None
    else
      var (c, n) := Next(s).value;
      Cons(c, Unescape(s[n..]))
  }

  function Cons(c: char, rest: Option<string>): Option<string> {
    if rest.None? then None else Some([c] + rest.value)
  }

  /** Decoding shortens whatever it changes. */
  lemma {:induction false} UnescapeShrinks(s: string)
    requires Unescape(s).Some?
    ensures |Unescape(s).value| <= |s| && (s != [] ==> Unescape(s).value != [])
    ensures |Unescape(s).value| == |s| ==> Unescape(s).value == s
  {
    if s != [] {
      var n := Next(s).value.1;
      UnescapeShrinks(s[n..]);
      assert s == s[..n] + s[n..];
    }
  }

  predicate DotSegment(path: string) {
    "." in Split(path, '/') || ".." in Split(path, '/')
  }

  predicate SlashHidden(path: string) {
    Contains(Lower(path), "%2f") || Contains(Lower(path), "%5c")
  }

  // ----- Repeated decoding -----

  const MAX_ROUNDS := 16

  /** The forms a path takes, and whether the last one is final. */
  ghost function FormsFrom(path: string, rounds: nat): (r: (seq<string>, bool))
    ensures |r.0| > 0 && r.0[0] == path
    decreases rounds
  {
    if rounds == 0 || Unescape(path).None? then ([path], false)
    else if Unescape(path).value == path then ([path], true)
    else
      var rest := FormsFrom(Unescape(path).value, rounds - 1);
      ([path] + rest.0, rest.1)
  }

  ghost function Forms(path: string): seq<string> {
    FormsFrom(path, MAX_ROUNDS).0
  }

  ghost predicate DecodesFully(path: string) {
    FormsFrom(path, MAX_ROUNDS).1
  }

  ghost function Last(forms: seq<string>): string
    requires |forms| > 0
  {
    forms[|forms| - 1]
  }

  /** Each form is the one before it decoded; so many rounds are made unless one changes nothing or
      fails, and decoding ended exactly when one changed nothing. */
  lemma {:induction false} FormsExactly(path: string, rounds: nat)
    ensures var (forms, complete) := FormsFrom(path, rounds);
      && forms != [] && forms[0] == path && |forms| <= rounds + 1
      && (forall i :: 0 <= i < |forms| - 1 ==> Unescape(forms[i]) == Some(forms[i + 1]) && forms[i + 1] != forms[i])
      && (complete <==> |forms| <= rounds && Unescape(Last(forms)) == Some(Last(forms)))
      && (!complete && |forms| <= rounds ==> Unescape(Last(forms)).None?)
    decreases rounds
  {
    hide Unescape;
    if rounds > 0 && Unescape(path).Some? && Unescape(path).value != path {
      FormsExactly(Unescape(path).value, rounds - 1);
    }
  }

  method UnescapedForms(path: string) returns (forms: seq<string>, complete: bool)
    ensures forms == Forms(path) && complete == DecodesFully(path)
    ensures forms != [] && forms[0] == path && |forms| <= 17
    ensures forall i :: 0 <= i < |forms| - 1 ==> Unescape(forms[i]) == Some(forms[i + 1]) && forms[i + 1] != forms[i]
    ensures complete <==> |forms| <= 16 && Unescape(Last(forms)) == Some(Last(forms))
    ensures !complete && |forms| <= 16 ==> Unescape(Last(forms)).None?
  {
    FormsExactly(path, MAX_ROUNDS);
    forms, complete := UnescapeRounds(path, MAX_ROUNDS);
  }

  method UnescapeRounds(path: string, rounds: nat) returns (forms: seq<string>, complete: bool)
    ensures (forms, complete) == FormsFrom(path, rounds)
  {
    hide Unescape;
    forms := [path];
    var current := path;
    ghost var before: seq<string> := [];
    assert before + FormsFrom(path, rounds).0 == FormsFrom(path, rounds).0;
    for round := 0 to rounds
      invariant forms == before + [current]
      invariant before + FormsFrom(current, rounds - round).0 == FormsFrom(path, rounds).0
      invariant FormsFrom(current, rounds - round).1 == FormsFrom(path, rounds).1
    {
      var decoded := Unescape(current);
      if decoded == None {
        return forms, false;
      }
      if decoded.value == current {
        return forms, true;
      }
      ghost var rest := FormsFrom(decoded.value, rounds - round - 1).0;
      assert before + ([current] + rest) == (before + [current]) + rest;
      before := before + [current];
      forms := forms + [decoded.value];
      current := decoded.value;
    }
    return forms, false;
  }

  method FullyUnescape(path: string) returns (r: string)
    ensures r == Last(Forms(path))
  {
    var forms, _ := UnescapedForms(path);
    return forms[|forms| - 1];
  }

  /** Every round makes the path shorter. */
  lemma {:induction false} FormsShrink(path: string, rounds: nat, i: nat, j: nat)
    requires i < j < |FormsFrom(path, rounds).0|
    ensures |FormsFrom(path, rounds).0[j]| < |FormsFrom(path, rounds).0[i]|
    decreases rounds
  {
    hide Unescape;
    var next := Unescape(path).value;
    UnescapeShrinks(path);
    if i > 0 {
      FormsShrink(next, rounds - 1, i - 1, j - 1);
    } else if j > 1 {
      FormsShrink(next, rounds - 1, 0, j - 1);
    }
  }

  /** Decoding goes on from a form as it would from a path. */
  lemma {:induction false} FormsSuffix(path: string, rounds: nat, i: nat)
    requires i < |FormsFrom(path, rounds).0|
    ensures i <= rounds
    ensures FormsFrom(path, rounds).0[i..] == FormsFrom(FormsFrom(path, rounds).0[i], rounds - i).0
    ensures FormsFrom(path, rounds).1 == FormsFrom(FormsFrom(path, rounds).0[i], rounds - i).1
    decreases rounds
  {
    if i > 0 {
      FormsSuffix(Unescape(path).value, rounds - 1, i - 1);
    }
  }

  // ----- Case and concatenation -----

  /** Equal up to the case of ASCII letters. */
  ghost predicate FoldEq(a: string, b: string) {
    |a| == |b| && forall i :: 0 <= i < |a| ==> LowerChar(a[i]) == LowerChar(b[i])
  }

  ghost predicate FoldPrefix(a: string, s: string) {
    |a| <= |s| && FoldEq(a, s[..|a|])
  }

  lemma FoldEqLength(a: string, b: string)
    requires FoldEq(a, b)
    ensures |a| == |b|
  {
  }

  lemma NextConcat(a: string, y: string)
    requires a != [] && Next(a).Some?
    ensures Next(a + y) == Next(a) && (a + y)[Next(a).value.1..] == a[Next(a).value.1..] + y
  {
  }

  lemma {:induction false} UnescapeConcat(a: string, y: string)
    requires Unescape(a).Some?
    ensures Unescape(a + y) == if Unescape(y).None? then None else Some(Unescape(a).value + Unescape(y).value)
  {
    hide Next;
    hide Unescape;
    UnescapeUnfold(a);
    if a == [] {
      assert a + y == y;
      assert Unescape(y).Some? ==> [] + Unescape(y).value == Unescape(y).value;
    } else {
      NextConcat(a, y);
      UnescapeUnfold(a + y);
      var (c, n) := Next(a).value;
      UnescapeConcat(a[n..], y);
      if Unescape(y).Some? {
        assert ([c] + Unescape(a[n..]).value) + Unescape(y).value == [c] + (Unescape(a[n..]).value + Unescape(y).value);
      }
    }
  }

  lemma UnescapeUnfold(s: string)
    ensures s == [] ==> Unescape(s) == Some([])
    ensures s != [] && Next(s).None? ==> Unescape(s) == None
    ensures s != [] && Next(s).Some? ==> Unescape(s) == Cons(Next(s).value.0, Unescape(s[Next(s).value.1..]))
  {
  }

  lemma FoldHex(a: char, b: char)
    requires LowerChar(a) == LowerChar(b)
    ensures HexValue(a) == HexValue(b) && (a == '%' <==> b == '%')
  {
  }

  lemma NextFold(a: string, b: string)
    requires FoldEq(a, b) && a != []
    ensures Next(a).Some? <==> Next(b).Some?
    ensures Next(a).Some? ==>
      Next(a).value.1 == Next(b).value.1 && LowerChar(Next(a).value.0) == LowerChar(Next(b).value.0)
  {
    FoldHex(a[0], b[0]);
    if |a| >= 3 {
      FoldHex(a[1], b[1]);
      FoldHex(a[2], b[2]);
    }
  }

  lemma {:induction false} UnescapeFold(a: string, b: string)
    requires FoldEq(a, b)
    ensures Unescape(a).Some? <==> Unescape(b).Some?
    ensures Unescape(a).Some? ==> FoldEq(Unescape(a).value, Unescape(b).value)
  {
    hide Next;
    if a != [] {
      NextFold(a, b);
      if Next(a).Some? {
        var n := Next(a).value.1;
        UnescapeFold(a[n..], b[n..]);
      }
    }
  }

  lemma UnescapeSlash(y: string)
    requires y != [] && y[0] == '/' && Unescape(y).Some?
    ensures Unescape(y).value[0] == '/'
  {
  }

  /** One round applied to a path and to something it begins with. */
  lemma UnescapePrefix(a: string, x: string, y: string)
    requires FoldEq(a, x) && Unescape(a).Some? && Unescape(x + y).Some?
    ensures Unescape(x).Some? && Unescape(y).Some? && FoldEq(Unescape(a).value, Unescape(x).value)
    ensures Unescape(x + y).value == Unescape(x).value + Unescape(y).value
    ensures Unescape(a).value != a ==> |Unescape(x + y).value| < |x + y|
    ensures y == [] <==> Unescape(y).value == []
    ensures y != [] && y[0] == '/' ==> Unescape(y).value[0] == '/'
  {
    hide Unescape;
    hide FoldEq;
    UnescapeFold(a, x);
    UnescapeConcat(x, y);
    FoldEqLength(a, x);
    FoldEqLength(Unescape(a).value, Unescape(x).value);
    UnescapeShrinks(a);
    UnescapeShrinks(x);
    UnescapeShrinks(y);
    if y != [] && y[0] == '/' {
      UnescapeSlash(y);
    }
  }

  /** A path that decodes fully and begins with another path comes to begin with the last form
      of that path too, however many rounds each of them needs. */
  lemma {:induction false} FormsFollow(a: string, m: nat, p: string, n: nat) returns (k: nat)
    requires FoldPrefix(a, p) && FormsFrom(p, n).1
    ensures k < |FormsFrom(p, n).0|
    ensures var last, form := Last(FormsFrom(a, m).0), FormsFrom(p, n).0[k];
            && FoldPrefix(last, form)
            && (|a| == |p| ==> |last| == |form|)
            && (|a| < |p| && p[|a|] == '/' ==> |last| < |form| && form[|last|] == '/')
    decreases m
  {
    hide Unescape;
    if m == 0 || Unescape(a).None? || Unescape(a).value == a {
      k := 0;
    } else {
      var x, y := p[..|a|], p[|a|..];
      assert p == x + y;
      UnescapePrefix(a, x, y);
      k := FormsFollow(Unescape(a).value, m - 1, Unescape(p).value, n - 1);
      k := k + 1;
    }
  }

  /** The same, from any form of either path. */
  lemma FormsMeet(a: string, j: nat, p: string, i: nat) returns (k: nat)
    requires j < |Forms(a)| && i < |Forms(p)| && DecodesFully(p)
    requires FoldPrefix(Forms(a)[j], Forms(p)[i])
    ensures k < |Forms(p)| && FoldPrefix(Last(Forms(a)), Forms(p)[k])
    ensures |Forms(a)[j]| == |Forms(p)[i]| ==> |Last(Forms(a))| == |Forms(p)[k]|
    ensures |Forms(a)[j]| < |Forms(p)[i]| && Forms(p)[i][|Forms(a)[j]|] == '/' ==>
              |Last(Forms(a))| < |Forms(p)[k]| && Forms(p)[k][|Last(Forms(a))|] == '/'
  {
    hide FormsFrom;
    FormsSuffix(a, MAX_ROUNDS, j);
    FormsSuffix(p, MAX_ROUNDS, i);
    var r := FormsFollow(Forms(a)[j], MAX_ROUNDS - j, Forms(p)[i], MAX_ROUNDS - i);
    assert Forms(a)[j..][|Forms(a)| - j - 1] == Last(Forms(a));
    assert Forms(p)[i..][r] == Forms(p)[i + r];
    k := i + r;
  }
}
