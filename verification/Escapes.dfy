/**
 Percent-encoding, from the writer's side: any bytes of a path may be escaped, with digits of
 either case. Decoding undoes exactly that, so no spelling of a route gets past the audit.
 */
module Escapes {
  import opened Wrappers
  import opened Paths
  import opened Routes
  import opened Passthrough

  /** How one character is written: as it is, or by the two hexadecimal digits of its byte. */
  datatype Style = Plain | Hex(highUpper: bool, lowUpper: bool)

  const LOWER_DIGITS := "0123456789abcdef"
  const UPPER_DIGITS := "0123456789ABCDEF"

  function Digit(d: nat, upper: bool): char
    requires d < 16
  {
    if upper then UPPER_DIGITS[d] else LOWER_DIGITS[d]
  }

  /** The percent sign itself must be escaped, and only bytes can be. */
  predicate Can(c: char, style: Style) {
    if style.Plain? then c != '%' else c as int < 256
  }

  predicate Fits(s: string, styles: seq<Style>) {
    |styles| == |s| && forall i :: 0 <= i < |s| ==> Can(s[i], styles[i])
  }

  function EscapeChar(c: char, style: Style): string
    requires Can(c, style)
  {
    match style
    case Plain => [c]
    case Hex(highUpper, lowUpper) => ['%', Digit(c as int / 16, highUpper), Digit(c as int % 16, lowUpper)]
  }

  function Escape(s: string, styles: seq<Style>): string
    requires Fits(s, styles)
  {
    if s == [] then [] else EscapeChar(s[0], styles[0]) + Escape(s[1..], styles[1..])
  }

  lemma DigitValue(d: nat, upper: bool)
    requires d < 16
    ensures HexValue(Digit(d, upper)) == Some(d)
  {
    assert LOWER_DIGITS == ['0', '1', '2', '3', '4', '5', '6', '7', '8', '9', 'a', 'b', 'c', 'd', 'e', 'f'];
    assert UPPER_DIGITS == ['0', '1', '2', '3', '4', '5', '6', '7', '8', '9', 'A', 'B', 'C', 'D', 'E', 'F'];
    assert d in {0, 1, 2, 3, 4, 5, 6, 7, 8, 9, 10, 11, 12, 13, 14, 15};
  }

  lemma DigitOf(c: char)
    requires HexValue(c).Some?
    ensures HexValue(c).value < 16 && c == Digit(HexValue(c).value, 'A' <= c <= 'F')
  {
    assert LOWER_DIGITS == ['0', '1', '2', '3', '4', '5', '6', '7', '8', '9', 'a', 'b', 'c', 'd', 'e', 'f'];
    assert UPPER_DIGITS == ['0', '1', '2', '3', '4', '5', '6', '7', '8', '9', 'A', 'B', 'C', 'D', 'E', 'F'];
    var d := HexValue(c).value;
    assert d in {0, 1, 2, 3, 4, 5, 6, 7, 8, 9, 10, 11, 12, 13, 14, 15};
  }

  lemma NextEscaped(c: char, style: Style, tail: string)
    requires Can(c, style)
    ensures var text := EscapeChar(c, style);
      Next(text + tail) == Some((c, |text|)) && (text + tail)[|text|..] == tail
  {
    if style.Hex? {
      DigitValue(c as int / 16, style.highUpper);
      DigitValue(c as int % 16, style.lowUpper);
    }
  }

  /** Whichever bytes are escaped, and however their digits are written, decoding gives them back. */
  lemma {:induction false} EscapeDecodes(s: string, styles: seq<Style>)
    requires Fits(s, styles)
    ensures Unescape(Escape(s, styles)) == Some(s)
  {
    hide Next;
    if s != [] {
      var tail := Escape(s[1..], styles[1..]);
      NextEscaped(s[0], styles[0], tail);
      EscapeDecodes(s[1..], styles[1..]);
      UnescapeUnfold(Escape(s, styles));
      assert [s[0]] + s[1..] == s;
    }
  }

  /** A string spells another one: it is that one with some bytes escaped. */
  ghost predicate Spells(text: string, s: string) {
    exists styles :: Fits(s, styles) && text == Escape(s, styles)
  }

  /** Nothing else decodes: what decodes is some way of escaping what comes out. */
  lemma {:induction false} DecodedIsSpelled(text: string) returns (styles: seq<Style>)
    requires Unescape(text).Some?
    ensures Fits(Unescape(text).value, styles) && text == Escape(Unescape(text).value, styles)
  {
    hide Unescape;
    UnescapeUnfold(text);
    if text == [] {
      styles := [];
    } else {
      var (c, n) := Next(text).value;
      var rest := DecodedIsSpelled(text[n..]);
      var style := StyleOf(text);
      styles := [style] + rest;
      var s := Unescape(text).value;
      assert s[0] == c && s[1..] == Unescape(text[n..]).value && styles[1..] == rest;
      assert text == text[..n] + text[n..];
    }
  }

  lemma ByteDigits(high: nat, low: nat)
    requires high < 16 && low < 16
    ensures var byte := 16 * high + low; byte < 256 && byte / 16 == high && byte % 16 == low
  {
  }

  lemma StyleOf(text: string) returns (style: Style)
    requires text != [] && Next(text).Some?
    ensures var (c, n) := Next(text).value; Can(c, style) && text[..n] == EscapeChar(c, style)
  {
    if text[0] != '%' {
      style := Plain;
    } else {
      hide HexValue;
      hide Digit;
      DigitOf(text[1]);
      DigitOf(text[2]);
      style := Hex('A' <= text[1] <= 'F', 'A' <= text[2] <= 'F');
      ByteDigits(HexValue(text[1]).value, HexValue(text[2]).value);
    }
  }

  /** Decoding is the inverse of escaping, both ways. */
  lemma DecodingExactly(text: string, s: string)
    ensures Unescape(text) == Some(s) <==> Spells(text, s)
  {
    if Unescape(text) == Some(s) {
      var styles := DecodedIsSpelled(text);
    }
    if Spells(text, s) {
      var styles :| Fits(s, styles) && text == Escape(s, styles);
      EscapeDecodes(s, styles);
    }
  }

  // ----- Routes -----

  /** A path, escaped again and again: each string of the chain spells the next one. */
  ghost predicate Chain(chain: seq<string>) {
    |chain| > 0 && forall i :: 0 <= i < |chain| - 1 ==> Spells(chain[i], chain[i + 1])
  }

  lemma {:induction false} ChainReached(chain: seq<string>, rounds: nat)
    requires Chain(chain) && FormsFrom(chain[0], rounds).1
    ensures chain[|chain| - 1] in FormsFrom(chain[0], rounds).0
    decreases |chain|
  {
    hide Unescape;
    if |chain| > 1 {
      assert Spells(chain[0], chain[1]);
      DecodingExactly(chain[0], chain[1]);
      var rest := chain[1..];
      forall i | 0 <= i < |rest| - 1 ensures Spells(rest[i], rest[i + 1]) {
        assert rest[i] == chain[i + 1] && rest[i + 1] == chain[(i + 1) + 1];
      }
      if chain[1] == chain[0] {
        ChainReached(rest, rounds);
      } else {
        ChainReached(rest, rounds - 1);
      }
    }
  }

  /** A path that belongs to an exact route: its own path in any letter case, or one below it. */
  ghost predicate BelongsTo(route: RouteConfig, path: string) {
    || FoldEq(route.path, path)
    || (route.path != "/" && FoldPrefix(route.path, path) && |route.path| < |path| && path[|route.path|] == '/')
  }

  /** However often and however much of it is escaped, a path that belongs to an exact route is not
      let through unaudited. */
  lemma EscapedRouteIsRefused(m: RouteTable, routes: seq<RouteConfig>, equal: Folding, route: RouteConfig,
                              chain: seq<string>)
    requires CompiledFrom(m, routes) && FoldsCase(equal) && route in routes && IsExact(route)
    requires Chain(chain) && BelongsTo(route, chain[|chain| - 1])
    ensures !Allowed(m, equal, chain[0])
  {
    hide ParsePattern;
    hide CompiledFrom;
    hide FoldsCase;
    hide Protects;
    hide SafeEscapedPath;
    hide UnsafePathForm;
    var path := chain[0];
    if DecodesFully(path) {
      ChainReached(chain, MAX_ROUNDS);
      var i :| 0 <= i < |Forms(path)| && Forms(path)[i] == chain[|chain| - 1];
      assert SpellsExact(route, path, 0, i);
      ExactNeverAllowed(m, routes, equal, route, path, 0, i);
    }
  }

  /** The same for everything that starts like a template route. */
  lemma EscapedTemplateIsRefused(m: RouteTable, routes: seq<RouteConfig>, equal: Folding, route: RouteConfig,
                                 chain: seq<string>)
    requires CompiledFrom(m, routes) && FoldsCase(equal) && route in routes && IsTemplate(route)
    requires Chain(chain) && FoldPrefix(CompileRoute(route).prefix, chain[|chain| - 1])
    ensures !Allowed(m, equal, chain[0])
  {
    hide ParsePattern;
    hide CompiledFrom;
    hide FoldsCase;
    hide Protects;
    hide SafeEscapedPath;
    hide UnsafePathForm;
    var path := chain[0];
    if DecodesFully(path) {
      ChainReached(chain, MAX_ROUNDS);
      var i :| 0 <= i < |Forms(path)| && Forms(path)[i] == chain[|chain| - 1];
      assert SpellsTemplate(CompileRoute(route).prefix, path, 0, i);
      TemplateNeverAllowed(m, routes, equal, route, path, 0, i);
    }
  }
}
