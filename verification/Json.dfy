/**
 Decoded JSON. Numbers keep their spelling, objects are finite maps, and cloning a value by
 encoding and decoding it is the identity. Two keys are reserved for internal markers.
 */
module Json {
  import opened Wrappers

  datatype Json =
    | JNull
    | JBool(b: bool)
    | JNum(text: string)
    | JStr(s: string)
    | JArr(elements: seq<Json>)
    | JObj(fields: map<string, Json>)

  const ITEM_KEY := "$llmapi_logger_item_v1"
  const BINARY_KEY := "$llmapi_logger_binary_v1"

  /** The check made before a normalizer plants markers: no reserved key anywhere. */
  predicate MarkerFree(j: Json) {
    match j
    case JArr(a) => forall i | 0 <= i < |a| :: MarkerFree(a[i])
    case JObj(m) => ITEM_KEY !in m && BINARY_KEY !in m && forall k | k in m :: MarkerFree(m[k])
    case _ => true
  }

  /** No item marker anywhere. */
  ghost predicate ItemFree(j: Json) {
    match j
    case JArr(a) => forall i | 0 <= i < |a| :: ItemFree(a[i])
    case JObj(m) => ITEM_KEY !in m && forall k | k in m :: ItemFree(m[k])
    case _ => true
  }

  lemma {:induction false} MarkerFreeIsItemFree(j: Json)
    requires MarkerFree(j)
    ensures ItemFree(j)
  {
    match j
    case JArr(a) => forall i | 0 <= i < |a| { MarkerFreeIsItemFree(a[i]); }
    case JObj(m) => forall k | k in m { MarkerFreeIsItemFree(m[k]); }
    case _ =>
  }

  // ----- Places inside a value -----

  datatype Hop = Key(name: string) | Index(at: nat)

  /** What is found by following keys and indices. */
  ghost function Reach(j: Json, path: seq<Hop>): Option<Json> {
    if path == [] then Some(j)
    else if j.JObj? && path[0].Key? && path[0].name in j.fields then Reach(j.fields[path[0].name], path[1..])
    else if j.JArr? && path[0].Index? && path[0].at < |j.elements| then Reach(j.elements[path[0].at], path[1..])
    else None
  }

  /** An object with a reserved key. */
  predicate Reserves(j: Json) {
    j.JObj? && ("$llmapi_logger_item_v1" in j.fields || "$llmapi_logger_binary_v1" in j.fields)
  }

  lemma ReachBelow(j: Json, hop: Hop, path: seq<Hop>)
    ensures j.JObj? && hop.Key? && hop.name in j.fields ==>
      Reach(j, [hop] + path) == Reach(j.fields[hop.name], path)
    ensures j.JArr? && hop.Index? && hop.at < |j.elements| ==>
      Reach(j, [hop] + path) == Reach(j.elements[hop.at], path)
  {
    assert ([hop] + path)[1..] == path;
  }

  /** Free of markers: nothing inside, however deep, has a reserved key. */
  lemma MarkerFreeExactly(j: Json)
    ensures MarkerFree(j) <==> forall path :: Reach(j, path).Some? ==> !Reserves(Reach(j, path).value)
  {
    if MarkerFree(j) {
      forall path | Reach(j, path).Some? ensures !Reserves(Reach(j, path).value) {
        NoneReserved(j, path);
      }
    } else {
      var path := SomeReserved(j);
    }
  }

  lemma {:induction false} NoneReserved(j: Json, path: seq<Hop>)
    requires MarkerFree(j) && Reach(j, path).Some?
    ensures !Reserves(Reach(j, path).value)
    decreases path
  {
    if path != [] {
      NoneReserved(if j.JObj? then j.fields[path[0].name] else j.elements[path[0].at], path[1..]);
    }
  }

  lemma {:induction false} SomeReserved(j: Json) returns (path: seq<Hop>)
    requires !MarkerFree(j)
    ensures Reach(j, path).Some? && Reserves(Reach(j, path).value)
    decreases j
  {
    if j.JArr? {
      var i :| 0 <= i < |j.elements| && !MarkerFree(j.elements[i]);
      var rest := SomeReserved(j.elements[i]);
      ReachBelow(j, Index(i), rest);
      path := [Index(i)] + rest;
    } else if Reserves(j) {
      path := [];
    } else {
      var k :| k in j.fields && !MarkerFree(j.fields[k]);
      var rest := SomeReserved(j.fields[k]);
      ReachBelow(j, Key(k), rest);
      path := [Key(k)] + rest;
    }
  }

  // ----- Decimal numbers -----

  function Decimal(n: nat): (s: string)
    ensures s != [] && s[0] != '-'
  {
    if n < 10 then [DigitChar(n)] else Decimal(n / 10) + [DigitChar(n % 10)]
  }

  function DigitChar(d: nat): (c: char)
    requires d < 10
    ensures '0' <= c <= '9' && c as int - '0' as int == d
  {
    ('0' as int + d) as char
  }

  function ParseDigits(s: string): Option<nat> {
    if s == [] then None
    else
      var c := s[|s| - 1];
      if c < '0' || c > '9' then None
      else if |s| == 1 then Some(c as int - '0' as int)
      else
        match ParseDigits(s[..|s| - 1])
        case None => None
        case Some(high) => Some(10 * high + (c as int - '0' as int))
  }

  /** The integer a number spells, if it spells one. */
  function ParseInt(s: string): Option<int> {
    if s != [] && s[0] == '-' then
      var n := ParseDigits(s[1..]);
      if n.None? then None else Some(0 - n.value)
    else
      var n := ParseDigits(s);
      if n.None? then None else Some(n.value)
  }

  lemma {:induction false} DecimalDigits(n: nat)
    ensures ParseDigits(Decimal(n)) == Some(n)
  {
    if n >= 10 {
      DecimalDigits(n / 10);
      assert Decimal(n)[..|Decimal(n)| - 1] == Decimal(n / 10);
    }
  }

  lemma DecimalRoundTrip(n: nat)
    ensures ParseInt(Decimal(n)) == Some(n)
  {
    DecimalDigits(n);
  }

  // ----- Item markers -----

  function ItemMarker(index: nat): Json {
    JObj(map[ITEM_KEY := JNum(Decimal(index))])
  }

  function MarkerIndex(j: Json): Option<int> {
    if j.JNum? then ParseInt(j.text) else None
  }

  predicate IsItemMarker(m: map<string, Json>) {
    |m| == 1 && ITEM_KEY in m
  }
}
