/**
 Binary content inlined in JSON: base64 data URLs and inline file fields are replaced by
 markers that name the bytes by hash, and restored from the stored bytes. Base64, hashing,
 case folding and header parsing are parameters.
 */
module Binary {
  import opened Wrappers
  import opened Json
  import opened Words

  /** The primitives of the environment. */
  datatype Codec = Codec(
    decode: string -> Option<Bytes>,      // base64, padded or raw
    encode: Bytes -> string,              // padded base64
    hash: Bytes -> string,                // identity of the bytes, in hexadecimal
    isData: string -> bool,               // the five-character scheme, ignoring case
    isBase64: string -> bool,             // the header names the base64 encoding
    mediaType: string -> string,          // the header's media type
    lower: string -> string,
    trim: string -> string,
    isFileType: string -> bool)           // a lower-cased type that names a file or attachment, or ""

  /** What is assumed of them: decoding inverts encoding, a hash names its bytes, and lower
      case is left alone. */
  ghost predicate Ideal(c: Codec) {
    && (forall b :: c.decode(c.encode(b)) == Some(b))
    && (forall a, b :: c.hash(a) == c.hash(b) ==> a == b)
    && c.isData("data:")
    && (forall k :: LowerCase(k) ==> c.lower(k) == k)
  }

  predicate LowerCase(s: string) {
    forall i :: 0 <= i < |s| ==> 'a' <= s[i] <= 'z'
  }

  /** How a string is treated. */
  datatype Inline = Plain | Malformed | Inlined(data: Bytes, marker: Json)

  function CommaAt(s: string): (i: int)
    ensures -1 <= i < |s| && (i >= 0 ==> s[i] == ',')
  {
    if s == [] then -1
    else if s[0] == ',' then 0
    else var i := CommaAt(s[1..]); if i < 0 then -1 else i + 1
  }

  function BinaryMarker(fields: map<string, Json>): Json {
    JObj(map[BINARY_KEY := JObj(fields)])
  }

  function ParseDataURL(c: Codec, value: string): Inline {
    if |value| < 5 || !c.isData(value[..5]) then Plain
    else
      var comma := CommaAt(value);
      if comma < 5 then Malformed
      else
        var header := value[5..comma];
        if !c.isBase64(header) then Plain
        else
          match c.decode(value[comma + 1..])
          case None => Malformed
          case Some(data) =>
            Inlined(data, BinaryMarker(map[
              "hash" := JStr(c.hash(data)), "media_type" := JStr(c.mediaType(header)),
              "encoding" := JStr("data_url"), "header" := JStr(header)]))
  }

  predicate IsInlineFileData(c: Codec, parent: map<string, Json>, key: string) {
    && c.lower(key) in {"file_data", "file_content", "attachment_data"}
    && c.isFileType(c.lower(if "type" in parent && parent["type"].JStr? then parent["type"].s else ""))
  }

  /** The media type an inline file's object declares. */
  function DeclaredType(c: Codec, parent: map<string, Json>): string {
    DeclaredIn(c, parent, ["media_type", "mime_type", "content_type"])
  }

  function DeclaredIn(c: Codec, parent: map<string, Json>, keys: seq<string>): string {
    if keys == [] then "application/octet-stream"
    else if keys[0] in parent && parent[keys[0]].JStr? && c.trim(parent[keys[0]].s) != "" then c.trim(parent[keys[0]].s)
    else DeclaredIn(c, parent, keys[1..])
  }

  function ParseInlineFile(c: Codec, parent: map<string, Json>, value: string): Inline {
    if |value| >= 5 && c.isData(value[..5]) then ParseDataURL(c, value)
    else
      match c.decode(value)
      case None => Malformed
      case Some(data) =>
        Inlined(data, BinaryMarker(map[
          "hash" := JStr(c.hash(data)), "media_type" := JStr(DeclaredType(c, parent)), "encoding" := JStr("base64")]))
  }

  /** How the string under a key of an object is treated. */
  function ParseField(c: Codec, parent: map<string, Json>, key: string, value: string): Inline {
    if IsInlineFileData(c, parent, key) && !ParseInlineFile(c, parent, value).Plain? then
      ParseInlineFile(c, parent, value)
    else ParseDataURL(c, value)
  }

  function FieldValue(i: Inline, value: string): Option<Json> {
    match i
    case Plain => Some(JStr(value))
    case Malformed => None
    case Inlined(_, marker) => Some(marker)
  }

  // ----- Which strings are taken out -----

  lemma {:induction false} FirstComma(before: string, after: string)
    requires ',' !in before
    ensures CommaAt(before + "," + after) == |before|
  {
    var s := before + "," + after;
    if before != [] {
      assert s[1..] == before[1..] + "," + after;
      FirstComma(before[1..], after);
    }
  }

  lemma {:induction false} NoComma(s: string)
    requires ',' !in s
    ensures CommaAt(s) == -1
  {
    if s != [] {
      NoComma(s[1..]);
    }
  }

  /** A string that does not start with the scheme stays; with the scheme it must have a comma. */
  lemma NotADataURL(c: Codec, s: string)
    ensures |s| < 5 || !c.isData(s[..5]) ==> ParseDataURL(c, s).Plain?
    ensures |s| >= 5 && c.isData(s[..5]) && ',' !in s ==> ParseDataURL(c, s).Malformed?
  {
    if ',' !in s {
      NoComma(s);
    }
  }

  /** A data URL of four parts: it is taken out exactly when its header names base64, and then its
      payload must decode. The marker keeps what restoring needs. */
  lemma DataURLExactly(c: Codec, scheme: string, header: string, payload: string)
    requires |scheme| == 5 && c.isData(scheme) && ',' !in scheme && ',' !in header
    ensures var i, data := ParseDataURL(c, scheme + header + "," + payload), c.decode(payload);
      && (i.Plain? <==> !c.isBase64(header))
      && (i.Malformed? <==> c.isBase64(header) && data.None?)
      && (i.Inlined? ==>
            && data == Some(i.data)
            && i.marker == JObj(map["$llmapi_logger_binary_v1" := JObj(map[
                 "hash" := JStr(c.hash(i.data)), "media_type" := JStr(c.mediaType(header)),
                 "encoding" := JStr("data_url"), "header" := JStr(header)])]))
  {
    var s := scheme + header + "," + payload;
    FirstComma(scheme + header, payload);
    assert s[..5] == scheme && s[5..5 + |header|] == header && s[5 + |header| + 1..] == payload;
  }

  /** A bare base64 string is taken out exactly under the three field names of an object whose type
      is that of a file, or that has none; there it must decode. */
  lemma InlineFileExactly(c: Codec, parent: map<string, Json>, key: string, s: string)
    requires |s| < 5 || !c.isData(s[..5])
    ensures var i := ParseField(c, parent, key, s);
      var kind := if "type" in parent && parent["type"].JStr? then parent["type"].s else "";
      var named := c.lower(key) == "file_data" || c.lower(key) == "file_content" || c.lower(key) == "attachment_data";
      && (i.Plain? <==> !(named && c.isFileType(c.lower(kind))))
      && (i.Malformed? <==> named && c.isFileType(c.lower(kind)) && c.decode(s).None?)
      && (i.Inlined? ==>
            && c.decode(s) == Some(i.data)
            && i.marker == JObj(map["$llmapi_logger_binary_v1" := JObj(map[
                 "hash" := JStr(c.hash(i.data)), "media_type" := JStr(DeclaredType(c, parent)),
                 "encoding" := JStr("base64")])]))
  {
  }

  predicate DeclaresType(c: Codec, parent: map<string, Json>, key: string) {
    key in parent && parent[key].JStr? && c.trim(parent[key].s) != ""
  }

  lemma DeclaredNext(c: Codec, parent: map<string, Json>, key: string, rest: seq<string>)
    ensures DeclaredIn(c, parent, [key] + rest) ==
      if DeclaresType(c, parent, key) then c.trim(parent[key].s) else DeclaredIn(c, parent, rest)
  {
    assert ([key] + rest)[1..] == rest;
  }

  /** The declared type is the first of three fields that is not blank. */
  lemma DeclaredExactly(c: Codec, parent: map<string, Json>)
    ensures var type_ := DeclaredType(c, parent);
      if DeclaresType(c, parent, "media_type") then type_ == c.trim(parent["media_type"].s)
      else if DeclaresType(c, parent, "mime_type") then type_ == c.trim(parent["mime_type"].s)
      else if DeclaresType(c, parent, "content_type") then type_ == c.trim(parent["content_type"].s)
      else type_ == "application/octet-stream"
  {
    hide DeclaresType;
    DeclaredNext(c, parent, "media_type", ["mime_type", "content_type"]);
    DeclaredNext(c, parent, "mime_type", ["content_type"]);
    DeclaredNext(c, parent, "content_type", []);
    assert ["media_type", "mime_type", "content_type"] == ["media_type"] + ["mime_type", "content_type"];
    assert ["mime_type", "content_type"] == ["mime_type"] + ["content_type"];
    assert ["content_type"] == ["content_type"] + [];
  }

  // ----- The transformation as a function -----

  ghost function Transformed(c: Codec, j: Json): Option<Json>
    decreases j, 0
  {
    match j
    case JStr(s) => FieldValue(ParseDataURL(c, s), s)
    case JArr(a) =>
      if forall i | 0 <= i < |a| :: Transformed(c, a[i]).Some? then
        Some(JArr(seq(|a|, i requires 0 <= i < |a| => Transformed(c, a[i]).value)))
      else None
    case JObj(m) =>
      if forall k | k in m :: TransformedField(c, m, k).Some? then
        Some(JObj(map k | k in m :: TransformedField(c, m, k).value))
      else None
    case _ => Some(j)
  }

  ghost function TransformedField(c: Codec, m: map<string, Json>, k: string): Option<Json>
    requires k in m
    decreases m[k], 1
  {
    if m[k].JStr? then FieldValue(ParseField(c, m, k, m[k].s), m[k].s) else Transformed(c, m[k])
  }

  /** How the string at some place is treated: by its key, if it is the field of an object. */
  ghost function TreatedAt(c: Codec, j: Json, path: seq<Hop>): Inline
    requires Reach(j, path).Some? && Reach(j, path).value.JStr?
  {
    var n, s := |path| - 1, Reach(j, path).value.s;
    if n < 0 || path[n].Index? then ParseDataURL(c, s)
    else
      match Reach(j, path[..n])
      case Some(JObj(parent)) => ParseField(c, parent, path[n].name, s)
      case _ => Plain
  }

  /** What stands at some place after transforming: lists and objects keep their shape, strings
      are treated each on its own, and everything else stays. */
  ghost predicate StandsAt(c: Codec, j: Json, t: Json, path: seq<Hop>)
    requires Reach(j, path).Some?
  {
    && Reach(t, path).Some?
    && var now := Reach(t, path).value;
       match Reach(j, path).value
       case JStr(s) =>
         var treated := TreatedAt(c, j, path);
         (treated.Plain? && now == JStr(s)) || (treated.Inlined? && now == treated.marker)
       case JArr(a) => now.JArr? && |now.elements| == |a|
       case JObj(m) => now.JObj? && now.fields.Keys == m.Keys
       case v => now == v
  }

  /** Over every value: wherever one looks, what is there was transformed. */
  lemma {:induction false} TransformedAt(c: Codec, j: Json, path: seq<Hop>)
    requires Transformed(c, j).Some? && Reach(j, path).Some?
    ensures StandsAt(c, j, Transformed(c, j).value, path)
    decreases |path|
  {
    hide ParseDataURL;
    hide ParseField;
    if path != [] {
      var rest := path[1..];
      if j.JObj? && j.fields[path[0].name].JStr? {
        FieldAt(c, j, path);
      } else {
        var child := if j.JObj? then j.fields[path[0].name] else j.elements[path[0].at];
        TransformedAt(c, child, rest);
        if Reach(j, path).value.JStr? {
          TreatedBelow(c, j, path);
        }
      }
    }
  }

  lemma FieldAt(c: Codec, j: Json, path: seq<Hop>)
    requires Transformed(c, j).Some? && path != [] && Reach(j, path).Some? && j.JObj? && j.fields[path[0].name].JStr?
    ensures StandsAt(c, j, Transformed(c, j).value, path)
  {
    hide ParseDataURL;
    hide ParseField;
    var k, t := path[0].name, Transformed(c, j).value;
    assert path[1..] == [] && path[..0] == [];
    assert TransformedField(c, j.fields, k) == Some(t.fields[k]);
    assert Reach(t, path) == Some(t.fields[k]) && Reach(j, path[..0]) == Some(j);
  }

  lemma TreatedBelow(c: Codec, j: Json, path: seq<Hop>)
    requires path != [] && Reach(j, path).Some? && Reach(j, path).value.JStr?
    requires !(j.JObj? && j.fields[path[0].name].JStr?)
    ensures var child := if j.JObj? then j.fields[path[0].name] else j.elements[path[0].at];
      TreatedAt(c, j, path) == TreatedAt(c, child, path[1..])
  {
    hide ParseDataURL;
    hide ParseField;
    var rest, n := path[1..], |path| - 1;
    if n > 0 {
      assert path[..n][1..] == rest[..n - 1] && rest[n - 1] == path[n];
    }
  }

  /** A value is refused exactly when some string inside, however deep, is malformed where it is. */
  lemma TransformFailsExactly(c: Codec, j: Json)
    ensures Transformed(c, j).None? <==>
      exists path :: Reach(j, path).Some? && Reach(j, path).value.JStr? && TreatedAt(c, j, path).Malformed?
  {
    hide Transformed;
    if Transformed(c, j).None? {
      var path := MalformedInside(c, j);
    } else {
      forall path | Reach(j, path).Some? && Reach(j, path).value.JStr? ensures !TreatedAt(c, j, path).Malformed? {
        TransformedAt(c, j, path);
      }
    }
  }

  lemma {:induction false} MalformedInside(c: Codec, j: Json) returns (path: seq<Hop>)
    requires Transformed(c, j).None?
    ensures Reach(j, path).Some? && Reach(j, path).value.JStr? && TreatedAt(c, j, path).Malformed?
    decreases j
  {
    hide ParseDataURL;
    hide ParseField;
    match j
    case JStr(_) => path := [];
    case JArr(a) =>
      var i :| 0 <= i < |a| && Transformed(c, a[i]).None?;
      var rest := MalformedInside(c, a[i]);
      path := [Index(i)] + rest;
      ReachBelow(j, Index(i), rest);
      TreatedBelow(c, j, path);
    case JObj(m) =>
      var k :| k in m && TransformedField(c, m, k).None?;
      if m[k].JStr? {
        path := [Key(k)];
        assert path[..0] == [] && path[1..] == [];
      } else {
        var rest := MalformedInside(c, m[k]);
        path := [Key(k)] + rest;
        ReachBelow(j, Key(k), rest);
        TreatedBelow(c, j, path);
      }
    case _ =>
  }

  // ----- Collecting the bytes -----

  /** Bytes stored under their own hash. */
  ghost predicate Addressed(c: Codec, objects: map<string, Bytes>) {
    forall h :: h in objects ==> c.hash(objects[h]) == h
  }

  ghost predicate Extends(more: map<string, Bytes>, objects: map<string, Bytes>) {
    objects.Keys <= more.Keys && forall h :: h in objects ==> more[h] == objects[h]
  }

  ghost predicate InlineCovered(c: Codec, i: Inline, objects: map<string, Bytes>) {
    i.Inlined? ==> c.hash(i.data) in objects && objects[c.hash(i.data)] == i.data
  }

  /** Every inlined binary of j is stored. */
  ghost predicate Covered(c: Codec, j: Json, objects: map<string, Bytes>)
    decreases j, 0
  {
    match j
    case JStr(s) => InlineCovered(c, ParseDataURL(c, s), objects)
    case JArr(a) => forall i | 0 <= i < |a| :: Covered(c, a[i], objects)
    case JObj(m) => forall k | k in m :: FieldCovered(c, m, k, objects)
    case _ => true
  }

  ghost predicate FieldCovered(c: Codec, m: map<string, Json>, k: string, objects: map<string, Bytes>)
    requires k in m
    decreases m[k], 1
  {
    if m[k].JStr? then InlineCovered(c, ParseField(c, m, k, m[k].s), objects) else Covered(c, m[k], objects)
  }

  lemma {:induction false} CoveredGrows(c: Codec, j: Json, objects: map<string, Bytes>, more: map<string, Bytes>)
    requires Covered(c, j, objects) && Extends(more, objects)
    ensures Covered(c, j, more)
    decreases j
  {
    match j
    case JArr(a) =>
      forall i | 0 <= i < |a| { CoveredGrows(c, a[i], objects, more); }
    case JObj(m) =>
      forall k | k in m ensures FieldCovered(c, m, k, more) {
        if !m[k].JStr? { CoveredGrows(c, m[k], objects, more); }
      }
    case _ =>
  }

  class Accumulator {
    var objects: map<string, Bytes>

    constructor ()
      ensures objects == map[]
    {
      objects := map[];
    }

    /** Store bytes under their hash, once. */
    method Add(c: Codec, data: Bytes)
      requires Ideal(c) && Addressed(c, objects)
      modifies this
      ensures Addressed(c, objects) && Extends(objects, old(objects))
      ensures c.hash(data) in objects && objects[c.hash(data)] == data
    {
      if c.hash(data) in objects {
        return;
      }
      objects := objects[c.hash(data) := data];
    }

    method Take(c: Codec, i: Inline, value: string) returns (r: Option<Json>)
      requires Ideal(c) && Addressed(c, objects)
      modifies this
      ensures Addressed(c, objects) && Extends(objects, old(objects))
      ensures r == FieldValue(i, value)
      ensures r.Some? ==> InlineCovered(c, i, objects)
    {
      if i.Inlined? {
        Add(c, i.data);
      }
      return FieldValue(i, value);
    }

    /** transformAt: fresh values come out, inlined bytes are collected on the way. */
    method Transform(c: Codec, j: Json) returns (r: Option<Json>)
      requires Ideal(c) && Addressed(c, objects)
      modifies this
      ensures Addressed(c, objects) && Extends(objects, old(objects))
      ensures r == Transformed(c, j)
      ensures r.Some? ==> Covered(c, j, objects)
      decreases j, 1
    {
      match j
      case JStr(s) => r := Take(c, ParseDataURL(c, s), s);
      case JArr(_) => r := TransformArray(c, j);
      case JObj(_) => r := TransformObject(c, j);
      case _ => return Some(j);
    }

    method TransformArray(c: Codec, j: Json) returns (r: Option<Json>)
      requires Ideal(c) && Addressed(c, objects) && j.JArr?
      modifies this
      ensures Addressed(c, objects) && Extends(objects, old(objects))
      ensures r == Transformed(c, j)
      ensures r.Some? ==> Covered(c, j, objects)
      decreases j, 0
    {
      hide Ideal;
      var a := j.elements;
      var output: seq<Json> := [];
      for i := 0 to |a|
        invariant Addressed(c, objects) && Extends(objects, old(objects)) && |output| == i
        invariant forall k :: 0 <= k < i ==> Transformed(c, a[k]) == Some(output[k]) && Covered(c, a[k], objects)
      {
        ghost var before := objects;
        var t := Transform(c, a[i]);
        if t == None {
          return None;
        }
        forall k | 0 <= k < i { CoveredGrows(c, a[k], before, objects); }
        output := output + [t.value];
      }
      assert Transformed(c, j).Some? && Transformed(c, j).value.elements == output;
      return Some(JArr(output));
    }

    /** Object keys are visited in any order. */
    method TransformObject(c: Codec, j: Json) returns (r: Option<Json>)
      requires Ideal(c) && Addressed(c, objects) && j.JObj?
      modifies this
      ensures Addressed(c, objects) && Extends(objects, old(objects))
      ensures r == Transformed(c, j)
      ensures r.Some? ==> Covered(c, j, objects)
      decreases j, 0
    {
      hide Ideal;
      var m := j.fields;
      var output: map<string, Json> := map[];
      var todo := m.Keys;
      while todo != {}
        invariant Addressed(c, objects) && Extends(objects, old(objects))
        invariant todo <= m.Keys && output.Keys == m.Keys - todo
        invariant forall k :: k in output ==>
          TransformedField(c, m, k) == Some(output[k]) && FieldCovered(c, m, k, objects)
        decreases todo
      {
        var key :| key in todo;
        ghost var before := objects;
        var t := TransformField(c, j, key);
        if t == None {
          return None;
        }
        forall k | k in output ensures FieldCovered(c, m, k, objects) {
          if !m[k].JStr? { CoveredGrows(c, m[k], before, objects); }
        }
        output, todo := output[key := t.value], todo - {key};
      }
      assert Transformed(c, j).Some? && Transformed(c, j).value.fields == output;
      return Some(JObj(output));
    }

    method TransformField(c: Codec, j: Json, key: string) returns (r: Option<Json>)
      requires Ideal(c) && Addressed(c, objects) && j.JObj? && key in j.fields
      modifies this
      ensures Addressed(c, objects) && Extends(objects, old(objects))
      ensures r == TransformedField(c, j.fields, key)
      ensures r.Some? ==> FieldCovered(c, j.fields, key, objects)
      decreases j.fields[key], 2
    {
      var child := j.fields[key];
      if child.JStr? {
        r := Take(c, ParseField(c, j.fields, key, child.s), child.s);
      } else {
        r := Transform(c, child);
      }
    }
  }

  // ----- Restoring -----

  function RestoreMarker(c: Codec, marker: map<string, Json>, objects: map<string, Bytes>): Option<Json> {
    if !("hash" in marker && marker["hash"].JStr? && marker["hash"].s in objects) then None
    else
      var data := objects[marker["hash"].s];
      var encoding := if "encoding" in marker && marker["encoding"].JStr? then marker["encoding"].s else "";
      if encoding == "data_url" then
        var header := if "header" in marker && marker["header"].JStr? then marker["header"].s else "";
        Some(JStr("data:" + header + "," + c.encode(data)))
      else if encoding == "base64" then Some(JStr(c.encode(data)))
      else None
  }

  /** RestoreBinaries: every binary marker becomes text again. */
  function Restored(c: Codec, j: Json, objects: map<string, Bytes>): Option<Json>
    decreases j
  {
    match j
    case JObj(m) =>
      if |m| == 1 && BINARY_KEY in m then
        if m[BINARY_KEY].JObj? then RestoreMarker(c, m[BINARY_KEY].fields, objects) else None
      else if forall k | k in m :: Restored(c, m[k], objects).Some? then
        Some(JObj(map k | k in m :: Restored(c, m[k], objects).value))
      else None
    case JArr(a) =>
      if forall i | 0 <= i < |a| :: Restored(c, a[i], objects).Some? then
        Some(JArr(seq(|a|, i requires 0 <= i < |a| => Restored(c, a[i], objects).value)))
      else None
    case _ => Some(j)
  }

  /** A data URL in the one spelling that restoring writes: lower-case scheme and the padded
      base64 of its bytes. */
  predicate CanonicalDataURL(c: Codec, s: string) {
    ParseDataURL(c, s).Inlined? ==>
      s[..5] == "data:" && s[CommaAt(s) + 1..] == c.encode(ParseDataURL(c, s).data)
  }

  predicate CanonicalField(c: Codec, parent: map<string, Json>, key: string, s: string) {
    if IsInlineFileData(c, parent, key) && !(|s| >= 5 && c.isData(s[..5])) then
      c.decode(s).Some? ==> s == c.encode(c.decode(s).value)
    else CanonicalDataURL(c, s)
  }

  /** Every inlined binary of j is written canonically. */
  predicate Canonical(c: Codec, j: Json)
    decreases j, 0
  {
    match j
    case JStr(s) => CanonicalDataURL(c, s)
    case JArr(a) => forall i | 0 <= i < |a| :: Canonical(c, a[i])
    case JObj(m) => forall k | k in m :: FieldCanonical(c, m, k)
    case _ => true
  }

  // ----- What comes back -----

  function RespelledURL(c: Codec, s: string): string {
    var i, comma := ParseDataURL(c, s), CommaAt(s);
    if i.Inlined? then "data:" + s[5..comma] + "," + c.encode(i.data) else s
  }

  function RespelledField(c: Codec, parent: map<string, Json>, key: string, s: string): string {
    if IsInlineFileData(c, parent, key) && !(|s| >= 5 && c.isData(s[..5])) then
      if c.decode(s).Some? then c.encode(c.decode(s).value) else s
    else RespelledURL(c, s)
  }

  /** j with every inlined binary in canonical spelling. */
  ghost function Respelled(c: Codec, j: Json): Json
    decreases j, 0
  {
    match j
    case JStr(s) => JStr(RespelledURL(c, s))
    case JArr(a) => JArr(seq(|a|, i requires 0 <= i < |a| => Respelled(c, a[i])))
    case JObj(m) => JObj(map k | k in m :: FieldRespelled(c, m, k))
    case _ => j
  }

  ghost function FieldRespelled(c: Codec, m: map<string, Json>, k: string): Json
    requires k in m
    decreases m[k], 1
  {
    if m[k].JStr? then JStr(RespelledField(c, m, k, m[k].s)) else Respelled(c, m[k])
  }

  /** How bytes that were inlined as some text are written. */
  ghost predicate WrittenAs(c: Codec, s: string, data: Bytes, text: string) {
    if |s| >= 5 && c.isData(s[..5]) then
      exists header, payload ::
        ',' !in header && s == s[..5] + header + "," + payload && text == "data:" + header + "," + c.encode(data)
    else text == c.encode(data)
  }

  /** What stands at some place of the value that comes back. */
  ghost predicate ComesBackAt(c: Codec, j: Json, back: Json, path: seq<Hop>)
    requires Reach(j, path).Some?
  {
    && Reach(back, path).Some?
    && var now := Reach(back, path).value;
       match Reach(j, path).value
       case JStr(s) =>
         var treated := TreatedAt(c, j, path);
         now.JStr? && if treated.Inlined? then WrittenAs(c, s, treated.data, now.s) else now.s == s
       case JArr(a) => now.JArr? && |now.elements| == |a|
       case JObj(m) => now.JObj? && now.fields.Keys == m.Keys
       case v => now == v
  }

  lemma {:induction false} BeforeComma(s: string)
    ensures forall i :: 0 <= i < CommaAt(s) ==> s[i] != ','
  {
    if s != [] && s[0] != ',' {
      BeforeComma(s[1..]);
      forall i | 0 <= i < CommaAt(s) ensures s[i] != ',' {
        assert i > 0 ==> s[i] == s[1..][i - 1];
      }
    }
  }

  lemma URLWritten(c: Codec, s: string)
    ensures var i := ParseDataURL(c, s);
      if i.Inlined? then WrittenAs(c, s, i.data, RespelledURL(c, s)) else RespelledURL(c, s) == s
  {
    if ParseDataURL(c, s).Inlined? {
      var comma := CommaAt(s);
      BeforeComma(s);
      var header, payload := s[5..comma], s[comma + 1..];
      assert ',' !in header;
      assert s == s[..5] + header + "," + payload;
    }
  }

  lemma FieldWritten(c: Codec, m: map<string, Json>, k: string, s: string)
    ensures var i := ParseField(c, m, k, s);
      if i.Inlined? then WrittenAs(c, s, i.data, RespelledField(c, m, k, s)) else RespelledField(c, m, k, s) == s
  {
    hide ParseDataURL;
    hide RespelledURL;
    URLWritten(c, s);
  }

  /** Over every value: wherever one looks, what comes back is what was there, and inlined binaries
      in their one spelling. */
  lemma {:induction false} RespelledAt(c: Codec, j: Json, path: seq<Hop>)
    requires Reach(j, path).Some?
    ensures ComesBackAt(c, j, Respelled(c, j), path)
    decreases |path|
  {
    hide ParseDataURL;
    hide ParseField;
    hide RespelledURL;
    hide RespelledField;
    hide WrittenAs;
    if path == [] {
      if j.JStr? {
        URLWritten(c, j.s);
      }
    } else if j.JObj? && j.fields[path[0].name].JStr? {
      var k, back := path[0].name, Respelled(c, j);
      assert path[1..] == [] && path[..0] == [];
      assert Reach(back, path) == Some(back.fields[k]) && Reach(j, path[..0]) == Some(j);
      FieldWritten(c, j.fields, k, j.fields[k].s);
    } else {
      var child := if j.JObj? then j.fields[path[0].name] else j.elements[path[0].at];
      RespelledAt(c, child, path[1..]);
      if Reach(j, path).value.JStr? {
        TreatedBelow(c, j, path);
      }
    }
  }

  /** A field that is written the way restoring writes it. */
  predicate FieldCanonical(c: Codec, m: map<string, Json>, k: string)
    requires k in m
    decreases m[k], 1
  {
    if m[k].JStr? then CanonicalField(c, m, k, m[k].s) else Canonical(c, m[k])
  }

  lemma SameURL(s: string, comma: int, payload: string)
    requires 5 <= comma < |s| && s[comma] == ','
    ensures "data:" + s[5..comma] + "," + payload == s <==> s[..5] == "data:" && s[comma + 1..] == payload
  {
    var text := "data:" + s[5..comma] + "," + payload;
    assert s == s[..5] + s[5..comma] + "," + s[comma + 1..];
    assert text[..5] == "data:" && text[comma + 1..] == payload;
  }

  /** A data URL keeps its spelling exactly when that is canonical. */
  lemma URLKept(c: Codec, s: string)
    ensures RespelledURL(c, s) == s <==> CanonicalDataURL(c, s)
  {
    if ParseDataURL(c, s).Inlined? {
      SameURL(s, CommaAt(s), c.encode(ParseDataURL(c, s).data));
    }
  }

  lemma FieldKept(c: Codec, parent: map<string, Json>, key: string, s: string)
    ensures RespelledField(c, parent, key, s) == s <==> CanonicalField(c, parent, key, s)
  {
    URLKept(c, s);
  }

  /** A value is kept exactly when every inlined binary of it is written canonically. */
  lemma {:induction false} RespelledKept(c: Codec, j: Json)
    ensures Respelled(c, j) == j <==> Canonical(c, j)
    decreases j
  {
    hide RespelledURL;
    hide RespelledField;
    hide CanonicalDataURL;
    hide CanonicalField;
    match j
    case JStr(s) => URLKept(c, s);
    case JArr(a) =>
      forall i | 0 <= i < |a| ensures Respelled(c, a[i]) == a[i] <==> Canonical(c, a[i]) {
        RespelledKept(c, a[i]);
      }
      var back := Respelled(c, j).elements;
      assert (forall i :: 0 <= i < |a| ==> back[i] == a[i]) <==> back == a;
    case JObj(m) =>
      forall k | k in m ensures FieldRespelled(c, m, k) == m[k] <==> FieldCanonical(c, m, k) {
        if m[k].JStr? {
          FieldKept(c, m, k, m[k].s);
        } else {
          RespelledKept(c, m[k]);
        }
      }
      var back := Respelled(c, j).fields;
      assert (forall k :: k in m ==> back[k] == m[k]) <==> back == m;
    case _ =>
  }

  /** A marker is alone in its object. */
  lemma MarkerAlone(fields: map<string, Json>)
    ensures BinaryMarker(fields).fields.Keys == {BINARY_KEY} && |BinaryMarker(fields).fields| == 1
  {
    assert BinaryMarker(fields).fields.Keys == {BINARY_KEY};
    assert |BinaryMarker(fields).fields| == |BinaryMarker(fields).fields.Keys|;
  }

  /** Taking a data URL out and restoring it gives its canonical spelling, from any store that
      holds its bytes. */
  lemma DataURLComesBack(c: Codec, s: string, objects: map<string, Bytes>)
    requires FieldValue(ParseDataURL(c, s), s).Some? && InlineCovered(c, ParseDataURL(c, s), objects)
    ensures Restored(c, FieldValue(ParseDataURL(c, s), s).value, objects) == Some(JStr(RespelledURL(c, s)))
  {
    var i := ParseDataURL(c, s);
    if i.Inlined? {
      MarkerAlone(i.marker.fields[BINARY_KEY].fields);
    }
  }

  lemma FieldComesBack(c: Codec, m: map<string, Json>, k: string, objects: map<string, Bytes>)
    requires k in m && m[k].JStr?
    requires var i := ParseField(c, m, k, m[k].s); FieldValue(i, m[k].s).Some? && InlineCovered(c, i, objects)
    ensures var s := m[k].s;
      Restored(c, FieldValue(ParseField(c, m, k, s), s).value, objects) == Some(JStr(RespelledField(c, m, k, s)))
  {
    var s := m[k].s;
    if IsInlineFileData(c, m, k) && !(|s| >= 5 && c.isData(s[..5])) {
      MarkerAlone(ParseInlineFile(c, m, s).marker.fields[BINARY_KEY].fields);
    } else {
      DataURLComesBack(c, s, objects);
    }
  }

  /** An object comes back when its fields do. */
  lemma ObjectComesBack(c: Codec, m: map<string, Json>, objects: map<string, Bytes>)
    requires MarkerFree(JObj(m)) && Transformed(c, JObj(m)).Some?
    requires forall k :: k in m ==> TransformedField(c, m, k).Some?
    requires forall k :: k in m ==>
      Restored(c, TransformedField(c, m, k).value, objects) == Some(FieldRespelled(c, m, k))
    ensures Restored(c, Transformed(c, JObj(m)).value, objects) == Some(Respelled(c, JObj(m)))
  {
    hide TransformedField;
    hide FieldRespelled;
    hide Restored;
    var t := Transformed(c, JObj(m)).value.fields;
    assert t.Keys == m.Keys;
    assert forall k :: k in m ==> t[k] == TransformedField(c, m, k).value;
    RestoredFields(c, t, objects);
    assert Restored(c, JObj(t), objects).value.fields == Respelled(c, JObj(m)).fields;
  }

  lemma RestoredFields(c: Codec, t: map<string, Json>, objects: map<string, Bytes>)
    requires BINARY_KEY !in t && forall k :: k in t ==> Restored(c, t[k], objects).Some?
    ensures Restored(c, JObj(t), objects).Some? && Restored(c, JObj(t), objects).value.JObj?
    ensures Restored(c, JObj(t), objects).value.fields.Keys == t.Keys
    ensures forall k :: k in t ==> Restored(c, JObj(t), objects).value.fields[k] == Restored(c, t[k], objects).value
  {
  }

  lemma ArrayComesBack(c: Codec, a: seq<Json>, objects: map<string, Bytes>)
    requires forall i :: 0 <= i < |a| ==> Transformed(c, a[i]).Some?
    requires forall i :: 0 <= i < |a| ==> Restored(c, Transformed(c, a[i]).value, objects) == Some(Respelled(c, a[i]))
    ensures Transformed(c, JArr(a)).Some?
    ensures Restored(c, Transformed(c, JArr(a)).value, objects) == Some(Respelled(c, JArr(a)))
  {
    var t := Transformed(c, JArr(a)).value;
    assert forall i :: 0 <= i < |a| ==> t.elements[i] == Transformed(c, a[i]).value;
    assert Restored(c, t, objects).value.elements == Respelled(c, JArr(a)).elements;
  }

  /** Restoring what was transformed gives the canonical spelling, for every value free of
      reserved markers and every store that holds its bytes. */
  lemma {:induction false} RestoreTransformed(c: Codec, j: Json, objects: map<string, Bytes>)
    requires MarkerFree(j) && Transformed(c, j).Some? && Covered(c, j, objects)
    ensures Restored(c, Transformed(c, j).value, objects) == Some(Respelled(c, j))
    decreases j
  {
    hide ParseDataURL;
    hide ParseField;
    hide RespelledURL;
    hide RespelledField;
    hide InlineCovered;
    match j
    case JStr(s) => DataURLComesBack(c, s, objects);
    case JArr(a) =>
      forall i | 0 <= i < |a|
        ensures Transformed(c, a[i]).Some?
        ensures Restored(c, Transformed(c, a[i]).value, objects) == Some(Respelled(c, a[i]))
      {
        RestoreTransformed(c, a[i], objects);
      }
      ArrayComesBack(c, a, objects);
    case JObj(m) =>
      forall k | k in m
        ensures TransformedField(c, m, k).Some?
        ensures Restored(c, TransformedField(c, m, k).value, objects) == Some(FieldRespelled(c, m, k))
      {
        if m[k].JStr? {
          FieldComesBack(c, m, k, objects);
        } else {
          RestoreTransformed(c, m[k], objects);
        }
      }
      ObjectComesBack(c, m, objects);
    case _ =>
  }
}
