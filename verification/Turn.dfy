/**
 Content-addressed turns: items and envelopes become objects named by hash, and a turn is
 rebuilt from any store that holds its objects and bytes. A stored object is what its
 ciphertext opens to; hashing is an injective function of the canonical JSON value.
 */
module Turn {
  import opened Words
  import opened Wrappers
  import opened Json
  import opened Layout
  import opened Binary
  import opened Normalizer
  import opened SequenceFraming
  import opened TransformLaws

  datatype Turn = Turn(
    requestLayout: Layout, responseLayout: Layout, requestEnvelope: Json, responseEnvelope: Json,
    requestItems: seq<Item>, responseItems: seq<Item>, requestOriginal: Json, responseOriginal: Json)

  /** A stored object, opened. */
  datatype Content = Content(hash: string, semanticHash: string, kind: string, value: Json)

  /** Hash functions over canonical JSON, and over reference sequences. */
  datatype Hashes = Hashes(content: Json -> string, rebuild: Json -> string, sequence: seq<ObjectRef> -> string)

  ghost predicate IdealHashes(h: Hashes) {
    forall a, b :: h.content(a) == h.content(b) ==> a == b
  }

  /** A rebuild hash names one value. */
  ghost predicate IdealRebuild(h: Hashes) {
    forall a, b :: h.rebuild(a) == h.rebuild(b) ==> a == b
  }

  datatype PreparedSide = PreparedSide(
    layout: Layout, envelopeHash: string, refs: seq<ObjectRef>, sequenceHash: string, rebuildHash: string)

  datatype PreparedTurn = PreparedTurn(
    request: PreparedSide, response: PreparedSide, objects: map<string, Content>, binaries: map<string, Bytes>)

  const REQUEST_ENVELOPE := "request_envelope"
  const RESPONSE_ENVELOPE := "response_envelope"

  function Wrapped(kind: string, value: Json): Json {
    JObj(map["schema_version" := JNum("1"), "kind" := JStr(kind), "value" := value])
  }

  lemma WrappedInjective(kind: string, value: Json, kind': string, value': Json)
    requires Wrapped(kind, value) == Wrapped(kind', value')
    ensures kind == kind' && value == value'
  {
    var a, b := Wrapped(kind, value).fields, Wrapped(kind', value').fields;
    assert a["kind"] == b["kind"] && a["value"] == b["value"];
  }

  /** Occurrence fields do not count for the semantic identity of an item. */
  function Projection(j: Json): Json {
    match j
    case JObj(m) =>
      JObj(map k | k in m &&
             k !in {"id", "status", "created_at", "completed_at", "sequence_number"} :: Projection(m[k]))
    case JArr(a) => JArr(seq(|a|, i requires 0 <= i < |a| => Projection(a[i])))
    case _ => j
  }

  function SemanticHash(h: Hashes, kind: string, value: Json): string {
    h.content(JObj(map["kind" := JStr(kind), "value" := Projection(value)]))
  }

  /** Fields of a single occurrence. */
  predicate Occurrence(key: string) {
    key == "id" || key == "status" || key == "created_at" || key == "completed_at" || key == "sequence_number"
  }

  ghost predicate SameFields(m: map<string, Json>, m': map<string, Json>) {
    forall k :: !Occurrence(k) ==> (k in m <==> k in m') && (k in m ==> Projection(m[k]) == Projection(m'[k]))
  }

  lemma {:induction false} ProjectedFields(m: map<string, Json>)
    ensures Projection(JObj(m)).JObj?
    ensures forall k :: k in Projection(JObj(m)).fields <==> k in m && !Occurrence(k)
    ensures forall k :: k in m && !Occurrence(k) ==> Projection(JObj(m)).fields[k] == Projection(m[k])
  {
  }

  /** Objects mean the same exactly when their fields do, those of a single occurrence left out. */
  lemma {:induction false} ObjectsMean(m: map<string, Json>, m': map<string, Json>)
    ensures Projection(JObj(m)) == Projection(JObj(m')) <==> SameFields(m, m')
  {
    hide Projection;
    hide Occurrence;
    ProjectedFields(m);
    ProjectedFields(m');
    var p, q := Projection(JObj(m)).fields, Projection(JObj(m')).fields;
    if SameFields(m, m') {
      assert p == q;
    }
    if p == q {
      forall k | !Occurrence(k) ensures (k in m <==> k in m') && (k in m ==> Projection(m[k]) == Projection(m'[k])) {
        assert k in p <==> k in q;
        assert k in p ==> p[k] == q[k];
      }
    }
  }

  /** Lists mean the same element by element, and anything else only when it is the same. */
  lemma {:induction false} OthersMean(a: Json, b: Json)
    ensures a.JArr? && b.JArr? ==>
      (Projection(a) == Projection(b) <==>
       && |a.elements| == |b.elements|
       && forall i :: 0 <= i < |a.elements| ==> Projection(a.elements[i]) == Projection(b.elements[i]))
    ensures !(a.JObj? && b.JObj?) && !(a.JArr? && b.JArr?) ==> (Projection(a) == Projection(b) <==> a == b)
  {
    if a.JArr? && b.JArr? {
      var p, q := Projection(a).elements, Projection(b).elements;
      assert |p| == |a.elements| && forall i :: 0 <= i < |p| ==> p[i] == Projection(a.elements[i]);
      assert |q| == |b.elements| && forall i :: 0 <= i < |q| ==> q[i] == Projection(b.elements[i]);
      if p == q {
        forall i | 0 <= i < |p| ensures Projection(a.elements[i]) == Projection(b.elements[i]) {
          assert p[i] == q[i];
        }
      }
      if |p| == |q| && forall i :: 0 <= i < |p| ==> Projection(a.elements[i]) == Projection(b.elements[i]) {
        assert p == q;
      }
    }
  }

  /** Two items have the same semantic hash exactly when they are of one kind and mean the same. */
  lemma SemanticExactly(h: Hashes, kind: string, value: Json, kind': string, value': Json)
    requires IdealHashes(h)
    ensures SemanticHash(h, kind, value) == SemanticHash(h, kind', value') <==>
      kind == kind' && Projection(value) == Projection(value')
  {
    var a := map["kind" := JStr(kind), "value" := Projection(value)];
    var b := map["kind" := JStr(kind'), "value" := Projection(value')];
    assert a["kind"] == JStr(kind) && b["kind"] == JStr(kind');
    assert a["value"] == Projection(value) && b["value"] == Projection(value');
  }

  /** The content of an object is hashed with its kind under schema version 1, so that one hash names
      one kind and value. */
  lemma ContentExactly(h: Hashes, kind: string, value: Json, kind': string, value': Json)
    requires IdealHashes(h)
    ensures ItemObject(h, kind, value).hash == EnvelopeObject(h, kind, value).hash
    ensures ItemObject(h, kind, value).hash ==
      h.content(JObj(map["schema_version" := JNum("1"), "kind" := JStr(kind), "value" := value]))
    ensures ItemObject(h, kind, value).hash == ItemObject(h, kind', value').hash <==> kind == kind' && value == value'
  {
    if Wrapped(kind, value) == Wrapped(kind', value') {
      WrappedInjective(kind, value, kind', value');
    }
  }

  function ItemObject(h: Hashes, kind: string, value: Json): Content {
    Content(h.content(Wrapped(kind, value)), SemanticHash(h, kind, value), kind, value)
  }

  function EnvelopeObject(h: Hashes, kind: string, value: Json): Content {
    var hash := h.content(Wrapped(kind, value));
    Content(hash, hash, kind, value)
  }

  function RefOf(h: Hashes, item: Item): ObjectRef {
    ObjectRef(item.slot, h.content(Wrapped(item.kind, item.value)), SemanticHash(h, item.kind, item.value))
  }

  /** Objects filed under the hash of what they hold. */
  ghost predicate WellFiled(h: Hashes, objects: map<string, Content>) {
    forall k :: k in objects ==>
      objects[k].hash == k && k == h.content(Wrapped(objects[k].kind, objects[k].value))
  }

  ghost predicate Holds(objects: map<string, Content>, c: Content) {
    c.hash in objects && objects[c.hash] == c
  }

  ghost predicate Keeps(more: map<string, Content>, objects: map<string, Content>) {
    forall k :: k in objects ==> k in more && more[k] == objects[k]
  }

  /** Every item of a side is filed, and its references name it. */
  ghost predicate Filed(h: Hashes, objects: map<string, Content>, items: seq<Item>, refs: seq<ObjectRef>) {
    && |refs| == |items|
    && forall i :: 0 <= i < |items| ==>
         refs[i] == RefOf(h, items[i]) && items[i].kind != "" &&
           Holds(objects, ItemObject(h, items[i].kind, items[i].value))
  }

  /** Filing an object cannot contradict what is filed already. */
  ghost predicate Agrees(objects: map<string, Content>, c: Content) {
    c.hash in objects ==> objects[c.hash].semanticHash == c.semanticHash
  }

  /** Add an object, or check that the one already filed is the same. With ideal hashing only
      the semantic hash can differ: an item that poses as an envelope. */
  method AddObject(h: Hashes, objects: map<string, Content>, c: Content) returns (r: Option<map<string, Content>>)
    requires IdealHashes(h) && WellFiled(h, objects) && c.hash == h.content(Wrapped(c.kind, c.value))
    ensures r.Some? <==> Agrees(objects, c)
    ensures r.Some? ==> WellFiled(h, r.value) && Keeps(r.value, objects) && Holds(r.value, c)
    ensures r.Some? ==> r.value.Keys == objects.Keys + {c.hash}
  {
    if c.hash in objects {
      var existing := objects[c.hash];
      WrappedInjective(existing.kind, existing.value, c.kind, c.value);
      if existing.kind != c.kind || existing.semanticHash != c.semanticHash || existing.value != c.value {
        return None;
      }
      assert objects.Keys + {c.hash} == objects.Keys;
      return Some(objects);
    }
    return Some(objects[c.hash := c]);
  }

  lemma KeepsTransitive(a: map<string, Content>, b: map<string, Content>, c: map<string, Content>)
    requires Keeps(a, b) && Keeps(b, c)
    ensures Keeps(a, c)
  {
  }

  lemma FiledKept(h: Hashes, objects: map<string, Content>, more: map<string, Content>, items: seq<Item>,
                  refs: seq<ObjectRef>)
    requires Filed(h, objects, items, refs) && Keeps(more, objects)
    ensures Filed(h, more, items, refs)
  {
  }

  /** Items that can be stored: named, and without malformed inlined content. */
  ghost predicate ItemsFit(c: Codec, items: seq<Item>) {
    forall i :: 0 <= i < |items| ==> items[i].slot != "" && items[i].kind != "" && Transformed(c, items[i].value).Some?
  }

  ghost predicate AllAgree(h: Hashes, objects: map<string, Content>, items: seq<Item>) {
    forall i :: 0 <= i < |items| ==> Agrees(objects, ItemObject(h, items[i].kind, items[i].value))
  }

  ghost function ItemHashes(h: Hashes, items: seq<Item>): set<string> {
    set i | 0 <= i < |items| :: ItemObject(h, items[i].kind, items[i].value).hash
  }

  /** To one more item, filed items make no difference: equal items have equal hashes. */
  lemma ItemsAgree(c: Codec, h: Hashes, objects: map<string, Content>, items: seq<Item>, prepared: seq<Item>,
                   refs: seq<ObjectRef>, filed: map<string, Content>, item: Item)
    requires IdealHashes(h) && ItemsFiled(c, h, objects, items, prepared, refs, filed)
    ensures Agrees(filed, ItemObject(h, item.kind, item.value)) <==>
      Agrees(objects, ItemObject(h, item.kind, item.value))
  {
    hide ItemsFit;
    hide AllAgree;
    hide WellFiled;
    var o := ItemObject(h, item.kind, item.value);
    if o.hash in filed && o.hash !in objects {
      var i :| 0 <= i < |prepared| && ItemObject(h, prepared[i].kind, prepared[i].value).hash == o.hash;
      WrappedInjective(prepared[i].kind, prepared[i].value, item.kind, item.value);
      assert Holds(filed, ItemObject(h, prepared[i].kind, prepared[i].value));
    }
  }

  /** These items are transformed and filed, on top of what was filed before. */
  ghost predicate ItemsFiled(c: Codec, h: Hashes, objects: map<string, Content>, items: seq<Item>,
                             prepared: seq<Item>, refs: seq<ObjectRef>, filed: map<string, Content>) {
    && ItemsFit(c, items) && prepared == TransformedItems(c, items) && AllAgree(h, objects, prepared)
    && Filed(h, filed, prepared, refs) && WellFiled(h, filed) && Keeps(filed, objects)
    && filed.Keys == objects.Keys + ItemHashes(h, prepared)
  }

  /** Transform and file every item of one side. */
  method PrepareItems(c: Codec, h: Hashes, acc: Accumulator, items: seq<Item>, objects: map<string, Content>)
    returns (r: Option<(seq<Item>, seq<ObjectRef>, map<string, Content>)>)
    requires Ideal(c) && IdealHashes(h) && Addressed(c, acc.objects) && WellFiled(h, objects)
    modifies acc
    ensures Addressed(c, acc.objects) && Extends(acc.objects, old(acc.objects))
    ensures r.Some? <==> ItemsFit(c, items) && AllAgree(h, objects, TransformedItems(c, items))
    ensures r.Some? ==> ItemsFiled(c, h, objects, items, r.value.0, r.value.1, r.value.2)
  {
    hide Ideal;
    hide Transformed;
    hide Covered;
    hide WellFiled;
    hide ItemsFiled;
    hide ItemsFit;
    hide AllAgree;
    hide Agrees;
    var prepared: seq<Item> := [];
    var refs: seq<ObjectRef> := [];
    var filed := objects;
    NothingFiled(c, h, objects);
    for i := 0 to |items|
      invariant Addressed(c, acc.objects) && Extends(acc.objects, old(acc.objects))
      invariant ItemsFiled(c, h, objects, items[..i], prepared, refs, filed) && WellFiled(h, filed)
    {
      var item := items[i];
      var t := acc.Transform(c, item.value);
      ItemDecides(c, h, objects, items, i);
      if item.slot == "" || item.kind == "" || t == None {
        return None;
      }
      var done := Item(item.slot, item.kind, t.value);
      ItemsAgree(c, h, objects, items[..i], prepared, refs, filed, done);
      var added := AddObject(h, filed, ItemObject(h, done.kind, done.value));
      if added == None {
        return None;
      }
      FileNext(c, h, objects, items, i, prepared, refs, filed, added.value, done);
      filed := added.value;
      prepared, refs := prepared + [done], refs + [RefOf(h, done)];
    }
    assert items[..|items|] == items;
    FiledMeans(c, h, objects, items, prepared, refs, filed);
    return Some((prepared, refs, filed));
  }

  lemma NothingFiled(c: Codec, h: Hashes, objects: map<string, Content>)
    requires WellFiled(h, objects)
    ensures ItemsFiled(c, h, objects, [], [], [], objects)
  {
    assert objects.Keys == objects.Keys + ItemHashes(h, []);
  }

  lemma FiledMeans(c: Codec, h: Hashes, objects: map<string, Content>, items: seq<Item>,
                   prepared: seq<Item>, refs: seq<ObjectRef>, filed: map<string, Content>)
    requires ItemsFiled(c, h, objects, items, prepared, refs, filed)
    ensures ItemsFit(c, items) && AllAgree(h, objects, TransformedItems(c, items))
    ensures prepared == TransformedItems(c, items) && WellFiled(h, filed)
  {
  }

  /** One item that does not fit or agree spoils them all. */
  lemma ItemDecides(c: Codec, h: Hashes, objects: map<string, Content>, items: seq<Item>, i: nat)
    requires i < |items|
    ensures ItemsFit(c, items) ==> items[i].slot != "" && items[i].kind != "" && Transformed(c, items[i].value).Some?
    ensures ItemsFit(c, items) && AllAgree(h, objects, TransformedItems(c, items)) ==>
              Agrees(objects, ItemObject(h, items[i].kind, Transformed(c, items[i].value).value))
  {
    hide Transformed;
    hide Agrees;
    if ItemsFit(c, items) {
      TransformedAt(c, items, i);
    }
  }

  lemma FileNext(c: Codec, h: Hashes, objects: map<string, Content>, items: seq<Item>, i: nat, prepared: seq<Item>,
                 refs: seq<ObjectRef>, filed: map<string, Content>, added: map<string, Content>, done: Item)
    requires i < |items| && ItemsFiled(c, h, objects, items[..i], prepared, refs, filed)
    requires items[i].slot != "" && items[i].kind != "" && Transformed(c, items[i].value) == Some(done.value)
    requires done.slot == items[i].slot && done.kind == items[i].kind
    requires Agrees(objects, ItemObject(h, done.kind, done.value))
    requires WellFiled(h, added) && Keeps(added, filed) && Holds(added, ItemObject(h, done.kind, done.value))
    requires added.Keys == filed.Keys + {ItemObject(h, done.kind, done.value).hash}
    ensures ItemsFiled(c, h, objects, items[..i + 1], prepared + [done], refs + [RefOf(h, done)], added)
  {
    hide Transformed;
    hide Agrees;
    hide WellFiled;
    hide Keeps;
    hide ItemHashes;
    TransformedAt(c, items, i);
    FiledKept(h, filed, added, prepared, refs);
    KeepsTransitive(added, filed, objects);
    HashesSnoc(h, prepared, done);
    assert items[..i + 1] == items[..i] + [items[i]];
  }

  lemma TransformedAt(c: Codec, items: seq<Item>, i: nat)
    requires i < |items| && Transformed(c, items[i].value).Some?
    ensures TransformedItems(c, items[..i + 1]) ==
            TransformedItems(c, items[..i]) + [Item(items[i].slot, items[i].kind, Transformed(c, items[i].value).value)]
    ensures TransformedItems(c, items)[i] == Item(items[i].slot, items[i].kind, Transformed(c, items[i].value).value)
  {
  }

  lemma HashesSnoc(h: Hashes, items: seq<Item>, item: Item)
    ensures ItemHashes(h, items + [item]) == ItemHashes(h, items) + {ItemObject(h, item.kind, item.value).hash}
  {
    var all := items + [item];
    assert all[|items|] == item;
    forall x | x in ItemHashes(h, items) ensures x in ItemHashes(h, all) {
      var i :| 0 <= i < |items| && x == ItemObject(h, items[i].kind, items[i].value).hash;
      assert all[i] == items[i];
    }
  }

  /** One side of a prepared turn stands for the transformed original. */
  ghost predicate Represents(h: Hashes, side: PreparedSide, kind: string, objects: map<string, Content>,
                             rebuilt: Json) {
    exists envelope, items ::
      && Filed(h, objects, items, side.refs)
      && Holds(objects, EnvelopeObject(h, kind, envelope))
      && side.envelopeHash == EnvelopeObject(h, kind, envelope).hash
      && Assembled(side.layout, envelope, items) == Some(rebuilt)
      && side.sequenceHash == h.sequence(side.refs) && side.rebuildHash == h.rebuild(rebuilt)
  }

  lemma RepresentsKept(h: Hashes, side: PreparedSide, kind: string, objects: map<string, Content>,
                       more: map<string, Content>, rebuilt: Json)
    requires Represents(h, side, kind, objects, rebuilt) && Keeps(more, objects)
    ensures Represents(h, side, kind, more, rebuilt)
  {
    var envelope, items :|
      && Filed(h, objects, items, side.refs)
      && Holds(objects, EnvelopeObject(h, kind, envelope))
      && side.envelopeHash == EnvelopeObject(h, kind, envelope).hash
      && Assembled(side.layout, envelope, items) == Some(rebuilt);
    FiledKept(h, objects, more, items, side.refs);
  }

  /** A side that can be prepared: all of it transforms, and it rebuilds its original. */
  ghost predicate SideFits(c: Codec, layout: Layout, envelope: Json, items: seq<Item>, original: Json) {
    && ItemsFit(c, items) && Transformed(c, envelope).Some? && Transformed(c, original).Some?
    && Assembled(layout, Transformed(c, envelope).value, TransformedItems(c, items)) == Transformed(c, original)
  }

  /** The items and envelope of a side are transformed and filed. */
  ghost predicate SideDone(c: Codec, h: Hashes, objects: map<string, Content>, kind: string, envelope: Json,
                           items: seq<Item>, prepared: seq<Item>, refs: seq<ObjectRef>, added: map<string, Content>)
    requires Transformed(c, envelope).Some?
  {
    && prepared == TransformedItems(c, items) && WellFiled(h, added) && Filed(h, added, prepared, refs)
    && FileOf(h, added, objects, kind, Transformed(c, envelope).value, prepared)
  }

  method FileSide(c: Codec, h: Hashes, acc: Accumulator, kind: string, envelope: Json, items: seq<Item>,
                  objects: map<string, Content>)
    returns (r: Option<(Json, seq<Item>, seq<ObjectRef>, map<string, Content>)>)
    requires Ideal(c) && IdealHashes(h) && Addressed(c, acc.objects) && WellFiled(h, objects)
    modifies acc
    ensures Addressed(c, acc.objects) && Extends(acc.objects, old(acc.objects))
    ensures r.Some? <==> ItemsFit(c, items) && Transformed(c, envelope).Some? &&
                         SideAgrees(h, objects, kind, Transformed(c, envelope).value, TransformedItems(c, items))
    ensures r.Some? ==> r.value.0 == Transformed(c, envelope).value &&
                        SideDone(c, h, objects, kind, envelope, items, r.value.1, r.value.2, r.value.3)
  {
    hide Ideal;
    hide Transformed;
    hide Covered;
    hide WellFiled;
    hide Keeps;
    hide Agrees;
    hide AllAgree;
    hide ItemsFit;
    hide ItemsFiled;
    hide SideDone;
    hide Poses;
    hide IdealHashes;
    hide Extends;
    ghost var start := acc.objects;
    var prepared := PrepareItems(c, h, acc, items, objects);
    if prepared == None {
      return None;
    }
    var (itemsDone, refs, filed) := prepared.value;
    FiledMeans(c, h, objects, items, itemsDone, refs, filed);
    ghost var second := acc.objects;
    var e := acc.Transform(c, envelope);
    ExtendsTransitive(acc.objects, second, start);
    if e == None {
      return None;
    }
    EnvelopeAgrees(c, h, objects, items, itemsDone, refs, filed, kind, e.value);
    var added := AddObject(h, filed, EnvelopeObject(h, kind, e.value));
    if added == None {
      return None;
    }
    SideFiled(c, h, objects, items, itemsDone, refs, filed, added.value, kind, envelope);
    return Some((e.value, itemsDone, refs, added.value));
  }

  /** The parts rebuild the whole. */
  method RebuildsTo(layout: Layout, envelope: Json, items: seq<Item>, whole: Option<Json>) returns (fits: bool)
    ensures fits <==> whole.Some? && Assembled(layout, envelope, items) == whole
  {
    hide Assembled;
    var rebuilt := Assemble(layout, envelope, items);
    return whole.Some? && rebuilt == whole;
  }

  /** Prepare one side: file its items and envelope, and insist that they rebuild exactly the
      transformed original. */
  method PrepareSide(c: Codec, h: Hashes, acc: Accumulator, layout: Layout, kind: string, envelope: Json,
                     items: seq<Item>, original: Json, objects: map<string, Content>)
    returns (r: Option<(PreparedSide, map<string, Content>)>)
    requires Ideal(c) && IdealHashes(h) && Addressed(c, acc.objects) && WellFiled(h, objects)
    modifies acc
    ensures Addressed(c, acc.objects) && Extends(acc.objects, old(acc.objects))
    ensures r.Some? <==> SideFits(c, layout, envelope, items, original) &&
                         SideAgrees(h, objects, kind, Transformed(c, envelope).value, TransformedItems(c, items))
    ensures r.Some? ==> WellFiled(h, r.value.1) && Keeps(r.value.1, objects)
    ensures r.Some? ==>
      && Covered(c, original, acc.objects) && r.value.0.layout == layout
      && Represents(h, r.value.0, kind, r.value.1, Transformed(c, original).value)
      && FileOf(h, r.value.1, objects, kind, Transformed(c, envelope).value, TransformedItems(c, items))
  {
    hide *;
    ghost var start := acc.objects;
    var done := FileSide(c, h, acc, kind, envelope, items, objects);
    if SideFits(c, layout, envelope, items, original) {
      SideFitsMeans(c, layout, envelope, items, original);
    }
    if done == None {
      return None;
    }
    var (e, itemsDone, refs, added) := done.value;
    ghost var second := acc.objects;
    var o := acc.Transform(c, original);
    ExtendsTransitive(acc.objects, second, start);
    DoneMeans(c, h, objects, kind, envelope, items, itemsDone, refs, added);
    var fits := RebuildsTo(layout, e, itemsDone, o);
    SideFitsWhen(c, layout, envelope, items, original);
    if !fits {
      return None;
    }
    var side := PreparedSide(layout, EnvelopeObject(h, kind, e).hash, refs, h.sequence(refs), h.rebuild(o.value));
    SideRepresents(c, h, objects, kind, envelope, items, itemsDone, refs, added, side, o.value);
    return Some((side, added));
  }

  lemma SideFitsMeans(c: Codec, layout: Layout, envelope: Json, items: seq<Item>, original: Json)
    requires SideFits(c, layout, envelope, items, original)
    ensures ItemsFit(c, items) && Transformed(c, envelope).Some? && Transformed(c, original).Some?
  {
  }

  lemma SideFitsWhen(c: Codec, layout: Layout, envelope: Json, items: seq<Item>, original: Json)
    requires ItemsFit(c, items) && Transformed(c, envelope).Some?
    ensures SideFits(c, layout, envelope, items, original) <==>
            Transformed(c, original).Some? &&
            Assembled(layout, Transformed(c, envelope).value, TransformedItems(c, items)) == Transformed(c, original)
  {
  }

  lemma DoneMeans(c: Codec, h: Hashes, objects: map<string, Content>, kind: string, envelope: Json, items: seq<Item>,
                  prepared: seq<Item>, refs: seq<ObjectRef>, added: map<string, Content>)
    requires Transformed(c, envelope).Some? && SideDone(c, h, objects, kind, envelope, items, prepared, refs, added)
    ensures prepared == TransformedItems(c, items) && WellFiled(h, added) && Keeps(added, objects)
    ensures FileOf(h, added, objects, kind, Transformed(c, envelope).value, prepared)
  {
  }

  lemma SideRepresents(c: Codec, h: Hashes, objects: map<string, Content>, kind: string, envelope: Json,
                       items: seq<Item>,
                       prepared: seq<Item>, refs: seq<ObjectRef>, added: map<string, Content>, side: PreparedSide,
                       rebuilt: Json)
    requires Transformed(c, envelope).Some? && SideDone(c, h, objects, kind, envelope, items, prepared, refs, added)
    requires Assembled(side.layout, Transformed(c, envelope).value, prepared) == Some(rebuilt)
    requires side.envelopeHash == EnvelopeObject(h, kind, Transformed(c, envelope).value).hash && side.refs == refs
    requires side.sequenceHash == h.sequence(refs) && side.rebuildHash == h.rebuild(rebuilt)
    ensures Represents(h, side, kind, added, rebuilt)
  {
  }

  lemma ExtendsTransitive(a: map<string, Bytes>, b: map<string, Bytes>, c: map<string, Bytes>)
    requires Extends(a, b) && Extends(b, c)
    ensures Extends(a, c)
  {
  }

  /** An item that is the envelope, kind and all. Items and envelopes are hashed alike but have
      different semantic hashes, so such an item cannot be filed next to its envelope. */
  ghost predicate Poses(items: seq<Item>, kind: string, envelope: Json) {
    exists i :: 0 <= i < |items| && items[i].kind == kind && items[i].value == envelope
  }

  /** The objects of a side can be filed next to others. */
  ghost predicate SideAgrees(h: Hashes, objects: map<string, Content>, kind: string, envelope: Json, items: seq<Item>) {
    && AllAgree(h, objects, items) && Agrees(objects, EnvelopeObject(h, kind, envelope))
    && !Poses(items, kind, envelope)
  }

  /** What filing a side leaves. */
  ghost predicate FileOf(h: Hashes, filed: map<string, Content>, objects: map<string, Content>, kind: string,
                         envelope: Json, items: seq<Item>) {
    && Keeps(filed, objects)
    && filed.Keys == objects.Keys + ItemHashes(h, items) + {EnvelopeObject(h, kind, envelope).hash}
    && Holds(filed, EnvelopeObject(h, kind, envelope))
    && forall i :: 0 <= i < |items| ==> Holds(filed, ItemObject(h, items[i].kind, items[i].value))
  }

  /** Semantic hashes of items are never content hashes. */
  lemma SemanticDiffers(h: Hashes, kind: string, value: Json, kind': string, value': Json)
    requires IdealHashes(h)
    ensures SemanticHash(h, kind, value) != h.content(Wrapped(kind', value'))
  {
    var a := JObj(map["kind" := JStr(kind), "value" := Projection(value)]);
    assert "schema_version" !in a.fields && "schema_version" in Wrapped(kind', value').fields;
  }

  lemma EnvelopeAgrees(c: Codec, h: Hashes, objects: map<string, Content>, items: seq<Item>, prepared: seq<Item>,
                       refs: seq<ObjectRef>, filed: map<string, Content>, kind: string, envelope: Json)
    requires IdealHashes(h) && ItemsFiled(c, h, objects, items, prepared, refs, filed)
    ensures Agrees(filed, EnvelopeObject(h, kind, envelope)) <==>
            Agrees(objects, EnvelopeObject(h, kind, envelope)) && !Poses(prepared, kind, envelope)
  {
    hide ItemsFit;
    hide AllAgree;
    hide WellFiled;
    var e := EnvelopeObject(h, kind, envelope);
    if Poses(prepared, kind, envelope) {
      var i :| 0 <= i < |prepared| && prepared[i].kind == kind && prepared[i].value == envelope;
      assert Holds(filed, ItemObject(h, prepared[i].kind, prepared[i].value));
      SemanticDiffers(h, prepared[i].kind, prepared[i].value, kind, envelope);
    } else {
      forall i | 0 <= i < |prepared| ensures ItemObject(h, prepared[i].kind, prepared[i].value).hash != e.hash {
        if ItemObject(h, prepared[i].kind, prepared[i].value).hash == e.hash {
          WrappedInjective(prepared[i].kind, prepared[i].value, kind, envelope);
        }
      }
      assert e.hash in filed <==> e.hash in objects;
    }
  }

  /** The envelope goes on top of the items. */
  lemma SideFiled(c: Codec, h: Hashes, objects: map<string, Content>, items: seq<Item>, prepared: seq<Item>,
                  refs: seq<ObjectRef>,
                  filed: map<string, Content>, added: map<string, Content>, kind: string, envelope: Json)
    requires Transformed(c, envelope).Some? && ItemsFiled(c, h, objects, items, prepared, refs, filed)
    requires var e := EnvelopeObject(h, kind, Transformed(c, envelope).value);
             Keeps(added, filed) && WellFiled(h, added) && Holds(added, e) && added.Keys == filed.Keys + {e.hash}
    ensures SideDone(c, h, objects, kind, envelope, items, prepared, refs, added)
  {
    hide Transformed;
    hide ItemsFit;
    hide AllAgree;
    hide WellFiled;
    hide Keeps;
    hide ItemHashes;
    FiledKept(h, filed, added, prepared, refs);
    KeepsTransitive(added, filed, objects);
  }

  /** Before sealing, whatever storage already holds under a hash must be the very object. */
  method CheckStored(objects: map<string, Content>, lookup: string -> Option<Content>) returns (ok: bool)
    ensures ok <==> AllStored(lookup, objects)
  {
    var todo := objects.Keys;
    while todo != {}
      invariant todo <= objects.Keys
      invariant forall k :: k in objects && k !in todo && lookup(k).Some? ==> lookup(k).value == objects[k]
      decreases todo
    {
      var k :| k in todo;
      if lookup(k).Some? && lookup(k).value != objects[k] {
        return false;
      }
      todo := todo - {k};
    }
    return true;
  }

  /** What storage already has for a side is the side's own objects. */
  ghost predicate SideStored(h: Hashes, lookup: string -> Option<Content>, kind: string, envelope: Json,
                             items: seq<Item>) {
    && Matches(lookup, EnvelopeObject(h, kind, envelope))
    && forall i :: 0 <= i < |items| ==> Matches(lookup, ItemObject(h, items[i].kind, items[i].value))
  }

  ghost predicate Matches(lookup: string -> Option<Content>, c: Content) {
    lookup(c.hash).Some? ==> lookup(c.hash).value == c
  }

  /** No item of either side is an envelope of the turn. */
  ghost predicate NonePoses(items: seq<Item>, envelope: Json, items': seq<Item>, envelope': Json) {
    && !Poses(items, REQUEST_ENVELOPE, envelope) && !Poses(items, RESPONSE_ENVELOPE, envelope')
    && !Poses(items', REQUEST_ENVELOPE, envelope) && !Poses(items', RESPONSE_ENVELOPE, envelope')
  }

  /** Exactly the turns that can be prepared. */
  ghost predicate Preparable(c: Codec, h: Hashes, turn: Turn, lookup: string -> Option<Content>) {
    && SideFits(c, turn.requestLayout, turn.requestEnvelope, turn.requestItems, turn.requestOriginal)
    && SideFits(c, turn.responseLayout, turn.responseEnvelope, turn.responseItems, turn.responseOriginal)
    && var items, items' := TransformedItems(c, turn.requestItems), TransformedItems(c, turn.responseItems);
       var envelope, envelope' := Transformed(c, turn.requestEnvelope).value,
         Transformed(c, turn.responseEnvelope).value;
    && NonePoses(items, envelope, items', envelope')
    && SideStored(h, lookup, REQUEST_ENVELOPE, envelope, items)
    && SideStored(h, lookup, RESPONSE_ENVELOPE, envelope', items')
  }

  lemma FirstAgrees(h: Hashes, kind: string, envelope: Json, items: seq<Item>)
    ensures SideAgrees(h, map[], kind, envelope, items) <==> !Poses(items, kind, envelope)
  {
  }

  /** How the second side gets along with the first. */
  lemma SecondAgrees(h: Hashes, filed: map<string, Content>, kind: string, envelope: Json, items: seq<Item>,
                     kind': string, envelope': Json, items': seq<Item>)
    requires IdealHashes(h) && FileOf(h, filed, map[], kind, envelope, items) && kind != kind'
    ensures SideAgrees(h, filed, kind', envelope', items') <==>
            !Poses(items', kind, envelope) && !Poses(items, kind', envelope') && !Poses(items', kind', envelope')
  {
    hide SemanticHash;
    forall i | 0 <= i < |items'|
      ensures Agrees(filed, ItemObject(h, items'[i].kind, items'[i].value)) <==>
        !(items'[i].kind == kind && items'[i].value == envelope)
    {
      ItemMeetsFile(h, filed, kind, envelope, items, items'[i]);
    }
    EnvelopeMeetsFile(h, filed, kind, envelope, items, kind', envelope');
  }

  lemma ItemMeetsFile(h: Hashes, filed: map<string, Content>, kind: string, envelope: Json, items: seq<Item>,
                      item: Item)
    requires IdealHashes(h) && FileOf(h, filed, map[], kind, envelope, items)
    ensures Agrees(filed, ItemObject(h, item.kind, item.value)) <==> !(item.kind == kind && item.value == envelope)
  {
    hide Wrapped;
    hide SemanticHash;
    var o := ItemObject(h, item.kind, item.value);
    SemanticDiffers(h, item.kind, item.value, kind, envelope);
    if o.hash == EnvelopeObject(h, kind, envelope).hash {
      WrappedInjective(item.kind, item.value, kind, envelope);
    } else if o.hash in filed {
      var i :| 0 <= i < |items| && ItemObject(h, items[i].kind, items[i].value).hash == o.hash;
      WrappedInjective(items[i].kind, items[i].value, item.kind, item.value);
      assert Holds(filed, ItemObject(h, items[i].kind, items[i].value));
    }
  }

  lemma EnvelopeMeetsFile(h: Hashes, filed: map<string, Content>, kind: string, envelope: Json, items: seq<Item>,
                          kind': string, envelope': Json)
    requires IdealHashes(h) && FileOf(h, filed, map[], kind, envelope, items) && kind != kind'
    ensures Agrees(filed, EnvelopeObject(h, kind', envelope')) <==> !Poses(items, kind', envelope')
  {
    var e := EnvelopeObject(h, kind', envelope');
    if e.hash == EnvelopeObject(h, kind, envelope).hash {
      WrappedInjective(kind, envelope, kind', envelope');
    }
    if Poses(items, kind', envelope') {
      var i :| 0 <= i < |items| && items[i].kind == kind' && items[i].value == envelope';
      assert Holds(filed, ItemObject(h, items[i].kind, items[i].value));
      SemanticDiffers(h, items[i].kind, items[i].value, kind', envelope');
    } else {
      forall i | 0 <= i < |items| ensures ItemObject(h, items[i].kind, items[i].value).hash != e.hash {
        if ItemObject(h, items[i].kind, items[i].value).hash == e.hash {
          WrappedInjective(items[i].kind, items[i].value, kind', envelope');
        }
      }
    }
  }

  /** Checking every filed object is checking the objects of both sides. */
  lemma StoredBySide(h: Hashes, lookup: string -> Option<Content>, filed: map<string, Content>,
                     objects: map<string, Content>, kind: string, envelope: Json, items: seq<Item>)
    requires FileOf(h, filed, objects, kind, envelope, items)
    ensures AllStored(lookup, filed) <==> AllStored(lookup, objects) && SideStored(h, lookup, kind, envelope, items)
  {
    hide SemanticHash;
    if AllStored(lookup, filed) {
      forall k | k in objects ensures lookup(k).Some? ==> lookup(k).value == objects[k] {
        assert filed[k] == objects[k];
      }
    } else {
      var k :| k in filed && lookup(k).Some? && lookup(k).value != filed[k];
      if k !in objects && k != EnvelopeObject(h, kind, envelope).hash {
        var i :| 0 <= i < |items| && ItemObject(h, items[i].kind, items[i].value).hash == k;
        assert Holds(filed, ItemObject(h, items[i].kind, items[i].value));
      }
    }
  }

  ghost predicate AllStored(lookup: string -> Option<Content>, objects: map<string, Content>) {
    forall k :: k in objects ==> (lookup(k).Some? ==> lookup(k).value == objects[k])
  }

  /** Prepare a turn. The result names its objects and bytes; nothing else is needed later. */
  method Prepare(c: Codec, h: Hashes, turn: Turn, lookup: string -> Option<Content>) returns (r: Option<PreparedTurn>)
    requires Ideal(c) && IdealHashes(h)
    ensures r.Some? <==> Preparable(c, h, turn, lookup)
    ensures r.Some? ==>
      && AllStored(lookup, r.value.objects)
      && Transformed(c, turn.requestOriginal).Some? && Covered(c, turn.requestOriginal, r.value.binaries)
      && Transformed(c, turn.responseOriginal).Some? && Covered(c, turn.responseOriginal, r.value.binaries)
      && WellFiled(h, r.value.objects)
      && Represents(h, r.value.request, REQUEST_ENVELOPE, r.value.objects, Transformed(c, turn.requestOriginal).value)
      && Represents(h, r.value.response, RESPONSE_ENVELOPE, r.value.objects,
                    Transformed(c, turn.responseOriginal).value)
  {
    hide Ideal;
    hide IdealHashes;
    hide Represents;
    hide FileOf;
    hide SideFits;
    hide SideAgrees;
    hide SideStored;
    hide AllStored;
    hide Poses;
    hide Transformed;
    hide Covered;
    hide WellFiled;
    ghost var envelope, items := Transformed(c, turn.requestEnvelope), TransformedItems(c, turn.requestItems);
    ghost var envelope', items' := Transformed(c, turn.responseEnvelope), TransformedItems(c, turn.responseItems);
    var acc := new Accumulator();
    NothingStored(h, lookup);
    var a := PrepareSide(c, h, acc, turn.requestLayout, REQUEST_ENVELOPE, turn.requestEnvelope, turn.requestItems,
                         turn.requestOriginal, map[]);
    if SideFits(c, turn.requestLayout, turn.requestEnvelope, turn.requestItems, turn.requestOriginal) {
      SideFitsMeans(c, turn.requestLayout, turn.requestEnvelope, turn.requestItems, turn.requestOriginal);
      FirstAgrees(h, REQUEST_ENVELOPE, envelope.value, items);
    }
    if a == None {
      return None;
    }
    ghost var before := acc.objects;
    var b := PrepareSide(c, h, acc, turn.responseLayout, RESPONSE_ENVELOPE, turn.responseEnvelope, turn.responseItems,
                         turn.responseOriginal, a.value.1);
    if SideFits(c, turn.responseLayout, turn.responseEnvelope, turn.responseItems, turn.responseOriginal) {
      SideFitsMeans(c, turn.responseLayout, turn.responseEnvelope, turn.responseItems, turn.responseOriginal);
      EnvelopesDiffer();
      SecondAgrees(h, a.value.1, REQUEST_ENVELOPE, envelope.value, items, RESPONSE_ENVELOPE, envelope'.value, items');
    }
    if b == None {
      return None;
    }
    CoveredGrows(c, turn.requestOriginal, before, acc.objects);
    RepresentsKept(h, a.value.0, REQUEST_ENVELOPE, a.value.1, b.value.1, Transformed(c, turn.requestOriginal).value);
    StoredBySide(h, lookup, a.value.1, map[], REQUEST_ENVELOPE, envelope.value, items);
    StoredBySide(h, lookup, b.value.1, a.value.1, RESPONSE_ENVELOPE, envelope'.value, items');
    var same := CheckStored(b.value.1, lookup);
    if !same {
      return None;
    }
    return Some(PreparedTurn(a.value.0, b.value.0, b.value.1, acc.objects));
  }

  lemma NothingStored(h: Hashes, lookup: string -> Option<Content>)
    ensures AllStored(lookup, map[]) && WellFiled(h, map[])
  {
  }

  lemma EnvelopesDiffer()
    ensures REQUEST_ENVELOPE != RESPONSE_ENVELOPE
  {
    assert |REQUEST_ENVELOPE| == 16 && |RESPONSE_ENVELOPE| == 17;
  }

  // ----- Rebuilding -----

  /** Open a stored object: its content must hash to its name. */
  predicate Opens(h: Hashes, c: Content) {
    c.hash == h.content(Wrapped(c.kind, c.value))
  }

  /** Objects listed under their own names, as a store lists them. */
  ghost predicate Listed(objects: map<string, Content>) {
    forall k :: k in objects ==> objects[k].hash == k
  }

  /** Open the objects that references name: it works exactly when they are the references of
      some filed items, and gives those. */
  method OpenItems(h: Hashes, objects: map<string, Content>, refs: seq<ObjectRef>) returns (r: Option<seq<Item>>)
    requires Listed(objects)
    ensures forall items :: Filed(h, objects, items, refs) <==> r == Some(items)
  {
    hide SemanticHash;
    hide Wrapped;
    var found: seq<Item> := [];
    for i := 0 to |refs|
      invariant Filed(h, objects, found, refs[..i])
      invariant forall items :: Filed(h, objects, items, refs) ==> found == items[..i]
    {
      var ref := refs[i];
      if ref.objectHash !in objects {
        return None;
      }
      var stored := objects[ref.objectHash];
      if stored.semanticHash != ref.semanticHash || !Opens(h, stored) || stored.kind == "" ||
         SemanticHash(h, stored.kind, stored.value) != ref.semanticHash {
        return None;
      }
      found := found + [Item(ref.slot, stored.kind, stored.value)];
    }
    assert refs[..|refs|] == refs;
    forall items | Filed(h, objects, items, refs) ensures found == items {
      assert items[..|items|] == items;
    }
    return Some(found);
  }

  /** Open one side. What the side stands for comes back when the store holds it; and from any
      store whatever, nothing but what the rebuild hash names. */
  method OpenSide(c: Codec, h: Hashes, side: PreparedSide, kind: string, objects: map<string, Content>,
                  binaries: map<string, Bytes>)
    returns (r: Option<Json>)
    requires Listed(objects)
    ensures forall rebuilt :: Represents(h, side, kind, objects, rebuilt) ==> r == Restored(c, rebuilt, binaries)
    ensures IdealRebuild(h) && r.Some? ==>
      forall rebuilt :: side.rebuildHash == h.rebuild(rebuilt) ==> r == Restored(c, rebuilt, binaries)
  {
    var items := OpenItems(h, objects, side.refs);
    if items == None || side.envelopeHash !in objects {
      return None;
    }
    var stored := objects[side.envelopeHash];
    if stored.kind != kind || !Opens(h, stored) || h.sequence(side.refs) != side.sequenceHash {
      return None;
    }
    var value := Assemble(side.layout, stored.value, items.value);
    if value == None || h.rebuild(value.value) != side.rebuildHash {
      return None;
    }
    return Restored(c, value.value, binaries);
  }

  /** Rebuild a turn from a store: every envelope, item, sequence and rebuild hash is checked,
      and at last the conversation must be readable from what came back. */
  method Reconstruct(c: Codec, h: Hashes, turn: PreparedTurn, objects: map<string, Content>,
                     binaries: map<string, Bytes>, readable: (Json, Json) -> bool)
    returns (r: Option<(Json, Json)>)
    requires Listed(objects)
    ensures forall request, response ::
      Represents(h, turn.request, REQUEST_ENVELOPE, objects, request) &&
      Represents(h, turn.response, RESPONSE_ENVELOPE, objects, response) &&
      Restored(c, request, binaries).Some? && Restored(c, response, binaries).Some? ==>
      r == Shown(Restored(c, request, binaries).value, Restored(c, response, binaries).value, readable)
    ensures IdealRebuild(h) && r.Some? ==> forall request, response ::
      turn.request.rebuildHash == h.rebuild(request) && turn.response.rebuildHash == h.rebuild(response) ==>
      Some(r.value.0) == Restored(c, request, binaries) && Some(r.value.1) == Restored(c, response, binaries)
  {
    hide Represents;
    hide Restored;
    hide Listed;
    hide IdealRebuild;
    var a := OpenSide(c, h, turn.request, REQUEST_ENVELOPE, objects, binaries);
    if a == None {
      return None;
    }
    var b := OpenSide(c, h, turn.response, RESPONSE_ENVELOPE, objects, binaries);
    if b == None {
      return None;
    }
    return Shown(a.value, b.value, readable);
  }

  /** A rebuilt pair is handed out when a conversation can be read from it. */
  function Shown(request: Json, response: Json, readable: (Json, Json) -> bool): Option<(Json, Json)> {
    if readable(request, response) then Some((request, response)) else None
  }

  lemma ShownWhen(request: Json, response: Json, readable: (Json, Json) -> bool)
    ensures var r := Shown(request, response, readable);
      (r.Some? <==> readable(request, response)) && (r.Some? ==> r.value == (request, response))
  {
  }

  /** Prepare a turn, store it among any other objects and bytes, and rebuild it: no check on
      the way fails, and each side comes back with its inlined binaries in canonical spelling, so
      equal to its original exactly when they were written so. */
  method PrepareAndReconstruct(c: Codec, h: Hashes, turn: Turn, others: map<string, Content>,
                               otherBytes: map<string, Bytes>,
                               lookup: string -> Option<Content>, readable: (Json, Json) -> bool)
    returns (prepared: Option<PreparedTurn>, r: Option<(Json, Json)>)
    requires Ideal(c) && IdealHashes(h) && Listed(others)
    requires MarkerFree(turn.requestOriginal) && MarkerFree(turn.responseOriginal)
    ensures prepared.Some? <==> Preparable(c, h, turn, lookup)
    ensures prepared.Some? ==>
      r == Shown(Respelled(c, turn.requestOriginal), Respelled(c, turn.responseOriginal), readable)
    ensures r.Some? ==> (r.value.0 == turn.requestOriginal <==> Canonical(c, turn.requestOriginal))
    ensures r.Some? ==> (r.value.1 == turn.responseOriginal <==> Canonical(c, turn.responseOriginal))
    ensures prepared.None? ==> r.None?
  {
    hide Ideal;
    hide Represents;
    hide IdealHashes;
    r := None;
    prepared := Prepare(c, h, turn, lookup);
    if prepared.Some? {
      var p := prepared.value;
      var objects, binaries := others + p.objects, otherBytes + p.binaries;
      ghost var request, response := Transformed(c, turn.requestOriginal).value,
        Transformed(c, turn.responseOriginal).value;
      RepresentsKept(h, p.request, REQUEST_ENVELOPE, p.objects, objects, request);
      RepresentsKept(h, p.response, RESPONSE_ENVELOPE, p.objects, objects, response);
      CoveredGrows(c, turn.requestOriginal, p.binaries, binaries);
      CoveredGrows(c, turn.responseOriginal, p.binaries, binaries);
      RestoreTransformed(c, turn.requestOriginal, binaries);
      RestoreTransformed(c, turn.responseOriginal, binaries);
      r := Reconstruct(c, h, p, objects, binaries, readable);
    }
    RespelledKept(c, turn.requestOriginal);
    RespelledKept(c, turn.responseOriginal);
  }

  /** A normalized side can be prepared exactly when its original can be transformed. */
  lemma FaithfulFits(c: Codec, side: Side)
    requires Ideal(c) && Faithful(side, side.original)
    ensures SideFits(c, side.layout, side.envelope, side.items, side.original) <==> Transformed(c, side.original).Some?
  {
    hide Transformed;
    hide Assembled;
    hide Ideal;
    if Transformed(c, side.original).Some? {
      forall i | 0 <= i < |side.items| ensures Transformed(c, side.items[i].value).Some? {
        assert Values(side.items)[i] == side.items[i].value;
      }
    }
  }

  /** Nothing else stands in the way of storing two normalized sides: no item is an envelope,
      and what storage already has under their names are their own objects. */
  ghost predicate Undisturbed(c: Codec, h: Hashes, request: Side, response: Side, lookup: string -> Option<Content>) {
    var items, items' := TransformedItems(c, request.items), TransformedItems(c, response.items);
    var envelope, envelope' := T(c, request.envelope), T(c, response.envelope);
    && NonePoses(items, envelope, items', envelope')
    && SideStored(h, lookup, REQUEST_ENVELOPE, envelope, items)
    && SideStored(h, lookup, RESPONSE_ENVELOPE, envelope', items')
  }

  /** Exactly the exchanges that are stored: in shape, free of markers, without malformed
      inlined content, and with objects that nothing disturbs. */
  ghost predicate Storable(parser: Parser, request: Request, response: Response, c: Codec, h: Hashes,
                           lookup: string -> Option<Content>) {
    && RequestAccepted(parser, request) && ResponseAccepted(parser, response)
    && var a, b := RequestSide(parser, request), ResponseSide(parser, response);
    && Transformed(c, a.original).Some? && Transformed(c, b.original).Some? && Undisturbed(c, h, a, b, lookup)
  }

  /** The whole path of an audited exchange: request and response, whole, streamed or absent,
      are normalized, prepared, stored among other objects, and rebuilt. It is stored exactly
      when it is storable. Then both sides come back with their inlined binaries in canonical
      spelling, if a conversation can be read from them: equal to the originals exactly when
      they were written so. */
  method AuditTurn(parser: Parser, request: Request, response: Response, c: Codec, h: Hashes,
                   others: map<string, Content>, otherBytes: map<string, Bytes>, lookup: string -> Option<Content>,
                   readable: (Json, Json) -> bool)
    returns (stored: bool, r: Option<(Json, Json)>)
    requires Ideal(c) && IdealHashes(h) && Listed(others)
    ensures stored <==> Storable(parser, request, response, c, h, lookup)
    ensures stored ==>
      var a, b := RequestSide(parser, request).original, ResponseSide(parser, response).original;
      && (r.Some? <==> readable(Respelled(c, a), Respelled(c, b)))
      && (r.Some? ==> r.value == (Respelled(c, a), Respelled(c, b)))
      && (r.Some? ==> (r.value.0 == a <==> Canonical(c, a)) && (r.value.1 == b <==> Canonical(c, b)))
    ensures !stored ==> r.None?
  {
    hide *;
    stored, r := false, None;
    var sides := NormalizeAudit(parser, request, response);
    StorableMeans(parser, request, response, c, h, lookup);
    if sides.Some? {
      var (a, b) := sides.value;
      var turn := TurnOf(a, b);
      TurnHolds(a, b);
      FaithfulFits(c, a);
      FaithfulFits(c, b);
      PreparableSides(c, h, a, b, lookup);
      var prepared;
      prepared, r := PrepareAndReconstruct(c, h, turn, others, otherBytes, lookup, readable);
      ShownWhen(Respelled(c, a.original), Respelled(c, b.original), readable);
      stored := prepared.Some?;
    }
  }

  function TurnOf(a: Side, b: Side): Turn {
    Turn(a.layout, b.layout, a.envelope, b.envelope, a.items, b.items, a.original, b.original)
  }

  lemma TurnHolds(a: Side, b: Side)
    ensures TurnOf(a, b).requestOriginal == a.original && TurnOf(a, b).responseOriginal == b.original
  {
  }

  lemma StorableMeans(parser: Parser, request: Request, response: Response, c: Codec, h: Hashes,
                      lookup: string -> Option<Content>)
    ensures Storable(parser, request, response, c, h, lookup) ==>
      RequestAccepted(parser, request) && ResponseAccepted(parser, response)
    ensures RequestAccepted(parser, request) && ResponseAccepted(parser, response) ==>
      (Storable(parser, request, response, c, h, lookup) <==>
       && Transformed(c, RequestSide(parser, request).original).Some?
       && Transformed(c, ResponseSide(parser, response).original).Some?
       && Undisturbed(c, h, RequestSide(parser, request), ResponseSide(parser, response), lookup))
  {
    hide RequestSide;
    hide ResponseSide;
    hide RequestAccepted;
    hide ResponseAccepted;
    hide Undisturbed;
    hide Transformed;
  }

  lemma PreparableSides(c: Codec, h: Hashes, a: Side, b: Side, lookup: string -> Option<Content>)
    ensures Preparable(c, h, TurnOf(a, b), lookup) <==>
            && SideFits(c, a.layout, a.envelope, a.items, a.original)
            && SideFits(c, b.layout, b.envelope, b.items, b.original)
            && Undisturbed(c, h, a, b, lookup)
  {
    hide Assembled;
    hide NonePoses;
    hide SideStored;
    hide Transformed;
  }

  /** A chat request whose one message is what is left of the request itself. */
  const POSING := map["type" := JStr(REQUEST_ENVELOPE), MESSAGES := JArr([JObj(map["type" := JStr(REQUEST_ENVELOPE)])])]

  lemma PosingSplit()
    ensures RequestAccepted(ChatCompletions, RequestRoot(POSING))
    ensures var left := JObj(map["type" := JStr(REQUEST_ENVELOPE)]);
            var side := RequestSide(ChatCompletions, RequestRoot(POSING));
            side.items == [Item(MESSAGES, REQUEST_ENVELOPE, left)] && side.envelope == left
  {
    var left := map["type" := JStr(REQUEST_ENVELOPE)];
    MarkersAreLong();
    assert |"type"| == 4 && |MESSAGES| == 8 && |REQUEST_ENVELOPE| == 16;
    assert MarkerFree(JObj(left));
    assert forall k :: k in POSING ==> MarkerFree(POSING[k]);
    assert POSING - {MESSAGES} == left;
  }

  /** Not every accepted request can be stored: this one is accepted, and refused by every
      codec, with every other side and against every store, the empty one included. */
  lemma PosingIsRefused(other: Side, c: Codec, h: Hashes, lookup: string -> Option<Content>)
    ensures RequestAccepted(ChatCompletions, RequestRoot(POSING))
    ensures !Preparable(c, h, TurnOf(RequestSide(ChatCompletions, RequestRoot(POSING)), other), lookup)
    ensures forall response :: !Storable(ChatCompletions, RequestRoot(POSING), response, c, h, lookup)
  {
    hide RequestSide;
    hide RequestAccepted;
    hide ResponseSide;
    hide ResponseAccepted;
    hide Transformed;
    hide SideStored;
    PosingSplit();
    var side := RequestSide(ChatCompletions, RequestRoot(POSING));
    assert Poses(TransformedItems(c, side.items), REQUEST_ENVELOPE, T(c, side.envelope)) by {
      assert TransformedItems(c, side.items)[0].kind == REQUEST_ENVELOPE;
    }
  }
}
