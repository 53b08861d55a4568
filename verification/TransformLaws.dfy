/**
 Taking binaries out of a value and splitting the value commute: the transformed envelope and
 items rebuild the transformed original. The rebuild check made when a turn is prepared thus
 never refuses what a normalizer split.
 */
module TransformLaws {
  import opened Wrappers
  import opened Json
  import opened Layout
  import opened Binary

  /** The transformed value, where there is one. */
  ghost function T(c: Codec, j: Json): Json {
    if Transformed(c, j).Some? then Transformed(c, j).value else JNull
  }

  ghost function TSeq(c: Codec, values: seq<Json>): (r: seq<Json>)
    ensures |r| == |values| && forall i :: 0 <= i < |r| ==> r[i] == T(c, values[i])
  {
    seq(|values|, i requires 0 <= i < |values| => T(c, values[i]))
  }

  ghost predicate AllTransform(c: Codec, values: seq<Json>) {
    forall i :: 0 <= i < |values| ==> Transformed(c, values[i]).Some?
  }

  /** Items with the binaries taken out of them. */
  ghost function TransformedItems(c: Codec, items: seq<Item>): (r: seq<Item>)
    ensures |r| == |items| && forall i :: 0 <= i < |r| ==>
      r[i] == Item(items[i].slot, items[i].kind, T(c, items[i].value))
  {
    seq(|items|, i requires 0 <= i < |items| => Item(items[i].slot, items[i].kind, T(c, items[i].value)))
  }

  /** Splitting and transforming commute for this split. */
  ghost predicate Commutes(c: Codec, layout: Layout, envelope: Json, items: seq<Item>, original: Json) {
    Transformed(c, original).Some? ==>
      && Transformed(c, envelope).Some? && AllTransform(c, Values(items))
      && Assembled(layout, T(c, envelope), TransformedItems(c, items)) == Some(T(c, original))
  }

  // ----- Objects, field by field -----

  /** Keys that decide how the other strings of an object are read. */
  predicate ContextKey(k: string) {
    k in {"type", "media_type", "mime_type", "content_type"}
  }

  /** A key whose value is transformed as if it stood alone. */
  predicate PlainKey(k: string) {
    LowerCase(k) && k !in {"file_data", "file_content", "attachment_data"} && !ContextKey(k)
  }

  lemma PlainKeys()
    ensures PlainKey(MESSAGES) && PlainKey(PROMPT) && PlainKey(INPUT) && PlainKey(INSTRUCTIONS) && PlainKey(AGGREGATE)
    ensures PlainKey(OUTPUT)
    ensures PlainKey("choices") && PlainKey("message") && PlainKey("text")
  {
  }

  ghost predicate SameContext(m: map<string, Json>, m': map<string, Json>) {
    forall k :: ContextKey(k) ==> (k in m <==> k in m') && (k in m ==> m[k] == m'[k])
  }

  lemma {:induction false} DeclaredSame(c: Codec, m: map<string, Json>, m': map<string, Json>, keys: seq<string>)
    requires SameContext(m, m') && forall i :: 0 <= i < |keys| ==> ContextKey(keys[i])
    ensures DeclaredIn(c, m, keys) == DeclaredIn(c, m', keys)
  {
    if keys != [] {
      assert ContextKey(keys[0]);
      DeclaredSame(c, m, m', keys[1..]);
    }
  }

  lemma FieldContext(c: Codec, m: map<string, Json>, m': map<string, Json>, k: string)
    requires SameContext(m, m') && k in m && k in m' && m[k] == m'[k]
    ensures TransformedField(c, m, k) == TransformedField(c, m', k)
  {
    DeclaredSame(c, m, m', ["media_type", "mime_type", "content_type"]);
    assert ContextKey("type");
  }

  lemma PlainField(c: Codec, m: map<string, Json>, k: string)
    requires Ideal(c) && k in m && PlainKey(k)
    ensures TransformedField(c, m, k) == Transformed(c, m[k])
  {
    assert c.lower(k) == k;
  }

  ghost predicate ObjectTo(c: Codec, m: map<string, Json>, t: map<string, Json>) {
    m.Keys == t.Keys && forall k :: k in m ==> TransformedField(c, m, k) == Some(t[k])
  }

  lemma ObjectTransforms(c: Codec, m: map<string, Json>, t: map<string, Json>)
    ensures Transformed(c, JObj(m)) == Some(JObj(t)) <==> ObjectTo(c, m, t)
  {
    hide TransformedField;
    if ObjectTo(c, m, t) {
      assert Transformed(c, JObj(m)).value.fields == t;
    }
  }

  /** Leaving a plain key out. */
  lemma WithoutKey(c: Codec, m: map<string, Json>, t: map<string, Json>, key: string)
    requires Ideal(c) && key in m && PlainKey(key) && Transformed(c, JObj(m)) == Some(JObj(t))
    ensures Transformed(c, JObj(m - {key})) == Some(JObj(t - {key})) && Transformed(c, m[key]) == Some(t[key])
    ensures t == (t - {key})[key := t[key]]
  {
    hide TransformedField;
    hide Transformed;
    ObjectTransforms(c, m, t);
    ObjectTransforms(c, m - {key}, t - {key});
    PlainField(c, m, key);
    forall k | k in m - {key} ensures TransformedField(c, m - {key}, k) == Some((t - {key})[k]) {
      FieldContext(c, m, m - {key}, k);
    }
  }

  /** Overwriting a plain key with a value that is not a string. */
  lemma WithPlanted(c: Codec, m: map<string, Json>, t: map<string, Json>, key: string, planted: Json)
    requires Ideal(c) && key in m && PlainKey(key) && Transformed(c, JObj(m)) == Some(JObj(t))
    requires Transformed(c, planted).Some?
    ensures Transformed(c, JObj(m[key := planted])) == Some(JObj(t[key := T(c, planted)]))
  {
    hide TransformedField;
    hide Transformed;
    var p, u := m[key := planted], t[key := T(c, planted)];
    ObjectTransforms(c, m, t);
    ObjectTransforms(c, p, u);
    PlainField(c, p, key);
    forall k | k in p ensures TransformedField(c, p, k) == Some(u[k]) {
      if k != key {
        FieldContext(c, m, p, k);
      }
    }
  }

  lemma ArrayTransforms(c: Codec, a: seq<Json>)
    ensures Transformed(c, JArr(a)).Some? <==> AllTransform(c, a)
    ensures AllTransform(c, a) ==> Transformed(c, JArr(a)) == Some(JArr(TSeq(c, a)))
  {
    if AllTransform(c, a) {
      assert Transformed(c, JArr(a)).value.elements == TSeq(c, a);
    }
  }

  // ----- Slots -----

  lemma {:induction false} SlotTransformed(c: Codec, items: seq<Item>, slot: string)
    ensures SlotValues(TransformedItems(c, items), slot) == TSeq(c, SlotValues(items, slot))
  {
    hide Transformed;
    if items != [] {
      var n := |items| - 1;
      SlotTransformed(c, items[..n], slot);
      assert TransformedItems(c, items)[..n] == TransformedItems(c, items[..n]);
    }
  }

  /** A request whose whole list, or single value, went into one slot. */
  lemma SlotCommutes(c: Codec, layout: Layout, slot: string, root: map<string, Json>, items: seq<Item>)
    requires Ideal(c) && PlainKey(slot) && slot in root
    requires (layout, slot) in {(ChatRequest, MESSAGES), (PromptArray, PROMPT), (PromptSingle, PROMPT),
                                (StreamResponse, AGGREGATE)}
    requires if layout.PromptSingle? then Values(items) == [root[slot]] else root[slot] == JArr(Values(items))
    requires SlotValues(items, slot) == Values(items)
    ensures Commutes(c, layout, JObj(root - {slot}), items, JObj(root))
  {
    hide Transformed;
    hide SlotValues;
    if Transformed(c, JObj(root)).Some? {
      var t := Transformed(c, JObj(root)).value;
      ObjectToObject(c, root);
      WithoutKey(c, root, t.fields, slot);
      SlotTransformed(c, items, slot);
      ArrayTransforms(c, Values(items));
    }
  }

  lemma ObjectToObject(c: Codec, m: map<string, Json>)
    requires Transformed(c, JObj(m)).Some?
    ensures Transformed(c, JObj(m)).value.JObj? && Transformed(c, JObj(m)).value.fields.Keys == m.Keys
  {
  }

  // ----- Markers -----

  lemma MarkerStays(c: Codec, index: nat)
    ensures Transformed(c, ItemMarker(index)) == Some(ItemMarker(index))
  {
    var m := map[ITEM_KEY := JNum(Decimal(index))];
    assert TransformedField(c, m, ITEM_KEY) == Some(m[ITEM_KEY]);
    ObjectTransforms(c, m, m);
  }

  lemma ParsedItemFree(c: Codec, m: map<string, Json>, k: string, s: string)
    ensures ParseDataURL(c, s).Inlined? ==> ItemFree(ParseDataURL(c, s).marker)
    ensures ParseField(c, m, k, s).Inlined? ==> ItemFree(ParseField(c, m, k, s).marker)
  {
    assert |ITEM_KEY| == 22 && |BINARY_KEY| == 24;
  }

  /** Transforming plants no item markers. */
  lemma {:induction false} TransformedItemFree(c: Codec, j: Json)
    requires ItemFree(j) && Transformed(c, j).Some?
    ensures ItemFree(T(c, j))
    decreases j
  {
    hide ParseField;
    hide ParseDataURL;
    match j
    case JStr(s) => ParsedItemFree(c, map[], "", s);
    case JArr(a) =>
      ArrayTransforms(c, a);
      forall i | 0 <= i < |a| ensures ItemFree(T(c, a[i])) {
        TransformedItemFree(c, a[i]);
      }
    case JObj(m) =>
      var t := Transformed(c, j).value.fields;
      ObjectTransforms(c, m, t);
      forall k | k in t ensures ItemFree(t[k]) {
        if m[k].JStr? {
          ParsedItemFree(c, m, k, m[k].s);
        } else {
          TransformedItemFree(c, m[k]);
        }
      }
    case _ =>
  }

  /** Planted values stand for the originals they were cut from, before transforming and after. */
  ghost predicate Stands(c: Codec, planted: Json, values: seq<Json>, original: Json) {
    Transformed(c, original).Some? ==>
      Transformed(c, planted).Some? && Replace(T(c, planted), TSeq(c, values)) == Some(T(c, original))
  }

  lemma StandsForItself(c: Codec, j: Json, values: seq<Json>)
    requires ItemFree(j)
    ensures Stands(c, j, values, j)
  {
    if Transformed(c, j).Some? {
      TransformedItemFree(c, j);
      ReplaceItemFree(T(c, j), TSeq(c, values));
    }
  }

  lemma StandsWithMore(c: Codec, planted: Json, values: seq<Json>, more: seq<Json>, original: Json)
    requires Stands(c, planted, values, original)
    ensures Stands(c, planted, values + more, original)
  {
    if Transformed(c, original).Some? {
      ReplaceExtend(T(c, planted), TSeq(c, values), TSeq(c, more));
      assert TSeq(c, values + more) == TSeq(c, values) + TSeq(c, more);
    }
  }

  /** A marker stands for the item it names. */
  lemma MarkerStands(c: Codec, index: nat, values: seq<Json>)
    requires index < |values|
    ensures Stands(c, ItemMarker(index), values, values[index])
  {
    MarkerStays(c, index);
    ReplaceMarker(index, TSeq(c, values));
  }

  /** What stands for the value of a plain key, put under that key, stands for the object. */
  lemma ObjectStands(c: Codec, m: map<string, Json>, key: string, planted: Json, values: seq<Json>)
    requires Ideal(c) && ItemFree(JObj(m)) && key in m && PlainKey(key) && key != ITEM_KEY
    requires Stands(c, planted, values, m[key])
    ensures Stands(c, JObj(m[key := planted]), values, JObj(m))
    ensures Transformed(c, JObj(m)).Some? ==> Transformed(c, m[key]).Some?
  {
    hide Ideal;
    hide Transformed;
    hide ItemFree;
    if Transformed(c, JObj(m)).Some? {
      ObjectToObject(c, m);
      var t := T(c, JObj(m)).fields;
      WithoutKey(c, m, t, key);
      WithPlanted(c, m, t, key, planted);
      TransformedItemFree(c, JObj(m));
      ReplaceUnderKey(t, key, T(c, planted), TSeq(c, values));
    }
  }

  lemma ArrayStands(c: Codec, planted: seq<Json>, originals: seq<Json>, values: seq<Json>)
    requires |planted| == |originals| && forall i :: 0 <= i < |planted| ==> Stands(c, planted[i], values, originals[i])
    ensures Stands(c, JArr(planted), values, JArr(originals))
  {
    hide Transformed;
    ArrayTransforms(c, originals);
    ArrayTransforms(c, planted);
    if Transformed(c, JArr(originals)).Some? {
      assert forall i :: 0 <= i < |planted| ==> Stands(c, planted[i], values, originals[i]);
      ReplaceElements(TSeq(c, planted), TSeq(c, originals), TSeq(c, values));
    }
  }

  ghost predicate AllStand(c: Codec, planted: seq<Json>, originals: seq<Json>, values: seq<Json>) {
    && |planted| == |originals| && (forall i :: 0 <= i < |planted| ==> Stands(c, planted[i], values, originals[i]))
    && (AllTransform(c, originals) ==> AllTransform(c, values))
  }

  lemma StandNext(c: Codec, planted: seq<Json>, originals: seq<Json>, values: seq<Json>, more: seq<Json>, next: Json,
                  original: Json)
    requires AllStand(c, planted, originals, values) && Stands(c, next, values + more, original)
    requires Transformed(c, original).Some? ==> AllTransform(c, more)
    ensures AllStand(c, planted + [next], originals + [original], values + more)
  {
    hide Stands;
    hide Transformed;
    forall i | 0 <= i < |planted| ensures Stands(c, planted[i], values + more, originals[i]) {
      StandsWithMore(c, planted[i], values, more, originals[i]);
    }
    if AllTransform(c, originals + [original]) {
      assert (originals + [original])[|originals|] == original;
      assert forall i :: 0 <= i < |originals| ==> (originals + [original])[i] == originals[i];
    }
  }

  /** An array of planted values under a plain key of the root. */
  lemma RootCommutes(c: Codec, root: map<string, Json>, key: string, planted: seq<Json>, items: seq<Item>)
    requires Ideal(c) && ItemFree(JObj(root)) && key in root && PlainKey(key) && key != ITEM_KEY && root[key].JArr?
    requires AllStand(c, planted, root[key].elements, Values(items))
    ensures Commutes(c, MarkerEnvelope, JObj(root[key := JArr(planted)]), items, JObj(root))
  {
    hide Ideal;
    hide Stands;
    hide Transformed;
    hide ItemFree;
    ArrayStands(c, planted, root[key].elements, Values(items));
    ObjectStands(c, root, key, JArr(planted), Values(items));
    ArrayTransforms(c, root[key].elements);
    MarkersCommute(c, JObj(root[key := JArr(planted)]), items, JObj(root));
  }

  /** A marker envelope that stands for its original commutes. */
  lemma MarkersCommute(c: Codec, envelope: Json, items: seq<Item>, original: Json)
    requires Stands(c, envelope, Values(items), original)
    requires Transformed(c, original).Some? ==> AllTransform(c, Values(items))
    ensures Commutes(c, MarkerEnvelope, envelope, items, original)
  {
    assert Values(TransformedItems(c, items)) == TSeq(c, Values(items));
  }

  // ----- Requests with instructions -----

  /** Instructions, if any, went into their own item, and the input into the rest. */
  lemma ResponsesCommutes(c: Codec, layout: Layout, root: map<string, Json>, instructions: seq<Item>, inputs: seq<Item>)
    requires Ideal(c) && PlainKey(INPUT) && PlainKey(INSTRUCTIONS) && INPUT != INSTRUCTIONS
    requires instructions == [] ||
      (INSTRUCTIONS in root && instructions == [Item(INSTRUCTIONS, "instructions", root[INSTRUCTIONS])])
    requires forall i :: 0 <= i < |inputs| ==> inputs[i].slot == INPUT
    requires match layout
             case ResponsesArray => INPUT in root && root[INPUT] == JArr(Values(inputs))
             case ResponsesSingle => INPUT in root && Values(inputs) == [root[INPUT]]
             case ResponsesNone => INPUT !in root && inputs == []
             case _ => false
    ensures Commutes(c, layout,
                     JObj(root - (if instructions == [] then {} else {INSTRUCTIONS})
                               - (if INPUT in root then {INPUT} else {})),
                     instructions + inputs, JObj(root))
  {
    hide Transformed;
    hide SlotValues;
    if Transformed(c, JObj(root)).Some? {
      ObjectToObject(c, root);
      var t := T(c, JObj(root)).fields;
      var all := instructions + inputs;
      AllSlots(instructions, inputs);
      SlotTransformed(c, all, INSTRUCTIONS);
      SlotTransformed(c, all, INPUT);
      assert Values(all) == Values(instructions) + Values(inputs);
      var env1, t1 := root, t;
      if instructions != [] {
        WithoutKey(c, root, t, INSTRUCTIONS);
        env1, t1 := root - {INSTRUCTIONS}, t - {INSTRUCTIONS};
      } else {
        assert root - {} == root;
      }
      if INPUT in root {
        WithoutKey(c, env1, t1, INPUT);
        ArrayTransforms(c, Values(inputs));
        assert instructions != [] ==> (t1 - {INPUT})[INSTRUCTIONS := t[INSTRUCTIONS]][INPUT := t[INPUT]] == t;
        assert (t - {INPUT})[INPUT := t[INPUT]] == t;
      } else {
        assert env1 - {} == env1;
      }
    }
  }

  lemma {:induction false} OneSlot(items: seq<Item>, slot: string)
    requires forall i :: 0 <= i < |items| ==> items[i].slot == slot
    ensures SlotValues(items, slot) == Values(items) && forall other :: other != slot ==> SlotValues(items, other) == []
  {
    if items != [] {
      OneSlot(items[..|items| - 1], slot);
      assert Values(items) == Values(items[..|items| - 1]) + [items[|items| - 1].value];
    }
  }

  lemma {:induction false} SlotConcat(a: seq<Item>, b: seq<Item>, slot: string)
    ensures SlotValues(a + b, slot) == SlotValues(a, slot) + SlotValues(b, slot)
    decreases b
  {
    if b == [] {
      assert a + b == a;
    } else {
      var n := |b| - 1;
      SlotConcat(a, b[..n], slot);
      assert (a + b)[..|a + b| - 1] == a + b[..n];
    }
  }

  lemma AllSlots(instructions: seq<Item>, inputs: seq<Item>)
    requires forall i :: 0 <= i < |instructions| ==> instructions[i].slot == INSTRUCTIONS
    requires forall i :: 0 <= i < |inputs| ==> inputs[i].slot == INPUT
    requires INPUT != INSTRUCTIONS
    ensures SlotValues(instructions + inputs, INSTRUCTIONS) == Values(instructions)
    ensures SlotValues(instructions + inputs, INPUT) == Values(inputs)
  {
    OneSlot(instructions, INSTRUCTIONS);
    OneSlot(inputs, INPUT);
    SlotConcat(instructions, inputs, INSTRUCTIONS);
    SlotConcat(instructions, inputs, INPUT);
  }
}
