/**
 Putting a normalized value back together: the envelope with the items of each slot written
 back to where the layout says they were, or with item markers replaced.
 */
module Layout {
  import opened Wrappers
  import opened Json

  datatype Layout =
    | NoLayout
    | ChatRequest
    | ResponsesArray
    | ResponsesSingle
    | ResponsesNone
    | PromptArray
    | PromptSingle
    | MarkerEnvelope
    | StreamResponse
    | Unsupported(name: string)

  datatype Item = Item(slot: string, kind: string, value: Json)

  const MESSAGES := "messages"
  const INSTRUCTIONS := "instructions"
  const INPUT := "input"
  const PROMPT := "prompt"
  const OUTPUT := "output"
  const CHOICE := "choice"
  const AGGREGATE := "aggregate"

  function Values(items: seq<Item>): (r: seq<Json>)
    ensures |r| == |items| && forall i :: 0 <= i < |items| ==> r[i] == items[i].value
  {
    seq(|items|, i requires 0 <= i < |items| => items[i].value)
  }

  /** The values of one slot, in order. */
  ghost function SlotValues(items: seq<Item>, slot: string): seq<Json> {
    if items == [] then []
    else SlotValues(items[..|items| - 1], slot) +
         (if items[|items| - 1].slot == slot then [items[|items| - 1].value] else [])
  }

  method ValuesForSlot(items: seq<Item>, slot: string) returns (r: seq<Json>)
    ensures r == SlotValues(items, slot)
  {
    r := [];
    for i := 0 to |items|
      invariant r == SlotValues(items[..i], slot)
    {
      assert items[..i + 1][..i] == items[..i];
      if items[i].slot == slot {
        r := r + [items[i].value];
      }
    }
    assert items[..|items|] == items;
  }

  /** Replace every item marker by the item it names; anything malformed fails. */
  function Replace(j: Json, values: seq<Json>): (r: Option<Json>)
    decreases j
  {
    match j
    case JObj(m) =>
      if IsItemMarker(m) then
        match MarkerIndex(m[ITEM_KEY])
        case None => None
        case Some(index) => if 0 <= index < |values| then Some(values[index]) else None
      else if forall k | k in m :: Replace(m[k], values).Some? then
        Some(JObj(map k | k in m :: Replace(m[k], values).value))
      else None
    case JArr(a) =>
      if forall i | 0 <= i < |a| :: Replace(a[i], values).Some? then
        Some(JArr(seq(|a|, i requires 0 <= i < |a| => Replace(a[i], values).value)))
      else None
    case _ => Some(j)
  }

  /** Write one slot back under its key. */
  ghost function WithSlot(envelope: Json, slot: string, value: Json): Option<Json> {
    if envelope.JObj? then Some(JObj(envelope.fields[slot := value])) else None
  }

  ghost function Assembled(layout: Layout, envelope: Json, items: seq<Item>): Option<Json> {
    match layout
    case NoLayout => Some(envelope)
    case ChatRequest => WithSlot(envelope, MESSAGES, JArr(SlotValues(items, MESSAGES)))
    case ResponsesArray =>
      var root := WithInstructions(envelope, items);
      if root.None? then None else WithSlot(root.value, INPUT, JArr(SlotValues(items, INPUT)))
    case ResponsesSingle =>
      var root, inputs := WithInstructions(envelope, items), SlotValues(items, INPUT);
      if root.None? || |inputs| != 1 then None else WithSlot(root.value, INPUT, inputs[0])
    case ResponsesNone =>
      if SlotValues(items, INPUT) != [] then None else WithInstructions(envelope, items)
    case PromptArray => WithSlot(envelope, PROMPT, JArr(SlotValues(items, PROMPT)))
    case PromptSingle =>
      var prompts := SlotValues(items, PROMPT);
      if |prompts| != 1 then None else WithSlot(envelope, PROMPT, prompts[0])
    case MarkerEnvelope => Replace(envelope, Values(items))
    case StreamResponse => WithSlot(envelope, AGGREGATE, JArr(SlotValues(items, AGGREGATE)))
    case Unsupported(_) => None
  }

  ghost function WithInstructions(envelope: Json, items: seq<Item>): Option<Json> {
    var instructions := SlotValues(items, INSTRUCTIONS);
    if !envelope.JObj? || |instructions| > 1 then None
    else if |instructions| == 1 then Some(JObj(envelope.fields[INSTRUCTIONS := instructions[0]]))
    else Some(envelope)
  }

  method Assemble(layout: Layout, envelope: Json, items: seq<Item>) returns (r: Option<Json>)
    ensures r == Assembled(layout, envelope, items)
  {
    match layout
    case NoLayout => return Some(envelope);
    case MarkerEnvelope => return Replace(envelope, Values(items));
    case Unsupported(_) => return None;
    case ChatRequest => r := AssembleSlot(envelope, items, MESSAGES);
    case PromptArray => r := AssembleSlot(envelope, items, PROMPT);
    case StreamResponse => r := AssembleSlot(envelope, items, AGGREGATE);
    case PromptSingle =>
      if !envelope.JObj? {
        return None;
      }
      var prompts := ValuesForSlot(items, PROMPT);
      return if |prompts| != 1 then None else Some(JObj(envelope.fields[PROMPT := prompts[0]]));
    case ResponsesArray =>
      var root := RestoreInstructions(envelope, items);
      if root == None {
        return None;
      }
      r := AssembleSlot(root.value, items, INPUT);
    case ResponsesSingle =>
      var root := RestoreInstructions(envelope, items);
      if root == None {
        return None;
      }
      var inputs := ValuesForSlot(items, INPUT);
      return if |inputs| != 1 then None else Some(JObj(root.value.fields[INPUT := inputs[0]]));
    case ResponsesNone =>
      var inputs := ValuesForSlot(items, INPUT);
      if inputs != [] {
        return None;
      }
      r := RestoreInstructions(envelope, items);
  }

  method RestoreInstructions(envelope: Json, items: seq<Item>) returns (r: Option<Json>)
    ensures r == WithInstructions(envelope, items) && (r.Some? ==> r.value.JObj?)
  {
    if !envelope.JObj? {
      return None;
    }
    var instructions := ValuesForSlot(items, INSTRUCTIONS);
    if |instructions| > 1 {
      return None;
    }
    if |instructions| == 1 {
      return Some(JObj(envelope.fields[INSTRUCTIONS := instructions[0]]));
    }
    return Some(envelope);
  }

  method AssembleSlot(envelope: Json, items: seq<Item>, slot: string) returns (r: Option<Json>)
    ensures r == WithSlot(envelope, slot, JArr(SlotValues(items, slot)))
  {
    if !envelope.JObj? {
      return None;
    }
    var values := ValuesForSlot(items, slot);
    return Some(JObj(envelope.fields[slot := JArr(values)]));
  }

  // ----- What is put back together -----

  /** The items of a slot. */
  ghost function InSlot(items: seq<Item>, slot: string): set<nat> {
    set i: nat | i < |items| && items[i].slot == slot
  }

  lemma {:induction false} SlotCount(items: seq<Item>, slot: string)
    ensures |SlotValues(items, slot)| == |InSlot(items, slot)|
  {
    if items != [] {
      var n := |items| - 1;
      SlotCount(items[..n], slot);
      var before := InSlot(items[..n], slot);
      assert n !in before && InSlot(items, slot) == if items[n].slot == slot then before + {n} else before;
    }
  }

  /** How many items a layout wants in a slot: any number, at most one, one, or none. */
  datatype Wanted = Any | AtMostOne | One | Nothing

  ghost predicate Fits(wanted: Wanted, count: nat) {
    match wanted
    case Any => true
    case AtMostOne => count <= 1
    case One => count == 1
    case Nothing => count == 0
  }

  /** An object is put back together exactly when every slot its layout knows has as many items as
      it wants. */
  lemma AssembledWhen(layout: Layout, envelope: Json, items: seq<Item>)
    requires !layout.MarkerEnvelope?
    ensures layout.NoLayout? ==> Assembled(layout, envelope, items) == Some(envelope)
    ensures !layout.NoLayout? ==>
      (Assembled(layout, envelope, items).Some? <==>
       && envelope.JObj? && !layout.Unsupported?
       && Fits(if layout.PromptSingle? then One else Any, |InSlot(items, "prompt")|)
       && Fits(if layout.ResponsesSingle? then One else if layout.ResponsesNone? then Nothing else Any,
               |InSlot(items, "input")|)
       && Fits(if layout.ResponsesArray? || layout.ResponsesSingle? || layout.ResponsesNone? then AtMostOne else Any,
               |InSlot(items, "instructions")|))
  {
    hide SlotValues;
    SlotCount(items, PROMPT);
    SlotCount(items, INPUT);
    SlotCount(items, INSTRUCTIONS);
  }

  /** What a layout writes under a key: a list of the slot's values, its one value, or what was
      there. */
  ghost predicate Written(fields: map<string, Json>, was: map<string, Json>, key: string, values: seq<Json>,
                          wanted: Option<Wanted>) {
    match wanted
    case Some(Any) => key in fields && fields[key] == JArr(values)
    case Some(One) => values != [] && key in fields && fields[key] == values[0]
    case Some(AtMostOne) => if values == [] then SameAt(fields, was, key) else key in fields && fields[key] == values[0]
    case _ => SameAt(fields, was, key)
  }

  ghost predicate SameAt(fields: map<string, Json>, was: map<string, Json>, key: string) {
    (key in fields <==> key in was) && (key in fields ==> fields[key] == was[key])
  }

  /** The slots a layout writes back, and how. */
  ghost function Writes(layout: Layout, key: string): Option<Wanted> {
    match layout
    case ChatRequest => if key == "messages" then Some(Any) else None
    case StreamResponse => if key == "aggregate" then Some(Any) else None
    case PromptArray => if key == "prompt" then Some(Any) else None
    case PromptSingle => if key == "prompt" then Some(One) else None
    case ResponsesNone => if key == "instructions" then Some(AtMostOne) else None
    case ResponsesArray =>
      if key == "input" then Some(Any) else if key == "instructions" then Some(AtMostOne) else None
    case ResponsesSingle =>
      if key == "input" then Some(One) else if key == "instructions" then Some(AtMostOne) else None
    case _ => None
  }

  /** Every key of what is put back together. */
  lemma AssembledExactly(layout: Layout, envelope: Json, items: seq<Item>, key: string)
    requires !layout.NoLayout? && !layout.MarkerEnvelope? && Assembled(layout, envelope, items).Some?
    ensures var r := Assembled(layout, envelope, items).value;
      && r.JObj? && envelope.JObj?
      && Written(r.fields, envelope.fields, key, SlotValues(items, key), Writes(layout, key))
  {
    hide SlotValues;
    assert |"messages"| == 8 && |"aggregate"| == 9 && |"prompt"| == 6 && |"input"| == 5 && |"instructions"| == 12;
  }

  /** A marker inside a value names no item: its index is not a number of one of them. */
  ghost predicate Dangles(j: Json, count: nat)
    decreases j
  {
    match j
    case JObj(m) =>
      if m.Keys == {ITEM_KEY} then
        !(m[ITEM_KEY].JNum? && ParseInt(m[ITEM_KEY].text).Some? && 0 <= ParseInt(m[ITEM_KEY].text).value < count)
      else exists k :: k in m && Dangles(m[k], count)
    case JArr(a) => exists i :: 0 <= i < |a| && Dangles(a[i], count)
    case _ => false
  }

  /** Markers are replaced exactly when none dangles. */
  lemma {:induction false} ReplacedExactly(j: Json, values: seq<Json>)
    ensures Replace(j, values).None? <==> Dangles(j, |values|)
    decreases j
  {
    match j
    case JObj(m) =>
      OneKey(m);
      forall k | k in m ensures Replace(m[k], values).None? <==> Dangles(m[k], |values|) {
        ReplacedExactly(m[k], values);
      }
    case JArr(a) =>
      forall i | 0 <= i < |a| ensures Replace(a[i], values).None? <==> Dangles(a[i], |values|) {
        ReplacedExactly(a[i], values);
      }
    case _ =>
  }

  lemma OneKey(m: map<string, Json>)
    ensures IsItemMarker(m) <==> m.Keys == {ITEM_KEY}
  {
    assert |m| == |m.Keys|;
    if |m| == 1 && ITEM_KEY in m {
      assert |m.Keys - {ITEM_KEY}| == 0;
      assert m.Keys == {ITEM_KEY} + (m.Keys - {ITEM_KEY});
    }
  }

  // ----- Slots and markers -----

  lemma SlotSnoc(items: seq<Item>, item: Item, slot: string)
    ensures SlotValues(items + [item], slot) ==
      SlotValues(items, slot) + (if item.slot == slot then [item.value] else [])
  {
    assert (items + [item])[..|items|] == items;
  }

  /** Replacing does nothing to a value without markers. */
  lemma {:induction false} ReplaceItemFree(j: Json, values: seq<Json>)
    requires ItemFree(j)
    ensures Replace(j, values) == Some(j)
    decreases j
  {
    match j
    case JObj(m) =>
      forall k | k in m ensures Replace(m[k], values) == Some(m[k]) {
        ReplaceItemFree(m[k], values);
      }
      assert Replace(j, values).value.fields == m;
    case JArr(a) =>
      forall i | 0 <= i < |a| ensures Replace(a[i], values) == Some(a[i]) {
        ReplaceItemFree(a[i], values);
      }
      assert Replace(j, values).value.elements == a;
    case _ =>
  }

  /** Items appended later do not change what earlier markers stand for. */
  lemma {:induction false} ReplaceExtend(j: Json, values: seq<Json>, more: seq<Json>)
    requires Replace(j, values).Some?
    ensures Replace(j, values + more) == Replace(j, values)
    decreases j
  {
    match j
    case JObj(m) =>
      if !IsItemMarker(m) {
        forall k | k in m ensures Replace(m[k], values + more) == Replace(m[k], values) {
          ReplaceExtend(m[k], values, more);
        }
        assert Replace(j, values + more).value.fields == Replace(j, values).value.fields;
      }
    case JArr(a) =>
      forall i | 0 <= i < |a| ensures Replace(a[i], values + more) == Replace(a[i], values) {
        ReplaceExtend(a[i], values, more);
      }
      assert Replace(j, values + more).value.elements == Replace(j, values).value.elements;
    case _ =>
  }

  /** One key of an object overwritten by something that stands for its value. */
  lemma ReplaceUnderKey(m: map<string, Json>, key: string, planted: Json, values: seq<Json>)
    requires ItemFree(JObj(m)) && key in m && key != ITEM_KEY
    requires Replace(planted, values) == Some(m[key])
    ensures Replace(JObj(m[key := planted]), values) == Some(JObj(m))
  {
    var p := m[key := planted];
    forall k | k in p ensures Replace(p[k], values) == Some(m[k]) {
      if k != key {
        ReplaceItemFree(m[k], values);
      }
    }
    assert !IsItemMarker(p);
    assert Replace(JObj(p), values).value.fields == m;
  }

  lemma ReplaceElements(planted: seq<Json>, originals: seq<Json>, values: seq<Json>)
    requires |planted| == |originals| && forall i :: 0 <= i < |planted| ==>
      Replace(planted[i], values) == Some(originals[i])
    ensures Replace(JArr(planted), values) == Some(JArr(originals))
  {
    assert Replace(JArr(planted), values).Some?;
    assert Replace(JArr(planted), values).value.elements == originals;
  }

  lemma ReplaceMarker(index: nat, values: seq<Json>)
    requires index < |values|
    ensures Replace(ItemMarker(index), values) == Some(values[index])
  {
    DecimalRoundTrip(index);
    var m := map[ITEM_KEY := JNum(Decimal(index))];
    assert m.Keys == {ITEM_KEY};
    assert |m| == 1;
  }
}
