/**
 The OpenAI normalizer: split a decoded request or response into an envelope and a list of
 content items, such that the layout puts the very same value back together.
 */
module Normalizer {
  import opened Wrappers
  import opened Json
  import opened Layout
  import opened Binary
  import opened TransformLaws

  datatype Parser = ChatCompletions | Responses | ResponsesCompact | Completions | OtherParser

  datatype Side = Side(layout: Layout, envelope: Json, items: seq<Item>, original: Json)

  /** The spelling of a string or number, else "". */
  function Text(j: Json): string {
    match j
    case JStr(s) => s
    case JNum(t) => t
    case _ => ""
  }

  function Field(j: Json, key: string): Json {
    if j.JObj? && key in j.fields then j.fields[key] else JNull
  }

  function ItemKind(value: Json, fallback: string): (kind: string)
    ensures fallback != "" ==> kind != ""
  {
    if Text(Field(value, "type")) != "" then Text(Field(value, "type"))
    else if Text(Field(value, "role")) != "" then Text(Field(value, "role")) + "_message"
    else fallback
  }

  function MessageItem(value: Json): Item {
    Item(MESSAGES, ItemKind(value, "message"), value)
  }

  function PromptItem(value: Json): Item {
    Item(PROMPT, "prompt", value)
  }

  function InstructionsItem(value: Json): Item {
    Item(INSTRUCTIONS, "instructions", value)
  }

  function ResponseInputItem(value: Json): Item {
    Item(INPUT, if value.JStr? then "message" else ItemKind(value, "input_item"), value)
  }

  function OutputItem(value: Json): Item {
    Item(OUTPUT, ItemKind(value, "output_item"), value)
  }

  function ChoiceItem(value: Json, chat: bool): Item {
    Item(CHOICE, if chat then ItemKind(value, "message") else "completion", value)
  }

  /** One item per value. */
  function Items(values: seq<Json>, make: Json -> Item): (r: seq<Item>)
    ensures |r| == |values| && forall i :: 0 <= i < |r| ==> r[i] == make(values[i])
  {
    seq(|values|, i requires 0 <= i < |values| => make(values[i]))
  }

  /** A side that rebuilds its original, before and after binaries are taken out of it, with
      items fit for storage. */
  ghost predicate Faithful(side: Side, original: Json) {
    && side.original == original
    && Assembled(side.layout, side.envelope, side.items) == Some(original)
    && (forall c :: Ideal(c) ==> Commutes(c, side.layout, side.envelope, side.items, side.original))
    && forall i :: 0 <= i < |side.items| ==> side.items[i].slot != "" && side.items[i].kind != ""
  }

  /** Requests the normalizer accepts. */
  predicate AcceptsRequest(parser: Parser, root: map<string, Json>) {
    match parser
    case ChatCompletions => MESSAGES in root && root[MESSAGES].JArr?
    case Responses => true
    case ResponsesCompact => true
    case Completions => PROMPT in root
    case OtherParser => false
  }

  // ----- Where each part of a request goes -----

  function SplitChat(root: map<string, Json>): Side
    requires MESSAGES in root && root[MESSAGES].JArr?
  {
    Side(ChatRequest, JObj(root - {MESSAGES}), Items(root[MESSAGES].elements, MessageItem), JObj(root))
  }

  function SplitCompletion(root: map<string, Json>): Side
    requires PROMPT in root
  {
    var many := root[PROMPT].JArr?;
    Side(if many then PromptArray else PromptSingle, JObj(root - {PROMPT}),
         Items(if many then root[PROMPT].elements else [root[PROMPT]], PromptItem), JObj(root))
  }

  /** Instructions that stand in the request, and are not null. */
  function Instructions(root: map<string, Json>): seq<Json> {
    if INSTRUCTIONS in root && root[INSTRUCTIONS] != JNull then [root[INSTRUCTIONS]] else []
  }

  function SplitResponses(root: map<string, Json>): Side {
    var instructions := Items(Instructions(root), InstructionsItem);
    var envelope := root - (if instructions == [] then {} else {INSTRUCTIONS});
    if INPUT !in root then Side(ResponsesNone, JObj(envelope), instructions, JObj(root))
    else
      var many := root[INPUT].JArr?;
      Side(if many then ResponsesArray else ResponsesSingle, JObj(envelope - {INPUT}),
           instructions + Items(if many then root[INPUT].elements else [root[INPUT]], ResponseInputItem), JObj(root))
  }

  function SplitRequest(parser: Parser, root: map<string, Json>): Side
    requires AcceptsRequest(parser, root)
  {
    match parser
    case ChatCompletions => SplitChat(root)
    case Completions => SplitCompletion(root)
    case _ => SplitResponses(root)
  }

  // ----- Requests -----

  /** Append one item per value; their slot then holds exactly these values. */
  method AppendItems(items: seq<Item>, values: seq<Json>, make: Json -> Item, slot: string) returns (r: seq<Item>)
    requires slot != "" && forall v :: make(v).slot == slot && make(v).kind != "" && make(v).value == v
    ensures r == items + Items(values, make)
    ensures SlotValues(r, slot) == SlotValues(items, slot) + values
    ensures items == [] ==> SlotValues(r, slot) == values
    ensures forall other :: other != slot ==> SlotValues(r, other) == SlotValues(items, other)
  {
    r := items;
    for i := 0 to |values|
      invariant r == items + Items(values, make)[..i]
      invariant SlotValues(r, slot) == SlotValues(items, slot) + values[..i]
      invariant forall other :: other != slot ==> SlotValues(r, other) == SlotValues(items, other)
    {
      var item := make(values[i]);
      SlotSnoc(r, item, slot);
      forall other | other != slot ensures SlotValues(r + [item], other) == SlotValues(items, other) {
        SlotSnoc(r, item, other);
      }
      assert values[..i + 1] == values[..i] + [values[i]];
      assert Items(values, make)[..i + 1] == Items(values, make)[..i] + [item];
      r := r + [item];
    }
    assert values[..|values|] == values;
  }

  method NormalizeRequest(parser: Parser, root: map<string, Json>) returns (r: Option<Side>)
    ensures r.Some? <==> AcceptsRequest(parser, root)
    ensures r.Some? ==> r.value == SplitRequest(parser, root) && Faithful(r.value, JObj(root))
  {
    hide Faithful;
    hide SplitChat;
    hide SplitCompletion;
    hide SplitResponses;
    match parser
    case ChatCompletions => r := NormalizeChat(root);
    case Completions => r := NormalizeCompletion(root);
    case OtherParser => return None;
    case _ => r := NormalizeResponsesRequest(root);
  }

  method NormalizeChat(root: map<string, Json>) returns (r: Option<Side>)
    ensures r.Some? <==> MESSAGES in root && root[MESSAGES].JArr?
    ensures r.Some? ==> r.value == SplitChat(root) && Faithful(r.value, JObj(root))
  {
    hide SlotValues;
    hide Commutes;
    hide Ideal;
    if MESSAGES !in root || !root[MESSAGES].JArr? {
      return None;
    }
    var items := AppendItems([], root[MESSAGES].elements, MessageItem, MESSAGES);
    var envelope := root - {MESSAGES};
    assert envelope[MESSAGES := JArr(root[MESSAGES].elements)] == root;
    assert Values(items) == root[MESSAGES].elements;
    SlotAlwaysCommutes(ChatRequest, MESSAGES, root, items);
    return Some(Side(ChatRequest, JObj(envelope), items, JObj(root)));
  }

  /** Whatever the codec, a one-slot request commutes. */
  lemma SlotAlwaysCommutes(layout: Layout, slot: string, root: map<string, Json>, items: seq<Item>)
    requires slot in root
    requires (layout, slot) in {(ChatRequest, MESSAGES), (PromptArray, PROMPT), (PromptSingle, PROMPT),
                                (StreamResponse, AGGREGATE)}
    requires if layout.PromptSingle? then Values(items) == [root[slot]] else root[slot] == JArr(Values(items))
    requires SlotValues(items, slot) == Values(items)
    ensures forall c :: Ideal(c) ==> Commutes(c, layout, JObj(root - {slot}), items, JObj(root))
  {
    hide Ideal;
    hide Commutes;
    PlainKeys();
    forall c | Ideal(c) ensures Commutes(c, layout, JObj(root - {slot}), items, JObj(root)) {
      SlotCommutes(c, layout, slot, root, items);
    }
  }

  method NormalizeCompletion(root: map<string, Json>) returns (r: Option<Side>)
    ensures r.Some? <==> PROMPT in root
    ensures r.Some? ==> r.value == SplitCompletion(root) && Faithful(r.value, JObj(root))
  {
    hide SlotValues;
    hide Commutes;
    hide Ideal;
    if PROMPT !in root {
      return None;
    }
    var envelope, prompt := root - {PROMPT}, root[PROMPT];
    assert envelope[PROMPT := prompt] == root;
    var many := prompt.JArr?;
    var values := if many then prompt.elements else [prompt];
    var items := AppendItems([], values, PromptItem, PROMPT);
    assert Values(items) == values;
    SlotAlwaysCommutes(if many then PromptArray else PromptSingle, PROMPT, root, items);
    return Some(Side(if many then PromptArray else PromptSingle, JObj(envelope), items, JObj(root)));
  }

  method NormalizeResponsesRequest(root: map<string, Json>) returns (r: Option<Side>)
    ensures r == Some(SplitResponses(root)) && Faithful(r.value, JObj(root))
  {
    hide SlotValues;
    hide Faithful;
    hide Ideal;
    var envelope, items := TakeInstructions(root);
    if INPUT !in envelope {
      NoInputFaithful(root, envelope, items);
      return Some(Side(ResponsesNone, JObj(envelope), items, JObj(root)));
    }
    var input := envelope[INPUT];
    var values := if input.JArr? then input.elements else [input];
    var all := AppendItems(items, values, ResponseInputItem, INPUT);
    InputFaithful(root, envelope, items, all, values);
    return Some(Side(if input.JArr? then ResponsesArray else ResponsesSingle, JObj(envelope - {INPUT}), all,
                     JObj(root)));
  }

  /** Instructions are taken out of the root, or there are none to take. */
  ghost predicate InstructionsTaken(root: map<string, Json>, envelope: map<string, Json>, items: seq<Item>) {
    && WithInstructions(JObj(envelope), items) == Some(JObj(root)) && SlotValues(items, INPUT) == []
    && items == Items(Instructions(root), InstructionsItem)
    && (items == [] || (INSTRUCTIONS in root && items == [InstructionsItem(root[INSTRUCTIONS])]))
    && envelope == root - (if items == [] then {} else {INSTRUCTIONS})
    && (INPUT in envelope <==> INPUT in root) && (INPUT in root ==> envelope[INPUT] == root[INPUT])
  }

  lemma NoInputFaithful(root: map<string, Json>, envelope: map<string, Json>, items: seq<Item>)
    requires InstructionsTaken(root, envelope, items) && INPUT !in root
    ensures Faithful(Side(ResponsesNone, JObj(envelope), items, JObj(root)), JObj(root))
  {
    hide SlotValues;
    hide WithInstructions;
    hide Commutes;
    hide Ideal;
    ResponsesAlwaysCommute(ResponsesNone, root, items, []);
    assert envelope - {} == envelope && items + [] == items;
  }

  lemma InputFaithful(root: map<string, Json>, envelope: map<string, Json>, items: seq<Item>, all: seq<Item>,
                      values: seq<Json>)
    requires InstructionsTaken(root, envelope, items) && INPUT in root
    requires values == if root[INPUT].JArr? then root[INPUT].elements else [root[INPUT]]
    requires all == items + Items(values, ResponseInputItem)
    requires SlotValues(all, INPUT) == SlotValues(items, INPUT) + values
    requires SlotValues(all, INSTRUCTIONS) == SlotValues(items, INSTRUCTIONS)
    ensures Faithful(Side(if root[INPUT].JArr? then ResponsesArray else ResponsesSingle, JObj(envelope - {INPUT}),
                          all, JObj(root)), JObj(root))
  {
    hide SlotValues;
    hide WithInstructions;
    hide Commutes;
    hide Ideal;
    hide Assembled;
    hide ResponseInputItem;
    hide Values;
    InputsOf(items, all, values);
    WithoutInput(root, envelope, items, all);
    InputAssembles(root, envelope, all, values);
    ResponsesAlwaysCommute(if root[INPUT].JArr? then ResponsesArray else ResponsesSingle, root, items, all[|items|..]);
  }

  lemma InputsOf(items: seq<Item>, all: seq<Item>, values: seq<Json>)
    requires all == items + Items(values, ResponseInputItem)
    requires items == [] || (|items| == 1 && items[0].slot != "" && items[0].kind != "")
    ensures all == items + all[|items|..] && Values(all[|items|..]) == values
    ensures forall i :: 0 <= i < |all[|items|..]| ==> all[|items|..][i].slot == INPUT
    ensures forall i :: 0 <= i < |all| ==> all[i].slot != "" && all[i].kind != ""
  {
    var inputs := Items(values, ResponseInputItem);
    assert all[|items|..] == inputs && Values(inputs) == values;
  }

  lemma InputAssembles(root: map<string, Json>, envelope: map<string, Json>, all: seq<Item>, values: seq<Json>)
    requires INPUT in root && values == if root[INPUT].JArr? then root[INPUT].elements else [root[INPUT]]
    requires WithInstructions(JObj(envelope - {INPUT}), all) == Some(JObj(root - {INPUT}))
    requires (root - {INPUT})[INPUT := root[INPUT]] == root
    requires SlotValues(all, INPUT) == [] + values
    ensures Assembled(if root[INPUT].JArr? then ResponsesArray else ResponsesSingle, JObj(envelope - {INPUT}), all) ==
      Some(JObj(root))
  {
    hide SlotValues;
    hide WithInstructions;
    assert [] + values == values;
  }

  lemma ResponsesAlwaysCommute(layout: Layout, root: map<string, Json>, instructions: seq<Item>, inputs: seq<Item>)
    requires instructions == [] || (INSTRUCTIONS in root && instructions == [InstructionsItem(root[INSTRUCTIONS])])
    requires forall i :: 0 <= i < |inputs| ==> inputs[i].slot == INPUT
    requires match layout
             case ResponsesArray => INPUT in root && root[INPUT] == JArr(Values(inputs))
             case ResponsesSingle => INPUT in root && Values(inputs) == [root[INPUT]]
             case ResponsesNone => INPUT !in root && inputs == []
             case _ => false
    ensures forall c :: Ideal(c) ==>
      Commutes(c, layout,
               JObj(root - (if instructions == [] then {} else {INSTRUCTIONS})
                         - (if INPUT in root then {INPUT} else {})),
               instructions + inputs, JObj(root))
  {
    hide Ideal;
    hide Commutes;
    PlainKeys();
    assert |INPUT| == 5 && |INSTRUCTIONS| == 12;
    var envelope := JObj(root - (if instructions == [] then {} else {INSTRUCTIONS})
                              - (if INPUT in root then {INPUT} else {}));
    forall c | Ideal(c) ensures Commutes(c, layout, envelope, instructions + inputs, JObj(root)) {
      ResponsesCommutes(c, layout, root, instructions, inputs);
    }
  }

  /** Move non-null instructions out of the root. */
  method TakeInstructions(root: map<string, Json>) returns (envelope: map<string, Json>, items: seq<Item>)
    ensures InstructionsTaken(root, envelope, items)
  {
    envelope, items := root, [];
    assert root - {} == root;
    if INSTRUCTIONS in root && root[INSTRUCTIONS] != JNull {
      items := AppendItems([], [root[INSTRUCTIONS]], InstructionsItem, INSTRUCTIONS);
      envelope := root - {INSTRUCTIONS};
      assert envelope[INSTRUCTIONS := root[INSTRUCTIONS]] == root;
    }
  }

  /** Taking the input out and putting it back leaves the root, instructions included. */
  lemma WithoutInput(root: map<string, Json>, envelope: map<string, Json>, items: seq<Item>, all: seq<Item>)
    requires WithInstructions(JObj(envelope), items) == Some(JObj(root))
    requires INPUT in root && SlotValues(all, INSTRUCTIONS) == SlotValues(items, INSTRUCTIONS)
    ensures WithInstructions(JObj(envelope - {INPUT}), all) == Some(JObj(root - {INPUT}))
    ensures (root - {INPUT})[INPUT := root[INPUT]] == root
  {
    var instructions := SlotValues(items, INSTRUCTIONS);
    if |instructions| == 1 {
      assert (envelope - {INPUT})[INSTRUCTIONS := instructions[0]] == root - {INPUT};
    }
  }

  // ----- JSON responses -----

  const CHOICES := "choices"

  /** JSON responses the normalizer accepts. */
  predicate AcceptsResponse(parser: Parser, root: map<string, Json>) {
    match parser
    case ChatCompletions => true
    case Completions => true
    case OtherParser => false
    case _ => OUTPUT in root ==> root[OUTPUT].JArr?
  }

  /** Planted values stand for the originals they were cut from. */
  ghost predicate Planted(planted: seq<Json>, originals: seq<Json>, values: seq<Json>) {
    |planted| == |originals| && forall i :: 0 <= i < |planted| ==> Replace(planted[i], values) == Some(originals[i])
  }

  lemma PlantNext(planted: seq<Json>, originals: seq<Json>, values: seq<Json>, more: seq<Json>, next: Json,
                  original: Json)
    requires Planted(planted, originals, values)
    requires Replace(next, values + more) == Some(original)
    ensures Planted(planted + [next], originals + [original], values + more)
  {
    forall i | 0 <= i < |planted| ensures Replace(planted[i], values + more) == Some(originals[i]) {
      ReplaceExtend(planted[i], values, more);
    }
  }

  /** Planted, and so after binaries are taken out as well. */
  ghost predicate Cut(planted: seq<Json>, originals: seq<Json>, items: seq<Item>) {
    && Planted(planted, originals, Values(items))
    && (forall c :: Ideal(c) ==> AllStand(c, planted, originals, Values(items)))
    && forall i :: 0 <= i < |items| ==> items[i].slot != "" && items[i].kind != ""
  }

  lemma CutNothing()
    ensures Cut([], [], [])
  {
  }

  /** One more value, cut into an item. */
  lemma CutNext(planted: seq<Json>, originals: seq<Json>, items: seq<Item>, item: Item, next: Json, original: Json)
    requires Cut(planted, originals, items) && item.slot != "" && item.kind != ""
    requires Replace(next, Values(items) + [item.value]) == Some(original)
    requires forall c :: Ideal(c) ==> Stands(c, next, Values(items) + [item.value], original)
    requires forall c :: Ideal(c) ==> (Transformed(c, original).Some? ==> Transformed(c, item.value).Some?)
    ensures Cut(planted + [next], originals + [original], items + [item])
  {
    hide Ideal;
    hide Stands;
    hide AllStand;
    hide Planted;
    hide Transformed;
    PlantNext(planted, originals, Values(items), [item.value], next, original);
    assert Values(items + [item]) == Values(items) + [item.value];
    forall c | Ideal(c) ensures AllStand(c, planted + [next], originals + [original], Values(items) + [item.value]) {
      StandNext(c, planted, originals, Values(items), [item.value], next, original);
    }
  }

  /** One more value, left as it is. */
  lemma CutSkip(planted: seq<Json>, originals: seq<Json>, items: seq<Item>, original: Json)
    requires Cut(planted, originals, items) && ItemFree(original)
    ensures Cut(planted + [original], originals + [original], items)
  {
    hide Ideal;
    hide Stands;
    hide AllStand;
    hide Planted;
    hide Transformed;
    ReplaceItemFree(original, Values(items));
    assert Values(items) + [] == Values(items);
    PlantNext(planted, originals, Values(items), [], original, original);
    forall c | Ideal(c) ensures AllStand(c, planted + [original], originals + [original], Values(items)) {
      StandsForItself(c, original, Values(items));
      StandNext(c, planted, originals, Values(items), [], original, original);
    }
  }

  /** A marker under one key of a choice, for the value that was there. */
  lemma ChoiceCut(choice: map<string, Json>, key: string, values: seq<Json>)
    requires ItemFree(JObj(choice)) && key in choice && PlainKey(key) && key != ITEM_KEY
    ensures Replace(JObj(choice[key := ItemMarker(|values|)]), values + [choice[key]]) == Some(JObj(choice))
    ensures forall c :: Ideal(c) ==>
      Stands(c, JObj(choice[key := ItemMarker(|values|)]), values + [choice[key]], JObj(choice))
    ensures forall c :: Ideal(c) ==> (Transformed(c, JObj(choice)).Some? ==> Transformed(c, choice[key]).Some?)
  {
    hide Ideal;
    hide Stands;
    hide Transformed;
    hide ItemMarker;
    hide Replace;
    hide ItemFree;
    var all, marker := values + [choice[key]], ItemMarker(|values|);
    ReplaceMarker(|values|, all);
    ReplaceUnderKey(choice, key, marker, all);
    forall c | Ideal(c)
      ensures Stands(c, JObj(choice[key := marker]), all, JObj(choice))
      ensures Transformed(c, JObj(choice)).Some? ==> Transformed(c, choice[key]).Some?
    {
      MarkerStands(c, |values|, all);
      ObjectStands(c, choice, key, marker, all);
    }
  }

  /** Every choice with a marker where the field was, and the fields themselves. */
  function ChoicesCut(choices: seq<Json>, key: string, chat: bool): (r: (seq<Json>, seq<Item>)) {
    if choices == [] then ([], [])
    else
      var (planted, items) := ChoicesCut(choices[..|choices| - 1], key, chat);
      var choice := choices[|choices| - 1];
      if choice.JObj? && key in choice.fields then
        (planted + [JObj(choice.fields[key := ItemMarker(|items|)])], items + [ChoiceItem(choice.fields[key], chat)])
      else (planted + [choice], items)
  }

  function Markers(n: nat): seq<Json> {
    seq(n, i requires 0 <= i < n => ItemMarker(i))
  }

  function ListKey(parser: Parser): string {
    if parser.ChatCompletions? || parser.Completions? then CHOICES else OUTPUT
  }

  /** Where each part of a JSON response goes. */
  function SplitResponse(parser: Parser, root: map<string, Json>): Side {
    var key := ListKey(parser);
    if key in root && root[key].JArr? then
      var list := root[key].elements;
      var (planted, items) :=
        if key == OUTPUT then (Markers(|list|), Items(list, OutputItem))
        else ChoicesCut(list, if parser.ChatCompletions? then "message" else "text", parser.ChatCompletions?);
      Side(MarkerEnvelope, JObj(root[key := JArr(planted)]), items, JObj(root))
    else Side(MarkerEnvelope, JObj(root), [], JObj(root))
  }

  /** Cut the given field out of every choice that has it. */
  method CutChoices(choices: seq<Json>, key: string, chat: bool) returns (planted: seq<Json>, items: seq<Item>)
    requires ItemFree(JArr(choices)) && PlainKey(key) && key != ITEM_KEY
    ensures Cut(planted, choices, items) && (planted, items) == ChoicesCut(choices, key, chat)
  {
    hide Cut;
    hide PlainKey;
    hide ItemMarker;
    planted, items := [], [];
    CutNothing();
    for i := 0 to |choices|
      invariant Cut(planted, choices[..i], items) && (planted, items) == ChoicesCut(choices[..i], key, chat)
    {
      var choice := choices[i];
      assert choices[..i + 1] == choices[..i] + [choice];
      assert choices[..i + 1][..i] == choices[..i];
      if choice.JObj? && key in choice.fields {
        var cut := choice.fields[key];
        var item := ChoiceItem(cut, chat);
        ChoiceCut(choice.fields, key, Values(items));
        var marked := JObj(choice.fields[key := ItemMarker(|items|)]);
        CutNext(planted, choices[..i], items, item, marked, choice);
        planted, items := planted + [marked], items + [item];
      } else {
        CutSkip(planted, choices[..i], items, choice);
        planted := planted + [choice];
      }
    }
    assert choices[..|choices|] == choices;
  }

  /** Cut every output item. */
  method CutOutput(values: seq<Json>) returns (planted: seq<Json>, items: seq<Item>)
    ensures Cut(planted, values, items) && planted == Markers(|values|) && items == Items(values, OutputItem)
  {
    hide Cut;
    hide Stands;
    hide ItemMarker;
    planted, items := [], [];
    CutNothing();
    for i := 0 to |values|
      invariant Cut(planted, values[..i], items) && planted == Markers(i) && items == Items(values, OutputItem)[..i]
    {
      assert values[..i + 1] == values[..i] + [values[i]];
      var item := OutputItem(values[i]);
      assert Items(values, OutputItem)[..i + 1] == Items(values, OutputItem)[..i] + [item];
      assert Markers(i + 1) == Markers(i) + [ItemMarker(i)];
      ReplaceMarker(i, Values(items) + [values[i]]);
      forall c | Ideal(c) ensures Stands(c, ItemMarker(i), Values(items) + [values[i]], values[i]) {
        MarkerStands(c, i, Values(items) + [values[i]]);
      }
      CutNext(planted, values[..i], items, item, ItemMarker(i), values[i]);
      planted, items := planted + [ItemMarker(i)], items + [item];
    }
    assert values[..|values|] == values;
  }

  /** A cut array put under a key of the root gives a faithful side. */
  lemma CutIsFaithful(root: map<string, Json>, key: string, planted: seq<Json>, items: seq<Item>)
    requires ItemFree(JObj(root)) && key in root && root[key].JArr? && PlainKey(key) && key != ITEM_KEY
    requires Cut(planted, root[key].elements, items)
    ensures Faithful(Side(MarkerEnvelope, JObj(root[key := JArr(planted)]), items, JObj(root)), JObj(root))
  {
    hide Ideal;
    hide AllStand;
    hide Commutes;
    hide ItemFree;
    hide PlainKey;
    ReplaceElements(planted, root[key].elements, Values(items));
    ReplaceUnderKey(root, key, JArr(planted), Values(items));
    forall c | Ideal(c) ensures Commutes(c, MarkerEnvelope, JObj(root[key := JArr(planted)]), items, JObj(root)) {
      RootCommutes(c, root, key, planted, items);
    }
  }

  /** A root without the list is its own envelope. */
  lemma WholeIsFaithful(root: map<string, Json>)
    requires ItemFree(JObj(root))
    ensures Faithful(Side(MarkerEnvelope, JObj(root), [], JObj(root)), JObj(root))
  {
    hide Ideal;
    hide Transformed;
    assert Values([]) == [];
    ReplaceItemFree(JObj(root), []);
    forall c | Ideal(c) ensures Commutes(c, MarkerEnvelope, JObj(root), [], JObj(root)) {
      StandsForItself(c, JObj(root), []);
      MarkersCommute(c, JObj(root), [], JObj(root));
    }
  }

  method NormalizeJSONResponse(parser: Parser, root: map<string, Json>) returns (r: Option<Side>)
    requires MarkerFree(JObj(root))
    ensures r.Some? <==> AcceptsResponse(parser, root)
    ensures r.None? <==>
      || parser.OtherParser?
      || (!parser.ChatCompletions? && !parser.Completions? && "output" in root && !root["output"].JArr?)
    ensures r.Some? ==> r.value == SplitResponse(parser, root) && Faithful(r.value, JObj(root))
  {
    hide Faithful;
    hide Cut;
    hide ItemFree;
    hide PlainKey;
    if parser == OtherParser {
      return None;
    }
    MarkerFreeIsItemFree(JObj(root));
    KeysAreNotMarkers();
    PlainKeys();
    var key := ListKey(parser);
    if key in root && root[key].JArr? {
      var planted, items;
      if key == CHOICES {
        MarkerFreeIsItemFree(root[key]);
        planted, items := CutChoices(root[key].elements, if parser.ChatCompletions? then "message" else "text",
                                     parser.ChatCompletions?);
      } else {
        planted, items := CutOutput(root[key].elements);
      }
      CutIsFaithful(root, key, planted, items);
      return Some(Side(MarkerEnvelope, JObj(root[key := JArr(planted)]), items, JObj(root)));
    }
    if key in root && key == OUTPUT {
      return None;
    }
    WholeIsFaithful(root);
    return Some(Side(MarkerEnvelope, JObj(root), [], JObj(root)));
  }

  lemma KeysAreNotMarkers()
    ensures CHOICES != ITEM_KEY && OUTPUT != ITEM_KEY && "message" != ITEM_KEY && "text" != ITEM_KEY
    ensures CHOICES != OUTPUT
  {
    assert |ITEM_KEY| == 22 && |CHOICES| == 7 && |OUTPUT| == 6 && |"message"| == 7 && |"text"| == 4;
  }

  // ----- Event-stream responses -----

  /** An event, as the envelope records it: its name, and the length and digest of its data. */
  datatype Event = Event(name: string, length: nat, digest: string)

  datatype Usage = Usage(input: Option<int>, output: Option<int>, total: Option<int>)

  datatype Summary = Summary(responseID: string, usage: Usage, errorType: string, errorCode: string)

  /** A message of the aggregated reply: parts are records of strings, by field name. */
  datatype Message = Message(role: string, name: string, toolCallID: string, content: seq<Part>)

  datatype Part = Part(
    kind: string, text: string, id: string, name: string, arguments: string, toolCallID: string, result: string,
    data: string)

  function EventJson(e: Event): Json {
    JObj(map["event" := JStr(e.name), "data_length" := JNum(Decimal(e.length)), "data_sha256" := JStr(e.digest)])
  }

  function CountJson(n: Option<int>): Json {
    match n
    case None => JNull
    case Some(n) => JNum(if n < 0 then "-" + Decimal(-n) else Decimal(n))
  }

  function SummaryJson(s: Summary): Json {
    JObj(map["response_id" := JStr(s.responseID), "usage" := UsageJson(s.usage),
             "error_type" := JStr(s.errorType), "error_code" := JStr(s.errorCode)])
  }

  function UsageJson(u: Usage): Json {
    JObj(map["Input" := CountJson(u.input), "Output" := CountJson(u.output), "Total" := CountJson(u.total)])
  }

  /** Strings that are not empty; empty ones are left out. */
  function Present(fields: map<string, string>): map<string, Json> {
    map k | k in fields && fields[k] != "" :: JStr(fields[k])
  }

  function PartJson(p: Part): Json {
    JObj(Present(map["text" := p.text, "id" := p.id, "name" := p.name, "arguments" := p.arguments,
                     "tool_call_id" := p.toolCallID, "result" := p.result, "data" := p.data])["type" := JStr(p.kind)])
  }

  function MessageJson(m: Message): Json {
    var parts := seq(|m.content|, i requires 0 <= i < |m.content| => PartJson(m.content[i]));
    JObj(Present(map["name" := m.name, "tool_call_id" := m.toolCallID])
         ["role" := JStr(m.role)]["content" := JArr(parts)])
  }

  function StreamItem(m: Message): Item {
    Item(AGGREGATE, "stream_" + m.role, MessageJson(m))
  }

  function StreamItems(messages: seq<Message>): (r: seq<Item>)
    ensures |r| == |messages| && forall i :: 0 <= i < |r| ==> r[i] == StreamItem(messages[i])
  {
    seq(|messages|, i requires 0 <= i < |messages| => StreamItem(messages[i]))
  }

  function Descriptors(events: seq<Event>): (r: seq<Json>)
    ensures |r| == |events| && forall i :: 0 <= i < |r| ==> r[i] == EventJson(events[i])
  {
    seq(|events|, i requires 0 <= i < |events| => EventJson(events[i]))
  }

  function StreamEnvelope(events: seq<Event>, summary: Summary): map<string, Json> {
    map["format" := JStr("sse"), "events" := JArr(Descriptors(events)), "summary" := SummaryJson(summary)]
  }

  /** Where each part of a stream goes: its events and summary into the envelope, its messages
      into items. */
  function SplitStream(events: seq<Event>, summary: Summary, messages: seq<Message>): Side {
    var envelope, items := StreamEnvelope(events, summary), StreamItems(messages);
    Side(StreamResponse, JObj(envelope), items, JObj(envelope[AGGREGATE := JArr(Values(items))]))
  }

  method NormalizeStreamResponse(events: seq<Event>, summary: Summary, messages: seq<Message>) returns (r: Option<Side>)
    ensures r.Some? <==> events != []
    ensures r.Some? ==> r.value == SplitStream(events, summary, messages) && Faithful(r.value, r.value.original)
  {
    hide Commutes;
    hide Ideal;
    hide StreamItem;
    hide EventJson;
    hide SummaryJson;
    if events == [] {
      return None;
    }
    var descriptors: seq<Json> := [];
    for i := 0 to |events|
      invariant descriptors == Descriptors(events)[..i]
    {
      descriptors := descriptors + [EventJson(events[i])];
    }
    assert descriptors == Descriptors(events);
    var items, values := AggregateItems(messages);
    var envelope := map["format" := JStr("sse"), "events" := JArr(descriptors), "summary" := SummaryJson(summary)];
    assert |AGGREGATE| == 9 && |"format"| == 6 && |"events"| == 6 && |"summary"| == 7;
    assert envelope[AGGREGATE := JArr(values)] - {AGGREGATE} == envelope;
    SlotAlwaysCommutes(StreamResponse, AGGREGATE, envelope[AGGREGATE := JArr(values)], items);
    return Some(Side(StreamResponse, JObj(envelope), items, JObj(envelope[AGGREGATE := JArr(values)])));
  }

  method AggregateItems(messages: seq<Message>) returns (items: seq<Item>, values: seq<Json>)
    ensures items == StreamItems(messages) && values == Values(items) == SlotValues(items, AGGREGATE)
    ensures forall k :: 0 <= k < |items| ==> items[k].slot != "" && items[k].kind != ""
  {
    hide MessageJson;
    items, values := [], [];
    for i := 0 to |messages|
      invariant items == StreamItems(messages)[..i] && values == Values(items) == SlotValues(items, AGGREGATE)
    {
      var item := StreamItem(messages[i]);
      SlotSnoc(items, item, AGGREGATE);
      assert StreamItems(messages)[..i + 1] == StreamItems(messages)[..i] + [item];
      assert Values(items + [item]) == Values(items) + [item.value];
      items, values := items + [item], values + [item.value];
    }
  }

  /** Nothing a stream is described by can be taken for a marker, so none is looked for. */
  lemma StreamIsMarkerFree(events: seq<Event>, summary: Summary, messages: seq<Message>)
    ensures MarkerFree(SplitStream(events, summary, messages).original)
  {
    hide StreamItem;
    hide EventJson;
    hide SummaryJson;
    hide MessageJson;
    MarkersAreLong();
    forall e ensures MarkerFree(EventJson(e)) { EventMarkerFree(e); }
    forall m ensures MarkerFree(MessageJson(m)) { MessageMarkerFree(m); }
    forall m ensures StreamItem(m).value == MessageJson(m) { StreamItemHolds(m); }
    SummaryMarkerFree(summary);
  }

  lemma StreamItemHolds(m: Message)
    ensures StreamItem(m).value == MessageJson(m)
  {
  }

  lemma MarkersAreLong()
    ensures |ITEM_KEY| == 22 && |BINARY_KEY| == 24
  {
  }

  lemma EventMarkerFree(e: Event)
    ensures MarkerFree(EventJson(e))
  {
    MarkersAreLong();
  }

  lemma SummaryMarkerFree(s: Summary)
    ensures MarkerFree(SummaryJson(s))
  {
    MarkersAreLong();
    assert MarkerFree(UsageJson(s.usage));
  }

  lemma MessageMarkerFree(m: Message)
    ensures MarkerFree(MessageJson(m))
  {
    MarkersAreLong();
    forall p ensures MarkerFree(PartJson(p)) { PartMarkerFree(p); }
  }

  lemma PartMarkerFree(p: Part)
    ensures MarkerFree(PartJson(p))
  {
    MarkersAreLong();
  }

  // ----- Both sides -----

  datatype Request = NoRequest | BadRequest | RequestRoot(root: map<string, Json>)

  datatype Response =
    | NoResponse
    | BadResponse
    | ResponseRoot(root: map<string, Json>)
    | ResponseStream(events: seq<Event>, summary: Summary, messages: seq<Message>)

  /** Nothing was captured. */
  const ABSENT := Side(NoLayout, JNull, [], JNull)

  predicate RequestAccepted(parser: Parser, request: Request) {
    match request
    case NoRequest => true
    case BadRequest => false
    case RequestRoot(root) => MarkerFree(JObj(root)) && AcceptsRequest(parser, root)
  }

  predicate ResponseAccepted(parser: Parser, response: Response) {
    match response
    case NoResponse => true
    case BadResponse => false
    case ResponseRoot(root) => MarkerFree(JObj(root)) && AcceptsResponse(parser, root)
    case ResponseStream(events, _, _) => events != []
  }

  function RequestSide(parser: Parser, request: Request): Side
    requires RequestAccepted(parser, request)
  {
    if request.NoRequest? then ABSENT else SplitRequest(parser, request.root)
  }

  function ResponseSide(parser: Parser, response: Response): Side
    requires ResponseAccepted(parser, response)
  {
    match response
    case ResponseRoot(root) => SplitResponse(parser, root)
    case ResponseStream(events, summary, messages) => SplitStream(events, summary, messages)
    case _ => ABSENT
  }

  lemma AbsentIsFaithful()
    ensures Faithful(ABSENT, JNull)
  {
  }

  method NormalizeRequestBody(parser: Parser, request: Request) returns (r: Option<Side>)
    ensures r.Some? <==> RequestAccepted(parser, request)
    ensures r.Some? ==> r.value == RequestSide(parser, request)
    ensures r.Some? ==> Faithful(r.value, r.value.original) && MarkerFree(r.value.original)
  {
    hide Faithful;
    match request
    case NoRequest =>
      AbsentIsFaithful();
      return Some(ABSENT);
    case BadRequest => return None;
    case RequestRoot(root) =>
      if !MarkerFree(JObj(root)) {
        return None;
      }
      r := NormalizeRequest(parser, root);
      if r.Some? {
        FaithfulOriginal(r.value, JObj(root));
      }
  }

  method NormalizeResponseBody(parser: Parser, response: Response) returns (r: Option<Side>)
    ensures r.Some? <==> ResponseAccepted(parser, response)
    ensures r.Some? ==> r.value == ResponseSide(parser, response)
    ensures r.Some? ==> Faithful(r.value, r.value.original) && MarkerFree(r.value.original)
  {
    hide Faithful;
    hide SplitStream;
    hide SplitResponse;
    match response
    case NoResponse =>
      AbsentIsFaithful();
      return Some(ABSENT);
    case BadResponse => return None;
    case ResponseRoot(root) =>
      if !MarkerFree(JObj(root)) {
        return None;
      }
      r := NormalizeJSONResponse(parser, root);
      if r.Some? {
        FaithfulOriginal(r.value, JObj(root));
      }
    case ResponseStream(events, summary, messages) =>
      r := NormalizeStreamResponse(events, summary, messages);
      StreamIsMarkerFree(events, summary, messages);
  }

  lemma FaithfulOriginal(side: Side, original: Json)
    requires Faithful(side, original)
    ensures side.original == original
  {
  }

  /** Normalization as the audit does it: reserved markers are refused first, so every side
      that comes out is the split of what came in, and rebuilds it. */
  method NormalizeAudit(parser: Parser, request: Request, response: Response) returns (r: Option<(Side, Side)>)
    ensures r.Some? <==> RequestAccepted(parser, request) && ResponseAccepted(parser, response)
    ensures r.Some? ==> r.value == (RequestSide(parser, request), ResponseSide(parser, response))
    ensures r.Some? ==>
      && Faithful(r.value.0, r.value.0.original) && MarkerFree(r.value.0.original)
      && Faithful(r.value.1, r.value.1.original) && MarkerFree(r.value.1.original)
  {
    hide *;
    var a := NormalizeRequestBody(parser, request);
    if a == None {
      return None;
    }
    var b := NormalizeResponseBody(parser, response);
    if b == None {
      return None;
    }
    return Some((a.value, b.value));
  }
}
