/**
 Which values of a request or response become items, position by position and with the field
 names written out: what the provider's lists hold, and what stands in their place afterwards.
 */
module Itemized {
  import opened Wrappers
  import opened Json
  import opened Layout
  import opened Normalizer

  /** A field that holds some text, which may be spelled as a string or as a number. */
  predicate Says(value: Json, field: string, text: string) {
    && value.JObj? && field in value.fields && text != ""
    && (value.fields[field] == JStr(text) || value.fields[field] == JNum(text))
  }

  ghost predicate Silent(value: Json, field: string) {
    forall text :: !Says(value, field, text)
  }

  /** The kind of an item: its type, else its role, else what its list is called. */
  ghost predicate KindIs(value: Json, fallback: string, kind: string) {
    && (forall t :: Says(value, "type", t) ==> kind == t)
    && (Silent(value, "type") ==>
          && (forall r :: Says(value, "role", r) ==> kind == r + "_message")
          && (Silent(value, "role") ==> kind == fallback))
  }

  lemma ItemKindIs(value: Json, fallback: string)
    ensures KindIs(value, fallback, ItemKind(value, fallback))
  {
    TextSays(value, "type");
    TextSays(value, "role");
  }

  lemma TextSays(value: Json, field: string)
    ensures var text := Text(Field(value, field));
      && (text != "" ==> Says(value, field, text)) && (forall t :: Says(value, field, t) ==> t == text)
      && (text == "" ==> Silent(value, field))
  {
  }

  // ----- Responses -----

  predicate Has(choice: Json, field: string) {
    choice.JObj? && field in choice.fields
  }

  /** How many of the choices before a position have the field. */
  function Earlier(choices: seq<Json>, field: string, i: nat): nat
    requires i <= |choices|
  {
    if i == 0 then 0 else Earlier(choices, field, i - 1) + (if Has(choices[i - 1], field) then 1 else 0)
  }

  /** A choice that has the field is item number k, and a marker naming k stands in the field's
      place; the other fields of the choice are as they were. */
  ghost predicate ChoiceTaken(choice: Json, field: string, after: Json, items: seq<Item>, k: nat) {
    && Has(choice, field) && k < |items|
    && items[k].slot == "choice" && items[k].value == choice.fields[field]
    && after.JObj? && after.fields.Keys == choice.fields.Keys
    && after.fields[field] == JObj(map["$llmapi_logger_item_v1" := JNum(Decimal(k))])
    && forall other :: other in choice.fields && other != field ==> after.fields[other] == choice.fields[other]
  }

  ghost predicate ChoicesTaken(choices: seq<Json>, field: string, after: seq<Json>, items: seq<Item>) {
    && |after| == |choices| && |items| == Earlier(choices, field, |choices|)
    && forall i :: 0 <= i < |choices| ==>
         if Has(choices[i], field) then ChoiceTaken(choices[i], field, after[i], items, Earlier(choices, field, i))
         else after[i] == choices[i]
  }

  /** The kinds of the items, in the order of the choices. */
  ghost predicate KindsAre(items: seq<Item>, chat: bool) {
    forall k :: 0 <= k < |items| ==>
      if chat then KindIs(items[k].value, "message", items[k].kind) else items[k].kind == "completion"
  }

  lemma {:induction false} EarlierPrefix(choices: seq<Json>, field: string, i: nat, n: nat)
    requires i <= n <= |choices|
    ensures Earlier(choices[..n], field, i) == Earlier(choices, field, i)
  {
    if i > 0 {
      EarlierPrefix(choices, field, i - 1, n);
      assert choices[..n][i - 1] == choices[i - 1];
    }
  }

  /** Items added later leave what was taken as it is. */
  lemma StillTaken(choice: Json, field: string, after: Json, items: seq<Item>, more: seq<Item>, k: nat)
    requires ChoiceTaken(choice, field, after, items, k)
    ensures ChoiceTaken(choice, field, after, items + more, k)
  {
  }

  /** One choice more, cut the way the others were. */
  lemma TakenNext(choices: seq<Json>, field: string, chat: bool, planted: seq<Json>, items: seq<Item>)
    requires choices != [] && ChoicesTaken(choices[..|choices| - 1], field, planted, items)
    ensures var n := |choices| - 1;
      if Has(choices[n], field) then
        ChoicesTaken(choices, field, planted + [JObj(choices[n].fields[field := ItemMarker(|items|)])],
                     items + [ChoiceItem(choices[n].fields[field], chat)])
      else ChoicesTaken(choices, field, planted + [choices[n]], items)
  {
    hide ChoiceTaken;
    hide Decimal;
    var n := |choices| - 1;
    var before, choice := choices[..n], choices[n];
    EarlierPrefix(choices, field, n, n);
    var more := if Has(choice, field) then [ChoiceItem(choice.fields[field], chat)] else [];
    assert items + [] == items;
    forall i | 0 <= i < n && Has(choices[i], field)
      ensures ChoiceTaken(choices[i], field, planted[i], items + more, Earlier(choices, field, i))
    {
      assert before[i] == choices[i];
      EarlierPrefix(choices, field, i, n);
      StillTaken(choices[i], field, planted[i], items, more, Earlier(choices, field, i));
    }
    forall i | 0 <= i < n && !Has(choices[i], field) ensures planted[i] == choices[i] {
      assert before[i] == choices[i];
    }
    if Has(choice, field) {
      LastTaken(choice, field, chat, items);
    }
  }

  lemma LastTaken(choice: Json, field: string, chat: bool, items: seq<Item>)
    requires Has(choice, field)
    ensures ChoiceTaken(choice, field, JObj(choice.fields[field := ItemMarker(|items|)]),
                        items + [ChoiceItem(choice.fields[field], chat)], |items|)
  {
    hide ItemKind;
  }

  lemma {:induction false} CutIsTaken(choices: seq<Json>, field: string, chat: bool)
    ensures var (after, items) := ChoicesCut(choices, field, chat);
      ChoicesTaken(choices, field, after, items) && KindsAre(items, chat)
  {
    if choices != [] {
      var n := |choices| - 1;
      CutIsTaken(choices[..n], field, chat);
      var (planted, items) := ChoicesCut(choices[..n], field, chat);
      TakenNext(choices, field, chat, planted, items);
      hide ChoicesTaken;
      if Has(choices[n], field) {
        ItemKindIs(choices[n].fields[field], "message");
      }
    }
  }

  /** Everything outside one list is as it was. */
  ghost predicate SameOutside(root: map<string, Json>, envelope: Json, key: string) {
    && envelope.JObj? && envelope.fields.Keys == root.Keys
    && forall k :: k in root && k != key ==> envelope.fields[k] == root[k]
  }

  /** A response without the list: no items, and the whole of it is the envelope. */
  ghost predicate LeftWhole(root: map<string, Json>, side: Side) {
    side.items == [] && side.envelope == JObj(root)
  }

  ghost predicate ChoicesSplit(root: map<string, Json>, field: string, chat: bool, side: Side) {
    if "choices" in root && root["choices"].JArr? then
      && SameOutside(root, side.envelope, "choices") && side.envelope.fields["choices"].JArr?
      && ChoicesTaken(root["choices"].elements, field, side.envelope.fields["choices"].elements, side.items)
      && KindsAre(side.items, chat)
    else LeftWhole(root, side)
  }

  /** Every element of the output is an item, and a marker stands in its place. */
  ghost predicate OutputSplit(root: map<string, Json>, side: Side) {
    if "output" in root && root["output"].JArr? then
      var list := root["output"].elements;
      && SameOutside(root, side.envelope, "output") && side.envelope.fields["output"].JArr?
      && |side.items| == |side.envelope.fields["output"].elements| == |list|
      && forall i :: 0 <= i < |list| ==>
           && side.items[i].slot == "output" && side.items[i].value == list[i]
           && KindIs(list[i], "output_item", side.items[i].kind)
           && side.envelope.fields["output"].elements[i] == JObj(map["$llmapi_logger_item_v1" := JNum(Decimal(i))])
    else LeftWhole(root, side)
  }

  lemma ChoicesItems(parser: Parser, root: map<string, Json>)
    requires parser.ChatCompletions? || parser.Completions?
    ensures ChoicesSplit(root, if parser.ChatCompletions? then "message" else "text", parser.ChatCompletions?,
                         SplitResponse(parser, root))
  {
    KeysAreNotMarkers();
    if "choices" in root && root["choices"].JArr? {
      CutIsTaken(root["choices"].elements, if parser.ChatCompletions? then "message" else "text",
                 parser.ChatCompletions?);
    }
  }

  lemma OutputItems(parser: Parser, root: map<string, Json>)
    requires parser.Responses? || parser.ResponsesCompact?
    ensures OutputSplit(root, SplitResponse(parser, root))
  {
    KeysAreNotMarkers();
    if "output" in root && root["output"].JArr? {
      var list := root["output"].elements;
      forall i | 0 <= i < |list| ensures KindIs(list[i], "output_item", ItemKind(list[i], "output_item")) {
        ItemKindIs(list[i], "output_item");
      }
    }
  }

  /** What a JSON response is split into, for each parser: the messages of chat choices, the texts
      of completion choices, the output of responses. */
  lemma ResponseItems(parser: Parser, root: map<string, Json>)
    ensures var side := SplitResponse(parser, root);
      match parser
      case ChatCompletions => ChoicesSplit(root, "message", true, side)
      case Completions => ChoicesSplit(root, "text", false, side)
      case Responses => OutputSplit(root, side)
      case ResponsesCompact => OutputSplit(root, side)
      case OtherParser => true
  {
    match parser
    case ChatCompletions => ChoicesItems(parser, root);
    case Completions => ChoicesItems(parser, root);
    case OtherParser =>
    case _ => OutputItems(parser, root);
  }

  // ----- Requests -----

  /** The items of one list, in order. */
  ghost predicate ListTaken(list: seq<Json>, slot: string, items: seq<Item>) {
    |items| == |list| && forall i :: 0 <= i < |list| ==> items[i].slot == slot && items[i].value == list[i]
  }

  ghost predicate ChatSplit(root: map<string, Json>, side: Side) {
    && "messages" in root && root["messages"].JArr?
    && side.envelope == JObj(root - {"messages"}) && ListTaken(root["messages"].elements, "messages", side.items)
    && forall i :: 0 <= i < |side.items| ==> KindIs(side.items[i].value, "message", side.items[i].kind)
  }

  ghost predicate PromptSplit(root: map<string, Json>, side: Side) {
    && "prompt" in root && side.envelope == JObj(root - {"prompt"})
    && ListTaken(if root["prompt"].JArr? then root["prompt"].elements else [root["prompt"]], "prompt", side.items)
    && forall i :: 0 <= i < |side.items| ==> side.items[i].kind == "prompt"
  }

  predicate Told(root: map<string, Json>) {
    "instructions" in root && root["instructions"] != JNull
  }

  function Inputs(root: map<string, Json>): seq<Json> {
    if "input" !in root then [] else if root["input"].JArr? then root["input"].elements else [root["input"]]
  }

  /** Instructions that are not null come first, then the input, alone or element by element. */
  ghost predicate ResponsesSplit(root: map<string, Json>, side: Side) {
    var n, inputs := if Told(root) then 1 else 0, Inputs(root);
    && side.envelope == JObj(root - {"input"} - (if Told(root) then {"instructions"} else {}))
    && |side.items| == n + |inputs|
    && (Told(root) ==> side.items[0] == Item("instructions", "instructions", root["instructions"]))
    && ListTaken(inputs, "input", side.items[n..])
    && forall i :: 0 <= i < |inputs| ==>
         if inputs[i].JStr? then side.items[n + i].kind == "message"
         else KindIs(inputs[i], "input_item", side.items[n + i].kind)
  }

  /** What a request is split into, for each parser. */
  lemma RequestItems(parser: Parser, root: map<string, Json>)
    requires AcceptsRequest(parser, root)
    ensures var side := SplitRequest(parser, root);
      match parser
      case ChatCompletions => ChatSplit(root, side)
      case Completions => PromptSplit(root, side)
      case _ => ResponsesSplit(root, side)
  {
    match parser
    case ChatCompletions =>
      forall v ensures KindIs(v, "message", ItemKind(v, "message")) {
        ItemKindIs(v, "message");
      }
      hide KindIs;
      hide ItemKind;
    case Completions =>
    case _ => ResponsesItems(root);
  }

  lemma ResponsesParts(root: map<string, Json>)
    ensures var side := SplitResponses(root);
      && side.items == Items(Instructions(root), InstructionsItem) + Items(Inputs(root), ResponseInputItem)
      && side.envelope == JObj(root - {"input"} - (if Told(root) then {"instructions"} else {}))
  {
    hide ResponseInputItem;
    assert |"input"| == 5 && |"instructions"| == 12;
    var side := SplitResponses(root);
    if "input" !in root {
      assert Items([], ResponseInputItem) == [];
      assert root - {"input"} == root;
    }
    assert side.envelope.fields == root - {"input"} - (if Told(root) then {"instructions"} else {});
  }

  lemma InputsTaken(inputs: seq<Json>)
    ensures var given := Items(inputs, ResponseInputItem);
      && ListTaken(inputs, "input", given)
      && forall i :: 0 <= i < |inputs| ==>
           if inputs[i].JStr? then given[i].kind == "message" else KindIs(inputs[i], "input_item", given[i].kind)
  {
    forall v ensures KindIs(v, "input_item", ItemKind(v, "input_item")) {
      ItemKindIs(v, "input_item");
    }
    hide KindIs;
    hide ItemKind;
  }

  lemma InstructionsTaken(root: map<string, Json>)
    ensures var told := Items(Instructions(root), InstructionsItem);
      if Told(root) then told == [Item("instructions", "instructions", root["instructions"])] else told == []
  {
  }

  /** Two lists in a row, seen from the first and from the second. */
  lemma InARow(told: seq<Item>, given: seq<Item>)
    ensures |told + given| == |told| + |given| && (told + given)[|told|..] == given
    ensures forall i :: 0 <= i < |given| ==> (told + given)[|told| + i] == given[i]
    ensures told != [] ==> (told + given)[0] == told[0]
  {
  }

  lemma ResponsesItems(root: map<string, Json>)
    ensures ResponsesSplit(root, SplitResponses(root))
  {
    hide KindIs;
    hide SplitResponses;
    hide ListTaken;
    hide Inputs;
    ResponsesParts(root);
    InputsTaken(Inputs(root));
    InstructionsTaken(root);
    InARow(Items(Instructions(root), InstructionsItem), Items(Inputs(root), ResponseInputItem));
  }

  // ----- Event streams -----

  /** A string under a field, left out when it is empty. */
  ghost predicate Optional(fields: map<string, Json>, field: string, text: string) {
    if text == "" then field !in fields else field in fields && fields[field] == JStr(text)
  }

  ghost predicate EventTold(j: Json, e: Event) {
    && j.JObj? && j.fields.Keys == {"event", "data_length", "data_sha256"}
    && j.fields["event"] == JStr(e.name) && j.fields["data_length"] == JNum(Decimal(e.length))
    && j.fields["data_sha256"] == JStr(e.digest)
  }

  ghost predicate PartTold(j: Json, p: Part) {
    && j.JObj?
    && j.fields.Keys <= {"type", "text", "id", "name", "arguments", "tool_call_id", "result", "data"}
    && "type" in j.fields && j.fields["type"] == JStr(p.kind)
    && Optional(j.fields, "text", p.text) && Optional(j.fields, "id", p.id) && Optional(j.fields, "name", p.name)
    && Optional(j.fields, "arguments", p.arguments) && Optional(j.fields, "tool_call_id", p.toolCallID)
    && Optional(j.fields, "result", p.result) && Optional(j.fields, "data", p.data)
  }

  ghost predicate MessageTold(j: Json, m: Message) {
    && j.JObj? && j.fields.Keys <= {"role", "content", "name", "tool_call_id"}
    && "role" in j.fields && j.fields["role"] == JStr(m.role)
    && Optional(j.fields, "name", m.name) && Optional(j.fields, "tool_call_id", m.toolCallID)
    && "content" in j.fields && j.fields["content"].JArr? && |j.fields["content"].elements| == |m.content|
    && forall i :: 0 <= i < |m.content| ==> PartTold(j.fields["content"].elements[i], m.content[i])
  }

  ghost predicate CountTold(j: Json, n: Option<int>) {
    match n
    case None => j == JNull
    case Some(n) => j.JNum? && ParseInt(j.text) == Some(n)
  }

  ghost predicate SummaryTold(j: Json, s: Summary) {
    && j.JObj? && j.fields.Keys == {"response_id", "usage", "error_type", "error_code"}
    && j.fields["response_id"] == JStr(s.responseID)
    && j.fields["error_type"] == JStr(s.errorType) && j.fields["error_code"] == JStr(s.errorCode)
    && var usage := j.fields["usage"];
    && usage.JObj? && usage.fields.Keys == {"Input", "Output", "Total"}
    && CountTold(usage.fields["Input"], s.usage.input) && CountTold(usage.fields["Output"], s.usage.output)
    && CountTold(usage.fields["Total"], s.usage.total)
  }

  /** A stream's envelope lists its events in order, with its summary; its messages are the items,
      and the original has them under "aggregate". */
  ghost predicate StreamSplit(events: seq<Event>, summary: Summary, messages: seq<Message>, side: Side) {
    && side.layout.StreamResponse? && side.envelope.JObj?
    && var fields := side.envelope.fields;
    && fields.Keys == {"format", "events", "summary"} && fields["format"] == JStr("sse")
    && fields["events"].JArr? && |fields["events"].elements| == |events|
    && (forall i :: 0 <= i < |events| ==> EventTold(fields["events"].elements[i], events[i]))
    && SummaryTold(fields["summary"], summary)
    && |side.items| == |messages|
    && (forall i :: 0 <= i < |messages| ==>
          side.items[i].slot == "aggregate" && side.items[i].kind == "stream_" + messages[i].role &&
          MessageTold(side.items[i].value, messages[i]))
    && side.original == JObj(fields["aggregate" := JArr(Values(side.items))])
  }

  lemma OptionalPresent(strings: map<string, string>, field: string, kind: Json)
    requires field in strings && field != "type"
    ensures Optional(Present(strings)["type" := kind], field, strings[field])
  {
  }

  lemma PartFields(p: Part) returns (strings: map<string, string>)
    ensures PartJson(p) == JObj(Present(strings)["type" := JStr(p.kind)])
    ensures strings.Keys == {"text", "id", "name", "arguments", "tool_call_id", "result", "data"}
    ensures "type" !in strings
    ensures strings["text"] == p.text && strings["id"] == p.id && strings["name"] == p.name
    ensures strings["arguments"] == p.arguments && strings["tool_call_id"] == p.toolCallID
    ensures strings["result"] == p.result && strings["data"] == p.data
  {
    hide Present;
    assert |"type"| == 4 && |"text"| == 4 && |"id"| == 2 && |"name"| == 4 && |"arguments"| == 9;
    assert |"tool_call_id"| == 12 && |"result"| == 6 && |"data"| == 4;
    assert "type"[1] == 'y' && "text"[1] == 'e' && "name"[1] == 'a' && "name"[0] == 'n' && "data"[0] == 'd';
    strings := map["text" := p.text, "id" := p.id, "name" := p.name, "arguments" := p.arguments,
                   "tool_call_id" := p.toolCallID, "result" := p.result, "data" := p.data];
  }

  lemma PartIsTold(p: Part)
    ensures PartTold(PartJson(p), p)
  {
    var strings := PartFields(p);
    hide PartJson;
    hide Optional;
    forall field | field in strings
      ensures Optional(Present(strings)["type" := JStr(p.kind)], field, strings[field])
    {
      OptionalPresent(strings, field, JStr(p.kind));
    }
  }

  lemma MessageIsTold(m: Message)
    ensures MessageTold(MessageJson(m), m)
  {
    hide PartTold;
    hide PartJson;
    assert |"role"| == 4 && |"content"| == 7 && |"name"| == 4 && |"tool_call_id"| == 12;
    assert "role"[0] == 'r' && "name"[0] == 'n';
    forall i | 0 <= i < |m.content| ensures PartTold(PartJson(m.content[i]), m.content[i]) {
      PartIsTold(m.content[i]);
    }
  }

  lemma EventIsTold(e: Event)
    ensures EventTold(EventJson(e), e)
  {
    assert |"event"| == 5 && |"data_length"| == 11 && |"data_sha256"| == 11;
    assert "data_length"[5] == 'l' && "data_sha256"[5] == 's';
  }

  lemma CountIsTold(n: Option<int>)
    ensures CountTold(CountJson(n), n)
  {
    hide ParseDigits;
    hide Decimal;
    if n.Some? {
      if n.value < 0 {
        var digits := Decimal(-n.value);
        DecimalDigits(-n.value);
        assert ("-" + digits)[1..] == digits;
      } else {
        DecimalRoundTrip(n.value);
      }
    }
  }

  lemma SummaryIsTold(s: Summary)
    ensures SummaryTold(SummaryJson(s), s)
  {
    hide CountTold;
    hide CountJson;
    assert |"response_id"| == 11 && |"usage"| == 5 && |"error_type"| == 10 && |"error_code"| == 10;
    assert "error_type"[6] == 't' && "error_code"[6] == 'c';
    assert |"Input"| == 5 && |"Output"| == 6 && |"Total"| == 5 && "Input"[0] == 'I' && "Total"[0] == 'T';
    CountIsTold(s.usage.input);
    CountIsTold(s.usage.output);
    CountIsTold(s.usage.total);
  }

  /** What an event-stream response is split into. */
  lemma StreamItemized(events: seq<Event>, summary: Summary, messages: seq<Message>)
    ensures StreamSplit(events, summary, messages, SplitStream(events, summary, messages))
  {
    hide EventTold;
    hide MessageTold;
    hide SummaryTold;
    hide EventJson;
    hide MessageJson;
    hide SummaryJson;
    assert |"format"| == 6 && |"events"| == 6 && |"summary"| == 7 && "format"[0] == 'f' && "events"[0] == 'e';
    SummaryIsTold(summary);
    forall i | 0 <= i < |events| ensures EventTold(EventJson(events[i]), events[i]) {
      EventIsTold(events[i]);
    }
    forall i | 0 <= i < |messages| ensures MessageTold(MessageJson(messages[i]), messages[i]) {
      MessageIsTold(messages[i]);
    }
  }
}
