# Verified model of an LLM API audit proxy

The proxy sits between clients and an LLM API. It forwards every exchange, records what passed by at four observation
points, encrypts and stores it in chunks, and later parses, splits, deduplicates and rebuilds it. Its value rests on a
few exact claims: what was observed is what was stored, what was stored can be rebuilt, nothing that should be audited
slips past, and nothing is counted twice or lost. This project models the code behind those claims in Dafny and proves
them for all inputs, all reachable states and all runs.

Code that changes state step by step is modelled by classes and loops and proved against specification functions;
code that computes values is modelled by functions and lemmas. One file per component:

| file | component |
|---|---|
| `KeywordMatcher.dfy` | keyword automaton of the content policy |
| `StreamLines.dfy`, `StreamProbe.dfy` | line splitting and the byte-at-a-time event-stream machine |
| `Timeline.dfy`, `TimelineQuery.dfy` | encoding of event times, sealing and querying them |
| `BodyCapture.dfy`, `SessionTrace.dfy`, `SessionOutcome.dfy`, `AuditSession.dfy` | staging of observed bytes, an exchange as the sequence of its steps, what its outcome must be looking back over them, the session that keeps up with it |
| `Evidence.dfy` | reading stored bodies back, raw export |
| `Json.dfy`, `Layout.dfy`, `Normalizer.dfy`, `Itemized.dfy`, `Binary.dfy`, `TransformLaws.dfy`, `Turn.dfy` | splitting, content addressing and reconstruction of turns |
| `SequenceFraming.dfy`, `ContextDelta.dfy`, `TurnGraph.dfy` | sequence hashes, context deltas, the graph of stored turns and its retention |
| `DetailChain.dfy` | hash-linked analysis details |
| `Paths.dfy`, `Escapes.dfy`, `Routes.dfy`, `Passthrough.dfy`, `PlainPaths.dfy` | route validation and matching, percent-decoding against an encoder, passthrough, and what their checks mean position by position |
| `Interceptors.dfy` | interceptor chains and body replay |
| `GapTrace.dfy`, `Gaps.dfy` | gap accounting as a function of its steps, and the buffer that keeps up with it |
| `Pagination.dfy`, `Anchor.dfy`, `CallerWorker.dfy` | filtered listing, token apportionment, caller lookups |
| `Words.dfy`, `Wrappers.dfy` | byte strings and 64-bit integers, optional values |

Main results, hardest first:

- The Aho-Corasick automaton built on the heap, in any order of map iteration, finds a match exactly when some keyword is
  a substring (`KeywordMatcher.Matcher.Match`).
- An exchange, with each side decoded, streamed or absent, is normalized, prepared and stored exactly when it is free of
  markers, in shape and well formed and nothing disturbs the objects of its split, which is a function of parser and
  value. Every check of the reconstruction then passes, and each side comes back with its inlined binaries in canonical
  spelling, so equal to the original exactly when they were written so; only the last step, reading a conversation from
  the pair, can still withhold it (`Turn.AuditTurn`). The rebuild check never refuses what a normalizer split, because splitting and transforming
  commute (`TransformLaws`). From any store whatever, nothing comes back but what the rebuild hashes name
  (`Turn.Reconstruct`).
- For every capture and every subset of its chunks that survives, the parser gets a prefix of what was observed and is told
  "complete" only with all of it (`Evidence.ReadBack`).
- Over every run the session is where a step function on the exchange leads, and its outcome is what the steps before the
  first finish say when one looks back over them: rejected, blamed on the client, the upstream or the proxy, or completed.
  It is completed exactly when no step before the first finish broke anything off: no downstream write failed or fell
  short, nothing was rejected or marked, and every failed read of a started response and every cancellation met a response
  received and delivered in full, in terms of the bytes and the lines of its event stream
  (`SessionOutcome.CompletedExactly`, `SessionOutcome.OutcomeExactly`, `AuditSession.Run`).
- Over every sequence of saves and retention deletes, the graph holds exactly the turns that were saved and not expired
  since, and each of them loads the context it was saved with (`TurnGraph.Run`).
- Over every interleaving of reports, flushes and failures of storage, and whatever the clock does, the reports of each
  reason are all stored, in flight or pending, in order and none twice; and the recorded windows are around their reports
  up to any point of the run exactly when no report up to it was late (`Gaps.Run`).
- Opening a compact detail gives exactly the detail that seals to its envelope, from any storage
  (`DetailChain.DetailStore.Open`).
- A path that spells a configured route, at any depth of percent-decoding and in any letter case, is never let through
  unaudited (`Passthrough.ExactNeverAllowed`, `Passthrough.TemplateNeverAllowed`). Decoding is the exact inverse of every
  way to escape a path, and a route escaped any number of times up to sixteen, in any style, is refused
  (`Escapes.DecodingExactly`, `Escapes.EscapedRouteIsRefused`). What is not protected is let through
  (`PlainPaths.LetThroughExactly`).
- An interceptor chain answers with the first interceptor it does not get past: which status, which code, whose, for every
  combination of limits, broken bodies, cancellations and answers (`Interceptors.Evaluate`). A raw export ends in exactly
  one of five ways, each with its exact condition (`Evidence.StreamRaw`).

Findings about the code:

- An item whose kind is the name of an envelope and whose value equals that envelope (a chat message and a request that are
  both `{"type": "request_envelope"}` once split) has the envelope's object hash but another semantic hash, so preparing
  the turn fails with an integrity error, whatever the store holds: `Turn.PosingIsRefused`. `Turn.Storable` is the exact
  condition.
- The doc comment of `Anchor` promises that categories always sum to the prompt total. Estimates, quotients and increments
  are 64-bit. `Anchor.AnchoredTotal` says exactly when the promise holds: as 64-bit numbers, when what the code takes to
  be left is not negative; as integers, when the overflows of single categories make up for the rest; and if no category
  can overflow, when the quotients are within the range below the total. `Anchor.WrappedSumBreaksTotal` gives an input
  that breaks it, `Anchor.CancellingQuotientsKeepTotal` one whose estimates wrap and which still keeps it, and
  `Anchor.IncrementCanOverflow` one where an increment wraps a category.
- A gap report reads the clock before it takes the lock. Two sessions can therefore record in the order 7, 5, and the
  window of their reason then runs from 7 to 5, around neither: `GapTrace.LateReportEscapes`. Counts are conserved all the
  same. A report is late when it is earlier than the latest one of the aggregate it joins, and windows surround their
  reports up to any point exactly when no report up to it was late (`GapTrace.WindowsExactly`).
- A chunk's offset counts accepted bytes. After a flush that lost bytes it is smaller than the position of the chunk in the
  body; it is that position exactly when nothing was lost before (`Evidence.OffsetIsPosition`, with an input in
  `Evidence.LostFlushShifts`).

Hashes that serve as identities are injective functions, ciphers and compression are round trips, base64, case folding and
header parsing are parameters, JSON is a datatype, and bytes are characters. Operations done under a mutex are atomic
steps. The outcome of every write, read, lookup, clock and store call is a parameter.

## Model

| member | source | states |
|---|---|---|
| `KeywordMatcher.StepIsLongestSuffix` | internal/contentpolicy/match.go:68-89 | following failure links from the longest suffix of the text that is in the trie gives the longest suffix of the text with one more byte |
| `KeywordMatcher.FailWordOfChild` | internal/contentpolicy/match.go:48-57 | the failure word of a child is the step from its parent's failure word: its longest proper suffix in the trie |
| `KeywordMatcher.KeywordAtState` | internal/contentpolicy/match.go:68-89 | the text ends with a keyword exactly when the state's word does |
| `KeywordMatcher.KeywordThroughFail` | internal/contentpolicy/match.go:58 | a word ends with a keyword exactly when it is one or its failure word ends with one, which is what propagating the output flag relies on |
| `KeywordMatcher.LinkTrie` | internal/contentpolicy/match.go:40-61 | breadth-first linking in any order of children leaves every node with the right failure link and output flag |
| `KeywordMatcher.BuildTrie` | internal/contentpolicy/match.go:19-38 | the trie holds the non-empty lowered keywords with all their prefixes, nothing but prefixes of them, and marks exactly the keywords |
| `KeywordMatcher.Matcher.constructor` | internal/contentpolicy/match.go:18-63 | a new matcher is valid for the set of non-empty lowered keywords |
| `KeywordMatcher.Matcher.Match` | internal/contentpolicy/match.go:68-89 | true exactly when some keyword occurs in the lowered text |
| `StreamLines.SplitLines` | internal/parser/codec.go:102-119 | the lines of a body, a trailing empty line dropped, as a recursive reference defines them |
| `StreamLines.LinesExactly` | internal/parser/codec.go:102-119 | LF, CRLF and a CR that no LF follows each end a line, and what is left over is one unless it is empty: the WHATWG terminators |
| `StreamLines.FeedAllConcat` | internal/audit/body.go:396-428 | scanning byte by byte does not depend on how bytes are split across reads |
| `StreamLines.ScanIsLines` | internal/audit/body.go:396-462 | the incremental scan of a whole body yields the lines of the batch splitter |
| `StreamProbe.Probe.NoteLineEnd` | internal/audit/body.go:430-441 | a finished line of at most 48 bytes that matches becomes the terminal candidate; the probe buffer is cleared |
| `StreamProbe.Probe.EndLine` | internal/audit/body.go:430-462 | a line terminator moves the line-based state on by one line, and adds an event point exactly when an empty line follows a non-empty one |
| `StreamProbe.Probe.ObserveByte` | internal/audit/body.go:396-428 | every field stays the function of all bytes seen that the line-based definition gives |
| `StreamProbe.Probe.Observe` | internal/audit/body.go:396-428 | so for any read of any length |
| `StreamProbe.ProbeAgreesWithLines` | internal/audit/body.go:396-462 | the event count is the number of empty lines right after a non-empty one in the split body, and terminal-seen holds exactly when a matching line of at most 48 bytes is dispatched by an empty line |
| `StreamProbe.EventPointsPlaced` | internal/audit/body.go:443-462 | event points lie in the body at growing offsets with the clock value of their last byte |
| `StreamProbe.EventPointsExactly` | internal/audit/body.go:443-462 | each point is where the lines of the body so far count one event more, with the byte before it and not without |
| `Timeline.UvarintRoundTrip` | internal/streamtimeline/timeline.go:17-77 | reading what was written as a variable-length integer gives it back, for every 64-bit value |
| `Timeline.UvarintExactly` | internal/streamtimeline/timeline.go:17-36 | a written integer says its value in groups of seven bits, the lowest first, and every byte but the last says that more follow |
| `Timeline.ReadExactly` | internal/streamtimeline/timeline.go:38-77 | an integer is read exactly where at most ten such bytes of at most 64 bits end, with their value |
| `Timeline.Encode` | internal/streamtimeline/timeline.go:17-36 | fails exactly on unordered points, and otherwise writes the delta encoding |
| `Timeline.Decode` | internal/streamtimeline/timeline.go:38-77 | decodes as the recursive reference does, with version, count, truncation, overflow and trailing-byte checks |
| `Timeline.RoundTrip` | internal/streamtimeline/timeline.go:17-77 | decoding an encoded ordered list within the maximum gives the same points |
| `Timeline.DecodedExactly` | internal/streamtimeline/timeline.go:38-77 | whatever decodes is of version 1, within the limit, with positive times that never fall; with anything appended or cut off it does not decode |
| `TimelineQuery.SealTimeline` | internal/audit/body.go:464-498 | which timeline row a finished body gets, when encoding fails, when there is none |
| `TimelineQuery.QueryTimeline` | internal/query/timeline.go:37-82 | points are returned exactly when the stored row decodes and passes every check of the query side |
| `TimelineQuery.AcceptsExactly` | internal/query/timeline.go:37-71 | rising points are accepted exactly when they are the first 100,000 of some events that the row counts and whose first and last times it has |
| `TimelineQuery.CapturedPoints` | internal/audit/body.go:443-498 | with a positive non-decreasing clock the kept points are ordered, first and last event times surround them, past the cap included |
| `TimelineQuery.SealedTimelineAccepted` | internal/query/timeline.go:37-71 | every sealed timeline decodes to the captured points and passes all of these checks |
| `TimelineQuery.SealAndQuery` | internal/audit/body.go:464-498 | sealing and querying returns exactly the captured points |
| `BodyCapture.Body.Flush` | internal/audit/body.go:308-382 | flushed and pending bytes together stay the same, counters follow accepted chunks, a failed chunk leaves a fault |
| `BodyCapture.Body.Stage` | internal/audit/body.go:268-306 | at most one chunk of 1 MiB is held, every byte ends up flushed or pending, in order, whatever fails |
| `BodyCapture.Body.Observe` | internal/audit/body.go:268-306 | the observed bytes grow by the data; staging, counters and event machine stay in step |
| `Evidence.ReadRawBody` | internal/parser/evidence.go:144-226 | the paged loop equals the page-free reference; it returns leading bytes of the table, and "complete" only with all of them, the stored length and a complete row |
| `Evidence.ReadingExplained` | internal/parser/evidence.go:144-226 | bytes, completeness and error code from the chunks: where they stop fitting or opening, where they exceed 128 MiB, and else by length, digest and state of the row |
| `Evidence.ReadBack` | internal/parser/evidence.go:144-226 | for every capture and every surviving subset of its chunks: a prefix of the observed bytes, and complete only with all of them |
| `Evidence.CompleteBodyReadsBack` | internal/parser/evidence.go:144-226 | when all chunks are there and open, a finished body is read back whole and reported complete |
| `Evidence.StreamRaw` | internal/query/raw.go:19-118 | each of the five results with its exact condition: success exactly when the row is finished and kept, every chunk belongs, opens and is taken whole, and length and digest agree; what is written is chunks in order, the last perhaps in part when the sink stops; gaps only for a recorded loss, over disjoint ranges |
| `Evidence.OffsetIsPosition` | internal/audit/body.go:308-382 | the offset of a chunk is the position of its bytes in the observed body exactly when no byte flushed before it was lost, and otherwise too small |
| `Evidence.LostFlushShifts` | internal/audit/body.go:308-382 | a one-byte flush that could not be encoded leaves the next chunk at position 1 with offset 0 |
| `Evidence.ExportBody` | internal/query/raw.go:19-123 | a whole kept body whose chunks open is exported in full; without recorded loss an export writes a prefix of what was observed; with one, chunks in order, each lying where its offset says if no flush lost bytes |
| `AuditSession.Stage.FinishTimeline` | internal/audit/session.go:455-471 | a timeline that cannot be encoded is a capture fault; with a positive non-decreasing clock there is none |
| `AuditSession.Stage.Finish` | internal/audit/session.go:437-523 | a stage is complete exactly when nothing of it is missing, its row describes its body, and a forwarded body matches its source; and it is complete whenever no fault was noted, it ended or needs not to, and source and announced length agree |
| `SessionTrace.NextFacts` | internal/audit/session.go:203-435 | a settled status never returns to in-progress, completed is only reached by a finish, a fixed outcome stays, and lost bytes or a broken read settle the status at once |
| `SessionTrace.OutcomeOf` | internal/audit/session.go:318-435 | an outcome is fixed exactly when some step was a finish |
| `SessionTrace.StatusStaysSettled` | internal/audit/session.go:203-435 | over every run: a status that has left in-progress never returns to it, and the first outcome stays |
| `SessionTrace.CompletedMeansClean` | internal/audit/session.go:203-435 | over every run: lost bytes, or a failed read of a started response that was not complete and cancelled, rule out a completed outcome for good |
| `SessionTrace.CleanStep` | internal/audit/body.go:123-171 | in a run that completes, no open step loses bytes, and a failed read came after the client cancelled a response delivered in full with the bytes just read |
| `SessionOutcome.AlwaysRecalled` | internal/audit/body.go:123-221 | over every run the counters and flags of an exchange are what its steps said: bytes read since the response started, bytes handed on since the reply started, whether an end, a hang-up or a short write was among them |
| `SessionOutcome.StatusIsVerdict` | internal/audit/session.go:203-306 | over every unfinished run the status is the verdict on its steps: the client's doing if any step was, else rejected if that settled it first, else the failure marked last, else the side on which it first broke off |
| `SessionOutcome.OutcomeExactly` | internal/audit/session.go:318-345 | the first finish fixes the outcome, as the verdict on the steps before it |
| `SessionOutcome.CompletedExactly` | internal/audit/session.go:203-345 | over every run: the outcome is completed exactly when no step before the first finish rejects, marks a failure, loses bytes or breaks off, and the client had not hung up then on a response that was not delivered |
| `AuditSession.Session.CompleteIsDelivered` | internal/audit/session.go:251-283 | the counters and flags of the logical-completeness test say what the observed bytes say: ended or a terminal event dispatched among the lines, at least the announced length, and as many bytes handed on without a failed write |
| `AuditSession.Session.StartStage` | internal/audit/session.go:554-603 | a new stage joins the session, an existing one is left alone; there is a new capture fault exactly when a new stage or its headers could not be persisted |
| `AuditSession.Session.ReadFailed` | internal/audit/body.go:123-171 | a read error of the response is its end when the client cancelled a response that was delivered; otherwise it settles the status; bytes are kept |
| `AuditSession.Session.ObserveRead` | internal/audit/body.go:123-171 | a read with bytes and an error does to the session what it does to the exchange; the observed bytes grow by the data |
| `AuditSession.Session.CloseRead` | internal/audit/body.go:173-191 | closing a body leaves the exchange as it is; a close error is a fault of body and capture |
| `AuditSession.Session.ObserveWrite` | internal/audit/body.go:193-221 | a write adds the bytes that were written; a failed one settles the status and marks the delivery as failed |
| `AuditSession.Session.Write` | internal/audit/response_writer.go:31-50 | a write that fails or falls short is a downstream failure; any other leaves the status |
| `AuditSession.Session.MarkRejected` | internal/audit/session.go:203-216 | only a session in progress becomes rejected |
| `AuditSession.Session.MarkFailure` | internal/audit/session.go:285-304 | which failures replace which statuses |
| `AuditSession.Session.MarkClientCancelled` | internal/audit/session.go:229-249 | cancellation of a logically complete response is no failure |
| `AuditSession.Session.Finish` | internal/audit/session.go:318-435 | the first finish fixes the outcome by status; capture is complete exactly for completed or rejected sessions without a capture fault whose stages all finish whole and whose rows are written, and then what was sent on either way is what was received; parsing is left pending exactly unless rejected |
| `AuditSession.Do` | internal/audit/session.go:203-435 | one atomic step keeps the session invariant and refines the step function of the exchange; without faults of storage no capture fault appears |
| `AuditSession.Run` | internal/audit/session.go:203-435 | over every run the session is where its steps lead, with the outcome that looking back over them says, completed exactly when nothing broke off before the first finish; a run without faults leaves a clean capture; failed outcomes are partial captures |
| `AuditSession.WholeStageReadsBack` | internal/audit/session.go:437-523 | the row of a stage that finished whole leads the parser back to exactly the observed bytes |
| `Json.DecimalRoundTrip` | internal/auditmodel/layout.go:133-148 | the index written into an item marker is the index read from it |
| `Json.MarkerFreeExactly` | internal/auditmodel/canonical.go:128-152 | a value is free of markers exactly when no object inside, however deep, has a reserved key |
| `Layout.ValuesForSlot` | internal/auditmodel/layout.go:89-97 | the values of one slot, in order |
| `Layout.ReplaceItemFree` | internal/auditmodel/layout.go:99-131 | replacing markers changes nothing in a value without them |
| `Layout.ReplaceExtend` | internal/auditmodel/layout.go:99-131 | items appended later do not change what earlier markers stand for |
| `Layout.ReplaceMarker` | internal/auditmodel/layout.go:99-131 | a marker stands for the item it names |
| `Layout.ReplaceUnderKey` | internal/auditmodel/layout.go:99-131 | an object with one key replaced by a stand-in is rebuilt |
| `Layout.Assemble` | internal/auditmodel/layout.go:13-87 | the value each layout puts together, or the error |
| `Layout.AssembledWhen` | internal/auditmodel/layout.go:13-87 | an object is put together exactly when every slot has as many items as its layout wants: one prompt, one input or none, at most one instruction |
| `Layout.AssembledExactly` | internal/auditmodel/layout.go:13-87 | every key of the result: the list of a slot's values, its one value, or what the envelope has |
| `Layout.ReplacedExactly` | internal/auditmodel/layout.go:99-131 | replacing markers fails exactly when one names no item |
| `Normalizer.NormalizeRequest` | internal/parser/openai/auditmodel.go:94-164 | accepted exactly when in shape; the split is the stated function of parser and root, and rebuilds the request, before and after binaries are taken out |
| `Normalizer.NormalizeJSONResponse` | internal/parser/openai/auditmodel.go:166-233 | refused exactly for another parser or an output that is no list; the split is the stated function of parser and root, and rebuilds the response |
| `Normalizer.NormalizeStreamResponse` | internal/parser/openai/auditmodel.go:235-284 | a stream without events is refused; otherwise its event descriptors and summary are the envelope, its response messages the items, and both rebuild the description |
| `Normalizer.StreamIsMarkerFree` | internal/parser/openai/auditmodel.go:235-284 | no description of a stream contains a reserved key, whatever its strings, which is why none is looked for |
| `Normalizer.NormalizeAudit` | internal/parser/openai/auditmodel.go:16-85 | accepted exactly when each side is absent, or in shape and free of reserved keys, or a stream with events; then both sides are the splits of what came in, and rebuild it |
| `Itemized.ItemKindIs` | internal/parser/openai/auditmodel.go:351-359 | the kind of an item is its type, else its role with a suffix, else what its list is called |
| `Itemized.RequestItems` | internal/parser/openai/auditmodel.go:94-164 | field by field and position by position: which values of a request become items, in which slot and of which kind, and what is left of the envelope |
| `Itemized.ResponseItems` | internal/parser/openai/auditmodel.go:166-233 | the same for a response: messages or texts of the choices that have one, or the outputs, each replaced by the marker with its number, everything else as it was |
| `Itemized.StreamItemized` | internal/parser/openai/auditmodel.go:235-284 | the same for an event stream: every field of its event descriptors, summary and messages |
| `Binary.Accumulator.Transform` | internal/auditmodel/binary.go:39-114 | equals the transformation function, and every inlined binary is collected under its hash |
| `Binary.TransformedAt` | internal/auditmodel/binary.go:39-114 | wherever one looks inside a value, however deep: lists and objects keep their shape, a string is left or replaced by the marker its place and text call for, everything else stays |
| `Binary.TransformFailsExactly` | internal/auditmodel/binary.go:39-114 | a value is refused exactly when some string inside is malformed where it is |
| `Binary.CoveredGrows` | internal/auditmodel/binary.go:116-126 | what is collected stays collected |
| `Binary.NotADataURL` | internal/auditmodel/binary.go:128-164 | a string without the scheme is left alone; one with the scheme and no comma is an error |
| `Binary.DataURLExactly` | internal/auditmodel/binary.go:128-164 | with the scheme, a string is left alone exactly when its header does not name base64, and an error exactly when its payload does not decode; else its bytes are taken out and the marker keeps hash, media type and header |
| `Binary.InlineFileExactly` | internal/auditmodel/binary.go:183-216 | a bare base64 string is taken out exactly under the three field names of an object whose type is that of a file; there it must decode |
| `Binary.DeclaredExactly` | internal/auditmodel/binary.go:193-216 | the declared media type is the first of three fields that is not blank |
| `Binary.RespelledKept` | internal/auditmodel/binary.go:128-216 | the canonical spelling of a value is the value exactly when every inlined binary has a lower-case scheme and canonical base64 |
| `Binary.DataURLComesBack` | internal/auditmodel/binary.go:128-164 | a data URL that was taken out is restored in canonical spelling, from any store that holds its bytes |
| `Binary.FieldComesBack` | internal/auditmodel/binary.go:183-216 | the same for inline file fields |
| `Binary.RestoreTransformed` | internal/auditmodel/binary.go:237-278 | restoring a transformed value gives its canonical spelling, from any store that holds its bytes |
| `Binary.RespelledAt` | internal/auditmodel/binary.go:223-278 | wherever one looks inside the value that comes back: what was there, and inlined binaries in their one spelling, with lower-case scheme, the header they had and padded base64 |
| `TransformLaws.TransformedItemFree` | internal/auditmodel/binary.go:39-114 | taking binaries out plants no item markers |
| `TransformLaws.SlotCommutes` | internal/auditmodel/prepare.go:71-103 | for one-slot layouts the transformed parts rebuild the transformed original |
| `TransformLaws.ResponsesCommutes` | internal/auditmodel/prepare.go:71-103 | the same with instructions and input in their own slots |
| `TransformLaws.RootCommutes` | internal/auditmodel/prepare.go:71-103 | the same for markers nested under a key of the root |
| `Turn.ContentExactly` | internal/auditmodel/prepare.go:145-158 | the content hash of an item or envelope covers schema version 1, kind and value, and names one kind and value |
| `Turn.SemanticDiffers` | internal/auditmodel/prepare.go:354-363 | the semantic hash of an item is never the content hash of any object |
| `Turn.ObjectsMean` | internal/auditmodel/prepare.go:329-352 | objects have the same projection exactly when their fields do, those of a single occurrence left out |
| `Turn.OthersMean` | internal/auditmodel/prepare.go:329-352 | lists exactly when their elements do, and anything else only when it is the same |
| `Turn.SemanticExactly` | internal/auditmodel/prepare.go:354-363 | two items have one semantic hash exactly when they are of one kind and have the same projection |
| `Turn.AddObject` | internal/auditmodel/prepare.go:193-204 | refused exactly when the same content is filed with another semantic hash; otherwise filed, and nothing else changes |
| `Turn.PrepareItems` | internal/auditmodel/prepare.go:134-174 | succeeds exactly when all items are named, transform and agree with what is filed; files exactly their objects |
| `Turn.PrepareSide` | internal/auditmodel/prepare.go:50-103 | succeeds exactly when the side transforms, rebuilds its original and agrees with what is filed |
| `Turn.CheckStored` | internal/auditmodel/prepare.go:206-306 | what storage already holds under a name must be the very object |
| `Turn.Prepare` | internal/auditmodel/prepare.go:33-132 | succeeds exactly for preparable turns, and then stands for the transformed originals with all bytes collected |
| `Turn.OpenItems` | internal/query/turn.go:131-149 | opening references works exactly when they are the references of filed items, and gives those, whatever else is stored |
| `Turn.OpenSide` | internal/query/turn.go:151-166 | every envelope, item, sequence and rebuild check passes for a stored side, and the value is the restored original; from any store, only the value that the rebuild hash names |
| `Turn.Reconstruct` | internal/query/turn.go:36-125 | a stored turn yields both restored sides, if a conversation can be read from them; from any store, nothing but what the rebuild hashes name |
| `Turn.PrepareAndReconstruct` | internal/query/turn.go:36-125 | whatever is prepared passes every check on the way back, and each side is the canonical spelling of its original, equal to it exactly when it is canonical |
| `Turn.FaithfulFits` | internal/auditmodel/prepare.go:71-103 | a normalized side passes the rebuild check exactly when its original transforms |
| `Turn.AuditTurn` | internal/parser/openai/auditmodel.go:16-85 | the whole path from captured exchange to rebuilt exchange, sides decoded, streamed or absent: stored exactly when the split of parser and values can be, and what comes back |
| `Turn.PosingIsRefused` | internal/auditmodel/prepare.go:193-204 | an accepted chat request whose message equals its own envelope is refused by every codec, next to every response, against every store |
| `SequenceFraming.PutUint64` | internal/auditmodel/canonical.go:108-113 | writes the eight low bytes, most significant first |
| `SequenceFraming.BigEndianExactly` | internal/auditmodel/canonical.go:108-113 | read as one number, the first byte counting most, the bytes written are the value |
| `SequenceFraming.SequenceInput` | internal/auditmodel/canonical.go:87-100 | the digest is fed the domain and the framing of all references |
| `SequenceFraming.FramingInjective` | internal/auditmodel/canonical.go:87-100 | two sequences have the same digest input exactly when they agree on every slot and object hash |
| `ContextDelta.ApplyDelta` | internal/auditmodel/delta.go:38-69 | equals the recursive definition of applying operations, errors included |
| `ContextDelta.AppliedExactly` | internal/auditmodel/delta.go:38-69 | a delta applies, to a result, exactly when it cuts the base into retained and deleted and the result into retained and inserted stretches, each of its stated length, with well-formed insertions |
| `ContextDelta.BuildDelta` | internal/auditmodel/delta.go:8-36 | keeps the longest common prefix, then the longest common suffix of the rest, and splices the middle |
| `ContextDelta.SpliceApplied` | internal/auditmodel/delta.go:38-69 | what a splice does, and exactly when it applies |
| `ContextDelta.DeltaRebuilds` | internal/auditmodel/delta.go:8-69 | applying the delta to its base gives the current context, and fails exactly when some inserted reference is malformed |
| `ContextDelta.DeltaCost` | internal/auditmodel/delta.go:71-79 | deleted and inserted references are counted |
| `ContextDelta.DeltaIsCheapest` | internal/auditmodel/delta.go:8-79 | no single splice that rebuilds the context costs less |
| `ContextDelta.DeltaUnique` | internal/auditmodel/delta.go:8-36 | a base and a context have one delta |
| `TurnGraph.LoadsContext` | internal/storage/sqlite/graph_writer.go:659-714 | in a sound graph every turn loads along its parents, passes count and sequence hash, and gives its context |
| `TurnGraph.LoadedExactly` | internal/storage/sqlite/graph_writer.go:659-714 | from any stored turns: an id loads a context exactly when its ancestors lead to a root without a gap or a cycle, and every context on the way has the length and hash it was stored with |
| `TurnGraph.Graph.Load` | internal/storage/sqlite/graph_writer.go:659-714 | equals the recursive definition, with cycle, base and hash errors |
| `TurnGraph.Graph.Context` | internal/storage/sqlite/graph_writer.go:659-714 | a stored turn's context is what it was saved with |
| `TurnGraph.Graph.ChooseBase` | internal/storage/sqlite/graph_writer.go:558-577 | the base with the cheaper delta, the request on a tie |
| `TurnGraph.Graph.Save` | internal/storage/sqlite/graph_writer.go:175-232 | a new turn is stored against the base with the cheaper delta, and every older context stays loadable |
| `TurnGraph.Graph.Checkpoint` | internal/storage/sqlite/maintenance.go:213-237 | a turn made a root keeps its context, and its verification passes |
| `TurnGraph.Graph.CheckpointRetainedChildren` | internal/storage/sqlite/maintenance.go:173-239 | afterwards no retained turn hangs on an expired one, and no context changed |
| `TurnGraph.Graph.DeleteLeafFirst` | internal/storage/sqlite/maintenance.go:241-268 | always makes progress and removes exactly the expired turns |
| `TurnGraph.Graph.DeleteExpired` | internal/storage/sqlite/maintenance.go:107-138 | retention always succeeds, removes exactly the expired turns and keeps every surviving context |
| `TurnGraph.LeftIsSaved` | internal/storage/sqlite/maintenance.go:107-138 | a turn is left exactly when some step saved it and no later one expired it |
| `TurnGraph.Run` | internal/storage/sqlite/graph_writer.go:175-232 | over every sequence of saves and retention deletes the graph holds exactly the turns saved and not expired since, and each loads the context it was saved with |
| `DetailChain.SharedNodes` | internal/insights/detail_compact.go:54-157 | two details have a node in common exactly when they agree on tools and all pairs up to it |
| `DetailChain.ChainDistinct` | internal/insights/detail_compact.go:54-157 | a chain never repeats a node |
| `DetailChain.SharedPrefixNotMissing` | internal/insights/detail_compact.go:108-136 | nodes shared with a stored detail are not written again |
| `DetailChain.DetailStore.Seal` | internal/insights/detail_compact.go:54-157 | refused exactly beyond the limits; the envelope and the missing nodes of the chain |
| `DetailChain.DetailStore.Save` | internal/insights/detail_compact.go:54-157 | storage stays closed under parents, nothing stored changes, only the detail's own nodes are added |
| `DetailChain.SealedOpens` | internal/insights/detail_compact.go:159-263 | a stored sealed detail passes every check and is spelled back, absent and empty lists kept apart |
| `DetailChain.OpenedIsSealed` | internal/insights/detail_compact.go:159-263 | whatever opens, from any storage, is a detail whose envelope this is and whose nodes are all there |
| `DetailChain.DetailStore.LoadChain` | internal/storage/postgres/analysis_detail.go:12-39 | nodes from the root along parents, at most the limit |
| `DetailChain.DetailStore.Open` | internal/insights/detail_compact.go:159-263 | returns a detail exactly when it seals to the envelope and all its nodes are stored |
| `Paths.UnescapeShrinks` | internal/routing/matcher.go:179-199 | a decoding round shortens whatever it changes |
| `Paths.UnescapedForms` | internal/routing/matcher.go:179-194 | each form is the one before it decoded, in sixteen rounds unless one changes nothing or fails; decoding ended exactly when one changed nothing |
| `Escapes.EscapeDecodes` | internal/routing/matcher.go:179-194 | decoding undoes every escaping: any characters, in either case of hex digits |
| `Escapes.DecodingExactly` | internal/routing/matcher.go:179-194 | a path decodes to a text exactly when it spells the text, each character as it is or as an escape |
| `Paths.FormsShrink` | internal/routing/matcher.go:179-194 | forms strictly shrink |
| `Paths.FormsMeet` | internal/routing/matcher.go:98-123 | if any form of a fully decoding path begins with any form of another, up to case, some form of it begins with that path's last form, whatever rounds each needs |
| `Routes.KeyClean` | internal/config/validate.go:433-480 | methods and paths of well-formed routes never contain the separator of the exact table's keys |
| `Routes.RouteKeyInjective` | internal/routing/matcher.go:125-127 | a key names one method and one path |
| `Routes.TemplateUnique` | internal/config/validate.go:491-516 | two well-formed templates that match one path have the same prefix and suffix |
| `Routes.MatchesOverlap` | internal/config/validate.go:491-516 | two routes that match one request overlap |
| `Routes.OverlapExactly` | internal/config/validate.go:491-516 | two well-formed routes overlap exactly when some request matches both |
| `Routes.ModelExactly` | internal/routing/matcher.go:138-151 | a template matches exactly the paths that fill its placeholder with letters, digits, dots, underscores and dashes, at least one |
| `PlainPaths.RouteExactly` | internal/config/validate.go:350-389 | a route may stand in a set exactly when its id is not blank, its parser name has no space around it, it names no interceptor twice, and its pattern is well formed |
| `PlainPaths.ExactPattern` | internal/config/validate.go:391-467 | which routes are exact: kind, method, path without braces, and its form position by position |
| `PlainPaths.TemplatePattern` | internal/config/validate.go:391-467 | which routes are templates: one placeholder after a slash, and after it nothing, or a colon and no slash |
| `Routes.ValidateRoutes` | internal/config/validate.go:350-389 | accepts exactly the sets of valid routes with distinct ids and no overlap |
| `Routes.AtMostOneRoute` | internal/config/validate.go:350-389 | in an accepted set at most one route matches any method and path |
| `Routes.Compile` | internal/routing/matcher.go:43-73 | succeeds exactly for accepted sets; the tables hold all routes and nothing else |
| `Routes.MatchRequest` | internal/routing/matcher.go:77-92 | answers with the one matching route, for safe paths only |
| `Routes.OrderFree` | internal/routing/matcher.go:77-92 | the answer does not depend on the order of the routes |
| `PlainPaths.AnswerTells` | internal/routing/matcher.go:77-92 | an answer names its route, parser and interceptors, and for a template the model that the path has in the placeholder's place |
| `PlainPaths.SafePathExactly` | internal/routing/matcher.go:153-177 | a path is safe exactly when it is absolute without empty segments, backslashes, queries and fragments, escapes no slash or backslash, and decodes to no backslash or dot segment |
| `PlainPaths.SafeFormExactly` | internal/routing/matcher.go:201-218 | a form is safe exactly when its segments are what they seem |
| `Passthrough.AllowsPassthrough` | internal/routing/matcher.go:98-123 | allowed exactly when the path is safe, decodes fully, and no form is unsafe or protected |
| `Passthrough.ExactNeverAllowed` | internal/routing/matcher.go:94-123 | a path any form of which spells any form of an exact route, or lies below it, has a protected form |
| `Passthrough.TemplateNeverAllowed` | internal/routing/matcher.go:94-123 | the same for the family of a template route |
| `Passthrough.ClassifyMatched` | internal/routing/matcher.go:94-123 | a path that any method matches is never let through |
| `Escapes.EscapedRouteIsRefused` | internal/routing/matcher.go:98-123 | a path that reaches an exact route, or one below it, by undoing at most sixteen escapings is refused |
| `Escapes.EscapedTemplateIsRefused` | internal/routing/matcher.go:98-123 | the same for the family of a template route |
| `PlainPaths.ProtectedExactly` | internal/routing/matcher.go:98-123 | a compiled table protects a form exactly when one of its routes does: equal to it, below it, or starting with its prefix |
| `PlainPaths.LetThroughExactly` | internal/routing/matcher.go:98-123 | a path without escapes is let through exactly when its segments are what they seem and no route protects it |
| `Interceptors.NewEngine` | internal/interceptor/engine.go:101-170 | built exactly from named instances with limits from 1 to 512 MiB where they need the body, and known references; chains in order; each route's limit is the largest of its chain |
| `Interceptors.WithGlobal` | internal/interceptor/engine.go:62-92 | one interceptor with permitted limits is appended to every chain, limits stay the largest |
| `Interceptors.ReadAndReplayBody` | internal/interceptor/engine.go:276-300 | reads one byte past the limit at most; within the limit the buffer is the whole body and is put back |
| `Interceptors.ProperExactly` | internal/interceptor/engine.go:302-317 | a decision is valid exactly when it allows without status and code, or refuses with a client error and a code of a letter and at most 63 letters, digits or underscores |
| `Interceptors.Decide` | internal/interceptor/engine.go:226-255 | what becomes of each answer: cancelled, error, panic, invalid decision, rejection |
| `Interceptors.Consult` | internal/interceptor/engine.go:196-255 | what one interceptor makes of a request: too large by announcement or by bytes, a body that breaks off, or its decision on the whole body |
| `Interceptors.RunChain` | internal/interceptor/engine.go:196-256 | allowed exactly when every interceptor is reached live and passes the whole body; otherwise the result is that of the first that is not or does not, in each case |
| `Interceptors.Evaluate` | internal/interceptor/engine.go:174-257 | allowed exactly when the chain is the configured one, nothing was cancelled and all pass, and then the body left is byte for byte the original; otherwise which result, whose and with which code |
| `Pagination.ListAudits` | internal/storage/sqlite/query_reader.go:13-30 | the first rows a cursor leaves, and whether there are more |
| `Pagination.AfterRow` | internal/query/service.go:210-212 | the cursor of a row leaves exactly the rows after it |
| `Pagination.ListWithHeaderFilters` | internal/query/service.go:128-167 | a page holds the matching rows among those scanned, all of which could be read; it stops early only when full or after 2000 rows, and then says where; it fails exactly for a half-given cursor or a row that cannot be read before that |
| `Pagination.FollowAll` | internal/query/service.go:128-167 | following cursors until there is none terminates, fails exactly when some row cannot be read, and else yields every matching row once, in order |
| `Anchor.AnchorValues` | internal/insights/estimate.go:146-186 | fails exactly when a quotient does not fit a word; otherwise every category is its quotient plus its part of what is left, by largest remainder, wrapped; its 64-bit sum is the total exactly when what is left is not negative; with a positive sum below 2^64 the total is apportioned without overflow |
| `Anchor.AnchoredTotal` | internal/insights/estimate.go:146-186 | exactly when the categories add up to the total, as 64-bit numbers and as integers |
| `Anchor.HandedUnique` | internal/insights/estimate.go:172-181 | largest remainder with ties to the earlier category leaves no choice: what is handed out is a function of estimates, remainders and rest |
| `Anchor.ApportionedShares` | internal/insights/estimate.go:143-186 | each share is the floor or one more, zero stays zero, a larger estimate never gets less, ties go to the earlier category |
| `Anchor.WrappedSumBreaksTotal` | internal/insights/estimate.go:151-170 | three maximal estimates anchored to 100 have quotients that sum to 300 |
| `Anchor.CancellingQuotientsKeepTotal` | internal/insights/estimate.go:151-181 | estimates whose sum wraps, with quotients that cancel, and the total is kept |
| `Anchor.IncrementCanOverflow` | internal/insights/estimate.go:172-181 | estimates whose quotients all fit, and for which an increment carries a category past the largest integer |
| `GapTrace.AfterConserved` | internal/audit/gaps.go:59-228 | over every run the reports of a reason that aggregates stand for, stored first, then in flight, then pending, are exactly the reports that counted, in order; no session counts twice |
| `GapTrace.CountedExactly` | internal/audit/gaps.go:59-81 | over every run the reports that count are, looking back, exactly the first of each session for one of the four reasons before the buffer is closed |
| `GapTrace.FlushedExactly` | internal/audit/gaps.go:167-212 | from wherever a run led, flushes that succeed leave nothing pending or in flight, and every report that counted stored in order |
| `GapTrace.FailedStoresNothing` | internal/audit/gaps.go:167-228 | an insert that fails stores nothing and leaves its reasons pending |
| `GapTrace.AlwaysTight` | internal/audit/gaps.go:59-228 | over every run no window is wider than its reports, except for ending at zero |
| `GapTrace.RecordedWindows` | internal/audit/gaps.go:59-81 | recording keeps every window around its reports exactly when the report is not earlier than the latest one of its aggregate |
| `GapTrace.MergedWindows` | internal/audit/gaps.go:214-228 | merging a failed flush back keeps every window around its reports, in whatever order those came |
| `GapTrace.WindowsExactly` | internal/audit/gaps.go:59-228 | over every run and for every point of it: all windows were around their reports up to there exactly when no step up to there recorded a late report |
| `GapTrace.ClockOrderIsNeverLate` | internal/audit/gaps.go:59-81 | in a run whose reports come in clock order no step records a late report |
| `GapTrace.LateReportEscapes` | internal/audit/gaps.go:66-77 | reports at 7 and then 5 are both counted and leave a window from 7 to 5, around neither |
| `Gaps.GapBuffer.Record` | internal/audit/gaps.go:59-81 | a report counts unless its session had its turn, the reason is unknown or the buffer is closed; count and window move as the trace says, whatever the clock reading |
| `Gaps.GapBuffer.Take` | internal/audit/gaps.go:185-212 | everything pending moves into the flush, one gap for each reason; nothing moves when nothing is pending |
| `Gaps.GapBuffer.Insert` | internal/audit/gaps.go:167-183 | a stored flush is stored once and whole |
| `Gaps.GapBuffer.Merge` | internal/audit/gaps.go:214-228 | a failed flush becomes pending again in front of what came meanwhile: counts add up, windows span both |
| `Gaps.GapBuffer.CountsAddUp` | internal/audit/gaps.go:59-228 | for every reason the stored, flying and pending counts add up to the reports that counted |
| `Gaps.Run` | internal/audit/gaps.go:59-228 | over every run the buffer is where its steps lead; its counts add up to the reports; windows were around their reports up to any point exactly when no step up to it was late, and so always in clock order |
| `CallerWorker.Worker.Process` | internal/newapi/worker.go:216-257 | saved exactly when storage works and billing values are in range; a saved attempt counts once; it resolves, waits by the delay table or gives up exactly as answer and attempt number say; billing is stored exactly for billed records with a rate |
| `CallerWorker.Worker.Retry` | internal/newapi/worker.go:261-284 | rescheduled by the delay table, unresolved after it |
| `CallerWorker.Worker.Resolve` | internal/newapi/worker.go:216-284 | with successful saves a lookup is settled within seven attempts |
| `CallerWorker.Worker.BackfillStep` | internal/newapi/worker.go:288-334 | the next unchecked link uses up an attempt, saved exactly when storage works and values are in range; nothing else changes, every saved step leaves less work; the pause after two fruitless steps |
| `CallerWorker.BackfilledExactly` | internal/newapi/worker.go:288-334 | state by state what a link is after one more attempt: billed with its values, unchecked while attempts are left of three, or unbilled |
| `CallerWorker.Worker.Backfill` | internal/newapi/worker.go:288-334 | with successful saves the backfill ends with nothing left unchecked |

## Left out

- AES-GCM, HMAC, SHA-256, gzip and base64 themselves: assumed to be round trips and injective identities.
- JSON, YAML and HTTP syntax, Unicode case folding and normalization: values are decoded already, paths and keywords are byte strings.
- Layout.Assemble: marker replacement overwrites the decoded tree in place; it is modelled on values, which does not capture sharing of subtrees between two trees.
- Binary.RestoreTransformed: restoring rewrites the tree in place too and is modelled on values.
- Turn.Prepare: files each side's envelope right after its items, where the code files both lists of items first; the objects filed are the same. External references and the choice of compression are not modelled, and the encodings that storage offers for reuse are compared as opened objects.
- ContextDelta.ApplyDelta: counts are unbounded integers, so the overflow of a position near 2^63 is not modelled.
- BodyCapture.Body.Flush: the time stamp stored with each chunk, and the error code a failed flush leaves, are not modelled.
- AuditSession.Stage.Finish: which error code a stage or body row carries, and its status code and headers, are not modelled.
- TimelineQuery.SealTimeline: compressing and encrypting the encoded timeline always succeed.
- Turn.CheckStored: compares stored objects only; stored binaries, whose length, media type and bytes the source compares too before it reuses their encoding, are not checked.
- Turn.Reconstruct: whether a conversation can be read from the rebuilt pair is a parameter; extracting it is not modelled, and neither are the length checks on stored metadata.
- Normalizer.NormalizeAudit: the previous response id, conversation key and managed-context flag of a turn are not modelled.
- Normalizer.NormalizeStreamResponse: events, summary and messages are given as decoded; how the stream parser produces them is not modelled.
- Binary.Accumulator.Transform: the list of references per value is left out; the bytes are collected under their hashes.
- TurnGraph.Graph.Save: which earlier turn becomes the parent is a parameter; inference of parents, conversations and garbage collection of objects are not modelled.
- DetailChain.DetailStore.Seal: context cancellation and stores without compact support are not modelled; items and tools stand for their encoded form.
- Routes.ParsePattern: control and space characters are those of ASCII.
- Interceptors.NewEngine: factories have already produced the instances; a factory error is an instance that is missing.
- Pagination.ListAudits: the other filter columns and the collapsing of conversations; one ordered list of rows stands for the filtered table.
- Gaps.GapBuffer.Take: gaps are produced in any order rather than sorted by reason.
- CallerWorker.Worker.BackfillStep: audits are listed in the order in which storage offers their links; shutdown in the middle of a step is not modelled.
- Serving, reverse proxying, transports, tickers and goroutine scheduling: operations under a lock are atomic steps.
- Management authentication, scope rules, configuration scalars, logging, frontend and command-line entry points: thin checks without a hard property.
- Provider-specific content extraction, conversation views and token heuristics: broad but shallow.
