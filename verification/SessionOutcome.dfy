/**
 The outcome of a session, read off its steps: which bytes were received and delivered, which
 steps settle the status, and when the session completes. Nothing here follows the status from
 step to step; every answer is found by looking back over the steps.
 */
module SessionOutcome {
  import opened Words
  import opened Wrappers
  import opened StreamLines
  import opened StreamProbe
  import opened BodyCapture
  import opened SessionTrace

  // ----- What passed by -----

  predicate StartsResponse(step: Step) {
    step.StepStart? && step.name == ResponseReceived
  }

  predicate ReadsResponse(step: Step) {
    step.StepRead? && step.name == ResponseReceived
  }

  /** The first step that starts the response. */
  function ResponseStart(steps: seq<Step>): (r: Option<nat>)
    ensures r.Some? ==> r.value < |steps| && StartsResponse(steps[r.value])
  {
    if steps == [] then None
    else
      var earlier := ResponseStart(steps[..|steps| - 1]);
      if earlier.Some? then earlier
      else if StartsResponse(steps[|steps| - 1]) then Some(|steps| - 1)
      else None
  }

  /** All that reads of the response returned once it had started; nothing if there were none. */
  function ReadSince(steps: seq<Step>, start: nat): Option<Bytes> {
    if |steps| <= start + 1 then None
    else
      var last, before := steps[|steps| - 1], ReadSince(steps[..|steps| - 1], start);
      if !ReadsResponse(last) then before
      else if before.None? then Some(last.data)
      else Some(before.value + last.data)
  }

  predicate StartsReply(step: Step) {
    step.StepWrite? || (step.StepStart? && step.name == ResponseSent)
  }

  function ReplyStart(steps: seq<Step>): (r: Option<nat>)
    ensures r.Some? ==> r.value < |steps|
  {
    if steps == [] then None
    else
      var earlier := ReplyStart(steps[..|steps| - 1]);
      if earlier.Some? then earlier
      else if StartsReply(steps[|steps| - 1]) then Some(|steps| - 1)
      else None
  }

  /** The bytes one step hands to the client: what a write reports, kept within its data. */
  function HandedOn(step: Step): Option<Bytes> {
    if step.StepWrite? then
      if step.written <= 0 then Some([])
      else if step.written >= |step.data| then Some(step.data)
      else Some(step.data[..step.written])
    else if step.StepRead? && step.name == ResponseSent then Some(step.data)
    else None
  }

  /** All that was handed to the client once the reply had started. */
  function SentSince(steps: seq<Step>, start: nat): Option<Bytes> {
    if |steps| <= start then None
    else
      var now, before := HandedOn(steps[|steps| - 1]), SentSince(steps[..|steps| - 1], start);
      if now.None? then before
      else if before.None? then now
      else Some(before.value + now.value)
  }

  /** A write that failed, or left part of its data unwritten. */
  predicate MissesBytes(step: Step) {
    step.StepWrite? && (step.failed || (|step.data| > 0 && step.written < |step.data|))
  }

  ghost predicate ClientMisses(steps: seq<Step>) {
    exists j :: 0 <= j < |steps| && MissesBytes(steps[j])
  }

  /** The client's context was cancelled. */
  ghost predicate HungUp(steps: seq<Step>) {
    exists j :: 0 <= j < |steps| && steps[j].StepCancel?
  }

  /** At least the announced length was received, and as much was handed on without a loss. */
  ghost predicate AllHandedOn(steps: seq<Step>) {
    var start, reply := ResponseStart(steps), ReplyStart(steps);
    && start.Some? && reply.Some? && ReadSince(steps, start.value).Some? && SentSince(steps, reply.value).Some?
    && var announced := steps[start.value].contentLength;
    && var read, sent := |ReadSince(steps, start.value).value|, |SentSince(steps, reply.value).value|;
    && (announced.Some? && announced.value >= 0 ==> read >= announced.value)
    && !ClientMisses(steps) && sent >= read
  }

  /** The terminal event of a stream was dispatched. */
  ghost predicate SawTerminal(steps: seq<Step>) {
    var start := ResponseStart(steps);
    && start.Some? && ReadSince(steps, start.value).Some? && steps[start.value].stream
    && TerminalDispatched(steps[start.value].matcher, Lines(ReadSince(steps, start.value).value))
  }

  /** A read that ends the response: EOF, or an error after the client had hung up on a stream
      that had its terminal event and was handed on. */
  ghost predicate EndsAt(steps: seq<Step>, j: int)
    requires 0 <= j < |steps|
  {
    && ReadsResponse(steps[j])
    && (|| steps[j].err.EOF?
        || (steps[j].err.Failed? && HungUp(steps[..j]) && SawTerminal(steps[..j + 1]) && AllHandedOn(steps[..j + 1])))
  }

  ghost predicate SeenToEnd(steps: seq<Step>) {
    ResponseStart(steps).Some? && exists j :: ResponseStart(steps).value < j < |steps| && EndsAt(steps, j)
  }

  /** The response is complete, and the client has it. */
  ghost predicate ReplyDelivered(steps: seq<Step>) {
    AllHandedOn(steps) && (SeenToEnd(steps) || SawTerminal(steps))
  }

  ghost function ReceivedBy(steps: seq<Step>): Option<Received> {
    var start := ResponseStart(steps);
    if start.None? then None
    else
      var step := steps[start.value];
      Some(Received(step.contentLength, step.stream, step.matcher, ReadSince(steps, start.value), SeenToEnd(steps)))
  }

  ghost function SentBy(steps: seq<Step>): Option<Sent> {
    var start := ReplyStart(steps);
    if start.None? then None else Some(Sent(SentSince(steps, start.value), ClientMisses(steps)))
  }

  /** What the trace has of a response is what its steps said of it. */
  ghost predicate Recalled(steps: seq<Step>) {
    && After(steps).received == ReceivedBy(steps) && After(steps).sent == SentBy(steps)
    && After(steps).cancelled == HungUp(steps)
  }

  lemma RecalledDelivered(steps: seq<Step>)
    requires Recalled(steps)
    ensures Delivered(After(steps)) <==> ReplyDelivered(steps)
  {
    hide After;
    hide TerminalDispatched;
    hide Lines;
  }

  lemma OneMore(steps: seq<Step>, step: Step)
    ensures HungUp(steps + [step]) <==> HungUp(steps) || step.StepCancel?
    ensures ClientMisses(steps + [step]) <==> ClientMisses(steps) || MissesBytes(step)
  {
    var more := steps + [step];
    assert more[|steps|] == step && forall j :: 0 <= j < |steps| ==> more[j] == steps[j];
  }

  lemma OneMoreEnd(steps: seq<Step>, step: Step)
    requires ResponseStart(steps).Some?
    ensures SeenToEnd(steps + [step]) <==> SeenToEnd(steps) || EndsAt(steps + [step], |steps|)
  {
    hide EndsAt;
    var more := steps + [step];
    assert more[..|steps|] == steps;
    forall j | 0 <= j < |steps| ensures EndsAt(more, j) <==> EndsAt(steps, j) {
      EndsEarlier(steps, step, j);
    }
  }

  lemma EndsEarlier(steps: seq<Step>, step: Step, j: int)
    requires 0 <= j < |steps|
    ensures EndsAt(steps + [step], j) <==> EndsAt(steps, j)
  {
    var more := steps + [step];
    assert more[..j] == steps[..j] && more[..j + 1] == steps[..j + 1] && more[j] == steps[j];
  }

  /** The response side, one step on. */
  lemma ReceivedNext(steps: seq<Step>, step: Step)
    ensures var more := steps + [step];
      && (ReceivedBy(steps).None? && !StartsResponse(step) ==> ReceivedBy(more).None?)
      && (ReceivedBy(steps).None? && StartsResponse(step) ==>
            ReceivedBy(more) == Some(Received(step.contentLength, step.stream, step.matcher, None, false)))
      && (ReceivedBy(steps).Some? && !ReadsResponse(step) ==> ReceivedBy(more) == ReceivedBy(steps))
      && (ReceivedBy(steps).Some? && ReadsResponse(step) ==>
            var r := ReceivedBy(steps).value;
            ReceivedBy(more) ==
              Some(r.(bytes := Joining(r.bytes, step.data), ended := r.ended || EndsAt(more, |steps|))))
  {
    hide EndsAt;
    var more := steps + [step];
    assert more[..|steps|] == steps && more[|steps|] == step;
    if ReceivedBy(steps).Some? {
      OneMoreEnd(steps, step);
      var start := ResponseStart(steps).value;
      assert ResponseStart(more) == Some(start) && more[start] == steps[start];
      NotRead(more, |steps|);
      if ReadsResponse(step) && ReadSince(steps, start).None? {
        assert [] + step.data == step.data;
      }
    }
  }

  lemma NotRead(steps: seq<Step>, j: int)
    requires 0 <= j < |steps|
    ensures EndsAt(steps, j) ==> ReadsResponse(steps[j])
  {
  }

  /** The client's side, one step on. */
  lemma SentNext(steps: seq<Step>, step: Step)
    ensures var more := steps + [step];
      && (SentBy(steps).None? && !StartsReply(step) ==> SentBy(more).None?)
      && (SentBy(steps).None? && StartsReply(step) ==> SentBy(more) == Some(Sent(HandedOn(step), MissesBytes(step))))
      && (SentBy(steps).Some? ==>
            var r := SentBy(steps).value;
            SentBy(more) == Some(Sent(if HandedOn(step).Some? then Joining(r.bytes, HandedOn(step).value) else r.bytes,
                                      r.writeFailed || MissesBytes(step))))
  {
    var more := steps + [step];
    assert more[..|steps|] == steps && more[|steps|] == step;
    OneMore(steps, step);
    if SentBy(steps).Some? {
      var start := ReplyStart(steps).value;
      if HandedOn(step).Some? && SentSince(steps, start).None? {
        assert [] + HandedOn(step).value == HandedOn(step).value;
      }
    } else {
      NoReplyYet(steps);
      assert SentSince(more, |steps|) == HandedOn(step) by {
        assert SentSince(steps, |steps|) == None;
      }
    }
  }

  lemma {:induction false} NoReplyYet(steps: seq<Step>)
    requires ReplyStart(steps).None?
    ensures !ClientMisses(steps)
  {
    if steps != [] {
      var n := |steps| - 1;
      NoReplyYet(steps[..n]);
      assert steps[..n] + [steps[n]] == steps;
      OneMore(steps[..n], steps[n]);
    }
  }

  lemma WrittenIsHandedOn(step: Step)
    requires step.StepWrite?
    ensures HandedOn(step) == Some(Written(step.data, step.written))
    ensures MissesBytes(step) <==> LosesBytes(step)
  {
    assert step.data[..0] == [] && step.data[..|step.data|] == step.data;
  }

  /** When a failed read of a response is benign. */
  lemma BenignEnd(steps: seq<Step>, step: Step)
    requires Recalled(steps) && ReadsResponse(step) && step.err.Failed? && ReceivedBy(steps).Some?
    ensures Delivered(Passed(After(steps), ResponseReceived, step.data)) <==> ReplyDelivered(steps + [step])
    ensures HungUp(steps) && ReplyDelivered(steps + [step]) ==> SeenToEnd(steps + [step])
    ensures !(HungUp(steps) && ReplyDelivered(steps + [step])) ==> (SeenToEnd(steps + [step]) <==> SeenToEnd(steps))
  {
    hide After;
    hide TerminalDispatched;
    hide Lines;
    hide ReadSince;
    hide SentSince;
    var more := steps + [step];
    assert more[..|steps|] == steps && more[..|steps| + 1] == more && more[|steps|] == step;
    OneMoreEnd(steps, step);
    ReceivedNext(steps, step);
    SentNext(steps, step);
    OneMore(steps, step);
  }

  lemma RecalledNext(steps: seq<Step>, step: Step)
    requires Recalled(steps)
    ensures Recalled(steps + [step])
  {
    hide Delivered;
    hide ReceivedBy;
    hide SentBy;
    hide EndsAt;
    hide HungUp;
    var more := steps + [step];
    assert more[..|steps|] == steps && more[|steps|] == step;
    ReceivedNext(steps, step);
    SentNext(steps, step);
    OneMore(steps, step);
    if step.StepWrite? {
      WrittenIsHandedOn(step);
      assert [] + Written(step.data, step.written) == Written(step.data, step.written);
    }
    assert After(more) == Next(After(steps), step);
    if ReadsResponse(step) && ReceivedBy(steps).Some? {
      ReadEnds(steps, step);
    }
  }

  lemma ReadEnds(steps: seq<Step>, step: Step)
    requires Recalled(steps) && ReadsResponse(step) && ReceivedBy(steps).Some?
    ensures var r := ReceivedBy(steps).value;
      (r.ended || EndsAt(steps + [step], |steps|)) <==>
      || r.ended || step.err.EOF?
      || (step.err.Failed? && HungUp(steps) && Delivered(Passed(After(steps), ResponseReceived, step.data)))
  {
    hide After;
    hide Delivered;
    hide SawTerminal;
    hide AllHandedOn;
    hide HungUp;
    var more := steps + [step];
    assert more[|steps|] == step;
    if step.err.Failed? {
      BenignEnd(steps, step);
      OneMoreEnd(steps, step);
    }
  }

  /** Over every run: the trace recalls exactly what its steps said. */
  lemma {:induction false} AlwaysRecalled(steps: seq<Step>)
    ensures Recalled(steps)
  {
    if steps != [] {
      hide Recalled;
      var n := |steps| - 1;
      AlwaysRecalled(steps[..n]);
      RecalledNext(steps[..n], steps[n]);
      assert steps[..n] + [steps[n]] == steps;
    }
  }

  // ----- What settles the status -----

  /** A failed read of a started response, unless the client had hung up on a delivered one. */
  ghost predicate BreaksOff(before: seq<Step>, step: Step) {
    && ReadsResponse(step) && step.err.Failed? && ResponseStart(before).Some?
    && !(HungUp(before) && ReplyDelivered(before + [step]))
  }

  predicate MarksFailure(step: Step) {
    step.StepMarkNewAPIError? || step.StepMarkProxyError?
  }

  /** A step after which the session cannot complete any more. */
  ghost predicate Settles(before: seq<Step>, step: Step) {
    || step.StepReject? || MissesBytes(step) || BreaksOff(before, step) || MarksFailure(step)
    || (step.StepMarkCancelled? && !ReplyDelivered(before))
  }

  /** The first step that settles. */
  ghost function FirstSettling(steps: seq<Step>): (r: Option<nat>)
    ensures r.Some? ==> r.value < |steps| && Settles(steps[..r.value], steps[r.value])
  {
    if steps == [] then None
    else
      var n := |steps| - 1;
      var earlier := FirstSettling(steps[..n]);
      if earlier.Some? then
        assert steps[..n][..earlier.value] == steps[..earlier.value];
        earlier
      else if Settles(steps[..n], steps[n]) then Some(n)
      else None
  }

  /** The first step that settles rejects the request. */
  ghost predicate RejectedFirst(steps: seq<Step>) {
    FirstSettling(steps).Some? && steps[FirstSettling(steps).value].StepReject?
  }

  /** A step that is put down to the client: a loss or a broken read after it hung up, whatever
      came before; or, unless the request was rejected, a hang-up on a response that was not
      delivered, or a failure marked after one. */
  ghost predicate BlamesClient(before: seq<Step>, step: Step) {
    || (HungUp(before) && (MissesBytes(step) || BreaksOff(before, step)))
    || (&& !RejectedFirst(before) && !ReplyDelivered(before)
        && (step.StepMarkCancelled? || (MarksFailure(step) && HungUp(before))))
  }

  ghost predicate ClientBlamed(steps: seq<Step>) {
    exists k :: 0 <= k < |steps| && BlamesClient(steps[..k], steps[k])
  }

  /** The failure that was marked last. */
  function LastMark(steps: seq<Step>): Option<Status> {
    if steps == [] then None
    else if steps[|steps| - 1].StepMarkNewAPIError? then Some(NewAPIError)
    else if steps[|steps| - 1].StepMarkProxyError? then Some(ProxyError)
    else LastMark(steps[..|steps| - 1])
  }

  /** The status of a session that has not finished. */
  ghost function Verdict(steps: seq<Step>): Status {
    var first := FirstSettling(steps);
    if ClientBlamed(steps) then ClientCancelled
    else if first.None? then InProgress
    else if steps[first.value].StepReject? then Rejected
    else if LastMark(steps).Some? then LastMark(steps).value
    else if MissesBytes(steps[first.value]) then ProxyError
    else NewAPIError
  }

  ghost predicate Unfinished(steps: seq<Step>) {
    forall j :: 0 <= j < |steps| ==> !steps[j].StepFinish?
  }

  lemma BlamedNext(steps: seq<Step>, step: Step)
    ensures ClientBlamed(steps + [step]) <==> ClientBlamed(steps) || BlamesClient(steps, step)
  {
    hide BlamesClient;
    var more := steps + [step];
    assert more[..|steps|] == steps && more[|steps|] == step;
    forall k | 0 <= k < |steps| ensures more[..k] == steps[..k] && more[k] == steps[k] {
    }
  }

  /** Only what is put down to the client, a rejection, a mark, a loss or a broken read settles. */
  lemma FirstNext(steps: seq<Step>, step: Step)
    ensures FirstSettling(steps + [step]) ==
      if FirstSettling(steps).Some? then FirstSettling(steps) else if Settles(steps, step) then Some(|steps|) else None
    ensures LastMark(steps + [step]) ==
      if step.StepMarkNewAPIError? then Some(NewAPIError)
      else if step.StepMarkProxyError? then Some(ProxyError)
      else LastMark(steps)
  {
    hide Settles;
    var more := steps + [step];
    assert more[..|steps|] == steps && more[|steps|] == step;
  }

  /** What a step does to the status, in terms of what it does to the client. */
  lemma StatusNext(v: Exchange, step: Step)
    requires !step.StepFinish?
    ensures var loses := step.StepWrite? && Loses(step.data, step.written, step.failed);
      Next(v, step).status ==
      if loses || Breaks(v, step) then
        if v.cancelled then ClientCancelled else if !v.status.InProgress? then v.status
        else if loses then ProxyError else NewAPIError
      else if step.StepReject? then if v.status.InProgress? then Rejected else v.status
      else if MarksFailure(step) then
        if v.status.Rejected? || v.status.ClientCancelled? then v.status
        else if v.cancelled && !Delivered(v) then ClientCancelled
        else if step.StepMarkNewAPIError? then NewAPIError else ProxyError
      else if step.StepMarkCancelled? && !v.status.Rejected? && !Delivered(v) then ClientCancelled
      else v.status
  {
    hide Delivered;
    hide Loses;
  }

  /** Over every run that has not finished: the status is the verdict on its steps. */
  lemma {:induction false} StatusIsVerdict(steps: seq<Step>)
    requires Unfinished(steps)
    ensures After(steps).status == Verdict(steps)
  {
    if steps != [] {
      var n := |steps| - 1;
      StatusIsVerdict(steps[..n]);
      VerdictNext(steps[..n], steps[n]);
      assert steps[..n] + [steps[n]] == steps;
    }
  }

  lemma BreaksIsBreaksOff(steps: seq<Step>, step: Step)
    ensures Breaks(After(steps), step) <==> BreaksOff(steps, step)
    ensures Delivered(After(steps)) <==> ReplyDelivered(steps)
    ensures After(steps).cancelled == HungUp(steps)
  {
    hide After;
    hide Delivered;
    hide ReplyDelivered;
    hide HungUp;
    AlwaysRecalled(steps);
    RecalledDelivered(steps);
    if ReadsResponse(step) && step.err.Failed? && ReceivedBy(steps).Some? {
      BenignEnd(steps, step);
    }
  }

  lemma VerdictNext(steps: seq<Step>, step: Step)
    requires !step.StepFinish? && After(steps).status == Verdict(steps)
    ensures After(steps + [step]).status == Verdict(steps + [step])
  {
    hide Delivered;
    hide ReplyDelivered;
    hide HungUp;
    hide Next;
    hide Breaks;
    hide BreaksOff;
    hide ClientBlamed;
    hide FirstSettling;
    hide LastMark;
    var more := steps + [step];
    assert more[..|steps|] == steps && more[|steps|] == step;
    BreaksIsBreaksOff(steps, step);
    StatusNext(After(steps), step);
    BlamedNext(steps, step);
    FirstNext(steps, step);
    if step.StepWrite? {
      WrittenIsHandedOn(step);
    }
    assert After(more) == Next(After(steps), step);
    if FirstSettling(steps).Some? {
      assert more[FirstSettling(steps).value] == steps[FirstSettling(steps).value];
    }
    OnlyRead(steps, step);
    MarkSettles(steps);
  }

  lemma {:induction false} MarkSettles(steps: seq<Step>)
    ensures LastMark(steps).Some? ==>
      FirstSettling(steps).Some? && LastMark(steps).value in {NewAPIError, ProxyError}
  {
    if steps != [] {
      MarkSettles(steps[..|steps| - 1]);
    }
  }

  lemma OnlyRead(steps: seq<Step>, step: Step)
    ensures BreaksOff(steps, step) ==> ReadsResponse(step)
  {
  }

  // ----- Outcomes -----

  /** What a finish makes of the steps before it. */
  ghost function FinalVerdict(before: seq<Step>): Status {
    if !Verdict(before).InProgress? then Verdict(before)
    else if HungUp(before) && !ReplyDelivered(before) then ClientCancelled
    else Completed
  }

  ghost predicate FinishesAt(steps: seq<Step>, k: int) {
    0 <= k < |steps| && steps[k].StepFinish? && Unfinished(steps[..k])
  }

  /** Over every run the first finish fixes the outcome, to the verdict on the steps before it. */
  lemma OutcomeExactly(steps: seq<Step>, k: nat)
    requires FinishesAt(steps, k)
    ensures After(steps).outcome == Some(FinalVerdict(steps[..k]))
  {
    hide Delivered;
    hide ReplyDelivered;
    hide HungUp;
    hide Verdict;
    var before := steps[..k];
    StatusIsVerdict(before);
    BreaksIsBreaksOff(before, steps[k]);
    assert OpenAt(before, k);
    OpenExchange(before);
    AfterStep(steps, k);
    StatusStaysSettled(steps, k + 1);
  }

  ghost predicate Undisturbed(steps: seq<Step>) {
    forall j :: 0 <= j < |steps| ==> !Settles(steps[..j], steps[j])
  }

  lemma {:induction false} UndisturbedIsOpen(steps: seq<Step>)
    ensures FirstSettling(steps).None? <==> Undisturbed(steps)
  {
    hide Settles;
    if steps != [] {
      var n := |steps| - 1;
      UndisturbedIsOpen(steps[..n]);
      assert forall j :: 0 <= j < n ==> steps[..n][..j] == steps[..j] && steps[..n][j] == steps[j];
    }
  }

  lemma BlamedIsSettled(steps: seq<Step>)
    ensures ClientBlamed(steps) ==> !Undisturbed(steps)
  {
  }

  /** The first finish comes after steps of which none settled the status, and a client that hung up
      had the whole response. */
  ghost predicate CompletesAt(steps: seq<Step>, k: int) {
    && FinishesAt(steps, k) && Undisturbed(steps[..k])
    && (HungUp(steps[..k]) ==> ReplyDelivered(steps[..k]))
  }

  /** A session completes exactly when, before its first finish, nothing was rejected, lost, broken
      off, marked as failed or hung up on, and a client that cancelled had the whole response. */
  lemma CompletedExactly(steps: seq<Step>)
    ensures After(steps).outcome == Some(Completed) <==> exists k :: CompletesAt(steps, k)
  {
    hide After;
    hide Settles;
    hide BlamesClient;
    hide ReplyDelivered;
    hide HungUp;
    OutcomeOf(steps);
    if After(steps).outcome.Some? {
      var k := FirstFinish(steps);
      OutcomeExactly(steps, k);
      UndisturbedIsOpen(steps[..k]);
      BlamedIsSettled(steps[..k]);
      MarkSettles(steps[..k]);
      forall j | FinishesAt(steps, j) ensures j == k {
        OneFirstFinish(steps, j, k);
      }
      assert After(steps).outcome == Some(Completed) <==> CompletesAt(steps, k);
    } else {
      forall j ensures !FinishesAt(steps, j) {
      }
    }
  }

  lemma {:induction false} FirstFinish(steps: seq<Step>) returns (k: nat)
    requires !OpenAt(steps, |steps|)
    ensures FinishesAt(steps, k)
  {
    var n := |steps| - 1;
    if OpenAt(steps[..n], n) {
      k := n;
    } else {
      k := FirstFinish(steps[..n]);
      assert steps[..n][..k] == steps[..k];
    }
  }

  lemma OneFirstFinish(steps: seq<Step>, j: int, k: int)
    requires FinishesAt(steps, j) && FinishesAt(steps, k)
    ensures j == k
  {
    assert forall i :: 0 <= i < k ==> steps[..k][i] == steps[i];
    assert forall i :: 0 <= i < j ==> steps[..j][i] == steps[i];
  }
}
