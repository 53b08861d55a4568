/**
 What a session's steps amount to, without stages, bodies or storage: the forwarding status and
 the bytes that passed on the response side, as functions of the steps alone.
 */
module SessionTrace {
  import opened Words
  import opened Wrappers
  import opened StreamLines
  import opened StreamProbe
  import opened BodyCapture

  datatype Status = InProgress | Completed | Rejected | ClientCancelled | NewAPIError | ProxyError

  datatype ReadError = NoError | EOF | Failed

  /** Everything that can happen to a session, with the outcomes the environment chooses. */
  datatype Step =
    | StepStart(name: StageName, persisted: bool, contentLength: Option<int>, expectsBody: bool, headersFail: bool,
                stream: bool, matcher: Bytes -> bool, bodyStarts: bool, store: nat -> Outcome)
    | StepRead(name: StageName, data: Bytes, err: ReadError, now: int)
    | StepClose(name: StageName, failed: bool)
    | StepWrite(data: Bytes, written: int, failed: bool, now: int,
                persisted: bool, contentLength: Option<int>, headersFail: bool, bodyStarts: bool, store: nat -> Outcome)
    | StepCancel
    | StepReject
    | StepMarkNewAPIError
    | StepMarkProxyError
    | StepMarkCancelled
    | StepFinish(hash: Bytes -> Bytes, writesFail: bool, storeDowngrades: bool)

  /** The response as it came from upstream; no bytes means that no read was tried. */
  datatype Received = Received(contentLength: Option<int>, stream: bool, matcher: Bytes -> bool, bytes: Option<Bytes>,
                               ended: bool)

  /** The response as it reached the client. */
  datatype Sent = Sent(bytes: Option<Bytes>, writeFailed: bool)

  datatype Exchange = Exchange(status: Status, outcome: Option<Status>, cancelled: bool, received: Option<Received>,
                               sent: Option<Sent>)

  const START := Exchange(InProgress, None, false, None, None)

  /** The response was received in full, by transport EOF or by a terminal event among its lines,
      with at least the announced length, and as many bytes reached the client without a failed
      write. */
  ghost predicate Delivered(v: Exchange) {
    && v.received.Some? && v.sent.Some? && v.received.value.bytes.Some? && v.sent.value.bytes.Some?
    && var r, s := v.received.value, v.sent.value;
    && (r.ended || (r.stream && TerminalDispatched(r.matcher, Lines(r.bytes.value))))
    && (r.contentLength.Some? && r.contentLength.value >= 0 ==> |r.bytes.value| >= r.contentLength.value)
    && !s.writeFailed && |s.bytes.value| >= |r.bytes.value|
  }

  function Joining(bytes: Option<Bytes>, data: Bytes): Option<Bytes> {
    Some((if bytes.Some? then bytes.value else []) + data)
  }

  /** A stage starts, unless it has started. */
  function Started(v: Exchange, name: StageName, contentLength: Option<int>, stream: bool,
                   matcher: Bytes -> bool): Exchange {
    if name == ResponseReceived && v.received.None? then
      v.(received := Some(Received(contentLength, stream, matcher, None, false)))
    else if name == ResponseSent && v.sent.None? then v.(sent := Some(Sent(None, false)))
    else v
  }

  /** Bytes pass a stage that has started. */
  function Passed(v: Exchange, name: StageName, data: Bytes): Exchange {
    if name == ResponseReceived && v.received.Some? then
      v.(received := Some(v.received.value.(bytes := Joining(v.received.value.bytes, data))))
    else if name == ResponseSent && v.sent.Some? then
      v.(sent := Some(v.sent.value.(bytes := Joining(v.sent.value.bytes, data))))
    else v
  }

  function Ended(v: Exchange, name: StageName): Exchange {
    if name == ResponseReceived && v.received.Some? then v.(received := Some(v.received.value.(ended := true))) else v
  }

  /** The client is missing bytes. */
  function Lost(v: Exchange): Exchange {
    if v.sent.Some? then v.(sent := Some(v.sent.value.(writeFailed := true))) else v
  }

  /** A failure settles a status that is still open; under cancellation it is the client's. */
  function Settled(v: Exchange, failure: Status): Exchange {
    v.(status := if v.cancelled then ClientCancelled else if v.status.InProgress? then failure else v.status)
  }

  /** A read error is the benign end of the response exactly when the client had hung up on a
      response that was complete with the bytes just read. */
  ghost function AfterRead(v: Exchange, name: StageName, data: Bytes, err: ReadError): Exchange {
    var passed := Passed(v, name, data);
    if err.EOF? then Ended(passed, name)
    else if err.Failed? && name == ResponseReceived && v.received.Some? then
      if v.cancelled && Delivered(passed) then Ended(passed, name) else Settled(passed, NewAPIError)
    else passed
  }

  function Written(data: Bytes, written: int): Bytes {
    data[..if written < 0 then 0 else if written > |data| then |data| else written]
  }

  /** A write that failed or fell short. */
  predicate Loses(data: Bytes, written: int, failed: bool) {
    failed || (data != [] && written < |data|)
  }

  function AfterWrite(v: Exchange, data: Bytes, written: int, failed: bool): Exchange {
    var passed := Passed(Started(v, ResponseSent, None, false, _ => false), ResponseSent, Written(data, written));
    if Loses(data, written, failed) then Settled(Lost(passed), ProxyError) else passed
  }

  ghost function AfterFailure(v: Exchange, failure: Status): Exchange {
    if v.status.Rejected? || v.status.ClientCancelled? then v
    else v.(status := if v.cancelled && !Delivered(v) then ClientCancelled else failure)
  }

  ghost function AfterHangUp(v: Exchange): Exchange {
    if v.status.Rejected? || Delivered(v) then v else v.(status := ClientCancelled)
  }

  ghost function AfterFinish(v: Exchange): Exchange {
    if v.outcome.Some? then v
    else
      var status :=
        if !v.status.InProgress? then v.status
        else if v.cancelled && !Delivered(v) then ClientCancelled
        else Completed;
      v.(status := status, outcome := Some(status))
  }

  ghost function Next(v: Exchange, step: Step): Exchange {
    match step
    case StepStart(name, _, contentLength, _, _, stream, matcher, _, _) =>
      Started(v, name, contentLength, stream, matcher)
    case StepRead(name, data, err, _) => AfterRead(v, name, data, err)
    case StepClose(_, _) => v
    case StepWrite(data, written, failed, _, _, _, _, _, _) => AfterWrite(v, data, written, failed)
    case StepCancel => v.(cancelled := true)
    case StepReject => if v.status.InProgress? then v.(status := Rejected) else v
    case StepMarkNewAPIError => AfterFailure(v, NewAPIError)
    case StepMarkProxyError => AfterFailure(v, ProxyError)
    case StepMarkCancelled => AfterHangUp(v)
    case StepFinish(_, _, _) => AfterFinish(v)
  }

  /** Where a sequence of steps leads. */
  ghost function After(steps: seq<Step>): Exchange {
    if steps == [] then START else Next(After(steps[..|steps| - 1]), steps[|steps| - 1])
  }

  /** A downstream write that failed or fell short. */
  ghost predicate LosesBytes(step: Step) {
    step.StepWrite? && Loses(step.data, step.written, step.failed)
  }

  /** A stage that is persisted, headers, body and chunks. */
  ghost predicate StoresAll(persisted: bool, headersFail: bool, bodyStarts: bool, store: nat -> Outcome) {
    persisted && !headersFail && bodyStarts && AlwaysStores(store)
  }

  /** A step at which nothing goes wrong. */
  ghost predicate FaultFree(step: Step) {
    match step
    case StepStart(_, persisted, _, _, headersFail, _, _, bodyStarts, store) =>
      StoresAll(persisted, headersFail, bodyStarts, store)
    case StepRead(_, _, err, _) => !err.Failed?
    case StepClose(_, failed) => !failed
    case StepWrite(data, written, failed, _, persisted, _, headersFail, bodyStarts, store) =>
      !Loses(data, written, failed) && StoresAll(persisted, headersFail, bodyStarts, store)
    case _ => true
  }

  /** A failed read of a response that has started, unless the client had hung up on it when it
      was complete. */
  ghost predicate Breaks(v: Exchange, step: Step) {
    && step.StepRead? && step.name == ResponseReceived && step.err.Failed? && v.received.Some?
    && !(v.cancelled && Delivered(Passed(v, step.name, step.data)))
  }

  /** What any step does to status, outcome and cancellation. */
  lemma NextFacts(v: Exchange, step: Step)
    ensures !v.status.InProgress? ==> !Next(v, step).status.InProgress?
    ensures !v.status.Completed? && Next(v, step).status.Completed? ==>
      step.StepFinish? && v.outcome.None? && v.status.InProgress?
    ensures v.outcome.Some? ==> Next(v, step).outcome == v.outcome
    ensures v.outcome.None? ==> Next(v, step).outcome == if step.StepFinish? then Some(Next(v, step).status) else None
    ensures Next(v, step).cancelled <==> v.cancelled || step.StepCancel?
    ensures LosesBytes(step) || Breaks(v, step) ==> !Next(v, step).status.InProgress? && !step.StepFinish?
  {
    hide Delivered;
    hide Loses;
  }

  /** A status that has left "in progress" never returns to it, and the first outcome stays. */
  lemma {:induction false} StatusStaysSettled(steps: seq<Step>, k: nat)
    requires k <= |steps|
    ensures !After(steps[..k]).status.InProgress? ==> !After(steps).status.InProgress?
    ensures After(steps[..k]).outcome.Some? ==> After(steps).outcome == After(steps[..k]).outcome
    decreases |steps|
  {
    hide Next;
    if k == |steps| {
      assert steps[..k] == steps;
    } else {
      var n := |steps| - 1;
      assert steps[..n][..k] == steps[..k];
      StatusStaysSettled(steps[..n], k);
      NextFacts(After(steps[..n]), steps[n]);
    }
  }

  lemma {:induction false} AfterStep(steps: seq<Step>, k: nat)
    requires k < |steps|
    ensures After(steps[..k + 1]) == Next(After(steps[..k]), steps[k])
  {
    assert steps[..k + 1][..k] == steps[..k];
  }

  /** The session has not finished before step k. */
  ghost predicate OpenAt(steps: seq<Step>, k: int)
    requires 0 <= k <= |steps|
  {
    forall j :: 0 <= j < k ==> !steps[j].StepFinish?
  }

  ghost predicate CancelledBefore(steps: seq<Step>, k: int)
    requires 0 <= k <= |steps|
  {
    exists j :: 0 <= j < k && steps[j].StepCancel?
  }

  lemma {:induction false} OutcomeOf(steps: seq<Step>)
    ensures After(steps).outcome.Some? <==> !OpenAt(steps, |steps|)
    ensures After(steps).cancelled <==> CancelledBefore(steps, |steps|)
  {
    hide Next;
    if steps != [] {
      var n := |steps| - 1;
      OutcomeOf(steps[..n]);
      NextFacts(After(steps[..n]), steps[n]);
      assert OpenAt(steps, |steps|) <==> OpenAt(steps[..n], n) && !steps[n].StepFinish?;
      assert CancelledBefore(steps, |steps|) <==> CancelledBefore(steps[..n], n) || steps[n].StepCancel?;
    }
  }

  /** While a session is open, a step that loses bytes or breaks settles it for good: its outcome
      cannot be completed. */
  lemma {:induction false} CompletedMeansClean(steps: seq<Step>, k: nat)
    requires k < |steps| && OpenAt(steps, k) && (LosesBytes(steps[k]) || Breaks(After(steps[..k]), steps[k]))
    ensures After(steps).outcome != Some(Completed)
    ensures After(steps).outcome.None? ==> !After(steps).status.InProgress? && !After(steps).status.Completed?
    decreases |steps|
  {
    hide Next;
    hide LosesBytes;
    hide Breaks;
    var n := |steps| - 1;
    assert steps[..n][..k] == steps[..k];
    NextFacts(After(steps[..n]), steps[n]);
    if k < n {
      CompletedMeansClean(steps[..n], k);
    } else {
      OpenExchange(steps[..k]);
    }
  }

  /** An open session is not completed yet. */
  lemma {:induction false} OpenExchange(steps: seq<Step>)
    requires OpenAt(steps, |steps|)
    ensures After(steps).outcome.None? && !After(steps).status.Completed?
  {
    hide Next;
    if steps != [] {
      var n := |steps| - 1;
      assert OpenAt(steps[..n], n);
      OpenExchange(steps[..n]);
      NextFacts(After(steps[..n]), steps[n]);
    }
  }

  ghost predicate FailedRead(step: Step) {
    step.StepRead? && step.name == ResponseReceived && step.err.Failed?
  }

  /** In a run that completes, an open step loses nothing, and a failed read came after the client
      had hung up on a response that was complete with the bytes just read. */
  lemma CleanStep(steps: seq<Step>, k: nat)
    requires k < |steps| && OpenAt(steps, k) && After(steps).outcome == Some(Completed)
    ensures !LosesBytes(steps[k])
    ensures FailedRead(steps[k]) && After(steps[..k]).received.Some? ==>
      CancelledBefore(steps, k) && Delivered(Passed(After(steps[..k]), ResponseReceived, steps[k].data))
  {
    hide After;
    hide Delivered;
    if LosesBytes(steps[k]) || Breaks(After(steps[..k]), steps[k]) {
      CompletedMeansClean(steps, k);
    }
    OutcomeOf(steps[..k]);
    assert CancelledBefore(steps[..k], k) ==> CancelledBefore(steps, k);
  }
}
