/**
 The audit session of one proxied exchange: four stages with their captured bodies, and the
 forwarding status that is settled once and for all when the session finishes. Methods that
 the proxy runs under the session lock are atomic steps. Store errors, read and write
 errors, cancellation and the clock are inputs.
 */
module AuditSession {
  import opened Words
  import opened Wrappers
  import opened StreamLines
  import opened StreamProbe
  import opened BodyCapture
  import opened SessionTrace
  import opened SessionOutcome
  import opened TimelineQuery
  import Evidence

  /** The immutable outcome of a finished session. */
  datatype Terminal = Terminal(status: Status, captureComplete: bool, parsePending: bool)

  class Stage {
    const name: StageName
    const persisted: bool
    const contentLength: Option<int>
    const expectsBody: bool
    const stream: bool
    const matcher: Bytes -> bool
    const bodyStarts: bool
    const store: nat -> Outcome
    var body: Body?
    var faulted: bool

    constructor (name: StageName, persisted: bool, contentLength: Option<int>, expectsBody: bool,
                 stream: bool, matcher: Bytes -> bool, bodyStarts: bool, store: nat -> Outcome)
      ensures this.name == name && this.persisted == persisted && this.contentLength == contentLength
      ensures this.expectsBody == expectsBody && this.stream == stream && this.matcher == matcher
      ensures this.bodyStarts == bodyStarts && this.store == store
      ensures Valid() && body == null && faulted == !persisted
      ensures AsReceived() == Received(contentLength, stream, matcher, None, false) && AsSent() == Sent(None, false)
    {
      this.name, this.persisted, this.contentLength, this.expectsBody := name, persisted, contentLength, expectsBody;
      this.stream, this.matcher, this.bodyStarts, this.store := stream, matcher, bodyStarts, store;
      body, faulted := null, !persisted;
    }

    /** The bytes that passed, if any read or write was tried. */
    ghost function Observed(): Option<Bytes>
      reads this`body, body
    {
      if body == null then None else Some(body.observed)
    }

    /** This stage as the upstream side of the response. */
    ghost function AsReceived(): Received
      reads this`body, body
    {
      Received(contentLength, stream, matcher, Observed(), body != null && body.eofSeen)
    }

    /** This stage as the client side of the response. */
    ghost function AsSent(): Sent
      reads this`body, body
    {
      Sent(Observed(), body != null && body.writeFailed)
    }

    /** The objects this stage is made of belong to repr. */
    ghost predicate Within(repr: set<object>)
      reads this`body
    {
      && this in repr
      && (body != null ==>
            && body in repr && body.sourceStage == name
            && (body.probe != null ==> body.probe in repr && name == ResponseReceived))
    }

    ghost predicate Valid()
      reads this`body, body, if body == null then null else body.probe
    {
      body != null ==>
        && body.sourceStage == name && body.Valid()
        && (body.probe != null <==> stream && name == ResponseReceived)
        && (body.probe != null ==> body.probe.matcher == matcher)
        && (body.eofSeen ==> body.hashComplete)
    }

    /** Nothing went wrong with this stage so far, and its store takes everything. */
    ghost predicate Clean()
      reads this`body, this`faulted, body
    {
      && persisted && bodyStarts && AlwaysStores(store) && !faulted
      && (body != null ==> body.persisted && body.store == store && !body.faulted)
    }

    lemma CleanIsFaultless()
      ensures Clean() ==> !faulted
    {
    }

    /** The body of this stage, started on first use. */
    method EnsureBody() returns (b: Body)
      requires Valid()
      modifies this`body, this`faulted
      ensures b == body && Valid()
      ensures old(body) != null ==> body == old(body) && faulted == old(faulted)
      ensures old(body) == null ==> b.observed == [] && !b.eofSeen && !b.writeFailed
      ensures old(body) == null ==> fresh(b) && (b.probe != null ==> fresh(b.probe))
      ensures old(faulted) ==> faulted
      ensures old(Clean()) ==> Clean()
    {
      if body != null {
        return body;
      }
      var probe: Probe? := null;
      if stream && name == ResponseReceived {
        probe := new Probe(matcher);
      }
      b := new Body(name, persisted && bodyStarts, store, probe);
      body := b;
      if persisted && !bodyStarts {
        faulted := true;
      }
    }

    /** Observe bytes on this stage; a failed flush marks the stage. */
    method Observe(data: Bytes, now: int)
      requires Valid()
      modifies this`body, this`faulted, body, if body == null then null else body.probe
      ensures Valid() && body != null
      ensures old(body) != null ==> body == old(body) && body.observed == old(body.observed) + data &&
                                    body.eofSeen == old(body.eofSeen) && body.writeFailed == old(body.writeFailed)
      ensures old(body) == null ==> body.observed == data && !body.eofSeen && !body.writeFailed
      ensures Observed() == Joining(old(Observed()), data)
      ensures AsReceived() == old(AsReceived()).(bytes := Joining(old(AsReceived()).bytes, data))
      ensures AsSent() == old(AsSent()).(bytes := Joining(old(AsSent()).bytes, data))
      ensures old(body) == null ==> fresh(body) && body.sourceStage == name &&
                                    (body.probe != null ==> fresh(body.probe) && name == ResponseReceived)
      ensures old(faulted) ==> faulted
      ensures old(Clean()) ==> Clean()
    {
      hide Body.Valid;
      hide AlwaysStores;
      var b := EnsureBody();
      var ok := b.Observe(data, now);
      assert [] + data == data;
      if !ok {
        faulted := true;
      }
    }

    /** Flush the body and mark it complete. */
    method End()
      requires Valid() && body != null
      modifies this`faulted, body
      ensures Valid() && body.eofSeen && body.observed == old(body.observed)
      ensures body.observedLength == old(body.observedLength)
      ensures body.writeFailed == old(body.writeFailed)
      ensures AsReceived() == old(AsReceived()).(ended := true) && AsSent() == old(AsSent())
      ensures old(faulted) ==> faulted
      ensures old(Clean()) ==> Clean()
    {
      hide Body.Valid;
      FlushAll();
      body.MarkEnd();
    }

    /** Flush the body and mark it closed, whether or not it ended. */
    method Close()
      requires Valid() && body != null
      modifies this`faulted, body
      ensures Valid() && body.closed && body.observed == old(body.observed)
      ensures AsReceived() == old(AsReceived()) && AsSent() == old(AsSent())
      ensures old(faulted) ==> faulted
      ensures old(Clean()) ==> Clean()
    {
      hide Body.Valid;
      FlushAll();
      body.MarkClosed();
    }

    /** Fault the body and the stage. */
    method Fault(write: bool)
      requires Valid() && body != null
      modifies this`faulted, body
      ensures Valid() && faulted && body.faulted && body.eofSeen == old(body.eofSeen)
      ensures body.pending == old(body.pending)
      ensures body.observed == old(body.observed) && body.observedLength == old(body.observedLength)
      ensures body.writeFailed == (old(body.writeFailed) || write)
      ensures AsReceived() == old(AsReceived())
      ensures AsSent() == old(AsSent()).(writeFailed := old(AsSent()).writeFailed || write)
    {
      hide Body.Valid;
      body.Fault(write);
      faulted := true;
    }

    /** Nothing of this stage is missing from the evidence. */
    ghost predicate Whole()
      reads this, body
    {
      !faulted && (expectsBody ==> body != null) && (body != null ==> body.Whole())
    }

    /** Finishing has nothing to complain about: the body that was expected is there and ended, or
        is a reply that is still open when the session completes; its event times are in order;
        and it is the body it was copied from. */
    ghost predicate Ready(completed: bool, source: Option<Bytes>)
      reads this, body, if body == null then null else body.probe
    {
      && (expectsBody ==> body != null)
      && (body != null ==>
            && (body.eofSeen || (name == ResponseSent && !body.closed && completed))
            && (body.probe != null ==> GoodClock(body.probe.stamps) && |body.probe.seen| < TWO_63)
            && (source.Some? ==> body.observed == source.value))
    }

    /** Seal the timeline of an event stream; a failure to encode it is a capture fault. */
    method FinishTimeline()
      requires Valid() && body != null
      modifies this`faulted, body
      ensures Valid() && body.eofSeen == old(body.eofSeen) && body.observed == old(body.observed)
      ensures body.writeFailed == old(body.writeFailed) && body.observedLength == old(body.observedLength)
      ensures body.pending == old(body.pending) && (old(faulted) ==> faulted) && (old(body.faulted) ==> body.faulted)
      ensures faulted ==> old(faulted) || body.faulted
      ensures (body.probe != null ==> GoodClock(body.probe.stamps) && |body.probe.seen| < TWO_63) ==>
        faulted == old(faulted) && body.faulted == old(body.faulted)
    {
      hide Body.Valid;
      hide GoodClock;
      ProbeValid();
      if body.probe != null && GoodClock(body.probe.stamps) && |body.probe.seen| < TWO_63 {
        CapturedPoints(body.probe);
      }
      if body.probe != null && body.probe.events > 0 {
        var sealed := SealTimeline(body.probe, body.observedLength);
        if sealed.EncodeFailed? {
          Fault(false);
        }
      }
    }

    lemma ProbeValid()
      requires Valid() && body != null
      ensures body.probe != null ==> body.probe.Valid()
    {
    }

    lemma LengthObserved()
      requires Valid() && body != null
      ensures body.observedLength == |body.observed|
    {
    }

    ghost function BytesOf(source: Body?): Option<Bytes>
      reads source
    {
      if source == null then None else Some(source.observed)
    }

    /** A forwarded body must be the body it was copied from. */
    method ComparePair(source: Body, hash: Bytes -> Bytes)
      requires Valid() && body != null && source != body && source.observedLength == |source.observed|
      modifies this`faulted, body
      ensures Valid() && body.eofSeen == old(body.eofSeen) && body.observed == old(body.observed)
      ensures body.writeFailed == old(body.writeFailed) && body.observedLength == old(body.observedLength)
      ensures body.pending == old(body.pending) && (old(faulted) ==> faulted) && (old(body.faulted) ==> body.faulted)
      ensures faulted ==> old(faulted) || body.faulted
      ensures body.hashComplete && body.eofSeen && source.hashComplete && source.eofSeen && !body.faulted ==>
        body.observedLength == source.observedLength && hash(body.observed) == hash(source.observed)
      ensures body.observed == source.observed ==> faulted == old(faulted) && body.faulted == old(body.faulted)
    {
      LengthObserved();
      hide Body.Valid;
      if body.hashComplete && body.eofSeen && source.hashComplete && source.eofSeen &&
         (body.observedLength != source.observedLength || hash(body.observed) != hash(source.observed)) {
        Fault(false);
      }
    }

    /** Bring the body to its end: flush it, close a reply that completed, seal its timeline and
        compare it with its source. */
    method FinishBody(completed: bool, source: Body?, hash: Bytes -> Bytes)
      requires Valid() && body != null && source != body
      requires source != null ==> source.observedLength == |source.observed|
      modifies this`faulted, body
      ensures Valid() && body.pending == [] && (old(faulted) ==> faulted) && (faulted ==> old(faulted) || body.faulted)
      ensures AsSent() == old(AsSent()) && (name != ResponseSent ==> AsReceived() == old(AsReceived()))
      ensures !body.faulted && body.eofSeen && source != null && source.eofSeen && source.hashComplete ==>
        body.observedLength == source.observedLength && hash(body.observed) == hash(source.observed)
      ensures old(Clean()) && old(Ready(completed, BytesOf(source))) ==> !faulted && !body.faulted && body.eofSeen
      ensures Observed() == old(Observed())
    {
      hide Body.Valid;
      hide GoodClock;
      hide AlwaysStores;
      FlushAll();
      if name == ResponseSent && !body.closed && !faulted && completed {
        body.MarkEnd();
      }
      FinishTimeline();
      if source != null {
        ComparePair(source, hash);
      }
    }

    /** Finish the stage: complete means that none of it is missing. */
    method Finish(completed: bool, source: Body?, hash: Bytes -> Bytes) returns (complete: bool, row: Option<BodyRow>)
      requires Valid() && (body == null || source != body)
      requires source != null ==> source.observedLength == |source.observed|
      modifies this`faulted, body
      ensures Valid() && (old(faulted) ==> faulted)
      ensures complete <==> Whole()
      ensures row.Some? <==> body != null && body.persisted
      ensures row.Some? ==> DescribesBody(row.value, hash)
      ensures AsSent() == old(AsSent()) && (name != ResponseSent ==> AsReceived() == old(AsReceived()))
      ensures complete && body != null && source != null && source.eofSeen && source.hashComplete ==>
        body.observedLength == source.observedLength && hash(body.observed) == hash(source.observed)
      ensures old(Clean()) && old(Ready(completed, BytesOf(source))) ==> complete
      ensures Observed() == old(Observed())
    {
      hide Body.Valid;
      hide GoodClock;
      hide AlwaysStores;
      complete := !(faulted || (expectsBody && body == null));
      row := None;
      if body != null {
        FinishBody(completed, source, hash);
        WholeBody();
        FaultlessIsStored();
        var bodyComplete := !(body.faulted || !body.eofSeen || body.storedLength != body.observedLength);
        complete := complete && bodyComplete;
        if body.persisted {
          row := Some(BodyRow(if bodyComplete then Complete else Partial, Pending, body.observedLength,
                              body.storedLength,
                              body.chunkCount, body.hashComplete, body.eofSeen, hash(body.observed), None));
        }
      }
    }

    ghost predicate DescribesBody(row: BodyRow, hash: Bytes -> Bytes)
      requires body != null
      reads this, body
    {
      && row.observedLength == body.observedLength && row.storedLength == body.storedLength
      && row.chunkCount == body.chunkCount && row.sha256 == hash(body.observed) && row.eofSeen == body.eofSeen
      && row.hashComplete == body.hashComplete
      && (row.state.Complete? <==> body.Whole())
    }

    /** A body without fault that ended and was stored to its full length is whole. */
    lemma WholeBody()
      requires Valid() && body != null && body.pending == []
      ensures body.Whole() <==> !body.faulted && body.eofSeen && body.storedLength == body.observedLength
    {
    }

    /** Without a fault, and with nothing staged, all that was observed is stored. */
    lemma FaultlessIsStored()
      requires Valid() && body != null && body.pending == []
      ensures body.persisted && !body.faulted ==> body.storedLength == body.observedLength
    {
      if body.persisted && !body.faulted {
        Evidence.AcceptedIsJoined(body.flushed);
        assert Joined(body.flushed) + [] == Joined(body.flushed);
      }
    }

    /** Flush what is staged and forget the buffer. */
    method FlushAll()
      requires Valid() && body != null
      modifies this`faulted, body
      ensures Valid() && body == old(body) && body.observed == old(body.observed)
      ensures body.observedLength == old(body.observedLength) && body.pending == []
      ensures body.eofSeen == old(body.eofSeen) && body.hashComplete == old(body.hashComplete)
      ensures body.writeFailed == old(body.writeFailed) && body.closed == old(body.closed)
      ensures (old(faulted) ==> faulted) && (old(body.faulted) ==> body.faulted)
      ensures faulted ==> old(faulted) || body.faulted
      ensures old(Clean()) ==> Clean()
    {
      hide Body.Valid;
      hide AlwaysStores;
      var ok := body.FlushAll();
      if !ok {
        faulted := true;
      }
    }
  }

  class Session {
    var stages: map<StageName, Stage>
    var status: Status
    var captureFault: bool
    var cancelled: bool
    var terminal: Option<Terminal>
    ghost var repr: set<object>

    ghost predicate Valid()
      reads this, repr
    {
      && this in repr
      && forall n :: n in stages ==>
           stages[n] in repr && stages[n].Within(repr) && stages[n].name == n && stages[n].Valid()
    }

    /** Nothing went wrong with the capture so far. */
    ghost predicate Clean()
      requires Valid()
      reads this, repr
    {
      !captureFault && forall n :: n in stages ==> stages[n].Clean()
    }

    /** What the session knows of the exchange. */
    ghost function Seen(): Exchange
      requires Valid()
      reads this, repr
    {
      Exchange(status, if terminal.Some? then Some(terminal.value.status) else None, cancelled,
               if ResponseReceived in stages then Some(stages[ResponseReceived].AsReceived()) else None,
               if ResponseSent in stages then Some(stages[ResponseSent].AsSent()) else None)
    }

    constructor ()
      ensures Valid() && Seen() == START && stages == map[] && !captureFault && repr == {this}
    {
      stages, status, captureFault, cancelled, terminal := map[], InProgress, false, false, None;
      repr := {this};
    }

    /** Received in full, by transport EOF or by the stream's terminal event, and at least as
        many bytes handed to the client without a failed write. */
    predicate LogicallyComplete()
      requires Valid()
      reads this, repr
    {
      && ResponseReceived in stages && ResponseSent in stages
      && stages[ResponseReceived].body != null && stages[ResponseSent].body != null
      && ReceivedAll(stages[ResponseReceived], stages[ResponseReceived].body)
      && !stages[ResponseSent].body.writeFailed
      && stages[ResponseSent].body.observedLength >= stages[ResponseReceived].body.observedLength
    }

    predicate ReceivedAll(stage: Stage, body: Body)
      reads body, body.probe
    {
      && (body.eofSeen || (body.probe != null && body.probe.terminalSeen))
      && (stage.contentLength.Some? && stage.contentLength.value >= 0 ==>
            body.observedLength >= stage.contentLength.value)
    }

    /** The counters and flags say what the bytes say. */
    lemma CompleteIsDelivered()
      requires Valid()
      ensures LogicallyComplete() <==> Delivered(Seen())
    {
      hide Probe.Valid;
      hide Body.Counters;
      hide TerminalDispatched;
      hide Lines;
      if ResponseReceived in stages && stages[ResponseReceived].body != null {
        assert stages[ResponseReceived].Valid();
        var probe := stages[ResponseReceived].body.probe;
        if probe != null {
          ProbeAgreesWithLines(probe);
        }
      }
      if ResponseSent in stages && stages[ResponseSent].body != null {
        assert stages[ResponseSent].Valid();
      }
    }

    /** A stage that is new; an existing one is left alone. A stage that could not be persisted
        with its headers is a capture fault. */
    method StartStage(name: StageName, persisted: bool, contentLength: Option<int>, expectsBody: bool,
                      headersFail: bool, stream: bool, matcher: Bytes -> bool, bodyStarts: bool, store: nat -> Outcome)
      requires Valid()
      modifies this
      ensures Valid() && fresh(repr - old(repr)) && old(repr) <= repr && name in stages
      ensures stages == if name in old(stages) then old(stages) else old(stages)[name := stages[name]]
      ensures name !in old(stages) ==> fresh(stages[name]) && stages[name].body == null
      ensures terminal == old(terminal)
      ensures Seen() == Started(old(Seen()), name, contentLength, stream, matcher)
      ensures captureFault == (old(captureFault) || (name !in old(stages) && (!persisted || headersFail)))
      ensures old(Clean()) && StoresAll(persisted, headersFail, bodyStarts, store) ==> Clean()
    {
      hide Valid;
      hide Seen;
      hide Stage.Valid;
      SeenStages();
      if name in stages {
        return;
      }
      var stage := NewStage(name, persisted, contentLength, expectsBody, headersFail, stream, matcher, bodyStarts,
                            store);
      Add(stage);
    }

    lemma SeenStages()
      requires Valid()
      ensures (Seen().received.Some? <==> ResponseReceived in stages) && (Seen().sent.Some? <==> ResponseSent in stages)
      ensures this in repr
    {
    }

    static method NewStage(name: StageName, persisted: bool, contentLength: Option<int>, expectsBody: bool,
                           headersFail: bool,
                           stream: bool, matcher: Bytes -> bool, bodyStarts: bool, store: nat -> Outcome)
      returns (stage: Stage)
      ensures fresh(stage) && stage.name == name && stage.Valid() && stage.body == null
      ensures stage.AsReceived() == Received(contentLength, stream, matcher, None, false)
      ensures stage.AsSent() == Sent(None, false)
      ensures stage.faulted == (!persisted || headersFail)
      ensures StoresAll(persisted, headersFail, bodyStarts, store) ==> stage.Clean()
    {
      hide Body.Valid;
      stage := new Stage(name, persisted, contentLength, expectsBody, stream, matcher, bodyStarts, store);
      if persisted && headersFail {
        stage.faulted := true;
      }
    }

    /** A stage joins the session. */
    method Add(stage: Stage)
      requires Valid() && stage.name !in stages && stage.Valid() && stage.body == null
      modifies this`stages, this`repr, this`captureFault
      ensures Valid() && repr == old(repr) + {stage} && stages == old(stages)[stage.name := stage]
      ensures captureFault == (old(captureFault) || stage.faulted)
      ensures old(Clean()) && stage.Clean() ==> Clean()
      ensures Seen() == old(Seen()).(
        received := if stage.name == ResponseReceived then Some(stage.AsReceived()) else old(Seen()).received,
        sent := if stage.name == ResponseSent then Some(stage.AsSent()) else old(Seen()).sent)
    {
      hide Stage.Valid;
      hide Stage.AsReceived;
      hide Stage.AsSent;
      stages, repr := stages[stage.name := stage], repr + {stage};
      captureFault := captureFault || stage.faulted;
      forall n | n in stages ensures stages[n].Within(repr) {
        if n != stage.name {
          assert old(stages[n].Within(repr));
        }
      }
    }

    /** Observe bytes on an existing stage. */
    method ObserveStage(name: StageName, data: Bytes, now: int)
      requires Valid() && name in stages
      modifies stages[name], stages[name].body, if stages[name].body == null then null else stages[name].body.probe
      modifies this`repr, this`captureFault
      ensures Valid() && fresh(repr - old(repr)) && stages[name].body != null
      ensures old(stages[name].body) != null ==> stages[name].body == old(stages[name].body)
      ensures old(stages[name].body) == null ==> fresh(stages[name].body)
      ensures stages[name].Observed() == Joining(old(stages[name].Observed()), data)
      ensures Seen() == Passed(old(Seen()), name, data)
      ensures old(captureFault) ==> captureFault
      ensures old(Clean()) ==> Clean()
    {
      hide Stage.Valid;
      hide Stage.AsReceived;
      hide Stage.AsSent;
      hide Stage.Clean;
      hide Joining;
      stages[name].Observe(data, now);
      stages[name].CleanIsFaultless();
      Absorb(name);
    }

    /** The other stages are in order, and share nothing with this one. */
    ghost predicate ValidBut(name: StageName)
      reads this, repr
    {
      && this in repr && name in stages && stages[name] in repr && stages[name].name == name
      && forall n :: n in stages && n != name ==>
           stages[n] in repr && stages[n].Within(repr) && stages[n].name == n && stages[n].Valid()
    }

    /** The body of a stage joins the session. */
    method Absorb(name: StageName)
      requires ValidBut(name) && stages[name].Valid() && stages[name].body != null
      modifies this`repr, this`captureFault
      ensures Valid() && captureFault == (old(captureFault) || stages[name].faulted)
      ensures var body := stages[name].body;
              repr == old(repr) + {body} + (if body.probe == null then {} else {body.probe})
    {
      BodyParts(stages[name]);
      hide Stage.Valid;
      hide Body.Valid;
      var stage := stages[name];
      repr := repr + {stage.body} + (if stage.body.probe == null then {} else {stage.body.probe});
      captureFault := captureFault || stage.faulted;
      forall n | n in stages && n != name ensures stages[n].Within(repr) && stages[n].Valid() {
        assert old(stages[n].Within(repr)) && old(stages[n].Valid());
      }
    }

    lemma BodyParts(stage: Stage)
      requires stage.Valid() && stage.body != null
      ensures stage.body.sourceStage == stage.name && (stage.body.probe != null ==> stage.name == ResponseReceived)
    {
    }

    /** End the body of a stage: flush it and mark it complete. */
    method EndBody(name: StageName)
      requires Valid() && name in stages && stages[name].body != null
      modifies stages[name], stages[name].body, this`captureFault
      ensures Valid() && stages[name].body == old(stages[name].body)
      ensures stages[name].body.observed == old(stages[name].body.observed)
      ensures stages[name].body.eofSeen && Seen() == Ended(old(Seen()), name)
      ensures old(captureFault) ==> captureFault
      ensures old(Clean()) ==> Clean()
    {
      hide Stage.Valid;
      hide Stage.AsReceived;
      hide Stage.AsSent;
      hide Body.Valid;
      hide Stage.Clean;
      var stage := stages[name];
      stage.End();
      stage.CleanIsFaultless();
      captureFault := captureFault || stage.faulted;
    }

    /** Record a fault on the body of a stage. */
    method FaultBody(name: StageName, write: bool)
      requires Valid() && name in stages && stages[name].body != null
      modifies stages[name], stages[name].body, this`captureFault
      ensures Valid() && stages[name].body == old(stages[name].body)
      ensures stages[name].body.observed == old(stages[name].body.observed)
      ensures captureFault && stages[name].body.faulted
      ensures Seen() == if write && name == ResponseSent then Lost(old(Seen())) else old(Seen())
    {
      hide Stage.Valid;
      hide Stage.AsReceived;
      hide Stage.AsSent;
      hide Body.Valid;
      var stage := stages[name];
      stage.Fault(write);
      captureFault := true;
    }

    /** A failed read. After the client hung up on a complete response, a failed upstream read
        counts as its end; any other failed upstream read settles the status. */
    method ReadFailed(name: StageName)
      requires Valid() && name in stages && stages[name].body != null
      modifies stages[name], stages[name].body, this`captureFault, this`status
      ensures Valid() && stages[name].body == old(stages[name].body)
      ensures stages[name].body.observed == old(stages[name].body.observed)
      ensures Seen() == if name != ResponseReceived then old(Seen())
                        else if old(Seen()).cancelled && Delivered(old(Seen())) then Ended(old(Seen()), name)
                        else Settled(old(Seen()), NewAPIError)
      ensures old(captureFault) ==> captureFault
    {
      hide Valid;
      hide LogicallyComplete;
      hide Delivered;
      CompleteIsDelivered();
      if name == ResponseReceived && cancelled && LogicallyComplete() {
        EndBody(name);
        return;
      }
      FaultBody(name, false);
      if name == ResponseReceived {
        Settle(NewAPIError);
      }
    }

    /** A failure settles a status that is still open; under cancellation it is the client's. */
    method Settle(failure: Status)
      requires Valid()
      modifies this`status
      ensures Valid() && Seen() == Settled(old(Seen()), failure)
    {
      hide Stage.Valid;
      hide Stage.AsReceived;
      hide Stage.AsSent;
      if cancelled {
        status := ClientCancelled;
      } else if status == InProgress {
        status := failure;
      }
    }

    /** A read on a stage returned bytes and perhaps an error. */
    method ObserveRead(name: StageName, data: Bytes, err: ReadError, now: int)
      requires Valid()
      modifies repr
      ensures Valid() && fresh(repr - old(repr)) && stages == old(stages) && terminal == old(terminal)
      ensures name in stages ==> stages[name].Observed() == Joining(old(stages[name].Observed()), data)
      ensures Seen() == if name in stages then AfterRead(old(Seen()), name, data, err) else old(Seen())
      ensures old(captureFault) ==> captureFault
      ensures old(Clean()) && !err.Failed? ==> Clean()
    {
      hide Stage.Valid;
      hide Stage.AsReceived;
      hide Stage.AsSent;
      hide Delivered;
      if name !in stages {
        return;
      }
      ObserveStage(name, data, now);
      if err.EOF? {
        EndBody(name);
      } else if err.Failed? {
        ReadFailed(name);
      }
    }

    /** Closing a read body flushes it; a close error faults it. */
    method CloseRead(name: StageName, failed: bool)
      requires Valid()
      modifies repr
      ensures Valid() && repr == old(repr) && stages == old(stages) && terminal == old(terminal)
      ensures Seen() == old(Seen())
      ensures old(captureFault) ==> captureFault
      ensures name in stages && old(stages[name].body) != null ==>
        && stages[name].body == old(stages[name].body) && stages[name].body.observed == old(stages[name].body.observed)
        && (failed ==> captureFault && stages[name].body.faulted)
      ensures old(Clean()) && !failed ==> Clean()
    {
      hide Stage.Valid;
      hide Stage.AsReceived;
      hide Stage.AsSent;
      hide Stage.Clean;
      hide Body.Valid;
      if name !in stages || stages[name].body == null {
        return;
      }
      CloseBody(name);
      if failed {
        FaultBody(name, false);
      }
    }

    /** Flush the body of a stage and mark it closed. */
    method CloseBody(name: StageName)
      requires Valid() && name in stages && stages[name].body != null
      modifies stages[name], stages[name].body, this`captureFault
      ensures Valid() && stages[name].body == old(stages[name].body)
      ensures stages[name].body.observed == old(stages[name].body.observed)
      ensures Seen() == old(Seen()) && (old(captureFault) ==> captureFault)
      ensures old(Clean()) ==> Clean()
    {
      hide Stage.Valid;
      hide Stage.AsReceived;
      hide Stage.AsSent;
      hide Body.Valid;
      hide Stage.Clean;
      var stage := stages[name];
      stage.Close();
      stage.CleanIsFaultless();
      captureFault := captureFault || stage.faulted;
    }

    /** A downstream write that failed or fell short: the client is missing bytes, so the
        response is not complete whatever else holds. */
    method WriteFailed()
      requires Valid() && ResponseSent in stages && stages[ResponseSent].body != null
      modifies stages[ResponseSent], stages[ResponseSent].body, this`captureFault, this`status
      ensures Valid() && captureFault && Seen() == Settled(Lost(old(Seen())), ProxyError)
      ensures stages[ResponseSent].body == old(stages[ResponseSent].body)
      ensures stages[ResponseSent].body.observed == old(stages[ResponseSent].body.observed)
    {
      hide Stage.Valid;
      hide Stage.AsReceived;
      hide Stage.AsSent;
      FaultBody(ResponseSent, true);
      CompleteIsDelivered();
      if cancelled {
        if !LogicallyComplete() {
          status := ClientCancelled;
        }
      } else if status == InProgress {
        status := ProxyError;
      }
    }

    /** Bytes that reached the client, and whether the write failed. */
    method ObserveWrite(data: Bytes, failed: bool, now: int)
      requires Valid() && ResponseSent in stages
      modifies repr
      ensures Valid() && fresh(repr - old(repr)) && stages == old(stages) && terminal == old(terminal)
      ensures stages[ResponseSent].Observed() == Joining(old(stages[ResponseSent].Observed()), data)
      ensures var passed := Passed(old(Seen()), ResponseSent, data);
              Seen() == if failed then Settled(Lost(passed), ProxyError) else passed
      ensures failed || old(captureFault) ==> captureFault
      ensures old(Clean()) && !failed ==> Clean()
    {
      hide Stage.Valid;
      hide Stage.AsReceived;
      hide Stage.AsSent;
      ObserveStage(ResponseSent, data, now);
      if failed {
        WriteFailed();
      }
    }

    /** The response writer: start the stage on first use, observe what was really written,
        and treat a short write as a failed one. */
    method Write(data: Bytes, written: int, failed: bool, now: int,
                 persisted: bool, contentLength: Option<int>, headersFail: bool, bodyStarts: bool,
                 store: nat -> Outcome)
      requires Valid()
      modifies repr
      ensures Valid() && fresh(repr - old(repr)) && old(stages).Keys <= stages.Keys && terminal == old(terminal)
      ensures Seen() == AfterWrite(old(Seen()), data, written, failed)
      ensures Loses(data, written, failed) || old(captureFault) ==> captureFault
      ensures old(Clean()) && !Loses(data, written, failed) && StoresAll(persisted, headersFail, bodyStarts, store) ==>
        Clean()
    {
      hide Stage.Valid;
      hide Stage.AsReceived;
      hide Stage.AsSent;
      hide Stage.Within;
      StartStage(ResponseSent, persisted, contentLength, false, headersFail, false, _ => false, bodyStarts, store);
      var sent := Written(data, written);
      ObserveWrite(sent, failed || |sent| < |data|, now);
    }

    /** The client's request context was cancelled. */
    method Cancel()
      requires Valid()
      modifies this`cancelled
      ensures Valid() && Seen() == old(Seen()).(cancelled := true)
    {
      hide Stage.Valid;
      hide Stage.AsReceived;
      hide Stage.AsSent;
      cancelled := true;
    }

    method MarkRejected()
      requires Valid()
      modifies this`status
      ensures Valid() && Seen() == if old(status).InProgress? then old(Seen()).(status := Rejected) else old(Seen())
    {
      hide Stage.Valid;
      hide Stage.AsReceived;
      hide Stage.AsSent;
      if status != InProgress {
        return;
      }
      status := Rejected;
    }

    method MarkFailure(failure: Status)
      requires Valid() && (failure.NewAPIError? || failure.ProxyError?)
      modifies this`status
      ensures Valid() && Seen() == AfterFailure(old(Seen()), failure)
    {
      hide Stage.Valid;
      hide Stage.AsReceived;
      hide Stage.AsSent;
      hide LogicallyComplete;
      CompleteIsDelivered();
      if status == Rejected || status == ClientCancelled {
        return;
      }
      if cancelled && !LogicallyComplete() {
        status := ClientCancelled;
        return;
      }
      status := failure;
    }

    method MarkClientCancelled()
      requires Valid()
      modifies this`status
      ensures Valid() && Seen() == AfterHangUp(old(Seen()))
    {
      hide Stage.Valid;
      hide Stage.AsReceived;
      hide Stage.AsSent;
      hide LogicallyComplete;
      CompleteIsDelivered();
      if status == Rejected {
        return;
      }
      if LogicallyComplete() {
        return;
      }
      status := ClientCancelled;
    }

    /** The stage whose body this one forwards. */
    static function SourceOf(name: StageName): Option<StageName> {
      match name
      case RequestSent => Some(RequestReceived)
      case ResponseSent => Some(ResponseReceived)
      case _ => None
    }

    /** Both ends of a forwarded body saw the same length and digest. */
    ghost predicate Matched(name: StageName, hash: Bytes -> Bytes)
      requires Valid()
      reads this, repr
    {
      SourceOf(name).Some? && name in stages && SourceOf(name).value in stages ==>
        var b, a := stages[name].body, stages[SourceOf(name).value].body;
        a != null && b != null ==> a.observedLength == b.observedLength && hash(a.observed) == hash(b.observed)
    }

    /** The body that a stage forwards, if it was captured. */
    function SourceBody(name: StageName): Body?
      reads this, if SourceOf(name).Some? && SourceOf(name).value in stages then {stages[SourceOf(name).value]} else {}
    {
      if SourceOf(name).Some? && SourceOf(name).value in stages then stages[SourceOf(name).value].body else null
    }

    ghost function SourceBytes(name: StageName): Option<Bytes>
      requires Valid()
      reads this, repr
    {
      var source := SourceOf(name);
      if source.Some? && source.value in stages then stages[source.value].Observed() else None
    }

    /** Finishing this stage has nothing to complain about. */
    ghost predicate ReadyStage(name: StageName, completed: bool)
      requires Valid() && name in stages
      reads this, repr
    {
      stages[name].Clean() && stages[name].Ready(completed, SourceBytes(name))
    }

    /** Finish one stage against its source; the exchange stays what it was. */
    method CompleteStage(name: StageName, source: Body?, hash: Bytes -> Bytes) returns (complete: bool)
      requires Valid() && name in stages && (stages[name].body == null || source != stages[name].body)
      requires source != null ==> source.observedLength == |source.observed|
      modifies stages[name], stages[name].body
      ensures Valid() && Seen() == old(Seen()) && stages[name].body == old(stages[name].body)
      ensures complete <==> stages[name].Whole()
      ensures var body := stages[name].body;
        complete && body != null && source != null && source.eofSeen && source.hashComplete ==>
        body.observedLength == source.observedLength && hash(body.observed) == hash(source.observed)
      ensures stages[name].Observed() == old(stages[name].Observed())
      ensures old(stages[name].Clean() && stages[name].Ready(status.Completed?, stages[name].BytesOf(source))) ==>
        complete
    {
      hide Stage.Valid;
      hide Stage.AsReceived;
      hide Stage.AsSent;
      hide Body.Valid;
      hide Stage.DescribesBody;
      hide Stage.Clean;
      hide Stage.Ready;
      hide Stage.Whole;
      hide Stage.Observed;
      var row;
      complete, row := stages[name].Finish(status == Completed, source, hash);
      forall n | n in stages && n != name
        ensures stages[n].Within(repr) && stages[n].Valid()
        ensures stages[n].AsReceived() == old(stages[n].AsReceived()) && stages[n].AsSent() == old(stages[n].AsSent())
      {
        assert old(stages[n].Within(repr)) && old(stages[n].Valid());
      }
    }

    /** The source of a stage is another body, and ended only with its digest. */
    lemma SourceFacts(name: StageName)
      requires Valid() && name in stages
      ensures var a := SourceBody(name);
        && (stages[name].body == null || a != stages[name].body)
        && (a != null ==> a.observedLength == |a.observed|) && stages[name].BytesOf(a) == SourceBytes(name)
        && (a != null && stages[SourceOf(name).value].Whole() ==> a.eofSeen && a.hashComplete)
    {
    }

    method FinishStage(name: StageName, hash: Bytes -> Bytes)
      requires Valid() && name in stages
      requires !captureFault && SourceOf(name).Some? && SourceOf(name).value in stages ==>
        stages[SourceOf(name).value].Whole()
      modifies stages[name], stages[name].body, this`captureFault
      ensures Valid() && Seen() == old(Seen()) && stages[name].body == old(stages[name].body)
      ensures !captureFault ==> Matched(name, hash)
      ensures captureFault <==> old(captureFault) || !stages[name].Whole()
      ensures stages[name].Observed() == old(stages[name].Observed())
      ensures old(ReadyStage(name, status.Completed?)) ==> stages[name].Whole()
    {
      hide Stage.Valid;
      hide Stage.AsReceived;
      hide Stage.AsSent;
      hide Body.Valid;
      hide Stage.Clean;
      hide Stage.Ready;
      hide Stage.Whole;
      hide Stage.Observed;
      SourceFacts(name);
      var complete := CompleteStage(name, SourceBody(name), hash);
      captureFault := captureFault || !complete;
    }

    /** Settle the outcome. Capture is complete only if no stage misses anything and forwarded
        bodies match their sources. */
    method Finish(hash: Bytes -> Bytes, writesFail: bool, storeDowngrades: bool)
      requires Valid()
      modifies repr
      ensures Valid() && repr == old(repr) && stages == old(stages) && terminal.Some?
      ensures Seen() == AfterFinish(old(Seen())) && (old(terminal).Some? ==> terminal == old(terminal))
      ensures old(terminal).None? ==>
        && (terminal.value.parsePending <==> !status.Rejected?)
        && (terminal.value.captureComplete <==>
              && (status.Completed? || status.Rejected?) && !old(captureFault) && AllWhole(4)
              && !writesFail && !storeDowngrades)
        && (terminal.value.captureComplete ==>
              Forwarded(RequestReceived, RequestSent, hash) && Forwarded(ResponseReceived, ResponseSent, hash))
        && (var completed := status.Completed?; old(AllReady(0, completed)) ==> AllWhole(4))
    {
      hide Stage.Valid;
      hide Stage.AsReceived;
      hide Stage.AsSent;
      hide Body.Valid;
      hide Body.Whole;
      hide Forwarded;
      if terminal.Some? {
        return;
      }
      hide Stage.Clean;
      hide Stage.Ready;
      hide Stage.Whole;
      hide Valid;
      hide Seen;
      hide Matched;
      hide AllWhole;
      hide AllReady;
      Decide();
      FinishStages(hash);
      Conclude(hash, !captureFault && !writesFail && !storeDowngrades);
    }

    /** What was sent on is what was received. */
    ghost predicate Forwarded(from: StageName, to: StageName, hash: Bytes -> Bytes)
      requires Valid()
      reads this, repr
    {
      from in stages && to in stages && stages[from].body != null && stages[to].body != null ==>
        var a, b := stages[from].body, stages[to].body;
        a.observedLength == b.observedLength && hash(a.observed) == hash(b.observed)
    }

    lemma MatchedIsForwarded(hash: Bytes -> Bytes)
      requires Valid() && forall n :: n in stages ==> Matched(n, hash)
      ensures Forwarded(RequestReceived, RequestSent, hash) && Forwarded(ResponseReceived, ResponseSent, hash)
    {
      hide Stage.Valid;
      hide Stage.AsReceived;
      hide Stage.AsSent;
      hide Body.Valid;
      assert SourceOf(RequestSent) == Some(RequestReceived) && SourceOf(ResponseSent) == Some(ResponseReceived);
      assert RequestSent in stages ==> Matched(RequestSent, hash);
      assert ResponseSent in stages ==> Matched(ResponseSent, hash);
    }

    /** Write the outcome down; nothing else changes by it. */
    method Conclude(ghost hash: Bytes -> Bytes, whole: bool)
      requires Valid()
      modifies this`terminal
      ensures Valid() && terminal == Some(Terminal(status, whole, status != Rejected))
      ensures Seen() == old(Seen()).(outcome := Some(status)) && AllWhole(4) == old(AllWhole(4))
      ensures old(forall n :: n in stages ==> Matched(n, hash)) ==>
        Forwarded(RequestReceived, RequestSent, hash) && Forwarded(ResponseReceived, ResponseSent, hash)
    {
      hide Stage.Valid;
      hide Stage.AsReceived;
      hide Stage.AsSent;
      hide Stage.Whole;
      hide Body.Valid;
      if forall n :: n in stages ==> Matched(n, hash) {
        MatchedIsForwarded(hash);
      }
      terminal := Some(Terminal(status, whole, status != Rejected));
    }

    /** The final status; a forward that was cut short cannot be captured whole. */
    method Decide()
      requires Valid() && terminal.None?
      modifies this`status, this`captureFault
      ensures Valid() && Seen() == AfterFinish(old(Seen())).(outcome := None)
      ensures captureFault <==> old(captureFault) || !(status.Completed? || status.Rejected?)
      ensures AllReady(0, status.Completed?) == (var completed := status.Completed?; old(AllReady(0, completed)))
    {
      hide Valid;
      hide Seen;
      hide AllReady;
      hide LogicallyComplete;
      hide Delivered;
      CompleteIsDelivered();
      SeenStatus();
      var decided := status;
      if status == InProgress {
        decided := if cancelled && !LogicallyComplete() then ClientCancelled else Completed;
      }
      SetStatus(decided, decided == ClientCancelled || decided == NewAPIError || decided == ProxyError);
    }

    lemma SeenStatus()
      requires Valid()
      ensures Seen().status == status && Seen().cancelled == cancelled
      ensures Seen().outcome == if terminal.Some? then Some(terminal.value.status) else None
    {
    }

    method SetStatus(decided: Status, fault: bool)
      requires Valid()
      modifies this`status, this`captureFault
      ensures Valid() && status == decided && captureFault == (old(captureFault) || fault)
      ensures Seen() == old(Seen()).(status := decided)
      ensures AllReady(0, decided.Completed?) == old(AllReady(0, decided.Completed?))
    {
      hide Stage.Valid;
      hide Stage.AsReceived;
      hide Stage.AsSent;
      hide Stage.Clean;
      hide Stage.Ready;
      hide Body.Valid;
      status, captureFault := decided, captureFault || fault;
    }

    /** Finish every stage, in stage order. */
    method FinishStages(hash: Bytes -> Bytes)
      requires Valid()
      modifies repr - {this}, this`captureFault
      ensures Valid() && Seen() == old(Seen())
      ensures !captureFault ==> forall n :: n in stages ==> Matched(n, hash)
      ensures captureFault <==> old(captureFault) || !AllWhole(4)
      ensures old(AllReady(0, status.Completed?)) ==> AllWhole(4)
    {
      hide Stage.Valid;
      hide Stage.AsReceived;
      hide Stage.AsSent;
      hide Body.Valid;
      hide Body.Whole;
      hide Stage.Clean;
      hide Stage.Ready;
      var order := [RequestReceived, RequestSent, ResponseReceived, ResponseSent];
      for i := 0 to 4
        invariant Valid() && Seen() == old(Seen())
        invariant !captureFault ==> forall n :: n in stages && Position(n) < i ==> Matched(n, hash)
        invariant captureFault <==> old(captureFault) || !AllWhole(i)
        invariant old(AllReady(0, status.Completed?)) ==> AllWhole(i) && AllReady(i, status.Completed?)
      {
        var name := order[i];
        assert Position(name) == i && forall n :: Position(n) == i ==> n == name;
        if name in stages {
          FinishNext(name, hash, i);
        }
      }
    }

    /** The stages before a position miss nothing. */
    ghost predicate AllWhole(i: int)
      requires Valid()
      reads this, repr
    {
      forall n :: n in stages && Position(n) < i ==> stages[n].Whole()
    }

    ghost predicate AllReady(i: int, completed: bool)
      requires Valid()
      reads this, repr
    {
      forall n :: n in stages && Position(n) >= i ==> ReadyStage(n, completed)
    }

    /** Finish the stage at a position; the others are left alone. */
    method FinishNext(name: StageName, hash: Bytes -> Bytes, i: nat)
      requires Valid() && name in stages && Position(name) == i && forall n :: Position(n) == i ==> n == name
      requires !captureFault ==> AllWhole(i)
      requires !captureFault ==> forall n :: n in stages && Position(n) < i ==> Matched(n, hash)
      modifies stages[name], stages[name].body, this`captureFault
      ensures Valid() && Seen() == old(Seen())
      ensures !captureFault ==> forall n :: n in stages && Position(n) < i + 1 ==> Matched(n, hash)
      ensures captureFault <==> old(captureFault) || !stages[name].Whole()
      ensures AllWhole(i + 1) <==> old(AllWhole(i)) && stages[name].Whole()
      ensures old(AllReady(i, status.Completed?)) ==> stages[name].Whole() && AllReady(i + 1, status.Completed?)
    {
      hide Stage.Valid;
      hide Stage.AsReceived;
      hide Stage.AsSent;
      hide Body.Valid;
      hide Body.Whole;
      hide Stage.Clean;
      hide Stage.Ready;
      hide Seen;
      FinishStage(name, hash);
      forall n | n in stages && n != name ensures stages[n].Whole() == old(stages[n].Whole()) {
      }
      forall n | n in stages && Position(n) < i && !captureFault ensures Matched(n, hash) {
        assert old(Matched(n, hash));
      }
      if old(AllReady(i, status.Completed?)) {
        forall n | n in stages && Position(n) >= i + 1 ensures ReadyStage(n, status.Completed?) {
          assert old(ReadyStage(n, status.Completed?));
          assert SourceBytes(n) == old(SourceBytes(n));
        }
      }
    }

    static function Position(name: StageName): (p: nat)
      ensures p < 4
    {
      match name
      case RequestReceived => 0
      case RequestSent => 1
      case ResponseReceived => 2
      case ResponseSent => 3
    }
  }

  // ----- Whole runs -----

  /** One atomic step does to the session what it does to the exchange. */
  method Do(session: Session, step: Step)
    requires session.Valid()
    modifies session.repr
    ensures session.Valid() && fresh(session.repr - old(session.repr))
    ensures session.Seen() == Next(old(session.Seen()), step)
    ensures old(session.terminal).Some? || !step.StepFinish? ==> session.terminal == old(session.terminal)
    ensures old(session.Clean()) && FaultFree(step) && !step.StepFinish? ==> session.Clean()
    ensures step.StepFinish? && old(session.terminal).None? ==>
      var completed := session.status.Completed?;
      && session.terminal.value.status == session.status
      && (session.terminal.value.parsePending <==> !session.status.Rejected?)
      && (session.terminal.value.captureComplete <==>
            && (completed || session.status.Rejected?) && !old(session.captureFault) && session.AllWhole(4)
            && !step.writesFail && !step.storeDowngrades)
      && (old(session.AllReady(0, completed)) ==> session.AllWhole(4))
  {
    hide Stage.Valid;
    hide Stage.Clean;
    hide Stage.Ready;
    hide Stage.Whole;
    hide Session.AllWhole;
    hide Session.AllReady;
    hide Session.Matched;
    hide AlwaysStores;
    hide Delivered;
    match step
    case StepStart(name, persisted, contentLength, expectsBody, headersFail, stream, matcher, bodyStarts, store) =>
      session.StartStage(name, persisted, contentLength, expectsBody, headersFail, stream, matcher, bodyStarts, store);
    case StepRead(name, data, err, now) => session.ObserveRead(name, data, err, now);
    case StepClose(name, failed) => session.CloseRead(name, failed);
    case StepWrite(data, written, failed, now, persisted, contentLength, headersFail, bodyStarts, store) =>
      session.Write(data, written, failed, now, persisted, contentLength, headersFail, bodyStarts, store);
    case StepCancel => session.Cancel();
    case StepReject => session.MarkRejected();
    case StepMarkNewAPIError => session.MarkFailure(NewAPIError);
    case StepMarkProxyError => session.MarkFailure(ProxyError);
    case StepMarkCancelled => session.MarkClientCancelled();
    case StepFinish(hash, writesFail, storeDowngrades) => session.Finish(hash, writesFail, storeDowngrades);
  }

  /** Over every run the session is where its steps lead, and its first finish fixes the outcome to
      the verdict on the steps before it. It completes exactly when nothing before that finish was
      rejected, lost, broken off, marked as failed or hung up on, and a client that cancelled had
      the whole response; anything but a rejected exchange is parsed. An incomplete forward never
      counts as complete capture, and a run in which nothing goes wrong has no capture fault. */
  method Run(steps: seq<Step>) returns (session: Session)
    ensures session.Valid() && session.Seen() == After(steps)
    ensures session.terminal.Some? <==> !OpenAt(steps, |steps|)
    ensures forall k :: FinishesAt(steps, k) ==>
      session.terminal.Some? && session.terminal.value.status == FinalVerdict(steps[..k])
    ensures session.terminal.Some? ==>
      && (session.terminal.value.status.Completed? <==>
            exists k :: CompletesAt(steps, k))
      && (session.terminal.value.parsePending <==> !session.terminal.value.status.Rejected?)
      && (session.terminal.value.captureComplete ==>
            session.terminal.value.status.Completed? || session.terminal.value.status.Rejected?)
    ensures forall k :: 0 <= k <= |steps| && !After(steps[..k]).status.InProgress? ==> !session.status.InProgress?
    ensures OpenAt(steps, |steps|) && (forall k :: 0 <= k < |steps| ==> FaultFree(steps[k])) ==> session.Clean()
  {
    hide Session.Valid;
    hide Session.Clean;
    hide Session.AllWhole;
    hide Session.AllReady;
    hide Next;
    hide Delivered;
    hide FaultFree;
    hide FinalVerdict;
    hide CompletesAt;
    session := new Session();
    NewIsClean(session);
    for i := 0 to |steps|
      invariant session.Valid() && fresh(session.repr) && session.Seen() == After(steps[..i])
      invariant session.terminal.Some? ==>
        && (session.terminal.value.parsePending <==> !session.terminal.value.status.Rejected?)
        && (session.terminal.value.captureComplete ==>
              session.terminal.value.status.Completed? || session.terminal.value.status.Rejected?)
      invariant OpenAt(steps, i) && (forall k :: 0 <= k < i ==> FaultFree(steps[k])) ==> session.Clean()
    {
      AfterStep(steps, i);
      Do(session, steps[i]);
    }
    assert steps[..|steps|] == steps;
    OutcomeOf(steps);
    CompletedExactly(steps);
    forall k: nat | FinishesAt(steps, k) ensures After(steps).outcome == Some(FinalVerdict(steps[..k])) {
      OutcomeExactly(steps, k);
    }
    forall k | 0 <= k <= |steps|
      ensures !After(steps[..k]).status.InProgress? ==> !After(steps).status.InProgress?
    {
      StatusStaysSettled(steps, k);
    }
  }

  lemma NewIsClean(session: Session)
    requires session.Valid() && session.stages == map[] && !session.captureFault
    ensures session.Clean()
  {
  }

  /** From session to parser: the row of a stage that finished whole leads the reader back to
      exactly the observed bytes, reported complete, as long as all its chunks are still there. */
  lemma WholeStageReadsBack(stage: Stage, row: BodyRow, table: seq<Chunk>, opens: Chunk -> bool, hash: Bytes -> Bytes)
    requires stage.Valid() && stage.body != null && stage.Whole() && stage.DescribesBody(row, hash)
    requires |table| == |stage.body.flushed| && |stage.body.observed| <= Evidence.MAX_ENCODED_BODY
    requires forall i :: 0 <= i < |table| ==> table[i] == ChunkOf(stage.body.flushed, i) && opens(table[i])
    ensures Evidence.Reading(table, row, opens, hash) == (stage.body.observed, true, "")
  {
    Evidence.CompleteBodyReadsBack(stage.body, row, table, opens, hash);
  }
}
