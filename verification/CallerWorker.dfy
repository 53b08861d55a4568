/**
 Resolving who made a request and what it cost: a bounded number of persisted lookups per
 audit, and a backfill of billing for links that predate it.
 */
module CallerWorker {
  import opened Wrappers

  const MAX_BILLING_ATTEMPTS := 3
  const BACKFILL_INTERVAL := 500_000_000
  const BACKFILL_PAUSE := 60_000_000_000
  const BACKFILL_PAUSE_AFTER := 2

  const RETRY_DELAYS := [500_000_000, 1_000_000_000, 2_000_000_000, 5_000_000_000, 10_000_000_000, 30_000_000_000]

  datatype Record = Record(consumeRows: nat, complete: bool, quota: int, promptTokens: int, completionTokens: int)

  datatype Lookup = LookupFailed | NotFound | Found(record: Record)

  datatype CallerStatus = Pending | Resolved | Unresolved

  datatype BillingState = Unchecked | Billed | Unbilled

  datatype Billing = Billing(quota: int, quotaPerUnit: real, promptTokens: int, completionTokens: int)

  datatype Link = Link(state: BillingState, attempts: nat, billing: Option<Billing>)

  /** One audit with its caller lookup and, once resolved, its link. */
  datatype Audit = Audit(
    status: CallerStatus, attempts: nat, nextAt: Option<int>, statusCode: Option<int>, hasRequestID: bool,
    link: Option<Link>)

  /** What one attempt meets: the log's answer, the conversion rate, and whether storage works. */
  datatype Answer = Answer(lookup: Lookup, rate: Option<real>, storageWorks: bool)

  predicate IsBilled(record: Record) {
    record.consumeRows > 0 && record.complete
  }

  predicate SuccessStatus(status: Option<int>) {
    status.Some? && 200 <= status.value <= 299
  }

  /** Storage accepts billing values exactly with the billed state, and in range. */
  predicate ValidBilling(state: BillingState, billing: Option<Billing>) {
    if state.Billed? then
      && billing.Some? && billing.value.quota >= 0 && billing.value.promptTokens >= 0
      && billing.value.completionTokens >= 0 && billing.value.quotaPerUnit > 0.0
    else billing.None?
  }

  function BillingOf(record: Record, rate: real): Billing {
    Billing(record.quota, rate, record.promptTokens, record.completionTokens)
  }

  /** An attempt that storage will take: it works, and billing values are in range. */
  ghost predicate Savable(answer: Answer) {
    && answer.storageWorks
    && (answer.lookup.Found? && answer.lookup.record.consumeRows > 0 && answer.lookup.record.complete &&
        answer.rate.Some? ==>
          var record := answer.lookup.record;
          record.quota >= 0 && record.promptTokens >= 0 && record.completionTokens >= 0 && answer.rate.value > 0.0)
  }

  /** An attempt that found out nothing: the lookup failed, or there was no rate to bill with. */
  ghost predicate Fruitless(answer: Answer) {
    || answer.lookup.LookupFailed?
    || (answer.lookup.Found? && answer.lookup.record.consumeRows > 0 && answer.lookup.record.complete &&
        answer.rate.None?)
  }

  /** An answer worth waiting on: billed without a rate, or a success without a billing row yet. */
  predicate Waits(answer: Answer, statusCode: Option<int>)
    requires answer.lookup.Found?
  {
    var record := answer.lookup.record;
    || (record.consumeRows > 0 && record.complete && answer.rate.None?)
    || (record.consumeRows == 0 && record.complete && statusCode.Some? && 200 <= statusCode.value < 300)
  }

  // ----- The table -----

  ghost predicate Sane(a: Audit) {
    && (a.status.Pending? ==> a.attempts <= |RETRY_DELAYS|)
    && (a.link.Some? ==>
          && ValidBilling(a.link.value.state, a.link.value.billing)
          && (a.link.value.state.Unchecked? ==> a.link.value.attempts < MAX_BILLING_ATTEMPTS))
  }

  /** Attempts a link may still take. */
  ghost function Remaining(a: Audit): nat
    requires Sane(a)
  {
    if a.hasRequestID && a.link.Some? && a.link.value.state.Unchecked? then
      MAX_BILLING_ATTEMPTS - a.link.value.attempts
    else 0
  }

  ghost function TotalRemaining(audits: seq<Audit>): nat
    requires forall i :: 0 <= i < |audits| ==> Sane(audits[i])
  {
    if audits == [] then 0 else TotalRemaining(audits[..|audits| - 1]) + Remaining(audits[|audits| - 1])
  }

  lemma {:induction false} RemainingUpdate(audits: seq<Audit>, i: nat, a: Audit)
    requires i < |audits| && Sane(a) && forall k :: 0 <= k < |audits| ==> Sane(audits[k])
    ensures TotalRemaining(audits[i := a]) == TotalRemaining(audits) - Remaining(audits[i]) + Remaining(a)
  {
    var n := |audits| - 1;
    if i == n {
      assert audits[i := a][..n] == audits[..n];
    } else {
      assert audits[i := a][..n] == audits[..n][i := a];
      RemainingUpdate(audits[..n], i, a);
    }
  }

  /** The link after one more attempt: only a failure with attempts to spare leaves it unchecked. */
  ghost function Backfilled(attempts: nat, answer: Answer): Link {
    var billed := answer.lookup.Found? && IsBilled(answer.lookup.record);
    if billed && answer.rate.Some? then Link(Billed, attempts, Some(BillingOf(answer.lookup.record, answer.rate.value)))
    else if (billed || answer.lookup.LookupFailed?) && attempts < MAX_BILLING_ATTEMPTS then
      Link(Unchecked, attempts, None)
    else Link(Unbilled, attempts, None)
  }

  /** What a link is after one more attempt, state by state. */
  lemma BackfilledExactly(attempts: nat, answer: Answer)
    ensures var link, found := Backfilled(attempts, answer), answer.lookup.Found?;
      var billed := found && answer.lookup.record.consumeRows > 0 && answer.lookup.record.complete;
      && link.attempts == attempts
      && (link.state.Billed? <==> billed && answer.rate.Some?)
      && (link.state.Unchecked? <==>
            attempts < 3 && (answer.lookup.LookupFailed? || (billed && answer.rate.None?)))
      && (link.billing.Some? <==> link.state.Billed?)
      && (link.state.Billed? ==>
            && link.billing.value.quota == answer.lookup.record.quota
            && link.billing.value.quotaPerUnit == answer.rate.value
            && link.billing.value.promptTokens == answer.lookup.record.promptTokens
            && link.billing.value.completionTokens == answer.lookup.record.completionTokens)
  {
  }

  predicate Unfinished(a: Audit) {
    a.hasRequestID && a.link.Some? && a.link.value.state.Unchecked?
  }

  /** The first link that is still unchecked. */
  ghost predicate IsNext(audits: seq<Audit>, i: nat) {
    i < |audits| && Unfinished(audits[i]) && forall k :: 0 <= k < i ==> !Unfinished(audits[k])
  }

  /** What one attempt finds out. */
  method Attempt(attempts: nat, answer: Answer) returns (state: BillingState, billing: Option<Billing>, failed: bool)
    ensures Link(state, attempts, billing) == Backfilled(attempts, answer)
    ensures state.Unchecked? ==> attempts < MAX_BILLING_ATTEMPTS
    ensures answer.storageWorks ==> (Savable(answer) <==> ValidBilling(state, billing))
    ensures failed <==> Fruitless(answer)
  {
    state, billing := Unbilled, None;
    failed := answer.lookup.LookupFailed? ||
      (answer.lookup.Found? && IsBilled(answer.lookup.record) && answer.rate.None?);
    if failed {
      if attempts < MAX_BILLING_ATTEMPTS {
        state := Unchecked;
      }
    } else if answer.lookup.Found? && IsBilled(answer.lookup.record) {
      state, billing := Billed, Some(BillingOf(answer.lookup.record, answer.rate.value));
    }
  }

  class Worker {
    var audits: seq<Audit>
    var backfillFailures: nat

    ghost predicate Valid()
      reads this
    {
      forall i :: 0 <= i < |audits| ==> Sane(audits[i])
    }

    /** Attempts left over all unchecked links. */
    ghost function Work(): nat
      requires Valid()
      reads this
    {
      TotalRemaining(audits)
    }

    /** Resolve a pending lookup together with its link. */
    method SaveLink(i: nat, attempts: nat, state: BillingState, billing: Option<Billing>, works: bool)
      returns (saved: bool)
      requires Valid() && i < |audits| && !state.Unchecked?
      modifies this`audits
      ensures Valid()
      ensures saved <==> works && ValidBilling(state, billing) && old(audits[i].status).Pending?
      ensures !saved ==> audits == old(audits)
      ensures saved ==>
        var link := old(audits[i]).link;
        audits == old(audits)[i := old(audits[i]).(
          status := Resolved, attempts := attempts, nextAt := None,
          link := Some(Link(state, if link.Some? then link.value.attempts else 0, billing)))]
    {
      if !works || !ValidBilling(state, billing) || !audits[i].status.Pending? {
        return false;
      }
      var billingAttempts := if audits[i].link.Some? then audits[i].link.value.attempts else 0;
      audits := audits[i := audits[i].(status := Resolved, attempts := attempts, nextAt := None,
                                       link := Some(Link(state, billingAttempts, billing)))];
      return true;
    }

    /** Record an unsuccessful attempt: rescheduled while attempts remain, then unresolved. */
    method Retry(i: nat, attempts: nat, now: int, works: bool) returns (saved: bool)
      requires Valid() && i < |audits| && attempts > 0
      modifies this`audits
      ensures Valid()
      ensures saved <==> works && old(audits[i].status).Pending?
      ensures !saved ==> audits == old(audits)
      ensures saved ==>
        var again := attempts <= |RETRY_DELAYS|;
        audits == old(audits)[i := old(audits[i]).(
          attempts := attempts, status := if again then Pending else Unresolved,
          nextAt := if again then Some(now + RETRY_DELAYS[attempts - 1]) else None)]
    {
      var nextAt := None;
      if attempts <= |RETRY_DELAYS| {
        nextAt := Some(now + RETRY_DELAYS[attempts - 1]);
      }
      if !works || !audits[i].status.Pending? {
        return false;
      }
      var status := if nextAt.Some? then Pending else Unresolved;
      audits := audits[i := audits[i].(attempts := attempts, status := status, nextAt := nextAt)];
      return true;
    }

    /** One attempt at a pending lookup. A saved attempt counts; after the last retry it settles
        the lookup. Billing is never stored without its conversion rate. */
    method Process(i: nat, answer: Answer, now: int) returns (saved: bool)
      requires Valid() && i < |audits| && audits[i].status.Pending?
      modifies this`audits
      ensures Valid() && |audits| == |old(audits)|
      ensures forall k :: 0 <= k < |audits| && k != i ==> audits[k] == old(audits[k])
      ensures saved <==> Savable(answer)
      ensures !saved ==> audits == old(audits)
      ensures saved ==> audits[i].attempts == old(audits[i].attempts) + 1
      ensures saved && old(audits[i].attempts) >= |RETRY_DELAYS| ==> !audits[i].status.Pending?
      ensures saved && audits[i].status.Resolved? ==>
        && answer.lookup.Found? && audits[i].link.Some?
        && (audits[i].link.value.state.Billed? <==> IsBilled(answer.lookup.record) && answer.rate.Some?)
        && (audits[i].link.value.state.Billed? ==>
              audits[i].link.value.billing == Some(BillingOf(answer.lookup.record, answer.rate.value)))
        && (!audits[i].link.value.state.Billed? ==> audits[i].link.value.state.Unbilled?)
        && audits[i].link.value.attempts ==
             (if old(audits[i].link).Some? then old(audits[i].link.value.attempts) else 0)
      ensures saved ==>
        var attempts := old(audits[i].attempts) + 1;
        var final := attempts > 6;
        var delays := [500_000_000, 1_000_000_000, 2_000_000_000, 5_000_000_000, 10_000_000_000, 30_000_000_000];
        && (audits[i].status.Resolved? <==> answer.lookup.Found? && (final || !Waits(answer, audits[i].statusCode)))
        && (audits[i].status.Unresolved? <==> !answer.lookup.Found? && final)
        && (audits[i].status.Pending? ==>
              && !final && audits[i].nextAt == Some(now + delays[attempts - 1])
              && audits[i].link == old(audits[i].link))
        && (!audits[i].status.Pending? ==> audits[i].nextAt == None)
        && audits[i].statusCode == old(audits[i].statusCode) && audits[i].hasRequestID == old(audits[i].hasRequestID)
      ensures saved && audits[i].status.Pending? ==> audits[i].nextAt.value > now
    {
      var attempts := audits[i].attempts + 1;
      var final := attempts > |RETRY_DELAYS|;
      if answer.lookup.Found? {
        var record := answer.lookup.record;
        if IsBilled(record) && answer.rate.None? && !final {
          saved := Retry(i, attempts, now, answer.storageWorks);
          return;
        }
        var empty := !IsBilled(record) && record.consumeRows == 0 && record.complete;
        if empty && SuccessStatus(audits[i].statusCode) && !final {
          saved := Retry(i, attempts, now, answer.storageWorks);
          return;
        }
        var state, billing := Unbilled, None;
        if IsBilled(record) && answer.rate.Some? {
          state, billing := Billed, Some(BillingOf(record, answer.rate.value));
        }
        saved := SaveLink(i, attempts, state, billing, answer.storageWorks);
        return;
      }
      saved := Retry(i, attempts, now, answer.storageWorks);
    }

    /** Seven saved attempts settle any lookup, whatever the log answers. */
    method Resolve(i: nat, answers: seq<Answer>, times: seq<int>) returns (allSaved: bool, used: nat)
      requires Valid() && i < |audits| && audits[i].status.Pending?
      requires |times| == |answers|
      modifies this`audits
      ensures Valid() && |audits| == |old(audits)| && used <= |answers|
      ensures allSaved && audits[i].status.Pending? ==>
        used == |answers| && audits[i].attempts == old(audits[i].attempts) + used
      ensures allSaved && used + old(audits[i].attempts) >= |RETRY_DELAYS| + 1 ==> !audits[i].status.Pending?
      ensures (forall k :: 0 <= k < |answers| ==> Savable(answers[k])) ==> allSaved
      ensures allSaved ==> used <= |RETRY_DELAYS| + 1 - old(audits[i].attempts)
      ensures allSaved && |answers| + old(audits[i].attempts) >= |RETRY_DELAYS| + 1 ==> !audits[i].status.Pending?
    {
      allSaved, used := true, 0;
      while used < |answers| && audits[i].status.Pending?
        invariant Valid() && |audits| == |old(audits)| && used <= |answers|
        invariant allSaved && audits[i].attempts == old(audits[i].attempts) + used
        invariant audits[i].attempts <= |RETRY_DELAYS| + 1
        invariant audits[i].attempts == |RETRY_DELAYS| + 1 ==> !audits[i].status.Pending?
      {
        allSaved := Process(i, answers[used], times[used]);
        used := used + 1;
        if !allSaved {
          return;
        }
      }
    }

    // ----- Billing backfill -----

    method NextBackfill() returns (next: Option<nat>)
      ensures next.Some? ==> next.value < |audits| && IsNext(audits, next.value)
      ensures next.None? ==> forall k :: 0 <= k < |audits| ==> !Unfinished(audits[k])
    {
      for k := 0 to |audits|
        invariant forall j :: 0 <= j < k ==> !Unfinished(audits[j])
      {
        if Unfinished(audits[k]) {
          return Some(k);
        }
      }
      return None;
    }

    /** Write billing columns of a link that is still unchecked. */
    method UpdateBilling(i: nat, state: BillingState, attempts: nat, billing: Option<Billing>, works: bool)
      returns (saved: bool)
      requires Valid() && i < |audits| && Unfinished(audits[i])
      modifies this`audits
      ensures Valid()
      ensures saved <==> works && ValidBilling(state, billing) && attempts <= MAX_BILLING_ATTEMPTS &&
                         (state.Unchecked? ==> 0 < attempts < MAX_BILLING_ATTEMPTS)
      ensures !saved ==> audits == old(audits)
      ensures saved ==> audits == old(audits)[i := old(audits[i]).(link := Some(Link(state, attempts, billing)))]
    {
      if !works || !ValidBilling(state, billing) || attempts > MAX_BILLING_ATTEMPTS ||
         (state.Unchecked? && !(0 < attempts < MAX_BILLING_ATTEMPTS)) {
        return false;
      }
      audits := audits[i := audits[i].(link := Some(Link(state, attempts, billing)))];
      return true;
    }

    /** One backfill step: the next unchecked link uses up an attempt. Nothing but its billing
        columns changes, and every saved step leaves less work. */
    method BackfillStep(answer: Answer) returns (delay: int, more: bool, saved: bool)
      requires Valid()
      modifies this
      ensures Valid() && |audits| == |old(audits)|
      ensures more <==> exists k :: 0 <= k < |audits| && Unfinished(old(audits[k]))
      ensures !saved ==> audits == old(audits)
      ensures saved ==> Work() < old(Work())
      ensures saved <==> more && Savable(answer)
      ensures forall k :: 0 <= k < |audits| ==> audits[k].(link := None) == old(audits[k]).(link := None)
      ensures forall k: nat :: k < |audits| && !IsNext(old(audits), k) ==> audits[k] == old(audits[k])
      ensures forall k: nat :: k < |audits| && saved && IsNext(old(audits), k) ==>
        audits[k].link == Some(Backfilled(old(audits[k].link.value.attempts) + 1, answer))
      ensures more ==> delay == (if backfillFailures >= 2 then 60_000_000_000 else 500_000_000)
      ensures more ==> backfillFailures == (if saved && !Fruitless(answer) then 0 else old(backfillFailures) + 1)
      ensures !more ==> backfillFailures == old(backfillFailures)
    {
      hide Backfilled;
      hide ValidBilling;
      var next := NextBackfill();
      if next == None {
        return 0, false, false;
      }
      var i := next.value;
      var attempts := audits[i].link.value.attempts + 1;
      var state, billing, failed := Attempt(attempts, answer);
      saved := UpdateBilling(i, state, attempts, billing, answer.storageWorks);
      more := true;
      if saved {
        RemainingUpdate(old(audits), i, audits[i]);
      } else {
        failed := true;
      }
      if !failed {
        backfillFailures := 0;
        delay := BACKFILL_INTERVAL;
        return;
      }
      backfillFailures := backfillFailures + 1;
      delay := if backfillFailures >= BACKFILL_PAUSE_AFTER then BACKFILL_PAUSE else BACKFILL_INTERVAL;
    }

    /** As long as steps are saved, the backfill ends, with nothing left unchecked. */
    method Backfill(answers: nat -> Answer) returns (steps: nat, finished: bool)
      requires Valid()
      modifies this
      ensures Valid() && |audits| == |old(audits)| && steps <= old(Work())
      ensures (forall n :: Savable(answers(n))) ==> finished
      ensures finished ==> forall k :: 0 <= k < |audits| ==> !Unfinished(audits[k])
      ensures forall k :: 0 <= k < |audits| ==> audits[k].(link := None) == old(audits[k]).(link := None)
    {
      steps, finished := 0, false;
      while true
        invariant Valid() && |audits| == |old(audits)| && steps + Work() <= old(Work())
        invariant forall k :: 0 <= k < |audits| ==> audits[k].(link := None) == old(audits[k]).(link := None)
        decreases Work()
      {
        var _, more, saved := BackfillStep(answers(steps));
        if !more {
          finished := true;
          return;
        }
        if !saved {
          return;
        }
        steps := steps + 1;
      }
    }
  }
}
