/**
 Gaps in the audit: requests that could not be recorded are counted per reason, flushed to
 storage, and merged back when the flush fails, while new ones keep arriving. The buffer keeps
 counts and windows only; which reports they stand for is followed in the trace.
 */
module Gaps {
  import opened Wrappers
  import opened GapTrace

  datatype Aggregate = Aggregate(startedAt: int, endedAt: int, count: nat)

  datatype Gap = Gap(startedAt: int, endedAt: int, reason: string, count: nat)

  // ----- What counts and windows stand for -----

  function AggregateOf(g: Group): Aggregate {
    Aggregate(g.startedAt, g.endedAt, |g.reports|)
  }

  function GapOf(reason: string, g: Group): Gap {
    Gap(g.startedAt, g.endedAt, reason, |g.reports|)
  }

  ghost predicate StandsFor(pending: map<string, Aggregate>, groups: Groups) {
    pending.Keys == groups.Keys && forall r :: r in groups ==> pending[r] == AggregateOf(groups[r])
  }

  /** One gap for each group. */
  ghost predicate Lists(gaps: seq<Gap>, groups: Groups) {
    && (forall i :: 0 <= i < |gaps| ==>
          gaps[i].reason in groups && gaps[i] == GapOf(gaps[i].reason, groups[gaps[i].reason]))
    && Distinct(gaps)
    && forall r :: r in groups ==> Names(gaps, r)
  }

  ghost predicate Distinct(gaps: seq<Gap>) {
    forall i, j :: 0 <= i < j < |gaps| ==> gaps[i].reason != gaps[j].reason
  }

  ghost predicate Names(gaps: seq<Gap>, reason: string) {
    exists i :: 0 <= i < |gaps| && gaps[i].reason == reason
  }

  // ----- Counting -----

  ghost function Total(gaps: seq<Gap>, reason: string): nat {
    if gaps == [] then 0
    else
      var last := gaps[|gaps| - 1];
      Total(gaps[..|gaps| - 1], reason) + (if last.reason == reason then last.count else 0)
  }

  ghost function StoredTotal(stored: seq<seq<Gap>>, reason: string): nat {
    if stored == [] then 0
    else StoredTotal(stored[..|stored| - 1], reason) + Total(stored[|stored| - 1], reason)
  }

  ghost function Pending(pending: map<string, Aggregate>, reason: string): nat {
    if reason in pending then pending[reason].count else 0
  }

  lemma {:induction false} TotalAt(gaps: seq<Gap>, i: nat)
    requires i < |gaps| && Distinct(gaps)
    ensures Total(gaps, gaps[i].reason) == gaps[i].count
  {
    var n := |gaps| - 1;
    if i < n {
      TotalAt(gaps[..n], i);
    } else {
      TotalOfOthers(gaps[..n], gaps[i].reason);
    }
  }

  lemma {:induction false} TotalOfOthers(gaps: seq<Gap>, reason: string)
    requires !Names(gaps, reason)
    ensures Total(gaps, reason) == 0
  {
    if gaps != [] {
      var n := |gaps| - 1;
      assert forall i :: 0 <= i < n ==> gaps[..n][i] == gaps[i];
      TotalOfOthers(gaps[..n], reason);
    }
  }

  lemma ListedTotal(gaps: seq<Gap>, groups: Groups, reason: string)
    requires Lists(gaps, groups)
    ensures Total(gaps, reason) == |ReportsOf(groups, reason)|
  {
    if reason in groups {
      assert Names(gaps, reason);
      var i :| 0 <= i < |gaps| && gaps[i].reason == reason;
      TotalAt(gaps, i);
    } else {
      TotalOfOthers(gaps, reason);
    }
  }

  lemma {:induction false} StoredTotals(stored: seq<seq<Gap>>, groups: seq<Groups>, reason: string)
    requires |stored| == |groups| && forall i :: 0 <= i < |stored| ==> Lists(stored[i], groups[i])
    ensures StoredTotal(stored, reason) == |StoredOf(groups, reason)|
  {
    if stored != [] {
      var n := |stored| - 1;
      StoredTotals(stored[..n], groups[..n], reason);
      ListedTotal(stored[n], groups[n], reason);
    }
  }

  class GapBuffer {
    var pending: map<string, Aggregate>
    var closed: bool
    /** What a flush took and has not yet stored; one flush runs at a time. */
    var flight: Option<seq<Gap>>
    /** Sessions that have had their turn. */
    var reporters: set<string>
    /** What storage took, flush by flush. */
    ghost var stored: seq<seq<Gap>>
    ghost var seen: Buffer

    ghost function Flying(): seq<Gap>
      reads this
    {
      if flight.Some? then flight.value else []
    }

    /** The counts and windows are those of the trace. */
    ghost predicate Valid()
      reads this
    {
      && Conserved(seen) && closed == seen.closed && reporters == seen.reporters
      && StandsFor(pending, seen.pending)
      && flight.Some? == seen.flight.Some? && Lists(Flying(), GapTrace.Flying(seen))
      && |stored| == |seen.stored| && forall i :: 0 <= i < |stored| ==> Lists(stored[i], seen.stored[i])
    }

    constructor ()
      ensures Valid() && seen == EMPTY
    {
      pending, closed, flight, reporters := map[], false, None, {};
      stored, seen := [], EMPTY;
      new;
      EmptyConserved();
    }

    /** A failed audit is reported: once for a session; unknown reasons and a closed buffer lose
        it. */
    method Record(e: Report)
      requires Valid()
      modifies this
      ensures Valid() && seen == AfterReport(old(seen), e)
    {
      hide Conserved;
      hide Lists;
      NextConserved(seen, StepReport(e));
      PendingInhabited();
      if e.session.Some? {
        if e.session.value in reporters {
          assert reporters + {e.session.value} == reporters;
          return;
        }
        reporters := reporters + {e.session.value};
      }
      seen := AfterReport(seen, e);
      if !Known(e.reason) || closed {
        return;
      }
      var aggregate := if e.reason in pending then pending[e.reason] else Aggregate(0, 0, 0);
      var start := if aggregate.count == 0 then e.at else aggregate.startedAt;
      pending := pending[e.reason := Aggregate(start, e.at, aggregate.count + 1)];
    }

    lemma PendingInhabited()
      requires Conserved(seen)
      ensures Inhabited(seen.pending)
    {
    }

    /** Move everything pending into one flush, if there is anything. */
    method Take()
      requires Valid() && flight.None?
      modifies this
      ensures Valid() && seen == Next(old(seen), StepTake)
    {
      hide Conserved;
      NextConserved(seen, StepTake);
      if pending == map[] {
        assert seen.pending == map[];
        return;
      }
      var gaps := Aggregates(pending, seen.pending);
      pending, flight := map[], Some(gaps);
      seen := Next(seen, StepTake);
    }

    /** The flush was stored, all of it. */
    method Insert()
      requires Valid() && flight.Some?
      modifies this
      ensures Valid() && seen == Next(old(seen), StepInsertSucceeds)
    {
      hide Conserved;
      hide Lists;
      NextConserved(seen, StepInsertSucceeds);
      NothingLists();
      stored, flight := stored + [flight.value], None;
      seen := Next(seen, StepInsertSucceeds);
    }

    /** The flush failed: what it took becomes pending again, next to what came meanwhile. */
    method Merge()
      requires Valid() && flight.Some?
      modifies this
      ensures Valid() && seen == Next(old(seen), StepInsertFails)
    {
      hide Conserved;
      hide Lists;
      hide Merged;
      NextConserved(seen, StepInsertFails);
      NothingLists();
      PendingInhabited();
      var merged := MergedWith(pending, flight.value, seen.pending, seen.flight.value);
      pending, flight := merged, None;
      seen := Next(seen, StepInsertFails);
    }

    /** No more reports are accepted; flushes still finish. */
    method Shut()
      requires Valid()
      modifies this
      ensures Valid() && seen == Next(old(seen), StepClose)
    {
      hide Conserved;
      hide Lists;
      NextConserved(seen, StepClose);
      closed, seen := true, Next(seen, StepClose);
    }

    /** One atomic step; a flush waits for the one before it. */
    method Do(step: Step)
      requires Valid()
      modifies this
      ensures Valid() && seen == Next(old(seen), step)
    {
      hide Conserved;
      hide Lists;
      match step
      case StepReport(e) => Record(e);
      case StepTake =>
        if flight == None {
          Take();
        }
      case StepInsertSucceeds =>
        if flight.Some? {
          Insert();
        }
      case StepInsertFails =>
        if flight.Some? {
          Merge();
        }
      case StepClose => Shut();
    }

    /** The counts add up to the reports, for every reason. */
    lemma CountsAddUp(reason: string)
      requires Valid()
      ensures |OfReason(seen.reports, reason)| ==
              StoredTotal(stored, reason) + Total(Flying(), reason) + Pending(pending, reason)
    {
      hide Lists;
      hide OfReason;
      hide StoredOf;
      StoredTotals(stored, seen.stored, reason);
      ListedTotal(Flying(), GapTrace.Flying(seen), reason);
      assert Held(seen, reason) == OfReason(seen.reports, reason);
    }
  }

  lemma NothingLists()
    ensures Lists([], map[])
  {
  }

  /** One gap for each pending reason. */
  method Aggregates(pending: map<string, Aggregate>, ghost groups: Groups) returns (gaps: seq<Gap>)
    requires StandsFor(pending, groups)
    ensures Lists(gaps, groups)
  {
    gaps := [];
    var reasons := pending.Keys;
    while reasons != {}
      invariant reasons <= pending.Keys && Distinct(gaps)
      invariant forall i :: 0 <= i < |gaps| ==> gaps[i].reason in groups && gaps[i].reason !in reasons
      invariant forall i :: 0 <= i < |gaps| ==> gaps[i] == GapOf(gaps[i].reason, groups[gaps[i].reason])
      invariant forall r :: r in groups && r !in reasons ==> Names(gaps, r)
      decreases reasons
    {
      var reason :| reason in reasons;
      var gap := Gap(pending[reason].startedAt, pending[reason].endedAt, reason, pending[reason].count);
      NamesMore(gaps, gap);
      gaps, reasons := gaps + [gap], reasons - {reason};
    }
  }

  lemma NamesMore(gaps: seq<Gap>, gap: Gap)
    ensures forall r :: Names(gaps + [gap], r) <==> Names(gaps, r) || r == gap.reason
  {
    var more := gaps + [gap];
    assert more[|gaps|] == gap;
    forall r | Names(gaps, r) ensures Names(more, r) {
      var i :| 0 <= i < |gaps| && gaps[i].reason == r;
      assert more[i].reason == r;
    }
  }

  /** Pending aggregates with gaps added: counts add up, windows span both. */
  method MergedWith(pending: map<string, Aggregate>, gaps: seq<Gap>, ghost groups: Groups, ghost taken: Groups)
    returns (merged: map<string, Aggregate>)
    requires StandsFor(pending, groups) && Inhabited(groups) && Lists(gaps, taken)
    ensures StandsFor(merged, Merged(groups, taken))
  {
    hide *;
    merged := pending;
    assert gaps[..0] == [];
    MergedNone(pending, groups, taken);
    for i := 0 to |gaps|
      invariant MergedSoFar(pending, gaps[..i], groups, taken, merged)
    {
      MergeNext(pending, gaps, groups, taken, merged, i);
      merged := MergedOne(merged, gaps[i]);
    }
    assert gaps[..|gaps|] == gaps;
    MergedAll(pending, gaps, groups, taken, merged);
  }

  function MergedOne(pending: map<string, Aggregate>, gap: Gap): map<string, Aggregate> {
    var aggregate := if gap.reason in pending then pending[gap.reason] else Aggregate(0, 0, 0);
    pending[gap.reason := Aggregate(
      if aggregate.count == 0 || gap.startedAt < aggregate.startedAt then gap.startedAt else aggregate.startedAt,
      if gap.endedAt > aggregate.endedAt then gap.endedAt else aggregate.endedAt,
      aggregate.count + gap.count)]
  }

  /** Some of the gaps are merged. */
  ghost predicate MergedSoFar(pending: map<string, Aggregate>, gaps: seq<Gap>, groups: Groups, taken: Groups,
                              merged: map<string, Aggregate>) {
    && (forall r :: r in merged <==> r in pending || Names(gaps, r))
    && (forall r :: r in pending && !Names(gaps, r) ==> merged[r] == pending[r])
    && forall r :: Names(gaps, r) ==> r in taken && merged[r] == AggregateOf(MergedGroup(groups, r, taken[r]))
  }

  lemma MergedNone(pending: map<string, Aggregate>, groups: Groups, taken: Groups)
    ensures MergedSoFar(pending, [], groups, taken, pending)
  {
  }

  lemma MergeNext(pending: map<string, Aggregate>, gaps: seq<Gap>, groups: Groups, taken: Groups,
                  merged: map<string, Aggregate>, i: nat)
    requires StandsFor(pending, groups) && Inhabited(groups) && Lists(gaps, taken) && i < |gaps|
    requires MergedSoFar(pending, gaps[..i], groups, taken, merged)
    ensures MergedSoFar(pending, gaps[..i + 1], groups, taken, MergedOne(merged, gaps[i]))
  {
    hide Names;
    var gap := gaps[i];
    assert gaps[..i + 1] == gaps[..i] + [gap];
    NamesMore(gaps[..i], gap);
    NotYet(gaps, i);
    assert MergedOne(merged, gap)[gap.reason] == AggregateOf(MergedGroup(groups, gap.reason, taken[gap.reason]));
  }

  lemma NotYet(gaps: seq<Gap>, i: nat)
    requires Distinct(gaps) && i < |gaps|
    ensures !Names(gaps[..i], gaps[i].reason)
  {
  }

  lemma MergedAll(pending: map<string, Aggregate>, gaps: seq<Gap>, groups: Groups, taken: Groups,
                  merged: map<string, Aggregate>)
    requires StandsFor(pending, groups) && Lists(gaps, taken) && MergedSoFar(pending, gaps, groups, taken, merged)
    ensures StandsFor(merged, Merged(groups, taken))
  {
  }

  /** Over every run, whatever succeeds or fails, however the steps interleave and whatever times
      the reports carry, the buffer is where its steps lead. The reports of each reason are all
      stored, in flight or pending, none twice. The windows are around their reports up to any
      point exactly when no step up to it recorded a report earlier than the latest one of the
      aggregate it joined, and so always when reports come in clock order. */
  method Run(steps: seq<Step>) returns (buffer: GapBuffer)
    ensures buffer.Valid() && buffer.seen == After(steps)
    ensures forall r :: |OfReason(After(steps).reports, r)| ==
              StoredTotal(buffer.stored, r) + Total(buffer.Flying(), r) + Pending(buffer.pending, r)
    ensures forall k :: 0 <= k <= |steps| ==> (WindowsUpTo(steps, k) <==> forall j :: 0 <= j < k ==> !LateAt(steps, j))
    ensures InClockOrder(After(steps).reports) ==> WindowsUpTo(steps, |steps|)
  {
    hide *;
    buffer := new GapBuffer();
    AfterNothing(steps);
    for i := 0 to |steps|
      invariant buffer.Valid() && fresh(buffer) && buffer.seen == After(steps[..i])
    {
      AfterNext(steps, i);
      buffer.Do(steps[i]);
    }
    assert steps[..|steps|] == steps;
    forall r ensures |OfReason(After(steps).reports, r)| ==
                     StoredTotal(buffer.stored, r) + Total(buffer.Flying(), r) + Pending(buffer.pending, r) {
      buffer.CountsAddUp(r);
    }
    forall k | 0 <= k <= |steps| ensures WindowsUpTo(steps, k) <==> forall j :: 0 <= j < k ==> !LateAt(steps, j) {
      WindowsExactly(steps, k);
    }
    if InClockOrder(After(steps).reports) {
      forall j | 0 <= j < |steps| ensures !LateAt(steps, j) {
        ClockOrderIsNeverLate(steps, j);
      }
    }
  }

  lemma AfterNothing(steps: seq<Step>)
    ensures After(steps[..0]) == EMPTY
  {
  }
}
