/**
 The gap accounting as a function of its steps: which reports each aggregate stands for, and
 the window it claims for them. A report carries the time read from the clock before the
 buffer's lock was taken, so it may be earlier than that of a report recorded before it.
 */
module GapTrace {
  import opened Words
  import opened Wrappers

  /** An audit that failed, reported by its session, or before there was one. */
  datatype Report = Report(session: Option<string>, reason: string, at: int)

  /** An aggregate: its window, and the reports it stands for, in the order they came. */
  datatype Group = Group(startedAt: int, endedAt: int, reports: seq<Report>)

  type Groups = map<string, Group>

  /** What is pending by reason, in flight, and stored, flush by flush. */
  datatype Buffer = Buffer(
    pending: Groups, flight: Option<Groups>, stored: seq<Groups>,
    closed: bool, reporters: set<string>, reports: seq<Report>)

  datatype Step =
    | StepReport(report: Report)
    | StepTake
    | StepInsertSucceeds
    | StepInsertFails
    | StepClose

  const EMPTY := Buffer(map[], None, [], false, {}, [])

  predicate Known(reason: string) {
    reason in {"db_unavailable", "queue_full", "encryption_error", "write_error"}
  }

  // ----- Steps -----

  /** A report counts: not the second of its session, for a known reason, while the buffer is
      open. */
  predicate Counts(v: Buffer, e: Report) {
    (e.session.Some? ==> e.session.value !in v.reporters) && Known(e.reason) && !v.closed
  }

  /** The first report of a reason opens the window, every one ends it. */
  function Recorded(pending: Groups, e: Report): Groups {
    pending[e.reason :=
      if e.reason in pending then Group(pending[e.reason].startedAt, e.at, pending[e.reason].reports + [e])
      else Group(e.at, e.at, [e])]
  }

  /** A group that could not be stored, in front of what came meanwhile. An aggregate that was
      not there ends at zero. */
  function MergedGroup(pending: Groups, r: string, g: Group): Group {
    if r in pending then
      var p := pending[r];
      Group(Min(g.startedAt, p.startedAt), Max(g.endedAt, p.endedAt), g.reports + p.reports)
    else Group(g.startedAt, Max(g.endedAt, 0), g.reports)
  }

  function Merged(pending: Groups, taken: Groups): Groups {
    map r | r in pending.Keys + taken.Keys :: if r in taken then MergedGroup(pending, r, taken[r]) else pending[r]
  }

  function AfterReport(v: Buffer, e: Report): Buffer {
    var told := if e.session.Some? then v.reporters + {e.session.value} else v.reporters;
    if Counts(v, e) then v.(pending := Recorded(v.pending, e), reports := v.reports + [e], reporters := told)
    else v.(reporters := told)
  }

  function Next(v: Buffer, step: Step): Buffer {
    match step
    case StepReport(e) => AfterReport(v, e)
    case StepTake => if v.flight.Some? || v.pending == map[] then v else v.(pending := map[], flight := Some(v.pending))
    case StepInsertSucceeds => if v.flight.None? then v else v.(flight := None, stored := v.stored + [v.flight.value])
    case StepInsertFails =>
      if v.flight.None? then v else v.(flight := None, pending := Merged(v.pending, v.flight.value))
    case StepClose => v.(closed := true)
  }

  /** Where a run of steps leads. */
  function After(steps: seq<Step>): Buffer {
    if steps == [] then EMPTY else Next(After(steps[..|steps| - 1]), steps[|steps| - 1])
  }

  lemma AfterNext(steps: seq<Step>, k: nat)
    requires k < |steps|
    ensures After(steps[..k + 1]) == Next(After(steps[..k]), steps[k])
  {
    assert steps[..k + 1][..k] == steps[..k];
  }

  // ----- Conservation -----

  /** The reports of one reason, in order. */
  function OfReason(reports: seq<Report>, reason: string): seq<Report> {
    if reports == [] then []
    else
      var last := reports[|reports| - 1];
      OfReason(reports[..|reports| - 1], reason) + (if last.reason == reason then [last] else [])
  }

  function ReportsOf(groups: Groups, reason: string): seq<Report> {
    if reason in groups then groups[reason].reports else []
  }

  function StoredOf(stored: seq<Groups>, reason: string): seq<Report> {
    if stored == [] then [] else StoredOf(stored[..|stored| - 1], reason) + ReportsOf(stored[|stored| - 1], reason)
  }

  function Flying(v: Buffer): Groups {
    if v.flight.Some? then v.flight.value else map[]
  }

  /** All reports of a reason that some aggregate stands for: stored ones first, then those in
      flight, then pending ones. */
  function Held(v: Buffer, reason: string): seq<Report> {
    StoredOf(v.stored, reason) + ReportsOf(Flying(v), reason) + ReportsOf(v.pending, reason)
  }

  ghost predicate Inhabited(groups: Groups) {
    forall r :: r in groups ==> groups[r].reports != []
  }

  /** Every report that counted is held once, in order, and no session counts twice. */
  ghost predicate Conserved(v: Buffer) {
    && (forall r :: Held(v, r) == OfReason(v.reports, r))
    && Inhabited(v.pending) && Inhabited(Flying(v)) && (forall i :: 0 <= i < |v.stored| ==> Inhabited(v.stored[i]))
    && (forall i :: 0 <= i < |v.reports| ==> Known(v.reports[i].reason) && Told(v.reports[i], v.reporters))
    && forall i, j :: 0 <= i < j < |v.reports| && v.reports[i].session.Some? ==>
         v.reports[i].session != v.reports[j].session
  }

  ghost predicate Told(e: Report, reporters: set<string>) {
    e.session.Some? ==> e.session.value in reporters
  }

  lemma OfReasonSnoc(reports: seq<Report>, e: Report, reason: string)
    ensures OfReason(reports + [e], reason) == OfReason(reports, reason) + (if e.reason == reason then [e] else [])
  {
    assert (reports + [e])[..|reports|] == reports;
  }

  lemma StoredSnoc(stored: seq<Groups>, groups: Groups, reason: string)
    ensures StoredOf(stored + [groups], reason) == StoredOf(stored, reason) + ReportsOf(groups, reason)
  {
    assert (stored + [groups])[..|stored|] == stored;
  }

  /** No step loses a report, doubles one or changes their order. */
  lemma NextHeld(v: Buffer, step: Step, reason: string)
    requires Held(v, reason) == OfReason(v.reports, reason)
    ensures Held(Next(v, step), reason) == OfReason(Next(v, step).reports, reason)
  {
    hide OfReason;
    hide StoredOf;
    hide ReportsOf;
    hide Recorded;
    hide Merged;
    NothingHeld(reason);
    match step
    case StepReport(e) =>
      OfReasonSnoc(v.reports, e, reason);
      RecordedReports(v.pending, e, reason);
    case StepInsertSucceeds =>
      if v.flight.Some? {
        StoredSnoc(v.stored, v.flight.value, reason);
      }
    case StepInsertFails =>
      if v.flight.Some? {
        MergedReports(v.pending, v.flight.value, reason);
      }
    case _ =>
  }

  lemma NothingHeld(reason: string)
    ensures ReportsOf(map[], reason) == []
  {
  }

  lemma RecordedReports(pending: Groups, e: Report, reason: string)
    ensures ReportsOf(Recorded(pending, e), reason) ==
      ReportsOf(pending, reason) + (if e.reason == reason then [e] else [])
  {
  }

  lemma MergedReports(pending: Groups, taken: Groups, reason: string)
    ensures ReportsOf(Merged(pending, taken), reason) == ReportsOf(taken, reason) + ReportsOf(pending, reason)
  {
  }

  lemma NextConserved(v: Buffer, step: Step)
    requires Conserved(v)
    ensures Conserved(Next(v, step))
  {
    hide Held;
    hide OfReason;
    forall r ensures Held(Next(v, step), r) == OfReason(Next(v, step).reports, r) {
      NextHeld(v, step, r);
    }
  }

  /** Over every run. */
  lemma {:induction false} AfterConserved(steps: seq<Step>)
    ensures Conserved(After(steps))
  {
    hide Next;
    if steps == [] {
      EmptyConserved();
    } else {
      var n := |steps| - 1;
      AfterConserved(steps[..n]);
      NextConserved(After(steps[..n]), steps[n]);
    }
  }

  lemma EmptyConserved()
    ensures Conserved(EMPTY)
  {
  }

  /** What is stored, and what was reported, only grows. */
  lemma {:induction false} Grows(steps: seq<Step>, k: nat)
    requires k <= |steps|
    ensures After(steps[..k]).reports <= After(steps).reports && After(steps[..k]).stored <= After(steps).stored
    decreases |steps|
  {
    if k == |steps| {
      assert steps[..k] == steps;
    } else {
      hide Next;
      var n := |steps| - 1;
      Grows(steps[..n], k);
      NextGrows(After(steps[..n]), steps[n]);
      assert steps[..n][..k] == steps[..k];
    }
  }

  lemma NextGrows(v: Buffer, step: Step)
    ensures v.reports <= Next(v, step).reports && v.stored <= Next(v, step).stored
  {
  }

  /** A report whose session said nothing before. */
  ghost predicate FirstOfSession(steps: seq<Step>, j: nat)
    requires j < |steps| && steps[j].StepReport?
  {
    steps[j].report.session.Some? ==>
      forall i :: 0 <= i < j && steps[i].StepReport? ==> steps[i].report.session != steps[j].report.session
  }

  /** Looking back over the run, the j-th step is a report that counts. */
  ghost predicate CountsAt(steps: seq<Step>, j: nat)
    requires j < |steps|
  {
    && steps[j].StepReport? && FirstOfSession(steps, j) && StepClose !in steps[..j]
    && steps[j].report.reason in ["db_unavailable", "queue_full", "encryption_error", "write_error"]
  }

  ghost function Counted(steps: seq<Step>): seq<Report> {
    if steps == [] then []
    else
      var n := |steps| - 1;
      Counted(steps[..n]) + (if CountsAt(steps, n) then [steps[n].report] else [])
  }

  /** What the buffer remembers of a run. */
  ghost predicate Recalls(v: Buffer, steps: seq<Step>) {
    && (v.closed <==> StepClose in steps)
    && (forall name :: name in v.reporters <==> SaidBy(steps, name))
    && v.reports == Counted(steps)
  }

  ghost predicate SaidBy(steps: seq<Step>, name: string) {
    exists i :: 0 <= i < |steps| && steps[i].StepReport? && steps[i].report.session == Some(name)
  }

  /** Over every run the reports that count are exactly the first of each session for a known
      reason before the buffer is closed. */
  lemma {:induction false} CountedExactly(steps: seq<Step>)
    ensures Recalls(After(steps), steps)
  {
    if steps != [] {
      var n := |steps| - 1;
      var before := steps[..n];
      CountedExactly(before);
      assert steps == before + [steps[n]];
      assert forall i :: 0 <= i < n ==> steps[i] == before[i];
      forall name ensures name in After(steps).reporters <==> SaidBy(steps, name) {
        assert SaidBy(before, name) ==> SaidBy(steps, name);
      }
      if steps[n].StepReport? {
        FirstIsNew(steps);
      }
    }
  }

  lemma FirstIsNew(steps: seq<Step>)
    requires steps != [] && steps[|steps| - 1].StepReport?
    ensures var n := |steps| - 1; var session := steps[n].report.session;
      FirstOfSession(steps, n) <==> (session.Some? ==> !SaidBy(steps[..n], session.value))
  {
    var n := |steps| - 1;
    assert forall i :: 0 <= i < n ==> steps[i] == steps[..n][i];
  }

  /** From wherever a run led, two inserts that succeed, with a take between them, leave nothing
      pending or in flight, and every report that counted stored in order. */
  lemma FlushedExactly(steps: seq<Step>, reason: string)
    ensures var v := After(steps + [StepInsertSucceeds, StepTake, StepInsertSucceeds]);
      v.pending == map[] && v.flight.None? && StoredOf(v.stored, reason) == OfReason(Counted(steps), reason)
  {
    hide StoredOf;
    hide OfReason;
    var run := steps + [StepInsertSucceeds, StepTake, StepInsertSucceeds];
    var n := |steps|;
    AfterNext(run, n);
    AfterNext(run, n + 1);
    AfterNext(run, n + 2);
    assert run[..n] == steps && run[..n + 3] == run;
    CountedExactly(steps);
    AfterConserved(run);
    NothingHeld(reason);
    assert Held(After(run), reason) == OfReason(After(run).reports, reason);
  }

  /** An insert that fails stores nothing, and what was in flight is pending again. */
  lemma FailedStoresNothing(steps: seq<Step>)
    ensures var v, w := After(steps), After(steps + [StepInsertFails]);
      w.stored == v.stored && w.flight.None? && w.pending.Keys == v.pending.Keys + Flying(v).Keys
  {
    AfterNext(steps + [StepInsertFails], |steps|);
    assert (steps + [StepInsertFails])[..|steps|] == steps;
    assert (steps + [StepInsertFails])[..|steps| + 1] == steps + [StepInsertFails];
  }

  // ----- Windows -----

  /** A window is around the reports its aggregate stands for. */
  ghost predicate Around(g: Group) {
    forall i :: 0 <= i < |g.reports| ==> g.startedAt <= g.reports[i].at <= g.endedAt
  }

  ghost predicate AllAround(groups: Groups) {
    forall r :: r in groups ==> Around(groups[r])
  }

  ghost predicate Windows(v: Buffer) {
    AllAround(v.pending) && AllAround(Flying(v)) && forall i :: 0 <= i < |v.stored| ==> AllAround(v.stored[i])
  }

  /** A report earlier than the latest one of the aggregate it joins. */
  ghost predicate Late(pending: Groups, e: Report) {
    exists i :: 0 <= i < |ReportsOf(pending, e.reason)| && e.at < ReportsOf(pending, e.reason)[i].at
  }

  /** A step that records a late report. */
  ghost predicate IsLate(v: Buffer, step: Step) {
    step.StepReport? && Counts(v, step.report) && Late(v.pending, step.report)
  }

  /** Recording keeps the windows around their reports exactly when the report is not late. */
  lemma RecordedWindows(pending: Groups, e: Report)
    requires Inhabited(pending) && AllAround(pending)
    ensures AllAround(Recorded(pending, e)) <==> !Late(pending, e)
  {
    var after := Recorded(pending, e);
    if Late(pending, e) {
      var i :| 0 <= i < |ReportsOf(pending, e.reason)| && e.at < ReportsOf(pending, e.reason)[i].at;
      assert after[e.reason].reports[i].at > after[e.reason].endedAt;
    } else if e.reason in pending {
      var reports := ReportsOf(pending, e.reason);
      assert Around(pending[e.reason]) && forall i :: 0 <= i < |reports| ==> reports[i].at <= e.at;
      assert pending[e.reason].startedAt <= reports[0].at <= e.at;
      assert Around(after[e.reason]);
    }
  }

  /** Merging keeps the windows around their reports, in whatever order those came. */
  lemma MergedWindows(pending: Groups, taken: Groups)
    requires AllAround(pending) && AllAround(taken)
    ensures AllAround(Merged(pending, taken))
  {
    var merged := Merged(pending, taken);
    forall r | r in merged ensures Around(merged[r]) {
      if r in taken {
        assert Around(taken[r]);
      }
      if r in pending {
        assert Around(pending[r]);
      }
    }
  }

  lemma NextWindows(v: Buffer, step: Step)
    requires Conserved(v) && Windows(v)
    ensures Windows(Next(v, step)) <==> !IsLate(v, step)
  {
    hide Around;
    hide Held;
    hide Recorded;
    hide Merged;
    hide Late;
    hide Inhabited;
    match step
    case StepReport(e) => RecordedWindows(v.pending, e);
    case StepInsertFails =>
      if v.flight.Some? {
        MergedWindows(v.pending, v.flight.value);
      }
    case _ =>
  }

  /** A window starts with one of its reports, and ends with one or at zero. */
  ghost predicate Tight(g: Group) {
    && (exists i :: 0 <= i < |g.reports| && g.reports[i].at == g.startedAt)
    && (g.endedAt == 0 || exists i :: 0 <= i < |g.reports| && g.reports[i].at == g.endedAt)
  }

  ghost predicate AllTight(groups: Groups) {
    forall r :: r in groups ==> Tight(groups[r])
  }

  ghost predicate TightWindows(v: Buffer) {
    AllTight(v.pending) && AllTight(Flying(v)) && forall i :: 0 <= i < |v.stored| ==> AllTight(v.stored[i])
  }

  lemma TightRecorded(pending: Groups, e: Report)
    requires AllTight(pending)
    ensures AllTight(Recorded(pending, e))
  {
    var after := Recorded(pending, e);
    forall r | r in after ensures Tight(after[r]) {
      if r == e.reason {
        var g := after[r];
        assert g.reports[|g.reports| - 1] == e && g.endedAt == e.at;
        if r in pending {
          StillIn(pending[r].reports, [e], pending[r].startedAt);
          assert Tight(pending[r]);
        }
      }
    }
  }

  /** A time in one of two lists is in both together. */
  lemma StillIn(a: seq<Report>, b: seq<Report>, at: int)
    ensures (exists i :: 0 <= i < |a| && a[i].at == at) ==> exists i :: 0 <= i < |a + b| && (a + b)[i].at == at
    ensures (exists i :: 0 <= i < |b| && b[i].at == at) ==> exists i :: 0 <= i < |a + b| && (a + b)[i].at == at
  {
    if i :| 0 <= i < |a| && a[i].at == at {
      assert (a + b)[i].at == at;
    }
    if i :| 0 <= i < |b| && b[i].at == at {
      assert (a + b)[|a| + i].at == at;
    }
  }

  lemma TightMerged(pending: Groups, taken: Groups)
    requires AllTight(pending) && AllTight(taken)
    ensures AllTight(Merged(pending, taken))
  {
    var merged := Merged(pending, taken);
    forall r | r in merged ensures Tight(merged[r]) {
      if r in pending && r in taken {
        var p, g := pending[r], taken[r];
        assert Tight(p) && Tight(g);
        StillIn(g.reports, p.reports, merged[r].startedAt);
        StillIn(g.reports, p.reports, merged[r].endedAt);
      } else if r in taken {
        assert Tight(taken[r]);
      }
    }
  }

  /** Over every run no window is wider than its reports, except for ending at zero. */
  lemma {:induction false} AlwaysTight(steps: seq<Step>)
    ensures TightWindows(After(steps))
  {
    hide Tight;
    hide Recorded;
    hide Merged;
    if steps != [] {
      var n := |steps| - 1;
      AlwaysTight(steps[..n]);
      var v := After(steps[..n]);
      match steps[n]
      case StepReport(e) => TightRecorded(v.pending, e);
      case StepInsertFails =>
        if v.flight.Some? {
          TightMerged(v.pending, v.flight.value);
        }
      case _ =>
    }
  }

  ghost predicate WindowsUpTo(steps: seq<Step>, k: nat)
    requires k <= |steps|
  {
    forall j :: 0 <= j <= k ==> Windows(After(steps[..j]))
  }

  ghost predicate LateAt(steps: seq<Step>, j: nat)
    requires j < |steps|
  {
    IsLate(After(steps[..j]), steps[j])
  }

  /** Over every run the windows are around their reports up to any point exactly when no step
      up to it recorded a late report. */
  lemma {:induction false} WindowsExactly(steps: seq<Step>, k: nat)
    requires k <= |steps|
    ensures WindowsUpTo(steps, k) <==> forall j :: 0 <= j < k ==> !LateAt(steps, j)
  {
    hide After;
    hide IsLate;
    hide Windows;
    hide Conserved;
    if k == 0 {
      NothingYet(steps);
    } else {
      var n := k - 1;
      WindowsExactly(steps, n);
      assert WindowsUpTo(steps, k) <==> WindowsUpTo(steps, n) && Windows(After(steps[..k]));
      assert (forall j :: 0 <= j < k ==> !LateAt(steps, j)) <==>
        (forall j :: 0 <= j < n ==> !LateAt(steps, j)) && !LateAt(steps, n);
      AfterNext(steps, n);
      AfterConserved(steps[..n]);
      if Windows(After(steps[..n])) {
        NextWindows(After(steps[..n]), steps[n]);
      }
    }
  }

  lemma NothingYet(steps: seq<Step>)
    ensures Windows(After(steps[..0]))
  {
  }

  /** For every reason, reports were recorded in clock order. */
  ghost predicate InClockOrder(reports: seq<Report>) {
    forall i, j :: 0 <= i < j < |reports| && reports[i].reason == reports[j].reason ==> reports[i].at <= reports[j].at
  }

  lemma {:induction false} OfReasonIn(reports: seq<Report>, reason: string, i: nat)
    requires i < |OfReason(reports, reason)|
    ensures OfReason(reports, reason)[i] in reports && OfReason(reports, reason)[i].reason == reason
  {
    var n := |reports| - 1;
    if i < |OfReason(reports[..n], reason)| {
      OfReasonIn(reports[..n], reason, i);
    }
  }

  /** In clock order no report is ever late. */
  lemma ClockOrderIsNeverLate(steps: seq<Step>, j: nat)
    requires j < |steps| && InClockOrder(After(steps).reports)
    ensures !LateAt(steps, j)
  {
    hide After;
    hide OfReason;
    var v := After(steps[..j]);
    AfterNext(steps, j);
    AfterConserved(steps[..j]);
    Grows(steps, j + 1);
    if steps[j].StepReport? && Counts(v, steps[j].report) {
      var e := steps[j].report;
      var all, n := After(steps).reports, |v.reports|;
      assert v.reports + [e] <= all && all[n] == e;
      forall i | 0 <= i < |ReportsOf(v.pending, e.reason)| ensures ReportsOf(v.pending, e.reason)[i].at <= e.at {
        HeldAt(v, e.reason, i);
        var m :| 0 <= m < n && v.reports[m] == ReportsOf(v.pending, e.reason)[i];
        assert all[m] == v.reports[m];
      }
    }
  }

  /** A pending report is one of those that were reported. */
  lemma HeldAt(v: Buffer, reason: string, i: nat)
    requires Held(v, reason) == OfReason(v.reports, reason) && i < |ReportsOf(v.pending, reason)|
    ensures ReportsOf(v.pending, reason)[i] in v.reports && ReportsOf(v.pending, reason)[i].reason == reason
  {
    var before := StoredOf(v.stored, reason) + ReportsOf(Flying(v), reason);
    assert Held(v, reason)[|before| + i] == ReportsOf(v.pending, reason)[i];
    OfReasonIn(v.reports, reason, |before| + i);
  }

  /** Two reports of a reason, recorded in the order 7 and 5: one session read 5 and was overtaken
      by another. Both are counted, and neither lies in the window. */
  lemma LateReportEscapes()
    ensures var a, b := Report(Some("a"), "queue_full", 7), Report(Some("b"), "queue_full", 5);
      var steps := [StepReport(a), StepReport(b)];
      && LateAt(steps, 1) && !Windows(After(steps))
      && After(steps).pending["queue_full"].(reports := []) == Group(7, 5, [])
      && |After(steps).pending["queue_full"].reports| == 2
  {
    var a, b := Report(Some("a"), "queue_full", 7), Report(Some("b"), "queue_full", 5);
    var steps := [StepReport(a), StepReport(b)];
    AfterNext(steps, 0);
    AfterNext(steps, 1);
    assert steps[..2] == steps && steps[..0] == [];
    var v := After(steps[..1]);
    assert v == Next(EMPTY, StepReport(a)) && v.pending == map["queue_full" := Group(7, 7, [a])];
    assert ReportsOf(v.pending, "queue_full")[0].at == 7;
    var w := After(steps);
    assert w == Next(v, StepReport(b)) && Counts(v, b);
    assert w.pending["queue_full"] == Group(7, 5, [a] + [b]);
    assert [a] + [b] == [a, b];
    assert !Around(Group(7, 5, [a, b])) by { assert [a, b][0] == a; }
  }
}
