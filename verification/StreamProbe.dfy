/**
 The byte machine that watches an event stream while it is captured. It counts dispatched
 events, notes where and when each one ended, and notices the provider's terminal event,
 keeping no more than one bounded line in memory.
 */
module StreamProbe {
  import opened Words
  import opened StreamLines
  import opened Timeline

  /** Lines longer than this are never matched against the terminal marker. */
  const MAX_LINE_PROBE: nat := 48

  /** At most this many event points are kept. */
  const MAX_EVENTS: nat := 100_000

  // ----- What the machine must report, from the lines of the whole stream -----

  ghost predicate LastNonEmpty(lines: seq<Bytes>) {
    lines != [] && lines[|lines| - 1] != []
  }

  /** Lines that end an event: empty, and directly preceded by a non-empty line. */
  ghost function EventEnds(lines: seq<Bytes>): set<int> {
    set i {:trigger lines[i]} | 1 <= i < |lines| && lines[i] == [] && lines[i - 1] != []
  }

  ghost predicate IsTerminal(matcher: Bytes -> bool, line: Bytes) {
    line != [] && |line| <= 48 && matcher(line)
  }

  /** A terminal line was followed by an empty line, so its event was dispatched. */
  ghost predicate TerminalDispatched(matcher: Bytes -> bool, lines: seq<Bytes>) {
    exists i, j :: 0 <= i < j < |lines| && IsTerminal(matcher, lines[i]) && lines[j] == []
  }

  /** A terminal line with no empty line after it yet. */
  ghost predicate TerminalPending(matcher: Bytes -> bool, lines: seq<Bytes>) {
    exists i :: 0 <= i < |lines| && IsTerminal(matcher, lines[i]) &&
                forall j :: i < j < |lines| ==> lines[j] != []
  }

  /** The point of every event: one past the byte that ended its empty line, and the time
      that byte was read. */
  ghost function EventPoints(data: Bytes, stamps: seq<int>): (points: seq<Point>)
    requires |stamps| == |data|
    ensures |points| == |EventEnds(ScanOf(data).ended)|
  {
    if data == [] then
      assert EventEnds([]) == {};
      []
    else
      var n := |data| - 1;
      var before := EventPoints(data[..n], stamps[..n]);
      assert data == data[..n] + [data[n]];
      FeedSnoc(data[..n], data[n]);
      EndsAfterByte(ScanOf(data[..n]), data[n]);
      if EndsEvent(ScanOf(data[..n]), data[n]) then before + [Point(n + 1, stamps[n])] else before
  }

  lemma EventPointsSnoc(data: Bytes, stamps: seq<int>, c: char, at: int)
    requires |stamps| == |data|
    ensures EventPoints(data + [c], stamps + [at]) ==
            var all := EventPoints(data, stamps);
            if EndsEvent(ScanOf(data), c) then all + [Point(|data| + 1, at)] else all
  {
    assert (data + [c])[..|data|] == data && (stamps + [at])[..|data|] == stamps;
  }

  /** The byte c ends an event when read in state s. */
  ghost predicate EndsEvent(s: Scan, c: char) {
    !(s.afterCR && c == '\n') && IsTerminator(c) && s.open == [] && LastNonEmpty(s.ended)
  }

  lemma EndsAfterByte(s: Scan, c: char)
    ensures EventEnds(Feed(s, c).ended) ==
            if EndsEvent(s, c) then EventEnds(s.ended) + {|s.ended|} else EventEnds(s.ended)
    ensures |EventEnds(Feed(s, c).ended)| == |EventEnds(s.ended)| + (if EndsEvent(s, c) then 1 else 0)
  {
    assert |s.ended| !in EventEnds(s.ended);
  }

  lemma PendingAfterLine(matcher: Bytes -> bool, lines: seq<Bytes>, line: Bytes)
    ensures TerminalPending(matcher, lines + [line]) <==>
            line != [] && (IsTerminal(matcher, line) || TerminalPending(matcher, lines))
    ensures TerminalPending(matcher, lines) ==> LastNonEmpty(lines)
  {
    var more := lines + [line];
    if TerminalPending(matcher, lines) && line != [] {
      var i :| 0 <= i < |lines| && IsTerminal(matcher, lines[i]) && forall j :: i < j < |lines| ==> lines[j] != [];
      assert more[i] == lines[i];
    }
    if IsTerminal(matcher, line) {
      assert more[|lines|] == line;
    }
    if TerminalPending(matcher, more) {
      var i :| 0 <= i < |more| && IsTerminal(matcher, more[i]) && forall j :: i < j < |more| ==> more[j] != [];
      assert more[|lines|] == line;
      if i < |lines| {
        assert more[i] == lines[i];
        assert forall j :: i < j < |lines| ==> lines[j] == more[j];
      }
    }
  }

  lemma DispatchedAfterLine(matcher: Bytes -> bool, lines: seq<Bytes>, line: Bytes)
    ensures TerminalDispatched(matcher, lines + [line]) <==>
            TerminalDispatched(matcher, lines) || (line == [] && TerminalPending(matcher, lines))
  {
    var more := lines + [line];
    if TerminalDispatched(matcher, lines) {
      var i, j :| 0 <= i < j < |lines| && IsTerminal(matcher, lines[i]) && lines[j] == [];
      assert more[i] == lines[i] && more[j] == lines[j];
    }
    if TerminalPending(matcher, lines) && line == [] {
      var i :| 0 <= i < |lines| && IsTerminal(matcher, lines[i]) && forall j :: i < j < |lines| ==> lines[j] != [];
      assert more[i] == lines[i] && more[|lines|] == [];
    }
    if TerminalDispatched(matcher, more) {
      var i, j :| 0 <= i < j < |more| && IsTerminal(matcher, more[i]) && more[j] == [];
      assert more[i] == lines[i];
      if j < |lines| {
        assert more[j] == lines[j];
      } else if k :| i < k < |lines| && lines[k] == [] {
      } else {
        assert TerminalPending(matcher, lines);
      }
    }
  }

  // ----- The machine -----

  class Probe {
    const matcher: Bytes -> bool
    var lineData: bool
    var hasData: bool
    var afterCR: bool
    var events: nat
    var complete: bool
    var points: seq<Point>
    var firstEventAt: int
    var lastEventAt: int
    var terminalSeen: bool
    var terminalCandidate: bool
    var line: Bytes
    var lineOverflow: bool
    ghost var seen: Bytes
    ghost var stamps: seq<int>

    /** Every field is a function of the bytes seen, whatever reads delivered them. */
    ghost predicate Valid()
      reads this
    {
      && |stamps| == |seen|
      && LineState(ScanOf(seen).ended, ScanOf(seen).open)
      && afterCR == ScanOf(seen).afterCR
      && EventState(EventPoints(seen, stamps))
    }

    ghost predicate LineState(ended: seq<Bytes>, open: Bytes)
      reads `lineData, `hasData, `line, `lineOverflow, `events, `terminalCandidate, `terminalSeen
    {
      && (lineData <==> open != [])
      && (hasData <==> open != [] || LastNonEmpty(ended))
      && line == open[..if |open| < MAX_LINE_PROBE then |open| else MAX_LINE_PROBE]
      && (lineOverflow <==> |open| > MAX_LINE_PROBE)
      && events == |EventEnds(ended)|
      && (terminalCandidate <==> TerminalPending(matcher, ended))
      && (terminalSeen <==> TerminalDispatched(matcher, ended))
    }

    ghost predicate EventState(all: seq<Point>)
      reads `events, `points, `complete, `firstEventAt, `lastEventAt
    {
      && |all| == events
      && points == (if |all| < MAX_EVENTS then all else all[..MAX_EVENTS])
      && (complete <==> |all| <= MAX_EVENTS)
      && (all == [] ==> firstEventAt == 0 && lastEventAt == 0)
      && (all != [] && (forall p :: p in all ==> p.at > 0) ==> firstEventAt == all[0].at)
      && (all != [] ==> lastEventAt == all[|all| - 1].at)
    }

    constructor (matcher: Bytes -> bool)
      ensures Valid() && seen == [] && this.matcher == matcher
    {
      this.matcher := matcher;
      lineData, hasData, afterCR, events, complete := false, false, false, 0, true;
      points, firstEventAt, lastEventAt := [], 0, 0;
      terminalSeen, terminalCandidate, line, lineOverflow := false, false, [], false;
      seen, stamps := [], [];
      new;
      assert EventEnds([]) == {};
    }

    /** Match a finished line against the terminal marker and forget it. */
    method NoteLineEnd(ghost s: Scan)
      requires LineState(s.ended, s.open)
      modifies this`terminalCandidate, this`line, this`lineOverflow
      ensures line == [] && !lineOverflow
      ensures terminalCandidate <==> old(terminalCandidate) || IsTerminal(matcher, s.open)
    {
      if line == [] && !lineOverflow {
        return;
      }
      assert !lineOverflow ==> line == s.open;
      if !terminalCandidate && !lineOverflow && matcher(line) {
        terminalCandidate := true;
      }
      line, lineOverflow := [], false;
    }

    /** An empty line after data dispatches an event. */
    method FinishLine(offset: int, at: int)
      modifies this
      ensures unchanged(`afterCR) && unchanged(`line) && unchanged(`lineOverflow)
      ensures unchanged(`seen) && unchanged(`stamps)
      ensures !lineData
      ensures var dispatch := !old(lineData) && old(hasData);
              && hasData == (old(hasData) && !dispatch)
              && events == old(events) + (if dispatch then 1 else 0)
              && terminalSeen == (old(terminalSeen) || (dispatch && old(terminalCandidate)))
              && terminalCandidate == (old(terminalCandidate) && !dispatch)
              && firstEventAt == (if dispatch && old(firstEventAt) == 0 then at else old(firstEventAt))
              && lastEventAt == (if dispatch then at else old(lastEventAt))
              && points == (if dispatch && |old(points)| < MAX_EVENTS
                            then old(points) + [Point(offset, at)] else old(points))
              && complete == (old(complete) && !(dispatch && |old(points)| >= MAX_EVENTS))
    {
      if !lineData && hasData {
        events := events + 1;
        if terminalCandidate {
          terminalSeen := true;
          terminalCandidate := false;
        }
        if firstEventAt == 0 {
          firstEventAt := at;
        }
        lastEventAt := at;
        if |points| < MAX_EVENTS {
          points := points + [Point(offset, at)];
        } else {
          complete := false;
        }
        hasData := false;
      }
      lineData := false;
    }

    /** A line terminator in line state s, with the event points found so far. */
    method EndLine(offset: int, at: int, ghost s: Scan, ghost all: seq<Point>)
      requires LineState(s.ended, s.open) && EventState(all)
      modifies this
      ensures LineState(s.ended + [s.open], [])
      ensures EventState(if s.open == [] && LastNonEmpty(s.ended) then all + [Point(offset, at)] else all)
      ensures unchanged(`afterCR) && unchanged(`seen) && unchanged(`stamps)
    {
      hide EventEnds;
      hide TerminalPending;
      hide TerminalDispatched;
      EndsAfterByte(s.(afterCR := false), '\n');
      PendingAfterLine(matcher, s.ended, s.open);
      DispatchedAfterLine(matcher, s.ended, s.open);
      NoteLineEnd(s);
      FinishLine(offset, at);
      ghost var ended := s.ended + [s.open];
      assert LastNonEmpty(ended) <==> s.open != [];
    }

    /** A byte of line data in line state s. */
    method DataByte(value: char, ghost s: Scan)
      requires LineState(s.ended, s.open)
      modifies `lineData, `hasData, `line, `lineOverflow
      ensures LineState(s.ended, s.open + [value])
    {
      hide EventEnds;
      hide TerminalPending;
      hide TerminalDispatched;
      lineData, hasData := true, true;
      if |line| < MAX_LINE_PROBE {
        line := line + [value];
      } else {
        lineOverflow := true;
      }
    }

    method ObserveByte(value: char, offset: int, at: int)
      requires Valid() && offset == |seen| + 1
      modifies this
      ensures Valid() && seen == old(seen) + [value] && stamps == old(stamps) + [at]
    {
      hide EventPoints;
      hide EventState;
      hide LineState;
      hide ScanOf;
      ghost var s := ScanOf(seen);
      ghost var all := EventPoints(seen, stamps);
      EventPointsSnoc(seen, stamps, value, at);
      FeedSnoc(seen, value);
      seen, stamps := seen + [value], stamps + [at];
      if afterCR {
        afterCR := false;
        if value == '\n' {
          return;
        }
      }
      if value == '\r' || value == '\n' {
        EndLine(offset, at, s, all);
        afterCR := value == '\r';
      } else {
        DataByte(value, s);
      }
    }

    method Observe(data: Bytes, baseOffset: nat, at: int)
      requires Valid() && baseOffset == |seen|
      modifies this
      ensures Valid() && seen == old(seen) + data
      ensures |stamps| == |old(stamps)| + |data| && old(stamps) <= stamps
      ensures forall i :: |old(stamps)| <= i < |stamps| ==> stamps[i] == at
    {
      hide EventPoints;
      for index := 0 to |data|
        invariant Valid() && seen == old(seen) + data[..index]
        invariant |stamps| == |old(stamps)| + index && old(stamps) <= stamps
        invariant forall i :: |old(stamps)| <= i < |stamps| ==> stamps[i] == at
      {
        ObserveByte(data[index], baseOffset + index + 1, at);
        assert data[..index + 1] == data[..index] + [data[index]];
      }
      assert data[..|data|] == data;
    }
  }

  // ----- What that means for the stored body -----

  lemma TailIsNoEvent(matcher: Bytes -> bool, s: Scan)
    ensures EventEnds(AllLines(s)) == EventEnds(s.ended)
    ensures TerminalDispatched(matcher, AllLines(s)) <==> TerminalDispatched(matcher, s.ended)
  {
    if s.open != [] {
      DispatchedAfterLine(matcher, s.ended, s.open);
      assert EventEnds(s.ended + [s.open]) == EventEnds(s.ended);
    }
  }

  /** Whatever the reads, the machine agrees with the batch splitter on the whole body: the
      number of events is the number of empty lines right after a non-empty one, and the
      terminal event was seen exactly when a matching line of at most 48 bytes has an empty
      line after it. */
  lemma ProbeAgreesWithLines(probe: Probe)
    requires probe.Valid()
    ensures probe.events == |EventEnds(Lines(probe.seen))|
    ensures probe.terminalSeen <==> TerminalDispatched(probe.matcher, Lines(probe.seen))
  {
    ScanIsLines(probe.seen);
    TailIsNoEvent(probe.matcher, ScanOf(probe.seen));
  }

  ghost predicate Monotone(stamps: seq<int>) {
    forall i, j :: 0 <= i <= j < |stamps| ==> stamps[i] <= stamps[j]
  }

  /** Points inside a body, at strictly growing offsets, each carrying the clock value of
      its last byte. */
  ghost predicate Placed(p: seq<Point>, stamps: seq<int>) {
    && (forall i :: 0 <= i < |p| ==> 0 < p[i].offset <= |stamps| && p[i].at == stamps[p[i].offset - 1])
    && (forall i, j :: 0 <= i < j < |p| ==> p[i].offset < p[j].offset)
  }

  lemma {:induction false} EventPointsPlaced(data: Bytes, stamps: seq<int>)
    requires |stamps| == |data|
    ensures Placed(EventPoints(data, stamps), stamps)
    decreases |data|
  {
    if data != [] {
      var n := |data| - 1;
      EventPointsPlaced(data[..n], stamps[..n]);
      assert data == data[..n] + [data[n]] && stamps == stamps[..n] + [stamps[n]];
      EventPointsSnoc(data[..n], stamps[..n], data[n], stamps[n]);
    }
  }

  /** Every point is where the lines of the body so far count one event more: with the byte before
      it they do, without that byte not yet. */
  lemma {:induction false} EventPointsExactly(data: Bytes, stamps: seq<int>, k: nat)
    requires |stamps| == |data| && k < |EventPoints(data, stamps)|
    ensures var offset := EventPoints(data, stamps)[k].offset;
      0 < offset <= |data| && |EventEnds(Lines(data[..offset]))| == k + 1 && |EventEnds(Lines(data[..offset - 1]))| == k
    decreases |data|
  {
    hide EventEnds;
    hide Lines;
    var n := |data| - 1;
    var before, all := EventPoints(data[..n], stamps[..n]), EventPoints(data, stamps);
    assert data == data[..n] + [data[n]] && stamps == stamps[..n] + [stamps[n]];
    EventPointsSnoc(data[..n], stamps[..n], data[n], stamps[n]);
    if k < |before| {
      EventPointsExactly(data[..n], stamps[..n], k);
      var offset := before[k].offset;
      assert all[k] == before[k];
      assert data[..n][..offset] == data[..offset] && data[..n][..offset - 1] == data[..offset - 1];
    } else {
      EventsAreLines(data);
      EventsAreLines(data[..n]);
      assert all[k] == Point(n + 1, stamps[n]) && data[..n + 1] == data;
    }
  }

  lemma EventsAreLines(data: Bytes)
    ensures |EventEnds(ScanOf(data).ended)| == |EventEnds(Lines(data))|
  {
    ScanIsLines(data);
    TailIsNoEvent(_ => false, ScanOf(data));
  }
}
