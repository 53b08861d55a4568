/**
 Sealing the timeline of a captured stream, and the checks the query side makes before it
 shows one. Compression and encryption round-trip and are not modelled.
 */
module TimelineQuery {
  import opened Words
  import opened Wrappers
  import opened Timeline
  import opened StreamProbe
  import opened StreamLines

  const MAX_TIMELINE_POINTS: int := 100_000

  /** The stored row. A zero time is stored as absent. */
  datatype StoredTimeline = StoredTimeline(
    eventCount: int, firstEventAt: Option<int>, lastEventAt: Option<int>,
    complete: bool, plaintextLength: int, data: Bytes, observedLength: int)

  function OptionalInt(value: int): Option<int> {
    if value == 0 then None else Some(value)
  }

  datatype Sealed = NoTimeline | EncodeFailed | Sealed(row: StoredTimeline)

  /** Seal the timeline of a finished body. */
  method SealTimeline(probe: Probe, observedLength: int) returns (r: Sealed)
    requires probe.Valid()
    ensures probe.events == 0 <==> r.NoTimeline?
    ensures r.EncodeFailed? <==> probe.events > 0 && !Ordered(probe.points, 0, 0)
    ensures r.Sealed? ==>
      && r.row.data == Encoding(probe.points) && r.row.plaintextLength == |r.row.data|
      && r.row.eventCount == probe.events && r.row.observedLength == observedLength
      && r.row.firstEventAt == OptionalInt(probe.firstEventAt)
      && r.row.lastEventAt == OptionalInt(probe.lastEventAt)
      && (r.row.complete <==> probe.complete && !probe.hasData && !probe.lineData && |probe.points| == probe.events)
  {
    if probe.events == 0 {
      return NoTimeline;
    }
    var complete := probe.complete && !probe.hasData && !probe.lineData && |probe.points| == probe.events;
    var encoded := Encode(probe.points);
    match encoded
    case None => return EncodeFailed;
    case Some(bytes) =>
      return Sealed(StoredTimeline(probe.events, OptionalInt(probe.firstEventAt), OptionalInt(probe.lastEventAt),
                                   complete, |bytes|, bytes, observedLength));
  }

  /** The query side's checks on the decoded points, in order. */
  ghost predicate Accepts(stored: StoredTimeline, points: seq<Point>) {
    && !(points == [] || |points| > MAX_TIMELINE_POINTS || |points| > stored.eventCount)
    && !(stored.complete && (stored.eventCount > MAX_TIMELINE_POINTS || |points| != stored.eventCount))
    && !(!stored.complete && stored.eventCount > |points| && |points| != MAX_TIMELINE_POINTS)
    && stored.firstEventAt.Some? && stored.lastEventAt.Some?
    && points[0].at == stored.firstEventAt.value
    && points[|points| - 1].at <= stored.lastEventAt.value
    && points[|points| - 1].offset <= stored.observedLength
    && (stored.complete ==> points[|points| - 1].at == stored.lastEventAt.value)
  }

  /** Reading a stored timeline back: None is the integrity error. */
  method QueryTimeline(stored: StoredTimeline) returns (r: Option<seq<Point>>)
    ensures r.Some? <==>
      && stored.eventCount > 0 && stored.plaintextLength > 0 && stored.data != []
      && Decoding(stored.data, MAX_TIMELINE_POINTS).Some?
      && Accepts(stored, Decoding(stored.data, MAX_TIMELINE_POINTS).value)
    ensures r.Some? ==> r == Decoding(stored.data, MAX_TIMELINE_POINTS)
  {
    if stored.eventCount <= 0 || stored.plaintextLength <= 0 || stored.data == [] {
      return None;
    }
    var decoded := Decode(stored.data, MAX_TIMELINE_POINTS);
    if decoded == None {
      return None;
    }
    var points := decoded.value;
    if points == [] || |points| > MAX_TIMELINE_POINTS || |points| > stored.eventCount {
      return None;
    }
    if stored.complete && (stored.eventCount > MAX_TIMELINE_POINTS || |points| != stored.eventCount) {
      return None;
    }
    if !stored.complete && stored.eventCount > |points| && |points| != MAX_TIMELINE_POINTS {
      return None;
    }
    if stored.firstEventAt == None || stored.lastEventAt == None ||
       points[0].at != stored.firstEventAt.value || points[|points| - 1].at > stored.lastEventAt.value ||
       points[|points| - 1].offset > stored.observedLength {
      return None;
    }
    if stored.complete && points[|points| - 1].at != stored.lastEventAt.value {
      return None;
    }
    var result: seq<Point> := [];
    for i := 0 to |points|
      invariant result == points[..i]
    {
      result := result + [points[i]];
    }
    assert points[..|points|] == points;
    return Some(result);
  }

  ghost predicate Rising(points: seq<Point>) {
    forall i, j :: 0 <= i < j < |points| ==> points[i].at <= points[j].at
  }

  /** The points of all events, of which the row counts every one and keeps the first 100,000, with
      the times of the first and the last; the latter may be missed by an incomplete capture. */
  ghost predicate Summarizes(stored: StoredTimeline, points: seq<Point>, all: seq<Point>) {
    && all != [] && Rising(all) && |all| == stored.eventCount
    && points == (if |all| <= 100_000 then all else all[..100_000])
    && stored.firstEventAt == Some(all[0].at)
    && stored.lastEventAt.Some? && all[|all| - 1].at <= stored.lastEventAt.value
    && points[|points| - 1].offset <= stored.observedLength
    && (stored.complete ==> |all| <= 100_000 && all[|all| - 1].at == stored.lastEventAt.value)
  }

  /** The query side accepts decoded points exactly when they are what the row keeps of some
      events. */
  lemma AcceptsExactly(stored: StoredTimeline, points: seq<Point>)
    requires Rising(points)
    ensures Accepts(stored, points) <==> exists all :: Summarizes(stored, points, all)
  {
    if Accepts(stored, points) {
      var n := |points|;
      var all := points + seq(stored.eventCount - n, _ => points[n - 1]);
      forall i, j | 0 <= i < j < |all| ensures all[i].at <= all[j].at {
        assert i < n ==> all[i] == points[i];
        assert i >= n ==> all[i] == points[n - 1];
        assert j < n ==> all[j] == points[j];
        assert j >= n ==> all[j] == points[n - 1];
      }
      assert all[..n] == points && all[|all| - 1] == points[n - 1];
      assert Summarizes(stored, points, all);
    }
    if all :| Summarizes(stored, points, all) {
      assert points[|points| - 1] == all[|points| - 1];
    }
  }

  /** A clock a capture may have seen: positive, never running backwards, within int64. */
  ghost predicate GoodClock(stamps: seq<int>) {
    Monotone(stamps) && forall i :: 0 <= i < |stamps| ==> 0 < stamps[i] < TWO_63
  }

  /** Points placed on a good clock are ones the encoder accepts. */
  lemma PlacedOrdered(p: seq<Point>, stamps: seq<int>)
    requires Placed(p, stamps) && GoodClock(stamps) && |stamps| < TWO_63
    ensures Ordered(p, 0, 0) && Int64Points(p)
    ensures forall i, j :: 0 <= i <= j < |p| ==> 0 < p[i].at <= p[j].at
  {
    forall i, j | 0 <= i <= j < |p| ensures 0 < p[i].at <= p[j].at && p[i].offset <= p[j].offset {
      assert p[i].at == stamps[p[i].offset - 1] && p[j].at == stamps[p[j].offset - 1];
    }
    OrderedPointwise(p, 0, 0);
  }

  lemma KeptPoints(all: seq<Point>, stamps: seq<int>, max: nat)
    requires Placed(all, stamps) && GoodClock(stamps) && |stamps| < TWO_63 && max > 0
    ensures var kept := if |all| < max then all else all[..max];
      && Ordered(kept, 0, 0) && Int64Points(kept)
      && (forall p :: p in all ==> p.at > 0)
      && (all != [] ==> kept[0] == all[0] && 0 < kept[|kept| - 1].at <= all[|all| - 1].at)
      && (all != [] ==> kept[|kept| - 1].offset <= |stamps|)
  {
    var kept := if |all| < max then all else all[..max];
    PlacedOrdered(all, stamps);
    assert Placed(kept, stamps);
    PlacedOrdered(kept, stamps);
  }

  /** The points a capture keeps: a prefix of all event points, ordered for the encoder,
      with the first and last event times around them. */
  lemma CapturedPoints(probe: Probe)
    requires probe.Valid() && GoodClock(probe.stamps) && |probe.seen| < TWO_63
    ensures Ordered(probe.points, 0, 0) && Int64Points(probe.points)
    ensures |probe.points| == (if probe.events < MAX_EVENTS then probe.events else MAX_EVENTS)
    ensures probe.complete <==> probe.events <= MAX_EVENTS
    ensures probe.events > 0 ==>
      var n := |probe.points|;
      && n > 0 && probe.points[0].at == probe.firstEventAt > 0
      && 0 < probe.points[n - 1].at <= probe.lastEventAt
      && (n == probe.events ==> probe.points[n - 1].at == probe.lastEventAt)
      && probe.points[n - 1].offset <= |probe.seen|
  {
    EventPointsPlaced(probe.seen, probe.stamps);
    KeptPoints(EventPoints(probe.seen, probe.stamps), probe.stamps, MAX_EVENTS);
  }

  /** Every sealed timeline of a capture with a good clock encodes, decodes to exactly the
      points captured, and passes every check of the query side, past the cap included. */
  lemma SealedTimelineAccepted(probe: Probe, row: StoredTimeline)
    requires probe.Valid() && GoodClock(probe.stamps) && |probe.seen| < TWO_63
    requires probe.events > 0
    requires Ordered(probe.points, 0, 0) ==> row.data == Encoding(probe.points)
    requires row.eventCount == probe.events && row.observedLength == |probe.seen|
    requires row.firstEventAt == OptionalInt(probe.firstEventAt)
    requires row.lastEventAt == OptionalInt(probe.lastEventAt)
    requires row.complete <==> probe.complete && !probe.hasData && !probe.lineData && |probe.points| == probe.events
    ensures Ordered(probe.points, 0, 0)
    ensures Decoding(row.data, MAX_TIMELINE_POINTS) == Some(probe.points)
    ensures Accepts(row, probe.points)
  {
    hide Decoding;
    hide Encoding;
    CapturedPoints(probe);
    RoundTrip(probe.points, MAX_TIMELINE_POINTS);
  }

  /** Seal, store, query: the points come back, as a whole run. */
  method SealAndQuery(probe: Probe, observedLength: int) returns (r: Option<seq<Point>>)
    requires observedLength == |probe.seen|
    requires probe.Valid() && GoodClock(probe.stamps) && |probe.seen| < TWO_63
    requires probe.events > 0
    ensures r == Some(probe.points)
  {
    var s := SealTimeline(probe, observedLength);
    CapturedPoints(probe);
    SealedTimelineAccepted(probe, s.row);
    assert s.row.data[0] as int == VERSION;
    r := QueryTimeline(s.row);
  }
}
