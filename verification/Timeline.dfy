/**
 The stored form of a stream timeline: a version byte, a point count, and for every point
 the growth of its offset and of its time, all as unsigned variable-length integers of
 seven bits a byte. Bytes are chars below 256; 64-bit wrap-around is written out.
 */
module Timeline {
  import opened Words
  import opened Wrappers

  const VERSION: int := 1

  /** An event's end: one past its last byte, and when that byte was read. */
  datatype Point = Point(offset: int, at: int)

  predicate Int64Points(points: seq<Point>) {
    forall i :: 0 <= i < |points| ==> IsInt64(points[i].offset) && IsInt64(points[i].at)
  }

  // ----- Variable-length integers -----

  function PutUvarint(v: nat): (r: Bytes)
    ensures r != []
  {
    if v < 128 then [v as char] else [(v % 128 + 128) as char] + PutUvarint(v / 128)
  }

  /** Read one integer from the byte at position i of its encoding on; the tenth byte may
      only carry the last bit of 64. */
  function ReadUvarint(buf: Bytes, i: nat): (r: Option<(nat, Bytes)>)
    ensures r.Some? ==> |r.value.1| < |buf|
  {
    if buf == [] || i >= 10 then None
    else if buf[0] as int < 128 then
      if i == 9 && buf[0] as int > 1 then None else Some((buf[0] as int, buf[1..]))
    else
      match ReadUvarint(buf[1..], i + 1)
      case None => None
      case Some((high, rest)) => Some((buf[0] as int % 128 + 128 * high, rest))
  }

  /** Seven bits a byte, the lowest first. */
  function SevenBits(bytes: Bytes): nat {
    if bytes == [] then 0 else bytes[0] as int % 128 + 128 * SevenBits(bytes[1..])
  }

  /** A written integer says its value in groups of seven bits, and every byte but the last says
      that more follow. */
  lemma {:induction false} UvarintExactly(v: nat)
    ensures SevenBits(PutUvarint(v)) == v
    ensures forall i :: 0 <= i < |PutUvarint(v)| ==>
      (PutUvarint(v)[i] as int >= 128 <==> i < |PutUvarint(v)| - 1) && PutUvarint(v)[i] as int < 256
  {
    if v >= 128 {
      UvarintExactly(v / 128);
      var rest := PutUvarint(v / 128);
      assert PutUvarint(v)[1..] == rest;
      forall i | 0 < i < |PutUvarint(v)| ensures PutUvarint(v)[i] == rest[i - 1] {
      }
    }
  }

  /** One more than the largest value that still fits when i bytes are already used. */
  ghost function Capacity(i: nat): nat
    requires i <= 9
    decreases 9 - i
  {
    if i == 9 then 2 else 128 * Capacity(i + 1)
  }

  lemma FullCapacity()
    ensures Capacity(0) == TWO_64
  {
    assert Capacity(8) == 256;
    assert Capacity(6) == 0x40_0000;
    assert Capacity(4) == 0x10_0000_0000;
    assert Capacity(2) == 0x4_0000_0000_0000;
  }

  lemma {:induction false} UvarintRoundTrip(v: nat, rest: Bytes, i: nat)
    requires i <= 9 && v < Capacity(i)
    ensures ReadUvarint(PutUvarint(v) + rest, i) == Some((v, rest))
    decreases v
  {
    var buf := PutUvarint(v) + rest;
    if v < 128 {
      assert buf[1..] == rest;
    } else {
      assert buf[1..] == PutUvarint(v / 128) + rest;
      UvarintRoundTrip(v / 128, rest, i + 1);
    }
  }

  /** Bytes that say a value as the bytes from position i on of an integer of at most 64 bits. */
  ghost predicate Says(bytes: Bytes, i: nat, v: nat) {
    && 0 < |bytes| <= 10 - i && (|bytes| == 10 - i ==> bytes[|bytes| - 1] as int <= 1)
    && (forall k :: 0 <= k < |bytes| ==> (bytes[k] as int >= 128 <==> k < |bytes| - 1))
    && SevenBits(bytes) == v
  }

  /** An integer is read exactly where its bytes end. */
  lemma ReadExactly(buf: Bytes, i: nat, v: nat, rest: Bytes)
    ensures ReadUvarint(buf, i) == Some((v, rest)) <==>
      exists n :: 0 < n <= |buf| && buf[n..] == rest && Says(buf[..n], i, v)
  {
    if n :| 0 < n <= |buf| && buf[n..] == rest && Says(buf[..n], i, v) {
      SaysIsRead(buf, i, v, n);
    }
    if ReadUvarint(buf, i) == Some((v, rest)) {
      var n := ReadIsSaid(buf, i);
    }
  }

  lemma {:induction false} SaysIsRead(buf: Bytes, i: nat, v: nat, n: nat)
    requires n <= |buf| && Says(buf[..n], i, v)
    ensures ReadUvarint(buf, i) == Some((v, buf[n..]))
    decreases |buf|
  {
    var bytes := buf[..n];
    assert bytes[0] == buf[0];
    if n > 1 {
      var more := buf[1..][..n - 1];
      assert bytes[1..] == more && forall k :: 0 <= k < n - 1 ==> more[k] == bytes[k + 1];
      SaysIsRead(buf[1..], i + 1, SevenBits(more), n - 1);
      assert buf[1..][n - 1..] == buf[n..];
    } else {
      assert bytes[1..] == [] && SevenBits(bytes) == bytes[0] as int % 128;
    }
  }

  lemma {:induction false} ReadIsSaid(buf: Bytes, i: nat) returns (n: nat)
    requires ReadUvarint(buf, i).Some?
    ensures var (v, rest) := ReadUvarint(buf, i).value;
      0 < n <= |buf| && buf[n..] == rest && Says(buf[..n], i, v)
    decreases |buf|
  {
    if buf[0] as int < 128 {
      n := 1;
      assert buf[..1][1..] == [];
    } else {
      n := ReadIsSaid(buf[1..], i + 1);
      var more, bytes := buf[1..][..n], buf[..n + 1];
      assert bytes[1..] == more && forall k :: 0 < k <= n ==> bytes[k] == more[k - 1];
      assert buf[1..][n..] == buf[n + 1..];
      n := n + 1;
    }
  }

  // ----- Points -----

  /** What the encoder accepts: growing offsets from 1 on, positive times that never fall. */
  ghost predicate Ordered(points: seq<Point>, offset: int, at: int) {
    points == [] ||
    (points[0].offset > offset && points[0].at > 0 && points[0].at >= at &&
     Ordered(points[1..], points[0].offset, points[0].at))
  }

  /** The bytes of the points, given the offset and time before the first. */
  ghost function PointBytes(points: seq<Point>, offset: int, at: int): Bytes
    requires Ordered(points, offset, at)
  {
    if points == [] then []
    else
      PutUvarint(points[0].offset - offset) + PutUvarint(points[0].at - at) +
      PointBytes(points[1..], points[0].offset, points[0].at)
  }

  ghost function Encoding(points: seq<Point>): Bytes
    requires Ordered(points, 0, 0)
  {
    [VERSION as char] + PutUvarint(|points|) + PointBytes(points, 0, 0)
  }

  method Encode(points: seq<Point>) returns (r: Option<Bytes>)
    ensures r.Some? <==> Ordered(points, 0, 0)
    ensures r.Some? ==> r.value == Encoding(points)
  {
    hide PutUvarint;
    var result := [VERSION as char] + PutUvarint(|points|);
    ghost var head := result;
    var offset, at := 0, 0;
    var index := 0;
    assert points[0..] == points;
    while index < |points|
      invariant 0 <= index <= |points| && at >= 0 && (index == 0 ==> at == 0)
      invariant Ordered(points[index..], offset, at) <==> Ordered(points, 0, 0)
      invariant Ordered(points, 0, 0) ==>
        result + PointBytes(points[index..], offset, at) == head + PointBytes(points, 0, 0)
    {
      ghost var rest := points[index..];
      assert rest[0] == points[index] && rest[1..] == points[index + 1..];
      var p := points[index];
      if p.offset <= offset || p.at <= 0 || (index > 0 && p.at < at) {
        return None;
      }
      result := result + PutUvarint(p.offset - offset);
      result := result + PutUvarint(if index == 0 then p.at else p.at - at);
      offset, at, index := p.offset, p.at, index + 1;
    }
    assert points[index..] == [];
    assert result + [] == result;
    return Some(result);
  }

  /** Decode one point after the given one; offsets and times wrap as int64 do. */
  function DecodePoint(buf: Bytes, offset: int, at: int, first: bool): Option<(Point, Bytes)> {
    match ReadUvarint(buf, 0)
    case None => None
    case Some((dOffset, buf1)) =>
      if dOffset == 0 then None else
      match ReadUvarint(buf1, 0)
      case None => None
      case Some((dAt, buf2)) =>
        var p := Point(Wrap(offset + Wrap(dOffset)), if first then Wrap(dAt) else Wrap(at + Wrap(dAt)));
        if p.at <= 0 || (!first && p.at < at) then None else Some((p, buf2))
  }

  ghost function DecodePoints(buf: Bytes, count: nat, offset: int, at: int, first: bool): Option<seq<Point>>
    decreases count
  {
    if count == 0 then
      if buf == [] then Some([]) else None
    else
      match DecodePoint(buf, offset, at, first)
      case None => None
      case Some((p, rest)) =>
        match DecodePoints(rest, count - 1, p.offset, p.at, false)
        case None => None
        case Some(points) => Some([p] + points)
  }

  ghost function Decoding(encoded: Bytes, maximum: int): Option<seq<Point>> {
    if encoded == [] || encoded[0] as int != VERSION || maximum < 0 then None
    else
      match ReadUvarint(encoded[1..], 0)
      case None => None
      case Some((count, rest)) => if count > maximum then None else DecodePoints(rest, count, 0, 0, true)
  }

  method Decode(encoded: Bytes, maximum: int) returns (r: Option<seq<Point>>)
    ensures r == Decoding(encoded, maximum)
  {
    hide ReadUvarint;
    hide DecodePoint;
    if encoded == [] || encoded[0] as int != VERSION || maximum < 0 {
      return None;
    }
    var head := ReadUvarint(encoded[1..], 0);
    if head == None || head.value.0 > maximum {
      return None;
    }
    var (count, buf) := head.value;
    var points: seq<Point> := [];
    var offset, at := 0, 0;
    var index := 0;
    ghost var goal := DecodePoints(buf, count, 0, 0, true);
    assert goal.Some? ==> [] + goal.value == goal.value;
    while index < count
      invariant 0 <= index <= count
      invariant goal == Prepend(points, DecodePoints(buf, count - index, offset, at, index == 0))
    {
      var next := DecodePoint(buf, offset, at, index == 0);
      if next == None {
        return None;
      }
      var (p, rest) := next.value;
      ghost var d := DecodePoints(rest, count - index - 1, p.offset, p.at, false);
      assert d.Some? ==> points + ([p] + d.value) == points + [p] + d.value;
      points := points + [p];
      buf, offset, at, index := rest, p.offset, p.at, index + 1;
    }
    if buf != [] {
      return None;
    }
    assert points + [] == points;
    return Some(points);
  }

  ghost function Prepend(points: seq<Point>, d: Option<seq<Point>>): Option<seq<Point>> {
    if d.None? then None else Some(points + d.value)
  }

  lemma PointRoundTrip(p: Point, offset: int, at: int, first: bool, tail: Bytes)
    requires 0 <= offset < p.offset < TWO_63 && 0 <= at <= p.at < TWO_63
    requires p.at > 0 && (first ==> at == 0)
    ensures DecodePoint(PutUvarint(p.offset - offset) + (PutUvarint(p.at - at) + tail), offset, at, first) ==
            Some((p, tail))
  {
    hide ReadUvarint;
    hide PutUvarint;
    hide Wrap;
    WrapSmall(p.offset);
    WrapSmall(p.offset - offset);
    WrapSmall(p.at);
    WrapSmall(p.at - at);
    FullCapacity();
    UvarintRoundTrip(p.offset - offset, PutUvarint(p.at - at) + tail, 0);
    UvarintRoundTrip(p.at - at, tail, 0);
  }

  lemma {:induction false} PointsRoundTrip(points: seq<Point>, offset: int, at: int, first: bool)
    requires Ordered(points, offset, at) && Int64Points(points)
    requires 0 <= offset < TWO_63 && 0 <= at < TWO_63 && (first ==> at == 0)
    ensures DecodePoints(PointBytes(points, offset, at), |points|, offset, at, first) == Some(points)
    decreases |points|
  {
    hide DecodePoint;
    hide PutUvarint;
    if points != [] {
      var p, tail := points[0], PointBytes(points[1..], points[0].offset, points[0].at);
      assert PointBytes(points, offset, at) == PutUvarint(p.offset - offset) + (PutUvarint(p.at - at) + tail);
      PointRoundTrip(p, offset, at, first, tail);
      PointsRoundTrip(points[1..], p.offset, p.at, false);
      assert [p] + points[1..] == points;
    }
  }

  /** What the encoder writes, the decoder reads back, up to the caller's point limit. */
  lemma RoundTrip(points: seq<Point>, maximum: int)
    requires Ordered(points, 0, 0) && Int64Points(points) && |points| < TWO_63
    ensures Decoding(Encoding(points), maximum) == if |points| <= maximum then Some(points) else None
  {
    hide ReadUvarint;
    hide PutUvarint;
    hide DecodePoints;
    hide PointBytes;
    var body := PointBytes(points, 0, 0);
    var e := Encoding(points);
    assert e[1..] == PutUvarint(|points|) + body;
    FullCapacity();
    UvarintRoundTrip(|points|, body, 0);
    PointsRoundTrip(points, 0, 0, true);
  }

  /** Ordered, stated pointwise. */
  lemma {:induction false} OrderedPointwise(points: seq<Point>, offset: int, at: int)
    requires forall i :: 0 <= i < |points| ==> points[i].offset > offset && points[i].at > 0 && points[i].at >= at
    requires forall i, j :: 0 <= i < j < |points| ==>
      points[i].offset < points[j].offset && points[i].at <= points[j].at
    ensures Ordered(points, offset, at)
    decreases |points|
  {
    if points != [] {
      OrderedPointwise(points[1..], points[0].offset, points[0].at);
    }
  }

  /** Whatever decodes is within the limit, with positive times that never fall. */
  lemma {:induction false} DecodedInOrder(buf: Bytes, count: nat, offset: int, at: int, first: bool)
    requires DecodePoints(buf, count, offset, at, first).Some?
    ensures var points := DecodePoints(buf, count, offset, at, first).value;
      && |points| == count
      && (forall i :: 0 <= i < |points| ==> points[i].at > 0 && (first || points[i].at >= at))
      && forall i, j :: 0 <= i < j < |points| ==> points[i].at <= points[j].at
    decreases count
  {
    hide ReadUvarint;
    hide Wrap;
    if count > 0 {
      var (p, rest) := DecodePoint(buf, offset, at, first).value;
      DecodedInOrder(rest, count - 1, p.offset, p.at, false);
    }
  }

  lemma {:induction false} ReadThenMore(buf: Bytes, i: nat, more: Bytes)
    requires ReadUvarint(buf, i).Some?
    ensures var (v, rest) := ReadUvarint(buf, i).value; ReadUvarint(buf + more, i) == Some((v, rest + more))
    decreases |buf|
  {
    var all := buf + more;
    assert all[0] == buf[0] && all[1..] == buf[1..] + more;
    if buf[0] as int >= 128 {
      ReadThenMore(buf[1..], i + 1, more);
    }
  }

  lemma PointThenMore(buf: Bytes, offset: int, at: int, first: bool, more: Bytes)
    requires DecodePoint(buf, offset, at, first).Some?
    ensures var (p, rest) := DecodePoint(buf, offset, at, first).value;
      DecodePoint(buf + more, offset, at, first) == Some((p, rest + more))
  {
    hide ReadUvarint;
    hide Wrap;
    ReadThenMore(buf, 0, more);
    ReadThenMore(ReadUvarint(buf, 0).value.1, 0, more);
  }

  lemma {:induction false} PointsThenMore(buf: Bytes, count: nat, offset: int, at: int, first: bool, more: Bytes)
    requires DecodePoints(buf, count, offset, at, first).Some? && more != []
    ensures DecodePoints(buf + more, count, offset, at, first) == None
    decreases count
  {
    hide DecodePoint;
    if count > 0 {
      var (p, rest) := DecodePoint(buf, offset, at, first).value;
      PointThenMore(buf, offset, at, first, more);
      PointsThenMore(rest, count - 1, p.offset, p.at, false, more);
    }
  }

  /** What decodes is of the current version and in order, and neither with anything appended nor
      with anything cut off does it decode to something else. */
  lemma DecodedExactly(encoded: Bytes, maximum: int)
    requires Decoding(encoded, maximum).Some?
    ensures var points := Decoding(encoded, maximum).value;
      && encoded[0] as int == 1 && |points| <= maximum
      && (forall i :: 0 <= i < |points| ==> points[i].at > 0)
      && forall i, j :: 0 <= i < j < |points| ==> points[i].at <= points[j].at
    ensures forall more :: more != [] ==> Decoding(encoded + more, maximum) == None
    ensures forall n :: 0 <= n < |encoded| ==> Decoding(encoded[..n], maximum) == None
  {
    hide ReadUvarint;
    hide DecodePoints;
    var (count, rest) := ReadUvarint(encoded[1..], 0).value;
    DecodedInOrder(rest, count, 0, 0, true);
    forall more | more != [] ensures Decoding(encoded + more, maximum) == None {
      NothingTrails(encoded, maximum, more);
    }
    forall n | 0 <= n < |encoded| ensures Decoding(encoded[..n], maximum) == None {
      assert encoded[..n] + encoded[n..] == encoded;
      if Decoding(encoded[..n], maximum).Some? {
        NothingTrails(encoded[..n], maximum, encoded[n..]);
      }
    }
  }

  lemma NothingTrails(encoded: Bytes, maximum: int, more: Bytes)
    requires Decoding(encoded, maximum).Some? && more != []
    ensures Decoding(encoded + more, maximum) == None
  {
    hide ReadUvarint;
    hide DecodePoints;
    var (count, rest) := ReadUvarint(encoded[1..], 0).value;
    assert (encoded + more)[1..] == encoded[1..] + more;
    ReadThenMore(encoded[1..], 0, more);
    PointsThenMore(rest, count, 0, 0, true, more);
  }
}
