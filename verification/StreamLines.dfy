/**
 Server-sent-event lines. A byte string is a string of one char per byte. Lines end with
 LF, CRLF or CR (section 9.2.5 of the WHATWG HTML Living Standard); the terminator is not
 part of the line, and a non-empty unterminated tail counts as a line.
 */
module StreamLines {
  import opened Words

  predicate IsTerminator(c: char) {
    c == '\r' || c == '\n'
  }

  ghost predicate OneLine(s: Bytes) {
    forall i :: 0 <= i < |s| ==> !IsTerminator(s[i])
  }

  /** The length of the line terminator that starts at index i. */
  function TerminatorLength(s: Bytes, i: nat): (n: nat)
    requires i < |s| && IsTerminator(s[i])
    ensures 1 <= n <= 2 && i + n <= |s|
  {
    if s[i] == '\r' && i + 1 < |s| && s[i + 1] == '\n' then 2 else 1
  }

  /** The index of the first terminator, or |s|. */
  ghost function LineEnd(s: Bytes): (i: nat)
    ensures i <= |s| && OneLine(s[..i]) && (i < |s| ==> IsTerminator(s[i]))
  {
    if s == [] || IsTerminator(s[0]) then 0 else
      var i := 1 + LineEnd(s[1..]);
      assert s[1..][..i - 1] == s[1..i];
      assert forall k :: 1 <= k < i ==> s[k] == s[1..i][k - 1];
      i
  }

  /** The lines of a whole body: the reference definition. */
  ghost function Lines(s: Bytes): seq<Bytes>
    decreases |s|
  {
    var i := LineEnd(s);
    if i == |s| then
      if s == [] then [] else [s]
    else
      [s[..i]] + Lines(s[i + TerminatorLength(s, i)..])
  }

  lemma LineEndUnique(s: Bytes, i: nat)
    requires i <= |s| && OneLine(s[..i]) && (i < |s| ==> IsTerminator(s[i]))
    ensures LineEnd(s) == i
  {
    var j := LineEnd(s);
    assert forall k :: 0 <= k < j ==> s[..j][k] == s[k];
    assert forall k :: 0 <= k < i ==> s[..i][k] == s[k];
  }

  lemma LinesStep(data: Bytes, start: nat, index: nat)
    requires start <= index < |data| && OneLine(data[start..index]) && IsTerminator(data[index])
    ensures Lines(data[start..]) ==
            [data[start..index]] + Lines(data[index + TerminatorLength(data, index)..])
  {
    var rest, i := data[start..], index - start;
    assert rest[..i] == data[start..index];
    LineEndUnique(rest, i);
    var n := TerminatorLength(rest, i);
    assert rest[i + n..] == data[index + n..];
  }

  lemma LinesTail(tail: Bytes)
    requires OneLine(tail)
    ensures Lines(tail) == if tail == [] then [] else [tail]
  {
    assert tail[..|tail|] == tail;
    LineEndUnique(tail, |tail|);
  }

  predicate Unbroken(line: Bytes) {
    '\r' !in line && '\n' !in line
  }

  /** Each of the three terminators ends a line, a CR before an LF only together with it; what is
      left over at the end is a line unless it is empty. */
  lemma LinesExactly(line: Bytes, rest: Bytes)
    requires Unbroken(line)
    ensures Lines(line) == if line == [] then [] else [line]
    ensures Lines(line + "\n" + rest) == [line] + Lines(rest)
    ensures Lines(line + "\r\n" + rest) == [line] + Lines(rest)
    ensures (rest == [] || rest[0] != '\n') ==> Lines(line + "\r" + rest) == [line] + Lines(rest)
  {
    hide Lines;
    LinesTail(line);
    EndedBy(line, "\n", rest);
    EndedBy(line, "\r\n", rest);
    if rest == [] || rest[0] != '\n' {
      EndedBy(line, "\r", rest);
    }
  }

  lemma EndedBy(line: Bytes, end: Bytes, rest: Bytes)
    requires Unbroken(line) && (end == "\n" || end == "\r\n" || (end == "\r" && (rest == [] || rest[0] != '\n')))
    ensures Lines(line + end + rest) == [line] + Lines(rest)
  {
    hide Lines;
    var s, n := line + end + rest, |line|;
    assert s[0..n] == line && s[n] == end[0] && s[n + |end|..] == rest && s[0..] == s;
    assert |end| > 1 ==> s[n + 1] == '\n';
    assert |end| == 1 && rest != [] ==> s[n + 1] == rest[0];
    LinesStep(s, 0, n);
    assert TerminatorLength(s, n) == |end|;
  }

  /** splitSSELines: one forward scan with a start index. */
  method SplitLines(data: Bytes) returns (lines: seq<Bytes>)
    ensures lines == Lines(data)
  {
    hide Lines;
    lines := [];
    var start, index := 0, 0;
    assert data[0..] == data;
    while index < |data|
      invariant 0 <= start <= index <= |data|
      invariant OneLine(data[start..index])
      invariant lines + Lines(data[start..]) == Lines(data)
      decreases |data| - index
    {
      if IsTerminator(data[index]) {
        LinesStep(data, start, index);
        lines := lines + [data[start..index]];
        if data[index] == '\r' && index + 1 < |data| && data[index + 1] == '\n' {
          index := index + 1;
        }
        start := index + 1;
      } else {
        assert data[start..index + 1] == data[start..index] + [data[index]];
      }
      index := index + 1;
    }
    assert data[start..] == data[start..index];
    LinesTail(data[start..]);
    if start < |data| {
      lines := lines + [data[start..]];
    }
  }

  // ----- The same lines, one byte at a time -----

  /** Lines ended so far, the bytes of the open line, and whether a lone LF is to be skipped. */
  datatype Scan = Scan(ended: seq<Bytes>, open: Bytes, afterCR: bool)

  function Feed(s: Scan, c: char): Scan {
    if s.afterCR && c == '\n' then s.(afterCR := false)
    else if IsTerminator(c) then Scan(s.ended + [s.open], [], c == '\r')
    else Scan(s.ended, s.open + [c], false)
  }

  function FeedAll(s: Scan, data: Bytes): Scan
    decreases data
  {
    if data == [] then s else FeedAll(Feed(s, data[0]), data[1..])
  }

  const START_SCAN := Scan([], [], false)

  function ScanOf(data: Bytes): Scan {
    FeedAll(START_SCAN, data)
  }

  /** Scanning does not depend on how the bytes are split across reads. */
  lemma {:induction false} FeedAllConcat(s: Scan, a: Bytes, b: Bytes)
    ensures FeedAll(s, a + b) == FeedAll(FeedAll(s, a), b)
    decreases a
  {
    if a == [] {
      assert a + b == b;
    } else {
      assert (a + b)[0] == a[0] && (a + b)[1..] == a[1..] + b;
      FeedAllConcat(Feed(s, a[0]), a[1..], b);
    }
  }

  lemma FeedSnoc(data: Bytes, c: char)
    ensures ScanOf(data + [c]) == Feed(ScanOf(data), c)
  {
    FeedAllConcat(START_SCAN, data, [c]);
    assert [c][1..] == [];
  }

  /** The lines a scan has seen, the open line included when it has bytes. */
  function AllLines(s: Scan): seq<Bytes> {
    if s.open == [] then s.ended else s.ended + [s.open]
  }

  lemma {:induction false} FeedOneLine(s: Scan, line: Bytes)
    requires OneLine(line)
    ensures FeedAll(s, line) == Scan(s.ended, s.open + line, s.afterCR && line == [])
    decreases line
  {
    if line == [] {
      assert s.open + line == s.open;
    } else {
      assert s.open + [line[0]] + line[1..] == s.open + line;
      FeedOneLine(Feed(s, line[0]), line[1..]);
    }
  }

  /** Where a scan's ended lines come from does not matter for what follows. */
  lemma {:induction false} FeedAllPrefix(done: seq<Bytes>, s: Scan, data: Bytes)
    ensures FeedAll(Scan(done + s.ended, s.open, s.afterCR), data) ==
            (var r := FeedAll(s, data); Scan(done + r.ended, r.open, r.afterCR))
    decreases data
  {
    if data != [] {
      var t := Feed(s, data[0]);
      assert done + s.ended + [s.open] == done + (s.ended + [s.open]);
      FeedAllPrefix(done, t, data[1..]);
    }
  }

  /** The incremental scan ends up with exactly the lines of the batch splitter. */
  lemma {:induction false} ScanIsLines(data: Bytes)
    ensures AllLines(ScanOf(data)) == Lines(data)
    decreases |data|
  {
    var i := LineEnd(data);
    if i == |data| {
      assert data[..i] == data;
      FeedOneLine(START_SCAN, data);
      assert [] + data == data;
    } else {
      var n := TerminatorLength(data, i);
      var line, rest := data[..i], data[i + n..];
      ScanPastLine(data, i);
      FeedAllPrefix([line], START_SCAN, rest);
      assert [line] + [] == [line];
      ScanIsLines(rest);
      var r := ScanOf(rest);
      assert [line] + r.ended + [r.open] == [line] + (r.ended + [r.open]);
    }
  }

  /** After the first line and its terminator the scan restarts, one line richer. A CR at
      the very end leaves the skip flag set, which no further byte can observe there. */
  lemma ScanPastLine(data: Bytes, i: nat)
    requires i < |data| && OneLine(data[..i]) && IsTerminator(data[i])
    ensures var n := TerminatorLength(data, i);
            AllLines(ScanOf(data)) == AllLines(FeedAll(Scan([data[..i]], [], false), data[i + n..]))
  {
    var n := TerminatorLength(data, i);
    var line, rest := data[..i], data[i + n..];
    FeedOneLine(START_SCAN, line);
    assert [] + line == line;
    var ended := Scan([line], [], data[i] == '\r');
    assert data == line + data[i..];
    FeedAllConcat(START_SCAN, line, data[i..]);
    assert data[i..][0] == data[i] && data[i..][1..] == data[i + 1..];
    assert Feed(Scan([], line, false), data[i]) == ended by {
      assert [] + [line] == [line];
    }
    assert ScanOf(data) == FeedAll(ended, data[i + 1..]);
    if n == 2 {
      assert data[i + 1..][1..] == rest;
    } else if rest != [] {
      assert Feed(ended, rest[0]) == Feed(Scan([line], [], false), rest[0]);
    }
  }
}
