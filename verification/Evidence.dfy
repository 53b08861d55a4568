/**
 Reading a captured body back from whatever chunks are left in storage: the parser's paged
 reader and the management console's streaming export. Decryption and decompression of a
 chunk either restore its bytes or fail; which chunks fail is arbitrary.
 */
module Evidence {
  import opened Words
  import opened Wrappers
  import opened StreamLines
  import opened BodyCapture

  const CHUNK_PAGE: nat := 128
  const MAX_ENCODED_BODY: nat := 0x800_0000
  const DIGEST_SIZE: nat := 32

  predicate RowComplete(row: BodyRow) {
    row.state.Complete? && row.hashComplete && row.eofSeen && row.storedLength == row.observedLength
  }

  function PartialCode(row: BodyRow): string {
    if row.errorCode.Some? && row.errorCode.value != "" then row.errorCode.value else "capture_partial"
  }

  /** How the chunk scan ended. */
  datatype Stop = End | Broken | TooLarge

  ghost function Data(table: seq<Chunk>): Bytes {
    if table == [] then [] else Data(table[..|table| - 1]) + table[|table| - 1].data
  }

  /** Chunks ordered by sequence number, as storage returns them. */
  ghost predicate Sorted(table: seq<Chunk>) {
    forall i, j :: 0 <= i < j < |table| ==> table[i].seqno < table[j].seqno
  }

  /** The stored rows with a sequence number above after. */
  function RowsAfter(table: seq<Chunk>, after: int): (r: seq<Chunk>)
  {
    if table == [] then []
    else if table[0].seqno > after then table
    else RowsAfter(table[1..], after)
  }

  /** One page of a keyset read. */
  function Page(table: seq<Chunk>, after: int, limit: nat): (r: seq<Chunk>) {
    var rows := RowsAfter(table, after);
    if |rows| <= limit then rows else rows[..limit]
  }

  /** The reference reader: take chunks from n on while number, offset and content fit. */
  ghost function ReadFrom(table: seq<Chunk>, n: nat, raw: Bytes, opens: Chunk -> bool): (Bytes, Stop)
    requires n <= |table|
    decreases |table| - n
  {
    if n == |table| then (raw, End)
    else
      var c := table[n];
      if c.seqno != n || c.offset != |raw| || !opens(c) then (raw, Broken)
      else if |raw| + |c.data| > MAX_ENCODED_BODY then
        (if |raw| < MAX_ENCODED_BODY then raw + c.data[..MAX_ENCODED_BODY - |raw|] else raw, TooLarge)
      else ReadFrom(table, n + 1, raw + c.data, opens)
  }

  /** After n chunks numbered 0 to n - 1, the next page starts at chunk n. */
  lemma {:induction false} PageAt(table: seq<Chunk>, n: nat, limit: nat)
    requires Sorted(table) && n <= |table|
    requires forall i :: 0 <= i < n ==> table[i].seqno == i
    ensures Page(table, n - 1, limit) == table[n..if n + limit < |table| then n + limit else |table|]
  {
    RowsFrom(table, 0, n);
  }

  lemma {:induction false} RowsFrom(table: seq<Chunk>, k: nat, n: nat)
    requires Sorted(table) && k <= n <= |table|
    requires forall i :: 0 <= i < n ==> table[i].seqno == i
    ensures RowsAfter(table[k..], n - 1) == table[n..]
    decreases n - k
  {
    if k < n {
      assert table[k..][0] == table[k] && table[k..][1..] == table[k + 1..];
      RowsFrom(table, k + 1, n);
    } else if n < |table| {
      assert table[k..][0] == table[n];
      if n > 0 { assert table[n - 1].seqno < table[n].seqno; }
    }
  }

  /** What the reader must report when every page can be read. */
  ghost function Reading(table: seq<Chunk>, row: BodyRow, opens: Chunk -> bool, hash: Bytes -> Bytes)
    : (Bytes, bool, string)
  {
    var (raw, stop) := ReadFrom(table, 0, [], opens);
    match stop
    case Broken => (raw, false, "capture_integrity_error")
    case TooLarge => (raw, false, "body_too_large")
    case End =>
      if |raw| != row.storedLength || (row.hashComplete && |row.sha256| == DIGEST_SIZE && hash(raw) != row.sha256) then
        (raw, false, "capture_integrity_error")
      else if !RowComplete(row) then
        (raw, false, PartialCode(row))
      else (raw, true, "")
  }

  /** raw is made of leading chunks numbered from 0, the last of them perhaps cut short. */
  ghost predicate LeadingBytes(table: seq<Chunk>, raw: Bytes) {
    exists n :: 0 <= n <= |table| && Numbered(table, n) && raw <= Data(table[..n])
  }

  ghost predicate Numbered(table: seq<Chunk>, n: int)
    requires 0 <= n <= |table|
  {
    forall i :: 0 <= i < n ==> table[i].seqno == i
  }

  /** The parser's reader: pages of 128 rows, each chunk checked before it is appended. */
  method ReadRawBody(table: seq<Chunk>, row: BodyRow, opens: Chunk -> bool, pageFails: int -> bool,
                     hash: Bytes -> Bytes)
    returns (raw: Bytes, complete: bool, code: string)
    requires Sorted(table)
    ensures (forall after :: !pageFails(after)) ==> (raw, complete, code) == Reading(table, row, opens, hash)
    ensures LeadingBytes(table, raw)
    ensures complete ==> raw == Data(table) && |raw| == row.storedLength && RowComplete(row)
  {
    hide ReadFrom;
    hide Data;
    hide Page;
    hide Sorted;
    raw := [];
    DataNil();
    var expectedSeq, expectedOffset := 0, 0;
    var afterSeq: int := -1;
    ghost var goal := ReadFrom(table, 0, [], opens);
    assert table[..0] == [];
    var more := true;
    while more
      invariant 0 <= expectedSeq <= |table| && afterSeq == expectedSeq - 1 && expectedOffset == |raw|
      invariant Numbered(table, expectedSeq) && raw == Data(table[..expectedSeq])
      invariant ReadFrom(table, expectedSeq, raw, opens) == goal
      invariant !more ==> expectedSeq == |table|
      decreases more, |table| - expectedSeq
    {
      if pageFails(afterSeq) {
        return raw, false, "evidence_read_error";
      }
      PageAt(table, expectedSeq, CHUNK_PAGE);
      var chunks := Page(table, afterSeq, CHUNK_PAGE);
      ghost var start := expectedSeq;
      for i := 0 to |chunks|
        invariant expectedSeq == start + i && afterSeq == expectedSeq - 1 && expectedOffset == |raw|
        invariant chunks == table[start..start + |chunks|] && start + |chunks| <= |table|
        invariant Numbered(table, expectedSeq) && raw == Data(table[..expectedSeq])
        invariant ReadFrom(table, expectedSeq, raw, opens) == goal
      {
        var chunk := chunks[i];
        assert chunk == table[expectedSeq];
        ReadStep(table, expectedSeq, raw, opens);
        if chunk.seqno != expectedSeq || chunk.offset != expectedOffset || !opens(chunk) {
          return raw, false, "capture_integrity_error";
        }
        DataSnoc(table, expectedSeq);
        if |raw| + |chunk.data| > MAX_ENCODED_BODY {
          var remaining := MAX_ENCODED_BODY - |raw|;
          if remaining > 0 {
            raw := raw + chunk.data[..remaining];
          }
          assert Numbered(table, expectedSeq + 1) && raw <= Data(table[..expectedSeq + 1]);
          return raw, false, "body_too_large";
        }
        raw := raw + chunk.data;
        expectedSeq, expectedOffset, afterSeq := expectedSeq + 1, expectedOffset + |chunk.data|, chunk.seqno;
      }
      more := |chunks| == CHUNK_PAGE;
    }
    assert table[..|table|] == table;
    ReadEnd(table, raw, opens);
    if |raw| != row.storedLength || expectedOffset != row.storedLength {
      return raw, false, "capture_integrity_error";
    }
    if row.hashComplete && |row.sha256| == DIGEST_SIZE && hash(raw) != row.sha256 {
      return raw, false, "capture_integrity_error";
    }
    if !RowComplete(row) {
      return raw, false, PartialCode(row);
    }
    return raw, true, "";
  }

  lemma ReadStep(table: seq<Chunk>, n: nat, raw: Bytes, opens: Chunk -> bool)
    requires n < |table|
    ensures var c := table[n];
      ReadFrom(table, n, raw, opens) ==
      if c.seqno != n || c.offset != |raw| || !opens(c) then (raw, Broken)
      else if |raw| + |c.data| > MAX_ENCODED_BODY then
        (if |raw| < MAX_ENCODED_BODY then raw + c.data[..MAX_ENCODED_BODY - |raw|] else raw, TooLarge)
      else ReadFrom(table, n + 1, raw + c.data, opens)
  {
  }

  lemma ReadEnd(table: seq<Chunk>, raw: Bytes, opens: Chunk -> bool)
    ensures ReadFrom(table, |table|, raw, opens) == (raw, End)
  {
  }

  lemma DataNil()
    ensures Data([]) == []
  {
  }

  lemma DataSnoc(table: seq<Chunk>, n: nat)
    requires n < |table|
    ensures Data(table[..n + 1]) == Data(table[..n]) + table[n].data
  {
    assert table[..n + 1][..n] == table[..n];
  }

  /** The first n chunks are numbered, placed and open, and are not too much. */
  ghost predicate Readable(table: seq<Chunk>, opens: Chunk -> bool, n: nat)
    requires n <= |table|
  {
    && |Data(table[..n])| <= MAX_ENCODED_BODY
    && forall i :: 0 <= i < n ==> table[i].seqno == i && table[i].offset == |Data(table[..i])| && opens(table[i])
  }

  lemma {:induction false} ReadReaches(table: seq<Chunk>, opens: Chunk -> bool, n: nat)
    requires n <= |table| && Readable(table, opens, n)
    ensures ReadFrom(table, 0, [], opens) == ReadFrom(table, n, Data(table[..n]), opens)
  {
    hide ReadFrom;
    hide Data;
    if n == 0 {
      DataNil();
      assert table[..0] == [];
    } else {
      DataSnoc(table, n - 1);
      ReadReaches(table, opens, n - 1);
      ReadStep(table, n - 1, Data(table[..n - 1]), opens);
    }
  }

  /** What a reader reports, from the chunks: where they stop fitting, where they get too much, or
      else what the row says of all of them. */
  lemma ReadingExplained(table: seq<Chunk>, row: BodyRow, opens: Chunk -> bool, hash: Bytes -> Bytes, n: nat)
    requires n <= |table| && Readable(table, opens, n)
    ensures n < |table| ==>
      var chunk, before := table[n], Data(table[..n]);
      var fits := chunk.seqno == n && chunk.offset == |before| && opens(chunk);
      && (!fits ==> Reading(table, row, opens, hash) == (before, false, "capture_integrity_error"))
      && (fits && |before + chunk.data| > 0x800_0000 ==>
            Reading(table, row, opens, hash) == ((before + chunk.data)[..0x800_0000], false, "body_too_large"))
    ensures n == |table| ==>
      var all := Data(table);
      var digestFails := row.hashComplete && |row.sha256| == 32 && hash(all) != row.sha256;
      && (|all| != row.storedLength || digestFails ==>
            Reading(table, row, opens, hash) == (all, false, "capture_integrity_error"))
      && (|all| == row.storedLength && !digestFails && RowComplete(row) ==>
            Reading(table, row, opens, hash) == (all, true, ""))
      && (|all| == row.storedLength && !digestFails && !RowComplete(row) ==>
            var reason := row.errorCode;
            Reading(table, row, opens, hash) ==
              (all, false, if reason.None? || reason.value == "" then "capture_partial" else reason.value))
  {
    hide ReadFrom;
    hide Data;
    ReadReaches(table, opens, n);
    if n < |table| {
      ReadStep(table, n, Data(table[..n]), opens);
      var before, data := Data(table[..n]), table[n].data;
      if |before + data| > MAX_ENCODED_BODY {
        assert (before + data)[..MAX_ENCODED_BODY] == before + data[..MAX_ENCODED_BODY - |before|];
        assert data[..0] == [] && before + [] == before;
      }
    } else {
      assert table[..n] == table;
      ReadEnd(table, Data(table), opens);
    }
  }

  // ----- Writer and reader together -----

  /** Any subset of the chunks a capture emitted, ordered by sequence number. */
  ghost predicate Survivors(table: seq<Chunk>, pieces: seq<Piece>) {
    && Sorted(table)
    && forall i :: 0 <= i < |table| ==>
         table[i].seqno < |pieces| && Emitted(pieces[table[i].seqno]) && table[i] == ChunkOf(pieces, table[i].seqno)
  }

  lemma {:induction false} NumberedIsJoined(table: seq<Chunk>, pieces: seq<Piece>, n: nat)
    requires Survivors(table, pieces) && n <= |table| && Numbered(table, n)
    ensures n <= |pieces| && Data(table[..n]) == Joined(pieces[..n])
  {
    if n > 0 {
      NumberedIsJoined(table, pieces, n - 1);
      DataSnoc(table, n - 1);
      assert table[n - 1].seqno == n - 1;
      assert pieces[..n][..n - 1] == pieces[..n - 1];
    }
  }

  lemma {:induction false} JoinedPrefix(pieces: seq<Piece>, n: nat)
    requires n <= |pieces|
    ensures Joined(pieces[..n]) <= Joined(pieces)
    decreases |pieces| - n
  {
    if n == |pieces| {
      assert pieces[..n] == pieces;
    } else {
      assert pieces[..n + 1][..n] == pieces[..n];
      JoinedPrefix(pieces, n + 1);
    }
  }

  lemma LeadingIsObserved(table: seq<Chunk>, pieces: seq<Piece>, pending: Bytes, observed: Bytes, raw: Bytes)
    requires Survivors(table, pieces) && Joined(pieces) + pending == observed
    requires LeadingBytes(table, raw)
    ensures raw <= observed
  {
    var n :| 0 <= n <= |table| && Numbered(table, n) && raw <= Data(table[..n]);
    NumberedIsJoined(table, pieces, n);
    JoinedPrefix(pieces, n);
  }

  /** For every capture and every subset of its chunks left in storage, the parser gets a
      prefix of the observed bytes, and is told "complete" only with all of them. */
  method ReadBack(body: Body, row: BodyRow, table: seq<Chunk>, opens: Chunk -> bool, pageFails: int -> bool,
                  hash: Bytes -> Bytes)
    returns (raw: Bytes, complete: bool, code: string)
    requires body.Valid() && body.persisted && row.observedLength == body.observedLength
    requires Survivors(table, body.flushed)
    ensures raw <= body.observed
    ensures complete ==> raw == body.observed
  {
    raw, complete, code := ReadRawBody(table, row, opens, pageFails, hash);
    LeadingIsObserved(table, body.flushed, body.pending, body.observed, raw);
  }

  /** Without a failed flush, offsets are positions in the observed body. */
  lemma {:induction false} AcceptedIsJoined(pieces: seq<Piece>)
    requires AllAccepted(pieces)
    ensures Accepted(pieces) == Joined(pieces)
  {
    if pieces != [] {
      AcceptedIsJoined(pieces[..|pieces| - 1]);
    }
  }

  lemma {:induction false} ReadsEverything(table: seq<Chunk>, pieces: seq<Piece>, n: nat, opens: Chunk -> bool)
    requires AllAccepted(pieces) && |table| == |pieces| && n <= |table|
    requires forall i :: 0 <= i < |table| ==> table[i] == ChunkOf(pieces, i) && opens(table[i])
    requires |Joined(pieces)| <= MAX_ENCODED_BODY
    ensures ReadFrom(table, n, Joined(pieces[..n]), opens) == (Joined(pieces), End)
    decreases |table| - n
  {
    if n == |table| {
      assert pieces[..n] == pieces;
    } else {
      AcceptedIsJoined(pieces[..n]);
      assert pieces[..n + 1][..n] == pieces[..n];
      JoinedPrefix(pieces, n + 1);
      ReadsEverything(table, pieces, n + 1, opens);
    }
  }

  /** And nothing is withheld: when all chunks are there and open, a finished body within
      the size limit is read back whole and complete. */
  lemma CompleteBodyReadsBack(body: Body, row: BodyRow, table: seq<Chunk>, opens: Chunk -> bool, hash: Bytes -> Bytes)
    requires body.Valid() && body.persisted && body.pending == [] && AllAccepted(body.flushed)
    requires RowComplete(row) && row.storedLength == body.storedLength && row.sha256 == hash(body.observed)
    requires |table| == |body.flushed|
    requires forall i :: 0 <= i < |table| ==> table[i] == ChunkOf(body.flushed, i) && opens(table[i])
    requires |body.observed| <= MAX_ENCODED_BODY
    ensures Reading(table, row, opens, hash) == (body.observed, true, "")
  {
    AcceptedIsJoined(body.flushed);
    assert body.observed == Joined(body.flushed);
    assert Joined(body.flushed[..0]) == [];
    ReadsEverything(table, body.flushed, 0, opens);
    assert ReadFrom(table, 0, [], opens) == (body.observed, End);
  }

  // ----- The raw export -----

  datatype Export = Exported | NotReady | NotRetained | IntegrityError | SinkError

  predicate HasMissingChunks(row: BodyRow) {
    row.state.Partial? && row.retention.Full? && row.errorCode == Some("capture_chunk_missing")
  }

  /** Chunks cover growing, disjoint ranges within the observed length. */
  ghost predicate DisjointRanges(table: seq<Chunk>, observedLength: int) {
    && (forall i :: 0 <= i < |table| ==> table[i].offset + |table[i].data| <= observedLength)
    && (forall i, j :: 0 <= i < j < |table| ==> table[i].offset + |table[i].data| <= table[j].offset)
  }

  /** The first n chunks were handed to the sink, and all but the last of them taken whole. */
  ghost predicate Written(table: seq<Chunk>, n: int, out: Bytes) {
    0 <= n <= |table| && out <= Data(table[..n]) && (n > 0 ==> Data(table[..n - 1]) <= out)
  }

  function EndOf(table: seq<Chunk>, i: nat): (int, int)
    requires i <= |table|
  {
    if i == 0 then (0, 0) else (table[i - 1].seqno + 1, table[i - 1].offset + |table[i - 1].data|)
  }

  /** A chunk where it belongs: numbered and placed by the chunks before it; with a recorded loss
      also further on, within the observed length. */
  ghost predicate Belongs(table: seq<Chunk>, row: BodyRow, i: nat)
    requires i < |table|
  {
    var c := table[i];
    var loss := row.state.Partial? && row.retention.Full? && row.errorCode == Some("capture_chunk_missing");
    if !loss then c.seqno == i && c.offset == |Data(table[..i])|
    else
      var (number, offset) := EndOf(table, i);
      && ((c.seqno == number && c.offset == offset) || (c.seqno > number && c.offset >= offset))
      && c.offset + |c.data| <= row.observedLength
  }

  /** The first n chunks belong, open and were taken whole. */
  ghost predicate Passes(table: seq<Chunk>, row: BodyRow, opens: Chunk -> bool, sink: nat -> Option<nat>, n: nat)
    requires n <= |table|
  {
    forall i :: 0 <= i < n ==> Belongs(table, row, i) && opens(table[i]) && sink(i).None?
  }

  predicate Kept(row: BodyRow) {
    !row.state.Streaming? && row.retention.Full?
  }

  /** The bytes of all chunks are what the row describes. */
  ghost predicate Described(table: seq<Chunk>, row: BodyRow, hash: Bytes -> Bytes) {
    && |Data(table)| == row.storedLength
    && (RowComplete(row) ==> |row.sha256| == 32 && hash(Data(table)) == row.sha256)
  }

  /** Why an export fails: a chunk that does not belong or open, or bytes that are not described. */
  ghost predicate Corrupt(table: seq<Chunk>, row: BodyRow, opens: Chunk -> bool, sink: nat -> Option<nat>, n: nat) {
    && n <= |table| && Passes(table, row, opens, sink, n)
    && n < |table| && !(Belongs(table, row, n) && opens(table[n]))
  }

  ghost predicate Stopped(table: seq<Chunk>, row: BodyRow, opens: Chunk -> bool, sink: nat -> Option<nat>, n: nat) {
    && n < |table| && Passes(table, row, opens, sink, n)
    && Belongs(table, row, n) && opens(table[n]) && sink(n).Some?
  }

  /** Stream every surviving chunk to a sink, which takes chunk i whole or stops after so many
      bytes of it. Only a recorded loss permits a forward gap. Each result has one cause. */
  method StreamRaw(table: seq<Chunk>, row: BodyRow, opens: Chunk -> bool, sink: nat -> Option<nat>,
                   hash: Bytes -> Bytes)
    returns (out: Bytes, r: Export)
    requires Sorted(table)
    ensures exists n :: Written(table, n, out) && (!HasMissingChunks(row) ==> Numbered(table, n))
    ensures r.Exported? ==> out == Data(table) && |out| == row.storedLength
    ensures r.Exported? && HasMissingChunks(row) ==> DisjointRanges(table, row.observedLength)
    ensures r.Exported? && RowComplete(row) ==> row.sha256 == hash(out)
    ensures r.NotReady? <==> row.state.Streaming? || row.retention.Pending?
    ensures r.NotRetained? <==> !row.state.Streaming? && row.retention.Metadata?
    ensures r.Exported? <==> Kept(row) && Passes(table, row, opens, sink, |table|) && Described(table, row, hash)
    ensures r.SinkError? <==> Kept(row) && exists n :: Stopped(table, row, opens, sink, n)
    ensures r.IntegrityError? <==>
      && Kept(row)
      && (|| (exists n :: Corrupt(table, row, opens, sink, n))
          || (Passes(table, row, opens, sink, |table|) && !Described(table, row, hash)))
  {
    hide Data;
    hide Sorted;
    hide Written;
    hide Numbered;
    hide DisjointRanges;
    hide Belongs;
    hide Passes;
    hide Corrupt;
    hide Stopped;
    hide EndOf;
    hide HasMissingChunks;
    out := [];
    NothingWritten(table, row, opens, sink);
    if row.state.Streaming? || row.retention.Pending? {
      return out, NotReady;
    }
    if row.retention.Metadata? {
      return out, NotRetained;
    }
    var expectedSeq, expectedOffset := 0, 0;
    for i := 0 to |table|
      invariant out == Data(table[..i]) && Written(table, i, out) && (expectedSeq, expectedOffset) == EndOf(table, i)
      invariant Passes(table, row, opens, sink, i)
    {
      var chunk := table[i];
      OneCause(table, row, opens, sink, i);
      PassedFacts(table, row, opens, sink, i);
      if !Fits(row, chunk, expectedSeq, expectedOffset) || !opens(chunk) {
        return out, IntegrityError;
      }
      WriteNext(table, row, opens, sink, i);
      if sink(i).Some? {
        var taken := if sink(i).value < |chunk.data| then sink(i).value else |chunk.data|;
        out := out + chunk.data[..taken];
        return out, SinkError;
      }
      out := out + chunk.data;
      expectedSeq, expectedOffset := chunk.seqno + 1, chunk.offset + |chunk.data|;
    }
    assert table[..|table|] == table;
    AllPassed(table, row, opens, sink);
    PassedFacts(table, row, opens, sink, |table|);
    if |out| != row.storedLength {
      return out, IntegrityError;
    }
    if RowComplete(row) && (|row.sha256| != DIGEST_SIZE || hash(out) != row.sha256) {
      return out, IntegrityError;
    }
    return out, Exported;
  }

  /** The checks on one chunk, given where the one before it ended. */
  predicate Fits(row: BodyRow, chunk: Chunk, expectedSeq: int, expectedOffset: int) {
    var missing := HasMissingChunks(row);
    && (chunk.seqno != expectedSeq || chunk.offset != expectedOffset ==>
          missing && chunk.seqno > expectedSeq && chunk.offset >= expectedOffset)
    && (missing ==> chunk.offset <= row.observedLength && |chunk.data| <= row.observedLength - chunk.offset)
  }

  lemma NothingWritten(table: seq<Chunk>, row: BodyRow, opens: Chunk -> bool, sink: nat -> Option<nat>)
    ensures [] == Data(table[..0]) && Written(table, 0, []) && Numbered(table, 0)
    ensures EndOf(table, 0) == (0, 0) && Passes(table, row, opens, sink, 0)
  {
    DataNil();
    assert table[..0] == [];
  }

  /** Chunks that pass are numbered and placed, and the next one belongs exactly when it fits. */
  lemma {:induction false} PassedFacts(table: seq<Chunk>, row: BodyRow, opens: Chunk -> bool, sink: nat -> Option<nat>,
                                       n: nat)
    requires n <= |table| && Passes(table, row, opens, sink, n)
    ensures !HasMissingChunks(row) ==> Numbered(table, n) && EndOf(table, n) == (n, |Data(table[..n])|)
    ensures HasMissingChunks(row) ==> DisjointRanges(table[..n], row.observedLength)
    ensures n < |table| ==>
      var (number, offset) := EndOf(table, n); Belongs(table, row, n) <==> Fits(row, table[n], number, offset)
    ensures n == |table| && HasMissingChunks(row) ==> DisjointRanges(table, row.observedLength)
  {
    hide Data;
    if n == 0 {
      DataNil();
      assert table[..0] == [];
    } else {
      PassedFacts(table, row, opens, sink, n - 1);
      DataSnoc(table, n - 1);
      assert Belongs(table, row, n - 1);
      if HasMissingChunks(row) {
        RangesNext(table, row.observedLength, n);
      }
    }
    assert n == |table| ==> table[..n] == table;
  }

  lemma RangesNext(table: seq<Chunk>, observedLength: int, n: nat)
    requires 0 < n <= |table| && DisjointRanges(table[..n - 1], observedLength)
    requires n > 1 ==> table[n - 2].offset + |table[n - 2].data| <= table[n - 1].offset
    requires table[n - 1].offset + |table[n - 1].data| <= observedLength
    ensures DisjointRanges(table[..n], observedLength)
  {
    assert forall i :: 0 <= i < n - 1 ==> table[..n - 1][i] == table[i] && table[..n][i] == table[i];
  }

  lemma WriteNext(table: seq<Chunk>, row: BodyRow, opens: Chunk -> bool, sink: nat -> Option<nat>, i: nat)
    requires i < |table| && Passes(table, row, opens, sink, i) && Belongs(table, row, i) && opens(table[i])
    ensures Data(table[..i + 1]) == Data(table[..i]) + table[i].data
    ensures forall k :: 0 <= k <= |table[i].data| ==> Written(table, i + 1, Data(table[..i]) + table[i].data[..k])
    ensures Written(table, i + 1, Data(table[..i]) + table[i].data)
    ensures sink(i).None? ==> Passes(table, row, opens, sink, i + 1)
    ensures EndOf(table, i + 1) == (table[i].seqno + 1, table[i].offset + |table[i].data|)
    ensures !HasMissingChunks(row) ==> Numbered(table, i + 1)
  {
    hide Data;
    hide Belongs;
    DataSnoc(table, i);
    PassedFacts(table, row, opens, sink, i);
    NumberNext(table, row, i);
  }

  lemma NumberNext(table: seq<Chunk>, row: BodyRow, i: nat)
    requires i < |table| && Belongs(table, row, i)
    ensures !HasMissingChunks(row) ==> table[i].seqno == i
  {
  }

  /** A chunk that stops the export is the only one. */
  lemma OneCause(table: seq<Chunk>, row: BodyRow, opens: Chunk -> bool, sink: nat -> Option<nat>, i: nat)
    requires i < |table| && Passes(table, row, opens, sink, i)
    ensures var fine := Belongs(table, row, i) && opens(table[i]);
      && (!fine ==> Corrupt(table, row, opens, sink, i) && forall n :: !Stopped(table, row, opens, sink, n))
      && (fine && sink(i).Some? ==>
            Stopped(table, row, opens, sink, i) && forall n :: !Corrupt(table, row, opens, sink, n))
      && (!fine || sink(i).Some? ==> !Passes(table, row, opens, sink, |table|))
  {
    hide Belongs;
  }

  lemma AllPassed(table: seq<Chunk>, row: BodyRow, opens: Chunk -> bool, sink: nat -> Option<nat>)
    requires Passes(table, row, opens, sink, |table|)
    ensures forall n :: !Stopped(table, row, opens, sink, n) && !Corrupt(table, row, opens, sink, n)
  {
    hide Belongs;
  }

  /** A chunk lies in the observed body where its offset says. */
  ghost predicate InPlace(chunk: Chunk, observed: Bytes) {
    chunk.offset + |chunk.data| <= |observed| && observed[chunk.offset..chunk.offset + |chunk.data|] == chunk.data
  }

  lemma {:induction false} AcceptedLength(pieces: seq<Piece>)
    ensures |Accepted(pieces)| <= |Joined(pieces)|
    ensures |Accepted(pieces)| == |Joined(pieces)| <==> NothingLost(pieces)
  {
    if pieces != [] {
      var n := |pieces| - 1;
      AcceptedLength(pieces[..n]);
      assert NothingLost(pieces) <==>
        NothingLost(pieces[..n]) && (pieces[n].outcome.Stored? || pieces[n].data == []) by {
        assert forall k :: 0 <= k < n ==> pieces[..n][k] == pieces[k];
      }
    }
  }

  ghost predicate NothingLost(pieces: seq<Piece>) {
    forall k :: 0 <= k < |pieces| ==> pieces[k].outcome.Stored? || pieces[k].data == []
  }

  /** The offset of a chunk is the position of its bytes exactly when no byte flushed before it
      was lost, and otherwise too small. */
  lemma OffsetIsPosition(pieces: seq<Piece>, k: nat)
    requires k < |pieces|
    ensures ChunkOf(pieces, k).offset == |Joined(pieces[..k])| <==> NothingLost(pieces[..k])
    ensures ChunkOf(pieces, k).offset <= |Joined(pieces[..k])|
    ensures NothingLost(pieces[..k]) ==> InPlace(ChunkOf(pieces, k), Joined(pieces))
  {
    AcceptedLength(pieces[..k]);
    JoinedPrefix(pieces, k + 1);
    assert pieces[..k + 1][..k] == pieces[..k];
    assert Joined(pieces[..k + 1]) == Joined(pieces[..k]) + pieces[k].data;
  }

  /** A flush that could not be encoded moves what follows it: the second chunk lies at 1 and
      says 0. */
  lemma LostFlushShifts()
    ensures var pieces := [Piece("a", EncodeFailed), Piece("b", Stored)];
      && ChunkOf(pieces, 1) == Chunk(1, 0, "b") && |Joined(pieces[..1])| == 1
      && !InPlace(ChunkOf(pieces, 1), Joined(pieces))
  {
    var pieces := [Piece("a", EncodeFailed), Piece("b", Stored)];
    assert pieces[..1] == [Piece("a", EncodeFailed)] && pieces[..1][..0] == [] && pieces[..2] == pieces;
    assert Joined(pieces[..1]) == "a" && Joined(pieces) == "a" + "b" && ("a" + "b")[0..1] == "a";
  }

  lemma SurvivorsInPlace(table: seq<Chunk>, pieces: seq<Piece>, pending: Bytes, observed: Bytes)
    requires Survivors(table, pieces) && NothingLost(pieces) && Joined(pieces) + pending == observed
    ensures forall i :: 0 <= i < |table| ==> InPlace(table[i], observed)
  {
    hide Joined;
    hide Accepted;
    forall i | 0 <= i < |table| ensures InPlace(table[i], observed) {
      OffsetIsPosition(pieces, table[i].seqno);
    }
  }

  /** A whole body that is still there: all its chunks open, its row describes it, the sink takes
      everything. */
  ghost predicate Exportable(body: Body, row: BodyRow, table: seq<Chunk>, opens: Chunk -> bool,
                             sink: nat -> Option<nat>, hash: Bytes -> Bytes)
    reads body
  {
    && body.Whole() && Kept(row) && RowComplete(row) && row.storedLength == body.storedLength
    && |row.sha256| == 32 && row.sha256 == hash(body.observed)
    && |table| == |body.flushed|
    && forall i :: 0 <= i < |table| ==> table[i] == ChunkOf(body.flushed, i) && opens(table[i]) && sink(i).None?
  }

  lemma {:induction false} DataIsJoined(table: seq<Chunk>, pieces: seq<Piece>, n: nat)
    requires AllAccepted(pieces) && |table| == |pieces| && n <= |table|
    requires forall i :: 0 <= i < |table| ==> table[i] == ChunkOf(pieces, i)
    ensures Data(table[..n]) == Joined(pieces[..n]) == Accepted(pieces[..n])
  {
    if n > 0 {
      DataIsJoined(table, pieces, n - 1);
      DataSnoc(table, n - 1);
      assert pieces[..n][..n - 1] == pieces[..n - 1];
    }
  }

  lemma WholeBodyPasses(body: Body, row: BodyRow, table: seq<Chunk>, opens: Chunk -> bool, sink: nat -> Option<nat>,
                        hash: Bytes -> Bytes)
    requires Exportable(body, row, table, opens, sink, hash) && body.observedLength == |body.observed|
    ensures Passes(table, row, opens, sink, |table|) && Described(table, row, hash) && Data(table) == body.observed
  {
    hide Data;
    hide Joined;
    hide Accepted;
    forall i | 0 <= i < |table| ensures Belongs(table, row, i) {
      DataIsJoined(table, body.flushed, i);
    }
    DataIsJoined(table, body.flushed, |table|);
    assert table[..|table|] == table && body.flushed[..|table|] == body.flushed;
  }

  /** An export of a body without recorded loss writes a prefix of what was observed, and a
      successful export of a complete body writes all of it. With a recorded loss it writes
      chunks in order, each of which lies where its offset says if no flush lost bytes. */
  method ExportBody(body: Body, row: BodyRow, table: seq<Chunk>, opens: Chunk -> bool, sink: nat -> Option<nat>,
                    hash: Bytes -> Bytes)
    returns (out: Bytes, r: Export)
    requires body.Valid() && body.persisted && row.observedLength == body.observedLength
    requires Survivors(table, body.flushed)
    ensures !HasMissingChunks(row) ==> out <= body.observed
    ensures r.Exported? && RowComplete(row) ==> out == body.observed
    ensures exists n :: Written(table, n, out)
    ensures NothingLost(body.flushed) ==> forall i :: 0 <= i < |table| ==> InPlace(table[i], body.observed)
    ensures Exportable(body, row, table, opens, sink, hash) ==> r.Exported? && out == body.observed
  {
    hide Data;
    if Exportable(body, row, table, opens, sink, hash) {
      WholeBodyPasses(body, row, table, opens, sink, hash);
    }
    out, r := StreamRaw(table, row, opens, sink, hash);
    if !HasMissingChunks(row) {
      assert LeadingBytes(table, out);
      LeadingIsObserved(table, body.flushed, body.pending, body.observed, out);
    }
    if NothingLost(body.flushed) {
      SurvivorsInPlace(table, body.flushed, body.pending, body.observed);
    }
  }
}
