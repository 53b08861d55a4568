/**
 Capturing one body: observed bytes are staged into chunks of at most one mebibyte, and
 each full or final chunk is numbered, encoded, encrypted and handed to the store. Any of
 those steps may fail for any chunk; what happens to each chunk is fixed by an arbitrary
 function of its sequence number.
 */
module BodyCapture {
  import opened Words
  import opened Wrappers
  import opened StreamLines
  import opened StreamProbe

  const CHUNK_SIZE: nat := 0x10_0000

  /** What became of a flushed chunk. A chunk whose hand-over to the store reported an error
      may still have been written. */
  datatype Outcome = Stored | EncodeFailed | EncryptFailed | AddFailed

  /** One flush: the staged bytes and what became of them. */
  datatype Piece = Piece(data: Bytes, outcome: Outcome)

  /** A chunk as handed to the store. */
  datatype Chunk = Chunk(seqno: nat, offset: nat, data: Bytes)

  datatype BodyState = Streaming | Partial | Complete
  datatype Retention = Pending | Metadata | Full

  /** The stored description of a body. */
  datatype BodyRow = BodyRow(
    state: BodyState, retention: Retention, observedLength: int, storedLength: int, chunkCount: int,
    hashComplete: bool, eofSeen: bool, sha256: Bytes, errorCode: Option<string>)

  ghost function Joined(fs: seq<Piece>): Bytes {
    if fs == [] then [] else Joined(fs[..|fs| - 1]) + fs[|fs| - 1].data
  }

  /** The bytes of the chunks the store accepted. */
  ghost function Accepted(fs: seq<Piece>): Bytes {
    if fs == [] then []
    else Accepted(fs[..|fs| - 1]) + (if fs[|fs| - 1].outcome.Stored? then fs[|fs| - 1].data else [])
  }

  ghost function CountAccepted(fs: seq<Piece>): nat {
    if fs == [] then 0 else CountAccepted(fs[..|fs| - 1]) + (if fs[|fs| - 1].outcome.Stored? then 1 else 0)
  }

  ghost predicate AllAccepted(fs: seq<Piece>) {
    forall k :: 0 <= k < |fs| ==> fs[k].outcome.Stored?
  }

  /** The chunk of flush k: numbered by flushes, placed after the bytes accepted before. */
  ghost function ChunkOf(fs: seq<Piece>, k: nat): Chunk
    requires k < |fs|
  {
    Chunk(k, |Accepted(fs[..k])|, fs[k].data)
  }

  /** The chunk left the process: the store accepted it, or failed on it ambiguously. */
  ghost predicate Emitted(f: Piece) {
    f.outcome.Stored? || f.outcome.AddFailed?
  }

  /** The four observation points of one proxied exchange. */
  datatype StageName = RequestReceived | RequestSent | ResponseReceived | ResponseSent

  /** A store that takes every chunk. */
  ghost predicate AlwaysStores(store: nat -> Outcome) {
    forall n :: store(n).Stored?
  }

  class Body {
    const sourceStage: StageName
    const persisted: bool
    const store: nat -> Outcome
    const probe: Probe?
    var observedLength: nat
    var storedLength: nat
    var nextSeq: nat
    var chunkCount: nat
    var pending: Bytes
    var eofSeen: bool
    var hashComplete: bool
    var closed: bool
    var faulted: bool
    var writeFailed: bool
    /** The bytes fed to the running digest: everything observed. */
    var observed: Bytes
    ghost var flushed: seq<Piece>

    ghost predicate Valid()
      reads this, probe
    {
      && Staged()
      && (probe != null ==> probe.Valid() && probe.seen == observed)
      && (if persisted then |pending| < CHUNK_SIZE else faulted)
    }

    /** Everything observed up to the end of the body was accepted by the store. */
    ghost predicate Whole()
      reads this
    {
      && persisted && eofSeen && !faulted && pending == []
      && AllAccepted(flushed) && Joined(flushed) == observed && storedLength == observedLength
    }

    /** Nothing observed is lost between the flushed chunks and the staging buffer. */
    ghost predicate Staged()
      reads this
    {
      && observedLength == |observed|
      && (if persisted then Joined(flushed) + pending == observed else flushed == [] && pending == [])
      && Counters()
    }

    ghost predicate Counters()
      reads `nextSeq, `storedLength, `chunkCount, `flushed, `faulted
    {
      && nextSeq == |flushed| && storedLength == |Accepted(flushed)| && chunkCount == CountAccepted(flushed)
      && (forall k :: 0 <= k < |flushed| ==>
            0 < |flushed[k].data| <= CHUNK_SIZE && flushed[k].outcome == store(k))
      && (!AllAccepted(flushed) ==> faulted)
    }

    constructor (sourceStage: StageName, persisted: bool, store: nat -> Outcome, probe: Probe?)
      requires probe != null ==> probe.Valid() && probe.seen == []
      ensures Valid() && observed == [] && flushed == [] && !eofSeen && !hashComplete && !closed && !writeFailed
      ensures this.sourceStage == sourceStage && this.persisted == persisted && this.store == store
      ensures this.probe == probe
      ensures faulted == !persisted
    {
      this.sourceStage, this.persisted, this.store, this.probe := sourceStage, persisted, store, probe;
      observedLength, storedLength, nextSeq, chunkCount, pending := 0, 0, 0, 0, [];
      eofSeen, hashComplete, closed, faulted, writeFailed := false, false, false, !persisted, false;
      observed, flushed := [], [];
    }

    /** Flush the staged bytes: a full buffer, or any buffer when forced. */
    method Flush(force: bool) returns (ok: bool)
      requires Counters() && |pending| <= CHUNK_SIZE
      modifies this`pending, this`nextSeq, this`storedLength, this`chunkCount, this`faulted, this`flushed
      ensures Counters()
      ensures Joined(flushed) + pending == old(Joined(flushed) + pending)
      ensures old(flushed) <= flushed && (!persisted ==> flushed == old(flushed))
      ensures pending == (if persisted && (force || |old(pending)| == CHUNK_SIZE) then [] else old(pending))
      ensures ok ==> faulted == old(faulted)
      ensures !ok ==> faulted
      ensures AlwaysStores(store) ==> ok
    {
      hide Joined;
      hide Accepted;
      hide CountAccepted;
      if !persisted || pending == [] || (!force && |pending| < CHUNK_SIZE) {
        return true;
      }
      var plaintext := pending;
      var sequence := nextSeq;
      nextSeq := nextSeq + 1;
      ghost var f := Piece(plaintext, store(sequence));
      SnocPiece(flushed, f);
      assert Joined(flushed) + plaintext + [] == Joined(flushed) + plaintext;
      pending, flushed := [], flushed + [f];
      if store(sequence) != Stored {
        faulted := true;
        assert flushed[sequence] == f;
        return false;
      }
      storedLength := storedLength + |plaintext|;
      chunkCount := chunkCount + 1;
      return true;
    }

    /** Stage bytes, flushing whenever the buffer is full: never more than one chunk is held,
        and every byte ends up flushed or staged, in order. */
    method Stage(data: Bytes) returns (ok: bool)
      requires persisted && Counters() && |pending| < CHUNK_SIZE
      modifies this`pending, this`nextSeq, this`storedLength, this`chunkCount, this`faulted, this`flushed
      ensures Counters() && |pending| < CHUNK_SIZE
      ensures Joined(flushed) + pending == old(Joined(flushed) + pending) + data
      ensures old(flushed) <= flushed
      ensures ok ==> faulted == old(faulted)
      ensures !ok ==> faulted
      ensures AlwaysStores(store) ==> ok
    {
      hide Joined;
      hide Counters;
      ok := true;
      var rest := data;
      ghost var goal := Joined(flushed) + pending + data;
      while rest != []
        invariant Joined(flushed) + pending + rest == goal
        invariant Counters() && |pending| < CHUNK_SIZE
        invariant old(flushed) <= flushed
        invariant (ok ==> faulted == old(faulted)) && (!ok ==> faulted) && (AlwaysStores(store) ==> ok)
        decreases |rest|
      {
        var count := if |rest| < CHUNK_SIZE - |pending| then |rest| else CHUNK_SIZE - |pending|;
        MoveBytes(Joined(flushed), pending, rest, count);
        pending, rest := pending + rest[..count], rest[count..];
        if |pending| == CHUNK_SIZE {
          var fine := Flush(false);
          ok := ok && fine;
        }
      }
      assert Joined(flushed) + pending + [] == Joined(flushed) + pending;
    }

    /** Record a fault; a failed downstream write is remembered separately. */
    method Fault(write: bool)
      requires Valid()
      modifies this`faulted, this`writeFailed
      ensures Valid() && faulted && writeFailed == (old(writeFailed) || write)
    {
      faulted, writeFailed := true, writeFailed || write;
    }

    /** The body ended: its digest covers all of it. */
    method MarkEnd()
      requires Valid()
      modifies this`eofSeen, this`hashComplete, this`closed
      ensures Valid() && eofSeen && hashComplete && closed
    {
      eofSeen, hashComplete, closed := true, true, true;
    }

    method MarkClosed()
      requires Valid()
      modifies this`closed
      ensures Valid() && closed
    {
      closed := true;
    }

    /** Flush whatever is staged and drop the buffer. */
    method FlushAll() returns (ok: bool)
      requires Valid()
      modifies this`pending, this`nextSeq, this`storedLength, this`chunkCount, this`faulted, this`flushed
      ensures Valid() && pending == []
      ensures ok ==> faulted == old(faulted)
      ensures !ok ==> faulted
      ensures AlwaysStores(store) ==> ok
    {
      hide Joined;
      hide Counters;
      hide Probe.Valid;
      ok := Flush(true);
    }

    /** Observe bytes at one instant. */
    method Observe(data: Bytes, now: int) returns (ok: bool)
      requires Valid()
      modifies this`observedLength, this`pending, this`nextSeq, this`storedLength, this`chunkCount,
               this`faulted, this`flushed, this`observed, probe
      ensures Valid() && observed == old(observed) + data
      ensures ok ==> faulted == old(faulted)
      ensures !ok ==> faulted
      ensures AlwaysStores(store) ==> ok
      ensures old(flushed) <= flushed
    {
      hide Joined;
      hide Counters;
      hide Probe.Valid;
      ok := true;
      if data == [] {
        assert observed + data == observed;
        return;
      }
      if probe != null {
        probe.Observe(data, observedLength, now);
      }
      if persisted {
        ok := Stage(data);
      }
      observedLength, observed := observedLength + |data|, observed + data;
    }
  }

  lemma MoveBytes(a: Bytes, b: Bytes, c: Bytes, n: nat)
    requires n <= |c|
    ensures a + b + c == a + (b + c[..n]) + c[n..]
  {
    assert c == c[..n] + c[n..];
  }

  lemma SnocPiece(fs: seq<Piece>, f: Piece)
    ensures Joined(fs + [f]) == Joined(fs) + f.data
    ensures Accepted(fs + [f]) == Accepted(fs) + (if f.outcome.Stored? then f.data else [])
    ensures CountAccepted(fs + [f]) == CountAccepted(fs) + (if f.outcome.Stored? then 1 else 0)
  {
    assert (fs + [f])[..|fs|] == fs;
  }
}
