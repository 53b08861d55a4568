/**
 Stored turns. A turn's request context is kept as a delta against its parent's request, or
 against its parent's request and response, and is materialized by following parents to a root.
 Expired turns are deleted only after their retained children became roots themselves.
 */
module TurnGraph {
  import opened Wrappers
  import opened SequenceFraming
  import opened ContextDelta

  datatype BaseKind = Root | Request | PostTurn

  datatype StoredTurn = StoredTurn(
    parent: Option<string>, base: BaseKind, ops: seq<ContextOp>, responses: seq<ObjectRef>, count: nat,
    sequenceHash: string)

  function SequenceHash(digest: string -> string, refs: seq<ObjectRef>): string {
    digest(DOMAIN + Framing(refs))
  }

  /** The context a turn id stands for; a missing or repeated ancestor is an error. */
  ghost function Loaded(digest: string -> string, turns: map<string, StoredTurn>, id: string, visiting: set<string>)
    : Option<seq<ObjectRef>>
    decreases turns.Keys - visiting
  {
    if id !in turns || id in visiting then None else
    var turn := turns[id];
    var base := LoadedBase(digest, turns, id, visiting);
    if base.None? then None else
    var refs := Applied(base.value, turn.ops);
    if refs.None? || |refs.value| != turn.count || SequenceHash(digest, refs.value) != turn.sequenceHash then None
    else refs
  }

  ghost function LoadedBase(digest: string -> string, turns: map<string, StoredTurn>, id: string, visiting: set<string>)
    : Option<seq<ObjectRef>>
    requires id in turns && id !in visiting
    decreases turns.Keys - visiting, 0
  {
    var turn := turns[id];
    if turn.parent.None? then
      if turn.base.Root? then Some([]) else None
    else
      assert turns.Keys - (visiting + {id}) < turns.Keys - visiting by {
        assert id in turns.Keys - visiting;
      }
      var parent := turn.parent.value;
      var request := Loaded(digest, turns, parent, visiting + {id});
      if request.None? || turn.base.Root? then None
      else if turn.base.PostTurn? then Some(request.value + turns[parent].responses)
      else request
  }

  // ----- Which turns load -----

  /** One turn of a lineage: its delta, applied to what precedes it, gives its context, of the
      length and with the hash it was stored with. */
  ghost predicate Rebuilds(digest: string -> string, turn: StoredTurn, base: seq<ObjectRef>, refs: seq<ObjectRef>) {
    Applied(base, turn.ops) == Some(refs) && turn.count == |refs| && turn.sequenceHash == digest(DOMAIN + Framing(refs))
  }

  /** Stored turns without repetition, the first a root, each next one a child of the one before,
      and the context of each. */
  ghost predicate Lineage(digest: string -> string, turns: map<string, StoredTurn>, ids: seq<string>,
                          contexts: seq<seq<ObjectRef>>)
  {
    && |ids| == |contexts| > 0
    && (forall i :: 0 <= i < |ids| ==> ids[i] in turns)
    && (forall i, j :: 0 <= i < j < |ids| ==> ids[i] != ids[j])
    && turns[ids[0]].parent.None? && turns[ids[0]].base.Root? && Rebuilds(digest, turns[ids[0]], [], contexts[0])
    && forall i :: 0 < i < |ids| ==> Descends(digest, turns, ids[i - 1], ids[i], contexts[i - 1], contexts[i])
  }

  ghost predicate Descends(digest: string -> string, turns: map<string, StoredTurn>, parent: string, id: string,
                           before: seq<ObjectRef>, refs: seq<ObjectRef>)
  {
    && parent in turns && id in turns && turns[id].parent == Some(parent)
    && match turns[id].base
       case Root => false
       case Request => Rebuilds(digest, turns[id], before, refs)
       case PostTurn => Rebuilds(digest, turns[id], before + turns[parent].responses, refs)
  }

  /** A lineage that ends in a turn and its context, outside a set of turns. */
  ghost predicate EndsIn(digest: string -> string, turns: map<string, StoredTurn>, ids: seq<string>,
                         contexts: seq<seq<ObjectRef>>, id: string, refs: seq<ObjectRef>, visiting: set<string>)
  {
    && Lineage(digest, turns, ids, contexts) && ids[|ids| - 1] == id && contexts[|ids| - 1] == refs
    && forall i :: 0 <= i < |ids| ==> ids[i] !in visiting
  }

  lemma {:induction false} LineageLoads(digest: string -> string, turns: map<string, StoredTurn>, ids: seq<string>,
                                        contexts: seq<seq<ObjectRef>>, id: string, refs: seq<ObjectRef>,
                                        visiting: set<string>)
    requires EndsIn(digest, turns, ids, contexts, id, refs, visiting)
    ensures Loaded(digest, turns, id, visiting) == Some(refs)
    decreases |ids|
  {
    hide Applied;
    hide Framing;
    hide Descends;
    var n := |ids| - 1;
    if n > 0 {
      LineageShorter(digest, turns, ids, contexts);
      LineageLoads(digest, turns, ids[..n], contexts[..n], ids[n - 1], contexts[n - 1], visiting + {id});
      LoadsNext(digest, turns, ids[n - 1], id, contexts[n - 1], refs, visiting);
    }
  }

  lemma LineageShorter(digest: string -> string, turns: map<string, StoredTurn>, ids: seq<string>,
                       contexts: seq<seq<ObjectRef>>)
    requires Lineage(digest, turns, ids, contexts) && |ids| > 1
    ensures Lineage(digest, turns, ids[..|ids| - 1], contexts[..|ids| - 1])
    ensures var n := |ids| - 1;
      turns[ids[n]].parent == Some(ids[n - 1]) &&
      Descends(digest, turns, ids[n - 1], ids[n], contexts[n - 1], contexts[n])
  {
    hide Rebuilds;
    var n := |ids| - 1;
    assert Descends(digest, turns, ids[n - 1], ids[n], contexts[n - 1], contexts[n]);
  }

  /** A child loads, from what its parent loads, exactly what it descends to. */
  lemma LoadsNext(digest: string -> string, turns: map<string, StoredTurn>, parent: string, id: string,
                  before: seq<ObjectRef>, refs: seq<ObjectRef>, visiting: set<string>)
    requires id in turns && id !in visiting && turns[id].parent == Some(parent)
    requires Loaded(digest, turns, parent, visiting + {id}) == Some(before)
    ensures Descends(digest, turns, parent, id, before, refs) <==> Loaded(digest, turns, id, visiting) == Some(refs)
  {
    hide Applied;
    hide Framing;
  }

  lemma {:induction false} LoadedHasLineage(digest: string -> string, turns: map<string, StoredTurn>, id: string,
                                            visiting: set<string>)
    returns (ids: seq<string>, contexts: seq<seq<ObjectRef>>)
    requires Loaded(digest, turns, id, visiting).Some?
    ensures EndsIn(digest, turns, ids, contexts, id, Loaded(digest, turns, id, visiting).value, visiting)
    decreases turns.Keys - visiting
  {
    hide Applied;
    hide Framing;
    hide Descends;
    var turn, refs := turns[id], Loaded(digest, turns, id, visiting).value;
    if turn.parent.None? {
      ids, contexts := [id], [refs];
    } else {
      assert id in turns.Keys - visiting;
      var parent := turn.parent.value;
      ids, contexts := LoadedHasLineage(digest, turns, parent, visiting + {id});
      hide Loaded;
      hide Lineage;
      LoadsNext(digest, turns, parent, id, contexts[|ids| - 1], refs, visiting);
      LineageGrows(digest, turns, ids, contexts, id, refs);
      ids, contexts := ids + [id], contexts + [refs];
    }
  }

  lemma LineageGrows(digest: string -> string, turns: map<string, StoredTurn>, ids: seq<string>,
                     contexts: seq<seq<ObjectRef>>, id: string, refs: seq<ObjectRef>)
    requires Lineage(digest, turns, ids, contexts) && id !in ids && id in turns
    requires Descends(digest, turns, ids[|ids| - 1], id, contexts[|ids| - 1], refs)
    ensures Lineage(digest, turns, ids + [id], contexts + [refs])
  {
    hide Rebuilds;
    hide Descends;
    var all, each := ids + [id], contexts + [refs];
    assert all[0] == ids[0] && each[0] == contexts[0];
    assert forall i :: 0 <= i < |ids| ==> all[i] == ids[i] && ids[i] in ids;
    forall i | 0 < i < |all| ensures Descends(digest, turns, all[i - 1], all[i], each[i - 1], each[i]) {
      if i < |ids| {
        assert Descends(digest, turns, ids[i - 1], ids[i], contexts[i - 1], contexts[i]);
      }
    }
  }

  /** A turn loads a context exactly when its ancestors lead to a root without a gap or a cycle,
      and every context on the way is of the length and has the hash it was stored with. */
  lemma LoadedExactly(digest: string -> string, turns: map<string, StoredTurn>, id: string, refs: seq<ObjectRef>)
    ensures Loaded(digest, turns, id, {}) == Some(refs) <==>
      exists ids, contexts :: EndsIn(digest, turns, ids, contexts, id, refs, {})
  {
    hide Loaded;
    if Loaded(digest, turns, id, {}) == Some(refs) {
      var ids, contexts := LoadedHasLineage(digest, turns, id, {});
    }
    if ids, contexts :| EndsIn(digest, turns, ids, contexts, id, refs, {}) {
      LineageLoads(digest, turns, ids, contexts, id, refs, {});
    }
  }

  // ----- Which graphs hold which contexts -----

  /** The base a turn's delta was built on. */
  ghost function BaseOf(turns: map<string, StoredTurn>, contexts: map<string, seq<ObjectRef>>,
                        turn: StoredTurn): seq<ObjectRef>
    requires turn.parent.Some? ==> turn.parent.value in turns && turn.parent.value in contexts
  {
    if turn.parent.None? then []
    else if turn.base.PostTurn? then contexts[turn.parent.value] + turns[turn.parent.value].responses
    else contexts[turn.parent.value]
  }

  /** One turn in order: its parent is stored and older, and its delta leads to its context. */
  ghost predicate Sound(digest: string -> string, turns: map<string, StoredTurn>, contexts: map<string, seq<ObjectRef>>,
                        rank: map<string, nat>, id: string)
    requires id in turns && id in contexts && id in rank
  {
    var turn := turns[id];
    && AllWellFormed(contexts[id])
    && turn.count == |contexts[id]|
    && turn.sequenceHash == SequenceHash(digest, contexts[id])
    && (turn.parent.None? <==> turn.base.Root?)
    && (turn.parent.Some? ==>
          turn.parent.value in turns && turn.parent.value in contexts && turn.parent.value in rank &&
            rank[turn.parent.value] < rank[id])
    && LeadsTo(BaseOf(turns, contexts, turn), contexts[id], turn.ops)
  }

  ghost predicate Holds(digest: string -> string, turns: map<string, StoredTurn>, contexts: map<string, seq<ObjectRef>>,
                        rank: map<string, nat>)
  {
    && contexts.Keys == turns.Keys && rank.Keys == turns.Keys
    && forall id :: id in turns ==> Sound(digest, turns, contexts, rank, id)
  }

  lemma SameHash(digest: string -> string, a: seq<ObjectRef>, b: seq<ObjectRef>)
    requires SameRefs(a, b)
    ensures SequenceHash(digest, a) == SequenceHash(digest, b)
  {
    SameFraming(a, b);
  }

  /** Every stored turn loads, passes its checks, and gives back its context. */
  lemma {:induction false} LoadsContext(digest: string -> string, turns: map<string, StoredTurn>,
                                        contexts: map<string, seq<ObjectRef>>,
                                        rank: map<string, nat>, id: string, visiting: set<string>)
    requires Holds(digest, turns, contexts, rank) && id in turns
    requires forall v :: v in visiting && v in rank ==> rank[v] > rank[id]
    ensures Loaded(digest, turns, id, visiting).Some?
    ensures SameRefs(Loaded(digest, turns, id, visiting).value, contexts[id])
    decreases rank[id]
  {
    hide IsDelta;
    hide Applied;
    hide SequenceHash;
    assert Sound(digest, turns, contexts, rank, id);
    var turn := turns[id];
    if turn.parent.Some? {
      LoadsContext(digest, turns, contexts, rank, turn.parent.value, visiting + {id});
    }
    var base := LoadedBase(digest, turns, id, visiting);
    assert SameRefs(BaseOf(turns, contexts, turn), base.value);
    LeadsRebuilds(BaseOf(turns, contexts, turn), base.value, contexts[id], turn.ops);
    SameHash(digest, Applied(base.value, turn.ops).value, contexts[id]);
  }

  lemma SameRefsMeet(a: seq<ObjectRef>, b: seq<ObjectRef>, c: seq<ObjectRef>)
    requires SameRefs(a, c) && SameRefs(b, c)
    ensures SameRefs(a, b) && |a| == |b|
  {
  }

  /** A turn that changed its base, or a new one, leaves the others sound. */
  lemma SoundUpdate(digest: string -> string, turns: map<string, StoredTurn>, contexts: map<string, seq<ObjectRef>>,
                    rank: map<string, nat>, id: string, turn: StoredTurn, context: seq<ObjectRef>, r: nat)
    requires Holds(digest, turns, contexts, rank)
    requires id in turns ==> turn.responses == turns[id].responses && context == contexts[id] && r == rank[id]
    requires Sound(digest, turns[id := turn], contexts[id := context], rank[id := r], id)
    ensures Holds(digest, turns[id := turn], contexts[id := context], rank[id := r])
  {
    hide IsDelta;
    hide AllWellFormed;
    hide SequenceHash;
    var t, c, n := turns[id := turn], contexts[id := context], rank[id := r];
    forall k | k in t ensures Sound(digest, t, c, n, k) {
      if k != id {
        assert Sound(digest, turns, contexts, rank, k);
        assert BaseOf(t, c, t[k]) == BaseOf(turns, contexts, turns[k]);
      }
    }
  }

  lemma SoundWithout(digest: string -> string, turns: map<string, StoredTurn>, contexts: map<string, seq<ObjectRef>>,
                     rank: map<string, nat>, gone: set<string>)
    requires Holds(digest, turns, contexts, rank)
    requires forall id :: id in turns && turns[id].parent.Some? && turns[id].parent.value in gone ==> id in gone
    ensures Holds(digest, turns - gone, contexts - gone, rank - gone)
  {
    hide IsDelta;
    hide AllWellFormed;
    hide SequenceHash;
    var t, c, n := turns - gone, contexts - gone, rank - gone;
    forall k | k in t ensures Sound(digest, t, c, n, k) {
      assert Sound(digest, turns, contexts, rank, k);
      assert BaseOf(t, c, t[k]) == BaseOf(turns, contexts, turns[k]);
    }
  }

  /** Some element ranks highest. */
  lemma {:induction false} Highest(s: set<string>, rank: map<string, nat>) returns (top: string)
    requires s != {} && s <= rank.Keys
    ensures top in s && forall k :: k in s ==> rank[k] <= rank[top]
    decreases |s|
  {
    top :| top in s;
    if s != {top} {
      var other := Highest(s - {top}, rank);
      if rank[other] > rank[top] {
        top := other;
      }
    }
  }

  class Graph {
    const digest: string -> string
    var turns: map<string, StoredTurn>
    ghost var contexts: map<string, seq<ObjectRef>>
    ghost var rank: map<string, nat>

    ghost predicate Valid()
      reads this
    {
      Holds(digest, turns, contexts, rank)
    }

    constructor (digest: string -> string)
      ensures Valid() && turns == map[] && contexts == map[] && this.digest == digest
    {
      this.digest := digest;
      turns, contexts, rank := map[], map[], map[];
    }

    method Load(id: string, visiting: set<string>) returns (r: Option<seq<ObjectRef>>)
      ensures r == Loaded(digest, turns, id, visiting)
      decreases turns.Keys - visiting
    {
      hide Applied;
      if id in visiting || id !in turns {
        return None;
      }
      var turn := turns[id];
      var base := [];
      if turn.parent.Some? {
        assert id in turns.Keys - visiting && id !in turns.Keys - (visiting + {id});
        var request := Load(turn.parent.value, visiting + {id});
        if request == None || turn.base.Root? {
          return None;
        }
        base := request.value;
        if turn.base.PostTurn? {
          base := base + turns[turn.parent.value].responses;
        }
      } else if !turn.base.Root? {
        return None;
      }
      r := ApplyDelta(base, turn.ops);
      if r == None || |r.value| != turn.count || SequenceHash(digest, r.value) != turn.sequenceHash {
        return None;
      }
    }

    lemma Loads(id: string)
      requires Valid() && id in turns
      ensures id in contexts && Loaded(digest, turns, id, {}).Some?
      ensures SameRefs(Loaded(digest, turns, id, {}).value, contexts[id])
    {
      LoadsContext(digest, turns, contexts, rank, id, {});
    }

    /** A stored turn's context, whatever was stored or deleted since. */
    method Context(id: string) returns (refs: seq<ObjectRef>)
      requires Valid() && id in turns
      ensures SameRefs(refs, contexts[id])
    {
      LoadsContext(digest, turns, contexts, rank, id, {});
      var r := Load(id, {});
      return r.value;
    }

    /** Choose the base with the cheaper delta: the parent's request, or its request with response. */
    method ChooseBase(parent: string, refs: seq<ObjectRef>) returns (kind: BaseKind, base: seq<ObjectRef>)
      requires Valid() && parent in turns
      ensures !kind.Root?
      ensures SameRefs(base, if kind.PostTurn? then contexts[parent] + turns[parent].responses else contexts[parent])
      ensures var request := contexts[parent];
              forall a, b :: IsDelta(request, refs, a) && IsDelta(request + turns[parent].responses, refs, b) ==>
                (kind.Request? <==> Cost(a) <= Cost(b))
    {
      hide IsDelta;
      hide Sound;
      hide Cost;
      var request := Context(parent);
      var post := request + turns[parent].responses;
      var requestOps := BuildDelta(request, refs);
      var postOps := BuildDelta(post, refs);
      var requestCost := DeltaCost(requestOps);
      var postCost := DeltaCost(postOps);
      forall a, b | IsDelta(contexts[parent], refs, a) && IsDelta(contexts[parent] + turns[parent].responses, refs, b)
        ensures a == requestOps && b == postOps
      {
        DeltaOfSame(contexts[parent], request, refs, a);
        DeltaOfSame(contexts[parent] + turns[parent].responses, post, refs, b);
        DeltaUnique(request, refs, a, requestOps);
        DeltaUnique(post, refs, b, postOps);
      }
      if requestCost <= postCost {
        return Request, request;
      }
      return PostTurn, post;
    }

    /** Store a turn under an id not used before; all older contexts stay. */
    method Save(id: string, parent: Option<string>, refs: seq<ObjectRef>, responses: seq<ObjectRef>) returns (ok: bool)
      requires Valid() && AllWellFormed(refs)
      requires parent.Some? ==> parent.value in turns
      modifies this
      ensures Valid()
      ensures ok <==> id !in old(turns)
      ensures !ok ==> turns == old(turns) && contexts == old(contexts)
      ensures ok ==> turns.Keys == old(turns.Keys) + {id} && contexts == old(contexts)[id := refs]
      ensures forall k :: k in old(turns) ==> turns[k] == old(turns[k])
      ensures ok ==> turns[id].parent == parent && turns[id].responses == responses
      ensures ok && parent.Some? ==>
        var request := old(contexts)[parent.value];
        forall a, b :: IsDelta(request, refs, a) && IsDelta(request + old(turns)[parent.value].responses, refs, b) ==>
          (turns[id].base.Request? <==> Cost(a) <= Cost(b))
    {
      hide IsDelta;
      hide SameRefs;
      hide AllWellFormed;
      hide SequenceHash;
      if id in turns {
        return false;
      }
      var kind, base := Root, [];
      if parent.Some? {
        kind, base := ChooseBase(parent.value, refs);
      }
      var ops := BuildDelta(base, refs);
      var turn := StoredTurn(parent, kind, ops, responses, |refs|, SequenceHash(digest, refs));
      ghost var r := if parent.None? then 0 else rank[parent.value] + 1;
      BaseMatches(turn, base, refs);
      SoundUpdate(digest, turns, contexts, rank, id, turn, refs, r);
      turns, contexts, rank := turns[id := turn], contexts[id := refs], rank[id := r];
      return true;
    }

    lemma BaseMatches(turn: StoredTurn, base: seq<ObjectRef>, refs: seq<ObjectRef>)
      requires turn.parent.Some? ==> turn.parent.value in turns && turn.parent.value in contexts
      requires turn.parent.None? ==> base == []
      requires turn.parent.Some? ==> SameRefs(base, BaseOf(turns, contexts, turn))
      requires IsDelta(base, refs, turn.ops)
      ensures LeadsTo(BaseOf(turns, contexts, turn), refs, turn.ops)
    {
      assert SameRefs(refs, refs);
      DeltaOfSame(base, BaseOf(turns, contexts, turn), refs, turn.ops);
    }

    // ----- Retention -----

    /** Make one turn a root that carries its whole context, and check that it still loads. */
    method Checkpoint(id: string, refs: seq<ObjectRef>) returns (ok: bool)
      requires Valid() && id in turns && SameRefs(refs, contexts[id])
      modifies this
      ensures ok && Valid()
      ensures contexts == old(contexts) && rank == old(rank) && turns.Keys == old(turns.Keys)
      ensures turns[id].parent == None && turns[id].responses == old(turns[id].responses)
      ensures forall k :: k in turns && k != id ==> turns[k] == old(turns[k])
    {
      hide IsDelta;
      hide AllWellFormed;
      hide SequenceHash;
      hide SameRefs;
      var ops := BuildDelta([], refs);
      var turn := turns[id].(parent := None, base := Root, ops := ops);
      assert Sound(digest, turns, contexts, rank, id);
      assert LeadsTo([], contexts[id], ops);
      SoundUpdate(digest, turns, contexts, rank, id, turn, contexts[id], rank[id]);
      assert contexts[id := contexts[id]] == contexts && rank[id := rank[id]] == rank;
      turns := turns[id := turn];
      LoadsContext(digest, turns, contexts, rank, id, {});
      var rebuilt := Load(id, {});
      SameRefsMeet(rebuilt.value, refs, contexts[id]);
      SameHash(digest, rebuilt.value, refs);
      ok := rebuilt.Some? && |rebuilt.value| == |refs| &&
        SequenceHash(digest, rebuilt.value) == SequenceHash(digest, refs);
    }

    /** Load the context of every listed turn. */
    method Materialize(children: set<string>) returns (refs: map<string, seq<ObjectRef>>)
      requires Valid() && children <= turns.Keys
      ensures refs.Keys == children
      ensures forall id :: id in refs ==> SameRefs(refs[id], contexts[id])
    {
      hide Sound;
      hide SameRefs;
      refs := map[];
      var todo := children;
      while todo != {}
        invariant todo <= children && refs.Keys == children - todo
        invariant forall id :: id in refs ==> SameRefs(refs[id], contexts[id])
      {
        var id :| id in todo;
        var context := Context(id);
        refs, todo := refs[id := context], todo - {id};
      }
    }

    /** Materialize every retained child of an expired turn, then make each one a root. */
    method CheckpointRetainedChildren(expired: set<string>) returns (ok: bool)
      requires Valid()
      modifies this
      ensures ok && Valid()
      ensures contexts == old(contexts) && turns.Keys == old(turns.Keys)
      ensures forall id :: id in turns && turns[id].parent.Some? && turns[id].parent.value in expired ==> id in expired
      ensures forall id ::
        id in turns && (id in expired || old(turns[id].parent).None? || old(turns[id].parent).value !in expired) ==>
        turns[id] == old(turns[id])
    {
      hide Sound;
      hide SameRefs;
      var children := set id | id in turns && id !in expired && turns[id].parent.Some? &&
        turns[id].parent.value in expired;
      var refs := Materialize(children);
      var todo := children;
      while todo != {}
        invariant Valid() && todo <= children
        invariant contexts == old(contexts) && turns.Keys == old(turns.Keys)
        invariant forall id :: id in children && id !in todo ==> turns[id].parent == None
        invariant forall id :: id in turns && (id in todo || id !in children) ==> turns[id] == old(turns[id])
      {
        var id :| id in todo;
        ok := Checkpoint(id, refs[id]);
        if !ok {
          return;
        }
        todo := todo - {id};
      }
      ok := true;
    }

    /** Delete turns that have no children, until none of the expired ones is left. */
    method DeleteLeafFirst(expired: set<string>) returns (ok: bool)
      requires Valid()
      requires forall id :: id in turns && turns[id].parent.Some? && turns[id].parent.value in expired ==> id in expired
      modifies this
      ensures ok && Valid()
      ensures turns == old(turns) - expired && contexts == old(contexts) - expired
    {
      hide Sound;
      hide Holds;
      SameKeys();
      var remaining := expired * turns.Keys;
      while remaining != {}
        invariant Valid() && remaining == expired * turns.Keys
        invariant turns == old(turns) - (expired - remaining) && contexts == old(contexts) - (expired - remaining)
        invariant forall id :: id in turns && turns[id].parent.Some? && turns[id].parent.value in expired ==>
          id in expired
        decreases remaining
      {
        var leaves := set id | id in remaining && forall c | c in turns :: turns[c].parent != Some(id);
        LeafExists(remaining, expired, leaves);
        if leaves == {} {
          return false;
        }
        SoundWithout(digest, turns, contexts, rank, leaves);
        WithoutTwice(old(turns), expired, remaining, leaves);
        WithoutTwice(old(contexts), expired, remaining, leaves);
        turns, contexts, rank := turns - leaves, contexts - leaves, rank - leaves;
        remaining := remaining - leaves;
      }
      ok := true;
    }

    lemma SameKeys()
      requires Valid()
      ensures contexts.Keys == turns.Keys
    {
    }

    lemma WithoutTwice<V>(m: map<string, V>, expired: set<string>, remaining: set<string>, leaves: set<string>)
      requires leaves <= remaining <= expired
      ensures m - (expired - remaining) - leaves == m - (expired - (remaining - leaves))
    {
    }

    /** Parents are older, so the youngest expired turn has no children left. */
    lemma LeafExists(remaining: set<string>, expired: set<string>, leaves: set<string>)
      requires Valid() && remaining != {} && remaining == expired * turns.Keys
      requires forall id :: id in turns && turns[id].parent.Some? && turns[id].parent.value in expired ==> id in expired
      requires leaves == set id | id in remaining && forall c | c in turns :: turns[c].parent != Some(id)
      ensures leaves != {}
    {
      var top := Highest(remaining, rank);
      forall c | c in turns ensures turns[c].parent != Some(top) {
        assert Sound(digest, turns, contexts, rank, c);
      }
      assert top in leaves;
    }

    /** Retention removes exactly the expired turns and never a surviving turn's context. */
    method DeleteExpired(expired: set<string>) returns (ok: bool)
      requires Valid()
      modifies this
      ensures ok && Valid()
      ensures turns.Keys == old(turns.Keys) - expired
      ensures contexts == old(contexts) - expired
      ensures forall id :: id in turns && (old(turns[id].parent).None? || old(turns[id].parent).value !in expired) ==>
                turns[id] == old(turns[id])
    {
      hide Holds;
      ok := CheckpointRetainedChildren(expired);
      if ok {
        ok := DeleteLeafFirst(expired);
      }
    }
  }

  // ----- Whole runs -----

  datatype Step =
    | StepSave(id: string, parent: Option<string>, refs: seq<ObjectRef>, responses: seq<ObjectRef>)
    | StepExpire(expired: set<string>)

  /** A save is refused under a used id, on a parent that is not there, and with malformed
      references. */
  predicate Admitted(contexts: map<string, seq<ObjectRef>>, step: Step)
    requires step.StepSave?
  {
    step.id !in contexts && (step.parent.Some? ==> step.parent.value in contexts) && AllWellFormed(step.refs)
  }

  function Next(contexts: map<string, seq<ObjectRef>>, step: Step): map<string, seq<ObjectRef>> {
    match step
    case StepSave(id, parent, refs, responses) => if Admitted(contexts, step) then contexts[id := refs] else contexts
    case StepExpire(expired) => contexts - expired
  }

  /** The turns that are left after some steps, with the contexts they were saved with. */
  function Left(steps: seq<Step>): map<string, seq<ObjectRef>> {
    if steps == [] then map[] else Next(Left(steps[..|steps| - 1]), steps[|steps| - 1])
  }

  /** Step k saved a turn that no later step expired. */
  ghost predicate SavedAt(steps: seq<Step>, k: nat, id: string, refs: seq<ObjectRef>) {
    && k < |steps| && steps[k].StepSave? && steps[k].id == id && steps[k].refs == refs
    && id !in Left(steps[..k]) && AllWellFormed(refs)
    && (steps[k].parent.Some? ==> steps[k].parent.value in Left(steps[..k]))
    && forall j :: k < j < |steps| && steps[j].StepExpire? ==> id !in steps[j].expired
  }

  ghost predicate Saved(steps: seq<Step>, id: string, refs: seq<ObjectRef>) {
    exists k :: SavedAt(steps, k, id, refs)
  }

  lemma SavedEarlier(steps: seq<Step>, k: nat, id: string, refs: seq<ObjectRef>)
    requires k < |steps| - 1
    ensures var n := |steps| - 1;
      SavedAt(steps, k, id, refs) <==>
      SavedAt(steps[..n], k, id, refs) && (steps[n].StepExpire? ==> id !in steps[n].expired)
  {
    var n := |steps| - 1;
    assert steps[..n][..k] == steps[..k];
    assert forall j :: 0 <= j < n ==> steps[..n][j] == steps[j];
  }

  /** A turn is left exactly when some step saved it and none expired it since. */
  lemma {:induction false} LeftIsSaved(steps: seq<Step>, id: string, refs: seq<ObjectRef>)
    ensures (id in Left(steps) && Left(steps)[id] == refs) <==> Saved(steps, id, refs)
  {
    if steps != [] {
      hide AllWellFormed;
      var n := |steps| - 1;
      LeftIsSaved(steps[..n], id, refs);
      forall k: nat | k < n
        ensures SavedAt(steps, k, id, refs) <==>
                SavedAt(steps[..n], k, id, refs) && (steps[n].StepExpire? ==> id !in steps[n].expired)
      {
        SavedEarlier(steps, k, id, refs);
      }
      assert Saved(steps, id, refs) <==>
             || SavedAt(steps, n, id, refs)
             || (Saved(steps[..n], id, refs) && (steps[n].StepExpire? ==> id !in steps[n].expired)) by {
        if Saved(steps[..n], id, refs) && (steps[n].StepExpire? ==> id !in steps[n].expired) {
          var k: nat :| SavedAt(steps[..n], k, id, refs);
          assert SavedAt(steps, k, id, refs);
        }
        if Saved(steps, id, refs) {
          var k: nat :| SavedAt(steps, k, id, refs);
          assert k == n || SavedAt(steps[..n], k, id, refs);
        }
      }
    }
  }

  /** Over every sequence of saves and retention deletes, the graph holds exactly the turns that
      were saved and not expired since, and every one of them loads the context it was saved
      with. */
  method Run(digest: string -> string, steps: seq<Step>) returns (graph: Graph)
    ensures graph.Valid() && graph.digest == digest
    ensures graph.contexts == Left(steps) && graph.turns.Keys == Left(steps).Keys
    ensures forall id, refs :: Saved(steps, id, refs) ==>
      && Loaded(digest, graph.turns, id, {}).Some?
      && SameRefs(Loaded(digest, graph.turns, id, {}).value, refs)
    ensures forall id :: id in graph.turns <==> exists refs :: Saved(steps, id, refs)
  {
    hide *;
    graph := new Graph(digest);
    LeftNothing(steps);
    for i := 0 to |steps|
      invariant graph.Valid() && fresh(graph) && graph.digest == digest
      invariant graph.contexts == Left(steps[..i]) && graph.turns.Keys == Left(steps[..i]).Keys
    {
      LeftNext(steps, i);
      Do(graph, steps[i]);
    }
    assert steps[..|steps|] == steps;
    forall id, refs ensures (id in Left(steps) && Left(steps)[id] == refs) <==> Saved(steps, id, refs) {
      LeftIsSaved(steps, id, refs);
    }
    forall id | id in graph.turns
      ensures Loaded(digest, graph.turns, id, {}).Some?
      ensures SameRefs(Loaded(digest, graph.turns, id, {}).value, graph.contexts[id])
    {
      graph.Loads(id);
    }
    forall id ensures id in graph.turns <==> exists refs :: Saved(steps, id, refs) {
      if id in graph.turns {
        assert Saved(steps, id, Left(steps)[id]);
      }
    }
  }

  lemma LeftNothing(steps: seq<Step>)
    ensures Left(steps[..0]) == map[]
  {
  }

  lemma LeftNext(steps: seq<Step>, k: nat)
    requires k < |steps|
    ensures Left(steps[..k + 1]) == Next(Left(steps[..k]), steps[k])
  {
    assert steps[..k + 1][..k] == steps[..k];
  }

  /** One step. A save that is not admitted fails and leaves everything as it was. */
  method Do(graph: Graph, step: Step)
    requires graph.Valid()
    modifies graph
    ensures graph.Valid() && graph.contexts == Next(old(graph.contexts), step)
    ensures graph.turns.Keys == graph.contexts.Keys
  {
    hide Holds;
    hide AllWellFormed;
    graph.SameKeys();
    match step
    case StepSave(id, parent, refs, responses) =>
      if (parent.Some? && parent.value !in graph.turns) || !AllWellFormed(refs) {
        return;
      }
      var ok := graph.Save(id, parent, refs, responses);
    case StepExpire(expired) =>
      var ok := graph.DeleteExpired(expired);
  }
}
