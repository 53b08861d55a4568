/**
 One request context as an edit of another: retain the longest common prefix and the longest
 common suffix of what is left, and replace the middle.
 */
module ContextDelta {
  import opened Wrappers
  import opened SequenceFraming

  datatype Operation = Retain | Delete | Insert | Unknown(name: string)

  datatype ContextOp = ContextOp(operation: Operation, count: int, ref: Option<ObjectRef>)

  predicate WellFormed(ref: ObjectRef) {
    ref.slot != "" && ref.objectHash != ""
  }

  predicate AllWellFormed(refs: seq<ObjectRef>) {
    forall i :: 0 <= i < |refs| ==> WellFormed(refs[i])
  }

  // ----- Applying a delta -----

  /** Operations consume the base from the left; nothing of it may be left over. */
  ghost function Applied(base: seq<ObjectRef>, ops: seq<ContextOp>): Option<seq<ObjectRef>>
    decreases |ops|
  {
    if ops == [] then
      if base == [] then Some([]) else None
    else
      var op := ops[0];
      match op.operation
      case Retain =>
        if op.count <= 0 || op.count > |base| || op.ref.Some? then None
        else Prepend(base[..op.count], Applied(base[op.count..], ops[1..]))
      case Delete =>
        if op.count <= 0 || op.count > |base| || op.ref.Some? then None
        else Applied(base[op.count..], ops[1..])
      case Insert =>
        if op.count != 1 || op.ref.None? || !WellFormed(op.ref.value) then None
        else Prepend([op.ref.value], Applied(base, ops[1..]))
      case Unknown(_) => None
  }

  ghost function Prepend(front: seq<ObjectRef>, rest: Option<seq<ObjectRef>>): Option<seq<ObjectRef>> {
    if rest.None? then None else Some(front + rest.value)
  }

  method ApplyDelta(base: seq<ObjectRef>, ops: seq<ContextOp>) returns (r: Option<seq<ObjectRef>>)
    ensures r == Applied(base, ops)
  {
    var result: seq<ObjectRef> := [];
    var position := 0;
    assert base[0..] == base && ops[0..] == ops;
    PrependNothing(Applied(base, ops));
    for index := 0 to |ops|
      invariant 0 <= position <= |base|
      invariant Prepend(result, Applied(base[position..], ops[index..])) == Applied(base, ops)
    {
      var op := ops[index];
      assert ops[index..][0] == op && ops[index..][1..] == ops[index + 1..];
      match op.operation
      case Retain =>
        if op.count <= 0 || position + op.count > |base| || op.ref.Some? {
          return None;
        }
        var part := base[position..position + op.count];
        assert base[position..][..op.count] == part && base[position..][op.count..] == base[position + op.count..];
        PrependTwice(result, part, Applied(base[position + op.count..], ops[index + 1..]));
        result := result + part;
        position := position + op.count;
      case Delete =>
        if op.count <= 0 || position + op.count > |base| || op.ref.Some? {
          return None;
        }
        assert base[position..][op.count..] == base[position + op.count..];
        position := position + op.count;
      case Insert =>
        if op.count != 1 || op.ref.None? || !WellFormed(op.ref.value) {
          return None;
        }
        PrependTwice(result, [op.ref.value], Applied(base[position..], ops[index + 1..]));
        result := result + [op.ref.value];
      case Unknown(_) =>
        return None;
    }
    assert ops[|ops|..] == [];
    assert result + [] == result;
    if position != |base| {
      return None;
    }
    return Some(result);
  }

  lemma PrependNothing(rest: Option<seq<ObjectRef>>)
    ensures Prepend([], rest) == rest
  {
    if rest.Some? {
      assert [] + rest.value == rest.value;
    }
  }

  lemma PrependTwice(a: seq<ObjectRef>, b: seq<ObjectRef>, rest: Option<seq<ObjectRef>>)
    ensures Prepend(a, Prepend(b, rest)) == Prepend(a + b, rest)
  {
    if rest.Some? {
      assert a + (b + rest.value) == (a + b) + rest.value;
    }
  }

  /** The stretch of references that one operation is about. */
  ghost predicate PartFits(op: ContextOp, part: seq<ObjectRef>) {
    match op.operation
    case Retain => |part| == op.count && op.count > 0 && op.ref.None?
    case Delete => |part| == op.count && op.count > 0 && op.ref.None?
    case Insert =>
      |part| == 1 && op.count == 1 && op.ref == Some(part[0]) && part[0].slot != "" && part[0].objectHash != ""
    case Unknown(_) => false
  }

  /** Stretch by stretch, what is retained or deleted makes up the base, and what is retained or
      inserted makes up the result. */
  ghost predicate Edits(base: seq<ObjectRef>, ops: seq<ContextOp>, refs: seq<ObjectRef>, parts: seq<seq<ObjectRef>>) {
    && |parts| == |ops| && (forall i :: 0 <= i < |ops| ==> PartFits(ops[i], parts[i]))
    && Joined(ops, parts, Insert) == base && Joined(ops, parts, Delete) == refs
  }

  /** All stretches in a row, except those of one operation. */
  ghost function Joined(ops: seq<ContextOp>, parts: seq<seq<ObjectRef>>, except: Operation): seq<ObjectRef>
    requires |parts| == |ops|
  {
    if ops == [] then []
    else (if ops[0].operation == except then [] else parts[0]) + Joined(ops[1..], parts[1..], except)
  }

  /** A delta applies, to a result, exactly when it cuts the base and the result into the same
      retained stretches. */
  lemma AppliedExactly(base: seq<ObjectRef>, ops: seq<ContextOp>, refs: seq<ObjectRef>)
    ensures Applied(base, ops) == Some(refs) <==> exists parts :: Edits(base, ops, refs, parts)
  {
    if parts :| Edits(base, ops, refs, parts) {
      EditsApply(base, ops, refs, parts);
    }
    if Applied(base, ops) == Some(refs) {
      var parts := AppliedEdits(base, ops);
    }
  }

  lemma {:induction false} EditsApply(base: seq<ObjectRef>, ops: seq<ContextOp>, refs: seq<ObjectRef>,
                                      parts: seq<seq<ObjectRef>>)
    requires Edits(base, ops, refs, parts)
    ensures Applied(base, ops) == Some(refs)
    decreases |ops|
  {
    if ops != [] {
      var left, made := Joined(ops[1..], parts[1..], Insert), Joined(ops[1..], parts[1..], Delete);
      EditsApply(left, ops[1..], made, parts[1..]);
      var op, part := ops[0], parts[0];
      assert PartFits(op, part);
      match op.operation
      case Retain => assert base == part + left && base[..op.count] == part && base[op.count..] == left;
      case Delete => assert base == part + left && base[op.count..] == left && refs == made;
      case Insert => assert part == [op.ref.value] && base == left && refs == part + made;
      case Unknown(_) =>
    }
  }

  lemma {:induction false} AppliedEdits(base: seq<ObjectRef>, ops: seq<ContextOp>) returns (parts: seq<seq<ObjectRef>>)
    requires Applied(base, ops).Some?
    ensures Edits(base, ops, Applied(base, ops).value, parts)
    decreases |ops|
  {
    if ops == [] {
      parts := [];
    } else {
      var op := ops[0];
      var part := if op.operation.Insert? then [op.ref.value] else base[..op.count];
      var left := if op.operation.Insert? then base else base[op.count..];
      var rest := AppliedEdits(left, ops[1..]);
      parts := [part] + rest;
      assert parts[1..] == rest;
      assert op.operation.Delete? ==> Applied(base, ops) == Applied(left, ops[1..]);
    }
  }

  // ----- Splices -----

  ghost function Inserts(refs: seq<ObjectRef>): (ops: seq<ContextOp>)
    ensures |ops| == |refs| && forall i :: 0 <= i < |ops| ==> ops[i] == ContextOp(Insert, 1, Some(refs[i]))
  {
    seq(|refs|, i requires 0 <= i < |refs| => ContextOp(Insert, 1, Some(refs[i])))
  }

  ghost function Counted(operation: Operation, count: nat): seq<ContextOp> {
    if count > 0 then [ContextOp(operation, count, None)] else []
  }

  /** Keep a prefix, replace what follows, keep a suffix. */
  ghost function Splice(kept: nat, deleted: nat, inserted: seq<ObjectRef>, suffix: nat): seq<ContextOp> {
    Counted(Retain, kept) + (Counted(Delete, deleted) + (Inserts(inserted) + Counted(Retain, suffix)))
  }

  lemma {:induction false} InsertsApplied(base: seq<ObjectRef>, refs: seq<ObjectRef>, rest: seq<ContextOp>)
    ensures Applied(base, Inserts(refs) + rest) ==
            if AllWellFormed(refs) then Prepend(refs, Applied(base, rest)) else None
    decreases |refs|
  {
    var ops := Inserts(refs) + rest;
    if refs == [] {
      assert ops == rest;
      PrependNothing(Applied(base, rest));
    } else {
      InsertsApplied(base, refs[1..], rest);
      assert ops[1..] == Inserts(refs[1..]) + rest;
      assert ops[0] == ContextOp(Insert, 1, Some(refs[0]));
      assert AllWellFormed(refs) <==> WellFormed(refs[0]) && AllWellFormed(refs[1..]);
      PrependTwice([refs[0]], refs[1..], Applied(base, rest));
      assert [refs[0]] + refs[1..] == refs;
    }
  }

  lemma RetainApplied(base: seq<ObjectRef>, count: nat, rest: seq<ContextOp>)
    ensures Applied(base, Counted(Retain, count) + rest) ==
            if count <= |base| then Prepend(base[..count], Applied(base[count..], rest)) else None
  {
    var ops := Counted(Retain, count) + rest;
    if count == 0 {
      assert ops == rest && base[..0] == [] && base[0..] == base;
      PrependNothing(Applied(base, rest));
    } else {
      assert ops[0] == ContextOp(Retain, count, None) && ops[1..] == rest;
    }
  }

  lemma DeleteApplied(base: seq<ObjectRef>, count: nat, rest: seq<ContextOp>)
    ensures Applied(base, Counted(Delete, count) + rest) ==
            if count <= |base| then Applied(base[count..], rest) else None
  {
    var ops := Counted(Delete, count) + rest;
    if count == 0 {
      assert ops == rest && base[0..] == base;
    } else {
      assert ops[0] == ContextOp(Delete, count, None) && ops[1..] == rest;
    }
  }

  lemma TailApplied(base: seq<ObjectRef>, suffix: nat)
    ensures Applied(base, Counted(Retain, suffix)) == if suffix == |base| then Some(base) else None
  {
    RetainApplied(base, suffix, []);
    assert Counted(Retain, suffix) + [] == Counted(Retain, suffix);
    if suffix == |base| {
      assert base[..suffix] + [] == base;
    }
  }

  lemma MiddleApplied(base: seq<ObjectRef>, inserted: seq<ObjectRef>, suffix: nat)
    ensures Applied(base, Inserts(inserted) + Counted(Retain, suffix)) ==
            if suffix == |base| && AllWellFormed(inserted) then Some(inserted + base) else None
  {
    hide Applied;
    hide AllWellFormed;
    hide Inserts;
    hide Counted;
    InsertsApplied(base, inserted, Counted(Retain, suffix));
    TailApplied(base, suffix);
  }

  lemma CutApplied(base: seq<ObjectRef>, deleted: nat, inserted: seq<ObjectRef>, suffix: nat)
    ensures Applied(base, Counted(Delete, deleted) + (Inserts(inserted) + Counted(Retain, suffix))) ==
            if deleted + suffix == |base| && AllWellFormed(inserted) then Some(inserted + base[deleted..]) else None
  {
    hide Applied;
    hide AllWellFormed;
    hide Inserts;
    hide Counted;
    DeleteApplied(base, deleted, Inserts(inserted) + Counted(Retain, suffix));
    if deleted <= |base| {
      MiddleApplied(base[deleted..], inserted, suffix);
    }
  }

  /** What a splice does, and exactly when it applies. */
  lemma SpliceApplied(base: seq<ObjectRef>, kept: nat, deleted: nat, inserted: seq<ObjectRef>, suffix: nat)
    ensures Applied(base, Splice(kept, deleted, inserted, suffix)) ==
            if kept + deleted + suffix == |base| && AllWellFormed(inserted)
            then Some(base[..kept] + (inserted + base[kept..][deleted..])) else None
  {
    hide Applied;
    hide AllWellFormed;
    hide Inserts;
    hide Counted;
    RetainApplied(base, kept, Counted(Delete, deleted) + (Inserts(inserted) + Counted(Retain, suffix)));
    if kept <= |base| {
      CutApplied(base[kept..], deleted, inserted, suffix);
    }
  }

  lemma DropTwice(s: seq<ObjectRef>, m: nat, n: nat)
    requires m + n <= |s|
    ensures s[m..][n..] == s[m + n..]
  {
  }

  // ----- Building a delta -----

  /** Both ends agree. */
  ghost predicate Agree(base: seq<ObjectRef>, current: seq<ObjectRef>, prefix: nat, suffix: nat) {
    && prefix + suffix <= |base| && prefix + suffix <= |current|
    && (forall i :: 0 <= i < prefix ==> SameRef(base[i], current[i]))
    && (forall i :: |base| - suffix <= i < |base| ==> SameRef(base[i], current[|current| - |base| + i]))
  }

  /** The longest common prefix, then the longest common suffix of the rest. */
  ghost predicate Longest(base: seq<ObjectRef>, current: seq<ObjectRef>, prefix: nat, suffix: nat) {
    && Agree(base, current, prefix, suffix)
    && (prefix < |base| && prefix < |current| ==> !SameRef(base[prefix], current[prefix]))
    && (prefix + suffix < |base| && prefix + suffix < |current| ==>
          !SameRef(base[|base| - suffix - 1], current[|current| - suffix - 1]))
  }

  ghost predicate IsDelta(base: seq<ObjectRef>, current: seq<ObjectRef>, ops: seq<ContextOp>) {
    exists prefix: nat, suffix: nat :: Longest(base, current, prefix, suffix) &&
      ops == DeltaAt(base, current, prefix, suffix)
  }

  ghost function DeltaAt(base: seq<ObjectRef>, current: seq<ObjectRef>, prefix: nat, suffix: nat): seq<ContextOp>
    requires prefix + suffix <= |base| && prefix + suffix <= |current|
  {
    Splice(prefix, |base| - suffix - prefix, current[prefix..|current| - suffix], suffix)
  }

  method BuildDelta(base: seq<ObjectRef>, current: seq<ObjectRef>) returns (ops: seq<ContextOp>)
    ensures IsDelta(base, current, ops)
  {
    hide Longest;
    hide Splice;
    var prefix, suffix := CommonEnds(base, current);
    LongestAgrees(base, current, prefix, suffix);
    ops := EmitSplice(prefix, |base| - suffix - prefix, current[prefix..|current| - suffix], suffix);
    assert ops == DeltaAt(base, current, prefix, suffix);
  }

  method EmitSplice(kept: nat, deleted: nat, inserted: seq<ObjectRef>, suffix: nat) returns (ops: seq<ContextOp>)
    ensures ops == Splice(kept, deleted, inserted, suffix)
  {
    hide Inserts;
    ops := [];
    if kept > 0 {
      ops := [ContextOp(Retain, kept, None)];
    }
    if deleted > 0 {
      ops := ops + [ContextOp(Delete, deleted, None)];
    }
    assert ops == Counted(Retain, kept) + Counted(Delete, deleted);
    ops := EmitInserts(ops, inserted);
    if suffix > 0 {
      ops := ops + [ContextOp(Retain, suffix, None)];
    }
  }

  method EmitInserts(head: seq<ContextOp>, inserted: seq<ObjectRef>) returns (ops: seq<ContextOp>)
    ensures ops == head + Inserts(inserted)
  {
    hide Inserts;
    ops := head;
    InsertsNone(inserted);
    for index := 0 to |inserted|
      invariant ops == head + Inserts(inserted[..index])
    {
      InsertsSnoc(inserted, index);
      ops := ops + [ContextOp(Insert, 1, Some(inserted[index]))];
    }
    assert inserted[..|inserted|] == inserted;
  }

  lemma InsertsNone(refs: seq<ObjectRef>)
    ensures Inserts(refs[..0]) == []
  {
  }

  lemma InsertsSnoc(refs: seq<ObjectRef>, index: nat)
    requires index < |refs|
    ensures Inserts(refs[..index + 1]) == Inserts(refs[..index]) + [ContextOp(Insert, 1, Some(refs[index]))]
  {
  }

  /** Where a delta keeps its ends. */
  lemma DeltaEnds(base: seq<ObjectRef>, current: seq<ObjectRef>, ops: seq<ContextOp>) returns (prefix: nat, suffix: nat)
    requires IsDelta(base, current, ops)
    ensures Longest(base, current, prefix, suffix) && Agree(base, current, prefix, suffix)
    ensures prefix + suffix <= |base| && prefix + suffix <= |current|
    ensures ops == DeltaAt(base, current, prefix, suffix)
  {
    hide Splice;
    prefix, suffix :| Longest(base, current, prefix, suffix) && ops == DeltaAt(base, current, prefix, suffix);
  }

  lemma LongestAgrees(base: seq<ObjectRef>, current: seq<ObjectRef>, prefix: nat, suffix: nat)
    requires Longest(base, current, prefix, suffix)
    ensures Agree(base, current, prefix, suffix)
    ensures prefix + suffix <= |base| && prefix + suffix <= |current|
  {
  }

  method CommonEnds(base: seq<ObjectRef>, current: seq<ObjectRef>) returns (prefix: nat, suffix: nat)
    ensures Longest(base, current, prefix, suffix)
  {
    prefix := 0;
    while prefix < |base| && prefix < |current| && SameRef(base[prefix], current[prefix])
      invariant Agree(base, current, prefix, 0)
    {
      prefix := prefix + 1;
    }
    suffix := 0;
    while |base| - suffix > prefix && |current| - suffix > prefix &&
      SameRef(base[|base| - suffix - 1], current[|current| - suffix - 1])
      invariant Agree(base, current, prefix, suffix)
    {
      suffix := suffix + 1;
    }
  }

  /** Applying the delta rebuilds the current context, and fails only on a malformed insert. */
  lemma DeltaRebuilds(base: seq<ObjectRef>, current: seq<ObjectRef>, ops: seq<ContextOp>)
    requires IsDelta(base, current, ops)
    ensures Applied(base, ops).Some? ==> SameRefs(Applied(base, ops).value, current)
    ensures Applied(base, ops).Some? <==>
      forall i :: 0 <= i < |ops| && ops[i].operation.Insert? ==> WellFormed(ops[i].ref.value)
    ensures AllWellFormed(current) ==> Applied(base, ops).Some?
  {
    hide Applied;
    hide Longest;
    hide Splice;
    hide SameRefs;
    hide AllWellFormed;
    hide IsDelta;
    var prefix, suffix := DeltaEnds(base, current, ops);
    SpliceApplied(base, prefix, |base| - suffix - prefix, current[prefix..|current| - suffix], suffix);
    DropTwice(base, prefix, |base| - suffix - prefix);
    SpliceInserts(prefix, |base| - suffix - prefix, current[prefix..|current| - suffix], suffix);
    AgreeRebuilds(base, current, prefix, suffix);
  }

  lemma AgreeRebuilds(base: seq<ObjectRef>, current: seq<ObjectRef>, prefix: nat, suffix: nat)
    requires Agree(base, current, prefix, suffix)
    ensures SameRefs(base[..prefix] + (current[prefix..|current| - suffix] + base[|base| - suffix..]), current)
    ensures AllWellFormed(current) ==> AllWellFormed(current[prefix..|current| - suffix])
  {
    var r := base[..prefix] + (current[prefix..|current| - suffix] + base[|base| - suffix..]);
    forall i | 0 <= i < |current| ensures SameRef(r[i], current[i]) {
      if i >= |current| - suffix {
        var k := |base| - |current| + i;
        assert r[i] == base[k] && SameRef(base[k], current[i]);
      }
    }
  }

  /** The inserts of a splice are exactly what it inserts. */
  lemma SpliceInserts(kept: nat, deleted: nat, inserted: seq<ObjectRef>, suffix: nat)
    ensures var ops := Splice(kept, deleted, inserted, suffix);
            (forall i :: 0 <= i < |ops| && ops[i].operation.Insert? ==> ops[i].ref.Some?) &&
            ((forall i :: 0 <= i < |ops| && ops[i].operation.Insert? ==>
                WellFormed(ops[i].ref.value)) <==> AllWellFormed(inserted))
  {
    var ops := Splice(kept, deleted, inserted, suffix);
    var start := |Counted(Retain, kept)| + |Counted(Delete, deleted)|;
    assert forall i :: start <= i < start + |inserted| ==> ops[i] == Inserts(inserted)[i - start];
    assert forall i :: 0 <= i < |ops| && ops[i].operation.Insert? ==> start <= i < start + |inserted|;
    if forall i :: 0 <= i < |ops| && ops[i].operation.Insert? ==> WellFormed(ops[i].ref.value) {
      forall i | 0 <= i < |inserted| ensures WellFormed(inserted[i]) {
        assert ops[start + i] == Inserts(inserted)[i];
      }
    }
  }

  /** There is only one delta. */
  lemma DeltaUnique(base: seq<ObjectRef>, current: seq<ObjectRef>, a: seq<ContextOp>, b: seq<ContextOp>)
    requires IsDelta(base, current, a) && IsDelta(base, current, b)
    ensures a == b
  {
    hide Splice;
    hide IsDelta;
    var p, s := DeltaEnds(base, current, a);
    var p', s' := DeltaEnds(base, current, b);
    LongestIsMost(base, current, p, s, p', s');
    LongestIsMost(base, current, p', s', p, s);
  }

  lemma LongestOfSame(base: seq<ObjectRef>, base': seq<ObjectRef>, current: seq<ObjectRef>, prefix: nat, suffix: nat)
    requires Longest(base, current, prefix, suffix) && SameRefs(base, base')
    ensures Longest(base', current, prefix, suffix)
  {
  }

  /** References that look the same have the same deltas. */
  lemma DeltaOfSame(base: seq<ObjectRef>, base': seq<ObjectRef>, current: seq<ObjectRef>, ops: seq<ContextOp>)
    requires IsDelta(base, current, ops) && SameRefs(base, base')
    ensures IsDelta(base', current, ops)
  {
    hide Splice;
    var prefix, suffix := DeltaEnds(base, current, ops);
    LongestOfSame(base, base', current, prefix, suffix);
    assert ops == DeltaAt(base', current, prefix, suffix);
  }

  /** A delta built for a context or for one that looks the same. */
  ghost predicate LeadsTo(base: seq<ObjectRef>, context: seq<ObjectRef>, ops: seq<ContextOp>) {
    exists current :: SameRefs(current, context) && IsDelta(base, current, ops)
  }

  lemma LeadsRebuilds(base: seq<ObjectRef>, base': seq<ObjectRef>, context: seq<ObjectRef>, ops: seq<ContextOp>)
    requires LeadsTo(base, context, ops) && AllWellFormed(context) && SameRefs(base, base')
    ensures Applied(base', ops).Some? && SameRefs(Applied(base', ops).value, context)
  {
    hide IsDelta;
    hide Applied;
    var current :| SameRefs(current, context) && IsDelta(base, current, ops);
    DeltaOfSame(base, base', current, ops);
    DeltaRebuilds(base', current, ops);
  }

  // ----- Cost -----

  ghost function Cost(ops: seq<ContextOp>): int {
    if ops == [] then 0
    else (if ops[0].operation.Delete? || ops[0].operation.Insert? then ops[0].count else 0) + Cost(ops[1..])
  }

  method DeltaCost(ops: seq<ContextOp>) returns (cost: int)
    ensures cost == Cost(ops)
  {
    cost := 0;
    assert ops[0..] == ops;
    for i := 0 to |ops|
      invariant cost + Cost(ops[i..]) == Cost(ops)
    {
      assert ops[i..][1..] == ops[i + 1..];
      if ops[i].operation.Delete? || ops[i].operation.Insert? {
        cost := cost + ops[i].count;
      }
    }
  }

  lemma {:induction false} CostConcat(a: seq<ContextOp>, b: seq<ContextOp>)
    ensures Cost(a + b) == Cost(a) + Cost(b)
  {
    if a == [] {
      assert a + b == b;
    } else {
      assert (a + b)[1..] == a[1..] + b;
      CostConcat(a[1..], b);
    }
  }

  lemma {:induction false} InsertsCost(refs: seq<ObjectRef>)
    ensures Cost(Inserts(refs)) == |refs|
  {
    if refs != [] {
      assert Inserts(refs)[1..] == Inserts(refs[1..]);
      InsertsCost(refs[1..]);
    }
  }

  lemma SpliceCost(kept: nat, deleted: nat, inserted: seq<ObjectRef>, suffix: nat)
    ensures Cost(Splice(kept, deleted, inserted, suffix)) == deleted + |inserted|
  {
    var last := Counted(Retain, suffix);
    CostConcat(Counted(Retain, kept), Counted(Delete, deleted) + (Inserts(inserted) + last));
    CostConcat(Counted(Delete, deleted), Inserts(inserted) + last);
    CostConcat(Inserts(inserted), last);
    InsertsCost(inserted);
  }

  /** Longest ends keep the most that any agreeing ends can keep. */
  lemma LongestIsMost(base: seq<ObjectRef>, current: seq<ObjectRef>, prefix: nat, suffix: nat, p: nat, s: nat)
    requires Longest(base, current, prefix, suffix) && Agree(base, current, p, s)
    ensures p <= prefix && p + s <= prefix + suffix
  {
    assert prefix < |base| && prefix < |current| ==> !SameRef(base[prefix], current[prefix]);
    assert p <= prefix;
    var i := |base| - suffix - 1;
    assert prefix <= i && |current| - |base| + i >= prefix ==> !SameRef(base[i], current[|current| - |base| + i]);
  }

  /** No other single splice that rebuilds the context is cheaper. */
  lemma DeltaIsCheapest(base: seq<ObjectRef>, current: seq<ObjectRef>, ops: seq<ContextOp>,
                        kept: nat, deleted: nat, inserted: seq<ObjectRef>, suffix: nat)
    requires IsDelta(base, current, ops)
    requires Applied(base, Splice(kept, deleted, inserted, suffix)).Some?
    requires SameRefs(Applied(base, Splice(kept, deleted, inserted, suffix)).value, current)
    ensures Cost(ops) <= Cost(Splice(kept, deleted, inserted, suffix))
  {
    hide Applied;
    hide Cost;
    hide Splice;
    hide Longest;
    hide SameRefs;
    hide IsDelta;
    SpliceApplied(base, kept, deleted, inserted, suffix);
    DropTwice(base, kept, deleted);
    SpliceCost(kept, deleted, inserted, suffix);
    var p, s := DeltaEnds(base, current, ops);
    SpliceCost(p, |base| - s - p, current[p..|current| - s], s);
    RebuildAgrees(base, current, kept, inserted, suffix);
    LongestIsMost(base, current, p, s, kept, suffix);
  }

  lemma RebuildAgrees(base: seq<ObjectRef>, current: seq<ObjectRef>, kept: nat, inserted: seq<ObjectRef>, suffix: nat)
    requires kept + suffix <= |base|
    requires SameRefs(base[..kept] + (inserted + base[|base| - suffix..]), current)
    ensures Agree(base, current, kept, suffix)
    ensures |current| == kept + |inserted| + suffix
  {
    var r := base[..kept] + (inserted + base[|base| - suffix..]);
    forall i | 0 <= i < kept ensures SameRef(base[i], current[i]) {
      assert r[i] == base[i];
    }
    forall i | |base| - suffix <= i < |base| ensures SameRef(base[i], current[|current| - |base| + i]) {
      assert r[|r| - |base| + i] == base[i];
    }
  }
}
