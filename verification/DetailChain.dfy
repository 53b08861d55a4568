/**
 Compact analysis details: a chain of nodes, one for the tools and one for each pair of item
 and fingerprint, each named by a fingerprint of its content and its parent's name. Details
 with a common beginning share its nodes.
 */
module DetailChain {
  import opened Words
  import opened Wrappers

  const MAX_ITEMS := 2_000
  const MAX_FPRS := 20_000
  const MAX_NODES := MAX_FPRS + 1

  /** Tools, items and fingerprints may each be absent, which is not the same as empty. */
  datatype Detail = Detail(tools: Option<seq<string>>, items: Option<seq<string>>, fprs: Option<seq<string>>,
                           rest: string)

  datatype Kind = Tools | Pair | OtherKind

  /** A node as it is encoded: absent and empty tools look alike. */
  datatype DetailNode = DetailNode(parent: string, kind: Kind, tools: seq<string>, item: Option<string>,
                                   fpr: Option<string>)

  datatype Stored = Stored(parent: string, payload: DetailNode)

  /** A node handed to or found in storage. */
  datatype Found = Found(hash: string, parent: string, payload: DetailNode)

  datatype Envelope = Envelope(
    schema: int, root: string, nodes: int, items: int, fprs: int,
    itemsNil: bool, fprsNil: bool, toolsNil: bool, embedded: bool, rest: string)

  type Fingerprint = DetailNode -> string

  ghost predicate Ideal(fp: Fingerprint) {
    && (forall n :: fp(n) != "")
    && (forall m, n :: fp(m) == fp(n) ==> m == n)
  }

  // ----- The chain of a detail -----

  function Listed(s: Option<seq<string>>): seq<string> {
    if s.Some? then s.value else []
  }

  /** The number of pairs; the chain has one node more. */
  function Count(d: Detail): nat {
    Max(|Listed(d.items)|, |Listed(d.fprs)|)
  }

  function At(s: seq<string>, i: nat): Option<string> {
    if i < |s| then Some(s[i]) else None
  }

  /** Node k above a given parent: the tools first, then pair k - 1. */
  function NodeAbove(d: Detail, k: nat, parent: string): DetailNode {
    if k == 0 then DetailNode(parent, Tools, Listed(d.tools), None, None)
    else DetailNode(parent, Pair, [], At(Listed(d.items), k - 1), At(Listed(d.fprs), k - 1))
  }

  function HashAt(fp: Fingerprint, d: Detail, k: nat): string
    decreases k, 1
  {
    fp(NodeAbove(d, k, ParentAt(fp, d, k)))
  }

  function ParentAt(fp: Fingerprint, d: Detail, k: nat): string
    decreases k, 0
  {
    if k == 0 then "" else HashAt(fp, d, k - 1)
  }

  function NodeAt(fp: Fingerprint, d: Detail, k: nat): DetailNode {
    NodeAbove(d, k, ParentAt(fp, d, k))
  }

  function FoundAt(fp: Fingerprint, d: Detail, k: nat): Found {
    Found(HashAt(fp, d, k), ParentAt(fp, d, k), NodeAt(fp, d, k))
  }

  predicate Sealable(d: Detail) {
    |Listed(d.items)| <= MAX_ITEMS && |Listed(d.fprs)| <= MAX_FPRS
  }

  function EnvelopeOf(fp: Fingerprint, d: Detail): Envelope {
    Envelope(2, HashAt(fp, d, Count(d)), Count(d) + 1, |Listed(d.items)|, |Listed(d.fprs)|,
             d.items.None?, d.fprs.None?, d.tools.None?, false, d.rest)
  }

  /** Same tools and same first k pairs. */
  ghost predicate Share(d: Detail, e: Detail, k: nat) {
    && Listed(d.tools) == Listed(e.tools)
    && forall i :: 0 <= i < k ==>
      At(Listed(d.items), i) == At(Listed(e.items), i) && At(Listed(d.fprs), i) == At(Listed(e.fprs), i)
  }

  /** Two details have a node in common exactly when they agree up to it. */
  lemma {:induction false} SharedNodes(fp: Fingerprint, d: Detail, e: Detail, i: nat, j: nat)
    requires Ideal(fp)
    ensures HashAt(fp, d, i) == HashAt(fp, e, j) <==> i == j && Share(d, e, i)
    decreases i + j
  {
    var m, n := NodeAt(fp, d, i), NodeAt(fp, e, j);
    assert HashAt(fp, d, i) == HashAt(fp, e, j) <==> m == n;
    if i > 0 && j > 0 {
      SharedNodes(fp, d, e, i - 1, j - 1);
      assert At(Listed(d.items), i - 1) == m.item && At(Listed(d.fprs), i - 1) == m.fpr;
      assert At(Listed(e.items), j - 1) == n.item && At(Listed(e.fprs), j - 1) == n.fpr;
    } else if i == 0 && j == 0 {
    } else {
      assert m.kind != n.kind;
    }
  }

  /** A chain never repeats a node. */
  lemma ChainDistinct(fp: Fingerprint, d: Detail, i: nat, j: nat)
    requires Ideal(fp) && i != j
    ensures HashAt(fp, d, i) != HashAt(fp, d, j)
  {
    SharedNodes(fp, d, d, i, j);
  }

  // ----- Storage -----

  /** Everything is filed under its fingerprint, next to its parent. */
  ghost predicate Closed(fp: Fingerprint, objects: map<string, Stored>) {
    forall h :: h in objects ==>
      && h == fp(objects[h].payload) && objects[h].payload.parent == objects[h].parent
      && (objects[h].parent == "" || objects[h].parent in objects)
  }

  /** The first n nodes of a detail are in storage. */
  ghost predicate HoldsFirst(fp: Fingerprint, objects: map<string, Stored>, d: Detail, n: nat) {
    forall k :: 0 <= k < n ==> Contains(objects, FoundAt(fp, d, k))
  }

  ghost predicate Contains(objects: map<string, Stored>, f: Found) {
    f.hash in objects && objects[f.hash] == Stored(f.parent, f.payload)
  }

  ghost predicate HoldsDetail(fp: Fingerprint, objects: map<string, Stored>, d: Detail) {
    HoldsFirst(fp, objects, d, Count(d) + 1)
  }

  /** The nodes that are not yet stored, in order. */
  ghost function Missing(fp: Fingerprint, objects: map<string, Stored>, d: Detail, n: nat): seq<Found> {
    if n == 0 then []
    else Missing(fp, objects, d, n - 1) + (if HashAt(fp, d, n - 1) in objects then [] else [FoundAt(fp, d, n - 1)])
  }

  /** What one stored detail has in common with another is not sent again. */
  lemma {:induction false} SharedPrefixNotMissing(fp: Fingerprint, objects: map<string, Stored>, d: Detail, e: Detail,
                                                  k: nat)
    requires Ideal(fp) && HoldsDetail(fp, objects, e) && k <= Count(e) && Share(d, e, k)
    ensures Missing(fp, objects, d, k + 1) == []
  {
    SharedNodes(fp, d, e, k, k);
    assert Contains(objects, FoundAt(fp, e, k));
    if k > 0 {
      SharedPrefixNotMissing(fp, objects, d, e, k - 1);
    }
  }

  /** Missing nodes are nodes of the detail, and every node of the detail is stored or missing. */
  lemma {:induction false} MissingNodes(fp: Fingerprint, objects: map<string, Stored>, d: Detail, n: nat)
    ensures forall k :: 0 <= k < n ==> HashAt(fp, d, k) in objects || FoundAt(fp, d, k) in Missing(fp, objects, d, n)
    ensures forall f :: f in Missing(fp, objects, d, n) ==>
      f.hash !in objects && exists k: nat :: k < n && f == FoundAt(fp, d, k)
  {
    hide HashAt;
    if n > 0 {
      MissingNodes(fp, objects, d, n - 1);
      assert FoundAt(fp, d, n - 1).hash == HashAt(fp, d, n - 1);
    }
  }

  /** Storage before, with some nodes added. */
  ghost predicate Added(before: map<string, Stored>, objects: map<string, Stored>, nodes: seq<Found>) {
    && (forall h :: h in before ==> h in objects && objects[h] == before[h])
    && (forall f :: f in nodes ==> Contains(objects, f))
    && (forall h :: h in objects && h !in before ==> exists f :: f in nodes && f.hash == h)
  }

  /** Nodes named by their content, that storage does not have. */
  ghost predicate Fresh(fp: Fingerprint, before: map<string, Stored>, nodes: seq<Found>) {
    forall f :: f in nodes ==> f.hash !in before && f.hash == fp(f.payload) && f.parent == f.payload.parent
  }

  lemma AddNext(fp: Fingerprint, before: map<string, Stored>, objects: map<string, Stored>, nodes: seq<Found>, i: nat)
    requires Ideal(fp) && Fresh(fp, before, nodes) && i < |nodes| && Added(before, objects, nodes[..i])
    ensures Added(before, objects[nodes[i].hash := Stored(nodes[i].parent, nodes[i].payload)], nodes[..i + 1])
  {
    var f := nodes[i];
    var more := objects[f.hash := Stored(f.parent, f.payload)];
    assert nodes[..i + 1] == nodes[..i] + [f];
    assert f in nodes;
    forall g | g in nodes[..i + 1] ensures Contains(more, g) {
      assert g in nodes;
      if g.hash == f.hash {
        assert fp(g.payload) == fp(f.payload);
      }
    }
    forall h | h in more && h !in before ensures exists g :: g in nodes[..i + 1] && g.hash == h {
      if h != f.hash {
        var g :| g in nodes[..i] && g.hash == h;
        assert g in nodes[..i + 1];
      } else {
        assert f in nodes[..i + 1];
      }
    }
  }

  ghost predicate IsNodeOf(fp: Fingerprint, d: Detail, h: string) {
    exists k: nat :: k <= Count(d) && h == HashAt(fp, d, k)
  }

  /** With its missing nodes added, a detail is whole. */
  lemma AddedWhole(fp: Fingerprint, before: map<string, Stored>, objects: map<string, Stored>, d: Detail,
                   nodes: seq<Found>)
    requires Ideal(fp) && Closed(fp, before) && nodes == Missing(fp, before, d, Count(d) + 1)
    requires Added(before, objects, nodes)
    ensures HoldsDetail(fp, objects, d)
  {
    hide Missing;
    hide NodeAbove;
    hide HashAt;
    MissingNodes(fp, before, d, Count(d) + 1);
    forall k | 0 <= k < Count(d) + 1 ensures Contains(objects, FoundAt(fp, d, k)) {
      StoredNode(fp, before, d, k);
    }
  }

  /** A name that was not there before names a node of the detail, next to its parent. */
  lemma AddedName(fp: Fingerprint, before: map<string, Stored>, objects: map<string, Stored>, d: Detail,
                  nodes: seq<Found>, h: string)
    requires nodes == Missing(fp, before, d, Count(d) + 1) && Added(before, objects, nodes)
    requires HoldsDetail(fp, objects, d) && h in objects && h !in before
    ensures IsNodeOf(fp, d, h)
    ensures h == fp(objects[h].payload) && objects[h].payload.parent == objects[h].parent
    ensures objects[h].parent == "" || objects[h].parent in objects
  {
    hide Missing;
    hide NodeAbove;
    MissingNodes(fp, before, d, Count(d) + 1);
    var f :| f in nodes && f.hash == h;
    var k: nat :| k < Count(d) + 1 && f == FoundAt(fp, d, k);
    NodeParent(fp, d, k);
    assert Contains(objects, f);
    if k > 0 {
      assert Contains(objects, FoundAt(fp, d, k - 1));
    }
  }

  /** Storage stays closed. */
  lemma AddedClosed(fp: Fingerprint, before: map<string, Stored>, objects: map<string, Stored>, d: Detail,
                    nodes: seq<Found>)
    requires Ideal(fp) && Closed(fp, before) && nodes == Missing(fp, before, d, Count(d) + 1)
    requires Added(before, objects, nodes)
    ensures HoldsDetail(fp, objects, d) && Closed(fp, objects)
    ensures forall h :: h in objects && h !in before ==> IsNodeOf(fp, d, h)
  {
    hide Missing;
    hide IsNodeOf;
    hide HoldsDetail;
    AddedWhole(fp, before, objects, d, nodes);
    forall h | h in objects && h !in before
      ensures IsNodeOf(fp, d, h)
      ensures h == fp(objects[h].payload) && objects[h].payload.parent == objects[h].parent
      ensures objects[h].parent == "" || objects[h].parent in objects
    {
      AddedName(fp, before, objects, d, nodes, h);
    }
  }

  lemma NodeParent(fp: Fingerprint, d: Detail, k: nat)
    ensures NodeAt(fp, d, k).parent == ParentAt(fp, d, k)
  {
  }

  /** A name in closed storage can only hold the node it names. */
  lemma StoredNode(fp: Fingerprint, objects: map<string, Stored>, d: Detail, k: nat)
    requires Ideal(fp) && Closed(fp, objects)
    ensures HashAt(fp, d, k) in objects ==> Contains(objects, FoundAt(fp, d, k))
  {
    var h := HashAt(fp, d, k);
    if h in objects {
      assert fp(objects[h].payload) == fp(NodeAt(fp, d, k));
      NodeParent(fp, d, k);
    }
  }

  lemma MissingFresh(fp: Fingerprint, objects: map<string, Stored>, d: Detail)
    ensures Fresh(fp, objects, Missing(fp, objects, d, Count(d) + 1))
  {
    MissingNodes(fp, objects, d, Count(d) + 1);
    forall f | f in Missing(fp, objects, d, Count(d) + 1)
      ensures f.hash !in objects && f.hash == fp(f.payload) && f.parent == f.payload.parent
    {
      var k: nat :| k < Count(d) + 1 && f == FoundAt(fp, d, k);
      NodeParent(fp, d, k);
    }
  }

  /** What storage returns from a root downward, at most so many nodes. */
  ghost function Chain(objects: map<string, Stored>, root: string, limit: nat): seq<Found>
    decreases limit
  {
    if limit == 0 || root !in objects then []
    else [Found(root, objects[root].parent, objects[root].payload)] + Chain(objects, objects[root].parent, limit - 1)
  }

  /** From node n - 1 of a stored detail, the chain runs down to its tools. */
  lemma {:induction false} ChainOfDetail(fp: Fingerprint, objects: map<string, Stored>, d: Detail, n: nat)
    requires HoldsFirst(fp, objects, d, n) && n > 0
    ensures var chain := Chain(objects, HashAt(fp, d, n - 1), n);
            |chain| == n && forall i :: 0 <= i < n ==> chain[i] == FoundAt(fp, d, n - 1 - i)
    decreases n
  {
    hide NodeAbove;
    assert Contains(objects, FoundAt(fp, d, n - 1));
    if n > 1 {
      ChainOfDetail(fp, objects, d, n - 1);
      var chain := Chain(objects, HashAt(fp, d, n - 1), n);
      var rest := Chain(objects, HashAt(fp, d, n - 2), n - 1);
      assert chain == [FoundAt(fp, d, n - 1)] + rest;
      forall i | 0 <= i < n ensures chain[i] == FoundAt(fp, d, n - 1 - i) {
        if i > 0 {
          assert chain[i] == rest[i - 1];
        }
      }
    }
  }

  /** Whatever is found in a chain is in storage. */
  lemma {:induction false} ChainStored(objects: map<string, Stored>, root: string, limit: nat, i: nat)
    requires i < |Chain(objects, root, limit)|
    ensures Contains(objects, Chain(objects, root, limit)[i])
    decreases limit
  {
    if i > 0 {
      ChainStored(objects, objects[root].parent, limit - 1, i - 1);
    }
  }

  // ----- What opening accepts -----

  predicate HeaderFits(env: Envelope) {
    && env.schema == 2 && 1 <= env.nodes <= MAX_NODES
    && 0 <= env.items <= MAX_ITEMS && 0 <= env.fprs <= MAX_FPRS
    && env.nodes == Max(env.items, env.fprs) + 1
  }

  /** The checks on the node for pair `index`, or on the tools node when that is negative. */
  predicate NodeFits(fp: Fingerprint, env: Envelope, f: Found, expected: string, index: int) {
    && f.hash == expected && fp(f.payload) == f.hash && f.payload.parent == f.parent
    && (if index < 0 then f.payload.kind.Tools? && f.parent == "" && f.payload.item.None? && f.payload.fpr.None?
        else
          && f.payload.kind.Pair? && f.payload.tools == []
          && f.payload.item.Some? == (index < env.items) && f.payload.fpr.Some? == (index < env.fprs))
  }

  ghost predicate FitsAt(fp: Fingerprint, env: Envelope, nodes: seq<Found>, i: nat)
    requires i < |nodes|
  {
    NodeFits(fp, env, nodes[i], if i == 0 then env.root else nodes[i - 1].parent, |nodes| - i - 2)
  }

  ghost predicate ChainFits(fp: Fingerprint, env: Envelope, nodes: seq<Found>, n: nat)
    requires n <= |nodes|
  {
    && (forall i :: 0 <= i < n ==> FitsAt(fp, env, nodes, i))
    && (forall i, j :: 0 <= i < j < n ==> nodes[i].hash != nodes[j].hash)
  }

  predicate FlagsFit(env: Envelope, tools: seq<string>) {
    && (env.itemsNil ==> env.items == 0) && (env.fprsNil ==> env.fprs == 0) && (env.toolsNil ==> tools == [])
  }

  ghost predicate Opens(fp: Fingerprint, objects: map<string, Stored>, env: Envelope) {
    && HeaderFits(env) && !env.embedded
    && var nodes := Chain(objects, env.root, env.nodes);
    && |nodes| == env.nodes && ChainFits(fp, env, nodes, |nodes|) && nodes[|nodes| - 1].parent == ""
    && FlagsFit(env, nodes[|nodes| - 1].payload.tools)
  }

  function Value(s: Option<string>): string {
    if s.Some? then s.value else ""
  }

  /** The items of a chain, which runs from the last pair to the first. */
  ghost function ItemsOf(env: Envelope, nodes: seq<Found>): (r: seq<string>)
    requires HeaderFits(env) && |nodes| == env.nodes
    ensures |r| == env.items && forall i :: 0 <= i < |r| ==> r[i] == Value(nodes[|nodes| - 2 - i].payload.item)
  {
    seq(env.items, i requires 0 <= i < env.items => Value(nodes[|nodes| - 2 - i].payload.item))
  }

  ghost function FprsOf(env: Envelope, nodes: seq<Found>): (r: seq<string>)
    requires HeaderFits(env) && |nodes| == env.nodes
    ensures |r| == env.fprs && forall i :: 0 <= i < |r| ==> r[i] == Value(nodes[|nodes| - 2 - i].payload.fpr)
  {
    seq(env.fprs, i requires 0 <= i < env.fprs => Value(nodes[|nodes| - 2 - i].payload.fpr))
  }

  /** The detail a chain spells out. */
  ghost function Spelled(env: Envelope, nodes: seq<Found>): Detail
    requires HeaderFits(env) && |nodes| == env.nodes
  {
    Detail(
      if env.toolsNil then None else Some(nodes[|nodes| - 1].payload.tools),
      if env.itemsNil then None else Some(ItemsOf(env, nodes)),
      if env.fprsNil then None else Some(FprsOf(env, nodes)),
      env.rest)
  }

  /** A sealed detail opens, to itself. */
  lemma SealedOpens(fp: Fingerprint, objects: map<string, Stored>, d: Detail)
    requires Ideal(fp) && Sealable(d) && HoldsDetail(fp, objects, d)
    ensures Opens(fp, objects, EnvelopeOf(fp, d))
    ensures Spelled(EnvelopeOf(fp, d), Chain(objects, EnvelopeOf(fp, d).root, Count(d) + 1)) == d
  {
    hide HashAt;
    hide Ideal;
    hide NodeFits;
    hide NodeAbove;
    hide Spelled;
    var env, n := EnvelopeOf(fp, d), Count(d) + 1;
    var nodes := Chain(objects, env.root, n);
    ChainOfDetail(fp, objects, d, n);
    forall i | 0 <= i < n ensures FitsAt(fp, env, nodes, i) {
      DetailFits(fp, d, nodes, i);
    }
    forall i, j | 0 <= i < j < n ensures nodes[i].hash != nodes[j].hash {
      ChainDistinct(fp, d, n - 1 - i, n - 1 - j);
    }
    assert nodes[n - 1] == FoundAt(fp, d, 0);
    ToolsNode(fp, d);
    SpelledBack(fp, d, nodes);
  }

  lemma ToolsNode(fp: Fingerprint, d: Detail)
    ensures FoundAt(fp, d, 0).parent == "" && FoundAt(fp, d, 0).payload.tools == Listed(d.tools)
  {
  }

  lemma DetailFits(fp: Fingerprint, d: Detail, nodes: seq<Found>, i: nat)
    requires |nodes| == Count(d) + 1 && i < |nodes|
    requires forall k :: 0 <= k < |nodes| ==> nodes[k] == FoundAt(fp, d, |nodes| - 1 - k)
    ensures FitsAt(fp, EnvelopeOf(fp, d), nodes, i)
  {
    assert nodes[i] == FoundAt(fp, d, |nodes| - 1 - i);
    if i > 0 {
      assert nodes[i - 1] == FoundAt(fp, d, |nodes| - i);
    }
  }

  lemma SpelledBack(fp: Fingerprint, d: Detail, nodes: seq<Found>)
    requires Sealable(d) && |nodes| == Count(d) + 1
    requires forall k :: 0 <= k < |nodes| ==> nodes[k] == FoundAt(fp, d, |nodes| - 1 - k)
    ensures Spelled(EnvelopeOf(fp, d), nodes) == d
  {
    hide HashAt;
    var e := Spelled(EnvelopeOf(fp, d), nodes);
    var items, fprs := Listed(d.items), Listed(d.fprs);
    forall i | 0 <= i < |items| ensures Value(nodes[|nodes| - 2 - i].payload.item) == items[i] {
      assert nodes[|nodes| - 2 - i] == FoundAt(fp, d, i + 1);
    }
    forall i | 0 <= i < |fprs| ensures Value(nodes[|nodes| - 2 - i].payload.fpr) == fprs[i] {
      assert nodes[|nodes| - 2 - i] == FoundAt(fp, d, i + 1);
    }
    assert nodes[|nodes| - 1] == FoundAt(fp, d, 0);
    assert d.items.Some? ==> e.items.value == items;
    assert d.fprs.Some? ==> e.fprs.value == fprs;
  }

  /** Whatever opens was sealed: from any storage, only a detail whose nodes are all there and
      whose envelope this is. */
  lemma OpenedIsSealed(fp: Fingerprint, objects: map<string, Stored>, env: Envelope)
    requires Opens(fp, objects, env)
    ensures var d := Spelled(env, Chain(objects, env.root, env.nodes));
            Sealable(d) && env == EnvelopeOf(fp, d) && HoldsDetail(fp, objects, d)
  {
    hide HashAt;
    var nodes := Chain(objects, env.root, env.nodes);
    var d := Spelled(env, nodes);
    var n := |nodes|;
    forall k | 0 <= k < n ensures Contains(objects, FoundAt(fp, d, k)) {
      NodesSpelled(fp, env, nodes, k);
      ChainStored(objects, env.root, env.nodes, n - 1 - k);
    }
    assert FitsAt(fp, env, nodes, 0);
    NodesSpelled(fp, env, nodes, n - 1);
  }

  lemma SpelledPair(env: Envelope, nodes: seq<Found>, i: nat)
    requires HeaderFits(env) && |nodes| == env.nodes && i + 1 < |nodes|
    requires (env.itemsNil ==> env.items == 0) && (env.fprsNil ==> env.fprs == 0)
    ensures var d, f := Spelled(env, nodes), nodes[|nodes| - 2 - i].payload;
            && At(Listed(d.items), i) == (if i < env.items then Some(Value(f.item)) else None)
            && At(Listed(d.fprs), i) == (if i < env.fprs then Some(Value(f.fpr)) else None)
  {
    hide ItemsOf;
    hide FprsOf;
    hide Value;
    var d := Spelled(env, nodes);
    assert Listed(d.items) == if env.itemsNil then [] else ItemsOf(env, nodes);
    assert Listed(d.fprs) == if env.fprsNil then [] else FprsOf(env, nodes);
  }

  lemma SpelledNode(fp: Fingerprint, env: Envelope, nodes: seq<Found>, k: nat)
    requires HeaderFits(env) && |nodes| == env.nodes && k < |nodes| && FitsAt(fp, env, nodes, |nodes| - 1 - k)
    requires FlagsFit(env, nodes[|nodes| - 1].payload.tools)
    ensures nodes[|nodes| - 1 - k].payload == NodeAbove(Spelled(env, nodes), k, nodes[|nodes| - 1 - k].parent)
  {
    hide ItemsOf;
    hide FprsOf;
    if k > 0 {
      SpelledPair(env, nodes, k - 1);
    } else {
      assert Listed(Spelled(env, nodes).tools) == nodes[|nodes| - 1].payload.tools;
    }
  }

  lemma {:induction false} NodesSpelled(fp: Fingerprint, env: Envelope, nodes: seq<Found>, k: nat)
    requires HeaderFits(env) && |nodes| == env.nodes && ChainFits(fp, env, nodes, |nodes|) && k < |nodes|
    requires nodes[|nodes| - 1].parent == "" && FlagsFit(env, nodes[|nodes| - 1].payload.tools)
    ensures nodes[|nodes| - 1 - k] == FoundAt(fp, Spelled(env, nodes), k)
  {
    hide Spelled;
    hide NodeAbove;
    assert FitsAt(fp, env, nodes, |nodes| - 1 - k);
    SpelledNode(fp, env, nodes, k);
    if k > 0 {
      NodesSpelled(fp, env, nodes, k - 1);
      assert FitsAt(fp, env, nodes, |nodes| - k);
    }
  }

  ghost predicate FilledFrom(a: seq<string>, b: seq<string>, from: int)
    requires |a| == |b|
  {
    forall k :: 0 <= k < |a| && from <= k ==> a[k] == b[k]
  }

  /** A fitting node carries an item, and a fingerprint, exactly where the header has one. */
  lemma PairInRange(fp: Fingerprint, env: Envelope, nodes: seq<Found>, i: nat)
    requires HeaderFits(env) && |nodes| == env.nodes && i < |nodes| && FitsAt(fp, env, nodes, i)
    ensures var f, index := nodes[i].payload, |nodes| - i - 2;
            index >= 0 ==>
              && (f.item.Some? <==> index < env.items) && (f.item.Some? ==> ItemsOf(env, nodes)[index] == f.item.value)
              && (f.fpr.Some? <==> index < env.fprs) && (f.fpr.Some? ==> FprsOf(env, nodes)[index] == f.fpr.value)
  {
    var index := |nodes| - i - 2;
    assert index >= 0 ==> nodes[|nodes| - 2 - index] == nodes[i];
  }

  lemma ChainFitsNothing(fp: Fingerprint, env: Envelope, nodes: seq<Found>)
    ensures ChainFits(fp, env, nodes, 0)
  {
  }

  lemma ChainNext(fp: Fingerprint, env: Envelope, nodes: seq<Found>, i: nat, seen: set<string>)
    requires i < |nodes| && ChainFits(fp, env, nodes, i) && FitsAt(fp, env, nodes, i)
    requires seen == (set k | 0 <= k < i :: nodes[k].hash) && nodes[i].hash !in seen
    ensures ChainFits(fp, env, nodes, i + 1)
  {
  }

  lemma ChainFails(fp: Fingerprint, env: Envelope, nodes: seq<Found>, i: nat)
    requires i < |nodes|
    requires !FitsAt(fp, env, nodes, i) || exists k :: 0 <= k < i && nodes[k].hash == nodes[i].hash
    ensures !ChainFits(fp, env, nodes, |nodes|)
  {
  }

  // ----- The store -----

  class DetailStore {
    const fp: Fingerprint
    var objects: map<string, Stored>

    ghost predicate Valid()
      reads this
    {
      Ideal(fp) && Closed(fp, objects)
    }

    constructor (fp: Fingerprint)
      requires Ideal(fp)
      ensures Valid() && objects == map[]
    {
      this.fp := fp;
      objects := map[];
    }

    /** Build the chain of a detail, and pick the nodes that are not stored yet. */
    method Seal(d: Detail) returns (r: Option<(Envelope, seq<Found>)>)
      ensures r.Some? <==> Sealable(d)
      ensures r.Some? ==> r.value.0 == EnvelopeOf(fp, d)
      ensures r.Some? ==> r.value.1 == Missing(fp, objects, d, Count(d) + 1)
    {
      hide NodeAbove;
      var items, fprs := Listed(d.items), Listed(d.fprs);
      if |items| > MAX_ITEMS || |fprs| > MAX_FPRS {
        return None;
      }
      var nodes := BuildNodes(d);
      var missing: seq<Found> := [];
      for i := 0 to |nodes|
        invariant missing == Missing(fp, objects, d, i)
      {
        if nodes[i].hash !in objects {
          missing := missing + [nodes[i]];
        }
      }
      var env := Envelope(2, nodes[|nodes| - 1].hash, |nodes|, |items|, |fprs|, d.items.None?, d.fprs.None?,
                          d.tools.None?, false, d.rest);
      return Some((env, missing));
    }

    method BuildNodes(d: Detail) returns (nodes: seq<Found>)
      ensures |nodes| == Count(d) + 1 && forall i :: 0 <= i < |nodes| ==> nodes[i] == FoundAt(fp, d, i)
    {
      var items, fprs := Listed(d.items), Listed(d.fprs);
      var tools := DetailNode("", Tools, Listed(d.tools), None, None);
      var parent := fp(tools);
      nodes := [Found(parent, "", tools)];
      for i := 0 to Count(d)
        invariant |nodes| == i + 1 && parent == HashAt(fp, d, i)
        invariant forall k :: 0 <= k < |nodes| ==> nodes[k] == FoundAt(fp, d, k)
      {
        var item, fpr := None, None;
        if i < |items| {
          item := Some(items[i]);
        }
        if i < |fprs| {
          fpr := Some(fprs[i]);
        }
        var node := DetailNode(parent, Pair, [], item, fpr);
        assert node == NodeAt(fp, d, i + 1);
        nodes := nodes + [Found(fp(node), parent, node)];
        parent := fp(node);
      }
    }

    /** Store a detail's missing nodes with its row. Nothing stored before changes. */
    method Save(d: Detail) returns (r: Option<Envelope>)
      requires Valid()
      modifies this
      ensures Valid()
      ensures r == (if Sealable(d) then Some(EnvelopeOf(fp, d)) else None)
      ensures r.Some? ==> HoldsDetail(fp, objects, d)
      ensures forall h :: h in old(objects) ==> h in objects && objects[h] == old(objects[h])
      ensures forall h :: h in objects && h !in old(objects) ==> IsNodeOf(fp, d, h)
    {
      hide Closed;
      hide IsNodeOf;
      hide HoldsDetail;
      hide Missing;
      hide HashAt;
      hide Ideal;
      var sealed := Seal(d);
      if sealed == None {
        return None;
      }
      var (env, missing) := sealed.value;
      ghost var before := objects;
      MissingFresh(fp, before, d);
      for i := 0 to |missing|
        invariant Added(before, objects, missing[..i])
      {
        AddNext(fp, before, objects, missing, i);
        objects := objects[missing[i].hash := Stored(missing[i].parent, missing[i].payload)];
      }
      assert missing[..|missing|] == missing;
      AddedClosed(fp, before, objects, d, missing);
      return Some(env);
    }

    /** Read a chain from its root, at most so many nodes. */
    method LoadChain(root: string, limit: nat) returns (nodes: seq<Found>)
      ensures nodes == Chain(objects, root, limit)
    {
      nodes := [];
      var next := root;
      while |nodes| < limit && next in objects
        invariant |nodes| <= limit
        invariant nodes + Chain(objects, next, limit - |nodes|) == Chain(objects, root, limit)
        decreases limit - |nodes|
      {
        var found := Found(next, objects[next].parent, objects[next].payload);
        assert nodes + ([found] + Chain(objects, found.parent, limit - |nodes| - 1)) ==
               (nodes + [found]) + Chain(objects, found.parent, limit - |nodes| - 1);
        nodes, next := nodes + [found], found.parent;
      }
      assert nodes + [] == nodes;
    }

    /** Open an envelope: exactly the detail that seals to it and has all its nodes stored,
        whatever else the storage holds. */
    method Open(env: Envelope) returns (r: Option<Detail>)
      requires Ideal(fp)
      ensures forall d :: r == Some(d) <==> Sealable(d) && env == EnvelopeOf(fp, d) && HoldsDetail(fp, objects, d)
    {
      hide HashAt;
      hide Ideal;
      hide ChainFits;
      hide Spelled;
      hide HoldsDetail;
      r := OpenChain(env);
      if r.Some? {
        OpenedIsSealed(fp, objects, env);
      }
      forall d | Sealable(d) && env == EnvelopeOf(fp, d) && HoldsDetail(fp, objects, d) ensures r == Some(d) {
        SealedOpens(fp, objects, d);
      }
    }

    method OpenChain(env: Envelope) returns (r: Option<Detail>)
      ensures r.Some? <==> Opens(fp, objects, env)
      ensures r.Some? ==> r.value == Spelled(env, Chain(objects, env.root, env.nodes))
    {
      hide ChainFits;
      hide ItemsOf;
      hide FprsOf;
      if !HeaderFits(env) {
        return None;
      }
      var nodes := LoadChain(env.root, env.nodes);
      if |nodes| != env.nodes || env.embedded {
        return None;
      }
      var pairs := ReadPairs(env, nodes);
      var tools := nodes[|nodes| - 1].payload.tools;
      if pairs == None || nodes[|nodes| - 1].parent != "" || !FlagsFit(env, tools) {
        return None;
      }
      return Some(Detail(
        if env.toolsNil then None else Some(tools), if env.itemsNil then None else Some(pairs.value.0),
        if env.fprsNil then None else Some(pairs.value.1), env.rest));
    }

    /** Check every node against what its child and the header say, and fill in the pairs. */
    method ReadPairs(env: Envelope, nodes: seq<Found>) returns (r: Option<(seq<string>, seq<string>)>)
      requires HeaderFits(env) && |nodes| == env.nodes
      ensures r.Some? <==> ChainFits(fp, env, nodes, |nodes|)
      ensures r.Some? ==> r.value == (ItemsOf(env, nodes), FprsOf(env, nodes))
    {
      hide NodeFits;
      hide ItemsOf;
      hide FprsOf;
      hide ChainFits;
      var items, fprs := seq(env.items, _ => ""), seq(env.fprs, _ => "");
      var expected, seen := env.root, {};
      ChainFitsNothing(fp, env, nodes);
      for i := 0 to |nodes|
        invariant |items| == env.items && |fprs| == env.fprs
        invariant expected == if i == 0 then env.root else nodes[i - 1].parent
        invariant seen == set k | 0 <= k < i :: nodes[k].hash
        invariant ChainFits(fp, env, nodes, i)
        invariant FilledFrom(items, ItemsOf(env, nodes), |nodes| - 1 - i)
        invariant FilledFrom(fprs, FprsOf(env, nodes), |nodes| - 1 - i)
      {
        var node, index := nodes[i], |nodes| - i - 2;
        if !NodeFits(fp, env, node, expected, index) || node.hash in seen {
          ChainFails(fp, env, nodes, i);
          return None;
        }
        ChainNext(fp, env, nodes, i, seen);
        seen, expected := seen + {node.hash}, node.parent;
        PairInRange(fp, env, nodes, i);
        if index >= 0 {
          if node.payload.item.Some? {
            items := items[index := node.payload.item.value];
          }
          if node.payload.fpr.Some? {
            fprs := fprs[index := node.payload.fpr.value];
          }
        }
      }
      assert items == ItemsOf(env, nodes) && fprs == FprsOf(env, nodes);
      return Some((items, fprs));
    }
  }
}
