/**
 The content-policy keyword automaton: a trie of lower-cased keywords whose nodes carry
 failure links set by a breadth-first pass, and a matcher that walks it byte by byte.

 The first half is about sets of words: what the failure link of a word must be, and that
 following those links computes the longest suffix of the text that is still in the trie.
 The second half is the heap structure itself, proved against the first half.
 */
module KeywordMatcher {

  type Byte = char
  type Word = seq<Byte>

  // ----- Words, suffixes and the trie as a set of words -----

  ghost predicate IsSuffix(x: Word, s: Word) {
    |x| <= |s| && s[|s| - |x|..] == x
  }

  /** A trie's words: the root, and with every word the word one byte shorter. */
  ghost predicate IsTrie(t: set<Word>) {
    [] in t && forall w: Word, c: Byte {:trigger w + [c]} :: w + [c] in t ==> w in t
  }

  /** The longest suffix of s that is a word of the trie. */
  ghost function LongestSuffix(t: set<Word>, s: Word): (r: Word)
    requires IsTrie(t)
    ensures r in t && |r| <= |s|
  {
    if s in t then s else LongestSuffix(t, s[1..])
  }

  lemma {:induction false} LongestSuffixIsSuffix(t: set<Word>, s: Word)
    requires IsTrie(t)
    ensures IsSuffix(LongestSuffix(t, s), s)
  {
    if s !in t {
      LongestSuffixIsSuffix(t, s[1..]);
    }
  }

  lemma {:induction false} LongestSuffixIsLongest(t: set<Word>, s: Word, x: Word)
    requires IsTrie(t) && x in t && IsSuffix(x, s)
    ensures IsSuffix(x, LongestSuffix(t, s))
  {
    if s !in t {
      assert IsSuffix(x, s[1..]);
      LongestSuffixIsLongest(t, s[1..], x);
    }
  }

  lemma TrieGrows(t: set<Word>, w: Word, c: Byte)
    requires IsTrie(t) && w in t
    ensures IsTrie(t + {w + [c]})
  {
    forall v: Word, d: Byte | v + [d] in t + {w + [c]} ensures v in t {
      if v + [d] == w + [c] {
        assert v == (v + [d])[..|v|] && w == (w + [c])[..|w|];
      }
    }
  }

  /** What the failure link of a non-root word has to point at. */
  ghost function FailWord(t: set<Word>, w: Word): (r: Word)
    requires IsTrie(t) && w != []
    ensures |r| < |w| && r in t
  {
    LongestSuffix(t, w[1..])
  }

  /** Where reading byte c from word u leads: the first word on u's failure chain that has
      a child for c, or the root when the chain runs out. */
  ghost function Step(t: set<Word>, u: Word, c: Byte): (r: Word)
    requires IsTrie(t) && u in t
    ensures r in t
    decreases |u|
  {
    if u + [c] in t then u + [c]
    else if u == [] then []
    else Step(t, FailWord(t, u), c)
  }

  /** Two longest suffixes of the same string under the same trie are equal. */
  lemma LongestSuffixUnique(t: set<Word>, s: Word, r: Word)
    requires IsTrie(t)
    requires r in t && IsSuffix(r, s)
    requires forall x :: x in t && IsSuffix(x, s) ==> |x| <= |r|
    ensures r == LongestSuffix(t, s)
  {
    LongestSuffixIsSuffix(t, s);
    LongestSuffixIsLongest(t, s, r);
  }

  lemma SuffixSnoc(x: Word, s: Word, c: Byte)
    ensures IsSuffix(x + [c], s + [c]) <==> IsSuffix(x, s)
  {
    if |x| <= |s| {
      assert (s + [c])[|s| - |x|..] == s[|s| - |x|..] + [c];
      if x + [c] == s[|s| - |x|..] + [c] {
        assert (x + [c])[..|x|] == (s[|s| - |x|..] + [c])[..|x|];
      }
    }
  }

  /** A non-empty suffix of s + [c] is a suffix of s with c appended. */
  lemma SuffixOfSnoc(x: Word, s: Word, c: Byte) returns (p: Word)
    requires x != [] && IsSuffix(x, s + [c])
    ensures x == p + [c] && IsSuffix(p, s)
  {
    p := x[..|x| - 1];
    assert x[|x| - 1] == (s + [c])[|s|];
    assert x == p + [c];
    SuffixSnoc(p, s, c);
  }

  /** Reading one more byte only depends on the longest suffix reached so far. */
  lemma LongestSuffixExtend(t: set<Word>, s: Word, c: Byte)
    requires IsTrie(t)
    ensures LongestSuffix(t, s + [c]) == LongestSuffix(t, LongestSuffix(t, s) + [c])
  {
    var u := LongestSuffix(t, s);
    var r := LongestSuffix(t, u + [c]);
    LongestSuffixIsSuffix(t, s);
    LongestSuffixIsSuffix(t, u + [c]);
    SuffixSnoc(u, s, c);
    SuffixTransitive(r, u + [c], s + [c]);
    forall x | x in t && IsSuffix(x, s + [c])
      ensures |x| <= |r|
    {
      if x != [] {
        var p := SuffixOfSnoc(x, s, c);
        LongestSuffixIsLongest(t, s, p);
        SuffixSnoc(p, u, c);
        LongestSuffixIsLongest(t, u + [c], x);
      }
    }
    LongestSuffixUnique(t, s + [c], r);
  }

  lemma SuffixTransitive(x: Word, y: Word, z: Word)
    requires IsSuffix(x, y) && IsSuffix(y, z)
    ensures IsSuffix(x, z)
  {
  }

  /** The failure-chain walk is exact: from the longest suffix of s it reaches the longest
      suffix of s + [c]. */
  lemma {:induction false} StepIsLongestSuffix(t: set<Word>, s: Word, c: Byte)
    requires IsTrie(t)
    ensures Step(t, LongestSuffix(t, s), c) == LongestSuffix(t, s + [c])
    decreases |LongestSuffix(t, s)|
  {
    LongestSuffixExtend(t, s, c);
    var u := LongestSuffix(t, s);
    if u + [c] in t {
    } else if u == [] {
      assert (u + [c])[1..] == [];
    } else {
      assert (u + [c])[1..] == u[1..] + [c];
      StepIsLongestSuffix(t, u[1..], c);
    }
  }

  /** Hence a child's failure link is found by walking on from its parent's. */
  lemma FailWordOfChild(t: set<Word>, w: Word, c: Byte)
    requires IsTrie(t) && w != [] && w in t
    ensures FailWord(t, w + [c]) == Step(t, FailWord(t, w), c)
  {
    assert (w + [c])[1..] == w[1..] + [c];
    StepIsLongestSuffix(t, w[1..], c);
  }

  // ----- Keywords -----

  ghost predicate EndsWithKeyword(ks: set<Word>, s: Word) {
    exists k :: k in ks && IsSuffix(k, s)
  }

  /** Some keyword occurs in s as a contiguous substring. */
  ghost predicate ContainsKeyword(ks: set<Word>, s: Word) {
    exists k, i :: k in ks && OccursAt(k, s, i)
  }

  ghost predicate OccursAt(k: Word, s: Word, i: int) {
    0 <= i && i + |k| <= |s| && s[i..i + |k|] == k
  }

  /** The words of a trie that holds the keywords. */
  ghost predicate TrieOf(t: set<Word>, ks: set<Word>) {
    IsTrie(t) && ks <= t && [] !in ks
  }

  /** It holds nothing but prefixes of keywords. */
  ghost predicate OnlyPrefixes(t: set<Word>, ks: set<Word>) {
    forall w :: w in t ==> w == [] || StartsKeyword(w, ks)
  }

  ghost predicate StartsKeyword(w: Word, ks: set<Word>) {
    exists k :: k in ks && w <= k
  }

  /** A keyword ends at a text position exactly when one ends at the automaton's state. */
  lemma KeywordAtState(t: set<Word>, ks: set<Word>, s: Word)
    requires TrieOf(t, ks)
    ensures EndsWithKeyword(ks, s) <==> EndsWithKeyword(ks, LongestSuffix(t, s))
  {
    LongestSuffixIsSuffix(t, s);
    if EndsWithKeyword(ks, s) {
      var k :| k in ks && IsSuffix(k, s);
      LongestSuffixIsLongest(t, s, k);
    }
    if EndsWithKeyword(ks, LongestSuffix(t, s)) {
      var k :| k in ks && IsSuffix(k, LongestSuffix(t, s));
      SuffixTransitive(k, LongestSuffix(t, s), s);
    }
  }

  /** The flag a node must carry: its own word is a keyword, or its failure word's flag. */
  lemma KeywordThroughFail(t: set<Word>, ks: set<Word>, w: Word)
    requires TrieOf(t, ks) && w in t && w != []
    ensures EndsWithKeyword(ks, w) <==> w in ks || EndsWithKeyword(ks, FailWord(t, w))
  {
    KeywordAtState(t, ks, w[1..]);
    if EndsWithKeyword(ks, w) && w !in ks {
      var k :| k in ks && IsSuffix(k, w);
      assert IsSuffix(k, w[1..]);
    }
    if EndsWithKeyword(ks, w[1..]) {
      var k :| k in ks && IsSuffix(k, w[1..]);
      assert IsSuffix(k, w);
    }
    assert IsSuffix(w, w);
  }

  /** One more byte adds exactly the occurrences that end at it. */
  lemma ContainsSnoc(ks: set<Word>, s: Word, c: Byte)
    ensures ContainsKeyword(ks, s + [c]) <==> ContainsKeyword(ks, s) || EndsWithKeyword(ks, s + [c])
  {
    var t := s + [c];
    if ContainsKeyword(ks, t) {
      var k, i :| k in ks && OccursAt(k, t, i);
      if i + |k| == |t| {
        assert IsSuffix(k, t);
      } else {
        assert t[i..i + |k|] == s[i..i + |k|];
        assert OccursAt(k, s, i);
      }
    }
    if ContainsKeyword(ks, s) {
      var k, i :| k in ks && OccursAt(k, s, i);
      assert t[i..i + |k|] == s[i..i + |k|];
      assert OccursAt(k, t, i);
    }
    if EndsWithKeyword(ks, t) {
      var k :| k in ks && IsSuffix(k, t);
      assert OccursAt(k, t, |t| - |k|);
    }
  }

  lemma ContainsInPrefix(ks: set<Word>, s: Word, i: int)
    requires 0 <= i <= |s| && ContainsKeyword(ks, s[..i])
    ensures ContainsKeyword(ks, s)
  {
    var k, j :| k in ks && OccursAt(k, s[..i], j);
    assert s[..i][j..j + |k|] == s[j..j + |k|];
    assert OccursAt(k, s, j);
  }

  lemma StartState(t: set<Word>, ks: set<Word>)
    requires TrieOf(t, ks)
    ensures LongestSuffix(t, []) == [] && !ContainsKeyword(ks, [])
  {
    assert forall k, i :: OccursAt(k, [], i) ==> k == [];
  }

  /** The keywords a matcher is asked for: the lowered list without its empty entries. */
  ghost function Lowered(keywords: seq<Word>, lower: Word -> Word): (ks: set<Word>)
    ensures [] !in ks
  {
    set i | 0 <= i < |keywords| && lower(keywords[i]) != [] :: lower(keywords[i])
  }

  // ----- The heap -----

  class Node {
    var next: map<Byte, Node>
    var fail: Node?
    var out: bool
    ghost const word: Word

    constructor (ghost word: Word)
      ensures next == map[] && fail == null && !out && this.word == word
    {
      next, fail, out := map[], null, false;
      this.word := word;
    }
  }

  /** at maps every word of the trie to its own node, and child maps follow the words. */
  ghost predicate Shape(at: map<Word, Node>)
    reads at.Values`next
  {
    && IsTrie(at.Keys)
    && (forall w :: w in at ==> at[w].word == w)
    && (forall w :: w in at ==> forall c :: c in at[w].next <==> w + [c] in at)
    && (forall w, c :: w in at && c in at[w].next ==> at[w].next[c] == at[w + [c]])
  }

  lemma ShapeAt(at: map<Word, Node>, w: Word)
    requires Shape(at) && w in at
    ensures forall c: Byte {:trigger w + [c]} :: c in at[w].next <==> w + [c] in at
    ensures forall c: Byte :: c in at[w].next ==> w + [c] in at && at[w].next[c] == at[w + [c]]
  {
  }

  lemma ShapeNames(at: map<Word, Node>)
    requires Shape(at)
    ensures forall w :: w in at ==> at[w].word == w
  {
  }

  /** The node of a word carries its final failure link and flag. */
  ghost predicate LinkedAt(at: map<Word, Node>, ks: set<Word>, w: Word)
    requires IsTrie(at.Keys) && w in at
    reads at[w]
  {
    && at[w].fail == (if w == [] then null else at[FailWord(at.Keys, w)])
    && (at[w].out <==> EndsWithKeyword(ks, w))
  }

  ghost predicate Linked(at: map<Word, Node>, ks: set<Word>)
    requires IsTrie(at.Keys)
    reads at.Values
  {
    forall w {:trigger LinkedAt(at, ks, w)} :: w in at ==> LinkedAt(at, ks, w)
  }

  class Matcher {
    const root: Node
    ghost const at: map<Word, Node>
    ghost const keywords: set<Word>
    const lower: Word -> Word

    ghost predicate Valid()
      reads at.Values
    {
      && Shape(at) && TrieOf(at.Keys, keywords)
      && root == at[[]]
      && Linked(at, keywords)
    }

    /** Build the automaton of a keyword list: trie first, then failure links. */
    constructor (list: seq<Word>, lower: Word -> Word)
      ensures Valid() && fresh(at.Values)
      ensures keywords == Lowered(list, lower) && this.lower == lower
    {
      var root, at := BuildTrie(list, lower);
      LinkTrie(root, at, Lowered(list, lower));
      this.root, this.at, this.lower := root, at, lower;
      this.keywords := Lowered(list, lower);
    }

    /** Match is plain substring search for the lowered keywords in the lowered text. */
    method Match(text: Word) returns (found: bool)
      requires Valid()
      requires lower([]) == []
      ensures found <==> ContainsKeyword(keywords, lower(text))
    {
      var s := lower(text);
      StartState(at.Keys, keywords);
      if text == [] {
        return false;
      }
      var node := root;
      var i := 0;
      assert s[..0] == [];
      while i < |s|
        invariant 0 <= i <= |s|
        invariant node == at[LongestSuffix(at.Keys, s[..i])]
        invariant Valid() && !ContainsKeyword(keywords, s[..i])
      {
        assert s[..i + 1] == s[..i] + [s[i]];
        ContainsSnoc(keywords, s[..i], s[i]);
        var hit;
        node, hit := Advance(node, s[i], s[..i]);
        i := i + 1;
        if hit {
          ContainsInPrefix(keywords, s, i);
          return true;
        }
      }
      assert s[..|s|] == s;
      return false;
    }

    /** One byte of text: the automaton state follows the longest suffix, and the node's
        flag says whether a keyword ends here. */
    method Advance(node: Node, c: Byte, ghost s: Word) returns (next: Node, hit: bool)
      requires Valid()
      requires node == at[LongestSuffix(at.Keys, s)]
      ensures next == at[LongestSuffix(at.Keys, s + [c])]
      ensures hit <==> EndsWithKeyword(keywords, s + [c])
    {
      ghost var t := at.Keys;
      StepIsLongestSuffix(t, s, c);
      KeywordAtState(t, keywords, s + [c]);
      var child := Walk(node, c, at, keywords, LongestSuffix(t, s));
      if child == null {
        return root, false;
      }
      assert LinkedAt(at, keywords, LongestSuffix(t, s + [c]));
      return child, child.out;
    }
  }

  /** Follow failure links from the node of word u until one has a child for c. */
  method Walk(start: Node, c: Byte, ghost at: map<Word, Node>, ghost ks: set<Word>, ghost u: Word)
    returns (child: Node?)
    requires Shape(at) && u in at && start == at[u]
    requires forall w {:trigger LinkedAt(at, ks, w)} :: w in at && |w| <= |u| ==> LinkedAt(at, ks, w)
    ensures child == null ==> Step(at.Keys, u, c) == []
    ensures child != null ==> Step(at.Keys, u, c) != [] && child == at[Step(at.Keys, u, c)]
  {
    var node: Node? := start;
    ghost var v := u;
    while node != null && c !in node.next
      invariant node != null ==> v in at && |v| <= |u| && node == at[v]
      invariant node != null ==> Step(at.Keys, v, c) == Step(at.Keys, u, c)
      invariant node == null ==> Step(at.Keys, u, c) == []
      decreases if node == null then -1 else |v|
    {
      assert LinkedAt(at, ks, v);
      node := node.fail;
      v := if v == [] then v else FailWord(at.Keys, v);
    }
    if node == null {
      return null;
    }
    return node.next[c];
  }

  // ----- Building the trie -----

  /** Nodes not linked yet: flags mark exactly the keywords inserted so far. */
  ghost predicate Unlinked(at: map<Word, Node>, ks: set<Word>)
    reads at.Values
  {
    forall w :: w in at ==> at[w].fail == null && (at[w].out <==> w in ks)
  }

  method BuildTrie(list: seq<Word>, lower: Word -> Word) returns (root: Node, ghost at: map<Word, Node>)
    ensures Shape(at) && TrieOf(at.Keys, Lowered(list, lower)) && fresh(at.Values)
    ensures root == at[[]] && OnlyPrefixes(at.Keys, Lowered(list, lower))
    ensures Unlinked(at, Lowered(list, lower))
  {
    hide OnlyPrefixes;
    hide AddsPrefixes;
    hide Lowered;
    root := new Node([]);
    at := map[[] := root];
    LoweredNone(list, lower);
    OnlyRoot(at.Keys, {});
    for i := 0 to |list|
      invariant Shape(at) && fresh(at.Values) && [] in at && root == at[[]]
      invariant Lowered(list[..i], lower) <= at.Keys
      invariant Unlinked(at, Lowered(list[..i], lower))
      invariant OnlyPrefixes(at.Keys, Lowered(list[..i], lower))
    {
      var word := lower(list[i]);
      ghost var before := Lowered(list[..i], lower);
      LoweredNext(list, lower, i);
      if word == [] {
        assert Lowered(list[..i + 1], lower) == before;
        continue;
      }
      ghost var was := at.Keys;
      at := Insert(root, word, at, before);
      PrefixesGrow(was, before, at.Keys, word);
    }
    assert list[..|list|] == list;
  }

  lemma OnlyRoot(t: set<Word>, ks: set<Word>)
    requires forall w :: w in t ==> w == []
    ensures OnlyPrefixes(t, ks)
  {
  }

  lemma PrefixesGrow(t: set<Word>, ks: set<Word>, grown: set<Word>, word: Word)
    requires OnlyPrefixes(t, ks) && AddsPrefixes(t, grown, word)
    ensures OnlyPrefixes(grown, ks + {word})
  {
    forall w | w in grown && w != [] ensures StartsKeyword(w, ks + {word}) {
      if w in t {
        var k :| k in ks && w <= k;
        assert k in ks + {word};
      } else {
        assert word in ks + {word};
      }
    }
  }

  /** What one insertion adds to a trie: prefixes of the word. */
  ghost predicate AddsPrefixes(t: set<Word>, grown: set<Word>, word: Word) {
    forall w :: w in grown && w !in t ==> w <= word
  }

  /** Insert one keyword: its path, and the flag at its end. */
  method Insert(root: Node, word: Word, ghost at: map<Word, Node>, ghost ks: set<Word>)
    returns (ghost after: map<Word, Node>)
    requires Shape(at) && root == at[[]]
    requires ks <= at.Keys && Unlinked(at, ks)
    modifies at.Values
    ensures Shape(after) && Grown(at, after) && word in after && AddsPrefixes(at.Keys, after.Keys, word)
    ensures fresh(after.Values - at.Values)
    ensures Unlinked(after, ks + {word})
  {
    var node;
    node, after := InsertPath(root, word, at, ks);
    node.out := true;
  }

  lemma LoweredNone(list: seq<Word>, lower: Word -> Word)
    ensures Lowered(list[..0], lower) == {}
  {
  }

  lemma LoweredNext(list: seq<Word>, lower: Word -> Word, i: int)
    requires 0 <= i < |list|
    ensures Lowered(list[..i + 1], lower) ==
            Lowered(list[..i], lower) + (if lower(list[i]) == [] then {} else {lower(list[i])})
  {
    var a, b := list[..i], list[..i + 1];
    assert b == a + [list[i]];
    forall x | x in Lowered(a, lower) ensures x in Lowered(b, lower) {
      var j :| 0 <= j < |a| && lower(a[j]) != [] && x == lower(a[j]);
      assert b[j] == a[j];
    }
    if lower(list[i]) != [] {
      assert b[i] == list[i];
    }
  }

  /** Give the node of word w a fresh child for byte c. */
  method AddChild(node: Node, c: Byte, ghost w: Word, ghost at: map<Word, Node>, ghost ks: set<Word>)
    returns (child: Node, ghost grown: map<Word, Node>)
    requires Shape(at) && w in at && node == at[w] && c !in node.next
    requires ks <= at.Keys && Unlinked(at, ks)
    modifies node`next
    ensures fresh(child) && grown == at[w + [c] := child]
    ensures Shape(grown) && Unlinked(grown, ks)
  {
    child := new Node(w + [c]);
    node.next := node.next[c := child];
    grown := at[w + [c] := child];
    TrieGrows(at.Keys, w, c);
    assert grown.Keys == at.Keys + {w + [c]};
    assert w + [c] !in at;
    forall v: Word, d: Byte | v in grown
      ensures d in grown[v].next <==> v + [d] in grown
      ensures d in grown[v].next ==> grown[v].next[d] == grown[v + [d]]
    {
      SnocInjective(v, d, w, c);
      if v != w + [c] && d in old(at[v].next) {
        assert old(at[v].next[d]) == at[v + [d]];
      }
    }
  }

  lemma SnocInjective(v: Word, d: Byte, w: Word, c: Byte)
    ensures v + [d] == w + [c] ==> v == w && d == c
  {
    assert (v + [d])[..|v|] == v && (w + [c])[..|w|] == w;
  }

  /** Descend along word, creating the nodes that are missing. */
  method InsertPath(root: Node, word: Word, ghost at: map<Word, Node>, ghost ks: set<Word>)
    returns (node: Node, ghost after: map<Word, Node>)
    requires Shape(at) && [] in at && root == at[[]]
    requires ks <= at.Keys && Unlinked(at, ks)
    modifies at.Values
    ensures Shape(after) && word in after && node == after[word] && AddsPrefixes(at.Keys, after.Keys, word)
    ensures Grown(at, after) && fresh(after.Values - at.Values)
    ensures Unlinked(after, ks)
  {
    hide Shape;
    hide Unlinked;
    node, after := root, at;
    var i := 0;
    while i < |word|
      invariant 0 <= i <= |word|
      invariant Shape(after) && word[..i] in after && node == after[word[..i]]
      invariant Grown(at, after) && fresh(after.Values - at.Values)
      invariant Unlinked(after, ks) && AddsPrefixes(at.Keys, after.Keys, word)
    {
      assert word[..i + 1] == word[..i] + [word[i]];
      ShapeAt(after, word[..i]);
      if word[i] in node.next {
        node := node.next[word[i]];
      } else {
        node, after := AddChild(node, word[i], word[..i], after, ks);
      }
      i := i + 1;
    }
    assert word[..|word|] == word;
  }

  ghost predicate Grown(at: map<Word, Node>, after: map<Word, Node>) {
    at.Keys <= after.Keys && forall w :: w in at ==> after[w] == at[w]
  }

  // ----- Linking the trie -----

  /** Linked nodes are final; the others still carry only their own keyword flag. */
  ghost predicate Progress(at: map<Word, Node>, ks: set<Word>, linked: set<Word>)
    requires IsTrie(at.Keys)
    reads at.Values
  {
    && linked <= at.Keys
    && (forall w {:trigger LinkedAt(at, ks, w)} :: w in linked ==> LinkedAt(at, ks, w))
    && (forall w :: w in at && w !in linked ==> (at[w].out <==> w in ks))
  }

  /** The breadth-first queue: ordered by depth and at most one level deep, holding the
      linked words whose children are still to be linked. */
  ghost predicate Frontier(t: set<Word>, linked: set<Word>, q: seq<Word>) {
    && [] in linked && linked <= t
    && (forall i :: 0 <= i < |q| ==> q[i] in linked && q[i] != [])
    && (forall i, j :: 0 <= i < j < |q| ==> q[i] != q[j] && |q[i]| <= |q[j]|)
    && (forall i :: 0 <= i < |q| ==> |q[i]| <= |q[0]| + 1)
    && (forall w: Word, c: Byte {:trigger w + [c]} :: w + [c] in t && w in linked ==>
          (w + [c] in linked <==> w !in q))
    && (forall w: Word, c: Byte {:trigger w + [c]} :: w + [c] in linked ==> w in linked)
  }

  /** Every word no longer than the queue's head is linked already. */
  lemma {:induction false} ShortWordsLinked(t: set<Word>, linked: set<Word>, q: seq<Word>, v: Word)
    requires IsTrie(t) && Frontier(t, linked, q) && q != []
    requires v in t && |v| <= |q[0]|
    ensures v in linked
    decreases |v|
  {
    if v != [] {
      var p := v[..|v| - 1];
      assert v == p + [v[|v| - 1]];
      ShortWordsLinked(t, linked, q, p);
    }
  }

  lemma HeadReady(t: set<Word>, linked: set<Word>, q: seq<Word>)
    requires IsTrie(t) && Frontier(t, linked, q) && q != []
    ensures forall v :: v in t && |v| <= |q[0]| ==> v in linked
    ensures forall c: Byte {:trigger q[0] + [c]} :: q[0] + [c] !in linked
  {
    forall v | v in t && |v| <= |q[0]| ensures v in linked {
      ShortWordsLinked(t, linked, q, v);
    }
  }

  /** With the queue empty, everything is linked. */
  lemma {:induction false} AllLinked(t: set<Word>, linked: set<Word>, v: Word)
    requires IsTrie(t) && Frontier(t, linked, []) && v in t
    ensures v in linked
    decreases |v|
  {
    if v != [] {
      var p := v[..|v| - 1];
      assert v == p + [v[|v| - 1]];
      AllLinked(t, linked, p);
    }
  }

  /** The words of the children of w, in some order. */
  ghost predicate ChildWords(t: set<Word>, w: Word, words: seq<Word>) {
    && (forall i :: 0 <= i < |words| ==> |words[i]| == |w| + 1 && words[i][..|w|] == w && words[i] in t)
    && (forall i, j :: 0 <= i < j < |words| ==> words[i] != words[j])
    && (forall c: Byte {:trigger w + [c]} :: w + [c] in t ==> w + [c] in words)
  }

  ghost predicate NodesOf(at: map<Word, Node>, nodes: seq<Node>, words: seq<Word>) {
    |nodes| == |words| && forall i :: 0 <= i < |words| ==> words[i] in at && nodes[i] == at[words[i]]
  }

  ghost function Elements(words: seq<Word>): set<Word> {
    set w | w in words
  }

  /** Replacing the queue's head by its children keeps the frontier. */
  lemma FrontierAdvances(t: set<Word>, linked: set<Word>, q: seq<Word>, words: seq<Word>)
    requires IsTrie(t) && Frontier(t, linked, q) && q != []
    requires ChildWords(t, q[0], words)
    ensures Frontier(t, linked + Elements(words), q[1..] + words)
    ensures forall i :: 0 <= i < |words| ==> words[i] !in linked
  {
    var w := q[0];
    forall i | 0 <= i < |words| ensures words[i] !in linked && words[i] == w + [words[i][|w|]] {
      assert words[i] == w + [words[i][|w|]];
    }
    var q', linked' := q[1..] + words, linked + Elements(words);
    forall v: Word, c: Byte | v + [c] in t && v in linked' ensures v + [c] in linked' <==> v !in q' {
      ChildOfFrontier(t, linked, q, words, v, c);
    }
    forall v: Word, c: Byte | v + [c] in linked' ensures v in linked' {
      if v + [c] !in linked {
        assert (v + [c])[..|v|] == v;
      }
    }
  }

  lemma ChildOfFrontier(t: set<Word>, linked: set<Word>, q: seq<Word>, words: seq<Word>, v: Word, c: Byte)
    requires IsTrie(t) && Frontier(t, linked, q) && q != []
    requires ChildWords(t, q[0], words)
    requires v + [c] in t && v in linked + Elements(words)
    ensures v + [c] in linked + Elements(words) <==> v !in q[1..] + words
  {
    var w := q[0];
    assert (v + [c])[..|v|] == v;
    if v == w {
      assert w !in q[1..] && w !in words;
    } else if v in words {
      assert |v| == |w| + 1 && v + [c] !in words;
      assert v == w + [v[|w|]];
      assert v !in linked;
    } else {
      assert v in q <==> v in q[1..];
      assert v + [c] !in words;
    }
  }

  /** Link the root's children: they all fail to the root. */
  method LinkTop(root: Node, ghost at: map<Word, Node>, ghost ks: set<Word>)
    returns (queue: seq<Node>, ghost words: seq<Word>)
    requires Shape(at) && TrieOf(at.Keys, ks) && root == at[[]] && Unlinked(at, ks)
    modifies at.Values`fail, at.Values`out
    ensures NodesOf(at, queue, words) && ChildWords(at.Keys, [], words)
    ensures Progress(at, ks, {[]} + Elements(words))
  {
    hide Elements;
    hide Progress;
    hide SomeChildren;
    hide Shape;
    queue, words := [], [];
    ShapeAt(at, []);
    var todo := root.next.Keys;
    RootReady(at, ks);
    NoChildYet(at.Keys, [], todo, {[]});
    while todo != {}
      invariant Shape(at) && todo <= root.next.Keys
      invariant NodesOf(at, queue, words) && SomeChildren(at.Keys, [], words, todo)
      invariant Progress(at, ks, {[]} + Elements(words))
      decreases todo
    {
      var c :| c in todo;
      ShapeAt(at, []);
      var child := root.next[c];
      NextChild(at.Keys, [], words, todo, c, {[]});
      LinkTopChild(root, child, c, at, ks, {[]} + Elements(words));
      queue, words, todo := queue + [child], words + [[] + [c]], todo - {c};
    }
    NoChildrenLeft(at.Keys, [], words);
  }

  method LinkTopChild(root: Node, child: Node, c: Byte, ghost at: map<Word, Node>, ghost ks: set<Word>,
                      ghost linked: set<Word>)
    requires Shape(at) && TrieOf(at.Keys, ks) && root == at[[]]
    requires [] + [c] in at && child == at[[] + [c]]
    requires Progress(at, ks, linked) && [] + [c] !in linked
    modifies child`fail
    ensures Progress(at, ks, linked + {[] + [c]})
  {
    TopChild(at.Keys, ks, c);
    child.fail := root;
  }

  lemma RootReady(at: map<Word, Node>, ks: set<Word>)
    requires IsTrie(at.Keys) && [] !in ks && Unlinked(at, ks)
    ensures Progress(at, ks, {[]})
  {
    assert forall k :: IsSuffix(k, []) ==> k == [];
    assert LinkedAt(at, ks, []);
  }

  /** The children of w whose byte is no longer to do. */
  ghost predicate SomeChildren(t: set<Word>, w: Word, words: seq<Word>, todo: set<Byte>) {
    && (forall i :: 0 <= i < |words| ==> |words[i]| == |w| + 1 && words[i][..|w|] == w && words[i] in t)
    && (forall i :: 0 <= i < |words| ==> words[i][|w|] !in todo)
    && (forall i, j :: 0 <= i < j < |words| ==> words[i] != words[j])
    && (forall c: Byte {:trigger w + [c]} :: w + [c] in t && c !in todo ==> w + [c] in words)
  }

  lemma NextChild(t: set<Word>, w: Word, words: seq<Word>, todo: set<Byte>, c: Byte, linked: set<Word>)
    requires SomeChildren(t, w, words, todo) && c in todo && w + [c] in t
    ensures SomeChildren(t, w, words + [w + [c]], todo - {c})
    ensures linked + Elements(words + [w + [c]]) == linked + Elements(words) + {w + [c]}
    ensures w + [c] !in Elements(words)
  {
    var more := words + [w + [c]];
    forall d: Byte | w + [d] in t && d !in todo - {c} ensures w + [d] in more {
      if d == c {
        assert more[|words|] == w + [d];
      } else {
        assert w + [d] in words;
      }
    }
  }

  lemma NoChildYet(t: set<Word>, w: Word, todo: set<Byte>, linked: set<Word>)
    requires forall c: Byte {:trigger w + [c]} :: w + [c] in t ==> c in todo
    ensures SomeChildren(t, w, [], todo) && linked + Elements([]) == linked
  {
  }

  lemma NoChildrenLeft(t: set<Word>, w: Word, words: seq<Word>)
    requires SomeChildren(t, w, words, {})
    ensures ChildWords(t, w, words)
  {
  }

  lemma TopChild(t: set<Word>, ks: set<Word>, c: Byte)
    requires TrieOf(t, ks) && [] + [c] in t
    ensures FailWord(t, [] + [c]) == []
    ensures EndsWithKeyword(ks, [] + [c]) <==> [] + [c] in ks
  {
    var w: Word := [] + [c];
    assert w[1..] == [];
    KeywordThroughFail(t, ks, w);
    assert forall k :: IsSuffix(k, []) ==> k == [];
  }

  /** Link the children of one node whose own level is linked. */
  method LinkChildren(root: Node, node: Node, ghost w: Word, ghost at: map<Word, Node>, ghost ks: set<Word>,
                      ghost linked: set<Word>)
    returns (children: seq<Node>, ghost words: seq<Word>)
    requires Shape(at) && TrieOf(at.Keys, ks) && root == at[[]]
    requires w in at && w != [] && node == at[w]
    requires Progress(at, ks, linked)
    requires forall v :: v in at && |v| <= |w| ==> v in linked
    requires forall c: Byte {:trigger w + [c]} :: w + [c] !in linked
    modifies at.Values`fail, at.Values`out
    ensures NodesOf(at, children, words) && ChildWords(at.Keys, w, words)
    ensures Progress(at, ks, linked + Elements(words))
  {
    hide Elements;
    hide Progress;
    hide SomeChildren;
    hide Shape;
    children, words := [], [];
    ShapeAt(at, w);
    var todo := node.next.Keys;
    NoChildYet(at.Keys, w, todo, linked);
    while todo != {}
      invariant Shape(at) && todo <= node.next.Keys
      invariant NodesOf(at, children, words) && SomeChildren(at.Keys, w, words, todo)
      invariant Progress(at, ks, linked + Elements(words))
      decreases todo
    {
      var c :| c in todo;
      ShapeAt(at, w);
      var child := node.next[c];
      NextChild(at.Keys, w, words, todo, c, linked);
      LinkChild(root, node, child, c, w, at, ks, linked + Elements(words));
      children, words, todo := children + [child], words + [w + [c]], todo - {c};
    }
    NoChildrenLeft(at.Keys, w, words);
  }

  /** Link one child: fail from its parent's failure word, and inherit that node's flag. */
  method LinkChild(root: Node, node: Node, child: Node, c: Byte, ghost w: Word, ghost at: map<Word, Node>,
                   ghost ks: set<Word>, ghost linked: set<Word>)
    requires Shape(at) && TrieOf(at.Keys, ks) && root == at[[]]
    requires w in at && w != [] && node == at[w] && w + [c] in at && child == at[w + [c]]
    requires Progress(at, ks, linked) && w + [c] !in linked
    requires forall v :: v in at && |v| <= |w| ==> v in linked
    modifies child`fail, child`out
    ensures Progress(at, ks, linked + {w + [c]})
  {
    hide EndsWithKeyword;
    hide FailWord;
    hide Step;
    hide Shape;
    ShapeNames(at);
    ghost var t := at.Keys;
    ghost var f := FailWord(t, w);
    FailWordOfChild(t, w, c);
    KeywordThroughFail(t, ks, w + [c]);
    assert LinkedAt(at, ks, w);
    var found := Walk(node.fail, c, at, ks, f);
    child.fail := if found == null then root else found;
    assert LinkedAt(at, ks, FailWord(t, w + [c]));
    child.out := child.out || child.fail.out;
  }

  method LinkTrie(root: Node, ghost at: map<Word, Node>, ghost ks: set<Word>)
    requires Shape(at) && TrieOf(at.Keys, ks) && root == at[[]]
    requires Unlinked(at, ks)
    modifies at.Values`fail, at.Values`out
    ensures Linked(at, ks)
  {
    hide Elements;
    ghost var t := at.Keys;
    ghost var words;
    var queue;
    queue, words := LinkTop(root, at, ks);
    ghost var linked := {[]} + Elements(words);
    TopFrontier(t, words);
    while queue != []
      invariant NodesOf(at, queue, words)
      invariant Frontier(t, linked, words)
      invariant Shape(at) && Progress(at, ks, linked)
      decreases |t - linked|, |queue|
    {
      var node := queue[0];
      HeadReady(t, linked, words);
      var children;
      ghost var childWords;
      children, childWords := LinkChildren(root, node, words[0], at, ks, linked);
      FrontierAdvances(t, linked, words, childWords);
      LinkedGrows(t, linked, childWords);
      NodesAdvance(at, queue, words, children, childWords);
      queue, words, linked := queue[1..] + children, words[1..] + childWords, linked + Elements(childWords);
    }
    LinkingDone(at, ks, linked, words);
  }

  lemma LinkingDone(at: map<Word, Node>, ks: set<Word>, linked: set<Word>, words: seq<Word>)
    requires IsTrie(at.Keys) && Frontier(at.Keys, linked, words) && words == []
    requires Progress(at, ks, linked)
    ensures Linked(at, ks)
  {
    forall v | v in at ensures LinkedAt(at, ks, v) {
      AllLinked(at.Keys, linked, v);
    }
  }

  lemma NodesAdvance(at: map<Word, Node>, queue: seq<Node>, words: seq<Word>, children: seq<Node>,
                     childWords: seq<Word>)
    requires NodesOf(at, queue, words) && NodesOf(at, children, childWords) && queue != []
    ensures NodesOf(at, queue[1..] + children, words[1..] + childWords)
  {
  }

  lemma LinkedGrows(t: set<Word>, linked: set<Word>, words: seq<Word>)
    requires linked <= t && Elements(words) <= t
    requires forall i :: 0 <= i < |words| ==> words[i] !in linked
    ensures words == [] ==> linked + Elements(words) == linked
    ensures words != [] ==> |t - (linked + Elements(words))| < |t - linked|
  {
    if words != [] {
      var a, b := t - linked, t - (linked + Elements(words));
      assert words[0] in a && words[0] in Elements(words) && words[0] !in b;
      assert b < a;
      SubsetSmaller(b, a);
    }
  }

  lemma SubsetSmaller<T>(b: set<T>, a: set<T>)
    requires b < a
    ensures |b| < |a|
  {
    assert a == b + (a - b);
  }

  lemma TopFrontier(t: set<Word>, words: seq<Word>)
    requires IsTrie(t) && ChildWords(t, [], words)
    ensures Frontier(t, {[]} + Elements(words), words)
  {
    forall v: Word, c: Byte | v + [c] in {[]} + Elements(words) ensures v == [] {
      assert |v + [c]| == 1;
    }
    assert forall c: Byte :: [c] == [] + [c];
  }
}
