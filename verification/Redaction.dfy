/**
 The redaction filter: a byte trie with sibling-list edges, completed breadth first with failure links, and
 a scan that keeps one automaton state for every byte it still holds.
 */
module Redaction {
  import opened ByteStrings
  import opened RedactionSpec

  const MAXIMUM_AUTOMATON_STATES := 2 * 1024 * 1024

  datatype Node = Node(firstEdge: int, failure: int, matchLen: int)
  datatype Edge = Edge(next: int, sibling: int, value: Byte)

  /** What the trie's arrays stand for: the text that leads to each node, and the node each edge leaves. */
  datatype Trie = Trie(nodes: seq<Node>, edges: seq<Edge>, root: seq<int>, paths: seq<Bytes>, owner: seq<nat>)

  // ---------- the trie ----------

  /** head is the latest edge before bound that leaves state, or -1. */
  ghost predicate ChainHead(owner: seq<nat>, state: nat, bound: nat, head: int) {
    && bound <= |owner|
    && -1 <= head < bound
    && (head >= 0 ==> owner[head] == state)
    && forall e {:trigger owner[e]} :: head < e < bound ==> owner[e] != state
  }

  ghost predicate SiblingsFall(edges: seq<Edge>) {
    forall e :: 0 <= e < |edges| ==> -1 <= edges[e].sibling < e
  }

  ghost predicate Distinct<T>(s: seq<T>) {
    forall i, j :: 0 <= i < j < |s| ==> s[i] != s[j]
  }

  ghost predicate EdgesOk(t: Trie)
    requires Sized(t)
  {
    && SiblingsFall(t.edges)
    && (forall e {:trigger t.edges[e]} :: 0 <= e < |t.edges| ==>
          && t.edges[e].next == e + 1
          && t.owner[e] <= e
          && t.paths[e + 1] == t.paths[t.owner[e]] + [t.edges[e].value])
    && (forall e {:trigger t.edges[e]} :: 0 <= e < |t.edges| ==>
          ChainHead(t.owner, t.owner[e], e, t.edges[e].sibling))
  }

  ghost predicate Sized(t: Trie) {
    && |t.nodes| >= 1
    && |t.edges| == |t.owner| == |t.nodes| - 1
    && |t.paths| == |t.nodes|
    && |t.root| == 256
    && forall e {:trigger t.owner[e]} :: 0 <= e < |t.owner| ==> t.owner[e] <= e
  }

  /** The arrays encode a trie whose node texts are the distinct members of paths. */
  ghost predicate Shape(t: Trie) {
    && Sized(t)
    && t.paths[0] == []
    && Distinct(t.paths)
    && EdgesOk(t)
    && (forall s {:trigger t.nodes[s]} :: 0 <= s < |t.nodes| ==>
          ChainHead(t.owner, s, |t.edges|, t.nodes[s].firstEdge))
    && (forall v: Byte :: t.root[v] == ChainFind(t.edges, t.nodes[0].firstEdge, v))
  }

  /** Walk one sibling list for the child reached by v. */
  function ChainFind(edges: seq<Edge>, e: int, v: Byte): int
    requires SiblingsFall(edges)
    requires -1 <= e < |edges|
    decreases e
  {
    if e < 0 then -1
    else if edges[e].value == v then edges[e].next
    else ChainFind(edges, edges[e].sibling, v)
  }

  function Child(t: Trie, state: int, v: Byte): int
    requires Shape(t) && 0 <= state < |t.nodes|
  {
    ChainFind(t.edges, t.nodes[state].firstEdge, v)
  }

  lemma {:induction false} ChainFindFrame(edges: seq<Edge>, x: Edge, e: int, v: Byte)
    requires SiblingsFall(edges) && SiblingsFall(edges + [x])
    requires -1 <= e < |edges|
    ensures ChainFind(edges + [x], e, v) == ChainFind(edges, e, v)
    decreases e
  {
    if e >= 0 && edges[e].value != v {
      ChainFindFrame(edges, x, edges[e].sibling, v);
    }
  }

  lemma {:induction false} ChainFindSound(t: Trie, state: nat, bound: nat, e: int, v: Byte)
    requires Sized(t) && EdgesOk(t) && bound <= |t.edges| && ChainHead(t.owner, state, bound, e)
    ensures var n := ChainFind(t.edges, e, v);
            && -1 <= n <= bound && n != 0
            && (n > 0 ==> t.owner[n - 1] == state && t.edges[n - 1].value == v)
            && (n < 0 ==> forall k {:trigger t.owner[k]} :: 0 <= k < bound && t.owner[k] == state ==> t.edges[k].value != v)
    decreases e
  {
    if e >= 0 && t.edges[e].value != v {
      ChainFindSound(t, state, e, t.edges[e].sibling, v);
    }
  }

  /** A transition leads to the child whose text is one byte longer, and is missing exactly when no node has it. */
  lemma ChildIs(t: Trie, state: nat, v: Byte)
    requires Shape(t) && state < |t.nodes|
    ensures var n := Child(t, state, v);
            && -1 <= n < |t.nodes| && n != 0
            && (n > 0 ==> t.paths[n] == t.paths[state] + [v] && t.owner[n - 1] == state)
            && (n < 0 ==> t.paths[state] + [v] !in t.paths)
  {
    var n := Child(t, state, v);
    ChainFindSound(t, state, |t.edges|, t.nodes[state].firstEdge, v);
    if n > 0 {
      assert t.edges[n - 1].value == v;
    } else if t.paths[state] + [v] in t.paths {
      var k :| 0 <= k < |t.paths| && t.paths[k] == t.paths[state] + [v];
      EdgeOfPath(t, k, state, v);
    }
  }

  lemma EdgeOfPath(t: Trie, k: nat, state: nat, v: Byte)
    requires Shape(t) && state < |t.nodes| && k < |t.nodes| && t.paths[k] == t.paths[state] + [v]
    ensures k > 0 && t.owner[k - 1] == state && t.edges[k - 1].value == v
  {
    var e := k - 1;
    assert t.paths[e + 1] == t.paths[t.owner[e]] + [t.edges[e].value];
    var p := t.paths[k];
    assert p[..|p| - 1] == t.paths[t.owner[e]];
    assert p[..|p| - 1] == t.paths[state];
    assert p[|p| - 1] == t.edges[e].value;
  }

  /** A new leaf below state, entered at the front of its sibling list. */
  ghost function Extended(t: Trie, state: nat, v: Byte): Trie
    requires Sized(t) && state < |t.nodes|
  {
    var nodes := t.nodes + [Node(-1, 0, 0)];
    Trie(nodes[state := nodes[state].(firstEdge := |t.edges|)],
         t.edges + [Edge(|t.nodes|, t.nodes[state].firstEdge, v)],
         if state == 0 then t.root[v := |t.nodes|] else t.root,
         t.paths + [t.paths[state] + [v]],
         t.owner + [state])
  }

  lemma ExtendedEdgesOk(t: Trie, state: nat, v: Byte)
    requires Shape(t) && state < |t.nodes|
    ensures Sized(Extended(t, state, v)) && EdgesOk(Extended(t, state, v))
  {
    var u := Extended(t, state, v);
    forall e {:trigger u.edges[e]} | 0 <= e < |u.edges|
      ensures && u.edges[e].next == e + 1 && u.owner[e] <= e
              && u.paths[e + 1] == u.paths[u.owner[e]] + [u.edges[e].value]
              && ChainHead(u.owner, u.owner[e], e, u.edges[e].sibling)
    {
      if e < |t.edges| {
        assert u.edges[e] == t.edges[e] && u.owner[e] == t.owner[e];
        assert ChainHead(t.owner, t.owner[e], e, t.edges[e].sibling);
        assert t.edges[e].sibling >= 0 ==> u.owner[t.edges[e].sibling] == t.owner[t.edges[e].sibling];
        forall k {:trigger u.owner[k]} | t.edges[e].sibling < k < e ensures u.owner[k] != u.owner[e] {
          assert u.owner[k] == t.owner[k];
        }
      } else {
        assert ChainHead(t.owner, state, |t.edges|, t.nodes[state].firstEdge);
      }
    }
  }

  lemma ExtendedShape(t: Trie, state: nat, v: Byte)
    requires Shape(t) && state < |t.nodes| && Child(t, state, v) < 0
    ensures Shape(Extended(t, state, v))
  {
    var u := Extended(t, state, v);
    ExtendedEdgesOk(t, state, v);
    ChildIs(t, state, v);
    forall s {:trigger u.nodes[s]} | 0 <= s < |u.nodes|
      ensures ChainHead(u.owner, s, |u.edges|, u.nodes[s].firstEdge)
    {
      if s < |t.nodes| {
        assert ChainHead(t.owner, s, |t.edges|, t.nodes[s].firstEdge);
        assert s != state ==> u.nodes[s] == t.nodes[s];
      }
      forall e {:trigger u.owner[e]} | u.nodes[s].firstEdge < e < |u.edges| ensures u.owner[e] != s {
        if e < |t.edges| {
          assert u.owner[e] == t.owner[e];
        }
      }
    }
    forall w: Byte ensures u.root[w] == ChainFind(u.edges, u.nodes[0].firstEdge, w) {
      assert ChainHead(t.owner, 0, |t.edges|, t.nodes[0].firstEdge);
      ChainFindFrame(t.edges, u.edges[|t.edges|], t.nodes[0].firstEdge, w);
      assert t.root[w] == ChainFind(t.edges, t.nodes[0].firstEdge, w);
    }
  }

  /** Shape reads nothing of a node but its first edge. */
  lemma ShapeFrame(t: Trie, u: Trie)
    requires Shape(t)
    requires u == t.(nodes := u.nodes) && |u.nodes| == |t.nodes|
    requires forall s :: 0 <= s < |t.nodes| ==> u.nodes[s].firstEdge == t.nodes[s].firstEdge
    ensures Shape(u)
  {
    forall s {:trigger u.nodes[s]} | 0 <= s < |u.nodes|
      ensures ChainHead(u.owner, s, |u.edges|, u.nodes[s].firstEdge)
    {
      assert ChainHead(t.owner, s, |t.edges|, t.nodes[s].firstEdge);
    }
  }

  // ---------- states, failure links and match lengths ----------

  ghost predicate PathsAre(patterns: seq<Bytes>, paths: seq<Bytes>) {
    forall p :: p in paths <==> TriePath(patterns, p)
  }

  /** u is the longest ending of s that is a trie path. */
  ghost predicate IsState(paths: seq<Bytes>, u: Bytes, s: Bytes) {
    && u in paths
    && IsSuffix(u, s)
    && forall k :: |u| < k <= |s| ==> Ending(s, k) !in paths
  }

  lemma ParentPath(t: Trie, p: Bytes)
    requires Shape(t) && p in t.paths && p != []
    ensures p[..|p| - 1] in t.paths
  {
    var k :| 0 <= k < |t.paths| && t.paths[k] == p;
    var e := k - 1;
    assert t.paths[e + 1] == t.paths[t.owner[e]] + [t.edges[e].value];
    assert p[..|p| - 1] == t.paths[t.owner[e]];
  }

  /** Reading b from the state of s is reading b from s. */
  lemma StateStep(t: Trie, u: Bytes, s: Bytes, w: Bytes, b: Byte)
    requires Shape(t) && IsState(t.paths, u, s) && IsState(t.paths, w, u + [b])
    ensures IsState(t.paths, w, s + [b])
  {
    assert Ending(s + [b], |u| + 1) == u + [b];
    SuffixTransitive(w, u + [b], s + [b]);
    forall k | |w| < k <= |s| + 1 ensures Ending(s + [b], k) !in t.paths {
      var e := Ending(s + [b], k);
      if k <= |u| + 1 {
        assert e == Ending(u + [b], k);
      } else {
        assert e[..k - 1] == Ending(s, k - 1);
        if e in t.paths {
          ParentPath(t, e);
        }
      }
    }
  }

  /** The longest match that ends s is visible from its state alone. */
  lemma MatchOfState(patterns: seq<Bytes>, paths: seq<Bytes>, u: Bytes, s: Bytes)
    requires PathsAre(patterns, paths) && IsState(paths, u, s)
    ensures LongestMatch(patterns, s) == LongestMatch(patterns, u)
  {
    var n := LongestMatch(patterns, u);
    assert Ending(u, n) == Ending(s, n);
    forall m | n < m <= |s| ensures Ending(s, m) !in patterns {
      var e := Ending(s, m);
      if m <= |u| {
        assert e == Ending(u, m);
      } else {
        assert e in patterns ==> TriePath(patterns, e);
      }
    }
    LongestMatchIs(patterns, s, n);
  }

  function OwnLength(patterns: seq<Bytes>, p: Bytes): nat {
    if p in patterns then |p| else 0
  }

  /** The match of a node is its own text, or else what its failure link inherits. */
  lemma MatchOfNode(patterns: seq<Bytes>, paths: seq<Bytes>, p: Bytes, u: Bytes)
    requires PathsAre(patterns, paths) && p != [] && IsState(paths, u, p[1..])
    ensures var own, inherited := OwnLength(patterns, p), LongestMatch(patterns, u);
            LongestMatch(patterns, p) == if inherited > own then inherited else own
  {
    MatchOfState(patterns, paths, u, p[1..]);
    assert Ending(p, |p|) == p;
    if p in patterns {
      LongestMatchIs(patterns, p, |p|);
    } else {
      var n := LongestMatch(patterns, p[1..]);
      assert Ending(p, n) == Ending(p[1..], n);
      forall m | n < m <= |p| ensures Ending(p, m) !in patterns {
        if m < |p| {
          assert Ending(p, m) == Ending(p[1..], m);
        }
      }
      LongestMatchIs(patterns, p, n);
    }
  }

  /** Node c has its final failure link and match length. */
  ghost predicate Linked(t: Trie, patterns: seq<Bytes>, c: nat)
    requires Sized(t) && c < |t.nodes|
  {
    && 0 <= t.nodes[c].failure < |t.nodes|
    && t.nodes[c].matchLen == LongestMatch(patterns, t.paths[c])
    && (t.paths[c] != [] ==> IsState(t.paths, t.paths[t.nodes[c].failure], t.paths[c][1..]))
  }

  /** Node c as insertion leaves it. */
  ghost predicate Unlinked(t: Trie, patterns: seq<Bytes>, c: nat)
    requires Sized(t) && c < |t.nodes|
  {
    t.nodes[c].failure == 0 && t.nodes[c].matchLen == OwnLength(patterns, t.paths[c])
  }

  ghost predicate Complete(t: Trie, patterns: seq<Bytes>) {
    && Shape(t)
    && PathsAre(patterns, t.paths)
    && forall c {:trigger Linked(t, patterns, c)} :: 0 <= c < |t.nodes| ==> Linked(t, patterns, c)
  }

  /** All nodes above depth d are linked. */
  ghost predicate LinkedAbove(t: Trie, patterns: seq<Bytes>, d: nat)
    requires Sized(t)
  {
    forall c {:trigger Linked(t, patterns, c)} :: 0 <= c < |t.nodes| && |t.paths[c]| < d ==> Linked(t, patterns, c)
  }

  /**
   What holds while failure links are followed from u: every longer ending of u that is a path lacks a child
   for b.
   */
  ghost predicate Fallback(t: Trie, u: Bytes, x: Bytes, b: Byte) {
    && x in t.paths
    && IsSuffix(x, u)
    && forall k :: |x| < k <= |u| && Ending(u, k) in t.paths ==> Ending(u, k) + [b] !in t.paths
  }

  /** One more failure link. */
  lemma FallbackStep(t: Trie, u: Bytes, x: Bytes, y: Bytes, b: Byte)
    requires Shape(t) && Fallback(t, u, x, b) && x + [b] !in t.paths && x != [] && IsState(t.paths, y, x[1..])
    ensures Fallback(t, u, y, b) && |y| < |x|
  {
    assert IsSuffix(x[1..], x) by { assert Ending(x, |x| - 1) == x[1..]; }
    SuffixTransitive(y, x[1..], x);
    SuffixTransitive(y, x, u);
    assert Ending(u, |x|) == x;
    forall k | |y| < k < |x| ensures Ending(u, k) !in t.paths {
      assert Ending(u, k) == Ending(x[1..], k);
    }
  }

  /** The walk ends in the state of u followed by b. */
  lemma FallbackEnd(t: Trie, u: Bytes, x: Bytes, w: Bytes, b: Byte)
    requires Shape(t) && Fallback(t, u, x, b)
    requires if x + [b] in t.paths then w == x + [b] else x == [] && w == []
    ensures IsState(t.paths, w, u + [b])
  {
    if w != [] {
      assert Ending(u + [b], |w|) == Ending(u, |x|) + [b];
    }
    forall k | |w| < k <= |u| + 1 ensures Ending(u + [b], k) !in t.paths {
      var e := Ending(u + [b], k);
      assert e[..k - 1] == Ending(u, k - 1);
      assert e == Ending(u, k - 1) + [b];
      if e in t.paths {
        ParentPath(t, e);
      }
    }
  }

  // ---------- insertion ----------

  /** The trie of the patterns in done, nothing linked yet. */
  ghost predicate Grown(t: Trie, done: seq<Bytes>) {
    && Shape(t)
    && PathsAre(done, t.paths)
    && forall c {:trigger Unlinked(t, done, c)} :: 0 <= c < |t.nodes| ==> Unlinked(t, done, c)
  }

  /** The same, with the first j bytes of one more pattern entered. */
  ghost predicate Partial(t: Trie, done: seq<Bytes>, pattern: Bytes, j: nat)
    requires j <= |pattern|
  {
    && Shape(t)
    && (forall p :: p in t.paths <==> TriePath(done, p) || p <= pattern[..j])
    && forall c {:trigger Unlinked(t, done, c)} :: 0 <= c < |t.nodes| ==> Unlinked(t, done, c)
  }

  lemma PartialStep(t: Trie, done: seq<Bytes>, pattern: Bytes, j: nat, state: nat)
    requires j < |pattern| && Partial(t, done, pattern, j)
    requires state < |t.nodes| && t.paths[state] == pattern[..j]
    ensures var n := Child(t, state, pattern[j]);
            if n >= 0 then Partial(t, done, pattern, j + 1) && n < |t.nodes| && t.paths[n] == pattern[..j + 1]
            else Partial(Extended(t, state, pattern[j]), done, pattern, j + 1) && pattern[..j + 1] !in t.paths
  {
    var n := Child(t, state, pattern[j]);
    ChildIs(t, state, pattern[j]);
    assert pattern[..j] + [pattern[j]] == pattern[..j + 1];
    var w := pattern[..j + 1];
    var u := if n < 0 then Extended(t, state, pattern[j]) else t;
    if n < 0 {
      ExtendedShape(t, state, pattern[j]);
      assert w in done ==> TriePath(done, w);
    }
    forall p ensures p in u.paths <==> TriePath(done, p) || p <= w {
      assert p <= w <==> p <= pattern[..j] || p == w;
      assert p in u.paths <==> p in t.paths || p == w;
    }
    forall c | 0 <= c < |u.nodes| ensures Unlinked(u, done, c) {
      assert c < |t.nodes| ==> Unlinked(t, done, c);
    }
  }

  lemma PartialDone(t: Trie, done: seq<Bytes>, pattern: Bytes, state: nat, u: Trie)
    requires Partial(t, done, pattern, |pattern|)
    requires state < |t.nodes| && t.paths[state] == pattern
    requires u == t.(nodes := t.nodes[state := t.nodes[state].(matchLen := |pattern|)])
    ensures Grown(u, done + [pattern])
  {
    ShapeFrame(t, u);
    assert pattern[..|pattern|] == pattern;
    var more := done + [pattern];
    forall p ensures TriePath(more, p) <==> TriePath(done, p) || p <= pattern {
      if TriePath(done, p) && p != [] {
        var i :| 0 <= i < |done| && p <= done[i];
        assert p <= more[i];
      }
      if p <= pattern {
        assert p <= more[|done|];
      }
    }
    forall c | 0 <= c < |u.nodes| ensures Unlinked(u, more, c) {
      assert Unlinked(t, done, c);
    }
  }

  /** All texts of the trie of the patterns. */
  function PathSet(patterns: seq<Bytes>): set<Bytes> {
    if patterns == [] then {[]}
    else
      var last := patterns[|patterns| - 1];
      PathSet(patterns[..|patterns| - 1]) + set k {:trigger last[..k]} | 0 <= k <= |last| :: last[..k]
  }

  lemma {:induction false} PathSetIs(patterns: seq<Bytes>, p: Bytes)
    ensures p in PathSet(patterns) <==> TriePath(patterns, p)
  {
    if patterns != [] {
      var init, last := patterns[..|patterns| - 1], patterns[|patterns| - 1];
      PathSetIs(init, p);
      if TriePath(init, p) && p != [] {
        var i :| 0 <= i < |init| && p <= init[i];
        assert p <= patterns[i];
      }
      if p <= last {
        assert last[..|p|] == p;
      }
      if TriePath(patterns, p) && p != [] {
        var i :| 0 <= i < |patterns| && p <= patterns[i];
        assert i < |init| ==> p <= init[i];
      }
    }
  }

  lemma SizeIsPathCount(t: Trie, patterns: seq<Bytes>)
    requires Shape(t) && PathsAre(patterns, t.paths)
    ensures |t.nodes| == |PathSet(patterns)|
  {
    forall p ensures p in PathSet(patterns) <==> p in t.paths {
      PathSetIs(patterns, p);
    }
    DistinctSet(t.paths, PathSet(patterns));
    SetInSeq(t.paths, PathSet(patterns));
  }

  lemma {:induction false} SetInSeq<T>(s: seq<T>, all: set<T>)
    requires forall x :: x in all ==> x in s
    ensures |all| <= |s|
  {
    if s != [] {
      SetInSeq(s[..|s| - 1], all - {s[|s| - 1]});
    } else {
      assert all == {};
    }
  }

  /** One path more than the state limit allows. */
  lemma TooManyPaths(t: Trie, done: seq<Bytes>, pattern: Bytes, j: nat, patterns: seq<Bytes>)
    requires j < |pattern| && Partial(t, done, pattern, j) && pattern[..j + 1] !in t.paths
    requires done + [pattern] <= patterns
    ensures |PathSet(patterns)| > |t.nodes|
  {
    var more := t.paths + [pattern[..j + 1]];
    forall p | p in more ensures p in PathSet(patterns) {
      if p <= pattern {
        assert p <= patterns[|done|];
      } else if p != [] {
        var i :| 0 <= i < |done| && p <= done[i];
        assert p <= patterns[i];
      }
      PathSetIs(patterns, p);
    }
    DistinctSet(more, PathSet(patterns));
  }

  lemma TailAppend(q: Bytes, b: Byte)
    requires q != []
    ensures (q + [b])[1..] == q[1..] + [b]
  {
  }

  /** What a child inherits: the state reached from the parent's failure link. */
  lemma LinkOf(t: Trie, patterns: seq<Bytes>, parent: nat, edge: nat, target: nat)
    requires Shape(t) && PathsAre(patterns, t.paths)
    requires 0 < parent < |t.nodes| && edge < |t.edges| && t.owner[edge] == parent
    requires Linked(t, patterns, parent) && LinkedAbove(t, patterns, |t.paths[parent]| + 1) && target < |t.nodes|
    requires IsState(t.paths, t.paths[target], t.paths[t.nodes[parent].failure] + [t.edges[edge].value])
    ensures target != edge + 1
    ensures var p := t.paths[edge + 1];
            && p != [] && IsState(t.paths, t.paths[target], p[1..])
            && LongestMatch(patterns, p) == var own, inherited := OwnLength(patterns, p), t.nodes[target].matchLen;
                                            if inherited > own then inherited else own
  {
    DepthOfOwner(t, parent);
    var value := t.edges[edge].value;
    var p := t.paths[edge + 1];
    assert p == t.paths[parent] + [value];
    TailAppend(t.paths[parent], value);
    StateStep(t, t.paths[t.nodes[parent].failure], t.paths[parent][1..], t.paths[target], value);
    MatchOfNode(patterns, t.paths, p, t.paths[target]);
    assert Linked(t, patterns, target);
  }

  // ---------- breadth-first order ----------

  /** Queued nodes are linked, distinct and in order of depth; the others are as insertion left them. */
  ghost predicate Queue(t: Trie, patterns: seq<Bytes>, queue: seq<int>)
    requires Sized(t)
  {
    && Distinct(queue)
    && (forall i :: 0 <= i < |queue| ==> 0 < queue[i] < |t.nodes| && Linked(t, patterns, queue[i]))
    && (forall i, j :: 0 <= i < j < |queue| ==> |t.paths[queue[i]]| <= |t.paths[queue[j]]|)
    && (forall c {:trigger Unlinked(t, patterns, c)} :: 0 <= c < |t.nodes| && c !in queue ==> Unlinked(t, patterns, c))
  }

  /** Exactly the children of past, and the children of parent that lie behind edge, are queued. */
  ghost predicate Expanded(t: Trie, queue: seq<int>, past: set<int>, parent: int, edge: int)
    requires Sized(t)
  {
    forall c {:trigger c in queue} {:trigger t.owner[c - 1]} :: 0 < c < |t.nodes| ==>
      (c in queue <==> t.owner[c - 1] in past || (t.owner[c - 1] == parent && c - 1 > edge))
  }

  lemma DepthOfOwner(t: Trie, c: nat)
    requires Shape(t) && 0 < c < |t.nodes|
    ensures |t.paths[c]| == |t.paths[t.owner[c - 1]]| + 1
  {
    var e := c - 1;
    assert t.paths[e + 1] == t.paths[t.owner[e]] + [t.edges[e].value];
  }

  /** Everything at most as deep as the node being visited has been queued. */
  lemma {:induction false} DepthCovered(t: Trie, patterns: seq<Bytes>, queue: seq<int>, position: nat,
                                        past: set<int>, edge: int, c: nat)
    requires Shape(t) && Queue(t, patterns, queue) && position < |queue|
    requires 0 in past && forall i :: 0 <= i < position ==> queue[i] in past
    requires Expanded(t, queue, past, queue[position], edge)
    requires 0 < c < |t.nodes| && |t.paths[c]| <= |t.paths[queue[position]]|
    ensures c in queue
    decreases c
  {
    DepthOfOwner(t, c);
    var q := t.owner[c - 1];
    if q != 0 {
      DepthCovered(t, patterns, queue, position, past, edge, q);
      var i :| 0 <= i < |queue| && queue[i] == q;
      assert i < position;
    }
  }

  lemma {:induction false} QueueCoversAll(t: Trie, patterns: seq<Bytes>, queue: seq<int>, past: set<int>, c: nat)
    requires Shape(t) && Queue(t, patterns, queue)
    requires 0 in past && forall i :: 0 <= i < |queue| ==> queue[i] in past
    requires Expanded(t, queue, past, -1, -1)
    requires 0 < c < |t.nodes|
    ensures c in queue
    decreases c
  {
    DepthOfOwner(t, c);
    if t.owner[c - 1] != 0 {
      QueueCoversAll(t, patterns, queue, past, t.owner[c - 1]);
    }
  }

  /** The visited node's whole level, and everything above it, is linked. */
  lemma LevelLinked(t: Trie, patterns: seq<Bytes>, queue: seq<int>, position: nat, past: set<int>, edge: int)
    requires Shape(t) && Queue(t, patterns, queue) && position < |queue|
    requires 0 in past && forall i :: 0 <= i < position ==> queue[i] in past
    requires Expanded(t, queue, past, queue[position], edge)
    ensures LinkedAbove(t, patterns, |t.paths[queue[position]]| + 1)
  {
    forall c | 0 <= c < |t.nodes| && |t.paths[c]| <= |t.paths[queue[position]]| ensures Linked(t, patterns, c) {
      if c > 0 {
        DepthCovered(t, patterns, queue, position, past, edge, c);
      } else {
        RootLinked(t, patterns, queue);
      }
    }
  }

  lemma RootLinked(t: Trie, patterns: seq<Bytes>, queue: seq<int>)
    requires Shape(t) && Queue(t, patterns, queue)
    ensures Linked(t, patterns, 0)
  {
    assert 0 !in queue;
    assert Unlinked(t, patterns, 0);
  }

  ghost predicate NoDeeper(t: Trie, queue: seq<int>, d: nat)
    requires Sized(t)
  {
    forall i :: 0 <= i < |queue| ==> 0 < queue[i] < |t.nodes| && |t.paths[queue[i]]| <= d
  }

  /** u is t with node c, and nothing else, linked. */
  ghost predicate LinkedOne(t: Trie, u: Trie, patterns: seq<Bytes>, c: nat)
    requires Sized(t) && c < |t.nodes|
  {
    && |u.nodes| == |t.nodes|
    && u == t.(nodes := t.nodes[c := u.nodes[c]])
    && u.nodes[c].firstEdge == t.nodes[c].firstEdge
    && Linked(u, patterns, c)
  }

  lemma LinkedOneIs(t: Trie, u: Trie, patterns: seq<Bytes>, c: nat, target: nat)
    requires Sized(t) && c < |t.nodes| && target < |t.nodes|
    requires u == t.(nodes := t.nodes[c := Node(t.nodes[c].firstEdge, target, LongestMatch(patterns, t.paths[c]))])
    requires t.paths[c] != [] && IsState(t.paths, t.paths[target], t.paths[c][1..])
    ensures LinkedOne(t, u, patterns, c)
  {
  }

  /** Queueing one child that has just been linked. */
  lemma QueuePush(t: Trie, u: Trie, patterns: seq<Bytes>, queue: seq<int>, c: nat, d: nat)
    requires Shape(t) && Queue(t, patterns, queue) && NoDeeper(t, queue, d)
    requires 0 < c < |t.nodes| && c !in queue && |t.paths[c]| == d
    requires LinkedOne(t, u, patterns, c)
    ensures Shape(u) && Queue(u, patterns, queue + [c]) && NoDeeper(u, queue + [c], d)
  {
    ShapeFrame(t, u);
    QueuePushLinks(t, u, patterns, queue, c);
    QueuePushOrder(t.paths, queue, c);
  }

  lemma QueuePushLinks(t: Trie, u: Trie, patterns: seq<Bytes>, queue: seq<int>, c: nat)
    requires Sized(t) && Queue(t, patterns, queue) && 0 < c < |t.nodes| && c !in queue
    requires LinkedOne(t, u, patterns, c)
    ensures var q := queue + [c];
            && (forall i :: 0 <= i < |q| ==> 0 < q[i] < |u.nodes| && Linked(u, patterns, q[i]))
            && (forall k {:trigger Unlinked(u, patterns, k)} :: 0 <= k < |u.nodes| && k !in q ==> Unlinked(u, patterns, k))
  {
    var q := queue + [c];
    forall i | 0 <= i < |q| ensures 0 < q[i] < |u.nodes| && Linked(u, patterns, q[i]) {
      assert i < |queue| ==> Linked(t, patterns, queue[i]);
    }
    forall k | 0 <= k < |u.nodes| && k !in q ensures Unlinked(u, patterns, k) {
      assert k !in queue;
      assert Unlinked(t, patterns, k);
    }
  }

  lemma QueuePushOrder(paths: seq<Bytes>, queue: seq<int>, c: nat)
    requires Distinct(queue) && c !in queue && c < |paths|
    requires forall i :: 0 <= i < |queue| ==> 0 < queue[i] < |paths| && |paths[queue[i]]| <= |paths[c]|
    requires forall i, j :: 0 <= i < j < |queue| ==> |paths[queue[i]]| <= |paths[queue[j]]|
    ensures Distinct(queue + [c])
    ensures var q := queue + [c];
            && (forall i :: 0 <= i < |q| ==> 0 <= q[i] < |paths|)
            && (forall i, j :: 0 <= i < j < |q| ==> |paths[q[i]]| <= |paths[q[j]]|)
  {
  }

  /** Moving on to the next sibling. */
  lemma ExpandedPush(t: Trie, queue: seq<int>, past: set<int>, parent: nat, edge: nat, sibling: int)
    requires Sized(t) && edge < |t.owner| && t.owner[edge] == parent
    requires ChainHead(t.owner, parent, edge, sibling)
    requires parent !in past && Expanded(t, queue, past, parent, edge)
    ensures edge + 1 !in queue
    ensures Expanded(t, queue + [edge + 1], past, parent, sibling)
  {
    assert edge + 1 !in queue by {
      assert t.owner[(edge + 1) - 1] == parent;
    }
    var q := queue + [edge + 1];
    forall c {:trigger c in q} | 0 < c < |t.nodes|
      ensures c in q <==> t.owner[c - 1] in past || (t.owner[c - 1] == parent && c - 1 > sibling)
    {
      var o := t.owner[c - 1];
      assert c in queue <==> o in past || (o == parent && c - 1 > edge);
      assert c in q <==> c in queue || c == edge + 1;
    }
  }

  /** One position of the walk: parent's edges up to and including edge are still to be queued. */
  ghost predicate Walk(t: Trie, patterns: seq<Bytes>, queue: seq<int>, past: set<int>, parent: int, edge: int, d: nat)
  {
    && Shape(t)
    && PathsAre(patterns, t.paths)
    && -1 <= edge < |t.edges| && (edge >= 0 ==> t.owner[edge] == parent && parent !in past)
    && Queue(t, patterns, queue)
    && NoDeeper(t, queue, d)
    && Expanded(t, queue, past, parent, edge)
  }

  lemma WalkStart(t: Trie, patterns: seq<Bytes>, queue: seq<int>, past: set<int>, parent: nat)
    requires Sized(t) && parent < |t.nodes| && parent !in past && parent in queue
    requires Walk(t, patterns, queue, past, -1, -1, |t.paths[parent]| + 1)
    ensures Walk(t, patterns, queue, past, parent, t.nodes[parent].firstEdge, |t.paths[parent]| + 1)
  {
    assert ChainHead(t.owner, parent, |t.edges|, t.nodes[parent].firstEdge);
  }

  lemma WalkStep(t: Trie, u: Trie, patterns: seq<Bytes>, queue: seq<int>, past: set<int>, parent: nat, edge: nat)
    requires Sized(t) && parent < |t.nodes| && Walk(t, patterns, queue, past, parent, edge, |t.paths[parent]| + 1)
    requires LinkedOne(t, u, patterns, edge + 1)
    ensures -1 <= t.edges[edge].sibling < edge
    ensures Walk(u, patterns, queue + [edge + 1], past, parent, t.edges[edge].sibling, |t.paths[parent]| + 1)
  {
    DepthOfOwner(t, edge + 1);
    assert ChainHead(t.owner, t.owner[edge], edge, t.edges[edge].sibling);
    ExpandedPush(t, queue, past, parent, edge, t.edges[edge].sibling);
    QueuePush(t, u, patterns, queue, edge + 1, |t.paths[parent]| + 1);
  }

  lemma WalkEnd(t: Trie, patterns: seq<Bytes>, queue: seq<int>, past: set<int>, parent: int, d: nat)
    requires Walk(t, patterns, queue, past, parent, -1, d)
    ensures Walk(t, patterns, queue, past + {parent}, -1, -1, d)
  {
  }

  /** The child about to be linked, and everything its failure walk may pass through. */
  lemma ChildIsNext(t: Trie, patterns: seq<Bytes>, queue: seq<int>, position: nat, past: set<int>, edge: nat)
    requires Sized(t) && position < |queue| && Past(past, queue, position) && 0 < queue[position] < |t.nodes|
    requires Walk(t, patterns, queue, past, queue[position], edge, |t.paths[queue[position]]| + 1)
    ensures LinkedAbove(t, patterns, |t.paths[queue[position]]| + 1) && Unlinked(t, patterns, edge + 1)
    ensures t.edges[edge].next == edge + 1
  {
    LevelLinked(t, patterns, queue, position, past, edge);
    assert t.owner[(edge + 1) - 1] == queue[position];
    assert edge + 1 !in queue;
  }

  lemma RootChildLinked(t: Trie, patterns: seq<Bytes>, queue: seq<int>, edge: nat)
    requires Walk(t, patterns, queue, {}, 0, edge, 1)
    ensures LinkedOne(t, t, patterns, edge + 1) && t.edges[edge].next == edge + 1
    ensures t.nodes[edge + 1].failure == 0
  {
    var p := t.paths[edge + 1];
    DepthOfOwner(t, edge + 1);
    assert t.owner[(edge + 1) - 1] == 0;
    assert edge + 1 !in queue;
    assert Unlinked(t, patterns, edge + 1);
    assert IsState(t.paths, [], p[1..]);
    MatchOfNode(patterns, t.paths, p, []);
  }

  lemma AllLinked(t: Trie, patterns: seq<Bytes>, queue: seq<int>, past: set<int>, d: nat)
    requires Walk(t, patterns, queue, past, -1, -1, d) && Past(past, queue, |queue|)
    ensures Complete(t, patterns)
  {
    RootLinked(t, patterns, queue);
    forall c | 0 < c < |t.nodes| ensures Linked(t, patterns, c) {
      QueueCoversAll(t, patterns, queue, past, c);
    }
  }

  /** past is the root and the queue's first position members. */
  ghost predicate Past(past: set<int>, queue: seq<int>, position: nat) {
    && position <= |queue|
    && 0 in past
    && (forall i :: 0 <= i < position ==> queue[i] in past)
    && (forall x :: x in past && x != 0 ==> x in queue[..position])
  }

  lemma PastFresh(past: set<int>, queue: seq<int>, position: nat)
    requires Past(past, queue, position) && position < |queue| && Distinct(queue) && queue[position] != 0
    ensures queue[position] !in past
  {
  }

  lemma PastStep(past: set<int>, queue: seq<int>, more: seq<int>, position: nat)
    requires Past(past, queue, position) && position < |queue| && queue <= more
    ensures Past(past + {queue[position]}, more, position + 1)
  {
    assert more[..position + 1] == queue[..position] + [queue[position]];
  }

  lemma DistinctBound(queue: seq<int>, n: nat)
    requires Distinct(queue) && forall i :: 0 <= i < |queue| ==> 0 < queue[i] < n
    ensures |queue| <= n
  {
    DistinctSet(queue, Below(n));
  }

  function Below(n: nat): (r: set<int>)
    ensures |r| == n && forall x :: x in r <==> 0 <= x < n
  {
    if n == 0 then {} else Below(n - 1) + {n - 1}
  }

  /** Distinct members of a set are no more than the set holds. */
  lemma {:induction false} DistinctSet<T>(s: seq<T>, all: set<T>)
    requires Distinct(s) && forall x :: x in s ==> x in all
    ensures |s| <= |all|
  {
    if s != [] {
      var last := s[|s| - 1];
      DistinctSet(s[..|s| - 1], all - {last});
    }
  }

  // ---------- the stack of states ----------

  /** One state for every byte held: the state of the text up to and including it. */
  ghost predicate Stacked(t: Trie, states: seq<int>, text: Bytes) {
    && Sized(t)
    && |states| == |text|
    && forall j :: 0 <= j < |states| ==>
         0 <= states[j] < |t.nodes| && IsState(t.paths, t.paths[states[j]], text[..j + 1])
  }

  lemma StackTop(t: Trie, states: seq<int>, text: Bytes)
    requires Shape(t) && Stacked(t, states, text)
    ensures var state := if |states| == 0 then 0 else states[|states| - 1];
            0 <= state < |t.nodes| && IsState(t.paths, t.paths[state], text)
  {
    assert text[..|text|] == text;
  }

  lemma StackPush(t: Trie, patterns: seq<Bytes>, states: seq<int>, text: Bytes, state: int, next: int, b: Byte)
    requires Complete(t, patterns) && Stacked(t, states, text)
    requires 0 <= state < |t.nodes| && IsState(t.paths, t.paths[state], text)
    requires 0 <= next < |t.nodes| && IsState(t.paths, t.paths[next], t.paths[state] + [b])
    ensures Stacked(t, states + [next], text + [b])
    ensures t.nodes[next].matchLen == LongestMatch(patterns, text + [b])
  {
    StateStep(t, t.paths[state], text, t.paths[next], b);
    assert Linked(t, patterns, next);
    MatchOfState(patterns, t.paths, t.paths[next], text + [b]);
    var states', text' := states + [next], text + [b];
    forall j | 0 <= j < |states'|
      ensures 0 <= states'[j] < |t.nodes| && IsState(t.paths, t.paths[states'[j]], text'[..j + 1])
    {
      assert text'[..j + 1] == if j < |states| then text[..j + 1] else text';
    }
  }

  lemma StackPop(t: Trie, states: seq<int>, text: Bytes, n: int)
    requires Stacked(t, states, text) && 0 <= n <= |text|
    ensures Stacked(t, states[..|states| - n], text[..|text| - n])
    ensures text[..|text|] == text
  {
    var states', text' := states[..|states| - n], text[..|text| - n];
    forall j | 0 <= j < |states'|
      ensures 0 <= states'[j] < |t.nodes| && IsState(t.paths, t.paths[states'[j]], text'[..j + 1])
    {
      assert text'[..j + 1] == text[..j + 1];
    }
  }

  /** One byte read, and one match dropped if there is one. */
  lemma ScanStep(t: Trie, p: seq<Bytes>, input: Bytes, i: nat, states: seq<int>, text: Bytes, state: int, next: int)
    requires Complete(t, p) && Stacked(t, states, text)
    requires i < |input| && text == Redact(p, input[..i])
    requires 0 <= state < |t.nodes| && IsState(t.paths, t.paths[state], text)
    requires 0 <= next < |t.nodes| && IsState(t.paths, t.paths[next], t.paths[state] + [input[i]])
    ensures var m := t.nodes[next].matchLen;
            var text', states' := text + [input[i]], states + [next];
            && 0 <= m <= |text'| == |states'|
            && text'[..|text'| - m] == Redact(p, input[..i + 1])
            && Stacked(t, states'[..|states'| - m], text'[..|text'| - m])
            && states'[..|states'|] == states' && text'[..|text'|] == text'
  {
    hide Shape, PathsAre, IsState, Redact, LongestMatch;
    StackPush(t, p, states, text, state, next, input[i]);
    var m := t.nodes[next].matchLen;
    RedactStep(p, input, i, text + [input[i]], m);
    StackPop(t, states + [next], text + [input[i]], m);
  }

  // ---------- the filter ----------

  class Filter {
    var nodes: seq<Node>
    var edges: seq<Edge>
    const root: array<int>

    ghost var patterns: seq<Bytes>
    ghost var paths: seq<Bytes>
    ghost var owner: seq<nat>

    ghost function View(): Trie
      reads this, root
    {
      Trie(nodes, edges, root[..], paths, owner)
    }

    ghost predicate Valid()
      reads this, root
    {
      nodes == [] || Complete(View(), patterns)
    }

    /** A root without children. */
    constructor Empty()
      ensures fresh(root) && Shape(View())
      ensures nodes == [Node(-1, 0, 0)] && paths == [[]]
    {
      nodes, edges, paths, owner, patterns := [Node(-1, 0, 0)], [], [[]], [], [];
      var r := new int[256];
      root := r;
      new;
      for i := 0 to 256
        invariant forall j :: 0 <= j < i ==> root[j] == -1
        invariant nodes == [Node(-1, 0, 0)] && edges == [] && paths == [[]] && owner == []
        invariant fresh(root) && root.Length == 256
        modifies root
      {
        root[i] := -1;
      }
    }

    /** The child of state reached by value, or a negative number. */
    method Transition(state: int, value: Byte) returns (next: int)
      requires Shape(View()) && 0 <= state < |nodes|
      ensures next == Child(View(), state, value)
    {
      ghost var t := View();
      if state == 0 {
        return root[value];
      }
      var edge := nodes[state].firstEdge;
      assert ChainHead(t.owner, state, |t.edges|, t.nodes[state].firstEdge);
      while edge >= 0
        invariant -1 <= edge < |edges|
        invariant ChainFind(edges, edge, value) == Child(t, state, value)
        decreases edge
      {
        if edges[edge].value == value {
          return edges[edge].next;
        }
        edge := edges[edge].sibling;
      }
      return -1;
    }

    /** Enter one pattern; refused only when its path needs more states than the limit. */
    method Insert(pattern: Bytes, ghost done: seq<Bytes>) returns (ok: bool)
      requires Grown(View(), done) && |nodes| <= MAXIMUM_AUTOMATON_STATES
      modifies this, root
      ensures ok ==> Grown(View(), done + [pattern]) && |nodes| <= MAXIMUM_AUTOMATON_STATES
      ensures !ok ==> forall all :: done + [pattern] <= all ==> |PathSet(all)| > MAXIMUM_AUTOMATON_STATES
    {
      hide EdgesOk, TriePath, PathSet;
      var state := 0;
      for j := 0 to |pattern|
        invariant Partial(View(), done, pattern, j) && |nodes| <= MAXIMUM_AUTOMATON_STATES
        invariant 0 <= state < |nodes| && paths[state] == pattern[..j]
      {
        ghost var t := View();
        PartialStep(t, done, pattern, j, state);
        var next := Transition(state, pattern[j]);
        assert View() == t;
        if next < 0 {
          if |nodes| >= MAXIMUM_AUTOMATON_STATES || |edges| >= MAXIMUM_AUTOMATON_STATES {
            forall all | done + [pattern] <= all ensures |PathSet(all)| > MAXIMUM_AUTOMATON_STATES {
              TooManyPaths(t, done, pattern, j, all);
            }
            Clear();
            return false;
          }
          next := AddChild(state, pattern[j]);
          assert View() == Extended(t, state, pattern[j]);
        }
        state := next;
      }
      ghost var t := View();
      assert pattern[..|pattern|] == pattern;
      assert Unlinked(t, done, state);
      if |pattern| > nodes[state].matchLen {
        nodes := nodes[state := nodes[state].(matchLen := |pattern|)];
      }
      PartialDone(t, done, pattern, state, View());
      return true;
    }

    /** Append a node and the edge that leads to it. */
    method AddChild(state: int, value: Byte) returns (next: int)
      requires Shape(View()) && 0 <= state < |nodes|
      modifies this, root
      ensures View() == Extended(old(View()), state, value)
      ensures next == old(|nodes|)
    {
      ghost var t := View();
      next := |nodes|;
      nodes := nodes + [Node(-1, 0, 0)];
      edges := edges + [Edge(next, nodes[state].firstEdge, value)];
      nodes := nodes[state := nodes[state].(firstEdge := |edges| - 1)];
      paths, owner := paths + [paths[state] + [value]], owner + [state];
      if state == 0 {
        root[value] := next;
      }
    }

    /** Forget everything; a cleared filter passes its input through. */
    method Clear()
      modifies this, root
      ensures nodes == [] && edges == []
      ensures forall v :: 0 <= v < root.Length ==> root[v] == 0
    {
      nodes, edges := [], [];
      for i := 0 to root.Length
        invariant forall v :: 0 <= v < i ==> root[v] == 0
        invariant nodes == [] && edges == []
      {
        root[i] := 0;
      }
    }

    /** Follow failure links from start until value can be read, or the root refuses it. */
    method FallBack(start: int, value: Byte) returns (fallback: int)
      requires Shape(View()) && 0 <= start < |nodes|
      requires LinkedAbove(View(), patterns, |paths[start]| + 1)
      ensures -1 <= fallback < |nodes|
      ensures IsState(paths, if fallback >= 0 then paths[fallback] else [], paths[start] + [value])
    {
      ghost var t := View();
      ghost var u := t.paths[start];
      assert Ending(u, |u|) == u;
      var failure := start;
      fallback := Transition(failure, value);
      while failure != 0 && fallback < 0
        invariant View() == t
        invariant 0 <= failure < |nodes| && fallback == Child(t, failure, value)
        invariant Fallback(t, u, t.paths[failure], value) && |t.paths[failure]| <= |u|
        decreases |t.paths[failure]|
      {
        ChildIs(t, failure, value);
        assert Linked(t, patterns, failure);
        ghost var x, y := t.paths[failure], t.paths[t.nodes[failure].failure];
        assert x != [] by { DepthOfOwner(t, failure); }
        FallbackStep(t, u, x, y, value);
        failure := nodes[failure].failure;
        fallback := Transition(failure, value);
      }
      ChildIs(t, failure, value);
      FallbackEnd(t, u, t.paths[failure], if fallback >= 0 then t.paths[fallback] else [], value);
    }

    /** Give the child at the end of edge its failure link and its match length. */
    method LinkChild(parent: int, edge: int)
      requires Shape(View()) && PathsAre(patterns, paths)
      requires 0 < parent < |nodes| && 0 <= edge < |edges| && owner[edge] == parent
      requires LinkedAbove(View(), patterns, |paths[parent]| + 1) && Unlinked(View(), patterns, edge + 1)
      modifies this`nodes
      ensures |nodes| == old(|nodes|) && LinkedOne(old(View()), View(), patterns, edge + 1)
    {
      ghost var t := View();
      var value := edges[edge].value;
      var child := edges[edge].next;
      assert Linked(t, patterns, parent);
      DepthOfOwner(t, parent);
      var fallback := FallBack(nodes[parent].failure, value);
      assert View() == t;
      assert child == edge + 1 && nodes == t.nodes;
      assert Unlinked(t, patterns, child);
      ghost var target := if fallback >= 0 then fallback else 0;
      LinkOf(t, patterns, parent, edge, target);
      if fallback >= 0 && fallback != child {
        nodes := nodes[child := nodes[child].(failure := fallback)];
      }
      var link := nodes[child].failure;
      assert link == target;
      var inherited := nodes[link].matchLen;
      if inherited > nodes[child].matchLen {
        nodes := nodes[child := nodes[child].(matchLen := inherited)];
      }
      assert nodes == t.nodes[child := nodes[child]];
      assert nodes[child] == Node(t.nodes[child].firstEdge, target, LongestMatch(patterns, t.paths[child]));
      LinkedOneIs(t, View(), patterns, child, target);
    }

    /** Queue the root's children. */
    method StartQueue() returns (queue: seq<int>)
      requires Grown(View(), patterns)
      modifies this`nodes
      ensures |nodes| == old(|nodes|) && Walk(View(), patterns, queue, {0}, -1, -1, 1)
    {
      queue := [];
      var edge := nodes[0].firstEdge;
      assert ChainHead(owner, 0, |edges|, edge);
      while edge >= 0
        invariant |nodes| == old(|nodes|) && Walk(View(), patterns, queue, {}, 0, edge, 1)
        decreases edge
      {
        queue, edge := QueueRootChild(queue, edge);
      }
      WalkEnd(View(), patterns, queue, {}, 0, 1);
    }

    method QueueRootChild(before: seq<int>, current: int) returns (queue: seq<int>, edge: int)
      requires current >= 0 && Walk(View(), patterns, before, {}, 0, current, 1)
      modifies this`nodes
      ensures |nodes| == old(|nodes|) && -1 <= edge < current
      ensures Walk(View(), patterns, queue, {}, 0, edge, 1)
    {
      ghost var t := View();
      var child := edges[current].next;
      RootChildLinked(t, patterns, before, current);
      nodes := nodes[child := nodes[child].(failure := 0)];
      assert nodes == t.nodes;
      WalkStep(t, t, patterns, before, {}, 0, current);
      return before + [child], edges[current].sibling;
    }

    /** Visit the trie breadth first, linking every node. */
    method LinkFailures()
      requires Grown(View(), patterns)
      modifies this`nodes
      ensures nodes != [] && Complete(View(), patterns)
    {
      var queue := StartQueue();
      hide Shape, Expanded, NoDeeper, PathsAre;
      ghost var past, depth: nat := {0}, 1;
      var position := 0;
      DistinctBound(queue, |nodes|);
      while position < |queue|
        invariant |queue| <= |nodes| && Past(past, queue, position)
        invariant Walk(View(), patterns, queue, past, -1, -1, depth)
        invariant position < |queue| ==> |paths[queue[position]]| <= depth <= |paths[queue[position]]| + 1
        decreases |nodes| - position
      {
        ghost var before := queue;
        PastFresh(past, queue, position);
        queue := QueueChildren(queue, position, past);
        PastStep(past, before, queue, position);
        past, depth := past + {before[position]}, |paths[before[position]]| + 1;
        position := position + 1;
        DistinctBound(queue, |nodes|);
        assert position < |queue| ==> |paths[queue[position - 1]]| <= |paths[queue[position]]|;
      }
      AllLinked(View(), patterns, queue, past, depth);
    }

    /** Link and queue the children of the node being visited. */
    method QueueChildren(before: seq<int>, position: int, ghost past: set<int>) returns (queue: seq<int>)
      requires Sized(View()) && 0 <= position < |before| && 0 < before[position] < |nodes| && Past(past, before, position)
      requires before[position] !in past
      requires Walk(View(), patterns, before, past, -1, -1, |paths[before[position]]| + 1)
      modifies this`nodes
      ensures |nodes| == old(|nodes|) && before <= queue
      ensures Walk(View(), patterns, queue, past + {before[position]}, -1, -1, |paths[before[position]]| + 1)
    {
      hide Shape, Queue, Expanded, NoDeeper, PathsAre;
      queue := before;
      var parent := queue[position];
      var edge := nodes[parent].firstEdge;
      WalkStart(View(), patterns, queue, past, parent);
      while edge >= 0
        invariant |nodes| == old(|nodes|) && before <= queue
        invariant Walk(View(), patterns, queue, past, parent, edge, |paths[parent]| + 1)
        decreases edge
      {
        queue, edge := QueueChild(queue, position, edge, past);
      }
      WalkEnd(View(), patterns, queue, past, parent, |paths[parent]| + 1);
    }

    method QueueChild(before: seq<int>, position: int, current: int, ghost past: set<int>)
      returns (queue: seq<int>, edge: int)
      requires Sized(View()) && 0 <= position < |before| && 0 < before[position] < |nodes|
      requires Past(past, before, position) && current >= 0
      requires Walk(View(), patterns, before, past, before[position], current, |paths[before[position]]| + 1)
      modifies this`nodes
      ensures |nodes| == old(|nodes|) && -1 <= edge < current && before <= queue
      ensures Walk(View(), patterns, queue, past, before[position], edge, |paths[before[position]]| + 1)
    {
      hide Shape, Queue, Expanded, NoDeeper, PathsAre;
      ghost var t := View();
      var child := edges[current].next;
      ChildIsNext(t, patterns, before, position, past, current);
      LinkChild(before[position], current);
      ghost var u := View();
      assert LinkedOne(t, u, patterns, current + 1);
      WalkStep(t, u, patterns, before, past, before[position], current);
      return before + [child], edges[current].sibling;
    }

    /** The state after reading one more byte. */
    method Advance(start: int, value: Byte) returns (next: int)
      requires nodes != [] && Valid() && 0 <= start < |nodes|
      ensures 0 <= next < |nodes|
      ensures IsState(paths, paths[next], paths[start] + [value])
    {
      ghost var t := View();
      var state := start;
      assert Ending(t.paths[start], |t.paths[start]|) == t.paths[start];
      while true
        invariant 0 <= state < |nodes|
        invariant Fallback(t, t.paths[start], t.paths[state], value)
        decreases |t.paths[state]|
      {
        next := Transition(state, value);
        ChildIs(t, state, value);
        if next >= 0 {
          FallbackEnd(t, t.paths[start], t.paths[state], t.paths[next], value);
          return;
        }
        if state == 0 {
          FallbackEnd(t, t.paths[start], [], [], value);
          return 0;
        }
        assert Linked(t, patterns, state);
        FallbackStep(t, t.paths[start], t.paths[state], t.paths[t.nodes[state].failure], value);
        state := nodes[state].failure;
      }
    }

    /** Redaction by automaton is redaction by definition; the input is never changed. */
    method Bytes(input: Bytes) returns (result: Bytes)
      requires Valid()
      ensures result == if nodes == [] then input else Redact(patterns, input)
    {
      if nodes == [] {
        return input;
      }
      hide Shape, PathsAre, IsState, Stacked;
      ghost var t, p := View(), patterns;
      result := [];
      var states: seq<int> := [];
      var state := 0;
      for i := 0 to |input|
        invariant View() == t && patterns == p
        invariant result == Redact(p, input[..i])
        invariant Stacked(t, states, result)
        invariant state == if |states| == 0 then 0 else states[|states| - 1]
      {
        var value := input[i];
        StackTop(t, states, result);
        var next := Advance(state, value);
        assert View() == t && patterns == p;
        ScanStep(t, p, input, i, states, result, state, next);
        state := next;
        result := result + [value];
        states := states + [state];
        var matched := nodes[state].matchLen;
        if matched != 0 {
          result := result[..|result| - matched];
          states := states[..|states| - matched];
          state := 0;
          if |states| != 0 {
            state := states[|states| - 1];
          }
        }
      }
      assert input[..|input|] == input;
    }
  }

  /**
   Build the filter of a pattern list. Building fails exactly when the patterns' trie is larger than the
   limit; otherwise every node is linked to its longest proper ending in the trie and knows the longest
   pattern that ends there.
   */
  method BuildAutomaton(patterns: seq<Bytes>) returns (filter: Filter?)
    ensures filter == null <==> |PathSet(patterns)| > MAXIMUM_AUTOMATON_STATES
    ensures filter != null ==>
      && fresh(filter) && fresh(filter.root)
      && filter.nodes != [] && filter.Valid() && filter.patterns == patterns
  {
    var built := new Filter.Empty();
    assert Grown(built.View(), patterns[..0]);
    for i := 0 to |patterns|
      invariant Grown(built.View(), patterns[..i]) && |built.nodes| <= MAXIMUM_AUTOMATON_STATES
      invariant fresh(built) && fresh(built.root)
    {
      assert patterns[..i] + [patterns[i]] == patterns[..i + 1];
      var ok := built.Insert(patterns[i], patterns[..i]);
      if !ok {
        return null;
      }
    }
    assert patterns[..|patterns|] == patterns;
    SizeIsPathCount(built.View(), patterns);
    built.patterns := patterns;
    built.LinkFailures();
    return built;
  }
}
