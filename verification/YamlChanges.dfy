/** Lists of changes to one document: with paths that diverge, their order does not matter. */
module YamlChanges {
  import opened ByteStrings
  import opened YamlTree
  import opened YamlEdits

  /** A value to be set is a scalar or a list. */
  datatype Change = Set(path: Path, value: Node, forced: bool) | Remove(path: Path, kept: int)

  predicate ValidChange(c: Change) {
    c.path != [] && (c.Set? ==> !c.value.Mapping? && UniqueKeys(c.value))
  }

  /** The levels to be kept must leave the last one out. */
  predicate BadBoundary(c: Change) { c.Remove? && !(0 <= c.kept <= |c.path| - 1) }

  function Apply(node: Node, c: Change): Edit
    requires node.Mapping? && ValidChange(c)
  {
    if c.Set? then SetAt(node, c.path, c.value, c.forced)
    else if BadBoundary(c) then Refused
    else RemoveAt(node, c.path, c.kept)
  }

  predicate ValidChanges(changes: seq<Change>) {
    forall i :: 0 <= i < |changes| ==> ValidChange(changes[i])
  }

  /** One change after the other, stopping at the first refusal. */
  function ApplyAll(node: Node, changes: seq<Change>): Option<Node>
    requires node.Mapping? && ValidChanges(changes)
    decreases |changes|
  {
    if changes == [] then Some(node)
    else
      var r := Apply(node, changes[0]);
      if r.Refused? then None else (ApplyIsMapping(node, changes[0]); ApplyAll(r.node, changes[1..]))
  }

  lemma ApplyIsMapping(node: Node, c: Change)
    requires node.Mapping? && ValidChange(c)
    ensures Apply(node, c).Refused? <==> Blocked(node, c.path) || BadBoundary(c)
    ensures Apply(node, c).Edited? ==> Apply(node, c).node.Mapping?
  {
    if c.Set? {
      SetRefusedIff(node, c.path, c.value, c.forced);
    } else {
      RemoveRefusedIff(node, c.path, c.kept);
    }
  }

  // ---------- sameness ----------

  lemma {:induction false} SameSymmetric(a: Node, b: Node)
    requires Same(a, b)
    ensures Same(b, a)
    decreases a
  {
    match a
    case Scalar(_, _, _) =>
    case Sequence(_, items, _) =>
      forall i | 0 <= i < |items| ensures Same(b.items[i], items[i]) {
        SameSymmetric(items[i], b.items[i]);
      }
    case Mapping(_, entries, _) =>
      forall i | 0 <= i < |entries| ensures Same(b.entries[i].value, entries[i].value) {
        SameSymmetric(entries[i].value, b.entries[i].value);
      }
  }

  lemma {:induction false} SameTransitive(a: Node, b: Node, c: Node)
    requires Same(a, b) && Same(b, c)
    ensures Same(a, c)
    decreases a
  {
    match a
    case Scalar(_, _, _) =>
    case Sequence(_, items, _) =>
      forall i | 0 <= i < |items| ensures Same(items[i], c.items[i]) {
        SameTransitive(items[i], b.items[i], c.items[i]);
      }
    case Mapping(_, entries, _) =>
      forall i | 0 <= i < |entries| ensures Same(entries[i].value, c.entries[i].value) {
        SameTransitive(entries[i].value, b.entries[i].value, c.entries[i].value);
      }
  }

  /** Both nothing, or the same value however it is presented. */
  predicate Alike(a: Option<Node>, b: Option<Node>) {
    (a.None? && b.None?) || (a.Some? && b.Some? && Same(a.value, b.value))
  }

  lemma AlikeReflexive(a: Option<Node>)
    ensures Alike(a, a)
  {
    if a.Some? {
      SameReflexive(a.value);
    }
  }

  lemma AlikeMeets(a: Option<Node>, b: Option<Node>, c: Option<Node>)
    requires Alike(a, c) && Alike(b, c)
    ensures Alike(a, b)
  {
    if a.Some? {
      SameSymmetric(b.value, c.value);
      SameTransitive(a.value, c.value, b.value);
    }
  }

  // ---------- leaves ----------

  /** The scalar or list at a path. */
  function Leaf(node: Node, q: Path): Option<Node> {
    var found := Lookup(node, q);
    if found.Some? && !found.value.Mapping? then found else None
  }

  /** The leaf at q after the change, given the leaf before. */
  function LeafAfter(c: Change, q: Path, before: Option<Node>): Option<Node> {
    if q == c.path then if c.Set? then Some(c.value) else None
    else if Diverge(c.path, q) then before
    else None
  }

  lemma {:induction false} LookupThrough(node: Node, p: Path, q: Path)
    requires p <= q
    ensures Lookup(node, q) == if Lookup(node, p).None? then None else Lookup(Lookup(node, p).value, q[|p|..])
    decreases |p|
  {
    if p == [] {
      assert q[0..] == q;
    } else {
      PrefixTails(p, q);
      assert q[1..][|p[1..]|..] == q[|p|..];
      if node.Mapping? && Find(node.entries, p[0]) < |node.entries| {
        LookupThrough(node.entries[Find(node.entries, p[0])].value, p[1..], q[1..]);
      }
    }
  }

  /** One change sets one leaf, or clears it with all below, and touches no path that diverges. */
  lemma ChangeSetsLeaf(node: Node, c: Change, q: Path)
    requires node.Mapping? && ValidChange(c) && UniqueKeys(node) && Apply(node, c).Edited?
    ensures Alike(Leaf(Apply(node, c).node, q), LeafAfter(c, q, Leaf(node, q)))
  {
    hide UniqueKeys, Lookup, SetAt, RemoveAt, Same;
    DivergeOrPrefix(c.path, q);
    AlikeReflexive(Leaf(node, q));
    if Diverge(c.path, q) {
      if c.Set? {
        SetElsewhere(node, c.path, c.value, c.forced, q);
      } else {
        RemoveElsewhere(node, c.path, c.kept, q);
      }
    } else if c.path <= q {
      if c.Set? {
        SetReadsBack(node, c.path, c.value, c.forced);
        var r := SetAt(node, c.path, c.value, c.forced).node;
        LookupThrough(r, c.path, q);
        SameKind(Lookup(r, c.path).value, c.value);
        if q != c.path {
          NothingInLeaf(Lookup(r, c.path).value, q[|c.path|..]);
        }
      } else {
        RemoveIsGone(node, c.path, c.kept, q);
      }
    } else {
      AboveIsMapping(node, c, q);
    }
  }

  lemma SameKind(a: Node, b: Node)
    requires Same(a, b)
    ensures a.Mapping? <==> b.Mapping?
  {
  }

  lemma NothingInLeaf(node: Node, q: Path)
    requires !node.Mapping? && q != []
    ensures Lookup(node, q) == None
  {
  }

  /** Above a change there are mappings or nothing, before and after. */
  lemma AboveIsMapping(node: Node, c: Change, q: Path)
    requires node.Mapping? && ValidChange(c) && UniqueKeys(node) && Apply(node, c).Edited? && q < c.path
    ensures Lookup(node, q).Some? ==> Lookup(node, q).value.Mapping?
    ensures Lookup(Apply(node, c).node, q).Some? ==> Lookup(Apply(node, c).node, q).value.Mapping?
  {
    hide UniqueKeys, SetAt, RemoveAt;
    ApplyIsMapping(node, c);
    if c.Set? {
      SetAbove(node, c.path, c.value, c.forced, q);
    } else {
      RemoveRefusedIff(node, c.path, c.kept);
      if q != [] {
        UnblockedAbove(node, c.path, q);
        if RemoveAt(node, c.path, c.kept).changed {
          PrunedIff(node, c.path, c.kept, q);
        }
      }
    }
  }

  lemma {:induction false} UnblockedAbove(node: Node, path: Path, q: Path)
    requires node.Mapping? && path != [] && !Blocked(node, path) && q < path
    ensures Lookup(node, q).Some? ==> Lookup(node, q).value.Mapping?
    decreases |path|
  {
    if q != [] {
      PrefixTails(q, path);
      var i := Find(node.entries, path[0]);
      if i < |node.entries| && node.entries[i].value.Mapping? {
        UnblockedAbove(node.entries[i].value, path[1..], q[1..]);
      }
    }
  }

  lemma {:induction false} BlockedWhere(node: Node, path: Path) returns (n: nat)
    requires node.Mapping? && path != [] && Blocked(node, path)
    ensures 0 < n < |path| && Lookup(node, path[..n]).Some? && !Lookup(node, path[..n]).value.Mapping?
    decreases |path|
  {
    var child := node.entries[Find(node.entries, path[0])].value;
    if !child.Mapping? {
      n := 1;
      assert path[..1][1..] == [];
    } else {
      var m := BlockedWhere(child, path[1..]);
      n := m + 1;
      assert path[..n][1..] == path[1..][..m];
    }
  }

  /** A change blocks and unblocks no path that diverges from its own. */
  lemma BlockedStays(node: Node, c: Change, path: Path)
    requires node.Mapping? && ValidChange(c) && UniqueKeys(node) && Apply(node, c).Edited? && path != []
    requires Diverge(c.path, path)
    ensures Apply(node, c).node.Mapping? && (Blocked(Apply(node, c).node, path) <==> Blocked(node, path))
  {
    hide UniqueKeys, Lookup, Apply, Blocked;
    ApplyIsMapping(node, c);
    var after := Apply(node, c).node;
    if Blocked(node, path) {
      var n := BlockedWhere(node, path);
      ObstacleStays(node, c, path, n);
      if !Blocked(after, path) {
        UnblockedAbove(after, path, path[..n]);
      }
    }
    if Blocked(after, path) {
      var n := BlockedWhere(after, path);
      ObstacleStays(node, c, path, n);
      if !Blocked(node, path) {
        UnblockedAbove(node, path, path[..n]);
      }
    }
  }

  /** What stands above a diverging path and is no mapping is the same before and after. */
  lemma ObstacleStays(node: Node, c: Change, path: Path, n: nat)
    requires node.Mapping? && ValidChange(c) && UniqueKeys(node) && Apply(node, c).Edited?
    requires Diverge(c.path, path) && n < |path|
    ensures var a, b := Lookup(node, path[..n]), Lookup(Apply(node, c).node, path[..n]);
            (a.Some? && !a.value.Mapping?) <==> (b.Some? && !b.value.Mapping?)
  {
    hide UniqueKeys, Lookup, SetAt, RemoveAt;
    var q := path[..n];
    DivergeOrPrefix(c.path, path);
    DivergeOrPrefix(c.path, q);
    assert c.path <= q ==> c.path <= path;
    if Diverge(c.path, q) {
      if c.Set? {
        SetElsewhere(node, c.path, c.value, c.forced, q);
      } else {
        RemoveElsewhere(node, c.path, c.kept, q);
      }
    } else {
      AboveIsMapping(node, c, q);
    }
  }

  // ---------- many changes ----------

  /** No path of the changes leads through another. */
  predicate AllDiverge(changes: seq<Change>) {
    forall i, j :: 0 <= i < |changes| && 0 <= j < |changes| && i != j ==> Diverge(changes[i].path, changes[j].path)
  }

  lemma ApplyKeepsUnique(node: Node, c: Change)
    requires node.Mapping? && ValidChange(c) && UniqueKeys(node) && Apply(node, c).Edited?
    ensures UniqueKeys(Apply(node, c).node)
  {
    if c.Set? {
      SetKeepsUnique(node, c.path, c.value, c.forced);
    } else {
      RemoveKeepsUnique(node, c.path, c.kept);
    }
  }

  /**
   A list of changes succeeds exactly when none of its paths is blocked in the document as it was, and no
   boundary is bad.
   */
  lemma {:induction false} ApplyAllSucceedsIff(node: Node, changes: seq<Change>)
    requires node.Mapping? && UniqueKeys(node) && ValidChanges(changes) && AllDiverge(changes)
    ensures ApplyAll(node, changes).Some? <==>
              forall i :: 0 <= i < |changes| ==> !Blocked(node, changes[i].path) && !BadBoundary(changes[i])
    decreases |changes|
  {
    hide UniqueKeys, Blocked, Apply, Diverge;
    if changes != [] {
      var c, rest := changes[0], changes[1..];
      ApplyIsMapping(node, c);
      if Apply(node, c).Edited? {
        var next := Apply(node, c).node;
        ApplyKeepsUnique(node, c);
        assert AllDiverge(rest) by {
          assert forall i :: 0 <= i < |rest| ==> rest[i] == changes[i + 1];
        }
        ApplyAllSucceedsIff(next, rest);
        forall i | 0 < i < |changes| ensures Blocked(next, changes[i].path) <==> Blocked(node, changes[i].path) {
          assert Diverge(c.path, changes[i].path);
          BlockedStays(node, c, changes[i].path);
        }
        assert forall i :: 0 < i < |changes| ==> changes[i] == rest[i - 1];
      }
    }
  }

  /** The leaf that the changes, in any order, put at q. */
  ghost predicate LeafIs(changes: seq<Change>, q: Path, before: Option<Node>, after: Option<Node>) {
    if exists i :: 0 <= i < |changes| && changes[i].path == q then
      forall i :: 0 <= i < |changes| && changes[i].path == q ==>
        Alike(after, if changes[i].Set? then Some(changes[i].value) else None)
    else if exists i :: 0 <= i < |changes| && !Diverge(changes[i].path, q) then after.None?
    else Alike(after, before)
  }

  lemma {:induction false} ApplyAllLeaf(node: Node, changes: seq<Change>, q: Path)
    requires node.Mapping? && UniqueKeys(node) && ValidChanges(changes) && AllDiverge(changes)
    requires ApplyAll(node, changes).Some?
    ensures LeafIs(changes, q, Leaf(node, q), Leaf(ApplyAll(node, changes).value, q))
    decreases |changes|
  {
    hide UniqueKeys, Apply, Leaf, Alike, LeafAfter, LeafIs, Diverge;
    if changes == [] {
      LeafIsNothing(q, Leaf(node, q));
    } else {
      var c, rest := changes[0], changes[1..];
      ApplyIsMapping(node, c);
      ApplyKeepsUnique(node, c);
      ChangeSetsLeaf(node, c, q);
      assert AllDiverge(rest) by {
        assert forall i :: 0 <= i < |rest| ==> rest[i] == changes[i + 1];
      }
      var next := Apply(node, c).node;
      ApplyAllLeaf(next, rest, q);
      LeafIsStep(changes, q, Leaf(node, q), Leaf(next, q), Leaf(ApplyAll(node, changes).value, q));
    }
  }

  lemma LeafIsNothing(q: Path, before: Option<Node>)
    ensures LeafIs([], q, before, before)
  {
    AlikeReflexive(before);
  }

  lemma LeafIsStep(changes: seq<Change>, q: Path, before: Option<Node>, between: Option<Node>, after: Option<Node>)
    requires changes != [] && AllDiverge(changes)
    requires Alike(between, LeafAfter(changes[0], q, before)) && LeafIs(changes[1..], q, between, after)
    ensures LeafIs(changes, q, before, after)
  {
    hide Same;
    var c, rest := changes[0], changes[1..];
    assert forall i :: 0 < i < |changes| ==> changes[i] == rest[i - 1];
    DivergeOrPrefix(c.path, q);
    if !Diverge(c.path, q) {
      // Another change at, above or below q would meet c's path, unless both lie below q.
      forall i | 0 < i < |changes| ensures c.path <= q ==> Diverge(changes[i].path, q) {
        assert Diverge(c.path, changes[i].path);
        DivergeOrPrefix(c.path, changes[i].path);
        DivergeOrPrefix(changes[i].path, q);
        if c.path <= q && !Diverge(changes[i].path, q) {
          PrefixesMeet(c.path, changes[i].path, q);
        }
      }
      forall i | 0 < i < |changes| ensures changes[i].path != q {
        assert Diverge(c.path, changes[i].path);
        DivergeOrPrefix(c.path, changes[i].path);
      }
    }
    LeafCombine(c, rest, changes, q, before, between, after);
  }

  lemma PrefixesMeet(a: Path, b: Path, q: Path)
    requires a <= q && (b <= q || q <= b)
    ensures a <= b || b <= a
  {
    if b <= q {
      if |a| <= |b| {
        assert a == q[..|a|] == b[..|a|];
      } else {
        assert b == q[..|b|] == a[..|b|];
      }
    }
  }

  lemma LeafCombine(c: Change, rest: seq<Change>, changes: seq<Change>, q: Path, before: Option<Node>,
                    between: Option<Node>, after: Option<Node>)
    requires changes == [c] + rest
    requires Alike(between, LeafAfter(c, q, before)) && LeafIs(rest, q, between, after)
    requires !Diverge(c.path, q) ==> forall i :: 0 <= i < |rest| ==>
               rest[i].path != q && (c.path <= q ==> Diverge(rest[i].path, q))
    ensures LeafIs(changes, q, before, after)
  {
    hide Same;
    assert forall i :: 0 < i < |changes| ==> changes[i] == rest[i - 1];
    assert changes[0] == c;
    DivergeOrPrefix(c.path, q);
    if exists i :: 0 <= i < |rest| && rest[i].path == q {
      var i :| 0 <= i < |rest| && rest[i].path == q;
      assert changes[i + 1].path == q;
    } else if exists i :: 0 <= i < |rest| && !Diverge(rest[i].path, q) {
      var i :| 0 <= i < |rest| && !Diverge(rest[i].path, q);
      assert !Diverge(changes[i + 1].path, q);
    } else if between.Some? && after.Some? && LeafAfter(c, q, before).Some? {
      SameTransitive(after.value, between.value, LeafAfter(c, q, before).value);
    }
  }

  /**
   Changes whose paths diverge succeed together or fail together, whatever their order, and then leave the
   same value at every path.
   */
  lemma OrderDoesNotMatter(node: Node, a: seq<Change>, b: seq<Change>, q: Path)
    requires node.Mapping? && UniqueKeys(node) && ValidChanges(a) && ValidChanges(b)
    requires multiset(a) == multiset(b) && AllDiverge(a) && AllDiverge(b)
    ensures ApplyAll(node, a).Some? <==> ApplyAll(node, b).Some?
    ensures ApplyAll(node, a).Some? ==>
              Alike(Leaf(ApplyAll(node, a).value, q), Leaf(ApplyAll(node, b).value, q))
  {
    hide UniqueKeys, Blocked, Apply, ApplyAll, Leaf, Diverge, Alike;
    ApplyAllSucceedsIff(node, a);
    ApplyAllSucceedsIff(node, b);
    SameMembers(a, b);
    PathsOfMembers(a, node);
    PathsOfMembers(b, node);
    if ApplyAll(node, a).Some? {
      ApplyAllLeaf(node, a, q);
      ApplyAllLeaf(node, b, q);
      LeavesAgree(a, b, q, Leaf(node, q), Leaf(ApplyAll(node, a).value, q), Leaf(ApplyAll(node, b).value, q));
    }
  }

  lemma SameMembers(a: seq<Change>, b: seq<Change>)
    requires multiset(a) == multiset(b)
    ensures forall c :: c in a <==> c in b
  {
    forall c ensures c in a <==> c in b {
      assert c in a <==> c in multiset(a);
      assert c in b <==> c in multiset(b);
    }
  }

  lemma LeafIsAt(changes: seq<Change>, q: Path, before: Option<Node>, after: Option<Node>, c: Change)
    requires LeafIs(changes, q, before, after) && c in changes && c.path == q
    ensures Alike(after, if c.Set? then Some(c.value) else None)
  {
    hide Alike, Diverge;
  }

  lemma LeafIsGone(changes: seq<Change>, q: Path, before: Option<Node>, after: Option<Node>, c: Change)
    requires LeafIs(changes, q, before, after) && c in changes && !Diverge(c.path, q)
    requires forall d :: d in changes ==> d.path != q
    ensures after.None?
  {
    hide Alike, Diverge;
  }

  lemma LeafIsKept(changes: seq<Change>, q: Path, before: Option<Node>, after: Option<Node>)
    requires LeafIs(changes, q, before, after) && forall d :: d in changes ==> d.path != q && Diverge(d.path, q)
    ensures Alike(after, before)
  {
    hide Alike, Diverge;
  }

  lemma LeavesAgree(a: seq<Change>, b: seq<Change>, q: Path, before: Option<Node>, x: Option<Node>, y: Option<Node>)
    requires multiset(a) == multiset(b) && LeafIs(a, q, before, x) && LeafIs(b, q, before, y)
    ensures Alike(x, y)
  {
    hide LeafIs, Diverge;
    SameMembers(a, b);
    if c :| c in a && c.path == q {
      LeafIsAt(a, q, before, x, c);
      LeafIsAt(b, q, before, y, c);
      AlikeMeets(x, y, if c.Set? then Some(c.value) else None);
    } else if c :| c in a && !Diverge(c.path, q) {
      LeafIsGone(a, q, before, x, c);
      LeafIsGone(b, q, before, y, c);
    } else {
      LeafIsKept(a, q, before, x);
      LeafIsKept(b, q, before, y);
      AlikeMeets(x, y, before);
    }
  }

  // ---------- the same in terms of members ----------

  lemma PathsOfMembers(changes: seq<Change>, node: Node)
    requires node.Mapping? && ValidChanges(changes)
    ensures (forall i :: 0 <= i < |changes| ==> !Blocked(node, changes[i].path) && !BadBoundary(changes[i]))
       <==> (forall c :: c in changes ==> ValidChange(c) && !Blocked(node, c.path) && !BadBoundary(c))
  {
    hide Blocked, UniqueKeys;
  }
}
