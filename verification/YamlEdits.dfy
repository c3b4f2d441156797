/** What an edit of the tree changes, and what it leaves alone. */
module YamlEdits {
  import opened ByteStrings
  import opened YamlTree

  /** Neither path leads through the other. */
  predicate Diverge(p: Path, q: Path) {
    p != [] && q != [] && (p[0] != q[0] || Diverge(p[1..], q[1..]))
  }

  lemma {:induction false} DivergeOrPrefix(p: Path, q: Path)
    ensures Diverge(p, q) <==> !(p <= q) && !(q <= p)
  {
    if p != [] && q != [] {
      DivergeOrPrefix(p[1..], q[1..]);
      PrefixTails(p, q);
      PrefixTails(q, p);
    }
  }

  lemma PrefixTails(p: Path, q: Path)
    requires p != [] && q != []
    ensures p <= q <==> p[0] == q[0] && p[1..] <= q[1..]
  {
    assert p == [p[0]] + p[1..] && q == [q[0]] + q[1..];
  }

  /** Above the end of the path stands something that is not a mapping. */
  predicate Blocked(node: Node, path: Path)
    requires node.Mapping?
    decreases |path|
  {
    |path| >= 2 &&
    var i := Find(node.entries, path[0]);
    i < |node.entries| && (!node.entries[i].value.Mapping? || Blocked(node.entries[i].value, path[1..]))
  }

  lemma LookupStep(node: Node, path: Path)
    requires node.Mapping? && path != []
    ensures var i := Find(node.entries, path[0]);
            Lookup(node, path) == if i == |node.entries| then None else Lookup(node.entries[i].value, path[1..])
  {
  }

  // ---------- setting ----------

  /** A set fails exactly when its path is blocked, and then there is no new tree. */
  lemma {:induction false} SetRefusedIff(node: Node, path: Path, value: Node, forced: bool)
    requires node.Mapping? && path != []
    ensures SetAt(node, path, value, forced).Refused? <==> Blocked(node, path)
    ensures SetAt(node, path, value, forced).Edited? ==> SetAt(node, path, value, forced).node.Mapping?
    decreases |path|
  {
    hide Same, Replacing, Nested;
    var i := Find(node.entries, path[0]);
    if |path| >= 2 && i < |node.entries| && node.entries[i].value.Mapping? {
      SetRefusedIff(node.entries[i].value, path[1..], value, forced);
    }
  }

  lemma {:induction false} NestedReads(path: Path, value: Node)
    ensures Lookup(Nested(path, value), path) == Some(value)
  {
    if path != [] {
      NestedReads(path[1..], value);
    }
  }

  lemma {:induction false} NestedElsewhere(path: Path, value: Node, q: Path)
    requires Diverge(path, q)
    ensures Lookup(Nested(path, value), q) == None
  {
    if path[0] == q[0] {
      NestedElsewhere(path[1..], value, q[1..]);
    }
  }

  lemma {:induction false} NestedAbove(path: Path, value: Node, q: Path)
    requires q < path
    ensures Lookup(Nested(path, value), q).Some? && Lookup(Nested(path, value), q).value.Mapping?
  {
    if q != [] {
      PrefixTails(q, path);
      NestedAbove(path[1..], value, q[1..]);
    }
  }

  /** What is written reads back. */
  lemma {:induction false} SetReadsBack(node: Node, path: Path, value: Node, forced: bool)
    requires node.Mapping? && path != [] && SetAt(node, path, value, forced).Edited?
    ensures var r := SetAt(node, path, value, forced);
            && Lookup(r.node, path).Some? && Same(Lookup(r.node, path).value, value)
            && r.before == Lookup(node, path) && (!r.changed ==> r.node == node)
    decreases |path|
  {
    hide Same, Replacing, Nested;
    var i := Find(node.entries, path[0]);
    if i == |node.entries| {
      FindAppended(node.entries, NewEntry(path[0], Nested(path[1..], value)), path[0]);
      NestedReads(path[1..], value);
      SameReflexive(value);
    } else {
      var child := node.entries[i].value;
      if |path| == 1 {
        ReplacingSame(child, value, forced);
        FindWithValue(node, i, Replacing(child, value, forced), path[0]);
      } else {
        SetReadsBack(child, path[1..], value, forced);
        var r := SetAt(child, path[1..], value, forced);
        FindWithValue(node, i, r.node, path[0]);
        if !r.changed {
          assert node.entries[i := node.entries[i].(value := child)] == node.entries;
        }
      }
    }
  }

  lemma LookupWithValue(node: Node, i: nat, value: Node, q: Path)
    requires node.Mapping? && i < |node.entries| && q != []
    requires q[0] == node.entries[i].key && Find(node.entries, q[0]) == i
    ensures Lookup(WithValue(node, i, value), q) == Lookup(value, q[1..])
  {
    FindWithValue(node, i, value, q[0]);
  }

  lemma LookupBeside(node: Node, i: nat, value: Node, q: Path)
    requires node.Mapping? && i < |node.entries| && q != [] && Find(node.entries, q[0]) != i
    ensures Lookup(WithValue(node, i, value), q) == Lookup(node, q)
  {
    FindWithValue(node, i, value, q[0]);
  }

  /** Every path that diverges reads what it read. */
  lemma {:induction false} SetElsewhere(node: Node, path: Path, value: Node, forced: bool, q: Path)
    requires node.Mapping? && path != [] && SetAt(node, path, value, forced).Edited? && Diverge(path, q)
    ensures Lookup(SetAt(node, path, value, forced).node, q) == Lookup(node, q)
    decreases |path|
  {
    hide Same, Replacing, Nested, Lookup;
    var i := Find(node.entries, path[0]);
    LookupStep(node, q);
    if i == |node.entries| {
      AppendedElsewhere(node, path, value, q);
    } else {
      var child := node.entries[i].value;
      var written := if |path| == 1 then Replacing(child, value, forced) else SetAt(child, path[1..], value, forced).node;
      if q[0] == path[0] {
        SetElsewhere(child, path[1..], value, forced, q[1..]);
        LookupWithValue(node, i, written, q);
      } else {
        LookupBeside(node, i, written, q);
      }
    }
  }

  lemma AppendedElsewhere(node: Node, path: Path, value: Node, q: Path)
    requires node.Mapping? && path != [] && Find(node.entries, path[0]) == |node.entries| && Diverge(path, q)
    ensures var e := NewEntry(path[0], Nested(path[1..], value));
            Lookup(node.(entries := node.entries + [e]), q) == Lookup(node, q)
  {
    hide Nested;
    var e := NewEntry(path[0], Nested(path[1..], value));
    FindAppended(node.entries, e, q[0]);
    if q[0] == path[0] {
      NestedElsewhere(path[1..], value, q[1..]);
    }
  }

  /** Above the path there are mappings afterwards, and were mappings or nothing before. */
  lemma {:induction false} SetAbove(node: Node, path: Path, value: Node, forced: bool, q: Path)
    requires node.Mapping? && path != [] && SetAt(node, path, value, forced).Edited? && q < path
    ensures var r := SetAt(node, path, value, forced).node;
            && Lookup(r, q).Some? && Lookup(r, q).value.Mapping?
            && (Lookup(node, q).Some? ==> Lookup(node, q).value.Mapping?)
    decreases |path|
  {
    hide Same, Replacing, Nested;
    SetRefusedIff(node, path, value, forced);
    if q != [] {
      PrefixTails(q, path);
      var i := Find(node.entries, path[0]);
      if i == |node.entries| {
        FindAppended(node.entries, NewEntry(path[0], Nested(path[1..], value)), path[0]);
        NestedAbove(path[1..], value, q[1..]);
      } else {
        var child := node.entries[i].value;
        SetAbove(child, path[1..], value, forced, q[1..]);
        FindWithValue(node, i, SetAt(child, path[1..], value, forced).node, path[0]);
      }
    }
  }

  function KeysOf(node: Node): seq<Key>
    requires node.Mapping?
  {
    seq(|node.entries|, i requires 0 <= i < |node.entries| => node.entries[i].key)
  }

  /** In every mapping above the path the keys keep their order; at most the missing one is added at the end. */
  lemma {:induction false} SetKeepsOrder(node: Node, path: Path, value: Node, forced: bool, q: Path)
    requires node.Mapping? && path != [] && SetAt(node, path, value, forced).Edited? && q < path
    requires Lookup(node, q).Some?
    ensures var r := SetAt(node, path, value, forced).node;
            && Lookup(node, q).value.Mapping? && Lookup(r, q).Some? && Lookup(r, q).value.Mapping?
            && var before, after := KeysOf(Lookup(node, q).value), KeysOf(Lookup(r, q).value);
               after == (if path[|q|] in before then before else before + [path[|q|]])
    decreases |path|
  {
    hide Same, Replacing, Nested;
    SetAbove(node, path, value, forced, q);
    var i := Find(node.entries, path[0]);
    if q == [] {
      if i < |node.entries| {
        assert KeysOf(node)[i] == path[0];
      }
    } else {
      PrefixTails(q, path);
      var child := node.entries[i].value;
      SetKeepsOrder(child, path[1..], value, forced, q[1..]);
      FindWithValue(node, i, SetAt(child, path[1..], value, forced).node, path[0]);
      assert path[1..][|q[1..]|] == path[|q|];
    }
  }

  lemma {:induction false} NestedUnique(path: Path, value: Node)
    requires UniqueKeys(value)
    ensures UniqueKeys(Nested(path, value))
  {
    if path != [] {
      NestedUnique(path[1..], value);
    }
  }

  lemma UniqueWithValue(node: Node, i: nat, value: Node)
    requires node.Mapping? && i < |node.entries| && UniqueKeys(node) && UniqueKeys(value)
    ensures UniqueKeys(WithValue(node, i, value))
  {
    hide UniqueKeys;
    assert UniqueParts(node);
    var r := WithValue(node, i, value);
    assert UniqueParts(r);
    UniqueIsParts(r);
  }

  predicate UniqueParts(node: Node)
    requires node.Mapping?
    ensures UniqueParts(node) <==> UniqueKeys(node)
  {
    KeysDiffer(node.entries) && forall i :: 0 <= i < |node.entries| ==> UniqueKeys(node.entries[i].value)
  }

  lemma UniqueIsParts(node: Node)
    requires node.Mapping?
    ensures UniqueParts(node) <==> UniqueKeys(node)
  {
  }

  /** Keys stay unique. */
  lemma {:induction false} SetKeepsUnique(node: Node, path: Path, value: Node, forced: bool)
    requires node.Mapping? && path != [] && SetAt(node, path, value, forced).Edited?
    requires UniqueKeys(node) && UniqueKeys(value)
    ensures UniqueKeys(SetAt(node, path, value, forced).node)
    decreases |path|
  {
    hide Same, Nested, UniqueKeys;
    UniqueIsParts(node);
    var i := Find(node.entries, path[0]);
    if i == |node.entries| {
      NestedUnique(path[1..], value);
      var r := node.(entries := node.entries + [NewEntry(path[0], Nested(path[1..], value))]);
      UniqueIsParts(r);
    } else {
      var child := node.entries[i].value;
      if |path| == 1 {
        ReplacingUnique(child, value, forced);
        UniqueWithValue(node, i, Replacing(child, value, forced));
      } else {
        SetKeepsUnique(child, path[1..], value, forced);
        UniqueWithValue(node, i, SetAt(child, path[1..], value, forced).node);
      }
    }
  }

  lemma ReplacingUnique(existing: Node, value: Node, forced: bool)
    requires UniqueKeys(value)
    ensures UniqueKeys(Replacing(existing, value, forced))
  {
  }

  // ---------- removing ----------

  lemma {:induction false} RemoveRefusedIff(node: Node, path: Path, kept: int)
    requires node.Mapping? && path != []
    ensures RemoveAt(node, path, kept).Refused? <==> Blocked(node, path)
    ensures RemoveAt(node, path, kept).Edited? ==>
              RemoveAt(node, path, kept).node.Mapping? && RemoveAt(node, path, kept).before == Lookup(node, path)
              && (RemoveAt(node, path, kept).changed <==> Lookup(node, path).Some?)
              && (!RemoveAt(node, path, kept).changed ==> RemoveAt(node, path, kept).node == node)
    decreases |path|
  {
    var i := Find(node.entries, path[0]);
    if |path| >= 2 && i < |node.entries| && node.entries[i].value.Mapping? {
      RemoveRefusedIff(node.entries[i].value, path[1..], kept - 1);
    }
  }

  lemma LookupWithout(node: Node, i: nat, q: Path)
    requires node.Mapping? && i < |node.entries| && KeysDiffer(node.entries) && q != []
    ensures Lookup(Without(node, i), q) == if Find(node.entries, q[0]) == i then None else Lookup(node, q)
  {
    FindWithout(node, i, q[0]);
    var m := Find(Without(node, i).entries, q[0]);
    assert m < |node.entries| - 1 ==> Without(node, i).entries[m] == node.entries[if m < i then m else m + 1];
  }

  /** What a removal leaves of the paths that begin with the removed path's first key. */
  lemma RemovedBelow(node: Node, path: Path, kept: int, q: Path)
    requires node.Mapping? && |path| >= 2 && UniqueKeys(node) && RemoveAt(node, path, kept).Edited? && q != []
    requires RemoveAt(node, path, kept).changed && q[0] == path[0]
    ensures var i := Find(node.entries, path[0]);
            && i < |node.entries| && node.entries[i].value.Mapping? && UniqueKeys(node.entries[i].value)
            && var r := RemoveAt(node.entries[i].value, path[1..], kept - 1);
               && r.Edited? && r.changed
               && Lookup(RemoveAt(node, path, kept).node, q)
               == if kept < 1 && IsEmptyMapping(r.node) then None else Lookup(r.node, q[1..])
  {
    hide Lookup;
    var i := Find(node.entries, path[0]);
    var r := RemoveAt(node.entries[i].value, path[1..], kept - 1);
    LookupWithout(node, i, q);
    LookupWithValue(node, i, r.node, q);
  }

  lemma RemovedBeside(node: Node, path: Path, kept: int, q: Path)
    requires node.Mapping? && path != [] && UniqueKeys(node) && RemoveAt(node, path, kept).Edited? && q != []
    requires q[0] != path[0]
    ensures Lookup(RemoveAt(node, path, kept).node, q) == Lookup(node, q)
  {
    hide Lookup;
    var i := Find(node.entries, path[0]);
    if i < |node.entries| {
      LookupWithout(node, i, q);
      if |path| >= 2 {
        LookupBeside(node, i, RemoveAt(node.entries[i].value, path[1..], kept - 1).node, q);
      }
    }
  }

  /** What is removed is gone, with all below it. */
  lemma {:induction false} RemoveIsGone(node: Node, path: Path, kept: int, q: Path)
    requires node.Mapping? && path != [] && UniqueKeys(node) && RemoveAt(node, path, kept).Edited? && path <= q
    ensures Lookup(RemoveAt(node, path, kept).node, q) == None
    decreases |path|
  {
    hide Lookup, UniqueKeys;
    RemoveRefusedIff(node, path, kept);
    UniqueIsParts(node);
    PrefixTails(path, q);
    if !RemoveAt(node, path, kept).changed {
      NothingBelow(node, path, q);
    } else if |path| == 1 {
      LookupWithout(node, Find(node.entries, path[0]), q);
    } else {
      RemovedBelow(node, path, kept, q);
      RemoveIsGone(node.entries[Find(node.entries, path[0])].value, path[1..], kept - 1, q[1..]);
    }
  }

  lemma {:induction false} NothingBelow(node: Node, path: Path, q: Path)
    requires Lookup(node, path) == None && path <= q
    ensures Lookup(node, q) == None
    decreases |path|
  {
    if path != [] {
      PrefixTails(path, q);
      if node.Mapping? && Find(node.entries, path[0]) < |node.entries| {
        NothingBelow(node.entries[Find(node.entries, path[0])].value, path[1..], q[1..]);
      }
    }
  }

  /** Every path that diverges reads what it read, through pruned mappings too. */
  lemma {:induction false} RemoveElsewhere(node: Node, path: Path, kept: int, q: Path)
    requires node.Mapping? && path != [] && UniqueKeys(node) && RemoveAt(node, path, kept).Edited? && Diverge(path, q)
    ensures Lookup(RemoveAt(node, path, kept).node, q) == Lookup(node, q)
    decreases |path|
  {
    hide Lookup, UniqueKeys;
    RemoveRefusedIff(node, path, kept);
    if q[0] != path[0] {
      RemovedBeside(node, path, kept, q);
    } else if RemoveAt(node, path, kept).changed {
      RemovedBelow(node, path, kept, q);
      var child := node.entries[Find(node.entries, path[0])].value;
      RemoveElsewhere(child, path[1..], kept - 1, q[1..]);
      LookupStep(node, q);
      LookupEmpty(RemoveAt(child, path[1..], kept - 1).node, q[1..]);
    }
  }

  lemma LookupEmpty(node: Node, q: Path)
    ensures IsEmptyMapping(node) && q != [] ==> Lookup(node, q) == None
  {
  }

  /** The mapping holds nothing but the way to the end of the path. */
  predicate OnlyWay(node: Node, path: Path)
    decreases |path|
  {
    path != [] && node.Mapping? && |node.entries| == 1 && node.entries[0].key == path[0]
    && (|path| == 1 || OnlyWay(node.entries[0].value, path[1..]))
  }

  /** A mapping is emptied by a removal exactly when it held nothing else and its emptied children are pruned. */
  lemma {:induction false} EmptiedIff(node: Node, path: Path, kept: int)
    requires node.Mapping? && path != [] && RemoveAt(node, path, kept).Edited? && RemoveAt(node, path, kept).changed
    ensures IsEmptyMapping(RemoveAt(node, path, kept).node) <==> OnlyWay(node, path) && (|path| == 1 || kept < 1)
    decreases |path|
  {
    if |path| >= 2 {
      EmptiedIff(node.entries[Find(node.entries, path[0])].value, path[1..], kept - 1);
    }
  }

  lemma {:induction false} OnlyWayBelow(node: Node, path: Path, q: Path)
    requires OnlyWay(node, path) && q < path
    ensures Lookup(node, q).Some? && OnlyWay(Lookup(node, q).value, path[|q|..])
    decreases |path|
  {
    if q == [] {
      assert path[0..] == path;
    } else {
      PrefixTails(q, path);
      OnlyWayBelow(node.entries[0].value, path[1..], q[1..]);
      assert path[1..][|q[1..]|..] == path[|q|..];
    }
  }

  /**
   A mapping above the removed path disappears exactly when it is deeper than the kept levels and held nothing
   but the way to what is removed; otherwise it stays a mapping.
   */
  lemma {:induction false} PrunedIff(node: Node, path: Path, kept: int, q: Path)
    requires node.Mapping? && path != [] && UniqueKeys(node) && RemoveAt(node, path, kept).Edited?
    requires RemoveAt(node, path, kept).changed && q < path && q != []
    ensures Lookup(node, q).Some? && Lookup(node, q).value.Mapping?
    ensures var after := Lookup(RemoveAt(node, path, kept).node, q);
            && (after.None? <==> |q| > kept && OnlyWay(Lookup(node, q).value, path[|q|..]))
            && (after.Some? ==> after.value.Mapping?)
    decreases |path|
  {
    hide UniqueKeys;
    RemoveRefusedIff(node, path, kept);
    PrefixTails(q, path);
    RemovedBelow(node, path, kept, q);
    var child := node.entries[Find(node.entries, path[0])].value;
    var r := RemoveAt(child, path[1..], kept - 1);
    EmptiedIff(child, path[1..], kept - 1);
    RemoveRefusedIff(child, path[1..], kept - 1);
    assert path[1..][|q[1..]|..] == path[|q|..];
    LookupStep(node, q);
    if q[1..] != [] {
      PrunedIff(child, path[1..], kept - 1, q[1..]);
    }
    if kept < 1 && IsEmptyMapping(r.node) {
      OnlyWayBelow(child, path[1..], q[1..]);
    }
  }

  lemma UniqueWithout(node: Node, i: nat)
    requires node.Mapping? && i < |node.entries| && UniqueKeys(node)
    ensures UniqueKeys(Without(node, i))
  {
    hide UniqueKeys;
    UniqueIsParts(node);
    var r := Without(node, i);
    assert forall j :: 0 <= j < |r.entries| ==> r.entries[j] == node.entries[if j < i then j else j + 1];
    UniqueIsParts(r);
  }

  /** Keys stay unique. */
  lemma {:induction false} RemoveKeepsUnique(node: Node, path: Path, kept: int)
    requires node.Mapping? && path != [] && RemoveAt(node, path, kept).Edited? && UniqueKeys(node)
    ensures UniqueKeys(RemoveAt(node, path, kept).node)
    decreases |path|
  {
    hide UniqueKeys;
    UniqueIsParts(node);
    var i := Find(node.entries, path[0]);
    if i < |node.entries| {
      UniqueWithout(node, i);
      if |path| >= 2 {
        var child := node.entries[i].value;
        RemoveKeepsUnique(child, path[1..], kept - 1);
        UniqueWithValue(node, i, RemoveAt(child, path[1..], kept - 1).node);
      }
    }
  }
}
