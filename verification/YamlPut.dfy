/** Putting a tree where a path leads, and what that means for edits that walk along the path. */
module YamlPut {
  import opened ByteStrings
  import opened YamlTree
  import opened YamlEdits
  import opened YamlStore

  lemma {:induction false} LookupJoin(node: Node, p: Path, q: Path)
    ensures Lookup(node, p + q) == if Lookup(node, p).None? then None else Lookup(Lookup(node, p).value, q)
    decreases |p|
  {
    if p == [] {
      assert p + q == q;
    } else if node.Mapping? {
      var i := Find(node.entries, p[0]);
      assert (p + q)[1..] == p[1..] + q;
      if i < |node.entries| {
        LookupJoin(node.entries[i].value, p[1..], q);
      }
    }
  }

  lemma {:induction false} PutReads(node: Node, p: Path, sub: Node)
    requires Lookup(node, p).Some?
    ensures Lookup(PutAt(node, p, sub), p) == Some(sub)
    decreases |p|
  {
    if p != [] {
      var i := Find(node.entries, p[0]);
      PutReads(node.entries[i].value, p[1..], sub);
      FindWithValue(node, i, PutAt(node.entries[i].value, p[1..], sub), p[0]);
    }
  }

  /** Of two trees put in one place the second stays. */
  lemma {:induction false} PutTwice(node: Node, p: Path, a: Node, b: Node)
    requires Lookup(node, p).Some?
    ensures Lookup(PutAt(node, p, a), p).Some? && PutAt(PutAt(node, p, a), p, b) == PutAt(node, p, b)
    decreases |p|
  {
    PutReads(node, p, a);
    if p != [] {
      var i := Find(node.entries, p[0]);
      PutTwice(node.entries[i].value, p[1..], a, b);
      FindWithValue(node, i, PutAt(node.entries[i].value, p[1..], a), p[0]);
    }
  }

  lemma {:induction false} PutSame(node: Node, p: Path)
    requires Lookup(node, p).Some?
    ensures PutAt(node, p, Lookup(node, p).value) == node
    decreases |p|
  {
    if p != [] {
      PutSame(node.entries[Find(node.entries, p[0])].value, p[1..]);
    }
  }

  lemma {:induction false} PutJoin(node: Node, p: Path, q: Path, sub: Node)
    requires Lookup(node, p).Some? && Lookup(Lookup(node, p).value, q).Some?
    ensures Lookup(node, p + q).Some?
    ensures PutAt(node, p + q, sub) == PutAt(node, p, PutAt(Lookup(node, p).value, q, sub))
    decreases |p|
  {
    LookupJoin(node, p, q);
    if p == [] {
      assert p + q == q;
    } else {
      assert (p + q)[1..] == p[1..] + q;
      PutJoin(node.entries[Find(node.entries, p[0])].value, p[1..], q, sub);
    }
  }

  lemma Step(node: Node, p: Path, key: Key)
    requires Lookup(node, p).Some? && Lookup(node, p).value.Mapping?
    requires Find(Lookup(node, p).value.entries, key) < |Lookup(node, p).value.entries|
    ensures var cur := Lookup(node, p).value;
            var i := Find(cur.entries, key);
            && Lookup(node, p + [key]) == Some(cur.entries[i].value)
            && forall sub :: PutAt(node, p + [key], sub) == PutAt(node, p, WithValue(cur, i, sub))
  {
    LookupJoin(node, p, [key]);
    var cur := Lookup(node, p).value;
    var i := Find(cur.entries, key);
    assert Lookup(cur, [key]) == Some(cur.entries[i].value);
    forall sub ensures PutAt(node, p + [key], sub) == PutAt(node, p, WithValue(cur, i, sub)) {
      PutJoin(node, p, [key], sub);
      assert PutAt(cur, [key], sub) == WithValue(cur, i, sub);
    }
  }

  // ---------- setting ----------

  /** What is still to be set below p of the tree makes the edit that was asked for. */
  ghost predicate Pending(asked: Edit, tree: Node, p: Path, rest: Edit) {
    && Lookup(tree, p).Some?
    && (asked.Refused? <==> rest.Refused?)
    && (asked.Edited? ==> asked.node == PutAt(tree, p, rest.node) && asked.before == rest.before && asked.changed == rest.changed)
  }

  /** Along an entry that is there. */
  lemma PendingDown(asked: Edit, tree: Node, p: Path, cur: Node, rest: Path, value: Node, forced: bool)
    requires Lookup(tree, p) == Some(cur) && cur.Mapping? && |rest| >= 2
    requires Pending(asked, tree, p, SetAt(cur, rest, value, forced))
    requires var i := Find(cur.entries, rest[0]); i < |cur.entries| && cur.entries[i].value.Mapping?
    ensures var next := cur.entries[Find(cur.entries, rest[0])].value;
            && Lookup(tree, p + [rest[0]]) == Some(next)
            && Pending(asked, tree, p + [rest[0]], SetAt(next, rest[1..], value, forced))
  {
    Step(tree, p, rest[0]);
  }

  const EMPTY_MAPPING := Mapping(MAPPING_TAG, [], NO_LOOK)

  /** Where there is no entry, behind a new and empty one. */
  lemma PendingNew(asked: Edit, tree: Node, p: Path, cur: Node, rest: Path, value: Node, forced: bool)
    requires Lookup(tree, p) == Some(cur) && cur.Mapping? && |rest| >= 2
    requires Pending(asked, tree, p, SetAt(cur, rest, value, forced))
    requires Find(cur.entries, rest[0]) == |cur.entries|
    ensures var grown := PutAt(tree, p, cur.(entries := cur.entries + [NewEntry(rest[0], EMPTY_MAPPING)]));
            && Lookup(grown, p + [rest[0]]) == Some(EMPTY_MAPPING)
            && Pending(asked, grown, p + [rest[0]], SetAt(EMPTY_MAPPING, rest[1..], value, forced))
  {
    var more := cur.(entries := cur.entries + [NewEntry(rest[0], EMPTY_MAPPING)]);
    var grown := PutAt(tree, p, more);
    var n := |cur.entries|;
    PutReads(tree, p, more);
    FindAppended(cur.entries, NewEntry(rest[0], EMPTY_MAPPING), rest[0]);
    Step(grown, p, rest[0]);
    var sub := Nested(rest[1..], value);
    assert SetAt(EMPTY_MAPPING, rest[1..], value, forced) == Edited(sub, None, true) by {
      assert [] + [NewEntry(rest[1], Nested(rest[1..][1..], value))] == [NewEntry(rest[1], Nested(rest[1..][1..], value))];
    }
    assert more.entries[n := more.entries[n].(value := sub)] == cur.entries + [NewEntry(rest[0], sub)];
    PutTwice(tree, p, more, WithValue(more, n, sub));
  }

  // ---------- removing ----------

  /** The tree that a removal leaves below depth d of the path. */
  ghost function Left(node: Node, path: Path, kept: int, d: nat): Edit
    requires node.Mapping? && d < |path| && Lookup(node, path[..d]).Some? && Lookup(node, path[..d]).value.Mapping?
  {
    RemoveAt(Lookup(node, path[..d]).value, path[d..], kept - d)
  }

  /** All mappings on the way are there, and so is what is to be removed. */
  ghost predicate Open(node: Node, path: Path) {
    && node.Mapping? && path != [] && Lookup(node, path).Some?
    && forall d :: 0 <= d < |path| ==> Lookup(node, path[..d]).Some? && Lookup(node, path[..d]).value.Mapping?
  }

  lemma LeftStep(node: Node, path: Path, kept: int, d: nat)
    requires Open(node, path) && 0 < d < |path|
    ensures var cur := Lookup(node, path[..d - 1]).value;
            var i := Find(cur.entries, path[d - 1]);
            var r := Left(node, path, kept, d);
            && cur.Mapping? && i < |cur.entries| && r.Edited? && r.changed && r.node.Mapping?
            && Left(node, path, kept, d - 1)
            == Edited(if kept < d && IsEmptyMapping(r.node) then Without(cur, i) else WithValue(cur, i, r.node), r.before, true)
            && forall sub :: PutAt(node, path[..d], sub) == PutAt(node, path[..d - 1], WithValue(cur, i, sub))
  {
    var cur := Lookup(node, path[..d - 1]).value;
    assert path[..d] == path[..d - 1] + [path[d - 1]];
    LookupJoin(node, path[..d - 1], [path[d - 1]]);
    LookupJoin(node, path[..d], path[d..]);
    assert path[..d] + path[d..] == path;
    Step(node, path[..d - 1], path[d - 1]);
    var sub := Lookup(node, path[..d]).value;
    RemoveRefusedIff(sub, path[d..], kept - d);
    OpenNotBlocked(sub, path[d..], node, path, d);
    assert path[d - 1..][0] == path[d - 1] && path[d - 1..][1..] == path[d..];
  }

  lemma {:induction false} OpenNotBlocked(sub: Node, rest: Path, node: Node, path: Path, d: nat)
    requires Open(node, path) && d < |path| && Lookup(node, path[..d]) == Some(sub) && rest == path[d..]
    ensures sub.Mapping? && !Blocked(sub, rest)
    decreases |rest|
  {
    if |rest| >= 2 {
      assert path[..d + 1] == path[..d] + [path[d]];
      LookupJoin(node, path[..d], [path[d]]);
      var i := Find(sub.entries, rest[0]);
      if i < |sub.entries| {
        assert Lookup(sub, [path[d]]) == Some(sub.entries[i].value);
        OpenNotBlocked(sub.entries[i].value, rest[1..], node, path, d + 1);
      }
    }
  }

  /** The first n steps lead through mappings. */
  ghost predicate OpenTo(node: Node, path: Path, n: nat)
    requires n <= |path|
  {
    forall d :: 0 <= d <= n ==> Lookup(node, path[..d]).Some? && Lookup(node, path[..d]).value.Mapping?
  }

  lemma {:induction false} BlockedFrom(node: Node, path: Path, d: nat)
    requires d < |path| && OpenTo(node, path, d)
    ensures node.Mapping? && (Blocked(node, path) <==> Blocked(Lookup(node, path[..d]).value, path[d..]))
    decreases d
  {
    assert path[..0] == [] && path[0..] == path;
    assert Lookup(node, path[..0]).value.Mapping?;
    if d > 0 {
      BlockedFrom(node, path, d - 1);
      assert path[..d] == path[..d - 1] + [path[d - 1]];
      LookupJoin(node, path[..d - 1], [path[d - 1]]);
      var cur := Lookup(node, path[..d - 1]).value;
      assert path[d - 1..][0] == path[d - 1] && path[d - 1..][1..] == path[d..];
      assert Lookup(cur, [path[d - 1]]) == Lookup(node, path[..d]);
    }
  }

  /** Nothing is there. */
  lemma Missing(node: Node, path: Path, j: nat)
    requires j < |path| && OpenTo(node, path, j)
    requires var cur := Lookup(node, path[..j]).value; Find(cur.entries, path[j]) == |cur.entries|
    ensures node.Mapping? && !Blocked(node, path) && Lookup(node, path) == None
  {
    BlockedFrom(node, path, j);
    LookupJoin(node, path[..j], path[j..]);
    assert path[..j] + path[j..] == path && path[j..][0] == path[j];
  }

  /** Something that is no mapping stands in the way. */
  lemma InTheWay(node: Node, path: Path, j: nat)
    requires j < |path| - 1 && OpenTo(node, path, j)
    requires var cur := Lookup(node, path[..j]).value;
             var i := Find(cur.entries, path[j]);
             i < |cur.entries| && !cur.entries[i].value.Mapping?
    ensures node.Mapping? && Blocked(node, path)
  {
    BlockedFrom(node, path, j);
    assert path[j..][0] == path[j];
  }

  /** All is there. */
  lemma AllThere(node: Node, path: Path, kept: int)
    requires path != [] && OpenTo(node, path, |path| - 1)
    requires var cur := Lookup(node, path[..|path| - 1]).value; Find(cur.entries, path[|path| - 1]) < |cur.entries|
    ensures var cur := Lookup(node, path[..|path| - 1]).value;
            var i := Find(cur.entries, path[|path| - 1]);
            && Open(node, path) && Lookup(node, path) == Some(cur.entries[i].value) && !Blocked(node, path)
            && Left(node, path, kept, |path| - 1) == Edited(Without(cur, i), Some(cur.entries[i].value), true)
  {
    var j := |path| - 1;
    BlockedFrom(node, path, j);
    LookupJoin(node, path[..j], path[j..]);
    assert path[..j] + path[j..] == path && path[j..] == [path[j]];
    assert path[..0] == [];
    assert Lookup(node, path[..0]).value.Mapping?;
  }

  /** Where pruning ends, nothing above is pruned. */
  lemma {:induction false} Unpruned(node: Node, path: Path, kept: int, d: nat)
    requires Open(node, path) && d < |path|
    requires Left(node, path, kept, d).Edited?
    requires d <= kept || d == 0 || !IsEmptyMapping(Left(node, path, kept, d).node)
    ensures RemoveAt(node, path, kept).Edited?
    ensures RemoveAt(node, path, kept).node == PutAt(node, path[..d], Left(node, path, kept, d).node)
    decreases d
  {
    if d == 0 {
      assert path[0..] == path;
    } else {
      LeftStep(node, path, kept, d);
      Unpruned(node, path, kept, d - 1);
    }
  }
}
