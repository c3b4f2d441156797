/** The way that an edit takes through the nodes, and what is still to be done at each step of it. */
module YamlWay {
  import opened ByteStrings
  import opened YamlTree
  import opened YamlEdits
  import opened YamlStore
  import opened YamlPut
  import opened YamlGrow

  // ---------- reading ----------

  lemma WayStarts(s: Store, root: YamlNode, path: Path)
    requires WellFormed(s) && root in s.cells
    ensures At(s, root, path[..0]) == Some(root)
    ensures Lookup(Abs(s, root), path) == Lookup(Abs(s, root), path[0..])
  {
    assert path[..0] == [] && path[0..] == path;
  }

  /** One step, or nothing. */
  lemma WayGoesOn(s: Store, root: YamlNode, path: Path, i: nat, x: YamlNode)
    requires WellFormed(s) && root in s.cells && x in s.cells && i < |path| && At(s, root, path[..i]) == Some(x)
    ensures s.cells[x].kind != MappingKind ==> Lookup(Abs(s, x), path[i..]) == None
    ensures s.cells[x].kind == MappingKind ==>
              && Abs(s, x).Mapping?
              && var j := Find(Abs(s, x).entries, path[i]);
                 if j == |Abs(s, x).entries| then Lookup(Abs(s, x), path[i..]) == None
                 else
                   && 2 * j + 1 < |s.cells[x].content| && s.cells[x].content[2 * j + 1] in s.cells
                   && At(s, root, path[..i + 1]) == Some(s.cells[x].content[2 * j + 1])
                   && Lookup(Abs(s, x), path[i..]) == Lookup(Abs(s, s.cells[x].content[2 * j + 1]), path[i + 1..])
  {
    KindIs(s, x);
    hide Abs, At, WellFormed, Under;
    LookupRest(Abs(s, x), path, i);
    assert path[..i + 1] == path[..i] + [path[i]];
    if s.cells[x].kind == MappingKind {
      NextIs(s, x, path[i]);
      if Find(Abs(s, x).entries, path[i]) < |Abs(s, x).entries| {
        AtStep(s, root, path[..i], x, path[i]);
      }
    }
  }

  lemma KindIs(s: Store, x: YamlNode)
    requires WellFormed(s) && x in s.cells
    ensures Abs(s, x).Mapping? <==> s.cells[x].kind == MappingKind
  {
  }

  lemma LookupRest(node: Node, path: Path, i: nat)
    requires i < |path|
    ensures !node.Mapping? ==> Lookup(node, path[i..]) == None
    ensures node.Mapping? ==>
              var j := Find(node.entries, path[i]);
              Lookup(node, path[i..]) == if j == |node.entries| then None else Lookup(node.entries[j].value, path[i + 1..])
  {
    assert path[i..][0] == path[i] && path[i..][1..] == path[i + 1..];
  }

  lemma WayEnds(s: Store, x: YamlNode, path: Path)
    requires WellFormed(s) && x in s.cells
    ensures Lookup(Abs(s, x), path[|path|..]) == Some(Abs(s, x))
  {
  }

  // ---------- on the way of a set ----------

  /** The walk has come to x, behind j steps, and what is still to be set there makes the edit that was asked for. */
  ghost predicate Setting(asked: Edit, s: Store, root: YamlNode, path: Path, j: nat, x: YamlNode, value: Node, forced: bool) {
    && WellFormed(s) && root in s.cells && x in s.cells && s.cells[x].kind == MappingKind && j < |path|
    && At(s, root, path[..j]) == Some(x) && Abs(s, x).Mapping?
    && Pending(asked, Abs(s, root), path[..j], SetAt(Abs(s, x), path[j..], value, forced))
  }

  lemma SettingStarts(s: Store, root: YamlNode, path: Path, value: Node, forced: bool)
    requires WellFormed(s) && root in s.cells && s.cells[root].kind == MappingKind && path != []
    ensures Abs(s, root).Mapping? && Setting(SetAt(Abs(s, root), path, value, forced), s, root, path, 0, root, value, forced)
  {
    AbsFields(s, root);
    assert path[..0] == [] && path[0..] == path;
  }

  lemma SettingStands(asked: Edit, s: Store, root: YamlNode, path: Path, j: nat, x: YamlNode, value: Node, forced: bool)
    requires Setting(asked, s, root, path, j, x, value, forced)
    ensures WellFormed(s) && root in s.cells && x in s.cells && s.cells[x].kind == MappingKind && j < |path|
    ensures At(s, root, path[..j]) == Some(x) && Abs(s, x).Mapping? && Lookup(Abs(s, root), path[..j]) == Some(Abs(s, x))
  {
    AtLookup(s, root, path[..j]);
  }

  /** What stands at the next key. */
  lemma NextIs(s: Store, x: YamlNode, key: Key)
    requires WellFormed(s) && x in s.cells && s.cells[x].kind == MappingKind
    ensures Abs(s, x).Mapping?
    ensures var i := Find(Abs(s, x).entries, key);
            i < |Abs(s, x).entries| ==>
              && 2 * i + 1 < |s.cells[x].content| && s.cells[x].content[2 * i + 1] in s.cells
              && Abs(s, x).entries[i].value == Abs(s, s.cells[x].content[2 * i + 1])
              && (Abs(s, x).entries[i].value.Mapping? <==> s.cells[s.cells[x].content[2 * i + 1]].kind == MappingKind)
  {
    AbsFields(s, x);
    var i := Find(Abs(s, x).entries, key);
    if i < |Abs(s, x).entries| {
      ContentUnder(s, x, 2 * i + 1);
      AbsFields(s, s.cells[x].content[2 * i + 1]);
    }
  }

  lemma SettingBlocked(asked: Edit, s: Store, root: YamlNode, path: Path, j: nat, x: YamlNode, value: Node, forced: bool)
    requires Setting(asked, s, root, path, j, x, value, forced) && j < |path| - 1
    requires var i := Find(Abs(s, x).entries, path[j]); i < |Abs(s, x).entries| && !Abs(s, x).entries[i].value.Mapping?
    ensures asked.Refused?
  {
    hide Abs, At;
    var rest := path[j..];
    assert rest[0] == path[j] && |rest| >= 2;
  }

  lemma SettingDown(asked: Edit, s: Store, root: YamlNode, path: Path, j: nat, x: YamlNode, value: Node, forced: bool)
    requires Setting(asked, s, root, path, j, x, value, forced) && j < |path| - 1
    requires var i := Find(Abs(s, x).entries, path[j]); i < |Abs(s, x).entries| && Abs(s, x).entries[i].value.Mapping?
    ensures var i := Find(Abs(s, x).entries, path[j]);
            && 2 * i + 1 < |s.cells[x].content|
            && Setting(asked, s, root, path, j + 1, s.cells[x].content[2 * i + 1], value, forced)
  {
    hide Abs, At, SetAt, Pending;
    NextIs(s, x, path[j]);
    SettingStands(asked, s, root, path, j, x, value, forced);
    AtStep(s, root, path[..j], x, path[j]);
    assert path[..j + 1] == path[..j] + [path[j]] && path[j..][0] == path[j] && path[j..][1..] == path[j + 1..];
    PendingDown(asked, Abs(s, root), path[..j], Abs(s, x), path[j..], value, forced);
  }

  lemma SettingNew(asked: Edit, s: Store, t: Store, root: YamlNode, path: Path, j: nat, x: YamlNode, v: YamlNode,
                   value: Node, forced: bool)
    requires Setting(asked, s, root, path, j, x, value, forced) && j < |path| - 1
    requires Find(Abs(s, x).entries, path[j]) == |Abs(s, x).entries| && Lookup(Abs(s, root), path[..j]) == Some(Abs(s, x))
    requires WellFormed(t) && root in t.cells && v in t.cells && t.cells[v].kind == MappingKind && Abs(t, v) == EMPTY_MAPPING
    requires At(t, root, path[..j] + [path[j]]) == Some(v)
    requires Abs(t, root) == PutAt(Abs(s, root), path[..j],
                                   Abs(s, x).(entries := Abs(s, x).entries + [NewEntry(path[j], EMPTY_MAPPING)]))
    ensures asked.Edited? && Setting(asked, t, root, path, j + 1, v, value, forced)
  {
    hide Abs, At, PutAt;
    assert path[..j + 1] == path[..j] + [path[j]] && path[j..][0] == path[j] && path[j..][1..] == path[j + 1..];
    PendingNew(asked, Abs(s, root), path[..j], Abs(s, x), path[j..], value, forced);
  }

  /** What is to be done where there is a value. */
  function Over(tree: Node, p: Path, cur: Node, i: nat, value: Node, forced: bool): Edit
    requires Lookup(tree, p).Some? && cur.Mapping? && i < |cur.entries|
  {
    var was := cur.entries[i].value;
    if !forced && Same(was, value) then Edited(tree, Some(was), false)
    else Edited(PutAt(tree, p, WithValue(cur, i, Replacing(was, value, forced))), Some(was), true)
  }

  /** What the last step has to do in the mapping cur, to which p leads. */
  function Last(tree: Node, p: Path, cur: Node, key: Key, value: Node, forced: bool): Edit
    requires Lookup(tree, p).Some? && cur.Mapping?
  {
    var i := Find(cur.entries, key);
    if i == |cur.entries| then
      Edited(PutAt(tree, p, cur.(entries := cur.entries + [NewEntry(key, value)])), None, true)
    else Over(tree, p, cur, i, value, forced)
  }

  lemma LastIsOver(tree: Node, p: Path, cur: Node, key: Key, value: Node, forced: bool)
    requires Lookup(tree, p).Some? && cur.Mapping? && Find(cur.entries, key) < |cur.entries|
    ensures Last(tree, p, cur, key, value, forced) == Over(tree, p, cur, Find(cur.entries, key), value, forced)
  {
    hide Over;
  }

  lemma SettingEnds(asked: Edit, s: Store, root: YamlNode, path: Path, x: YamlNode, value: Node, forced: bool)
    requires path != [] && Setting(asked, s, root, path, |path| - 1, x, value, forced)
    ensures Lookup(Abs(s, root), path[..|path| - 1]).Some? && Abs(s, x).Mapping?
    ensures asked == Last(Abs(s, root), path[..|path| - 1], Abs(s, x), path[|path| - 1], value, forced)
    ensures var i := Find(Abs(s, x).entries, path[|path| - 1]);
            i < |Abs(s, x).entries| ==>
              && 2 * i + 1 < |s.cells[x].content| && s.cells[x].content[2 * i + 1] in s.cells
              && Abs(s, x).entries[i].value == Abs(s, s.cells[x].content[2 * i + 1])
  {
    hide Abs, At, Same, Replacing;
    SettingStands(asked, s, root, path, |path| - 1, x, value, forced);
    NextIs(s, x, path[|path| - 1]);
    var rest := path[|path| - 1..];
    assert rest == [path[|path| - 1]];
    PutSame(Abs(s, root), path[..|path| - 1]);
  }

  // ---------- on the way of a removal ----------

  lemma RootIsMapping(s: Store, root: YamlNode)
    requires WellFormed(s) && root in s.cells && s.cells[root].kind == MappingKind
    ensures Abs(s, root).Mapping?
  {
  }

  /** The mappings that the first steps have led through. */
  ghost predicate Walked(s: Store, root: YamlNode, path: Path, parents: seq<YamlNode>) {
    && WellFormed(s) && root in s.cells && 0 < |parents| <= |path|
    && forall d :: 0 <= d < |parents| ==>
         parents[d] in s.cells && s.cells[parents[d]].kind == MappingKind && At(s, root, path[..d]) == Some(parents[d])
  }

  lemma WalkStarts(s: Store, root: YamlNode, path: Path)
    requires WellFormed(s) && root in s.cells && s.cells[root].kind == MappingKind && path != []
    ensures Walked(s, root, path, [root])
  {
    assert path[..0] == [];
  }

  lemma WalkStands(s: Store, root: YamlNode, path: Path, parents: seq<YamlNode>)
    requires Walked(s, root, path, parents)
    ensures WellFormed(s) && root in s.cells && 0 < |parents| <= |path|
    ensures var x := parents[|parents| - 1];
            x in s.cells && s.cells[x].kind == MappingKind && At(s, root, path[..|parents| - 1]) == Some(x)
    ensures OpenTo(Abs(s, root), path, |parents| - 1)
    ensures Lookup(Abs(s, root), path[..|parents| - 1]) == Some(Abs(s, parents[|parents| - 1]))
  {
    forall d | 0 <= d < |parents|
      ensures Lookup(Abs(s, root), path[..d]) == Some(Abs(s, parents[d])) && Abs(s, parents[d]).Mapping?
    {
      AtLookup(s, root, path[..d]);
      RootIsMapping(s, parents[d]);
    }
  }

  lemma WalkRoot(s: Store, root: YamlNode, path: Path, parents: seq<YamlNode>)
    requires Walked(s, root, path, parents)
    ensures root in s.cells && Abs(s, root).Mapping?
  {
    assert path[..0] == [];
  }

  lemma WalkOn(s: Store, root: YamlNode, path: Path, parents: seq<YamlNode>)
    requires Walked(s, root, path, parents) && |parents| < |path|
    requires var cur, key := Abs(s, parents[|parents| - 1]), path[|parents| - 1];
             cur.Mapping? && Find(cur.entries, key) < |cur.entries| && cur.entries[Find(cur.entries, key)].value.Mapping?
    ensures var x := parents[|parents| - 1];
            var i := Find(Abs(s, x).entries, path[|parents| - 1]);
            && x in s.cells && 2 * i + 1 < |s.cells[x].content|
            && Walked(s, root, path, parents + [s.cells[x].content[2 * i + 1]])
  {
    hide Abs, At, Lookup;
    var j := |parents| - 1;
    NextIs(s, parents[j], path[j]);
    AtStep(s, root, path[..j], parents[j], path[j]);
    assert path[..j + 1] == path[..j] + [path[j]];
    var next := s.cells[parents[j]].content[2 * Find(Abs(s, parents[j]).entries, path[j]) + 1];
    var more := parents + [next];
    assert At(s, root, path[..j + 1]) == Some(next);
    forall d | 0 <= d < |more|
      ensures more[d] in s.cells && s.cells[more[d]].kind == MappingKind && At(s, root, path[..d]) == Some(more[d])
    {
      assert d < |parents| ==> more[d] == parents[d];
    }
  }

  lemma WalkMisses(s: Store, root: YamlNode, path: Path, parents: seq<YamlNode>, kept: int)
    requires Walked(s, root, path, parents)
    requires var cur := Abs(s, parents[|parents| - 1]); cur.Mapping? && Find(cur.entries, path[|parents| - 1]) == |cur.entries|
    ensures root in s.cells && Abs(s, root).Mapping? && RemoveAt(Abs(s, root), path, kept) == Edited(Abs(s, root), None, false)
  {
    hide Abs, At, Lookup, RemoveAt;
    WalkStands(s, root, path, parents);
    Missing(Abs(s, root), path, |parents| - 1);
    RemoveRefusedIff(Abs(s, root), path, kept);
  }

  lemma WalkBlocked(s: Store, root: YamlNode, path: Path, parents: seq<YamlNode>, kept: int)
    requires Walked(s, root, path, parents) && |parents| < |path|
    requires var cur, key := Abs(s, parents[|parents| - 1]), path[|parents| - 1];
             cur.Mapping? && Find(cur.entries, key) < |cur.entries| && !cur.entries[Find(cur.entries, key)].value.Mapping?
    ensures root in s.cells && Abs(s, root).Mapping? && RemoveAt(Abs(s, root), path, kept).Refused?
  {
    hide Abs, At, Lookup, RemoveAt;
    WalkStands(s, root, path, parents);
    InTheWay(Abs(s, root), path, |parents| - 1);
    RemoveRefusedIff(Abs(s, root), path, kept);
  }

  lemma WalkFinds(s: Store, root: YamlNode, path: Path, parents: seq<YamlNode>, kept: int)
    requires Walked(s, root, path, parents) && |parents| == |path|
    requires var cur := Abs(s, parents[|path| - 1]); cur.Mapping? && Find(cur.entries, path[|path| - 1]) < |cur.entries|
    ensures root in s.cells
    ensures var tree, cur := Abs(s, root), Abs(s, parents[|path| - 1]);
            var i := Find(cur.entries, path[|path| - 1]);
            && Open(tree, path) && tree.Mapping?
            && Left(tree, path, kept, |path| - 1) == Edited(Without(cur, i), Some(cur.entries[i].value), true)
            && RemoveAt(tree, path, kept).Edited? && RemoveAt(tree, path, kept).before == Some(cur.entries[i].value)
            && RemoveAt(tree, path, kept).changed
  {
    hide Abs, At, Lookup, RemoveAt;
    WalkStands(s, root, path, parents);
    AllThere(Abs(s, root), path, kept);
    RemoveRefusedIff(Abs(s, root), path, kept);
  }

  /** Pruning has come up to a depth: below it stands what the removal leaves, above it all is as it was. */
  ghost predicate Pruning(tree: Node, s: Store, root: YamlNode, path: Path, kept: int, depth: nat, parents: seq<YamlNode>) {
    && WellFormed(s) && root in s.cells && Open(tree, path) && depth < |path| == |parents|
    && Left(tree, path, kept, depth).Edited? && Left(tree, path, kept, depth).node.Mapping?
    && Abs(s, root) == PutAt(tree, path[..depth], Left(tree, path, kept, depth).node)
    && forall d :: 0 <= d <= depth ==>
         parents[d] in s.cells && s.cells[parents[d]].kind == MappingKind && At(s, root, path[..d]) == Some(parents[d])
  }

  lemma PruningStarts(s: Store, t: Store, root: YamlNode, path: Path, kept: int, parents: seq<YamlNode>)
    requires Walked(s, root, path, parents) && |parents| == |path| && Changes(s, t, parents[|path| - 1])
    requires t.cells[parents[|path| - 1]].kind == MappingKind && root in t.cells
    requires Open(Abs(s, root), path)
    requires var cur := Abs(s, parents[|path| - 1]);
             var i := if cur.Mapping? then Find(cur.entries, path[|path| - 1]) else 0;
             && cur.Mapping? && i < |cur.entries|
             && Left(Abs(s, root), path, kept, |path| - 1) == Edited(Without(cur, i), Some(cur.entries[i].value), true)
             && Abs(t, root) == PutAt(Abs(s, root), path[..|path| - 1], Without(cur, i))
    ensures Pruning(Abs(s, root), t, root, path, kept, |path| - 1, parents)
  {
    hide Abs, At, PutAt, Lookup;
    var j := |path| - 1;
    forall d | 0 <= d <= j
      ensures parents[d] in t.cells && t.cells[parents[d]].kind == MappingKind && At(t, root, path[..d]) == Some(parents[d])
    {
      assert path[..d] <= path[..j];
      WalkStays(s, t, root, path[..j], parents[j], path[..d]);
    }
  }

  lemma PruningStands(tree: Node, s: Store, root: YamlNode, path: Path, kept: int, depth: nat, parents: seq<YamlNode>)
    requires Pruning(tree, s, root, path, kept, depth, parents) && 0 < depth
    ensures WellFormed(s) && root in s.cells && depth < |path| == |parents|
    ensures parents[depth] in s.cells && s.cells[parents[depth]].kind == MappingKind
    ensures Abs(s, parents[depth]) == Left(tree, path, kept, depth).node
    ensures IsEmptyMapping(Left(tree, path, kept, depth).node) <==> s.cells[parents[depth]].content == []
    ensures var x := parents[depth - 1];
            && x in s.cells && s.cells[x].kind == MappingKind && At(s, root, path[..depth - 1]) == Some(x)
            && Abs(s, x).Mapping? && Find(Abs(s, x).entries, path[depth - 1]) < |Abs(s, x).entries|
            && var cur := Lookup(tree, path[..depth - 1]).value;
               && cur.Mapping? && Find(cur.entries, path[depth - 1]) == Find(Abs(s, x).entries, path[depth - 1]) < |cur.entries|
               && Without(Abs(s, x), Find(Abs(s, x).entries, path[depth - 1])) == Without(cur, Find(cur.entries, path[depth - 1]))
  {
    hide Abs, At;
    var x := Left(tree, path, kept, depth).node;
    AtLookup(s, root, path[..depth]);
    PutReads(tree, path[..depth], x);
    MappingIs(s, parents[depth]);
    LeftStep(tree, path, kept, depth);
    var cur := Lookup(tree, path[..depth - 1]).value;
    var i := Find(cur.entries, path[depth - 1]);
    PutReads(tree, path[..depth - 1], WithValue(cur, i, x));
    AtLookup(s, root, path[..depth - 1]);
    FindWithValue(cur, i, x, path[depth - 1]);
  }

  lemma PruningStep(tree: Node, s: Store, t: Store, root: YamlNode, path: Path, kept: int, depth: nat, parents: seq<YamlNode>)
    requires Pruning(tree, s, root, path, kept, depth, parents) && 0 <= kept < depth
    requires IsEmptyMapping(Left(tree, path, kept, depth).node)
    requires Changes(s, t, parents[depth - 1]) && t.cells[parents[depth - 1]].kind == MappingKind && root in t.cells
    requires Abs(s, parents[depth - 1]).Mapping? && Lookup(Abs(s, root), path[..depth - 1]).Some?
    requires var cur, i := Abs(s, parents[depth - 1]), Find(Abs(s, parents[depth - 1]).entries, path[depth - 1]);
             i < |cur.entries| && Abs(t, root) == PutAt(Abs(s, root), path[..depth - 1], Without(cur, i))
    ensures Pruning(tree, t, root, path, kept, depth - 1, parents)
  {
    hide Abs, At, PutAt, Lookup, Left;
    PruningStands(tree, s, root, path, kept, depth, parents);
    LeftStep(tree, path, kept, depth);
    var cur := Lookup(tree, path[..depth - 1]).value;
    var i := Find(cur.entries, path[depth - 1]);
    PutTwice(tree, path[..depth - 1], WithValue(cur, i, Left(tree, path, kept, depth).node), Without(cur, i));
    forall d | 0 <= d <= depth - 1
      ensures parents[d] in t.cells && t.cells[parents[d]].kind == MappingKind && At(t, root, path[..d]) == Some(parents[d])
    {
      assert path[..d] <= path[..depth - 1];
      WalkStays(s, t, root, path[..depth - 1], parents[depth - 1], path[..d]);
    }
  }

  lemma PruningEnds(tree: Node, s: Store, root: YamlNode, path: Path, kept: int, depth: nat, parents: seq<YamlNode>)
    requires Pruning(tree, s, root, path, kept, depth, parents)
    requires depth <= kept || depth == 0 || !IsEmptyMapping(Left(tree, path, kept, depth).node)
    ensures tree.Mapping? && path != [] && RemoveAt(tree, path, kept).Edited? && Abs(s, root) == RemoveAt(tree, path, kept).node
  {
    hide Abs, At, PutAt, Lookup, Left, RemoveAt;
    Unpruned(tree, path, kept, depth);
  }
}
