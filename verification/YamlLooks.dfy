/** How edits leave the document presented: comments, anchors, styles and the order of entries; and what a secret shows. */
module YamlLooks {
  import opened ByteStrings
  import opened YamlTree
  import opened YamlEdits
  import opened YamlChanges
  import opened YamlStore
  import opened YamlPreview
  import opened YamlSelectors

  // ---------- the mappings above ----------

  /** The entry is the same as before, but for the value of one key. */
  predicate Stands(before: Entry, after: Entry, key: Key) {
    after.key == before.key && after.keyLook == before.keyLook && (before.key != key ==> after == before)
  }

  /** The mapping looks as before, with the same entries in their places. */
  predicate Keeps(before: Node, after: Node, key: Key) {
    && before.Mapping? && after.Mapping? && after.tag == before.tag && after.look == before.look
    && |after.entries| >= |before.entries|
    && forall i :: 0 <= i < |before.entries| ==> Stands(before.entries[i], after.entries[i], key)
  }

  /** The entries are those that were there, and a new one behind them when the key was missing. */
  predicate Extends(before: Node, after: Node, key: Key, added: Node) {
    && Keeps(before, after, key)
    && if Find(before.entries, key) < |before.entries| then |after.entries| == |before.entries|
       else |after.entries| == |before.entries| + 1 && after.entries[|before.entries|] == Entry(key, NO_LOOK, added)
  }

  lemma KeepsValue(node: Node, i: nat, value: Node, key: Key)
    requires node.Mapping? && i < |node.entries| && node.entries[i].key == key
    ensures Keeps(node, WithValue(node, i, value), key) && |WithValue(node, i, value).entries| == |node.entries|
  {
  }

  /** Every mapping on the way keeps its presentation, all its keys and all values but that of the path's next key. */
  lemma {:induction false} SetStands(node: Node, path: Path, value: Node, forced: bool, q: Path)
    requires node.Mapping? && path != [] && SetAt(node, path, value, forced).Edited? && q < path
    requires Lookup(node, q).Some?
    ensures Lookup(SetAt(node, path, value, forced).node, q).Some?
    ensures Extends(Lookup(node, q).value, Lookup(SetAt(node, path, value, forced).node, q).value, path[|q|],
                    Nested(path[|q| + 1..], value))
    decreases |path|
  {
    hide Same, Replacing, Nested, Keeps;
    SetAbove(node, path, value, forced, q);
    var i, r := Find(node.entries, path[0]), SetAt(node, path, value, forced).node;
    if q == [] {
      if i < |node.entries| {
        KeepsValue(node, i, r.entries[i].value, path[0]);
        assert r.entries == WithValue(node, i, r.entries[i].value).entries;
      } else {
        KeepsAppended(node, Entry(path[0], NO_LOOK, Nested(path[1..], value)));
      }
    } else {
      PrefixTails(q, path);
      var child := node.entries[i].value;
      SetStands(child, path[1..], value, forced, q[1..]);
      FindWithValue(node, i, SetAt(child, path[1..], value, forced).node, path[0]);
      assert path[1..][|q[1..]|] == path[|q|] && path[1..][|q[1..]| + 1..] == path[|q| + 1..];
    }
  }

  lemma KeepsAppended(node: Node, e: Entry)
    requires node.Mapping?
    ensures Keeps(node, node.(entries := node.entries + [e]), e.key)
  {
  }

  // ---------- the value that is set ----------

  predicate SameKinds(a: Node, b: Node) {
    (a.Scalar? && b.Scalar?) || (a.Sequence? && b.Sequence?) || (a.Mapping? && b.Mapping?)
  }

  predicate IsText(value: Node) { value.Scalar? && value.tag == STRING_TAG }

  predicate Quoted(style: Style) { style == SingleQuotedStyle || style == DoubleQuotedStyle }

  /** Comments and anchor stay at their place. */
  predicate Annotated(was: Node, now: Node) {
    now.look.head == was.look.head && now.look.line == was.look.line && now.look.foot == was.look.foot
    && now.look.anchor == was.look.anchor
  }

  /** The style: a forced text gets the other quotes, so that it never looks as before; a value of the same kind keeps it. */
  predicate Styled(was: Node, now: Node, value: Node, forced: bool) {
    if forced && IsText(value) then Quoted(now.look.style) && now.look.style != was.look.style
    else now.look.style == if SameKinds(was, value) then was.look.style else value.look.style
  }

  /** A change is reported exactly when there is one, and for a forced set always. */
  lemma {:induction false} SetChangedIff(node: Node, path: Path, value: Node, forced: bool)
    requires node.Mapping? && path != [] && SetAt(node, path, value, forced).Edited?
    ensures SetAt(node, path, value, forced).changed <==>
              forced || Lookup(node, path).None? || !Same(Lookup(node, path).value, value)
    decreases |path|
  {
    hide Same, Replacing, Nested;
    var i := Find(node.entries, path[0]);
    if i < |node.entries| && |path| >= 2 {
      SetChangedIff(node.entries[i].value, path[1..], value, forced);
    }
  }

  /** A value that replaces another stands where that stood, between its comments; a new one is as it was given. */
  lemma {:induction false} SetPresents(node: Node, path: Path, value: Node, forced: bool)
    requires node.Mapping? && path != [] && SetAt(node, path, value, forced).Edited?
    ensures var before, r := Lookup(node, path), SetAt(node, path, value, forced);
            var after := Lookup(r.node, path);
            && after.Some?
            && (before.None? ==> after.value == value)
            && (before.Some? && r.changed ==>
                  Annotated(before.value, after.value) && Styled(before.value, after.value, value, forced))
    decreases |path|
  {
    hide Same, Nested, Annotated, Styled;
    var i := Find(node.entries, path[0]);
    if i == |node.entries| {
      FindAppended(node.entries, NewEntry(path[0], Nested(path[1..], value)), path[0]);
      NestedReads(path[1..], value);
    } else {
      var child := node.entries[i].value;
      if |path| == 1 {
        ReplacingPresents(child, value, forced);
        FindWithValue(node, i, Replacing(child, value, forced), path[0]);
      } else {
        SetPresents(child, path[1..], value, forced);
        FindWithValue(node, i, SetAt(child, path[1..], value, forced).node, path[0]);
      }
    }
  }

  lemma ReplacingPresents(was: Node, value: Node, forced: bool)
    ensures Annotated(was, Replacing(was, value, forced)) && Styled(was, Replacing(was, value, forced), value, forced)
  {
  }

  // ---------- removals ----------

  /** The same entries but one of the key. */
  predicate Loses(before: Node, after: Node, key: Key) {
    && before.Mapping? && after.Mapping? && after.tag == before.tag && after.look == before.look
    && Find(before.entries, key) < |before.entries|
    && after.entries == before.entries[..Find(before.entries, key)] + before.entries[Find(before.entries, key) + 1..]
  }

  /**
   Every mapping on the way that stays keeps its presentation and all its entries, but for the next one on the path:
   that is removed or pruned, or has a smaller value.
   */
  lemma {:induction false} RemoveStands(node: Node, path: Path, kept: int, q: Path)
    requires node.Mapping? && path != [] && UniqueKeys(node) && RemoveAt(node, path, kept).Edited?
    requires RemoveAt(node, path, kept).changed && q < path && Lookup(RemoveAt(node, path, kept).node, q).Some?
    ensures Lookup(node, q).Some?
    ensures var before, after := Lookup(node, q).value, Lookup(RemoveAt(node, path, kept).node, q).value;
            if |q| == |path| - 1 then Loses(before, after, path[|q|])
            else
              || Loses(before, after, path[|q|])
              || (Keeps(before, after, path[|q|]) && |after.entries| == |before.entries|)
    decreases |path|
  {
    hide UniqueKeys, Keeps;
    var i, r := Find(node.entries, path[0]), RemoveAt(node, path, kept).node;
    if q == [] {
      if |path| >= 2 {
        KeepsValue(node, i, RemoveAt(node.entries[i].value, path[1..], kept - 1).node, path[0]);
      }
    } else {
      PrefixTails(q, path);
      RemovedBelow(node, path, kept, q);
      LookupStep(node, q);
      var child := node.entries[i].value;
      assert path[1..][|q[1..]|] == path[|q|];
      RemoveStands(child, path[1..], kept - 1, q[1..]);
    }
  }

  // ---------- secrets ----------

  lemma LookupPut(node: Node, p: Path, x: Node)
    requires Lookup(node, p).Some? && p != []
    ensures node.Mapping? && PutAt(node, p, x).Mapping?
    ensures var i := Find(node.entries, p[0]);
            && i < |node.entries| && Lookup(node.entries[i].value, p[1..]).Some?
            && PutAt(node, p, x) == WithValue(node, i, PutAt(node.entries[i].value, p[1..], x))
  {
  }

  /** Values of different entries can be changed in either order. */
  lemma BesideValue(node: Node, i: nat, j: nat, y: Node, z: Node)
    requires node.Mapping? && i < |node.entries| && j < |node.entries| && i != j
    ensures WithValue(node, j, y).entries[i] == node.entries[i] && WithValue(node, i, z).entries[j] == node.entries[j]
    ensures WithValue(WithValue(node, j, y), i, z) == WithValue(WithValue(node, i, z), j, y)
  {
    assert WithValue(WithValue(node, j, y), i, z).entries == WithValue(WithValue(node, i, z), j, y).entries;
  }

  lemma TwiceValue(node: Node, i: nat, y: Node, z: Node)
    requires node.Mapping? && i < |node.entries|
    ensures WithValue(WithValue(node, i, y), i, z) == WithValue(node, i, z) && WithValue(node, i, y).entries[i].value == y
  {
    assert WithValue(WithValue(node, i, y), i, z).entries == WithValue(node, i, z).entries;
  }

  /** An edit with p put in place afterwards is the same edit of the tree with p put in place before. */
  predicate Commutes(r: Edit, s: Edit, p: Path, x: Node) {
    && (r.Refused? <==> s.Refused?)
    && (r.Edited? ==> Lookup(r.node, p).Some? && s.node == PutAt(r.node, p, x) && s.changed == r.changed)
  }

  /** The tree with a smaller one put below one of its entries. */
  lemma PutBelow(node: Node, i: nat, sub: Node, p: Path, x: Node)
    requires node.Mapping? && i < |node.entries| && p != [] && Find(node.entries, p[0]) == i && Lookup(sub, p[1..]).Some?
    ensures Lookup(WithValue(node, i, sub), p).Some?
    ensures PutAt(WithValue(node, i, sub), p, x) == WithValue(node, i, PutAt(sub, p[1..], x))
  {
    FindWithValue(node, i, sub, p[0]);
    TwiceValue(node, i, sub, PutAt(sub, p[1..], x));
  }

  lemma PutBeside(node: Node, i: nat, z: Node, p: Path, x: Node)
    requires node.Mapping? && i < |node.entries| && p != [] && Lookup(node, p).Some? && Find(node.entries, p[0]) != i
    ensures Lookup(WithValue(node, i, z), p).Some? && PutAt(node, p, x).Mapping? && i < |PutAt(node, p, x).entries|
    ensures PutAt(WithValue(node, i, z), p, x) == WithValue(PutAt(node, p, x), i, z)
    ensures PutAt(node, p, x).entries[i] == node.entries[i]
  {
    hide PutAt;
    LookupPut(node, p, x);
    LookupBeside(node, i, z, p);
    LookupPut(WithValue(node, i, z), p, x);
    FindWithValue(node, i, z, p[0]);
    var j := Find(node.entries, p[0]);
    BesideValue(node, i, j, PutAt(node.entries[j].value, p[1..], x), z);
  }

  lemma PutFinds(node: Node, p: Path, x: Node, key: Key)
    requires Lookup(node, p).Some? && p != []
    ensures node.Mapping? && PutAt(node, p, x).Mapping?
    ensures |PutAt(node, p, x).entries| == |node.entries|
    ensures Find(PutAt(node, p, x).entries, key) == Find(node.entries, key)
  {
    hide PutAt;
    LookupPut(node, p, x);
    var j := Find(node.entries, p[0]);
    FindWithValue(node, j, PutAt(node.entries[j].value, p[1..], x), key);
  }

  lemma SetNewBesidePut(node: Node, path: Path, value: Node, forced: bool, p: Path, x: Node)
    requires node.Mapping? && path != [] && Lookup(node, p).Some? && p != [] && p[0] != path[0]
    requires Find(node.entries, path[0]) == |node.entries|
    ensures PutAt(node, p, x).Mapping?
    ensures Commutes(SetAt(node, path, value, forced), SetAt(PutAt(node, p, x), path, value, forced), p, x)
  {
    hide Same, Replacing, Nested, PutAt;
    LookupPut(node, p, x);
    PutFinds(node, p, x, path[0]);
    var e := NewEntry(path[0], Nested(path[1..], value));
    var r := node.(entries := node.entries + [e]);
    FindAppended(node.entries, e, p[0]);
    LookupPut(r, p, x);
    assert PutAt(r, p, x).entries == PutAt(node, p, x).entries + [e];
  }

  /** What a set makes of the value under the path's first key. */
  function ChildSet(child: Node, path: Path, value: Node, forced: bool): Edit
    requires path != []
  {
    if |path| == 1 then
      if !forced && Same(child, value) then Edited(child, Some(child), false)
      else Edited(Replacing(child, value, forced), Some(child), true)
    else if !child.Mapping? then Refused
    else SetAt(child, path[1..], value, forced)
  }

  lemma SetByChild(node: Node, path: Path, value: Node, forced: bool)
    requires node.Mapping? && path != [] && Find(node.entries, path[0]) < |node.entries|
    ensures var i := Find(node.entries, path[0]);
            var r := ChildSet(node.entries[i].value, path, value, forced);
            SetAt(node, path, value, forced)
            == if r.Refused? then Refused else Edited(WithValue(node, i, r.node), r.before, r.changed)
  {
    hide Same, Replacing, Nested;
    var i := Find(node.entries, path[0]);
    assert node.entries[i := node.entries[i].(value := node.entries[i].value)] == node.entries;
  }

  /** A forced text is written alike over everything that looks alike. */
  lemma {:induction false} ForcedBlind(node: Node, path: Path, value: Node, a: Node, b: Node)
    requires Lookup(node, path).Some? && path != [] && IsText(value) && a.look == b.look
    ensures node.Mapping? && PutAt(node, path, a).Mapping? && PutAt(node, path, b).Mapping?
    ensures var r, s := SetAt(PutAt(node, path, a), path, value, true), SetAt(PutAt(node, path, b), path, value, true);
            r.Edited? && s.Edited? && r.node == s.node && r.changed && s.changed
    decreases |path|
  {
    hide Same, SetAt, PutAt, Lookup, WithValue, ChildSet;
    LookupPut(node, path, a);
    LookupPut(node, path, b);
    PutFinds(node, path, a, path[0]);
    PutFinds(node, path, b, path[0]);
    SetByChild(PutAt(node, path, a), path, value, true);
    SetByChild(PutAt(node, path, b), path, value, true);
    var i := Find(node.entries, path[0]);
    var child := node.entries[i].value;
    var c, d := PutAt(child, path[1..], a), PutAt(child, path[1..], b);
    if |path| >= 2 {
      ForcedBlind(child, path[1..], value, a, b);
    }
    ForcedChild(child, path, value, a, b);
    var z := ChildSet(c, path, value, true).node;
    TwiceValue(node, i, c, z);
    TwiceValue(node, i, d, z);
  }

  lemma ForcedChild(child: Node, path: Path, value: Node, a: Node, b: Node)
    requires path != [] && Lookup(child, path[1..]).Some? && IsText(value) && a.look == b.look
    requires var c, d := PutAt(child, path[1..], a), PutAt(child, path[1..], b);
             |path| >= 2 ==>
               && c.Mapping? && d.Mapping?
               && var r, s := SetAt(c, path[1..], value, true), SetAt(d, path[1..], value, true);
                  r.Edited? && s.Edited? && r.node == s.node && r.changed && s.changed
    ensures var c, d := PutAt(child, path[1..], a), PutAt(child, path[1..], b);
            var r, s := ChildSet(c, path, value, true), ChildSet(d, path, value, true);
            r.Edited? && s.Edited? && r.node == s.node && r.changed && s.changed
  {
    hide Same, SetAt, Lookup;
  }

  lemma SetOtherBesidePut(node: Node, path: Path, value: Node, forced: bool, p: Path, x: Node)
    requires node.Mapping? && path != [] && Lookup(node, p).Some? && p != [] && p[0] != path[0]
    requires Find(node.entries, path[0]) < |node.entries|
    ensures PutAt(node, p, x).Mapping?
    ensures Commutes(SetAt(node, path, value, forced), SetAt(PutAt(node, p, x), path, value, forced), p, x)
  {
    hide SetAt, ChildSet, PutAt, Lookup, WithValue;
    var i := Find(node.entries, path[0]);
    PutFinds(node, p, x, path[0]);
    SetByChild(node, path, value, forced);
    SetByChild(PutAt(node, p, x), path, value, forced);
    var child := node.entries[i].value;
    var r := ChildSet(child, path, value, forced);
    PutBeside(node, i, if r.Edited? then r.node else child, p, x);
  }

  /** A set elsewhere does the same whatever stands at p. */
  lemma {:induction false} SetBesidePut(node: Node, path: Path, value: Node, forced: bool, p: Path, x: Node)
    requires node.Mapping? && path != [] && Lookup(node, p).Some? && Diverge(path, p)
    ensures PutAt(node, p, x).Mapping?
    ensures Commutes(SetAt(node, path, value, forced), SetAt(PutAt(node, p, x), path, value, forced), p, x)
    decreases |path|
  {
    hide Same, Replacing, Nested, PutAt;
    LookupPut(node, p, x);
    var i := Find(node.entries, path[0]);
    if p[0] != path[0] {
      if i == |node.entries| {
        SetNewBesidePut(node, path, value, forced, p, x);
      } else {
        SetOtherBesidePut(node, path, value, forced, p, x);
      }
    } else {
      var child := node.entries[i].value;
      PutFinds(node, p, x, path[0]);
      SetBesidePut(child, path[1..], value, forced, p[1..], x);
      var r := SetAt(child, path[1..], value, forced);
      var y := PutAt(child, p[1..], x);
      TwiceValue(node, i, y, if r.Edited? then PutAt(r.node, p[1..], x) else y);
      if r.Edited? {
        PutBelow(node, i, r.node, p, x);
      }
    }
  }

  lemma PutWithout(node: Node, i: nat, p: Path, x: Node)
    requires node.Mapping? && i < |node.entries| && KeysDiffer(node.entries)
    requires p != [] && Lookup(node, p).Some? && Find(node.entries, p[0]) != i
    ensures Lookup(Without(node, i), p).Some? && PutAt(node, p, x).Mapping? && i < |PutAt(node, p, x).entries|
    ensures PutAt(Without(node, i), p, x) == Without(PutAt(node, p, x), i)
    ensures PutAt(node, p, x).entries[i] == node.entries[i]
  {
    hide PutAt, Lookup;
    LookupPut(node, p, x);
    LookupWithout(node, i, p);
    LookupPut(Without(node, i), p, x);
    FindWithout(node, i, p[0]);
    assert PutAt(Without(node, i), p, x).entries == Without(PutAt(node, p, x), i).entries;
  }

  /** What a removal does to the entry of the path's first key. */
  datatype EntryEdit = Kept | Denied | Dropped | Valued(value: Node)

  function ChildRemove(child: Node, path: Path, kept: int): EntryEdit
    requires path != []
  {
    if |path| == 1 then Dropped
    else if !child.Mapping? then Denied
    else
      var r := RemoveAt(child, path[1..], kept - 1);
      if r.Refused? then Denied
      else if !r.changed then Kept
      else if kept < 1 && IsEmptyMapping(r.node) then Dropped
      else Valued(r.node)
  }

  /** The edit as a whole is what is done to that entry. */
  predicate RemovedAs(node: Node, i: nat, c: EntryEdit, r: Edit)
    requires node.Mapping? && i < |node.entries|
  {
    match c
    case Denied => r.Refused?
    case Kept => r.Edited? && r.node == node && !r.changed
    case Dropped => r.Edited? && r.node == Without(node, i) && r.changed
    case Valued(value) => r.Edited? && r.node == WithValue(node, i, value) && r.changed
  }

  lemma RemoveByChild(node: Node, path: Path, kept: int)
    requires node.Mapping? && path != [] && Find(node.entries, path[0]) < |node.entries|
    ensures var i := Find(node.entries, path[0]);
            RemovedAs(node, i, ChildRemove(node.entries[i].value, path, kept), RemoveAt(node, path, kept))
  {
  }

  lemma RemoveOtherBesidePut(node: Node, path: Path, kept: int, p: Path, x: Node)
    requires node.Mapping? && path != [] && Lookup(node, p).Some? && p != [] && p[0] != path[0]
    requires KeysDiffer(node.entries) && Find(node.entries, path[0]) < |node.entries|
    ensures PutAt(node, p, x).Mapping?
    ensures Commutes(RemoveAt(node, path, kept), RemoveAt(PutAt(node, p, x), path, kept), p, x)
  {
    hide RemoveAt, ChildRemove, PutAt, Lookup, WithValue, Without;
    var i := Find(node.entries, path[0]);
    PutFinds(node, p, x, path[0]);
    RemoveByChild(node, path, kept);
    RemoveByChild(PutAt(node, p, x), path, kept);
    var child := node.entries[i].value;
    var c := ChildRemove(child, path, kept);
    PutBeside(node, i, if c.Valued? then c.value else child, p, x);
    PutWithout(node, i, p, x);
  }

  lemma PutNotEmpty(node: Node, p: Path, x: Node)
    requires Lookup(node, p).Some? && p != []
    ensures !IsEmptyMapping(node) && !IsEmptyMapping(PutAt(node, p, x))
  {
  }

  /** A removal elsewhere does the same whatever stands at p. */
  lemma {:induction false} RemoveBesidePut(node: Node, path: Path, kept: int, p: Path, x: Node)
    requires node.Mapping? && path != [] && UniqueKeys(node) && Lookup(node, p).Some? && Diverge(path, p)
    ensures PutAt(node, p, x).Mapping?
    ensures Commutes(RemoveAt(node, path, kept), RemoveAt(PutAt(node, p, x), path, kept), p, x)
    decreases |path|
  {
    hide PutAt, UniqueKeys, IsEmptyMapping, Lookup, Commutes, RemoveAt, ChildRemove;
    LookupPut(node, p, x);
    UniqueIsParts(node);
    PutFinds(node, p, x, path[0]);
    var i := Find(node.entries, path[0]);
    if i == |node.entries| {
      RemoveNothing(node, path, kept, p, x);
    } else if p[0] != path[0] {
      RemoveOtherBesidePut(node, path, kept, p, x);
    } else {
      LookupPut(node.entries[i].value, p[1..], x);
      RemoveBesidePut(node.entries[i].value, path[1..], kept - 1, p[1..], x);
      RemoveBelowPut(node, path, kept, p, x);
    }
  }

  lemma RemoveNothing(node: Node, path: Path, kept: int, p: Path, x: Node)
    requires node.Mapping? && path != [] && p != [] && Lookup(node, p).Some?
    requires Find(node.entries, path[0]) == |node.entries|
    ensures PutAt(node, p, x).Mapping?
    ensures Commutes(RemoveAt(node, path, kept), RemoveAt(PutAt(node, p, x), path, kept), p, x)
  {
    hide PutAt;
    PutFinds(node, p, x, path[0]);
  }

  lemma RemoveBelowPut(node: Node, path: Path, kept: int, p: Path, x: Node)
    requires node.Mapping? && |path| >= 2 && |p| >= 2 && Lookup(node, p).Some? && p[0] == path[0]
    requires var i := Find(node.entries, path[0]);
             && i < |node.entries| && node.entries[i].value.Mapping? && Lookup(node.entries[i].value, p[1..]).Some?
             && var child := node.entries[i].value;
                PutAt(child, p[1..], x).Mapping?
                && Commutes(RemoveAt(child, path[1..], kept - 1), RemoveAt(PutAt(child, p[1..], x), path[1..], kept - 1), p[1..], x)
    ensures PutAt(node, p, x).Mapping?
    ensures Commutes(RemoveAt(node, path, kept), RemoveAt(PutAt(node, p, x), path, kept), p, x)
  {
    hide PutAt, Lookup, RemoveAt, IsEmptyMapping, WithValue, Without;
    LookupPut(node, p, x);
    PutFinds(node, p, x, path[0]);
    var i := Find(node.entries, path[0]);
    var child := node.entries[i].value;
    var y := PutAt(child, p[1..], x);
    var r := RemoveAt(child, path[1..], kept - 1);
    TwiceValue(node, i, y, if r.Edited? then PutAt(r.node, p[1..], x) else y);
    RemoveByChild(node, path, kept);
    RemoveByChild(PutAt(node, p, x), path, kept);
    if r.Edited? {
      PutNotEmpty(r.node, p[1..], x);
      PutBelow(node, i, r.node, p, x);
    }
  }

  /** Changes elsewhere do the same whatever stands at p. */
  lemma ApplyBesidePut(node: Node, c: Change, p: Path, x: Node)
    requires node.Mapping? && UniqueKeys(node) && ValidChange(c) && Lookup(node, p).Some? && Diverge(c.path, p)
    ensures PutAt(node, p, x).Mapping? && Commutes(Apply(node, c), Apply(PutAt(node, p, x), c), p, x)
  {
    hide PutAt, UniqueKeys, Lookup, SetAt, RemoveAt;
    if c.Set? {
      SetBesidePut(node, c.path, c.value, c.forced, p, x);
    } else {
      RemoveBesidePut(node, c.path, c.kept, p, x);
    }
  }

  /** Both refused, or both the same. */
  lemma {:induction false} ForcedBlindAll(node: Node, changes: seq<Change>, k: nat, a: Node, b: Node)
    requires node.Mapping? && UniqueKeys(node) && ValidChanges(changes) && AllDiverge(changes) && k < |changes|
    requires var c := changes[k]; c.Set? && c.forced && IsText(c.value) && Lookup(node, c.path).Some? && a.look == b.look
    ensures PutAt(node, changes[k].path, a).Mapping? && PutAt(node, changes[k].path, b).Mapping?
    ensures ApplyAll(PutAt(node, changes[k].path, a), changes) == ApplyAll(PutAt(node, changes[k].path, b), changes)
    decreases |changes|
  {
    hide PutAt, UniqueKeys, Lookup, SetAt, RemoveAt, Diverge, Same;
    var c, p := changes[0], changes[k].path;
    LookupPut(node, p, a);
    LookupPut(node, p, b);
    if k == 0 {
      ForcedBlind(node, p, c.value, a, b);
    } else {
      ApplyBesidePut(node, c, p, a);
      ApplyBesidePut(node, c, p, b);
      var r := Apply(node, c);
      if r.Edited? {
        ApplyIsMapping(node, c);
        ApplyKeepsUnique(node, c);
        var rest := changes[1..];
        assert forall i :: 0 <= i < |rest| ==> rest[i] == changes[i + 1];
        ForcedBlindAll(r.node, rest, k - 1, a, b);
      }
    }
  }

  /** What stays at a path that only one change has to do with. */
  lemma {:induction false} ApplyAllPresents(node: Node, changes: seq<Change>, k: nat)
    requires node.Mapping? && UniqueKeys(node) && ValidChanges(changes) && AllDiverge(changes) && k < |changes|
    requires changes[k].Set? && ApplyAll(node, changes).Some?
    ensures var c := changes[k];
            var before, after := Lookup(node, c.path), Lookup(ApplyAll(node, changes).value, c.path);
            && after.Some?
            && (before.None? ==> after.value == c.value)
            && (before.Some? && !c.forced && Same(before.value, c.value) ==> after == before)
            && (before.Some? && (c.forced || !Same(before.value, c.value)) ==>
                  Annotated(before.value, after.value) && Styled(before.value, after.value, c.value, c.forced))
    decreases |changes|
  {
    hide UniqueKeys, Lookup, SetAt, RemoveAt, Diverge, Same, Annotated, Styled;
    var c, p := changes[0], changes[k].path;
    var next, rest := Apply(node, c).node, changes[1..];
    ApplyIsMapping(node, c);
    ApplyKeepsUnique(node, c);
    assert forall i :: 0 <= i < |rest| ==> rest[i] == changes[i + 1];
    if k == 0 {
      SetChangedIff(node, p, c.value, c.forced);
      SetReadsBack(node, p, c.value, c.forced);
      SetPresents(node, p, c.value, c.forced);
      ApplyAllElsewhere(next, rest, p);
    } else {
      ApplyElsewhere(node, c, p);
      ApplyAllPresents(next, rest, k - 1);
    }
  }

  lemma ApplyElsewhere(node: Node, c: Change, q: Path)
    requires node.Mapping? && UniqueKeys(node) && ValidChange(c) && Apply(node, c).Edited? && Diverge(c.path, q)
    ensures Lookup(Apply(node, c).node, q) == Lookup(node, q)
  {
    hide UniqueKeys, Lookup, SetAt, RemoveAt;
    if c.Set? {
      SetElsewhere(node, c.path, c.value, c.forced, q);
    } else {
      RemoveElsewhere(node, c.path, c.kept, q);
    }
  }

  /** Changes that all diverge from a path leave everything at it as it was, presentation included. */
  lemma {:induction false} ApplyAllElsewhere(node: Node, changes: seq<Change>, q: Path)
    requires node.Mapping? && UniqueKeys(node) && ValidChanges(changes) && ApplyAll(node, changes).Some?
    requires forall i :: 0 <= i < |changes| ==> Diverge(changes[i].path, q)
    ensures Lookup(ApplyAll(node, changes).value, q) == Lookup(node, q)
    decreases |changes|
  {
    hide UniqueKeys, Lookup, SetAt, RemoveAt, Diverge;
    if changes != [] {
      ApplyIsMapping(node, changes[0]);
      ApplyKeepsUnique(node, changes[0]);
      ApplyElsewhere(node, changes[0], q);
      ApplyAllElsewhere(Apply(node, changes[0]).node, changes[1..], q);
    }
  }

  // ---------- requests ----------

  /**
   A field that is set stands where it stood, between its comments; a secret text is always written, in quotes that
   it did not have, and any other value only when it differs.
   */
  lemma PreviewedPresents(m: Manifest, node: Node, requests: seq<Request>, i: nat)
    requires node.Mapping? && UniqueKeys(node) && ValidManifest(m) && Separate(m) && ValidRequests(requests)
    requires Previewed(m, node, requests).Some? && i < |requests| && requests[i].operation.SetField?
    ensures var path, value, secret := PathFor(m, requests[i]), requests[i].operation.value, m[requests[i].id].secret;
            var before, after := Lookup(node, path), Lookup(Previewed(m, node, requests).value, path);
            && after.Some?
            && (before.None? ==> after.value == value)
            && (before.Some? && !secret && Same(before.value, value) ==> after == before)
            && (before.Some? && (secret || !Same(before.value, value)) ==>
                  Annotated(before.value, after.value) && Styled(before.value, after.value, value, secret))
  {
    hide UniqueKeys, Separate, Fits, PathFor, ApplyAll, Lookup, Same, Annotated, Styled, AllDiverge, ValidChanges;
    ChangesAreValid(m, requests);
    AcceptedDiverge(m, requests);
    ApplyAllPresents(node, ChangesFor(m, requests), i);
  }

  /** Whatever no request leads to or through is left exactly as it is. */
  lemma PreviewedElsewhere(m: Manifest, node: Node, requests: seq<Request>, q: Path)
    requires node.Mapping? && UniqueKeys(node) && ValidManifest(m) && ValidRequests(requests)
    requires Previewed(m, node, requests).Some?
    requires forall i :: 0 <= i < |requests| ==> Fits(m, requests[i]) && Diverge(PathFor(m, requests[i]), q)
    ensures Lookup(Previewed(m, node, requests).value, q) == Lookup(node, q)
  {
    hide UniqueKeys, Fits, PathFor, ApplyAll, Lookup, Diverge, ValidChanges;
    ChangesAreValid(m, requests);
    ApplyAllElsewhere(node, ChangesFor(m, requests), q);
  }

  /**
   The candidate does not tell a secret that was there from any other: two documents that differ in the secret alone
   become the same candidate when it is set, whatever else is asked for.
   */
  lemma SecretsHidden(m: Manifest, node: Node, requests: seq<Request>, i: nat, a: Node, b: Node)
    requires node.Mapping? && UniqueKeys(node) && ValidManifest(m) && Separate(m) && ValidRequests(requests)
    requires Accepted(m, requests) && i < |requests| && m[requests[i].id].secret
    requires requests[i].operation.SetField? && IsText(requests[i].operation.value)
    requires Lookup(node, PathFor(m, requests[i])).Some? && a.look == b.look
    ensures var path := PathFor(m, requests[i]);
            && PutAt(node, path, a).Mapping? && PutAt(node, path, b).Mapping?
            && Previewed(m, PutAt(node, path, a), requests) == Previewed(m, PutAt(node, path, b), requests)
  {
    hide UniqueKeys, Separate, Fits, PathFor, ApplyAll, Lookup, AllDiverge, ValidChanges;
    ChangesAreValid(m, requests);
    AcceptedDiverge(m, requests);
    ForcedBlindAll(node, ChangesFor(m, requests), i, a, b);
  }

  /**
   A mapping above a field that is removed is cleared away exactly when the field asks for that, the mapping is not
   itself named by a binding nor holds one further down, and there is nothing else in it.
   */
  lemma RemovalPrunes(m: Manifest, node: Node, r: Request, q: Path)
    requires node.Mapping? && UniqueKeys(node) && ValidManifest(m) && Fits(m, r) && r.operation.RemoveField?
    requires Previewed(m, node, [r]).Some? && Lookup(node, PathFor(m, r)).Some? && q < PathFor(m, r) && q != []
    ensures Lookup(node, q).Some? && |m[r.id].selector| == |PathFor(m, r)|
    ensures var f, after := m[r.id], Lookup(Previewed(m, node, [r]).value, q);
            after.None? <==>
              && f.pruneEmpty && (forall i :: |q| - 1 <= i < |f.selector| ==> f.selector[i].KeySegment?)
              && OnlyWay(Lookup(node, q).value, PathFor(m, r)[|q|..])
  {
    hide UniqueKeys, Lookup, OnlyWay, Resolves;
    var path, kept := PathFor(m, r), KeptDepth(m[r.id]);
    OneRequest(m, node, r);
    RemoveRefusedIff(node, path, kept);
    PrunedIff(node, path, kept, q);
    PathLength(m, r);
    hide KeptDepth, RemoveAt, Previewed, PathFor;
    KeptBelow(m[r.id], |q|);
  }

  /** A level is not kept exactly when empty parents are to go and no binding stands at it or further down. */
  lemma KeptBelow(f: Field, n: nat)
    requires 0 < n < |f.selector|
    ensures n > KeptDepth(f) <==> f.pruneEmpty && forall i :: n - 1 <= i < |f.selector| ==> f.selector[i].KeySegment?
  {
    var last := LastBinding(f.selector);
    if last >= n {
      assert f.selector[last - 1].BindingSegment?;
    }
  }

  lemma OneRequest(m: Manifest, node: Node, r: Request)
    requires node.Mapping? && ValidManifest(m) && Fits(m, r) && r.operation.RemoveField?
    requires Previewed(m, node, [r]).Some?
    ensures PathFor(m, r) != [] && RemoveAt(node, PathFor(m, r), KeptDepth(m[r.id])).Edited?
    ensures Previewed(m, node, [r]).value == RemoveAt(node, PathFor(m, r), KeptDepth(m[r.id])).node
  {
    hide Resolves, RemoveAt, PathFor, KeptDepth;
    ChangesAreValid(m, [r]);
    var changes := ChangesFor(m, [r]);
    assert changes[0] == ChangeFor(m, r) && changes[1..] == [];
    assert Accepted(m, [r]);
    var e := Apply(node, changes[0]);
    ApplyIsMapping(node, changes[0]);
    assert ApplyAll(node, changes) == ApplyAll(e.node, changes[1..]) == Some(e.node);
  }

  lemma PathLength(m: Manifest, r: Request)
    requires Fits(m, r)
    ensures |PathFor(m, r)| == |m[r.id].selector|
  {
    BindingsAreSegments(m[r.id].selector, r.bindings);
  }
}
