/** The document as the program edits it: linked nodes, changed in place. */
module YamlDocument {
  import opened ByteStrings
  import opened YamlTree
  import opened YamlChanges
  import opened YamlStore
  import opened YamlPut
  import opened YamlGrow
  import opened YamlWay

  /** How a walk ends: nothing is there, something is in the way, or it has come to the end. */
  datatype Way = Missed | Barred | Reached

  class Document {
    var root: YamlNode

    ghost var nodes: set<YamlNode>
    ghost var parent: map<YamlNode, YamlNode>
    ghost var born: map<YamlNode, nat>
    ghost var next: nat

    /** The nodes of the document, as a value. */
    ghost function View(): Store
      reads this, nodes
    {
      Store(map n | n in nodes :: Cell(n.kind, n.tag, n.text, n.look, n.content), parent, born, next)
    }

    ghost predicate Valid()
      reads this, nodes
    {
      root in nodes && WellFormed(View())
    }

    /** The tree that the document stands for. */
    ghost function Value(): Node
      requires Valid()
      reads this, nodes
    {
      Abs(View(), root)
    }

    /** A document of one node. */
    constructor (kind: Kind, tag: Bytes, text: Bytes, look: Look)
      ensures Valid() && fresh(nodes) && nodes == {root}
      ensures root.kind == kind && root.tag == tag && root.text == text && root.look == look && root.content == []
    {
      var n := new YamlNode(kind, tag, text, look);
      root, nodes, parent, born, next := n, {n}, map[], map[n := 0], 1;
    }

    // ---------- nodes ----------

    /** A new node, made for another one and hung nowhere yet. */
    method AddNode(kind: Kind, tag: Bytes, text: Bytes, look: Look, under: YamlNode) returns (n: YamlNode)
      requires Valid() && under in nodes
      modifies this`nodes, this`parent, this`born, this`next
      ensures Valid() && fresh(n) && nodes == old(nodes) + {n}
      ensures n.kind == kind && n.tag == tag && n.text == text && n.look == look && n.content == []
      ensures View() == Added(old(View()), n, Cell(kind, tag, text, look, []), under)
      ensures Extends(old(View()), View()) && Under(View(), under, n)
    {
      hide WellFormed, Extends, Under;
      ghost var s := View();
      n := new YamlNode(kind, tag, text, look);
      nodes, parent, born, next := nodes + {n}, parent[n := under], born[n := next], next + 1;
      ghost var x := Cell(kind, tag, text, look, []);
      assert View().cells == s.cells[n := x];
      assert View() == Added(s, n, x, under);
      AddedExtends(s, n, x, under);
      ExtendsBoth(s, View());
    }

    /** Hangs nodes made for x below it. */
    method Hang(x: YamlNode, content: seq<YamlNode>)
      requires Valid() && x in nodes && NoneTwice(content)
      requires forall i :: 0 <= i < |content| ==> Under(View(), x, content[i])
      requires x.kind == MappingKind ==> |content| % 2 == 0
      modifies x`content
      ensures Valid() && View() == Hung(old(View()), x, content) && Changes(old(View()), View(), x)
    {
      hide WellFormed, Under, Abs, NoneTwice;
      ghost var s := View();
      x.content := content;
      HungOk(s, x, content);
      assert View().cells == Hung(s, x, content).cells;
      hide Changes;
      WellFormedBoth(s, View(), x);
    }

    /** The value of a key, and where the key stands. */
    method MappingValue(mapping: YamlNode, key: Key) returns (value: YamlNode?, keyIndex: int)
      requires Valid() && mapping in nodes
      ensures value == null <==>
                mapping.kind != MappingKind
                || Find(Abs(View(), mapping).entries, key) == |Abs(View(), mapping).entries|
      ensures value != null ==>
                && keyIndex == 2 * Find(Abs(View(), mapping).entries, key) && 0 <= keyIndex < |mapping.content| - 1
                && value == mapping.content[keyIndex + 1] && value in nodes && Under(View(), mapping, value)
    {
      hide Abs, WellFormed, Under;
      if mapping.kind != MappingKind {
        return null, -1;
      }
      ghost var s := View();
      AbsFields(s, mapping);
      ghost var entries := Abs(s, mapping).entries;
      keyIndex := 0;
      while keyIndex < |mapping.content|
        invariant 0 <= keyIndex <= |mapping.content| && keyIndex % 2 == 0
        invariant forall i :: 0 <= i < keyIndex / 2 ==> entries[i].key != key
      {
        ghost var i := keyIndex / 2;
        assert entries[i] == EntryAt(s, mapping, i);
        ContentUnder(s, mapping, keyIndex);
        ContentUnder(s, mapping, keyIndex + 1);
        KeyOfEntry(s, mapping, i);
        InStore(s, mapping, mapping.content[keyIndex]);
        InStore(s, mapping, mapping.content[keyIndex + 1]);
        if mapping.content[keyIndex].text == key {
          FindIs(entries, key, i);
          return mapping.content[keyIndex + 1], keyIndex;
        }
        keyIndex := keyIndex + 2;
      }
      FindIs(entries, key, |entries|);
      return null, -1;
    }

    /** The node that a path leads to. */
    method NodeAtPath(path: Path) returns (node: YamlNode?)
      requires Valid()
      ensures node == null <==> Lookup(Value(), path).None?
      ensures node != null ==> node in nodes && Lookup(Value(), path) == Some(Abs(View(), node))
    {
      hide Abs, At, WellFormed, Lookup, Find;
      ghost var s := View();
      var current := root;
      WayStarts(s, root, path);
      for i := 0 to |path|
        invariant current in nodes && At(s, root, path[..i]) == Some(current)
        invariant Lookup(Abs(s, root), path) == Lookup(Abs(s, current), path[i..])
      {
        WayGoesOn(s, root, path, i, current);
        var next, _ := MappingValue(current, path[i]);
        if next == null {
          return null;
        }
        current := next;
      }
      WayEnds(s, current, path);
      return current;
    }

    /** Equal kind, tag, text and content. */
    method EqualNodeValue(n: YamlNode, value: Node) returns (equal: bool)
      requires Valid() && n in nodes && Plain(value)
      ensures equal == Same(Abs(View(), n), value)
      decreases value
    {
      hide Abs, WellFormed, Under;
      ghost var s := View();
      AbsFields(s, n);
      if n.kind != KindOf(value) || n.tag != value.tag {
        return false;
      }
      if value.Scalar? {
        return n.text == value.text;
      }
      if |n.content| != |value.items| {
        return false;
      }
      for i := 0 to |n.content|
        invariant forall j :: 0 <= j < i ==> Same(Abs(s, n).items[j], value.items[j])
      {
        var same := EqualNodeValue(n.content[i], value.items[i]);
        if !same {
          return false;
        }
      }
      return true;
    }

    // ---------- building ----------

    /** The nodes of a value, made for another node and hung nowhere yet. */
    method AddValue(value: Node, under: YamlNode) returns (n: YamlNode)
      requires Valid() && under in nodes && Plain(value)
      modifies this`nodes, this`parent, this`born, this`next
      ensures Valid() && n in nodes && n !in old(nodes) && old(nodes) <= nodes && fresh(nodes - old(nodes))
      ensures Extends(old(View()), View()) && Under(View(), under, n) && Abs(View(), n) == value
      decreases value
    {
      hide Abs, WellFormed, Under, Extends, NoneTwice;
      ghost var start := View();
      n := AddNode(KindOf(value), value.tag, TextOf(value), value.look, under);
      ghost var s := View();
      AbsFields(s, n);
      if value.Scalar? {
        return;
      }
      var content: seq<YamlNode> := [];
      NoneTwiceEmpty();
      ExtendsItself(start, s);
      for i := 0 to |value.items|
        invariant Valid() && |content| == i && n in nodes && nodes >= old(nodes) && fresh(nodes - old(nodes))
        invariant Extends(s, View()) && NoneTwice(content)
        invariant forall j :: 0 <= j < i ==> Built(View(), n, content[j], value.items[j])
      {
        ghost var before := View();
        var child := AddValue(value.items[i], n);
        BuiltStill(before, View(), n, content, value.items[..i]);
        NoneTwiceMore(content, child);
        ExtendsTwice(s, before, View());
        content := content + [child];
      }
      SequenceBuilt(start, s, View(), under, n, content, value);
      Hang(n, content);
    }

    // ---------- copying ----------

    /** The other document has no node of this one, and is o. */
    ghost predicate Holds(source: Document, o: Store)
      reads this, source, source.nodes
    {
      source != this && nodes !! source.nodes && source.Valid() && source.View() == o
    }

    /** A node of another document, copied for a node of this one. */
    method CopyChild(source: Document, ghost o: Store, m: YamlNode, c: YamlNode) returns (child: YamlNode)
      requires Valid() && c in nodes && Holds(source, o) && m in o.cells
      modifies this`nodes, this`parent, this`born, this`next
      ensures Valid() && old(nodes) <= nodes && fresh(nodes - old(nodes)) && child in nodes && child !in old(nodes)
      ensures Extends(old(View()), View()) && Copied(View(), o, c, child, m)
      decreases Rest(o, m), 1
    {
      hide Abs, WellFormed, Under, Extends, ExtendsBut, NoneTwice, Copied;
      ghost var s := View();
      child := AddNode(m.kind, m.tag, m.text, m.look, c);
      ghost var t := View();
      CopyContent(source, o, m, child);
      CopyMade(s, t, View(), o, c, child, m);
    }

    /** The content of a node of another document, copied below a node of this one. */
    method CopyContent(source: Document, ghost o: Store, n: YamlNode, c: YamlNode)
      requires Valid() && c in nodes && Holds(source, o) && n in o.cells
      requires c.kind == n.kind && c.tag == n.tag && c.text == n.text && c.look == n.look && c.content == []
      modifies this`nodes, this`parent, this`born, this`next, c`content
      ensures Valid() && old(nodes) <= nodes && fresh(nodes - old(nodes))
      ensures ExtendsBut(old(View()), View(), c) && Abs(View(), c) == Abs(o, n)
      decreases Rest(o, n), 0
    {
      hide Abs, WellFormed, Under, Extends, ExtendsBut, NoneTwice, Copied;
      ghost var s := View();
      var content: seq<YamlNode> := [];
      NoneTwiceEmpty();
      WellFormedItself(s);
      for i := 0 to |n.content|
        invariant Valid() && Holds(source, o) && c in nodes
        invariant |content| == i && nodes >= old(nodes) && fresh(nodes - old(nodes))
        invariant Extends(s, View()) && NoneTwice(content)
        invariant forall x :: x in content ==> x in nodes
        invariant forall j :: 0 <= j < i ==> Copied(View(), o, c, content[j], n.content[j])
      {
        ghost var before := View();
        ChildLater(o, n, i);
        var child := CopyChild(source, o, n.content[i], c);
        CopiedStill(before, View(), o, c, content, n.content[..i]);
        NoneTwiceMore(content, child);
        ExtendsTwice(s, before, View());
        content := content + [child];
      }
      ContentCopied(s, View(), o, n, c, content);
      Hang(c, content);
    }

    /** A document of its own that stands for what a node stands for. */
    static method CloneNode(source: Document, n: YamlNode) returns (d: Document)
      requires source.Valid() && n in source.nodes
      ensures fresh(d) && fresh(d.nodes) && Is(d, Some(Abs(source.View(), n)))
    {
      hide Abs, WellFormed, Under, ExtendsBut;
      d := new Document(n.kind, n.tag, n.text, n.look);
      d.CopyContent(source, source.View(), n, d.root);
    }

    // ---------- entries ----------

    /** A mapping of the document, and the path that leads to it. */
    ghost predicate Stands(p: Path, x: YamlNode)
      reads this, nodes
    {
      Valid() && x in nodes && x.kind == MappingKind && At(View(), root, p) == Some(x)
    }

    /** Adds an entry at the end of a mapping. */
    method AddEntry(x: YamlNode, key: Key, v: YamlNode, ghost p: Path)
      requires Stands(p, x) && v in nodes && Under(View(), x, v) && v !in x.content
      requires Find(Abs(View(), x).entries, key) == |Abs(View(), x).entries|
      modifies this`nodes, this`parent, this`born, this`next, x`content
      ensures Stands(p, x) && old(nodes) <= nodes && fresh(nodes - old(nodes))
      ensures Lookup(old(Value()), p) == Some(old(Abs(View(), x)))
      ensures var cur := old(Abs(View(), x));
              Value() == PutAt(old(Value()), p, cur.(entries := cur.entries + [NewEntry(key, old(Abs(View(), v)))]))
      ensures Abs(View(), v) == old(Abs(View(), v)) && At(View(), root, p + [key]) == Some(v)
    {
      hide Abs, At, WellFormed, Under, Extends, Changes, NoneTwice;
      ghost var s := View();
      var k := AddNode(ScalarKind, STRING_TAG, key, NO_LOOK, x);
      ghost var t := View();
      EntryAdded(s, t, root, p, x, k, v, key);
      Hang(x, x.content + [k, v]);
    }

    /** Removes an entry. */
    method DeleteEntry(x: YamlNode, keyIndex: int, ghost i: nat, ghost p: Path)
      requires Stands(p, x) && keyIndex == 2 * i && keyIndex + 1 < |x.content|
      modifies x`content
      ensures Stands(p, x) && Changes(old(View()), View(), x)
      ensures Lookup(old(Value()), p) == Some(old(Abs(View(), x))) && i < |old(Abs(View(), x)).entries|
      ensures Value() == PutAt(old(Value()), p, Without(old(Abs(View(), x)), i))
    {
      hide Abs, At, WellFormed, Under, Changes, NoneTwice, Shorter;
      ghost var s := View();
      EntryDeleted(s, root, p, x, i);
      assert Shorter(x.content, i) == x.content[..keyIndex] + x.content[keyIndex + 2..] by { ShorterMeans(x.content, i); }
      Hang(x, x.content[..keyIndex] + x.content[keyIndex + 2..]);
    }

    /** Gives an entry another value. */
    method ReplaceValue(x: YamlNode, keyIndex: int, v: YamlNode, ghost i: nat, ghost p: Path)
      requires Stands(p, x) && keyIndex == 2 * i && keyIndex + 1 < |x.content|
      requires v in nodes && Under(View(), x, v) && v !in x.content
      modifies x`content
      ensures Stands(p, x)
      ensures Lookup(old(Value()), p) == Some(old(Abs(View(), x))) && i < |old(Abs(View(), x)).entries|
      ensures Value() == PutAt(old(Value()), p, WithValue(old(Abs(View(), x)), i, old(Abs(View(), v))))
    {
      hide Abs, At, WellFormed, Under, Changes, NoneTwice;
      ghost var s := View();
      EntryReplaced(s, root, p, x, i, v);
      Hang(x, x.content[keyIndex + 1 := v]);
    }

    /** Adds an empty mapping. */
    method AddMapping(x: YamlNode, key: Key, ghost p: Path) returns (next: YamlNode)
      requires Stands(p, x) && Find(Abs(View(), x).entries, key) == |Abs(View(), x).entries|
      modifies this`nodes, this`parent, this`born, this`next, x`content
      ensures Valid() && next in nodes && next.kind == MappingKind && old(nodes) <= nodes && fresh(nodes - old(nodes))
      ensures Lookup(old(Value()), p) == Some(old(Abs(View(), x)))
      ensures var cur := old(Abs(View(), x));
              Value() == PutAt(old(Value()), p, cur.(entries := cur.entries + [NewEntry(key, EMPTY_MAPPING)]))
      ensures Abs(View(), next) == EMPTY_MAPPING && At(View(), root, p + [key]) == Some(next)
    {
      hide Abs, At, WellFormed, Under, Extends, Changes, NoneTwice;
      ghost var s := View();
      next := AddNode(MappingKind, MAPPING_TAG, [], NO_LOOK, x);
      Grown(s, View(), root, p, x);
      EmptyIs(View(), next);
      AddEntry(x, key, next, p);
    }

    // ---------- edits ----------

    /** Sets the value at a path, with mappings on the way to it; refused where something else is in the way. */
    method SetNodeAtPath(path: Path, value: Node, forced: bool) returns (ok: bool, before: Document?, changed: bool)
      requires Valid() && root.kind == MappingKind && path != [] && Plain(value)
      modifies this`nodes, this`parent, this`born, this`next, nodes`content
      ensures Valid() && root.kind == MappingKind && old(nodes) <= nodes && fresh(nodes - old(nodes))
      ensures old(Value()).Mapping?
      ensures var asked := SetAt(old(Value()), path, value, forced);
              if ok then Outcome(Value(), changed, before, asked) else asked.Refused? && Value() == old(Value())
    {
      hide Abs, At, WellFormed, Under, SetAt, Setting, Is;
      SettingStarts(View(), root, path, value, forced);
      ghost var asked := SetAt(Value(), path, value, forced);
      var current := root;
      for j := 0 to |path| - 1
        invariant Valid() && current in nodes && old(nodes) <= nodes && fresh(nodes - old(nodes))
        invariant Setting(asked, View(), root, path, j, current, value, forced)
        invariant asked.Refused? ==> Value() == old(Value())
      {
        var blocked;
        blocked, current := SetStep(path, j, value, forced, current, asked);
        if blocked {
          return false, null, false;
        }
      }
      changed, before := SetLast(path, value, forced, current, asked);
      return true, before, changed;
    }

    /** A step towards the mapping that is to hold the value. */
    method SetStep(path: Path, j: int, value: Node, forced: bool, current: YamlNode, ghost asked: Edit)
      returns (blocked: bool, next: YamlNode)
      requires Valid() && current in nodes && 0 <= j < |path| - 1
      requires Setting(asked, View(), root, path, j, current, value, forced)
      modifies this`nodes, this`parent, this`born, this`next, current`content
      ensures Valid() && next in nodes && old(nodes) <= nodes && fresh(nodes - old(nodes))
      ensures blocked ==> asked.Refused? && Value() == old(Value())
      ensures !blocked ==> Setting(asked, View(), root, path, j + 1, next, value, forced)
      ensures asked.Refused? ==> Value() == old(Value())
    {
      hide Abs, At, WellFormed, Under, SetAt, Setting;
      SettingStands(asked, View(), root, path, j, current, value, forced);
      NextIs(View(), current, path[j]);
      var found, _ := MappingValue(current, path[j]);
      if found != null && found.kind != MappingKind {
        SettingBlocked(asked, View(), root, path, j, current, value, forced);
        return true, current;
      }
      if found != null {
        SettingDown(asked, View(), root, path, j, current, value, forced);
        return false, found;
      }
      next := SetNewMapping(path, j, value, forced, current, asked);
      return false, next;
    }

    /** A step of a set where there is no entry yet. */
    method SetNewMapping(path: Path, j: int, value: Node, forced: bool, x: YamlNode, ghost asked: Edit) returns (next: YamlNode)
      requires Valid() && x in nodes && 0 <= j < |path| - 1 && Setting(asked, View(), root, path, j, x, value, forced)
      requires Stands(path[..j], x) && Find(Abs(View(), x).entries, path[j]) == |Abs(View(), x).entries|
      modifies this`nodes, this`parent, this`born, this`next, x`content
      ensures Valid() && next in nodes && old(nodes) <= nodes && fresh(nodes - old(nodes))
      ensures asked.Edited? && Setting(asked, View(), root, path, j + 1, next, value, forced)
    {
      hide Abs, At, WellFormed, Under, SetAt, Setting, PutAt, Lookup;
      ghost var s := View();
      next := AddMapping(x, path[j], path[..j]);
      SettingNew(asked, s, View(), root, path, j, x, next, value, forced);
    }

    /** The last step of a set, in the mapping that is to hold the value. */
    method SetLast(path: Path, value: Node, forced: bool, current: YamlNode, ghost asked: Edit)
      returns (changed: bool, before: Document?)
      requires Valid() && current in nodes && path != [] && Plain(value)
      requires Setting(asked, View(), root, path, |path| - 1, current, value, forced)
      modifies this`nodes, this`parent, this`born, this`next, current`content
      ensures Valid() && old(nodes) <= nodes && fresh(nodes - old(nodes))
      ensures Outcome(Value(), changed, before, asked)
    {
      hide Abs, At, WellFormed, Under, Setting, Is, Last;
      ghost var s, p := View(), path[..|path| - 1];
      ghost var tree, cur, key := Value(), Abs(s, current), path[|path| - 1];
      SettingStands(asked, s, root, path, |path| - 1, current, value, forced);
      SettingEnds(asked, s, root, path, current, value, forced);
      var existing, keyIndex := MappingValue(current, path[|path| - 1]);
      if existing == null {
        PutNew(current, path[|path| - 1], value, p, tree, cur);
        LastIsNew(tree, p, cur, key, value, forced);
        return true, null;
      }
      LastIsOver(tree, p, cur, key, value, forced);
      changed, before := SetOver(current, keyIndex, existing, value, forced, Find(cur.entries, key), p, tree, cur);
    }

    /** The last step of a set where there is a value; an equal one stays, unless it is forced to be written. */
    method SetOver(current: YamlNode, keyIndex: int, existing: YamlNode, value: Node, forced: bool, ghost i: nat, ghost p: Path,
                   ghost tree: Node, ghost cur: Node) returns (changed: bool, before: Document)
      requires Stands(p, current) && keyIndex == 2 * i && keyIndex + 1 < |current.content|
      requires existing == current.content[keyIndex + 1] && existing in nodes && Plain(value)
      requires Value() == tree && Abs(View(), current) == cur && cur.Mapping? && i < |cur.entries|
      requires cur.entries[i].value == Abs(View(), existing) && Lookup(tree, p).Some?
      modifies this`nodes, this`parent, this`born, this`next, current`content
      ensures Valid() && old(nodes) <= nodes && fresh(nodes - old(nodes))
      ensures Outcome(Value(), changed, before, Over(tree, p, cur, i, value, forced))
    {
      hide Abs, At, WellFormed, Under, Is, PutAt, Replacing, Same, Lookup;
      var equal := false;
      if !forced {
        equal := EqualNodeValue(existing, value);
      }
      if equal {
        before := CloneNode(this, existing);
        return false, before;
      }
      before := Exchange(current, keyIndex, existing, value, forced, i, p, tree, cur);
      return true, before;
    }

    /** Puts a value in the place of another, which is kept for the caller. */
    method Exchange(current: YamlNode, keyIndex: int, existing: YamlNode, value: Node, forced: bool, ghost i: nat, ghost p: Path,
                    ghost tree: Node, ghost cur: Node) returns (before: Document)
      requires Stands(p, current) && keyIndex == 2 * i && keyIndex + 1 < |current.content|
      requires existing == current.content[keyIndex + 1] && existing in nodes && Plain(value)
      requires Value() == tree && Abs(View(), current) == cur && cur.Mapping? && i < |cur.entries|
      requires cur.entries[i].value == Abs(View(), existing)
      modifies this`nodes, this`parent, this`born, this`next, current`content
      ensures Valid() && old(nodes) <= nodes && fresh(nodes - old(nodes))
      ensures Lookup(tree, p).Some? && Is(before, Some(cur.entries[i].value))
      ensures Value() == PutAt(tree, p, WithValue(cur, i, Replacing(cur.entries[i].value, value, forced)))
    {
      hide Abs, At, WellFormed, Under, PutAt, Replacing, Lookup, Is;
      before := CloneNode(this, existing);
      PutValue(current, keyIndex, existing, value, forced, i, p);
    }

    /** Puts a value where none was. */
    method PutNew(current: YamlNode, key: Key, value: Node, ghost p: Path, ghost tree: Node, ghost cur: Node)
      requires Stands(p, current) && Plain(value) && Value() == tree && Abs(View(), current) == cur && cur.Mapping?
      requires Find(cur.entries, key) == |cur.entries|
      modifies this`nodes, this`parent, this`born, this`next, current`content
      ensures Valid() && old(nodes) <= nodes && fresh(nodes - old(nodes))
      ensures Lookup(tree, p).Some?
      ensures Value() == PutAt(tree, p, cur.(entries := cur.entries + [NewEntry(key, value)]))
    {
      hide Abs, At, WellFormed, Under, Extends, PutAt, Lookup;
      ghost var s := View();
      var v := AddValue(value, current);
      Grown(s, View(), root, p, current);
      AddEntry(current, key, v, p);
    }

    /** Puts a value in the place of another, presented as that was. */
    method PutValue(current: YamlNode, keyIndex: int, existing: YamlNode, value: Node, forced: bool, ghost i: nat, ghost p: Path)
      requires Stands(p, current) && keyIndex == 2 * i && keyIndex + 1 < |current.content|
      requires existing == current.content[keyIndex + 1] && existing in nodes && Plain(value)
      modifies this`nodes, this`parent, this`born, this`next, current`content
      ensures Stands(p, current) && old(nodes) <= nodes && fresh(nodes - old(nodes))
      ensures Lookup(old(Value()), p) == Some(old(Abs(View(), current))) && i < |old(Abs(View(), current)).entries|
      ensures Value() == PutAt(old(Value()), p, WithValue(old(Abs(View(), current)), i,
                                                          Replacing(old(Abs(View(), existing)), value, forced)))
    {
      hide Abs, At, WellFormed, Under, Extends, PutAt, Replacing, Lookup;
      ghost var s := View();
      AbsFields(s, existing);
      ReplacingIs(Abs(s, existing), value, forced);
      var shown := WithLook(value, LookFor(existing.look, existing.kind == KindOf(value), value, forced));
      var v := AddValue(shown, current);
      Grown(s, View(), root, p, current);
      ReplaceValue(current, keyIndex, v, i, p);
    }

    /** The mappings on the way are parents, and the last of them has existing at the end of the path. */
    ghost predicate Reaches(path: Path, parents: seq<YamlNode>, keyIndex: int, existing: YamlNode)
      reads this, nodes
    {
      && Valid() && path != [] && |parents| == |path| && Walked(View(), root, path, parents)
      && var x := parents[|path| - 1];
         && x in nodes && x.kind == MappingKind && Abs(View(), x).Mapping?
         && var i := Find(Abs(View(), x).entries, path[|path| - 1]);
            && i < |Abs(View(), x).entries| && keyIndex == 2 * i && keyIndex + 1 < |x.content|
            && existing == x.content[keyIndex + 1] && existing in nodes
            && Abs(View(), x).entries[i].value == Abs(View(), existing)
    }

    /** Removes what a path leads to, and every mapping deeper than the kept levels that this leaves empty. */
    method RemoveNodeAtPath(path: Path, kept: int) returns (ok: bool, before: Document?, changed: bool)
      requires Valid() && root.kind == MappingKind && path != []
      modifies nodes`content
      ensures Valid() && root.kind == MappingKind
      ensures old(Value()).Mapping?
      ensures var asked := RemoveAt(old(Value()), path, kept);
              if ok then 0 <= kept < |path| && Outcome(Value(), changed, before, asked)
              else (!(0 <= kept < |path|) || asked.Refused?) && Value() == old(Value())
    {
      hide Abs, At, WellFormed, Under, RemoveAt, Walked, Is, Reaches, Outcome;
      RootIsMapping(View(), root);
      if kept < 0 || kept > |path| - 1 {
        return false, null, false;
      }
      var way, parents, keyIndex, existing := Walk(path, kept);
      match way {
        case Missed => return true, null, false;
        case Barred => return false, null, false;
        case Reached =>
          before := RemoveFound(path, kept, parents, keyIndex, existing, Value());
          return true, before, true;
      }
    }

    /** Walks to what is to be removed, remembering the mappings on the way. */
    method Walk(path: Path, kept: int) returns (way: Way, parents: seq<YamlNode>, keyIndex: int, existing: YamlNode)
      requires Valid() && root.kind == MappingKind && path != []
      ensures Value().Mapping?
      ensures way.Missed? ==> Outcome(Value(), false, null, RemoveAt(Value(), path, kept))
      ensures way.Barred? ==> RemoveAt(Value(), path, kept).Refused?
      ensures way.Reached? ==> Reaches(path, parents, keyIndex, existing)
    {
      hide Abs, At, WellFormed, Under, RemoveAt, Walked, Is, Outcome;
      RootIsMapping(View(), root);
      WalkStarts(View(), root, path);
      parents := [root];
      existing, keyIndex := root, 0;
      for j := 0 to |path| - 1
        invariant |parents| == j + 1 && parents[j] in nodes && Walked(View(), root, path, parents)
      {
        var next;
        way, next := WalkStep(path, kept, parents, parents[j]);
        if !way.Reached? {
          return;
        }
        parents := parents + [next];
      }
      way, keyIndex, existing := WalkEnd(path, kept, parents, parents[|path| - 1]);
    }

    /** One step through a mapping. */
    method WalkStep(path: Path, kept: int, parents: seq<YamlNode>, current: YamlNode) returns (way: Way, next: YamlNode)
      requires Valid() && 0 < |parents| < |path| && current == parents[|parents| - 1] && current in nodes
      requires Walked(View(), root, path, parents)
      ensures Value().Mapping?
      ensures way.Missed? ==> Outcome(Value(), false, null, RemoveAt(Value(), path, kept))
      ensures way.Barred? ==> RemoveAt(Value(), path, kept).Refused?
      ensures way.Reached? ==> next in nodes && Walked(View(), root, path, parents + [next])
    {
      hide Abs, At, WellFormed, Under, RemoveAt, Walked, Is, Outcome, Find;
      ghost var s := View();
      WalkStands(s, root, path, parents);
      NextIs(s, current, path[|parents| - 1]);
      var found, _ := MappingValue(current, path[|parents| - 1]);
      if found == null {
        WalkMisses(s, root, path, parents, kept);
        MissedIs(Value(), RemoveAt(Value(), path, kept));
        return Missed, current;
      }
      if found.kind != MappingKind {
        WalkBlocked(s, root, path, parents, kept);
        return Barred, current;
      }
      WalkRoot(s, root, path, parents);
      WalkOn(s, root, path, parents);
      return Reached, found;
    }

    /** The end of the walk. */
    method WalkEnd(path: Path, kept: int, parents: seq<YamlNode>, current: YamlNode)
      returns (way: Way, keyIndex: int, existing: YamlNode)
      requires Valid() && 0 < |parents| == |path| && current == parents[|path| - 1] && current in nodes
      requires Walked(View(), root, path, parents) && Value().Mapping?
      ensures !way.Barred?
      ensures way.Missed? ==> Outcome(Value(), false, null, RemoveAt(Value(), path, kept))
      ensures way.Reached? ==> Reaches(path, parents, keyIndex, existing)
    {
      hide Abs, At, WellFormed, Under, RemoveAt, Walked, Is, Outcome, Find;
      WalkStands(View(), root, path, parents);
      NextIs(View(), current, path[|path| - 1]);
      var found;
      found, keyIndex := MappingValue(current, path[|path| - 1]);
      if found == null {
        WalkMisses(View(), root, path, parents, kept);
        MissedIs(Value(), RemoveAt(Value(), path, kept));
        return Missed, keyIndex, current;
      }
      return Reached, keyIndex, found;
    }

    /** Removes an entry that has been found, and prunes upwards. */
    method RemoveFound(path: Path, kept: int, parents: seq<YamlNode>, keyIndex: int, existing: YamlNode, ghost tree: Node)
      returns (before: Document)
      requires Reaches(path, parents, keyIndex, existing) && 0 <= kept < |path| && Value() == tree && tree.Mapping?
      modifies nodes`content
      ensures Valid() && Outcome(Value(), true, before, RemoveAt(tree, path, kept))
    {
      hide Abs, At, WellFormed, Under, RemoveAt, Walked, Pruning, Is, Left, Open, Lookup, PutAt, Find;
      WalkStands(View(), root, path, parents);
      WalkFinds(View(), root, path, parents, kept);
      before := CloneNode(this, existing);
      DeleteFound(path, kept, parents, keyIndex, existing, tree);
      Prune(path, kept, parents, tree);
    }

    /** Removes an entry that has been found. */
    method DeleteFound(path: Path, kept: int, parents: seq<YamlNode>, keyIndex: int, existing: YamlNode, ghost tree: Node)
      requires Reaches(path, parents, keyIndex, existing) && 0 <= kept < |path| && Value() == tree && tree.Mapping?
      modifies nodes`content
      ensures Valid() && Open(tree, path) && Pruning(tree, View(), root, path, kept, |path| - 1, parents)
    {
      hide Abs, At, WellFormed, Under, RemoveAt, Walked, Pruning, Is, Left, Open, Lookup, PutAt;
      ghost var s, x := View(), parents[|path| - 1];
      WalkStands(s, root, path, parents);
      WalkFinds(s, root, path, parents, kept);
      DeleteEntry(parents[|path| - 1], keyIndex, Find(Abs(s, x).entries, path[|path| - 1]), path[..|path| - 1]);
      PruningStarts(s, View(), root, path, kept, parents);
    }

    /** Removes the emptied mappings, from the deepest up to the kept levels. */
    method Prune(path: Path, kept: int, parents: seq<YamlNode>, ghost tree: Node)
      requires Valid() && |parents| == |path| && 0 <= kept < |path| && Open(tree, path)
      requires Pruning(tree, View(), root, path, kept, |path| - 1, parents)
      modifies nodes`content
      ensures Valid() && RemoveAt(tree, path, kept).Edited? && Value() == RemoveAt(tree, path, kept).node
    {
      hide Abs, At, WellFormed, Under, RemoveAt, Pruning, Left, Open;
      var depth := |path| - 1;
      while depth > kept
        invariant kept <= depth < |path| && Valid()
        invariant Pruning(tree, View(), root, path, kept, depth, parents)
      {
        PruningStands(tree, View(), root, path, kept, depth, parents);
        if parents[depth].kind != MappingKind || |parents[depth].content| != 0 {
          break;
        }
        PruneOne(path, kept, parents, depth, tree);
        depth := depth - 1;
      }
      PruningEnds(tree, View(), root, path, kept, depth, parents);
    }

    /** Removes one emptied mapping from its parent. */
    method PruneOne(path: Path, kept: int, parents: seq<YamlNode>, depth: int, ghost tree: Node)
      requires Valid() && |parents| == |path| && 0 <= kept < depth < |path|
      requires Pruning(tree, View(), root, path, kept, depth, parents)
      requires parents[depth] in nodes && parents[depth].content == []
      modifies nodes`content
      ensures Valid() && Pruning(tree, View(), root, path, kept, depth - 1, parents)
    {
      hide Abs, At, WellFormed, Under, Pruning, Left, Open, Lookup, PutAt;
      ghost var s := View();
      PruningStands(tree, s, root, path, kept, depth, parents);
      var parent := parents[depth - 1];
      var _, parentKeyIndex := MappingValue(parent, path[depth - 1]);
      DeleteEntry(parent, parentKeyIndex, Find(Abs(s, parent).entries, path[depth - 1]), path[..depth - 1]);
      PruningStep(tree, s, View(), root, path, kept, depth, parents);
    }

    // ---------- changes ----------

    /** One change of a field. */
    method ApplyChange(c: Change) returns (ok: bool, before: Document?, changed: bool)
      requires Valid() && root.kind == MappingKind && ValidChange(c) && (c.Set? ==> Plain(c.value))
      modifies this`nodes, this`parent, this`born, this`next, nodes`content
      ensures Valid() && root.kind == MappingKind && old(nodes) <= nodes && fresh(nodes - old(nodes))
      ensures old(Value()).Mapping?
      ensures var asked := Apply(old(Value()), c);
              if ok then Outcome(Value(), changed, before, asked) else asked.Refused? && Value() == old(Value())
    {
      hide Abs, At, WellFormed, SetAt, RemoveAt, Is, Outcome;
      match c {
        case Set(path, value, forced) => ok, before, changed := SetNodeAtPath(path, value, forced);
        case Remove(path, kept) => ok, before, changed := RemoveNodeAtPath(path, kept);
      }
    }

    /** All changes, one after the other, on a copy; at the first refusal there is no candidate. The document stays. */
    static method Preview(document: Document, changes: seq<Change>) returns (candidate: Document?)
      requires document.Valid() && document.root.kind == MappingKind && ValidChanges(changes)
      requires forall i :: 0 <= i < |changes| && changes[i].Set? ==> Plain(changes[i].value)
      ensures document.Value().Mapping?
      ensures candidate == null <==> ApplyAll(document.Value(), changes).None?
      ensures candidate != null ==>
                && fresh(candidate) && fresh(candidate.nodes) && candidate.Valid()
                && candidate.Value() == ApplyAll(document.Value(), changes).value
    {
      hide Abs, At, WellFormed, Apply, ValidChange, Plain;
      RootIsMapping(document.View(), document.root);
      ghost var tree := document.Value();
      candidate := CloneNode(document, document.root);
      MappingRoot(candidate);
      assert changes[0..] == changes;
      for i := 0 to |changes|
        invariant candidate != null && fresh(candidate) && fresh(candidate.nodes)
        invariant candidate.Valid() && candidate.root.kind == MappingKind && candidate.Value().Mapping?
        invariant ApplyAll(tree, changes) == ApplyAll(candidate.Value(), changes[i..])
      {
        assert changes[i..][0] == changes[i] && changes[i..][1..] == changes[i + 1..];
        var ok, _, _ := candidate.ApplyChange(changes[i]);
        if !ok {
          return null;
        }
        RootIsMapping(candidate.View(), candidate.root);
      }
    }
  }

  lemma MappingRoot(d: Document)
    requires d.Valid() && d.Value().Mapping?
    ensures d.root.kind == MappingKind
  {
    AbsFields(d.View(), d.root);
  }

  /** The edit that was asked for has been made. */
  ghost predicate Outcome(tree: Node, changed: bool, before: Document?, asked: Edit)
    reads before, if before == null then {} else before.nodes
  {
    asked.Edited? && tree == asked.node && changed == asked.changed && Is(before, asked.before)
  }

  lemma LastIsNew(tree: Node, p: Path, cur: Node, key: Key, value: Node, forced: bool)
    requires Lookup(tree, p).Some? && cur.Mapping? && Find(cur.entries, key) == |cur.entries|
    ensures Outcome(PutAt(tree, p, cur.(entries := cur.entries + [NewEntry(key, value)])), true, null,
                    Last(tree, p, cur, key, value, forced))
  {
    hide PutAt;
  }

  /** A document of its own for what was there. */
  ghost predicate Is(d: Document?, was: Option<Node>)
    reads d, if d == null then {} else d.nodes
  {
    if was.None? then d == null else d != null && d.Valid() && d.Value() == was.value
  }

  lemma MissedIs(tree: Node, asked: Edit)
    requires asked == Edited(tree, None, false)
    ensures Outcome(tree, false, null, asked)
  {
  }
}
