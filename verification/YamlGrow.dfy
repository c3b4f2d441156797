/** Building, copying and hanging nodes, and what the tree is afterwards. */
module YamlGrow {
  import opened ByteStrings
  import opened YamlTree
  import opened YamlStore
  import opened YamlPut

  // ---------- values ----------

  /** A scalar, or a list of such. */
  predicate Plain(value: Node) {
    value.Scalar? || (value.Sequence? && forall i :: 0 <= i < |value.items| ==> Plain(value.items[i]))
  }

  function TextOf(value: Node): Bytes { if value.Scalar? then value.text else [] }

  function KindOf(value: Node): Kind {
    if value.Scalar? then ScalarKind else if value.Sequence? then SequenceKind else MappingKind
  }

  /** How a value is presented where another one stood. */
  function LookFor(was: Look, same: bool, value: Node, forced: bool): Look {
    Look(was.head, was.line, was.foot, was.anchor,
         if forced && value.Scalar? && value.tag == STRING_TAG then
           if was.style == SingleQuotedStyle then DoubleQuotedStyle else SingleQuotedStyle
         else if same then was.style
         else value.look.style)
  }

  function WithLook(value: Node, look: Look): Node { value.(look := look) }

  lemma ReplacingIs(existing: Node, value: Node, forced: bool)
    ensures Replacing(existing, value, forced)
         == WithLook(value, LookFor(existing.look, KindOf(existing) == KindOf(value), value, forced))
    ensures forall look :: Plain(value) ==> Plain(WithLook(value, look))
  {
  }

  lemma AbsFields(s: Store, n: YamlNode)
    requires WellFormed(s) && n in s.cells
    ensures KindOf(Abs(s, n)) == s.cells[n].kind && Abs(s, n).tag == s.cells[n].tag && Abs(s, n).look == s.cells[n].look
    ensures s.cells[n].kind == ScalarKind ==> Abs(s, n).text == s.cells[n].text
    ensures s.cells[n].kind == SequenceKind ==>
              |Abs(s, n).items| == |s.cells[n].content|
              && forall i :: 0 <= i < |s.cells[n].content| ==>
                   s.cells[n].content[i] in s.cells && Abs(s, n).items[i] == Abs(s, s.cells[n].content[i])
    ensures s.cells[n].kind == MappingKind ==>
              |Abs(s, n).entries| == |s.cells[n].content| / 2 && |s.cells[n].content| % 2 == 0
              && forall i :: 0 <= i < |Abs(s, n).entries| ==> Abs(s, n).entries[i] == EntryAt(s, n, i)
  {
    assert CellOk(s, n);
    forall i | 0 <= i < |s.cells[n].content| ensures s.cells[n].content[i] in s.cells {
      assert Under(s, n, s.cells[n].content[i]);
    }
  }

  // ---------- growing ----------

  lemma KeyOfEntry(s: Store, n: YamlNode, i: nat)
    requires WellFormed(s) && n in s.cells && 2 * i + 1 < |s.cells[n].content|
    ensures s.cells[n].content[2 * i] in s.cells && EntryAt(s, n, i).key == s.cells[s.cells[n].content[2 * i]].text
  {
    assert Under(s, n, s.cells[n].content[2 * i]);
  }

  lemma ExtendsBoth(s: Store, t: Store)
    requires Extends(s, t)
    ensures WellFormed(s) && WellFormed(t)
  {
  }

  /** A node made for n that stands for a value. */
  ghost predicate Built(s: Store, n: YamlNode, c: YamlNode, value: Node) {
    WellFormed(s) && Under(s, n, c) && Abs(s, c) == value
  }

  lemma BuiltStill(s: Store, t: Store, n: YamlNode, content: seq<YamlNode>, values: seq<Node>)
    requires Extends(s, t) && |content| == |values|
    requires forall j :: 0 <= j < |content| ==> Built(s, n, content[j], values[j])
    ensures forall j :: 0 <= j < |content| ==> Built(t, n, content[j], values[j])
  {
    forall j | 0 <= j < |content| ensures Built(t, n, content[j], values[j]) {
      ExtendsAbs(s, t, content[j]);
    }
  }

  lemma SequenceBuilt(start: Store, s: Store, t: Store, under: YamlNode, n: YamlNode, content: seq<YamlNode>, value: Node)
    requires Extends(start, s) && n !in start.cells && Under(s, under, n) && Extends(s, t) && NoneTwice(content)
    requires value.Sequence? && s.cells[n] == Cell(SequenceKind, value.tag, [], value.look, [])
    requires |content| == |value.items| && forall j :: 0 <= j < |content| ==> Built(t, n, content[j], value.items[j])
    ensures n in t.cells && t.cells[n].kind == SequenceKind && forall j :: 0 <= j < |content| ==> Under(t, n, content[j])
    ensures var u := Hung(t, n, content);
            Extends(start, u) && Under(u, under, n) && Abs(u, n) == value
  {
    assert t.cells[n] == s.cells[n];
    forall j | 0 <= j < |content| ensures Under(t, n, content[j]) {
      assert Built(t, n, content[j], value.items[j]);
    }
    HungOk(t, n, content);
    var u := Hung(t, n, content);
    AbsFields(u, n);
    forall j | 0 <= j < |content| ensures Abs(u, n).items[j] == value.items[j] {
      assert Built(t, n, content[j], value.items[j]);
    }
    assert Abs(u, n).items == value.items;
  }

  lemma WellFormedItself(s: Store)
    requires WellFormed(s)
    ensures Extends(s, s)
  {
  }

  /** Nodes that have been made since. */
  ghost function Rest(s: Store, n: YamlNode): nat
    requires WellFormed(s) && n in s.cells
  {
    assert CellOk(s, n);
    s.next - s.born[n]
  }

  lemma ChildLater(s: Store, n: YamlNode, i: nat)
    requires WellFormed(s) && n in s.cells && i < |s.cells[n].content|
    ensures var c := s.cells[n].content[i];
            c in s.cells && Rest(s, c) < Rest(s, n)
  {
    assert CellOk(s, n);
    assert Under(s, n, s.cells[n].content[i]);
  }

  /** A node made for c that is what m of the other document is. */
  ghost predicate Copied(t: Store, o: Store, c: YamlNode, x: YamlNode, m: YamlNode) {
    && WellFormed(t) && WellFormed(o) && Under(t, c, x) && m in o.cells && Abs(t, x) == Abs(o, m)
    && t.cells[x].text == o.cells[m].text && t.cells[x].look == o.cells[m].look
  }

  /** A new node whose content has been copied. */
  lemma CopyMade(s: Store, t: Store, u: Store, o: Store, c: YamlNode, x: YamlNode, m: YamlNode)
    requires Extends(s, t) && x !in s.cells && Under(t, c, x) && ExtendsBut(t, u, x)
    requires WellFormed(o) && m in o.cells && Abs(u, x) == Abs(o, m)
    requires t.cells[x].text == o.cells[m].text && t.cells[x].look == o.cells[m].look
    ensures Extends(s, u) && Copied(u, o, c, x, m)
  {
  }

  lemma CopiedStill(s: Store, t: Store, o: Store, c: YamlNode, content: seq<YamlNode>, from: seq<YamlNode>)
    requires Extends(s, t) && |content| == |from|
    requires forall j :: 0 <= j < |content| ==> Copied(s, o, c, content[j], from[j])
    ensures forall j :: 0 <= j < |content| ==> Copied(t, o, c, content[j], from[j])
  {
    forall j | 0 <= j < |content| ensures Copied(t, o, c, content[j], from[j]) {
      assert Copied(s, o, c, content[j], from[j]);
      ExtendsAbs(s, t, content[j]);
    }
  }

  lemma ContentCopied(s: Store, t: Store, o: Store, n: YamlNode, c: YamlNode, content: seq<YamlNode>)
    requires Extends(s, t) && WellFormed(o) && n in o.cells && c in s.cells && NoneTwice(content)
    requires s.cells[c] == o.cells[n].(content := []) && |content| == |o.cells[n].content|
    requires forall j :: 0 <= j < |content| ==> Copied(t, o, c, content[j], o.cells[n].content[j])
    ensures c in t.cells && forall j :: 0 <= j < |content| ==> Under(t, c, content[j])
    ensures t.cells[c].kind == MappingKind ==> |content| % 2 == 0
    ensures var u := Hung(t, c, content); ExtendsBut(s, u, c) && Abs(u, c) == Abs(o, n)
  {
    assert t.cells[c] == s.cells[c] && CellOk(o, n);
    forall j | 0 <= j < |content| ensures Under(t, c, content[j]) {
      assert Copied(t, o, c, content[j], o.cells[n].content[j]);
    }
    HungOk(t, c, content);
    var u := Hung(t, c, content);
    forall j | 0 <= j < |content| ensures Copied(u, o, c, content[j], o.cells[n].content[j]) {
      assert Copied(t, o, c, content[j], o.cells[n].content[j]);
    }
    AlikeContent(u, o, c, n);
  }

  lemma AlikeContent(u: Store, o: Store, c: YamlNode, n: YamlNode)
    requires WellFormed(u) && WellFormed(o) && c in u.cells && n in o.cells
    requires u.cells[c].(content := []) == o.cells[n].(content := []) && |u.cells[c].content| == |o.cells[n].content|
    requires forall j :: 0 <= j < |o.cells[n].content| ==> Copied(u, o, c, u.cells[c].content[j], o.cells[n].content[j])
    ensures Abs(u, c) == Abs(o, n)
  {
    AbsFields(u, c);
    AbsFields(o, n);
    if o.cells[n].kind == SequenceKind {
      forall j | 0 <= j < |o.cells[n].content| ensures Abs(u, c).items[j] == Abs(o, n).items[j] {
        assert Copied(u, o, c, u.cells[c].content[j], o.cells[n].content[j]);
      }
      assert Abs(u, c).items == Abs(o, n).items;
    } else if o.cells[n].kind == MappingKind {
      forall i | 0 <= i < |Abs(o, n).entries| ensures Abs(u, c).entries[i] == Abs(o, n).entries[i] {
        assert Copied(u, o, c, u.cells[c].content[2 * i], o.cells[n].content[2 * i]);
        assert Copied(u, o, c, u.cells[c].content[2 * i + 1], o.cells[n].content[2 * i + 1]);
      }
      assert Abs(u, c).entries == Abs(o, n).entries;
    }
  }

  lemma ExtendsTwice(s: Store, t: Store, u: Store)
    requires Extends(s, t) && Extends(t, u)
    ensures Extends(s, u)
  {
  }

  lemma ExtendsItself(s: Store, t: Store)
    requires Extends(s, t)
    ensures Extends(t, t)
  {
  }

  lemma NoneTwiceEmpty()
    ensures NoneTwice([])
  {
  }

  lemma NoneTwiceMore(content: seq<YamlNode>, c: YamlNode)
    requires NoneTwice(content) && c !in content
    ensures NoneTwice(content + [c])
  {
  }

  lemma InStore(s: Store, n: YamlNode, c: YamlNode)
    requires Under(s, n, c)
    ensures n in s.cells && c in s.cells
  {
  }

  // ---------- what the changes of entries do to the tree ----------

  lemma ShorterMeans(content: seq<YamlNode>, i: nat)
    requires 2 * i + 1 < |content|
    ensures Shorter(content, i) == content[..2 * i] + content[2 * i + 2..]
  {
  }

  lemma EntryAdded(s: Store, t: Store, root: YamlNode, p: Path, x: YamlNode, k: YamlNode, v: YamlNode, key: Key)
    requires Extends(s, t) && root in s.cells && x in s.cells && At(s, root, p) == Some(x) && s.cells[x].kind == MappingKind
    requires k !in s.cells && k in t.cells && Under(t, x, k) && t.cells[k].text == key && t.cells[k].look == NO_LOOK
    requires Under(s, x, v) && v !in s.cells[x].content && Find(Abs(s, x).entries, key) == |Abs(s, x).entries|
    ensures Lookup(Abs(s, root), p) == Some(Abs(s, x))
    ensures x in t.cells && t.cells[x] == s.cells[x]
    ensures var content := t.cells[x].content + [k, v];
            && NoneTwice(content) && (forall i :: 0 <= i < |content| ==> Under(t, x, content[i])) && |content| % 2 == 0
            && var u, cur := Hung(t, x, content), Abs(s, x);
               && WellFormed(u) && root in u.cells && v in u.cells && At(u, root, p) == Some(x) && u.cells[x].kind == MappingKind
               && Abs(u, root) == PutAt(Abs(s, root), p, cur.(entries := cur.entries + [NewEntry(key, Abs(s, v))]))
               && Abs(u, v) == Abs(s, v) && At(u, root, p + [key]) == Some(v)
  {
    hide Abs, At, Below;
    var content := t.cells[x].content + [k, v];
    EntryHangs(s, t, x, k, v);
    var u := Hung(t, x, content);
    AppendedEntry(t, x, k, v);
    ExtendsAbs(s, t, x);
    ExtendsAbs(s, t, v);
    var cur := Abs(s, x);
    MappingIs(t, x);
    WayGrown(s, t, root, p, x);
    ChangedAt(t, u, root, p, x);
    ChildUntouched(t, u, x, v);
    AtLookup(s, root, p);
    FindAppended(cur.entries, NewEntry(key, Abs(s, v)), key);
    MappingIs(u, x);
    AtStep(u, root, p, x, key);
    ExtendsAbs(s, t, root);
  }

  lemma EntryHangs(s: Store, t: Store, x: YamlNode, k: YamlNode, v: YamlNode)
    requires Extends(s, t) && x in s.cells && s.cells[x].kind == MappingKind
    requires k !in s.cells && Under(t, x, k) && Under(s, x, v) && v !in s.cells[x].content
    ensures x in t.cells && t.cells[x] == s.cells[x] && Under(t, x, v)
    ensures k !in t.cells[x].content && k != v
    ensures var content := t.cells[x].content + [k, v];
            NoneTwice(content) && (forall i :: 0 <= i < |content| ==> Under(t, x, content[i])) && |content| % 2 == 0
  {
    assert CellOk(s, x) && CellOk(t, x);
    forall i | 0 <= i < |s.cells[x].content| ensures s.cells[x].content[i] in s.cells {
      assert Under(s, x, s.cells[x].content[i]);
    }
  }

  lemma ChildUntouched(s: Store, t: Store, x: YamlNode, c: YamlNode)
    requires Changes(s, t, x) && Under(s, x, c)
    ensures c in t.cells && Abs(t, c) == Abs(s, c)
  {
    if Below(s, c, x) {
      BelowLater(s, c, x);
    }
    Untouched(s, t, x, c);
  }

  /** The same way leads to the same node in a store that has grown. */
  lemma {:induction false} WayGrown(s: Store, t: Store, n: YamlNode, p: Path, x: YamlNode)
    requires Extends(s, t) && n in s.cells && At(s, n, p) == Some(x)
    ensures n in t.cells && At(t, n, p) == Some(x)
    decreases |p|
  {
    ExtendsAbs(s, t, n);
    if p != [] {
      var i := Find(Abs(s, n).entries, p[0]);
      assert Under(s, n, s.cells[n].content[2 * i + 1]);
      WayGrown(s, t, ValueAt(s.cells[n].content, i), p[1..], x);
    }
  }

  lemma EntryDeleted(s: Store, root: YamlNode, p: Path, x: YamlNode, i: nat)
    requires WellFormed(s) && root in s.cells && x in s.cells && At(s, root, p) == Some(x) && s.cells[x].kind == MappingKind
    requires 2 * i + 1 < |s.cells[x].content|
    ensures Lookup(Abs(s, root), p) == Some(Abs(s, x)) && Abs(s, x).Mapping? && i < |Abs(s, x).entries|
    ensures var content := Shorter(s.cells[x].content, i);
            && NoneTwice(content) && (forall j :: 0 <= j < |content| ==> Under(s, x, content[j])) && |content| % 2 == 0
            && var t := Hung(s, x, content);
               && Changes(s, t, x) && root in t.cells && At(t, root, p) == Some(x)
               && Abs(t, root) == PutAt(Abs(s, root), p, Without(Abs(s, x), i))
  {
    hide Abs, At, Below;
    ShorterIs(s.cells[x].content, i);
    assert CellOk(s, x);
    DeletedEntry(s, x, i);
    ChangedAt(s, Hung(s, x, Shorter(s.cells[x].content, i)), root, p, x);
    AtLookup(s, root, p);
    MappingIs(s, x);
  }

  lemma EntryReplaced(s: Store, root: YamlNode, p: Path, x: YamlNode, i: nat, v: YamlNode)
    requires WellFormed(s) && root in s.cells && x in s.cells && At(s, root, p) == Some(x) && s.cells[x].kind == MappingKind
    requires 2 * i + 1 < |s.cells[x].content| && Under(s, x, v) && v !in s.cells[x].content
    ensures Lookup(Abs(s, root), p) == Some(Abs(s, x)) && Abs(s, x).Mapping? && i < |Abs(s, x).entries|
    ensures var content := s.cells[x].content[2 * i + 1 := v];
            && NoneTwice(content) && (forall j :: 0 <= j < |content| ==> Under(s, x, content[j])) && |content| % 2 == 0
            && var t := Hung(s, x, content);
               && Changes(s, t, x) && root in t.cells && At(t, root, p) == Some(x)
               && Abs(t, root) == PutAt(Abs(s, root), p, WithValue(Abs(s, x), i, Abs(s, v)))
  {
    hide Abs, At, Below;
    assert CellOk(s, x);
    ReplacedEntry(s, x, i, v);
    ChangedAt(s, Hung(s, x, s.cells[x].content[2 * i + 1 := v]), root, p, x);
    AtLookup(s, root, p);
    MappingIs(s, x);
  }

  /** A store that has grown, seen from a node on the way. */
  lemma Grown(s: Store, t: Store, root: YamlNode, p: Path, x: YamlNode)
    requires Extends(s, t) && root in s.cells && x in s.cells && At(s, root, p) == Some(x)
    ensures root in t.cells && x in t.cells && t.cells[x] == s.cells[x] && At(t, root, p) == Some(x)
    ensures Abs(t, root) == Abs(s, root) && Abs(t, x) == Abs(s, x)
    ensures forall c :: c in s.cells[x].content ==> c in s.cells
  {
    WayGrown(s, t, root, p, x);
    ExtendsAbs(s, t, root);
    ExtendsAbs(s, t, x);
    forall c | c in s.cells[x].content ensures c in s.cells {
      var i :| 0 <= i < |s.cells[x].content| && s.cells[x].content[i] == c;
      ContentUnder(s, x, i);
    }
  }

  lemma EmptyIs(s: Store, n: YamlNode)
    requires WellFormed(s) && n in s.cells && s.cells[n] == Cell(MappingKind, MAPPING_TAG, [], NO_LOOK, [])
    ensures Abs(s, n) == EMPTY_MAPPING
  {
    assert Abs(s, n).entries == [];
  }
}
