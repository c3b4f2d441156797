/** Nodes as the program links them, and the tree that they stand for. */
module YamlStore {
  import opened ByteStrings
  import opened YamlTree

  datatype Kind = ScalarKind | SequenceKind | MappingKind

  /** A node; the content of a mapping is its keys and values in turn. */
  class YamlNode {
    var kind: Kind
    var tag: Bytes
    var text: Bytes
    var look: Look
    var content: seq<YamlNode>

    constructor (kind: Kind, tag: Bytes, text: Bytes, look: Look)
      ensures this.kind == kind && this.tag == tag && this.text == text && this.look == look && content == []
    {
      this.kind, this.tag, this.text, this.look, content := kind, tag, text, look, [];
    }
  }

  /** What the fields of a node hold. */
  datatype Cell = Cell(kind: Kind, tag: Bytes, text: Bytes, look: Look, content: seq<YamlNode>)

  /** All nodes of a document: what each holds, the node it was made for, and when it was made. */
  datatype Store = Store(cells: map<YamlNode, Cell>, parent: map<YamlNode, YamlNode>, born: map<YamlNode, nat>, next: nat)

  // ---------- well-formed stores ----------

  /** c was made for n, later than n. */
  ghost predicate Under(s: Store, n: YamlNode, c: YamlNode) {
    && n in s.cells && c in s.cells && n in s.born && c in s.born && s.born[n] < s.born[c] < s.next
    && c in s.parent && s.parent[c] == n
  }

  ghost predicate NoneTwice(content: seq<YamlNode>) {
    forall i, j :: 0 <= i < j < |content| ==> content[i] != content[j]
  }

  ghost predicate CellOk(s: Store, n: YamlNode)
    requires n in s.cells
  {
    var x := s.cells[n];
    && n in s.born && s.born[n] < s.next
    && (forall i :: 0 <= i < |x.content| ==> Under(s, n, x.content[i]))
    && NoneTwice(x.content)
    && (x.kind == MappingKind ==> |x.content| % 2 == 0)
  }

  /** The nodes form trees: each hangs, if at all, in one place below an older node. */
  ghost predicate WellFormed(s: Store) {
    && (forall n :: n in s.cells ==> CellOk(s, n))
    && (forall c :: c in s.parent && c in s.cells ==> Under(s, s.parent[c], c))
  }

  // ---------- what a node stands for ----------

  function KeyAt(content: seq<YamlNode>, i: nat): YamlNode
    requires 2 * i < |content|
  {
    content[2 * i]
  }

  function ValueAt(content: seq<YamlNode>, i: nat): YamlNode
    requires 2 * i + 1 < |content|
  {
    content[2 * i + 1]
  }

  /** Entry i of a mapping. */
  ghost function EntryAt(s: Store, n: YamlNode, i: nat): Entry
    requires WellFormed(s) && n in s.cells && 2 * i + 1 < |s.cells[n].content|
    decreases s.next - s.born[n], 0
  {
    var content := s.cells[n].content;
    assert Under(s, n, content[2 * i]) && Under(s, n, content[2 * i + 1]);
    var key := s.cells[KeyAt(content, i)];
    Entry(key.text, key.look, Abs(s, ValueAt(content, i)))
  }

  ghost function Abs(s: Store, n: YamlNode): Node
    requires WellFormed(s) && n in s.cells
    decreases s.next - s.born[n], 1
  {
    var x := s.cells[n];
    match x.kind
    case ScalarKind => Scalar(x.tag, x.text, x.look)
    case SequenceKind =>
      Sequence(x.tag, seq(|x.content|, i requires 0 <= i < |x.content| =>
        assert Under(s, n, x.content[i]); Abs(s, x.content[i])), x.look)
    case MappingKind =>
      Mapping(x.tag, seq(|x.content| / 2, i requires 0 <= i < |x.content| / 2 => EntryAt(s, n, i)), x.look)
  }

  /** The node that a path leads to. */
  ghost function At(s: Store, n: YamlNode, p: Path): Option<YamlNode>
    requires WellFormed(s) && n in s.cells
    decreases |p|
  {
    if p == [] then Some(n)
    else if s.cells[n].kind != MappingKind then None
    else
      var i := Find(Abs(s, n).entries, p[0]);
      if i == |Abs(s, n).entries| then None
      else
        assert Under(s, n, s.cells[n].content[2 * i + 1]);
        At(s, ValueAt(s.cells[n].content, i), p[1..])
  }

  lemma {:induction false} AtLookup(s: Store, n: YamlNode, p: Path)
    requires WellFormed(s) && n in s.cells
    ensures At(s, n, p).Some? ==> At(s, n, p).value in s.cells
    ensures Lookup(Abs(s, n), p) == if At(s, n, p).None? then None else Some(Abs(s, At(s, n, p).value))
    decreases |p|
  {
    if p != [] && s.cells[n].kind == MappingKind {
      var i := Find(Abs(s, n).entries, p[0]);
      if i < |Abs(s, n).entries| {
        assert Under(s, n, s.cells[n].content[2 * i + 1]);
        assert Abs(s, n).entries[i] == EntryAt(s, n, i);
        AtLookup(s, ValueAt(s.cells[n].content, i), p[1..]);
      }
    }
  }

  /** One more step of the way. */
  lemma {:induction false} AtStep(s: Store, n: YamlNode, p: Path, x: YamlNode, key: Key)
    requires WellFormed(s) && n in s.cells && At(s, n, p) == Some(x) && x in s.cells && s.cells[x].kind == MappingKind
    requires Find(Abs(s, x).entries, key) < |Abs(s, x).entries|
    ensures At(s, n, p + [key]) == Some(ValueAt(s.cells[x].content, Find(Abs(s, x).entries, key)))
    decreases |p|
  {
    if p == [] {
      assert p + [key] == [key];
      var c := ValueAt(s.cells[x].content, Find(Abs(s, x).entries, key));
      assert At(s, c, [key][1..]) == Some(c);
    } else {
      var i := Find(Abs(s, n).entries, p[0]);
      assert Under(s, n, s.cells[n].content[2 * i + 1]);
      assert (p + [key])[1..] == p[1..] + [key];
      AtStep(s, ValueAt(s.cells[n].content, i), p[1..], x, key);
    }
  }

  // ---------- what hangs below a node ----------

  ghost predicate Below(s: Store, r: YamlNode, x: YamlNode)
    requires WellFormed(s) && x in s.cells
    decreases s.born[x]
  {
    x == r || (x in s.parent && (assert Under(s, s.parent[x], x); Below(s, r, s.parent[x])))
  }

  lemma {:induction false} BelowLater(s: Store, r: YamlNode, x: YamlNode)
    requires WellFormed(s) && r in s.cells && x in s.cells && Below(s, r, x)
    ensures x == r || s.born[r] < s.born[x]
    decreases s.born[x]
  {
    if x != r {
      assert Under(s, s.parent[x], x);
      BelowLater(s, r, s.parent[x]);
    }
  }

  /** What hangs below a child hangs below its parent. */
  lemma {:induction false} BelowParent(s: Store, r: YamlNode, c: YamlNode, x: YamlNode)
    requires WellFormed(s) && Under(s, r, c) && x in s.cells && Below(s, c, x)
    ensures Below(s, r, x)
    decreases s.born[x]
  {
    if x != c {
      assert Under(s, s.parent[x], x);
      BelowParent(s, r, c, s.parent[x]);
    }
  }

  /** Nothing hangs below two children of one node. */
  lemma {:induction false} SiblingsApart(s: Store, n: YamlNode, c: YamlNode, d: YamlNode, x: YamlNode)
    requires WellFormed(s) && Under(s, n, c) && Under(s, n, d) && c != d && x in s.cells && Below(s, c, x)
    ensures !Below(s, d, x)
    decreases s.born[x]
  {
    if Below(s, d, x) {
      if x == c || x == d {
        assert Below(s, if x == c then d else c, n);
        BelowLater(s, if x == c then d else c, n);
      } else {
        assert Under(s, s.parent[x], x);
        SiblingsApart(s, n, c, d, s.parent[x]);
      }
    }
  }

  lemma {:induction false} AtBelow(s: Store, n: YamlNode, p: Path)
    requires WellFormed(s) && n in s.cells && At(s, n, p).Some?
    ensures At(s, n, p).value in s.cells && Below(s, n, At(s, n, p).value)
    decreases |p|
  {
    if p != [] {
      var i := Find(Abs(s, n).entries, p[0]);
      var c := ValueAt(s.cells[n].content, i);
      assert Under(s, n, s.cells[n].content[2 * i + 1]);
      AtBelow(s, c, p[1..]);
      BelowParent(s, n, c, At(s, n, p).value);
    }
  }

  // ---------- changing the store ----------

  /** All that hangs below r in s is the same in t. */
  ghost predicate SameBelow(s: Store, t: Store, r: YamlNode)
    requires WellFormed(s)
  {
    forall y :: y in s.cells && Below(s, r, y) ==> y in t.cells && t.cells[y] == s.cells[y]
  }

  lemma SameBelowChild(s: Store, t: Store, r: YamlNode, c: YamlNode)
    requires WellFormed(s) && SameBelow(s, t, r) && Under(s, r, c)
    ensures SameBelow(s, t, c)
  {
    forall y | y in s.cells && Below(s, c, y) ensures y in t.cells && t.cells[y] == s.cells[y] {
      BelowParent(s, r, c, y);
    }
  }

  lemma {:induction false} AbsFrame(s: Store, t: Store, r: YamlNode)
    requires WellFormed(s) && WellFormed(t) && r in s.cells && r in t.cells && SameBelow(s, t, r)
    ensures Abs(t, r) == Abs(s, r)
    decreases s.next - s.born[r]
  {
    var x := s.cells[r];
    assert Below(s, r, r);
    assert t.cells[r] == x;
    forall i | 0 <= i < |x.content|
      ensures x.content[i] in t.cells && Abs(t, x.content[i]) == Abs(s, x.content[i])
      ensures t.cells[x.content[i]] == s.cells[x.content[i]]
    {
      assert Under(s, r, x.content[i]);
      SameBelowChild(s, t, r, x.content[i]);
      assert Below(s, x.content[i], x.content[i]);
      AbsFrame(s, t, x.content[i]);
    }
    SameAbs(s, t, r);
  }

  /** A node stands for the same when it holds the same and all in its content stands for the same. */
  lemma SameAbs(s: Store, t: Store, r: YamlNode)
    requires WellFormed(s) && WellFormed(t) && r in s.cells && r in t.cells && t.cells[r] == s.cells[r]
    requires forall i :: 0 <= i < |s.cells[r].content| ==>
               var c := s.cells[r].content[i];
               && c in s.cells && c in t.cells && Abs(t, c) == Abs(s, c)
               && t.cells[c].text == s.cells[c].text && t.cells[c].look == s.cells[c].look
    ensures Abs(t, r) == Abs(s, r)
  {
    var x := s.cells[r];
    if x.kind == MappingKind {
      forall i | 0 <= i < |x.content| / 2 ensures EntryAt(t, r, i) == EntryAt(s, r, i) {
        assert x.content[2 * i] in t.cells && x.content[2 * i + 1] in t.cells;
      }
      assert Abs(t, r).entries == Abs(s, r).entries;
    } else if x.kind == SequenceKind {
      assert Abs(t, r).items == Abs(s, r).items;
    }
  }

  /** The tree with another one put where a path leads. */
  function PutAt(node: Node, p: Path, sub: Node): Node
    requires Lookup(node, p).Some?
    decreases |p|
  {
    if p == [] then sub
    else
      var i := Find(node.entries, p[0]);
      WithValue(node, i, PutAt(node.entries[i].value, p[1..], sub))
  }

  /** t differs from s at x alone, and by nodes that s does not have. */
  ghost predicate Changes(s: Store, t: Store, x: YamlNode) {
    && WellFormed(s) && WellFormed(t) && x in s.cells && x in t.cells
    && forall y :: y in s.cells && y != x ==> y in t.cells && t.cells[y] == s.cells[y]
  }

  lemma Untouched(s: Store, t: Store, x: YamlNode, d: YamlNode)
    requires Changes(s, t, x) && d in s.cells && !Below(s, d, x)
    ensures d in t.cells && t.cells[d] == s.cells[d] && Abs(t, d) == Abs(s, d)
  {
    assert Below(s, d, d);
    AbsFrame(s, t, d);
  }

  /** A change where a path leads is a change of the tree at that path. */
  lemma {:induction false} ChangedAt(s: Store, t: Store, n: YamlNode, p: Path, x: YamlNode)
    requires Changes(s, t, x) && n in s.cells && At(s, n, p) == Some(x)
    ensures n in t.cells && Lookup(Abs(s, n), p).Some?
    ensures Abs(t, n) == PutAt(Abs(s, n), p, Abs(t, x))
    ensures At(t, n, p) == Some(x)
    decreases |p|
  {
    AtLookup(s, n, p);
    if p != [] {
      var content := s.cells[n].content;
      var i := Find(Abs(s, n).entries, p[0]);
      var c := ValueAt(content, i);
      assert Under(s, n, content[2 * i + 1]);
      assert Abs(s, n).entries[i] == EntryAt(s, n, i);
      ChangedAt(s, t, c, p[1..], x);
      AtBelow(s, c, p[1..]);
      BelowLater(s, c, x);
      assert n != x;
      ChangedEntries(s, t, n, i, x);
    }
  }

  /** No node on the way there is another one afterwards. */
  lemma {:induction false} WalkStays(s: Store, t: Store, n: YamlNode, p: Path, x: YamlNode, q: Path)
    requires Changes(s, t, x) && n in s.cells && At(s, n, p) == Some(x) && q <= p
    ensures n in t.cells && At(t, n, q) == At(s, n, q)
    decreases |p|
  {
    ChangedAt(s, t, n, p, x);
    if q != [] {
      var i := Find(Abs(s, n).entries, p[0]);
      var c := ValueAt(s.cells[n].content, i);
      assert Under(s, n, s.cells[n].content[2 * i + 1]);
      AtBelow(s, c, p[1..]);
      BelowLater(s, c, x);
      assert n != x;
      ChangedEntries(s, t, n, i, x);
      assert q[1..] <= p[1..];
      WalkStays(s, t, c, p[1..], x, q[1..]);
    }
  }

  lemma ChangedEntries(s: Store, t: Store, n: YamlNode, i: nat, x: YamlNode)
    requires Changes(s, t, x) && n in s.cells && n != x && s.cells[n].kind == MappingKind && i < |Abs(s, n).entries|
    requires Below(s, ValueAt(s.cells[n].content, i), x)
    ensures Abs(t, n) == WithValue(Abs(s, n), i, Abs(t, ValueAt(s.cells[n].content, i)))
    ensures forall key :: Find(Abs(t, n).entries, key) == Find(Abs(s, n).entries, key)
  {
    var content := s.cells[n].content;
    var c := ValueAt(content, i);
    assert Under(s, n, content[2 * i + 1]) && Under(t, n, content[2 * i + 1]);
    forall k | 0 <= k < |content| && k != 2 * i + 1
      ensures content[k] in t.cells && t.cells[content[k]] == s.cells[content[k]] && Abs(t, content[k]) == Abs(s, content[k])
    {
      assert Under(s, n, content[k]) && content[k] != c;
      SiblingsApart(s, n, c, content[k], x);
      Untouched(s, t, x, content[k]);
    }
    var was, is_ := Abs(s, n), Abs(t, n);
    forall j | 0 <= j < |was.entries| ensures is_.entries[j] == if j == i then was.entries[j].(value := Abs(t, c)) else was.entries[j] {
      assert was.entries[j] == EntryAt(s, n, j) && is_.entries[j] == EntryAt(t, n, j);
      assert content[2 * j] in t.cells && t.cells[content[2 * j]] == s.cells[content[2 * j]];
      if j != i {
        assert Abs(t, content[2 * j + 1]) == Abs(s, content[2 * j + 1]);
      }
    }
    assert is_.entries == WithValue(was, i, Abs(t, c)).entries;
    forall key ensures Find(is_.entries, key) == Find(was.entries, key) {
      FindWithValue(was, i, Abs(t, c), key);
    }
  }

  // ---------- the changes that edits are made of ----------

  function Added(s: Store, n: YamlNode, x: Cell, under: YamlNode): Store {
    Store(s.cells[n := x], s.parent[n := under], s.born[n := s.next], s.next + 1)
  }

  /** A new node, hung nowhere yet. */
  lemma AddedOk(s: Store, n: YamlNode, x: Cell, under: YamlNode)
    requires WellFormed(s) && under in s.cells && n !in s.cells && x.content == []
    ensures var t := Added(s, n, x, under);
            && WellFormed(t) && Under(t, under, n)
            && (forall a, c :: a in s.cells && c in s.cells && Under(s, a, c) ==> Under(t, a, c))
            && (forall d :: d in s.cells ==> Abs(t, d) == Abs(s, d))
  {
    var t := Added(s, n, x, under);
    forall a, c | a in s.cells && Under(s, a, c) ensures Under(t, a, c) {
    }
    forall a | a in t.cells ensures CellOk(t, a) {
      if a != n {
        assert CellOk(s, a);
      }
    }
    assert WellFormed(t);
    forall d | d in s.cells ensures Abs(t, d) == Abs(s, d) {
      AbsFrame(s, t, d);
    }
  }

  function Hung(s: Store, x: YamlNode, content: seq<YamlNode>): Store
    requires x in s.cells
  {
    s.(cells := s.cells[x := s.cells[x].(content := content)])
  }

  /** Nodes made for x are hung below it. */
  lemma HungOk(s: Store, x: YamlNode, content: seq<YamlNode>)
    requires WellFormed(s) && x in s.cells && NoneTwice(content)
    requires forall i :: 0 <= i < |content| ==> Under(s, x, content[i])
    requires s.cells[x].kind == MappingKind ==> |content| % 2 == 0
    ensures var t := Hung(s, x, content);
            && Changes(s, t, x)
            && (forall a, c :: a in s.cells && c in s.cells && Under(s, a, c) ==> Under(t, a, c))
            && (forall c :: Under(s, x, c) ==> t.cells[c] == s.cells[c] && Abs(t, c) == Abs(s, c))
  {
    var t := Hung(s, x, content);
    forall a, c | a in s.cells && Under(s, a, c) ensures Under(t, a, c) {
    }
    forall a | a in t.cells ensures CellOk(t, a) {
      assert CellOk(s, a);
    }
    assert WellFormed(t);
    forall c | Under(s, x, c) ensures t.cells[c] == s.cells[c] && Abs(t, c) == Abs(s, c) {
      if Below(s, c, x) {
        BelowLater(s, c, x);
      }
      Untouched(s, t, x, c);
    }
  }

  /** The entries of a mapping whose content is given, as far as its nodes stand for the same. */
  lemma EntryOf(s: Store, t: Store, x: YamlNode, i: nat, j: nat)
    requires WellFormed(s) && WellFormed(t) && x in s.cells && x in t.cells
    requires s.cells[x].kind == MappingKind == t.cells[x].kind
    requires 2 * i + 1 < |s.cells[x].content| && 2 * j + 1 < |t.cells[x].content|
    requires s.cells[x].content[2 * i] == t.cells[x].content[2 * j]
    requires s.cells[x].content[2 * i + 1] == t.cells[x].content[2 * j + 1]
    requires var k, v := s.cells[x].content[2 * i], s.cells[x].content[2 * i + 1];
             k in s.cells && v in s.cells && k in t.cells && v in t.cells && t.cells[k] == s.cells[k] && Abs(t, v) == Abs(s, v)
    ensures i < |Abs(s, x).entries| && j < |Abs(t, x).entries| && Abs(t, x).entries[j] == Abs(s, x).entries[i]
  {
    assert Abs(s, x).entries[i] == EntryAt(s, x, i);
    assert Abs(t, x).entries[j] == EntryAt(t, x, j);
  }

  /** One more entry. */
  lemma AppendedEntry(s: Store, x: YamlNode, k: YamlNode, v: YamlNode)
    requires WellFormed(s) && x in s.cells && s.cells[x].kind == MappingKind && Under(s, x, k) && Under(s, x, v)
    requires k !in s.cells[x].content && v !in s.cells[x].content && k != v
    ensures var t := Hung(s, x, s.cells[x].content + [k, v]);
            && Changes(s, t, x)
            && Abs(t, x) == Abs(s, x).(entries := Abs(s, x).entries + [Entry(s.cells[k].text, s.cells[k].look, Abs(s, v))])
  {
    var content := s.cells[x].content;
    var more := content + [k, v];
    assert CellOk(s, x);
    forall i | 0 <= i < |more| ensures Under(s, x, more[i]) {
      assert i < |content| ==> more[i] == content[i];
    }
    HungOk(s, x, more);
    var t := Hung(s, x, more);
    var n := |content| / 2;
    forall i | 0 <= i < n ensures Abs(t, x).entries[i] == Abs(s, x).entries[i] {
      assert Under(s, x, content[2 * i]) && Under(s, x, content[2 * i + 1]);
      EntryOf(s, t, x, i, i);
    }
    assert Abs(t, x).entries[n] == EntryAt(t, x, n);
    assert more[2 * n] == k && more[2 * n + 1] == v;
  }

  function Shorter(content: seq<YamlNode>, i: nat): seq<YamlNode>
    requires 2 * i + 1 < |content|
  {
    content[..2 * i] + content[2 * i + 2..]
  }

  lemma ShorterIs(content: seq<YamlNode>, i: nat)
    requires 2 * i + 1 < |content|
    ensures var less := Shorter(content, i);
            && |less| == |content| - 2
            && (forall j :: 0 <= j < |less| ==> less[j] == content[if j < 2 * i then j else j + 2])
            && (NoneTwice(content) ==> NoneTwice(less))
  {
  }

  lemma ShorterHangs(s: Store, x: YamlNode, i: nat)
    requires WellFormed(s) && x in s.cells && s.cells[x].kind == MappingKind && 2 * i + 1 < |s.cells[x].content|
    ensures var t := Hung(s, x, Shorter(s.cells[x].content, i));
            && Changes(s, t, x)
            && (forall c :: Under(s, x, c) ==> t.cells[c] == s.cells[c] && Abs(t, c) == Abs(s, c))
  {
    ShorterIs(s.cells[x].content, i);
    assert CellOk(s, x);
    HungOk(s, x, Shorter(s.cells[x].content, i));
  }

  lemma MappingIs(s: Store, x: YamlNode)
    requires WellFormed(s) && x in s.cells && s.cells[x].kind == MappingKind
    ensures Abs(s, x).Mapping? && Abs(s, x).tag == s.cells[x].tag && Abs(s, x).look == s.cells[x].look
    ensures |Abs(s, x).entries| == |s.cells[x].content| / 2 && |s.cells[x].content| % 2 == 0
  {
    assert CellOk(s, x);
  }

  lemma ShorterEntry(s: Store, x: YamlNode, i: nat, j: nat)
    requires WellFormed(s) && x in s.cells && s.cells[x].kind == MappingKind && 2 * i + 1 < |s.cells[x].content|
    requires 2 * j + 3 < |s.cells[x].content|
    ensures var t, k := Hung(s, x, Shorter(s.cells[x].content, i)), if j < i then j else j + 1;
            && WellFormed(t) && k < |Abs(s, x).entries| && j < |Abs(t, x).entries|
            && Abs(t, x).entries[j] == Abs(s, x).entries[k]
  {
    hide Abs, Below, Shorter, WellFormed, Changes, CellOk, NoneTwice;
    var content := s.cells[x].content;
    ShorterIs(content, i);
    ShorterHangs(s, x, i);
    var t, k := Hung(s, x, Shorter(content, i)), if j < i then j else j + 1;
    WellFormedBoth(s, t, x);
    ContentUnder(s, x, 2 * k);
    ContentUnder(s, x, 2 * k + 1);
    EntryOf(s, t, x, k, j);
  }

  /** One entry less. */
  lemma DeletedEntry(s: Store, x: YamlNode, i: nat)
    requires WellFormed(s) && x in s.cells && s.cells[x].kind == MappingKind && 2 * i + 1 < |s.cells[x].content|
    ensures var t := Hung(s, x, Shorter(s.cells[x].content, i));
            && Changes(s, t, x) && i < |Abs(s, x).entries| && Abs(t, x) == Without(Abs(s, x), i)
  {
    hide Abs, Below, Shorter, WellFormed, Changes;
    ShorterIs(s.cells[x].content, i);
    ShorterHangs(s, x, i);
    var t := Hung(s, x, Shorter(s.cells[x].content, i));
    WellFormedBoth(s, t, x);
    MappingIs(s, x);
    MappingIs(t, x);
    var rest := Without(Abs(s, x), i).entries;
    forall j | 0 <= j < |rest| ensures Abs(t, x).entries[j] == rest[j] {
      ShorterEntry(s, x, i, j);
    }
    assert Abs(t, x).entries == rest;
  }

  lemma ContentUnder(s: Store, x: YamlNode, i: nat)
    requires WellFormed(s) && x in s.cells && i < |s.cells[x].content|
    ensures Under(s, x, s.cells[x].content[i])
  {
    assert CellOk(s, x);
  }

  lemma WellFormedBoth(s: Store, t: Store, x: YamlNode)
    requires Changes(s, t, x)
    ensures WellFormed(s) && WellFormed(t) && x in s.cells && x in t.cells
  {
  }

  /** Another value for one entry. */
  lemma ReplacedEntry(s: Store, x: YamlNode, i: nat, v: YamlNode)
    requires WellFormed(s) && x in s.cells && s.cells[x].kind == MappingKind && 2 * i + 1 < |s.cells[x].content|
    requires Under(s, x, v) && v !in s.cells[x].content
    ensures var t := Hung(s, x, s.cells[x].content[2 * i + 1 := v]);
            && Changes(s, t, x) && i < |Abs(s, x).entries| && Abs(t, x) == WithValue(Abs(s, x), i, Abs(s, v))
  {
    var content := s.cells[x].content;
    var other := content[2 * i + 1 := v];
    assert CellOk(s, x);
    forall j | 0 <= j < |other| ensures Under(s, x, other[j]) {
      assert j != 2 * i + 1 ==> other[j] == content[j];
    }
    HungOk(s, x, other);
    var t := Hung(s, x, other);
    var was := Abs(s, x);
    forall j | 0 <= j < |was.entries| && j != i ensures Abs(t, x).entries[j] == was.entries[j] {
      assert Under(s, x, content[2 * j]) && Under(s, x, content[2 * j + 1]);
      EntryOf(s, t, x, j, j);
    }
    assert Under(s, x, content[2 * i]);
    assert Abs(t, x).entries[i] == EntryAt(t, x, i) && was.entries[i] == EntryAt(s, x, i);
    assert Abs(t, x).entries == was.entries[i := was.entries[i].(value := Abs(s, v))];
  }

  // ---------- growing ----------

  /** t has all that s has, as it was, and perhaps more. */
  ghost predicate Extends(s: Store, t: Store) {
    && WellFormed(s) && WellFormed(t)
    && (forall n :: n in s.cells ==> n in t.cells && t.cells[n] == s.cells[n])
    && (forall a, c :: a in s.cells && c in s.cells && Under(s, a, c) ==> Under(t, a, c))
  }

  lemma ExtendsAbs(s: Store, t: Store, n: YamlNode)
    requires Extends(s, t) && n in s.cells
    ensures n in t.cells && Abs(t, n) == Abs(s, n)
  {
    AbsFrame(s, t, n);
  }

  lemma AddedExtends(s: Store, n: YamlNode, x: Cell, under: YamlNode)
    requires WellFormed(s) && under in s.cells && n !in s.cells && x.content == []
    ensures Extends(s, Added(s, n, x, under)) && Under(Added(s, n, x, under), under, n)
  {
    AddedOk(s, n, x, under);
  }

  /** As before, but for the content of x. */
  ghost predicate ExtendsBut(s: Store, t: Store, x: YamlNode) {
    && Changes(s, t, x)
    && t.cells[x].(content := []) == s.cells[x].(content := [])
    && (forall a, c :: a in s.cells && c in s.cells && Under(s, a, c) ==> Under(t, a, c))
  }
}
