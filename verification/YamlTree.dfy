/** Edits of a parsed YAML document: mappings with unique string keys, sequences and scalars. */
module YamlTree {
  import opened ByteStrings

  type Key = Bytes
  type Path = seq<Key>

  datatype Style = NoStyle | SingleQuotedStyle | DoubleQuotedStyle | OtherStyle(kind: nat)

  /** Comments, anchor and style: how a node is presented. */
  datatype Look = Look(head: Bytes, line: Bytes, foot: Bytes, anchor: Bytes, style: Style)

  const NO_LOOK := Look([], [], [], [], NoStyle)

  const STRING_TAG: Bytes := Ascii("!!str")
  const MAPPING_TAG: Bytes := Ascii("!!map")

  datatype Node =
    | Scalar(tag: Bytes, text: Bytes, look: Look)
    | Sequence(tag: Bytes, items: seq<Node>, look: Look)
    | Mapping(tag: Bytes, entries: seq<Entry>, look: Look)

  /** A key, how it is presented, and its value. */
  datatype Entry = Entry(key: Key, keyLook: Look, value: Node)

  // ---------- reading ----------

  /** The first entry of a key, or |entries|. */
  function Find(entries: seq<Entry>, key: Key): (i: nat)
    ensures i <= |entries|
    ensures i < |entries| ==> entries[i].key == key
    ensures forall j :: 0 <= j < i ==> entries[j].key != key
  {
    if entries == [] || entries[0].key == key then 0 else 1 + Find(entries[1..], key)
  }

  function Lookup(node: Node, path: Path): Option<Node>
    decreases |path|
  {
    if path == [] then Some(node)
    else if !node.Mapping? then None
    else
      var i := Find(node.entries, path[0]);
      if i == |node.entries| then None else Lookup(node.entries[i].value, path[1..])
  }

  /** Equal kind, tag, text and content, whatever the presentation. */
  predicate Same(a: Node, b: Node)
    decreases a
  {
    match a
    case Scalar(tag, text, _) => b.Scalar? && b.tag == tag && b.text == text
    case Sequence(tag, items, _) =>
      b.Sequence? && b.tag == tag && |b.items| == |items|
      && forall i :: 0 <= i < |items| ==> Same(items[i], b.items[i])
    case Mapping(tag, entries, _) =>
      b.Mapping? && b.tag == tag && |b.entries| == |entries|
      && forall i :: 0 <= i < |entries| ==> entries[i].key == b.entries[i].key && Same(entries[i].value, b.entries[i].value)
  }

  lemma {:induction false} SameReflexive(a: Node)
    ensures Same(a, a)
    decreases a
  {
    match a
    case Scalar(_, _, _) =>
    case Sequence(_, items, _) =>
      forall i | 0 <= i < |items| ensures Same(items[i], items[i]) {
        SameReflexive(items[i]);
      }
    case Mapping(_, entries, _) =>
      forall i | 0 <= i < |entries| ensures Same(entries[i].value, entries[i].value) {
        SameReflexive(entries[i].value);
      }
  }

  // ---------- setting ----------

  /** The value, presented as what it replaces; a forced string toggles its quotes. */
  function Replacing(existing: Node, value: Node, forced: bool): Node {
    var was := existing.look;
    var style :=
      if forced && value.Scalar? && value.tag == STRING_TAG then
        if was.style == SingleQuotedStyle then DoubleQuotedStyle else SingleQuotedStyle
      else if (value.Scalar? && existing.Scalar?) || (value.Sequence? && existing.Sequence?)
              || (value.Mapping? && existing.Mapping?) then was.style
      else value.look.style;
    var look := Look(was.head, was.line, was.foot, was.anchor, style);
    match value
    case Scalar(tag, text, _) => Scalar(tag, text, look)
    case Sequence(tag, items, _) => Sequence(tag, items, look)
    case Mapping(tag, entries, _) => Mapping(tag, entries, look)
  }

  lemma ReplacingSame(existing: Node, value: Node, forced: bool)
    ensures Same(Replacing(existing, value, forced), value)
  {
    SameReflexive(value);
  }

  function NewEntry(key: Key, value: Node): Entry { Entry(key, NO_LOOK, value) }

  /** Mappings that lead to the value. */
  function Nested(path: Path, value: Node): Node {
    if path == [] then value else Mapping(MAPPING_TAG, [NewEntry(path[0], Nested(path[1..], value))], NO_LOOK)
  }

  /** A refusal, or the new tree, what was there, and whether anything changed. */
  datatype Edit = Refused | Edited(node: Node, before: Option<Node>, changed: bool)

  function WithValue(node: Node, i: nat, value: Node): Node
    requires node.Mapping? && i < |node.entries|
  {
    node.(entries := node.entries[i := node.entries[i].(value := value)])
  }

  function SetAt(node: Node, path: Path, value: Node, forced: bool): Edit
    requires node.Mapping? && path != []
    decreases |path|
  {
    var i := Find(node.entries, path[0]);
    if i == |node.entries| then
      Edited(node.(entries := node.entries + [NewEntry(path[0], Nested(path[1..], value))]), None, true)
    else
      var child := node.entries[i].value;
      if |path| == 1 then
        if !forced && Same(child, value) then Edited(node, Some(child), false)
        else Edited(WithValue(node, i, Replacing(child, value, forced)), Some(child), true)
      else if !child.Mapping? then Refused
      else
        var r := SetAt(child, path[1..], value, forced);
        if r.Refused? then Refused else Edited(WithValue(node, i, r.node), r.before, r.changed)
  }

  // ---------- removing ----------

  function Without(node: Node, i: nat): Node
    requires node.Mapping? && i < |node.entries|
  {
    node.(entries := node.entries[..i] + node.entries[i + 1..])
  }

  predicate IsEmptyMapping(node: Node) { node.Mapping? && node.entries == [] }

  /** The first kept levels of mappings stay even when they are emptied. */
  function RemoveAt(node: Node, path: Path, kept: int): Edit
    requires node.Mapping? && path != []
    decreases |path|
  {
    var i := Find(node.entries, path[0]);
    if i == |node.entries| then Edited(node, None, false)
    else
      var child := node.entries[i].value;
      if |path| == 1 then Edited(Without(node, i), Some(child), true)
      else if !child.Mapping? then Refused
      else
        var r := RemoveAt(child, path[1..], kept - 1);
        if r.Refused? then Refused
        else if !r.changed then Edited(node, r.before, false)
        else Edited(if kept < 1 && IsEmptyMapping(r.node) then Without(node, i) else WithValue(node, i, r.node),
                    r.before, true)
  }

  // ---------- keys ----------

  predicate KeysDiffer(entries: seq<Entry>) {
    forall i, j :: 0 <= i < j < |entries| ==> entries[i].key != entries[j].key
  }

  /** No mapping anywhere has a key twice. */
  predicate UniqueKeys(node: Node)
    decreases node
  {
    match node
    case Scalar(_, _, _) => true
    case Sequence(_, items, _) => forall i :: 0 <= i < |items| ==> UniqueKeys(items[i])
    case Mapping(_, entries, _) =>
      KeysDiffer(entries) && forall i :: 0 <= i < |entries| ==> UniqueKeys(entries[i].value)
  }

  lemma FindIs(entries: seq<Entry>, key: Key, i: nat)
    requires i <= |entries| && (i < |entries| ==> entries[i].key == key) && forall j :: 0 <= j < i ==> entries[j].key != key
    ensures Find(entries, key) == i
  {
  }

  /** Changing the value of an entry, adding one or removing one, as a reader of a key sees it. */
  lemma FindWithValue(node: Node, i: nat, value: Node, key: Key)
    requires node.Mapping? && i < |node.entries|
    ensures Find(WithValue(node, i, value).entries, key) == Find(node.entries, key)
  {
    FindIs(WithValue(node, i, value).entries, key, Find(node.entries, key));
  }

  lemma FindAppended(entries: seq<Entry>, e: Entry, key: Key)
    ensures var n := Find(entries, key);
            Find(entries + [e], key) == if n < |entries| then n else if e.key == key then n else n + 1
  {
    var n := Find(entries, key);
    FindIs(entries + [e], key, if n < |entries| then n else if e.key == key then n else n + 1);
  }

  lemma FindWithout(node: Node, i: nat, key: Key)
    requires node.Mapping? && i < |node.entries| && KeysDiffer(node.entries)
    ensures var n, m := Find(node.entries, key), Find(Without(node, i).entries, key);
            m == if n < i then n else if n == i then |node.entries| - 1 else n - 1
  {
    var n := Find(node.entries, key);
    var rest := Without(node, i).entries;
    assert forall j :: 0 <= j < |rest| ==> rest[j] == if j < i then node.entries[j] else node.entries[j + 1];
    FindIs(rest, key, if n < i then n else if n == i then |rest| else n - 1);
  }
}
