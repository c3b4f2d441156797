/** The check that a parsed document passes before anything is read from it or edited. */
module YamlValidation {
  import opened ByteStrings
  import opened YamlTree
  import opened YamlStore
  import opened YamlGrow
  import opened YamlDocument

  datatype Limits = Limits(maxNodes: int, maxDepth: int)

  const STANDARD_TAGS: set<Bytes> := {
    [], MAPPING_TAG, Ascii("!!seq"), STRING_TAG, Ascii("!!bool"), Ascii("!!int"), Ascii("!!float"), Ascii("!!null"),
    Ascii("!!timestamp") }

  const MERGE_KEY: Bytes := Ascii("<<")

  /** A string, and not the one that merges. */
  predicate KeyOk(x: Cell) { x.kind == ScalarKind && x.tag == STRING_TAG && x.text != MERGE_KEY }

  /** The first n keys of a mapping are such strings, no two of them equal. */
  ghost predicate KeysOk(s: Store, content: seq<YamlNode>, n: nat)
    requires 2 * n <= |content| && forall c :: c in content ==> c in s.cells
  {
    && (forall i :: 0 <= i < n ==> KeyOk(s.cells[KeyAt(content, i)]))
    && (forall i, j :: 0 <= i < j < n ==> s.cells[KeyAt(content, i)].text != s.cells[KeyAt(content, j)].text)
  }

  lemma ContentKnown(s: Store, n: YamlNode)
    requires WellFormed(s) && n in s.cells
    ensures forall c :: c in s.cells[n].content ==> c in s.cells && Rest(s, c) < Rest(s, n)
    ensures s.cells[n].kind == MappingKind ==> |s.cells[n].content| % 2 == 0
  {
    assert CellOk(s, n);
    forall c | c in s.cells[n].content ensures c in s.cells && Rest(s, c) < Rest(s, n) {
      var i :| 0 <= i < |s.cells[n].content| && s.cells[n].content[i] == c;
      ChildLater(s, n, i);
    }
  }

  /** A node at a depth, and all that hangs in its content. */
  ghost predicate Sound(s: Store, n: YamlNode, depth: int, limits: Limits)
    requires WellFormed(s) && n in s.cells
    decreases Rest(s, n)
  {
    ContentKnown(s, n);
    var x := s.cells[n];
    && depth <= limits.maxDepth && x.tag in STANDARD_TAGS
    && (x.kind == MappingKind ==> KeysOk(s, x.content, |x.content| / 2))
    && (x.kind == ScalarKind ==> x.content == [])
    && forall c :: c in x.content ==> Sound(s, c, depth + 1, limits)
  }

  /** The nodes of a tree, keys included. */
  function SizeOf(node: Node): (n: nat)
    ensures 0 < n
    decreases node, 1, 0
  {
    match node
    case Scalar(_, _, _) => 1
    case Sequence(_, items, _) => 1 + ItemsSize(node, |items|)
    case Mapping(_, entries, _) => 1 + EntriesSize(node, |entries|)
  }

  function ItemsSize(node: Node, n: nat): nat
    requires node.Sequence? && n <= |node.items|
    decreases node, 0, n
  {
    if n == 0 then 0 else ItemsSize(node, n - 1) + SizeOf(node.items[n - 1])
  }

  function EntriesSize(node: Node, n: nat): nat
    requires node.Mapping? && n <= |node.entries|
    decreases node, 0, n
  {
    if n == 0 then 0 else EntriesSize(node, n - 1) + 1 + SizeOf(node.entries[n - 1].value)
  }

  /** The sizes of the first n nodes together. */
  ghost function Sizes(s: Store, content: seq<YamlNode>, n: nat): nat
    requires WellFormed(s) && n <= |content| && forall c :: c in content ==> c in s.cells
  {
    if n == 0 then 0 else Sizes(s, content, n - 1) + SizeOf(Abs(s, content[n - 1]))
  }

  lemma {:induction false} ItemsAre(s: Store, n: YamlNode, k: nat)
    requires WellFormed(s) && n in s.cells && s.cells[n].kind == SequenceKind && k <= |s.cells[n].content|
    ensures forall c :: c in s.cells[n].content ==> c in s.cells
    ensures Abs(s, n).Sequence? && |Abs(s, n).items| == |s.cells[n].content|
    ensures ItemsSize(Abs(s, n), k) == Sizes(s, s.cells[n].content, k)
  {
    ContentKnown(s, n);
    AbsFields(s, n);
    if k > 0 {
      ItemsAre(s, n, k - 1);
    }
  }

  lemma ScalarSize(s: Store, c: YamlNode)
    requires WellFormed(s) && c in s.cells && s.cells[c].kind == ScalarKind
    ensures SizeOf(Abs(s, c)) == 1
  {
  }

  lemma EntryIs(s: Store, n: YamlNode, i: nat)
    requires WellFormed(s) && n in s.cells && s.cells[n].kind == MappingKind && 2 * i + 1 < |s.cells[n].content|
    ensures Abs(s, n).Mapping? && i < |Abs(s, n).entries|
    ensures s.cells[n].content[2 * i + 1] in s.cells
    ensures Abs(s, n).entries[i].value == Abs(s, s.cells[n].content[2 * i + 1])
  {
    AbsFields(s, n);
    ContentUnder(s, n, 2 * i + 1);
    assert Abs(s, n).entries[i] == EntryAt(s, n, i);
  }

  lemma {:induction false} EntriesAre(s: Store, n: YamlNode, k: nat)
    requires WellFormed(s) && n in s.cells && s.cells[n].kind == MappingKind && 2 * k <= |s.cells[n].content|
    requires forall c :: c in s.cells[n].content ==> c in s.cells
    requires KeysOk(s, s.cells[n].content, k)
    ensures Abs(s, n).Mapping? && k <= |Abs(s, n).entries|
    ensures EntriesSize(Abs(s, n), k) == Sizes(s, s.cells[n].content, 2 * k)
  {
    hide Abs, WellFormed, SizeOf;
    MappingIs(s, n);
    if k > 0 {
      EntriesAre(s, n, k - 1);
      var key := s.cells[n].content[2 * k - 2];
      assert key == KeyAt(s.cells[n].content, k - 1) && KeyOk(s.cells[key]);
      ScalarSize(s, key);
      EntryIs(s, n, k - 1);
      assert Sizes(s, s.cells[n].content, 2 * k) == Sizes(s, s.cells[n].content, 2 * k - 2) + 1 + SizeOf(Abs(s, s.cells[n].content[2 * k - 1]));
    }
  }

  /** A node and all in its content. */
  lemma SizeIs(s: Store, n: YamlNode)
    requires WellFormed(s) && n in s.cells
    requires forall c :: c in s.cells[n].content ==> c in s.cells
    requires s.cells[n].kind == MappingKind ==> |s.cells[n].content| % 2 == 0 && KeysOk(s, s.cells[n].content, |s.cells[n].content| / 2)
    requires s.cells[n].kind == ScalarKind ==> s.cells[n].content == []
    ensures SizeOf(Abs(s, n)) == 1 + Sizes(s, s.cells[n].content, |s.cells[n].content|)
  {
    AbsFields(s, n);
    if s.cells[n].kind == SequenceKind {
      ItemsAre(s, n, |s.cells[n].content|);
    } else if s.cells[n].kind == MappingKind {
      EntriesAre(s, n, |s.cells[n].content| / 2);
    }
  }

  // ---------- the stack ----------

  datatype Pending = Pending(node: YamlNode, depth: int)

  ghost predicate Known(s: Store, stack: seq<Pending>) {
    forall i :: 0 <= i < |stack| ==> stack[i].node in s.cells
  }

  ghost predicate AllSound(s: Store, stack: seq<Pending>, limits: Limits)
    requires WellFormed(s) && Known(s, stack)
  {
    forall i :: 0 <= i < |stack| ==> Sound(s, stack[i].node, stack[i].depth, limits)
  }

  ghost function Weight(s: Store, stack: seq<Pending>): nat
    requires WellFormed(s) && Known(s, stack)
  {
    if stack == [] then 0
    else
      var n := |stack| - 1;
      Weight(s, stack[..n]) + SizeOf(Abs(s, stack[n].node))
  }

  /** What is left to look at decides, together with what has been counted. */
  ghost predicate Decides(s: Store, root: YamlNode, stack: seq<Pending>, count: int, limits: Limits)
    requires WellFormed(s) && root in s.cells && Known(s, stack)
  {
    Sound(s, root, 1, limits) && 1 + SizeOf(Abs(s, root)) <= limits.maxNodes
    <==> AllSound(s, stack, limits) && count + Weight(s, stack) <= limits.maxNodes
  }

  lemma TopFails(s: Store, root: YamlNode, stack: seq<Pending>, count: int, limits: Limits)
    requires WellFormed(s) && root in s.cells && Known(s, stack) && stack != [] && Decides(s, root, stack, count, limits)
    requires count + 1 > limits.maxNodes || !Sound(s, stack[|stack| - 1].node, stack[|stack| - 1].depth, limits)
    ensures !(Sound(s, root, 1, limits) && 1 + SizeOf(Abs(s, root)) <= limits.maxNodes)
  {
  }

  /** The node on top replaced by its content. */
  lemma TopOpens(s: Store, root: YamlNode, stack: seq<Pending>, rest: seq<Pending>, next: seq<Pending>, n: YamlNode,
                 depth: int, count: int, limits: Limits)
    requires WellFormed(s) && root in s.cells && Known(s, stack) && stack != [] && Decides(s, root, stack, count, limits)
    requires rest == stack[..|stack| - 1] && stack[|stack| - 1] == Pending(n, depth)
    requires Known(s, next) && forall c :: c in s.cells[n].content ==> c in s.cells
    requires depth <= limits.maxDepth && s.cells[n].tag in STANDARD_TAGS
    requires s.cells[n].kind == MappingKind ==> |s.cells[n].content| % 2 == 0 && KeysOk(s, s.cells[n].content, |s.cells[n].content| / 2)
    requires s.cells[n].kind == ScalarKind ==> s.cells[n].content == []
    requires Weight(s, next) == Weight(s, rest) + Sizes(s, s.cells[n].content, |s.cells[n].content|)
    requires AllSound(s, next, limits) <==>
               AllSound(s, rest, limits) && forall c :: c in s.cells[n].content ==> Sound(s, c, depth + 1, limits)
    ensures Decides(s, root, next, count + 1, limits)
  {
    SizeIs(s, n);
    assert Sound(s, n, depth, limits) <==> forall c :: c in s.cells[n].content ==> Sound(s, c, depth + 1, limits);
    assert AllSound(s, stack, limits) <==> AllSound(s, rest, limits) && Sound(s, n, depth, limits) by {
      assert forall i :: 0 <= i < |rest| ==> rest[i] == stack[i];
    }
  }

  /** The content pushed from its end; the rest of it is still to be pushed. */
  ghost predicate Pushing(s: Store, rest: seq<Pending>, next: seq<Pending>, content: seq<YamlNode>, k: nat, depth: int, limits: Limits)
    requires WellFormed(s) && Known(s, rest) && k <= |content| && forall c :: c in content ==> c in s.cells
  {
    && Known(s, next)
    && Weight(s, next) + Sizes(s, content, k) == Weight(s, rest) + Sizes(s, content, |content|)
    && (AllSound(s, next, limits) <==>
          AllSound(s, rest, limits) && forall i :: k <= i < |content| ==> Sound(s, content[i], depth, limits))
  }

  lemma PushOne(s: Store, rest: seq<Pending>, next: seq<Pending>, content: seq<YamlNode>, k: nat, depth: int, limits: Limits)
    requires WellFormed(s) && Known(s, rest) && 0 < k <= |content| && forall c :: c in content ==> c in s.cells
    requires Pushing(s, rest, next, content, k, depth, limits)
    ensures Pushing(s, rest, next + [Pending(content[k - 1], depth)], content, k - 1, depth, limits)
  {
    hide Sound, SizeOf;
    var more := next + [Pending(content[k - 1], depth)];
    assert more[..|next|] == next;
    assert content[k - 1] in content;
    assert AllSound(s, more, limits) <==> AllSound(s, next, limits) && Sound(s, content[k - 1], depth, limits) by {
      assert forall i :: 0 <= i < |next| ==> more[i] == next[i];
      assert more[|next|] == Pending(content[k - 1], depth);
    }
  }

  lemma AllPushed(s: Store, rest: seq<Pending>, next: seq<Pending>, content: seq<YamlNode>, depth: int, limits: Limits)
    requires WellFormed(s) && Known(s, rest) && forall c :: c in content ==> c in s.cells
    requires Pushing(s, rest, next, content, 0, depth, limits)
    ensures Known(s, next) && Weight(s, next) == Weight(s, rest) + Sizes(s, content, |content|)
    ensures AllSound(s, next, limits) <==>
              AllSound(s, rest, limits) && forall c :: c in content ==> Sound(s, c, depth, limits)
  {
    hide Sound, SizeOf;
    assert (forall i :: 0 <= i < |content| ==> Sound(s, content[i], depth, limits))
      <==> (forall c :: c in content ==> Sound(s, c, depth, limits));
  }

  /** A document is accepted exactly when every node of it is sound, down to the deepest, and they are not too many. */
  method ValidateNode(document: Document, limits: Limits) returns (ok: bool)
    requires document.Valid() && forall n :: n in document.nodes && n.kind == ScalarKind ==> n.content == []
    ensures ok <==> 0 <= limits.maxDepth && Sound(document.View(), document.root, 1, limits)
                    && 1 + SizeOf(document.Value()) <= limits.maxNodes
  {
    hide WellFormed, Abs, Sound, SizeOf, Weight, AllSound, Known, Decides, KeysOk, Pushing;
    ghost var s := document.View();
    var count := 1;
    if count > limits.maxNodes || 0 > limits.maxDepth {
      return false;
    }
    var stack := [Pending(document.root, 1)];
    StackStarts(s, document.root, limits);
    while |stack| > 0
      invariant 1 <= count <= limits.maxNodes && (forall p :: p in stack ==> p.node in document.nodes)
      invariant Known(s, stack) && Decides(s, document.root, stack, count, limits)
      decreases limits.maxNodes - count
    {
      ok, stack := ValidateTop(document, stack, count, limits);
      if !ok {
        return;
      }
      count := count + 1;
    }
    StackEnds(s, document.root, stack, count, limits);
    return true;
  }

  /** Looks at the node on top of the stack, and replaces it by its content. */
  method ValidateTop(document: Document, stack: seq<Pending>, count: int, limits: Limits) returns (ok: bool, next: seq<Pending>)
    requires document.Valid() && forall n :: n in document.nodes && n.kind == ScalarKind ==> n.content == []
    requires |stack| > 0 && count <= limits.maxNodes && forall p :: p in stack ==> p.node in document.nodes
    requires Known(document.View(), stack) && Decides(document.View(), document.root, stack, count, limits)
    ensures !ok ==> !(Sound(document.View(), document.root, 1, limits) && 1 + SizeOf(document.Value()) <= limits.maxNodes)
    ensures ok ==> count + 1 <= limits.maxNodes && (forall p :: p in next ==> p.node in document.nodes)
                   && Known(document.View(), next) && Decides(document.View(), document.root, next, count + 1, limits)
  {
    hide WellFormed, Abs, Sound, SizeOf, Weight, AllSound, Known, Decides, KeysOk;
    ghost var s := document.View();
    var item, rest := stack[|stack| - 1], stack[..|stack| - 1];
    var n := item.node;
    assert item in stack;
    ContentKnown(s, n);
    if count + 1 > limits.maxNodes {
      TopFails(s, document.root, stack, count, limits);
      return false, stack;
    }
    var fine := item.depth <= limits.maxDepth && n.tag in STANDARD_TAGS;
    if fine && n.kind == MappingKind {
      fine := ValidateKeys(document, n);
    }
    if !fine {
      Unsound(s, n, item.depth, limits);
      TopFails(s, document.root, stack, count, limits);
      return false, stack;
    }
    KnownLess(s, stack);
    next := Push(document, rest, n.content, item.depth + 1, limits);
    TopOpens(s, document.root, stack, rest, next, n, item.depth, count, limits);
    return true, next;
  }

  lemma KnownLess(s: Store, stack: seq<Pending>)
    requires Known(s, stack) && stack != []
    ensures Known(s, stack[..|stack| - 1])
  {
  }

  lemma StackStarts(s: Store, root: YamlNode, limits: Limits)
    requires WellFormed(s) && root in s.cells
    ensures Known(s, [Pending(root, 1)]) && Decides(s, root, [Pending(root, 1)], 1, limits)
  {
    var stack := [Pending(root, 1)];
    assert stack[..0] == [] && Weight(s, stack[..0]) == 0;
  }

  lemma StackEnds(s: Store, root: YamlNode, stack: seq<Pending>, count: int, limits: Limits)
    requires WellFormed(s) && root in s.cells && stack == [] && Known(s, stack) && Decides(s, root, stack, count, limits)
    requires count <= limits.maxNodes
    ensures Sound(s, root, 1, limits) && 1 + SizeOf(Abs(s, root)) <= limits.maxNodes
  {
  }

  lemma Unsound(s: Store, n: YamlNode, depth: int, limits: Limits)
    requires WellFormed(s) && n in s.cells
    requires forall c :: c in s.cells[n].content ==> c in s.cells
    requires || depth > limits.maxDepth || s.cells[n].tag !in STANDARD_TAGS
             || (s.cells[n].kind == MappingKind && !KeysOk(s, s.cells[n].content, |s.cells[n].content| / 2))
    ensures !Sound(s, n, depth, limits)
  {
  }

  /** The keys of one mapping. */
  method ValidateKeys(document: Document, n: YamlNode) returns (ok: bool)
    requires document.Valid() && n in document.nodes && n.kind == MappingKind && |n.content| % 2 == 0
    requires forall c :: c in n.content ==> c in document.nodes
    ensures ok <==> KeysOk(document.View(), n.content, |n.content| / 2)
  {
    hide WellFormed;
    ghost var s := document.View();
    var seen: set<Bytes> := {};
    for i := 0 to |n.content| / 2
      invariant KeysOk(s, n.content, i)
      invariant forall j :: 0 <= j < i ==> KeyAt(n.content, j).text in seen
      invariant forall text :: text in seen ==> exists j :: 0 <= j < i && KeyAt(n.content, j).text == text
    {
      var key := n.content[2 * i];
      assert key == KeyAt(n.content, i) && key in n.content;
      if key.text == MERGE_KEY || key.kind != ScalarKind || key.tag != STRING_TAG {
        assert !KeyOk(s.cells[KeyAt(n.content, i)]);
        return false;
      }
      if key.text in seen {
        var j :| 0 <= j < i && KeyAt(n.content, j).text == key.text;
        assert s.cells[KeyAt(n.content, j)].text == s.cells[KeyAt(n.content, i)].text;
        return false;
      }
      seen := seen + {key.text};
    }
    return true;
  }

  /** Pushes the content, its first node on top. */
  method Push(document: Document, rest: seq<Pending>, content: seq<YamlNode>, depth: int, ghost limits: Limits)
    returns (next: seq<Pending>)
    requires document.Valid() && Known(document.View(), rest) && forall c :: c in content ==> c in document.nodes
    requires forall p :: p in rest ==> p.node in document.nodes
    ensures forall p :: p in next ==> p.node in document.nodes
    ensures Known(document.View(), next)
    ensures Weight(document.View(), next) == Weight(document.View(), rest) + Sizes(document.View(), content, |content|)
    ensures AllSound(document.View(), next, limits) <==>
              AllSound(document.View(), rest, limits) && forall c :: c in content ==> Sound(document.View(), c, depth, limits)
  {
    hide WellFormed, Abs, Sound, SizeOf, Weight, AllSound;
    ghost var s := document.View();
    next := rest;
    var index := |content|;
    while index > 0
      invariant 0 <= index <= |content| && forall p :: p in next ==> p.node in document.nodes
      invariant Pushing(s, rest, next, content, index, depth, limits)
    {
      PushOne(s, rest, next, content, index, depth, limits);
      index := index - 1;
      next := next + [Pending(content[index], depth)];
    }
    AllPushed(s, rest, next, content, depth, limits);
  }

  /** What is accepted has no key twice: the premise of all edits. */
  lemma {:induction false} SoundIsUnique(s: Store, n: YamlNode, depth: int, limits: Limits)
    requires WellFormed(s) && n in s.cells && Sound(s, n, depth, limits)
    ensures UniqueKeys(Abs(s, n))
    decreases Rest(s, n)
  {
    ContentKnown(s, n);
    AbsFields(s, n);
    var x := s.cells[n];
    if x.kind == SequenceKind {
      forall i | 0 <= i < |x.content| ensures UniqueKeys(Abs(s, n).items[i]) {
        assert x.content[i] in x.content;
        SoundIsUnique(s, x.content[i], depth + 1, limits);
      }
    } else if x.kind == MappingKind {
      forall i | 0 <= i < |Abs(s, n).entries|
        ensures Abs(s, n).entries[i].key == s.cells[KeyAt(x.content, i)].text && UniqueKeys(Abs(s, n).entries[i].value)
      {
        assert Abs(s, n).entries[i] == EntryAt(s, n, i);
        assert x.content[2 * i + 1] in x.content;
        SoundIsUnique(s, x.content[2 * i + 1], depth + 1, limits);
      }
      assert KeysDiffer(Abs(s, n).entries);
    }
  }

  // ---------- every node, wherever it hangs ----------

  /** From n down, each node hangs in the content of the one before. */
  ghost predicate Chain(s: Store, n: YamlNode, path: seq<YamlNode>)
    decreases |path|
  {
    path != [] && path[0] == n && n in s.cells
    && (|path| > 1 ==> path[1] in s.cells[n].content && Chain(s, path[1], path[1..]))
  }

  /** What is asked of every node alone: a standard tag, and of a mapping proper keys, each once. */
  ghost predicate NodeOk(s: Store, n: YamlNode)
    requires WellFormed(s) && n in s.cells
  {
    ContentKnown(s, n);
    var x := s.cells[n];
    && x.tag in STANDARD_TAGS
    && (x.kind == MappingKind ==> KeysOk(s, x.content, |x.content| / 2))
    && (x.kind == ScalarKind ==> x.content == [])
  }

  lemma {:induction false} SoundChain(s: Store, n: YamlNode, depth: int, limits: Limits, path: seq<YamlNode>)
    requires WellFormed(s) && n in s.cells && Sound(s, n, depth, limits) && Chain(s, n, path)
    ensures path[|path| - 1] in s.cells && NodeOk(s, path[|path| - 1]) && depth + |path| - 1 <= limits.maxDepth
    decreases |path|
  {
    hide KeysOk, WellFormed;
    if |path| > 1 {
      ContentKnown(s, n);
      SoundChain(s, path[1], depth + 1, limits, path[1..]);
    }
  }

  /** A document is sound exactly when every node that hangs in it anywhere is, and none of them hangs too deep. */
  lemma {:induction false} SoundIff(s: Store, n: YamlNode, depth: int, limits: Limits)
    requires WellFormed(s) && n in s.cells
    ensures Sound(s, n, depth, limits) <==>
              forall path :: Chain(s, n, path) ==>
                path[|path| - 1] in s.cells && NodeOk(s, path[|path| - 1]) && depth + |path| - 1 <= limits.maxDepth
    decreases Rest(s, n)
  {
    hide KeysOk, WellFormed;
    forall path | Sound(s, n, depth, limits) && Chain(s, n, path)
      ensures path[|path| - 1] in s.cells && NodeOk(s, path[|path| - 1]) && depth + |path| - 1 <= limits.maxDepth
    {
      SoundChain(s, n, depth, limits, path);
    }
    if forall path :: Chain(s, n, path) ==>
         path[|path| - 1] in s.cells && NodeOk(s, path[|path| - 1]) && depth + |path| - 1 <= limits.maxDepth {
      assert Chain(s, n, [n]);
      ContentKnown(s, n);
      forall c | c in s.cells[n].content ensures Sound(s, c, depth + 1, limits) {
        forall path | Chain(s, c, path)
          ensures path[|path| - 1] in s.cells && NodeOk(s, path[|path| - 1]) && depth + 1 + |path| - 1 <= limits.maxDepth
        {
          assert ([n] + path)[1..] == path;
          assert Chain(s, n, [n] + path);
        }
        SoundIff(s, c, depth + 1, limits);
      }
    }
  }
}
