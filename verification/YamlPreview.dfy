/** Requested changes of logical fields: resolved against the manifest, then applied to a copy of the document. */
module YamlPreview {
  import opened ByteStrings
  import opened YamlTree
  import opened YamlEdits
  import opened YamlChanges
  import opened YamlGrow
  import opened YamlDocument
  import opened YamlStore
  import opened YamlWay
  import opened YamlSelectors

  /** A field that is kept in the document, with the part of its definition that editing needs. */
  datatype Field = Field(selector: seq<Segment>, pruneEmpty: bool, secret: bool)

  type Manifest = map<Bytes, Field>

  datatype Operation = SetField(value: Node) | RemoveField

  datatype Request = Request(id: Bytes, bindings: map<Bytes, Bytes>, operation: Operation)

  predicate ValidManifest(m: Manifest) {
    forall id :: id in m ==> ValidSelector(m[id].selector)
  }

  /** Values are scalars or lists of these. */
  predicate ValidRequests(requests: seq<Request>) {
    forall i :: 0 <= i < |requests| && requests[i].operation.SetField? ==> PlainValue(requests[i].operation.value)
  }

  predicate PlainValue(value: Node) { Plain(value) && UniqueKeys(value) && !value.Mapping? }

  // ---------- how far up removal clears away ----------

  /** The levels to be kept: all of them, or those up to the last bound value. */
  function KeptDepth(f: Field): int {
    if !f.pruneEmpty then |f.selector| - 1 else LastBinding(f.selector)
  }

  /** One more than the index of the last bound segment, or zero. */
  function LastBinding(selector: seq<Segment>): (n: nat)
    ensures n <= |selector|
    ensures n > 0 ==> selector[n - 1].BindingSegment?
    ensures forall i :: n <= i < |selector| ==> selector[i].KeySegment?
  {
    if selector == [] then 0
    else if selector[|selector| - 1].BindingSegment? then |selector|
    else LastBinding(selector[..|selector| - 1])
  }

  method PreserveDepth(f: Field, path: Path) returns (depth: int)
    requires |path| == |f.selector|
    ensures depth == KeptDepth(f)
  {
    depth := |path| - 1;
    if f.pruneEmpty {
      depth := 0;
      for index := 0 to |f.selector|
        invariant depth == LastBinding(f.selector[..index])
      {
        assert f.selector[..index + 1][..index] == f.selector[..index];
        if f.selector[index].BindingSegment? {
          depth := index + 1;
        }
      }
      assert f.selector[..|f.selector|] == f.selector;
    }
  }

  // ---------- from requests to changes ----------

  /** The field is managed, and its bindings give a path. */
  predicate Fits(m: Manifest, r: Request) {
    r.id in m && Resolves(m[r.id].selector, r.bindings)
  }

  function PathFor(m: Manifest, r: Request): Path
    requires Fits(m, r)
  {
    BindingsAreSegments(m[r.id].selector, r.bindings);
    PathOf(m[r.id].selector, r.bindings)
  }

  function ChangeFor(m: Manifest, r: Request): Change
    requires Fits(m, r)
  {
    match r.operation
    case SetField(value) => Set(PathFor(m, r), value, m[r.id].secret)
    case RemoveField => Remove(PathFor(m, r), KeptDepth(m[r.id]))
  }

  function ChangesFor(m: Manifest, requests: seq<Request>): (changes: seq<Change>)
    requires forall i :: 0 <= i < |requests| ==> Fits(m, requests[i])
    ensures |changes| == |requests|
    ensures forall i :: 0 <= i < |requests| ==> changes[i] == ChangeFor(m, requests[i])
  {
    if requests == [] then []
    else ChangesFor(m, requests[..|requests| - 1]) + [ChangeFor(m, requests[|requests| - 1])]
  }

  /** The same field with the same bindings. */
  predicate SameField(r: Request, s: Request) { r.id == s.id && r.bindings == s.bindings }

  /** Every request fits, and no field is changed twice. */
  predicate Accepted(m: Manifest, requests: seq<Request>) {
    && (forall i :: 0 <= i < |requests| ==> Fits(m, requests[i]))
    && forall i, j :: 0 <= i < j < |requests| ==> !SameField(requests[i], requests[j])
  }

  lemma AcceptedNothing(m: Manifest)
    ensures Accepted(m, [])
  {
  }

  lemma AcceptedNext(m: Manifest, requests: seq<Request>, n: nat)
    requires n < |requests|
    ensures Accepted(m, requests[..n + 1]) <==>
              && Accepted(m, requests[..n])
              && Fits(m, requests[n])
              && forall i :: 0 <= i < n ==> !SameField(requests[i], requests[n])
  {
    hide Fits;
    var some, more := requests[..n], requests[..n + 1];
    assert forall i :: 0 <= i < n ==> some[i] == more[i] == requests[i];
    assert more[n] == requests[n];
  }

  lemma AcceptedUpTo(m: Manifest, requests: seq<Request>, n: nat)
    requires n <= |requests| && Accepted(m, requests)
    ensures Accepted(m, requests[..n])
  {
    hide Fits;
  }

  method Build(m: Manifest, r: Request, path: Path) returns (change: Change)
    requires ValidManifest(m) && Fits(m, r) && path == PathFor(m, r)
    ensures change == ChangeFor(m, r)
  {
    hide Resolves, KeptDepth;
    var spec := m[r.id];
    match r.operation {
      case SetField(value) => change := Set(path, value, spec.secret);
      case RemoveField =>
        var kept := PreserveDepth(spec, path);
        change := Remove(path, kept);
    }
  }

  method ResolveRequest(m: Manifest, r: Request) returns (path: Option<Path>)
    requires ValidManifest(m)
    ensures path.Some? <==> Fits(m, r)
    ensures path.Some? ==> path.value == PathFor(m, r)
  {
    hide Resolves, PathOf, ValidSelector;
    if r.id !in m {
      return None;
    }
    path := Resolve(m[r.id].selector, r.bindings);
  }

  method Prepare(m: Manifest, requests: seq<Request>) returns (changes: Option<seq<Change>>)
    requires ValidManifest(m)
    ensures changes.Some? <==> Accepted(m, requests)
    ensures changes.Some? ==> changes.value == ChangesFor(m, requests)
  {
    hide Fits, ChangeFor, PathFor, Accepted, ValidManifest;
    var prepared: seq<Change> := [];
    var seen: set<(Bytes, map<Bytes, Bytes>)> := {};
    AcceptedNothing(m);
    assert requests[..0] == [];
    for index := 0 to |requests|
      invariant Accepted(m, requests[..index])
      invariant forall i :: 0 <= i < index ==> Fits(m, requests[i])
      invariant prepared == ChangesFor(m, requests[..index])
      invariant seen == set i | 0 <= i < index :: (requests[i].id, requests[i].bindings)
    {
      var change := requests[index];
      AcceptedNext(m, requests, index);
      var path := ResolveRequest(m, change);
      if path.None? || (change.id, change.bindings) in seen {
        if Accepted(m, requests) {
          AcceptedUpTo(m, requests, index + 1);
        }
        return None;
      }
      seen := seen + {(change.id, change.bindings)};
      var edit := Build(m, change, path.value);
      assert requests[..index + 1][..index] == requests[..index];
      prepared := prepared + [edit];
    }
    assert requests[..|requests|] == requests;
    return Some(prepared);
  }

  lemma ChangesAreValid(m: Manifest, requests: seq<Request>)
    requires ValidManifest(m) && Accepted(m, requests) && ValidRequests(requests)
    ensures ValidChanges(ChangesFor(m, requests))
  {
    hide Resolves, UniqueKeys, Plain;
    forall i | 0 <= i < |requests| ensures ValidChange(ChangeFor(m, requests[i])) {
      assert ValidSelector(m[requests[i].id].selector);
    }
  }

  /** What the requests make of the document, or nothing when they are not accepted or one is refused. */
  function Previewed(m: Manifest, node: Node, requests: seq<Request>): Option<Node>
    requires node.Mapping? && ValidManifest(m) && ValidRequests(requests)
  {
    if !Accepted(m, requests) then None
    else (ChangesAreValid(m, requests); ApplyAll(node, ChangesFor(m, requests)))
  }

  method Preview(m: Manifest, document: Document, requests: seq<Request>) returns (candidate: Document?)
    requires document.Valid() && document.root.kind == MappingKind && ValidManifest(m) && ValidRequests(requests)
    ensures document.Value().Mapping?
    ensures candidate == null <==> Previewed(m, document.Value(), requests).None?
    ensures candidate != null ==>
              && fresh(candidate) && fresh(candidate.nodes) && candidate.Valid()
              && candidate.Value() == Previewed(m, document.Value(), requests).value
  {
    hide Accepted, Fits, Abs, UniqueKeys, ApplyAll;
    var changes := Prepare(m, requests);
    if changes.None? {
      RootIsMapping(document.View(), document.root);
      return null;
    }
    ChangesAreValid(m, requests);
    candidate := Document.Preview(document, changes.value);
  }

  // ---------- the order of requests ----------

  /** Any two fields name different keys at some place of their selectors. */
  predicate Separate(m: Manifest) {
    forall a, b :: a in m && b in m && a != b ==> NeverOverlap(m[a].selector, m[b].selector)
  }

  lemma RequestsDiverge(m: Manifest, r: Request, s: Request)
    requires ValidManifest(m) && Separate(m) && Fits(m, r) && Fits(m, s) && !SameField(r, s)
    ensures Diverge(PathFor(m, r), PathFor(m, s))
  {
    hide Resolves, NeverOverlap, PathOf, Diverge;
    if r.id == s.id {
      DifferentBindingsDiverge(m[r.id].selector, r.bindings, s.bindings);
    } else {
      DifferentFieldsDiverge(m[r.id].selector, m[s.id].selector, r.bindings, s.bindings);
    }
  }

  lemma AcceptedDiverge(m: Manifest, requests: seq<Request>)
    requires ValidManifest(m) && Separate(m) && Accepted(m, requests)
    ensures AllDiverge(ChangesFor(m, requests))
  {
    hide Fits, Separate, Diverge, PathFor;
    forall i, j | 0 <= i < |requests| && 0 <= j < |requests| && i != j
      ensures Diverge(ChangeFor(m, requests[i]).path, ChangeFor(m, requests[j]).path)
    {
      assert !SameField(requests[i], requests[j]);
      RequestsDiverge(m, requests[i], requests[j]);
    }
  }

  /** Empty parents are to go, and the selector ends in a binding: the depth to be kept is then out of range. */
  predicate Unprunable(m: Manifest, r: Request)
    requires ValidManifest(m) && Fits(m, r)
  {
    var f := m[r.id];
    r.operation.RemoveField? && f.pruneEmpty && f.selector[|f.selector| - 1].BindingSegment?
  }

  lemma BadBoundaryIff(m: Manifest, r: Request)
    requires ValidManifest(m) && Fits(m, r)
    ensures BadBoundary(ChangeFor(m, r)) <==> Unprunable(m, r)
  {
    hide Resolves;
    assert ValidSelector(m[r.id].selector);
  }

  /** The requests succeed exactly when they are accepted, and nothing in the document stands in the way of any. */
  lemma PreviewedIff(m: Manifest, node: Node, requests: seq<Request>)
    requires node.Mapping? && UniqueKeys(node) && ValidManifest(m) && Separate(m) && ValidRequests(requests)
    ensures Previewed(m, node, requests).Some? <==>
              && Accepted(m, requests)
              && forall i :: 0 <= i < |requests| ==>
                   !Blocked(node, PathFor(m, requests[i])) && !Unprunable(m, requests[i])
  {
    hide UniqueKeys, Separate, Fits, Blocked, Diverge, BadBoundary, Unprunable, PathFor, ApplyAll;
    if Accepted(m, requests) {
      ChangesAreValid(m, requests);
      AcceptedDiverge(m, requests);
      ApplyAllSucceedsIff(node, ChangesFor(m, requests));
      forall i | 0 <= i < |requests|
        ensures BadBoundary(ChangeFor(m, requests[i])) <==> Unprunable(m, requests[i])
      {
        BadBoundaryIff(m, requests[i]);
      }
      assert forall i :: 0 <= i < |requests| ==> ChangesFor(m, requests)[i].path == PathFor(m, requests[i]);
    }
  }

  /** After all of them, each field reads as its request asked. */
  lemma PreviewedReads(m: Manifest, node: Node, requests: seq<Request>, i: nat)
    requires node.Mapping? && UniqueKeys(node) && ValidManifest(m) && Separate(m) && ValidRequests(requests)
    requires Previewed(m, node, requests).Some? && i < |requests|
    ensures Alike(Leaf(Previewed(m, node, requests).value, PathFor(m, requests[i])),
                  if requests[i].operation.SetField? then Some(requests[i].operation.value) else None)
  {
    hide UniqueKeys, Separate, Fits, Diverge, PathFor, ApplyAll, Leaf, Alike, LeafIs;
    ChangesAreValid(m, requests);
    AcceptedDiverge(m, requests);
    var changes, q := ChangesFor(m, requests), PathFor(m, requests[i]);
    ApplyAllLeaf(node, changes, q);
    assert changes[i] in changes && changes[i].path == q;
    LeafIsAt(changes, q, Leaf(node, q), Leaf(ApplyAll(node, changes).value, q), changes[i]);
  }

  /** All but the element at k. */
  function Cut<T>(s: seq<T>, k: nat): seq<T>
    requires k < |s|
  {
    s[..k] + s[k + 1..]
  }

  lemma CutAt<T>(s: seq<T>, k: nat, i: nat)
    requires k < |s| && i < |s| - 1
    ensures |Cut(s, k)| == |s| - 1 && Cut(s, k)[i] == s[if i < k then i else i + 1]
  {
  }

  lemma CutOne<T>(s: seq<T>, k: nat)
    requires k < |s|
    ensures |Cut(s, k)| == |s| - 1 && multiset(s) == multiset(Cut(s, k)) + multiset{s[k]}
  {
    assert s == s[..k] + [s[k]] + s[k + 1..];
  }

  lemma MemberOf<T>(s: seq<T>, x: T) returns (k: nat)
    requires x in multiset(s)
    ensures k < |s| && s[k] == x
    ensures |Cut(s, k)| == |s| - 1 && multiset(s) == multiset(Cut(s, k)) + multiset{x}
  {
    k :| 0 <= k < |s| && s[k] == x;
    CutOne(s, k);
  }

  lemma CutChanges(m: Manifest, requests: seq<Request>, k: nat)
    requires k < |requests| && forall i :: 0 <= i < |requests| ==> Fits(m, requests[i])
    ensures var rest := Cut(requests, k);
            && (forall i :: 0 <= i < |rest| ==> Fits(m, rest[i]))
            && multiset(ChangesFor(m, requests)) == multiset(ChangesFor(m, rest)) + multiset{ChangeFor(m, requests[k])}
  {
    hide Fits, ChangeFor, Cut;
    var rest, changes := Cut(requests, k), ChangesFor(m, requests);
    CutOne(requests, k);
    CutOne(changes, k);
    forall i | 0 <= i < |rest| ensures Fits(m, rest[i]) && ChangeFor(m, rest[i]) == Cut(changes, k)[i] {
      CutAt(requests, k, i);
      CutAt(changes, k, i);
    }
    assert ChangesFor(m, rest) == Cut(changes, k);
  }

  lemma {:induction false} SameChanges(m: Manifest, a: seq<Request>, b: seq<Request>)
    requires multiset(a) == multiset(b)
    requires (forall i :: 0 <= i < |a| ==> Fits(m, a[i])) && forall i :: 0 <= i < |b| ==> Fits(m, b[i])
    ensures multiset(ChangesFor(m, a)) == multiset(ChangesFor(m, b))
    decreases |a|
  {
    hide Fits, ChangeFor, ChangesFor, Cut;
    if a == [] {
      assert |b| == |multiset(b)| == 0;
    } else {
      assert a[0] in multiset(a);
      var k := MemberOf(b, a[0]);
      CutOne(a, 0);
      SameRest(a, b, 0, k);
      CutChanges(m, a, 0);
      CutChanges(m, b, k);
      SameChanges(m, Cut(a, 0), Cut(b, k));
    }
  }

  lemma SameRequests(m: Manifest, a: seq<Request>, b: seq<Request>)
    requires multiset(a) == multiset(b) && Accepted(m, a)
    ensures Accepted(m, b)
  {
    hide Fits;
    forall i | 0 <= i < |b| ensures Fits(m, b[i]) {
      assert b[i] in multiset(a);
      var k := MemberOf(a, b[i]);
    }
    forall i, j | 0 <= i < j < |b| ensures !SameField(b[i], b[j]) {
      if SameField(b[i], b[j]) {
        TwoOf(m, a, b, i, j);
      }
    }
  }

  lemma TwoOf(m: Manifest, a: seq<Request>, b: seq<Request>, i: nat, j: nat)
    requires multiset(a) == multiset(b) && i < j < |b| && SameField(b[i], b[j])
    ensures !Accepted(m, a)
  {
    hide Fits, Cut;
    assert b[j] in multiset(b);
    var k := MemberOf(a, b[j]);
    var rest := Cut(a, k);
    CutOne(b, j);
    CutAt(b, j, i);
    SameRest(a, b, k, j);
    assert Cut(b, j)[i] in Cut(b, j);
    assert b[i] in multiset(Cut(b, j));
    var l := MemberOf(rest, b[i]);
    CutOne(a, k);
    CutAt(a, k, l);
    assert a[if l < k then l else l + 1] == b[i];
  }

  lemma SameRest(a: seq<Request>, b: seq<Request>, k: nat, l: nat)
    requires multiset(a) == multiset(b) && k < |a| && l < |b| && a[k] == b[l]
    ensures multiset(Cut(a, k)) == multiset(Cut(b, l))
  {
    hide Cut;
    CutOne(a, k);
    CutOne(b, l);
    assert multiset(Cut(a, k)) == multiset(a) - multiset{a[k]};
    assert multiset(Cut(b, l)) == multiset(b) - multiset{b[l]};
  }

  /**
   Requests for separate fields are accepted, and then succeed, in one order exactly when they do in any other; and they
   leave the same value at every path.
   */
  lemma RequestOrderDoesNotMatter(m: Manifest, node: Node, a: seq<Request>, b: seq<Request>, q: Path)
    requires node.Mapping? && UniqueKeys(node) && ValidManifest(m) && Separate(m)
    requires ValidRequests(a) && ValidRequests(b) && multiset(a) == multiset(b)
    ensures Previewed(m, node, a).Some? <==> Previewed(m, node, b).Some?
    ensures Previewed(m, node, a).Some? ==>
              Alike(Leaf(Previewed(m, node, a).value, q), Leaf(Previewed(m, node, b).value, q))
  {
    hide UniqueKeys, Accepted, Separate, ApplyAll, Leaf, Alike, ValidChanges, AllDiverge, ValidRequests, ValidManifest;
    if Accepted(m, a) {
      SameRequests(m, a, b);
      ChangesAreValid(m, a);
      ChangesAreValid(m, b);
      AcceptedDiverge(m, a);
      AcceptedDiverge(m, b);
      assert Accepted(m, a) && Accepted(m, b);
      FitsOf(m, a);
      FitsOf(m, b);
      SameChanges(m, a, b);
      OrderDoesNotMatter(node, ChangesFor(m, a), ChangesFor(m, b), q);
    } else if Accepted(m, b) {
      SameRequests(m, b, a);
    }
  }

  lemma FitsOf(m: Manifest, requests: seq<Request>)
    requires Accepted(m, requests)
    ensures forall i :: 0 <= i < |requests| ==> Fits(m, requests[i])
  {
  }
}
