/** Logical fields: their selectors, and the native paths these stand for. */
module YamlSelectors {
  import opened ByteStrings
  import opened YamlTree
  import opened YamlEdits

  /** A literal key, or a place for a bound value. */
  datatype Segment = KeySegment(key: Key) | BindingSegment(binding: Bytes)

  predicate IsAlphanumeric(b: Byte) { 48 <= b <= 57 || 65 <= b <= 90 || 97 <= b <= 122 }

  predicate ValidBindingValue(v: Bytes) {
    && 0 < |v| <= 64 && IsAlphanumeric(v[0])
    && forall i :: 0 <= i < |v| ==> IsAlphanumeric(v[i]) || v[i] == 46 || v[i] == 95 || v[i] == 64 || v[i] == 45
  }

  /** The bindings of a selector, in order. */
  function BindingsOf(selector: seq<Segment>): seq<Bytes> {
    if selector == [] then []
    else
      var last := selector[|selector| - 1];
      BindingsOf(selector[..|selector| - 1]) + if last.BindingSegment? then [last.binding] else []
  }

  predicate ValidSelector(selector: seq<Segment>) { 0 < |selector| <= 16 && AllDiffer(BindingsOf(selector)) }

  // ---------- matching ----------

  /** The segments and the keys agree, and give each binding its key. */
  function MatchUpTo(selector: seq<Segment>, path: Path, n: nat): Option<map<Bytes, Bytes>>
    requires n <= |selector| && n <= |path|
  {
    if n == 0 then Some(map[])
    else
      var before := MatchUpTo(selector, path, n - 1);
      if before.None? then None
      else if selector[n - 1].KeySegment? then if path[n - 1] == selector[n - 1].key then before else None
      else if !ValidBindingValue(path[n - 1]) then None
      else Some(before.value[selector[n - 1].binding := path[n - 1]])
  }

  function Matched(selector: seq<Segment>, path: Path): Option<map<Bytes, Bytes>> {
    if |path| != |selector| then None else MatchUpTo(selector, path, |selector|)
  }

  method Match(selector: seq<Segment>, path: Path) returns (r: Option<map<Bytes, Bytes>>)
    ensures r == Matched(selector, path)
  {
    hide ValidBindingValue;
    if |path| != |selector| {
      return None;
    }
    var bindings: map<Bytes, Bytes> := map[];
    for index := 0 to |selector|
      invariant MatchUpTo(selector, path, index) == Some(bindings)
    {
      var segment := selector[index];
      var failed := if segment.KeySegment? then path[index] != segment.key else !ValidBindingValue(path[index]);
      if failed {
        MatchFails(selector, path, index + 1);
        return None;
      }
      if segment.BindingSegment? {
        bindings := bindings[segment.binding := path[index]];
      }
    }
    return Some(bindings);
  }

  lemma {:induction false} MatchFails(selector: seq<Segment>, path: Path, n: nat)
    requires |path| == |selector| && n <= |selector| && MatchUpTo(selector, path, n).None?
    ensures Matched(selector, path).None?
    decreases |selector| - n
  {
    hide ValidBindingValue;
    if n < |selector| {
      MatchFails(selector, path, n + 1);
    }
  }

  // ---------- resolving ----------

  /** The path of given bindings; nothing when one is missing, invalid or not declared. */
  predicate Resolves(selector: seq<Segment>, bindings: map<Bytes, Bytes>) {
    && bindings.Keys == (set b | b in BindingsOf(selector))
    && forall b :: b in bindings ==> ValidBindingValue(bindings[b])
  }

  function PathOf(selector: seq<Segment>, bindings: map<Bytes, Bytes>): (p: Path)
    requires forall i :: 0 <= i < |selector| && selector[i].BindingSegment? ==> selector[i].binding in bindings
    ensures |p| == |selector|
  {
    seq(|selector|, i requires 0 <= i < |selector| =>
      if selector[i].KeySegment? then selector[i].key else bindings[selector[i].binding])
  }

  lemma {:induction false} BindingsHave(selector: seq<Segment>, b: Bytes)
    ensures b in BindingsOf(selector) <==> exists i :: 0 <= i < |selector| && selector[i] == BindingSegment(b)
  {
    if selector != [] {
      var init := selector[..|selector| - 1];
      BindingsHave(init, b);
      if b in BindingsOf(init) {
        var i :| 0 <= i < |init| && init[i] == BindingSegment(b);
        assert selector[i] == BindingSegment(b);
      }
      if i :| 0 <= i < |selector| && selector[i] == BindingSegment(b) {
        assert i < |init| ==> init[i] == BindingSegment(b);
      }
    }
  }

  lemma BindingsAreSegments(selector: seq<Segment>, bindings: map<Bytes, Bytes>)
    requires Resolves(selector, bindings)
    ensures forall i :: 0 <= i < |selector| && selector[i].BindingSegment? ==> selector[i].binding in bindings
  {
    forall i | 0 <= i < |selector| && selector[i].BindingSegment? ensures selector[i].binding in bindings {
      BindingsHave(selector, selector[i].binding);
      assert selector[i] == BindingSegment(selector[i].binding);
    }
  }

  method Resolve(selector: seq<Segment>, bindings: map<Bytes, Bytes>) returns (r: Option<Path>)
    requires ValidSelector(selector)
    ensures r.Some? <==> Resolves(selector, bindings)
    ensures r.Some? ==>
              (forall i :: 0 <= i < |selector| && selector[i].BindingSegment? ==> selector[i].binding in bindings)
              && r.value == PathOf(selector, bindings)
  {
    hide ValidBindingValue;
    var declared := BindingsOf(selector);
    if Resolves(selector, bindings) {
      BindingsAreSegments(selector, bindings);
      DistinctSize(declared, bindings.Keys);
      assert |bindings| == |bindings.Keys|;
    }
    if |bindings| != |declared| {
      return None;
    }
    var path: Path := [];
    for index := 0 to |selector|
      invariant |path| == index
      invariant forall i :: 0 <= i < index && selector[i].BindingSegment? ==>
        selector[i].binding in bindings && ValidBindingValue(bindings[selector[i].binding])
      invariant forall i :: 0 <= i < index ==>
        path[i] == if selector[i].KeySegment? then selector[i].key else bindings[selector[i].binding]
    {
      var segment := selector[index];
      if segment.KeySegment? {
        path := path + [segment.key];
      } else {
        if segment.binding !in bindings || !ValidBindingValue(bindings[segment.binding]) {
          return None;
        }
        path := path + [bindings[segment.binding]];
      }
    }
    if key :| key in bindings && key !in declared {
      return None;
    }
    forall b | b in declared ensures b in bindings {
      BindingsHave(selector, b);
    }
    forall b | b in bindings ensures ValidBindingValue(bindings[b]) {
      BindingsHave(selector, b);
    }
    assert path == PathOf(selector, bindings);
    return Some(path);
  }

  lemma {:induction false} DistinctSize(s: seq<Bytes>, all: set<Bytes>)
    requires AllDiffer(s) && all == set b | b in s
    ensures |all| == |s|
  {
    if s != [] {
      var n := |s| - 1;
      var init := s[..n];
      assert s[n] !in init;
      assert all - {s[n]} == set b | b in init by {
        assert forall b :: b in s <==> b == s[n] || b in init;
      }
      DistinctSize(init, all - {s[n]});
    }
  }

  // ---------- the two are inverse ----------

  lemma {:induction false} MatchResolved(selector: seq<Segment>, path: Path, n: nat, bindings: map<Bytes, Bytes>)
    requires n <= |selector| == |path|
    requires forall i :: 0 <= i < |selector| ==>
               if selector[i].KeySegment? then path[i] == selector[i].key
               else selector[i].binding in bindings && path[i] == bindings[selector[i].binding]
                    && ValidBindingValue(bindings[selector[i].binding])
    ensures MatchUpTo(selector, path, n).Some?
    ensures forall b :: b in MatchUpTo(selector, path, n).value ==>
              b in bindings && MatchUpTo(selector, path, n).value[b] == bindings[b]
    ensures forall i :: 0 <= i < n && selector[i].BindingSegment? ==> selector[i].binding in MatchUpTo(selector, path, n).value
  {
    hide ValidBindingValue;
    if n > 0 {
      MatchResolved(selector, path, n - 1, bindings);
    }
  }

  /** A resolved path matches, and gives the bindings back. */
  lemma ResolvedMatches(selector: seq<Segment>, bindings: map<Bytes, Bytes>)
    requires Resolves(selector, bindings)
    ensures forall i :: 0 <= i < |selector| && selector[i].BindingSegment? ==> selector[i].binding in bindings
    ensures Matched(selector, PathOf(selector, bindings)) == Some(bindings)
  {
    hide ValidBindingValue;
    BindingsAreSegments(selector, bindings);
    MatchResolved(selector, PathOf(selector, bindings), |selector|, bindings);
    forall b | b in bindings ensures b in Matched(selector, PathOf(selector, bindings)).value {
      assert b in BindingsOf(selector);
      BindingsHave(selector, b);
      var i :| 0 <= i < |selector| && selector[i] == BindingSegment(b);
      assert selector[i].binding == b;
    }
    assert Matched(selector, PathOf(selector, bindings)).value == bindings;
  }

  lemma LastIsNew(s: seq<Bytes>)
    requires s != [] && AllDiffer(s)
    ensures s[|s| - 1] !in s[..|s| - 1]
  {
  }

  lemma {:induction false} MatchReads(selector: seq<Segment>, path: Path, n: nat)
    requires n <= |selector| == |path| && MatchUpTo(selector, path, n).Some? && AllDiffer(BindingsOf(selector[..n]))
    ensures var m := MatchUpTo(selector, path, n).value;
            && m.Keys == (set b | b in BindingsOf(selector[..n]))
            && (forall b :: b in m ==> ValidBindingValue(m[b]))
            && forall i :: 0 <= i < n ==>
                 if selector[i].KeySegment? then path[i] == selector[i].key
                 else selector[i].binding in m && path[i] == m[selector[i].binding]
  {
    hide ValidBindingValue;
    if n > 0 {
      assert selector[..n][..n - 1] == selector[..n - 1];
      var before := BindingsOf(selector[..n - 1]);
      assert BindingsOf(selector[..n])[..|before|] == before;
      MatchReads(selector, path, n - 1);
      var m := MatchUpTo(selector, path, n - 1).value;
      if selector[n - 1].BindingSegment? {
        var all := BindingsOf(selector[..n]);
        assert all == before + [selector[n - 1].binding];
        LastIsNew(all);
        assert selector[n - 1].binding !in m;
      }
    }
  }

  /** A path that matches resolves from its bindings, and to itself. */
  lemma MatchedResolves(selector: seq<Segment>, path: Path)
    requires ValidSelector(selector) && Matched(selector, path).Some?
    ensures var m := Matched(selector, path).value;
            && Resolves(selector, m)
            && (forall i :: 0 <= i < |selector| && selector[i].BindingSegment? ==> selector[i].binding in m)
            && PathOf(selector, m) == path
  {
    hide ValidBindingValue;
    assert selector[..|selector|] == selector;
    MatchReads(selector, path, |selector|);
  }

  /** Different bindings of one field address paths that diverge. */
  lemma DifferentBindingsDiverge(selector: seq<Segment>, a: map<Bytes, Bytes>, b: map<Bytes, Bytes>)
    requires ValidSelector(selector) && Resolves(selector, a) && Resolves(selector, b) && a != b
    ensures forall i :: 0 <= i < |selector| && selector[i].BindingSegment? ==> selector[i].binding in a && selector[i].binding in b
    ensures Diverge(PathOf(selector, a), PathOf(selector, b))
  {
    hide ValidBindingValue;
    ResolvedMatches(selector, a);
    ResolvedMatches(selector, b);
    var p, q := PathOf(selector, a), PathOf(selector, b);
    assert p != q;
    DivergeOrPrefix(p, q);
  }

  /** Two selectors that name different keys at one place. */
  predicate NeverOverlap(s: seq<Segment>, t: seq<Segment>) {
    exists i :: 0 <= i < |s| && i < |t| && s[i].KeySegment? && t[i].KeySegment? && s[i].key != t[i].key
  }

  /** Fields with such selectors address paths that diverge, whatever their bindings. */
  lemma DifferentFieldsDiverge(s: seq<Segment>, t: seq<Segment>, a: map<Bytes, Bytes>, b: map<Bytes, Bytes>)
    requires NeverOverlap(s, t) && Resolves(s, a) && Resolves(t, b)
    ensures forall i :: 0 <= i < |s| && s[i].BindingSegment? ==> s[i].binding in a
    ensures forall i :: 0 <= i < |t| && t[i].BindingSegment? ==> t[i].binding in b
    ensures Diverge(PathOf(s, a), PathOf(t, b))
  {
    hide ValidBindingValue;
    BindingsAreSegments(s, a);
    BindingsAreSegments(t, b);
    var p, q := PathOf(s, a), PathOf(t, b);
    var i :| 0 <= i < |s| && i < |t| && s[i].KeySegment? && t[i].KeySegment? && s[i].key != t[i].key;
    assert p[i] != q[i];
    DivergeOrPrefix(p, q);
  }
}
