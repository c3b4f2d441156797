/** Edits in file order always merge and splice; in any other order that the sort may leave, they never merge. */
module DotenvOrder {
  import opened ByteStrings
  import opened DotenvSyntax
  import opened DotenvEdit
  import opened DotenvSplice
  import opened DotenvApply

  /** Neighbours overlap only when both are removals, and no edit ends in front of an earlier one. */
  predicate Flush(edits: seq<Edit>) {
    forall i :: 0 <= i < |edits| - 1 ==> Abut(edits[i], edits[i + 1])
  }

  predicate Abut(a: Edit, b: Edit) {
    && a.end <= b.end
    && (a.end <= b.start || (a.replacement == [] && b.replacement == []))
  }

  predicate Disjoint(edits: seq<Edit>) {
    forall i :: 0 <= i < |edits| - 1 ==> edits[i].end <= edits[i + 1].start
  }

  lemma FlushCons(a: Edit, rest: seq<Edit>)
    requires Flush(rest) && (rest != [] ==> Abut(a, rest[0]))
    ensures Flush([a] + rest)
  {
    var edits := [a] + rest;
    forall i | 0 <= i < |edits| - 1 ensures Abut(edits[i], edits[i + 1]) {
      if i > 0 {
        assert edits[i] == rest[i - 1] && edits[i + 1] == rest[(i - 1) + 1];
      }
    }
  }

  lemma FlushTail(edits: seq<Edit>)
    requires edits != [] && Flush(edits)
    ensures Flush(edits[1..])
  {
    var rest := edits[1..];
    forall i | 0 <= i < |rest| - 1 ensures Abut(rest[i], rest[i + 1]) {
      assert rest[i] == edits[i + 1] && rest[i + 1] == edits[(i + 1) + 1];
    }
  }

  lemma {:induction false} FlushMerges(edits: seq<Edit>)
    requires Flush(edits)
    ensures MergeEdits(edits).Some?
    decreases |edits|
  {
    if |edits| >= 2 {
      var a, b := edits[0], edits[1];
      assert b == edits[0 + 1];
      FlushTail(edits);
      if b.start < a.end {
        FlushTail(edits[1..]);
        assert edits[1..][1..] == edits[2..];
        var m := Edit(a.start, Max(a.end, b.end), []);
        assert |edits| > 2 ==> Abut(edits[1], edits[1 + 1]) && edits[2..][0] == edits[2];
        FlushCons(m, edits[2..]);
        FlushMerges([m] + edits[2..]);
      } else {
        FlushMerges(edits[1..]);
      }
    }
  }

  lemma {:induction false} MergeDisjoint(raw: Bytes, edits: seq<Edit>)
    requires Bounded(raw, edits) && MergeEdits(edits).Some?
    ensures var m := MergeEdits(edits).value;
            && Disjoint(m) && Bounded(raw, m) && (m == [] <==> edits == [])
            && (m != [] ==> m[0].start == edits[0].start)
    decreases |edits|
  {
    if |edits| >= 2 {
      var a, b := edits[0], edits[1];
      if b.start < a.end {
        MergeDisjoint(raw, [Edit(a.start, Max(a.end, b.end), [])] + edits[2..]);
      } else {
        MergeDisjoint(raw, edits[1..]);
        var m := MergeEdits(edits[1..]).value;
        forall i | 0 <= i < |[a] + m| - 1 ensures ([a] + m)[i].end <= ([a] + m)[i + 1].start {
          if i > 0 {
            assert m[i - 1].end <= m[(i - 1) + 1].start;
          }
        }
      }
    }
  }

  lemma {:induction false} DisjointSplices(raw: Bytes, last: nat, edits: seq<Edit>)
    requires last <= |raw| && Bounded(raw, edits) && Disjoint(edits) && (edits != [] ==> last <= edits[0].start)
    ensures Splice(raw, last, edits).Some?
    decreases |edits|
  {
    if edits != [] {
      var rest := edits[1..];
      assert rest != [] ==> edits[0].end <= edits[0 + 1].start;
      forall i | 0 <= i < |rest| - 1 ensures rest[i].end <= rest[i + 1].start {
        assert edits[i + 1].end <= edits[(i + 1) + 1].start;
      }
      DisjointSplices(raw, edits[0].end, rest);
    }
  }

  // ---------- file order ----------

  /** All statements lie behind q. */
  predicate StatementsFrom(s: seq<Statement>, q: nat) {
    forall i :: 0 <= i < |s| ==> q <= s[i].start
  }

  lemma {:induction false} ScanStarts(raw: Bytes, q: nat, seen: set<Bytes>, allowed: set<Bytes>)
    requires q <= |raw| && Scan(raw[q..], q, seen, allowed).Ok?
    ensures StatementsFrom(Scan(raw[q..], q, seen, allowed).value, q)
    decreases |raw| - q
  {
    hide NextUnit;
    var d := raw[q..];
    match NextUnit(d)
    case Blank =>
    case Comment(n) =>
      assert d[n..] == raw[q + n..];
      ScanStarts(raw, q + n, seen, allowed);
    case Entry(key, _, _, _, n, _) =>
      assert d[n..] == raw[q + n..];
      ScanStarts(raw, q + n, seen + {key}, allowed);
    case Malformed =>
    case MalformedValue(_) =>
  }

  lemma {:induction false} FirstEditAbuts(raw: Bytes, s: Statement, op: Op, rest: seq<Statement>, ops: map<Bytes, Op>)
    requires Within(raw, s) && AllWithin(raw, rest) && StatementsFrom(rest, s.end)
    requires StartsFrom(EditsFor(raw, rest, ops), s.blockEnd)
    ensures EditsFor(raw, rest, ops) != [] ==> Abut(EditOf(raw, s, op), EditsFor(raw, rest, ops)[0])
    decreases |rest|
  {
    if rest != [] && rest[0].key !in ops {
      FirstEditAbuts(raw, s, op, rest[1..], ops);
    }
  }

  /** The edits of a scanned file are flush. */
  lemma {:induction false} EditsAreFlush(raw: Bytes, q: nat, seen: set<Bytes>, allowed: set<Bytes>, ops: map<Bytes, Op>)
    requires q <= |raw| && Scan(raw[q..], q, seen, allowed).Ok?
    ensures AllWithin(raw, Scan(raw[q..], q, seen, allowed).value)
    ensures Flush(EditsFor(raw, Scan(raw[q..], q, seen, allowed).value, ops))
    decreases |raw| - q
  {
    hide NextUnit, EditsFor, AtStatement, BlockStop, Flush, BreakLength, StatementsFrom, StartsFrom;
    ScanWithin(raw, q, seen, allowed);
    var d := raw[q..];
    match NextUnit(d)
    case Blank => NoEdits(raw, ops); FlushNone();
    case Comment(n) =>
      assert d[n..] == raw[q + n..];
      EditsAreFlush(raw, q + n, seen, allowed, ops);
    case Entry(_, _, _, _, _, _) =>
      var s, rest := ScanAtStatement(raw, q, seen, allowed);
      hide Scan;
      AtStatementPlaces(raw, q, seen, allowed, s, rest);
      AtStatementScan(raw, q, seen, allowed, s, rest);
      EditsAreFlush(raw, s.blockEnd, seen + {s.key}, allowed, ops);
      EditsForCons(raw, s, rest, ops);
      if s.key in ops {
        EditsBehind(raw, s.blockEnd, seen + {s.key}, allowed, ops);
        StartsBehindStatement(raw, s, rest, seen + {s.key}, allowed);
        FirstEditAbuts(raw, s, ops[s.key], rest, ops);
        FlushCons(EditOf(raw, s, ops[s.key]), EditsFor(raw, rest, ops));
      } else {
        assert [] + EditsFor(raw, rest, ops) == EditsFor(raw, rest, ops);
      }
    case Malformed =>
    case MalformedValue(_) =>
  }

  lemma FlushNone()
    ensures Flush([])
  {
  }

  lemma StartsBehindStatement(raw: Bytes, s: Statement, rest: seq<Statement>, seen: set<Bytes>, allowed: set<Bytes>)
    requires s.blockEnd <= |raw| && s.end == s.blockEnd + BreakLength(raw[s.blockEnd..])
    requires Scan(raw[s.blockEnd..], s.blockEnd, seen, allowed) == Ok(rest)
    ensures StatementsFrom(rest, s.end)
  {
    hide Scan, BreakLength, StatementsFrom;
    var d := raw[s.blockEnd..];
    ScanBehindBreak(d, s.blockEnd, seen, allowed);
    assert d[BreakLength(d)..] == raw[s.end..];
    ScanStarts(raw, s.end, seen, allowed);
  }

  /** No two edits start at one place. */
  predicate TieFree(edits: seq<Edit>) {
    forall i, j :: 0 <= i < j < |edits| ==> edits[i].start != edits[j].start
  }

  lemma FirstBefore(edits: seq<Edit>, j: nat)
    requires j < |edits| && Ordered(edits) && TieFree(edits)
    ensures j == 0 || edits[0].start < edits[j].start
  {
    assert j > 0 ==> Before(edits[0], edits[j]);
  }

  lemma {:induction false} TieFreeSort(sorted: seq<Edit>, edits: seq<Edit>)
    requires multiset(sorted) == multiset(edits) && Ordered(edits) && SortedByStart(sorted) && TieFree(edits)
    ensures sorted == edits
    decreases |edits|
  {
    assert |sorted| == |multiset(sorted)| == |multiset(edits)| == |edits|;
    if edits != [] {
      assert edits[0] in multiset(sorted) && sorted[0] in multiset(edits);
      var i :| 0 <= i < |sorted| && sorted[i] == edits[0];
      var j :| 0 <= j < |edits| && edits[j] == sorted[0];
      assert sorted[0].start <= sorted[i].start;
      FirstBefore(edits, j);
      MultisetTail(sorted, edits);
      TieFreeSort(sorted[1..], edits[1..]);
      assert sorted == [sorted[0]] + sorted[1..] && edits == [edits[0]] + edits[1..];
    }
  }

  /**
   Merging accepts what the sort made of the edits exactly when that is file order, and then splicing does not
   fail either and writes the bytes that no edit covers.
   */
  lemma MergeIffFileOrder(raw: Bytes, allowed: set<Bytes>, ops: map<Bytes, Op>, sorted: seq<Edit>)
    requires Scan(raw, 0, {}, allowed).Ok? && AllClosed(ops)
    requires AllWithin(raw, Scan(raw, 0, {}, allowed).value)
    requires multiset(sorted) == multiset(EditsFor(raw, Scan(raw, 0, {}, allowed).value, ops)) && SortedByStart(sorted)
    ensures var edits := EditsFor(raw, Scan(raw, 0, {}, allowed).value, ops);
            && (MergeEdits(sorted).Some? <==> sorted == edits)
            && (sorted == edits ==> Splice(raw, 0, MergeEdits(sorted).value) == Some(Cover(raw, 0, edits)))
            && (TieFree(edits) ==> sorted == edits)
  {
    hide Scan, EditsFor, MergeEdits, Splice, Cover, Ordered, SortedByStart, TieFree, Bounded, Flush;
    var edits := EditsFor(raw, Scan(raw, 0, {}, allowed).value, ops);
    assert raw[0..] == raw;
    EditsInOrder(raw, 0, {}, allowed, ops);
    if TieFree(edits) {
      TieFreeSort(sorted, edits);
    }
    if MergeEdits(sorted).Some? {
      MergeCompatible(sorted);
      SortIsFileOrder(raw, sorted, edits);
    }
    if sorted == edits {
      EditsAreFlush(raw, 0, {}, allowed, ops);
      FlushMerges(edits);
      MergeDisjoint(raw, edits);
      DisjointSplices(raw, 0, MergeEdits(edits).value);
      MergeCover(raw, 0, edits);
    }
  }
}
