/** The order of edits, their merging and splicing, and the lines that are appended. */
module DotenvApply {
  import opened ByteStrings
  import opened DotenvSyntax
  import opened DotenvLocality
  import opened DotenvEdit
  import opened DotenvSplice

  // ---------- merging and splicing ----------

  /** Adjacent edits that overlap are merged when both are removals; otherwise the change is refused. */
  function MergeEdits(edits: seq<Edit>): Option<seq<Edit>>
    decreases |edits|
  {
    if |edits| <= 1 then Some(edits)
    else
      var a, b := edits[0], edits[1];
      if b.start < a.end then
        if a.replacement != [] || b.replacement != [] then None
        else MergeEdits([Edit(a.start, Max(a.end, b.end), [])] + edits[2..])
      else
        var rest := MergeEdits(edits[1..]);
        if rest.None? then None else Some([a] + rest.value)
  }

  /** Splicing, refused when an edit starts inside what has been written or lies out of bounds. */
  function Splice(raw: Bytes, last: nat, edits: seq<Edit>): Option<Bytes>
    requires last <= |raw|
    decreases |edits|
  {
    if edits == [] then Some(raw[last..])
    else
      var e := edits[0];
      if e.start < last || e.end < e.start || e.end > |raw| then None
      else
        var rest := Splice(raw, e.end, edits[1..]);
        if rest.None? then None else Some(raw[last..e.start] + e.replacement + rest.value)
  }

  predicate SortedByStart(edits: seq<Edit>) {
    forall i, j :: 0 <= i < j < |edits| ==> edits[i].start <= edits[j].start
  }

  lemma CoverMerge(raw: Bytes, last: nat, a: Edit, b: Edit, rest: seq<Edit>)
    requires last <= |raw| && Bounded(raw, [a, b] + rest)
    requires a.start <= b.start < a.end && a.replacement == [] && b.replacement == []
    ensures Bounded(raw, [Edit(a.start, Max(a.end, b.end), [])] + rest)
    ensures Cover(raw, last, [a, b] + rest) == Cover(raw, last, [Edit(a.start, Max(a.end, b.end), [])] + rest)
  {
    var m := Edit(a.start, Max(a.end, b.end), []);
    var edits := [a, b] + rest;
    assert edits[0] == a && edits[1] == b && edits[1..] == [b] + rest && edits[2..] == rest;
    assert forall i :: 0 <= i < |rest| ==> rest[i] == edits[i + 2];
    var x := Max(last, a.end);
    CoverGap(raw, x, b, rest);
    CoverGap(raw, last, a, [b] + rest);
    CoverGap(raw, last, m, rest);
    hide Cover;
    assert [a] + ([b] + rest) == edits;
    var tail := Cover(raw, Max(x, b.end), rest);
    assert Max(last, m.end) == Max(x, b.end) && Max(x, b.start) == x;
    assert raw[x..x] + tail == tail;
  }

  lemma CoverGap(raw: Bytes, last: nat, a: Edit, rest: seq<Edit>)
    requires last <= |raw| && a.start <= a.end <= |raw| && Bounded(raw, rest) && a.replacement == []
    ensures Bounded(raw, [a] + rest)
    ensures Cover(raw, last, [a] + rest) == raw[last..Max(last, a.start)] + Cover(raw, Max(last, a.end), rest)
  {
    var edits := [a] + rest;
    assert edits[1..] == rest;
    assert forall i :: 0 <= i < |edits| ==> edits[i] == if i == 0 then a else rest[i - 1];
    assert raw[last..Max(last, a.start)] + [] == raw[last..Max(last, a.start)];
  }

  lemma {:induction false} MergeCover(raw: Bytes, last: nat, edits: seq<Edit>)
    requires last <= |raw| && Bounded(raw, edits) && SortedByStart(edits)
    requires MergeEdits(edits).Some? && Splice(raw, last, MergeEdits(edits).value).Some?
    ensures Splice(raw, last, MergeEdits(edits).value) == Some(Cover(raw, last, edits))
    decreases |edits|
  {
    if |edits| >= 2 {
      var a, b, rest := edits[0], edits[1], edits[2..];
      assert edits == [a, b] + rest;
      if b.start < a.end {
        CoverMerge(raw, last, a, b, rest);
        MergedSorted(a, b, rest);
        MergeCover(raw, last, [Edit(a.start, Max(a.end, b.end), [])] + rest);
      } else {
        assert edits[1..] == [b] + rest;
        SpliceCons(raw, last, a, MergeEdits(edits[1..]).value);
        MergeCover(raw, a.end, edits[1..]);
        CoverFirst(raw, last, edits);
      }
    } else if |edits| == 1 {
      CoverFirst(raw, last, edits);
      EmptySplice(raw, edits[0].end, edits[1..]);
    }
  }

  lemma MergedSorted(a: Edit, b: Edit, rest: seq<Edit>)
    requires SortedByStart([a, b] + rest)
    ensures SortedByStart([Edit(a.start, Max(a.end, b.end), [])] + rest)
  {
    var x, y := [a, b] + rest, [Edit(a.start, Max(a.end, b.end), [])] + rest;
    forall i, j | 0 <= i < j < |y| ensures y[i].start <= y[j].start {
      assert y[j] == x[j + 1];
      assert y[i].start == x[if i == 0 then 0 else i + 1].start;
    }
  }

  lemma SpliceCons(raw: Bytes, last: nat, a: Edit, rest: seq<Edit>)
    requires last <= |raw| && Splice(raw, last, [a] + rest).Some?
    ensures last <= a.start <= a.end <= |raw| && Splice(raw, a.end, rest).Some?
    ensures Splice(raw, last, [a] + rest).value == raw[last..a.start] + a.replacement + Splice(raw, a.end, rest).value
  {
    assert ([a] + rest)[1..] == rest;
  }

  lemma EmptySplice(raw: Bytes, last: nat, rest: seq<Edit>)
    requires rest == [] && last <= |raw|
    ensures Splice(raw, last, rest) == Some(raw[last..]) && Cover(raw, last, rest) == raw[last..]
  {
  }

  // ---------- the order of edits ----------

  /** File order: by start, an insertion in front of what it touches. */
  predicate Before(a: Edit, b: Edit) {
    a.start < b.start || (a.start == b.start && a.end < b.end && a.replacement != [])
  }

  predicate Ordered(edits: seq<Edit>) {
    forall i, j :: 0 <= i < j < |edits| ==> Before(edits[i], edits[j])
  }

  lemma {:induction false} EditsInOrder(raw: Bytes, q: nat, seen: set<Bytes>, allowed: set<Bytes>, ops: map<Bytes, Op>)
    requires q <= |raw| && Scan(raw[q..], q, seen, allowed).Ok? && AllClosed(ops)
    ensures AllWithin(raw, Scan(raw[q..], q, seen, allowed).value)
    ensures Ordered(EditsFor(raw, Scan(raw[q..], q, seen, allowed).value, ops))
    decreases |raw| - q
  {
    hide NextUnit, EditsFor, AtStatement, BlockStop, Closed, PrecedingSeparator;
    ScanWithin(raw, q, seen, allowed);
    var d := raw[q..];
    match NextUnit(d)
    case Blank => NoEdits(raw, ops);
    case Comment(n) =>
      assert d[n..] == raw[q + n..];
      EditsInOrder(raw, q + n, seen, allowed, ops);
    case Entry(_, _, _, _, _, _) =>
      var s, rest := ScanAtStatement(raw, q, seen, allowed);
      AtStatementPlaces(raw, q, seen, allowed, s, rest);
      AtStatementScan(raw, q, seen, allowed, s, rest);
      EditsInOrder(raw, s.blockEnd, seen + {s.key}, allowed, ops);
      EditsBehind(raw, s.blockEnd, seen + {s.key}, allowed, ops);
      EditsForCons(raw, s, rest, ops);
      if s.key in ops {
        FirstInOrder(raw, s, ops[s.key], EditsFor(raw, rest, ops));
      } else {
        assert [] + EditsFor(raw, rest, ops) == EditsFor(raw, rest, ops);
      }
    case Malformed =>
    case MalformedValue(_) =>
  }

  lemma AtStatementScan(raw: Bytes, q: nat, seen: set<Bytes>, allowed: set<Bytes>, s: Statement, rest: seq<Statement>)
    requires AtStatement(raw, q, seen, allowed, s, rest)
    ensures s.blockEnd <= |raw| && Scan(raw[s.blockEnd..], s.blockEnd, seen + {s.key}, allowed) == Ok(rest)
  {
  }

  lemma FirstInOrder(raw: Bytes, s: Statement, op: Op, edits: seq<Edit>)
    requires Within(raw, s) && (op.Replace? ==> Closed(op.encoded))
    requires Ordered(edits) && StartsFrom(edits, s.blockEnd)
    ensures Ordered([EditOf(raw, s, op)] + edits)
  {
  }

  /** What a successful merge implies for neighbours. */
  predicate Compatible(edits: seq<Edit>) {
    forall i :: 0 <= i < |edits| - 1 ==>
      edits[i + 1].start >= edits[i].end || (edits[i].replacement == [] && edits[i + 1].replacement == [])
  }

  lemma {:induction false} MergeCompatible(edits: seq<Edit>)
    requires MergeEdits(edits).Some?
    ensures Compatible(edits)
    decreases |edits|
  {
    if |edits| >= 2 {
      var a, b := edits[0], edits[1];
      if b.start < a.end {
        var m := [Edit(a.start, Max(a.end, b.end), [])] + edits[2..];
        MergeCompatible(m);
        forall i | 1 <= i < |edits| - 1
          ensures edits[i + 1].start >= edits[i].end || (edits[i].replacement == [] && edits[i + 1].replacement == [])
        {
          assert m[i] == edits[i + 1];
          assert i > 1 ==> m[i - 1] == edits[i];
          assert m[(i - 1) + 1].start >= m[i - 1].end || (m[i - 1].replacement == [] && m[(i - 1) + 1].replacement == []);
        }
      } else {
        var t := edits[1..];
        MergeCompatible(t);
        forall i | 1 <= i < |edits| - 1
          ensures edits[i + 1].start >= edits[i].end || (edits[i].replacement == [] && edits[i + 1].replacement == [])
        {
          assert t[i - 1] == edits[i] && t[(i - 1) + 1] == edits[i + 1];
        }
      }
    }
  }

  lemma CompatibleTail(s: seq<Edit>)
    requires s != [] && Compatible(s)
    ensures Compatible(s[1..])
  {
    var t := s[1..];
    forall i | 0 <= i < |t| - 1
      ensures t[i + 1].start >= t[i].end || (t[i].replacement == [] && t[i + 1].replacement == [])
    {
      assert t[i] == s[i + 1] && t[i + 1] == s[(i + 1) + 1];
    }
  }

  lemma OrderTail(raw: Bytes, sorted: seq<Edit>, edits: seq<Edit>)
    requires sorted != [] && edits != [] && SortedByStart(sorted) && Ordered(edits) && Bounded(raw, edits)
    ensures SortedByStart(sorted[1..]) && Ordered(edits[1..]) && Bounded(raw, edits[1..])
  {
  }

  lemma MultisetTail(sorted: seq<Edit>, edits: seq<Edit>)
    requires sorted != [] && edits != [] && multiset(sorted) == multiset(edits) && sorted[0] == edits[0]
    ensures multiset(sorted[1..]) == multiset(edits[1..])
  {
    assert sorted == [sorted[0]] + sorted[1..] && edits == [edits[0]] + edits[1..];
    assert multiset(sorted[1..]) == multiset(sorted) - multiset{sorted[0]};
  }

  lemma FirstIsFirst(raw: Bytes, sorted: seq<Edit>, edits: seq<Edit>)
    requires multiset(sorted) == multiset(edits) && Ordered(edits) && Bounded(raw, edits) && edits != []
    requires SortedByStart(sorted) && Compatible(sorted)
    ensures sorted != [] && sorted[0] == edits[0]
  {
    hide Compatible, SortedByStart;
    assert edits[0] in multiset(sorted);
    NeighboursInOrder(raw, sorted, edits);
    FirstIsLeast(sorted, edits[0]);
    assert sorted[0] in multiset(edits);
    var i :| 0 <= i < |edits| && edits[i] == sorted[0];
    assert i > 0 ==> Before(edits[0], edits[i]);
  }

  /**
   The sort leaves the order of edits with one start open. When merging succeeds, though, only file order can
   have come out of it.
   */
  lemma {:induction false} SortIsFileOrder(raw: Bytes, sorted: seq<Edit>, edits: seq<Edit>)
    requires multiset(sorted) == multiset(edits) && Ordered(edits) && Bounded(raw, edits)
    requires SortedByStart(sorted) && Compatible(sorted)
    ensures sorted == edits
    decreases |edits|
  {
    hide Compatible, SortedByStart, Ordered, Bounded;
    assert |sorted| == |multiset(sorted)| == |multiset(edits)| == |edits|;
    if edits != [] {
      FirstIsFirst(raw, sorted, edits);
      MultisetTail(sorted, edits);
      OrderTail(raw, sorted, edits);
      CompatibleTail(sorted);
      SortIsFileOrder(raw, sorted[1..], edits[1..]);
      assert sorted == [sorted[0]] + sorted[1..] && edits == [edits[0]] + edits[1..];
    }
  }

  predicate Chained(s: seq<Edit>) {
    forall i :: 0 <= i < |s| - 1 ==> s[i] == s[i + 1] || Before(s[i], s[i + 1])
  }

  lemma NeighboursInOrder(raw: Bytes, sorted: seq<Edit>, edits: seq<Edit>)
    requires multiset(sorted) == multiset(edits) && Ordered(edits) && Bounded(raw, edits)
    requires SortedByStart(sorted) && Compatible(sorted)
    ensures Chained(sorted)
  {
    forall i | 0 <= i < |sorted| - 1 ensures sorted[i] == sorted[i + 1] || Before(sorted[i], sorted[i + 1]) {
      var a, b := sorted[i], sorted[i + 1];
      assert a in multiset(edits) && b in multiset(edits);
      var j :| 0 <= j < |edits| && edits[j] == a;
      var k :| 0 <= k < |edits| && edits[k] == b;
      assert a.start <= b.start;
    }
  }

  lemma {:induction false} FirstIsLeast(s: seq<Edit>, x: Edit)
    requires Chained(s) && x in s
    ensures s[0] == x || Before(s[0], x)
    decreases |s|
  {
    if x != s[0] {
      var t := s[1..];
      forall i | 0 <= i < |t| - 1 ensures t[i] == t[i + 1] || Before(t[i], t[i + 1]) {
        assert t[i] == s[i + 1] && t[i + 1] == s[(i + 1) + 1];
      }
      FirstIsLeast(t, x);
      assert s[0] == s[0 + 1] || Before(s[0], s[0 + 1]);
    }
  }

  // ---------- appended lines ----------

  predicate IsNewline(n: Bytes) { n == [LF] || n == [CR] || n == [CR, LF] }

  /** One line for each new key. */
  function NewText(keys: seq<Bytes>, values: map<Bytes, Bytes>, newline: Bytes, final: bool): Bytes
    requires forall k :: k in keys ==> k in values
  {
    if keys == [] then []
    else
      keys[0] + [EQUALS] + values[keys[0]] + (if |keys| > 1 || final then newline else [])
      + NewText(keys[1..], values, newline, final)
  }

  function NewItems(keys: seq<Bytes>, values: map<Bytes, Bytes>): seq<Item>
    requires forall k :: k in keys ==> k in values
  {
    if keys == [] then [] else [Item(keys[0], values[keys[0]], false)] + NewItems(keys[1..], values)
  }

  /** The edited text, with the new keys behind it. */
  function Candidate(body: Bytes, keys: seq<Bytes>, values: map<Bytes, Bytes>, newline: Bytes, final: bool): Bytes
    requires forall k :: k in keys ==> k in values
  {
    if keys == [] then body
    else body + (if body != [] && !FinalBreak(body) then newline else []) + NewText(keys, values, newline, final)
  }

  lemma NoSpaceAtEnds(key: Bytes, n: nat)
    requires ValidKey(key)
    ensures !StartsWithSpace(key, n) && !EndsWithSpace(key, n)
  {
    if 0 < n <= |key| {
      var first, last := key[..n], key[|key| - n..];
      assert IsUpper(key[0]) || key[0] == 95;
      assert first[0] == key[0];
      assert last[n - 1] == key[|key| - 1];
      assert last[n - 1] < 0x80;
    }
  }

  lemma TrimKeeps(key: Bytes)
    requires ValidKey(key)
    ensures Trim(key) == key
  {
    NoSpaceAtEnds(key, 1);
    NoSpaceAtEnds(key, 2);
    NoSpaceAtEnds(key, 3);
    hide StartsWithSpace, EndsWithSpace, ValidKey;
  }

  lemma NewLineKey(key: Bytes, e: Bytes)
    requires ValidKey(key)
    ensures var t := key + [EQUALS] + e; KeyLength(t) == |key| && t[..|key|] == key && t[|key| + 1..] == e
    ensures var t := key + [EQUALS] + e; !IsSpace(t[0]) && t[0] != HASH && KeyStart(t) == 0 && SpaceLength(t) == 0
  {
    var t := key + [EQUALS] + e;
    assert t[0] == key[0];
    assert EXPORT[0] == 101;
    SpaceLengthIs(t, 0);
    forall i | 0 <= i < |key| ensures !IsSeparator(t[i]) && !IsBreak(t[i]) {
      assert t[i] == key[i];
    }
    KeyLengthIs(t, |key|);
  }

  /** A new line reads back as its key and its encoded value. */
  lemma NewLineHead(key: Bytes, e: Bytes)
    requires ValidKey(key) && Closed(e)
    ensures ReadHead(key + [EQUALS] + e) == Head(key, |key| + 1)
    ensures SpaceLength(key + [EQUALS] + e) == 0 && (key + [EQUALS] + e)[0] != HASH
  {
    hide Trim, KeyLength, KeyStart, SpaceLength, HorizontalLength;
    var t := key + [EQUALS] + e;
    NewLineKey(key, e);
    assert t[0..] == t;
    TrimKeeps(key);
    assert !IsHorizontal(e[0]) by { hide HasExpansion, CloseAt; }
    HorizontalLengthIs(e, 0);
    assert ReadKey(t) == Head(key, |key| + 1) by { hide Closed; }
  }

  lemma NewLineItems(key: Bytes, e: Bytes)
    requires ValidKey(key) && Closed(e)
    ensures Items(key + [EQUALS] + e) == Some([Item(key, e, false)])
  {
    hide ReadHead, ReadValue, SpaceLength, LineStart, Closed, ValidKey;
    var t := key + [EQUALS] + e;
    NewLineHead(key, e);
    assert t[0..] == t;
    assert t[|key| + 1..] == e;
    EmptyTrailer();
    ClosedReads(e, []);
    assert e + [] == e;
    assert t[|t|..] == [];
    EmptyIsBlank();
    assert t[|key| + 1..|t|] == e;
    assert [Item(key, e, false)] + [] == [Item(key, e, false)];
  }

  lemma {:induction false} NewTextItems(keys: seq<Bytes>, values: map<Bytes, Bytes>, newline: Bytes, final: bool)
    requires forall k :: k in keys ==> k in values && ValidKey(k) && Closed(values[k])
    requires IsNewline(newline)
    ensures Items(NewText(keys, values, newline, final)) == Some(NewItems(keys, values))
    ensures keys != [] ==> NewText(keys, values, newline, final) != []
  {
    if keys == [] {
      EmptyIsBlank();
    } else {
      hide Items, Closed, ValidKey;
      var key := keys[0];
      var rest := NewText(keys[1..], values, newline, final);
      var line, sep := key + [EQUALS] + values[key], if |keys| > 1 || final then newline else [];
      NewTextItems(keys[1..], values, newline, final);
      NewLineItems(key, values[key]);
      BreakItems(sep);
      ItemsConcat(line, sep);
      assert |keys| == 1 ==> rest == [];
      ItemsConcat(line + sep, rest);
      assert [Item(key, values[key], false)] + [] == [Item(key, values[key], false)];
    }
  }

  lemma BreakItems(sep: Bytes)
    requires sep == [] || IsNewline(sep)
    ensures Items(sep) == Some([]) && Follows(sep)
  {
    SpaceLengthIs(sep, |sep|);
    hide NextUnit;
    ItemsOfSpace(sep, []);
  }

  /** What the candidate says. */
  lemma CandidateItems(body: Bytes, items: seq<Item>, keys: seq<Bytes>, values: map<Bytes, Bytes>, newline: Bytes,
                       final: bool)
    requires Items(body) == Some(items)
    requires forall k :: k in keys ==> k in values && ValidKey(k) && Closed(values[k])
    requires IsNewline(newline)
    ensures Items(Candidate(body, keys, values, newline, final)) == Some(items + NewItems(keys, values))
  {
    hide Items, NewText, Closed, ValidKey;
    if keys == [] {
      assert items + [] == items;
    } else {
      var sep := if body != [] && !FinalBreak(body) then newline else [];
      NewTextItems(keys, values, newline, final);
      BreakItems(sep);
      ItemsConcat(body, sep);
      assert items + [] == items;
      ItemsConcat(body + sep, NewText(keys, values, newline, final));
    }
  }
}
