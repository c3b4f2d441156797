/** The one case in which Apply may refuse changes that it could carry out. */
module DotenvTrap {
  import opened ByteStrings
  import opened DotenvSyntax
  import opened DotenvLocality
  import opened DotenvEdit
  import opened DotenvSplice
  import opened DotenvApply
  import opened DotenvOrder

  /** Every statement starts behind p, and so does the line break in front of it. */
  predicate Behind(raw: Bytes, s: seq<Statement>, p: nat) {
    forall i :: 0 <= i < |s| ==> p < s[i].start <= |raw| && p <= PrecedingSeparator(raw, s[i].start)
  }

  lemma BehindCons(raw: Bytes, s: Statement, rest: seq<Statement>, p: nat, n: nat)
    requires p < s.start <= |raw| && p <= PrecedingSeparator(raw, s.start) && p <= n && Behind(raw, rest, n)
    ensures Behind(raw, [s] + rest, p)
  {
    hide PrecedingSeparator;
  }

  lemma BehindLess(raw: Bytes, s: seq<Statement>, p: nat, n: nat)
    requires p <= n && Behind(raw, s, n)
    ensures Behind(raw, s, p)
  {
  }

  lemma {:induction false} StatementsBehind(raw: Bytes, p: nat, seen: set<Bytes>, allowed: set<Bytes>)
    requires BlockStop(raw, p) && Scan(raw[p..], p, seen, allowed).Ok?
    ensures Behind(raw, Scan(raw[p..], p, seen, allowed).value, p)
    decreases |raw| - p
  {
    hide NextUnit, PrecedingSeparator, BlockStop, Follows, AtStatement, StatementOf;
    BlockStopBounds(raw, p);
    var d := raw[p..];
    match NextUnit(d)
    case Blank =>
    case Comment(n) =>
      UnitStops(raw, p);
      assert d[n..] == raw[p + n..];
      StatementsBehind(raw, p + n, seen, allowed);
      BehindLess(raw, Scan(raw[p + n..], p + n, seen, allowed).value, p, p + n);
    case Entry(_, _, _, _, _, _) =>
      var s, rest := ScanAtStatement(raw, p, seen, allowed);
      hide Scan, Behind;
      AtStatementPlaces(raw, p, seen, allowed, s, rest);
      AtStatementScan(raw, p, seen, allowed, s, rest);
      LineStartsBehind(raw, p);
      StatementsBehind(raw, s.blockEnd, seen + {s.key}, allowed);
      BehindCons(raw, s, rest, p, s.blockEnd);
    case Malformed =>
    case MalformedValue(_) =>
  }

  /** Each statement lies behind the block of every earlier one. */
  predicate Apart(raw: Bytes, s: seq<Statement>) {
    forall i, j :: 0 <= i < j < |s| ==>
      s[i].blockEnd < s[j].start <= |raw| && s[i].blockEnd <= PrecedingSeparator(raw, s[j].start)
  }

  lemma {:induction false} StatementsApart(raw: Bytes, q: nat, seen: set<Bytes>, allowed: set<Bytes>)
    requires q <= |raw| && Scan(raw[q..], q, seen, allowed).Ok?
    ensures Apart(raw, Scan(raw[q..], q, seen, allowed).value)
    decreases |raw| - q
  {
    hide NextUnit, AtStatement, PrecedingSeparator, BlockStop;
    var d := raw[q..];
    match NextUnit(d)
    case Blank =>
    case Comment(n) =>
      assert d[n..] == raw[q + n..];
      StatementsApart(raw, q + n, seen, allowed);
    case Entry(_, _, _, _, _, _) =>
      var s, rest := ScanAtStatement(raw, q, seen, allowed);
      hide Scan;
      AtStatementPlaces(raw, q, seen, allowed, s, rest);
      AtStatementScan(raw, q, seen, allowed, s, rest);
      StatementsApart(raw, s.blockEnd, seen + {s.key}, allowed);
      StatementsBehind(raw, s.blockEnd, seen + {s.key}, allowed);
    case Malformed =>
    case MalformedValue(_) =>
  }

  lemma {:induction false} EditsForHas(raw: Bytes, s: seq<Statement>, ops: map<Bytes, Op>, e: Edit)
    requires AllWithin(raw, s)
    ensures e in EditsFor(raw, s, ops) <==>
              exists i :: 0 <= i < |s| && s[i].key in ops && e == EditOf(raw, s[i], ops[s[i].key])
  {
    hide EditOf;
    if s != [] {
      EditsForHas(raw, s[1..], ops, e);
      if e in EditsFor(raw, s[1..], ops) {
        var i :| 0 <= i < |s[1..]| && s[1..][i].key in ops && e == EditOf(raw, s[1..][i], ops[s[1..][i].key]);
        assert s[i + 1] == s[1..][i];
      }
      assert forall i :: 0 < i < |s| ==> s[i] == s[1..][i - 1];
    }
  }

  /**
   An empty value is replaced, directly in front of the line break that the removal of an unterminated last
   statement takes with it.
   */
  predicate Trap(raw: Bytes, s: seq<Statement>, ops: map<Bytes, Op>, m: nat, n: nat) {
    && m < |s| && n < |s| && s[m].key in ops && s[n].key in ops
    && ops[s[m].key].Replace? && ops[s[n].key].Remove?
    && s[m].valueStart == s[m].valueEnd
    && s[n].start <= |raw| == s[n].end && !FinalBreak(raw) && PrecedingSeparator(raw, s[n].start) == s[m].valueStart
  }

  lemma TiedStatements(raw: Bytes, s: seq<Statement>, ops: map<Bytes, Op>, m: nat, n: nat)
    requires AllWithin(raw, s) && Apart(raw, s) && m < |s| && n < |s| && s[m].key in ops && s[n].key in ops
    requires Before(EditOf(raw, s[m], ops[s[m].key]), EditOf(raw, s[n], ops[s[n].key]))
    requires EditOf(raw, s[m], ops[s[m].key]).start == EditOf(raw, s[n], ops[s[n].key]).start
    ensures Trap(raw, s, ops, m, n)
  {
    hide PrecedingSeparator;
    assert s[m].valueStart == EditOf(raw, s[m], ops[s[m].key]).start;
  }

  /** Two edits start at one place exactly in that case. */
  lemma TieIsTrap(raw: Bytes, allowed: set<Bytes>, ops: map<Bytes, Op>)
    requires Scan(raw, 0, {}, allowed).Ok? && AllClosed(ops)
    requires AllWithin(raw, Scan(raw, 0, {}, allowed).value)
    ensures var s := Scan(raw, 0, {}, allowed).value;
            TieFree(EditsFor(raw, s, ops)) <==> !exists m, n :: Trap(raw, s, ops, m, n)
  {
    hide Scan, EditsFor, EditOf, Before, Apart, AllWithin, Closed, Trap, Ordered;
    var s := Scan(raw, 0, {}, allowed).value;
    var edits := EditsFor(raw, s, ops);
    assert raw[0..] == raw;
    StatementsApart(raw, 0, {}, allowed);
    EditsInOrder(raw, 0, {}, allowed, ops);
    if !TieFree(edits) {
      var i, j :| 0 <= i < j < |edits| && edits[i].start == edits[j].start;
      OrderedAt(edits, i, j);
      TiedEdits(raw, s, ops, edits[i], edits[j]);
    }
    if m, n :| Trap(raw, s, ops, m, n) {
      TrapTies(raw, s, ops, m, n);
    }
  }

  lemma OrderedAt(edits: seq<Edit>, i: nat, j: nat)
    requires Ordered(edits) && i < j < |edits|
    ensures Before(edits[i], edits[j])
  {
  }

  lemma TiedEdits(raw: Bytes, s: seq<Statement>, ops: map<Bytes, Op>, a: Edit, b: Edit)
    requires AllWithin(raw, s) && Apart(raw, s) && a in EditsFor(raw, s, ops) && b in EditsFor(raw, s, ops)
    requires Before(a, b) && a.start == b.start
    ensures exists m, n :: Trap(raw, s, ops, m, n)
  {
    hide EditsFor, EditOf, Before, Apart, Trap;
    EditsForHas(raw, s, ops, a);
    EditsForHas(raw, s, ops, b);
    var m :| 0 <= m < |s| && s[m].key in ops && a == EditOf(raw, s[m], ops[s[m].key]);
    var n :| 0 <= n < |s| && s[n].key in ops && b == EditOf(raw, s[n], ops[s[n].key]);
    TiedStatements(raw, s, ops, m, n);
  }

  lemma TrapTies(raw: Bytes, s: seq<Statement>, ops: map<Bytes, Op>, m: nat, n: nat)
    requires AllWithin(raw, s) && AllClosed(ops) && Trap(raw, s, ops, m, n)
    ensures !TieFree(EditsFor(raw, s, ops))
  {
    hide EditsFor, PrecedingSeparator;
    var a, b := EditOf(raw, s[m], ops[s[m].key]), EditOf(raw, s[n], ops[s[n].key]);
    EditsForHas(raw, s, ops, a);
    EditsForHas(raw, s, ops, b);
    assert a.replacement != [] && b.replacement == [] && a.start == b.start;
    var edits := EditsFor(raw, s, ops);
    var i :| 0 <= i < |edits| && edits[i] == a;
    var j :| 0 <= j < |edits| && edits[j] == b;
    assert i != j;
    var first, second := if i < j then i else j, if i < j then j else i;
    assert edits[first].start == edits[second].start;
  }

  function Swap(edits: seq<Edit>, i: nat, j: nat): seq<Edit>
    requires i < j < |edits|
  {
    edits[..i] + [edits[j]] + edits[i + 1..j] + [edits[i]] + edits[j + 1..]
  }

  lemma SwapPermutes(edits: seq<Edit>, i: nat, j: nat)
    requires i < j < |edits|
    ensures multiset(Swap(edits, i, j)) == multiset(edits)
  {
    assert edits == edits[..i] + [edits[i]] + edits[i + 1..j] + [edits[j]] + edits[j + 1..];
  }

  lemma SwapSorted(edits: seq<Edit>, i: nat, j: nat)
    requires i < j < |edits| && SortedByStart(edits) && edits[i].start == edits[j].start
    ensures SortedByStart(Swap(edits, i, j))
  {
    var r := Swap(edits, i, j);
    assert forall k :: 0 <= k < |edits| ==> r[k] == if k == i then edits[j] else if k == j then edits[i] else edits[k];
  }

  /** In that case, and in no other, the sort may leave an order in which the change is refused. */
  lemma TrapIffRefused(raw: Bytes, allowed: set<Bytes>, ops: map<Bytes, Op>)
    requires Scan(raw, 0, {}, allowed).Ok? && AllClosed(ops)
    requires AllWithin(raw, Scan(raw, 0, {}, allowed).value)
    ensures var s := Scan(raw, 0, {}, allowed).value;
            (exists m, n :: Trap(raw, s, ops, m, n)) <==>
            (exists sorted: seq<Edit> ::
               && multiset(sorted) == multiset(EditsFor(raw, s, ops)) && SortedByStart(sorted)
               && MergeEdits(sorted).None?)
  {
    hide Scan, EditsFor, MergeEdits, Splice, Cover, SortedByStart, Trap, Closed, AllWithin;
    var s := Scan(raw, 0, {}, allowed).value;
    var edits := EditsFor(raw, s, ops);
    TieIsTrap(raw, allowed, ops);
    if m, n :| Trap(raw, s, ops, m, n) {
      var i, j :| 0 <= i < j < |edits| && edits[i].start == edits[j].start;
      assert raw[0..] == raw;
      EditsInOrder(raw, 0, {}, allowed, ops);
      var sorted := Swap(edits, i, j);
      assert SortedByStart(edits) by { OrderedSorted(edits); }
      SwapPermutes(edits, i, j);
      SwapSorted(edits, i, j);
      OrderedAt(edits, i, j);
      assert sorted[i] == edits[j];
      MergeIffFileOrder(raw, allowed, ops, sorted);
    }
    if sorted: seq<Edit> :| multiset(sorted) == multiset(edits) && SortedByStart(sorted) && MergeEdits(sorted).None? {
      MergeIffFileOrder(raw, allowed, ops, sorted);
    }
  }

  lemma OrderedSorted(edits: seq<Edit>)
    requires Ordered(edits)
    ensures SortedByStart(edits)
  {
  }

  // ---------- an example ----------

  const A: Bytes := [65]
  const B: Bytes := [66]
  /** A= and B=1 on two lines, the second without a line break. */
  const TRAP: Bytes := [65, 61, 10, 66, 61, 49]

  lemma OneByteKey(key: Bytes, rest: Bytes)
    requires |key| == 1 && IsUpper(key[0]) && Stops(rest)
    ensures ReadHead(key + [EQUALS] + rest) == Head(key, 2)
  {
    var d := key + [EQUALS] + rest;
    assert d[0..] == d && d[..1] == key && d[2..] == rest;
    KeyLengthIs(d, 1);
    assert ValidKey(key);
    TrimKeeps(key);
    assert EXPORT[0] == 101;
    HorizontalLengthIs(rest, 0);
  }

  lemma FirstUnit()
    ensures NextUnit(TRAP) == Unit.Entry(A, 0, 2, 2, 2, false)
  {
    hide ReadHead;
    assert TRAP == A + [EQUALS] + [10, 66, 61, 49];
    OneByteKey(A, [10, 66, 61, 49]);
    SpaceLengthIs(TRAP, 0);
    assert TRAP[0..] == TRAP;
  }

  lemma SecondUnit()
    ensures NextUnit([10, 66, 61, 49]) == Unit.Entry(B, 1, 3, 4, 4, false)
  {
    hide ReadHead, ReadValue;
    var d: Bytes := [10, 66, 61, 49];
    SpaceLengthIs(d, 1);
    assert d[1..] == [66, 61, 49] == B + [EQUALS] + [49];
    OneByteKey(B, [49]);
    LineStartIs(d, 1, 1);
    assert d[1..][2..] == [49];
    ValueOne();
  }

  lemma ValueOne()
    ensures ReadValue([49]) == Value(1, 1, false)
  {
    LineLengthIs([49], 1);
    assert !HasExpansion([49]);
    assert [49][..1] == [49];
  }

  lemma SecondScan()
    ensures Scan([10, 66, 61, 49], 2, {A}, {A, B}) == Ok([Statement(B, 3, 6, 5, 6, 6, [49], false)])
  {
    hide NextUnit;
    var d: Bytes := [10, 66, 61, 49];
    SecondUnit();
    EmptyIsBlank();
    assert d[4..] == [] && d[3..4] == [49];
    assert Scan([], 6, {A} + {B}, {A, B}) == Ok([]);
    var b := StatementOf(d, 2, NextUnit(d));
    assert [b] + [] == [b];
  }

  lemma FirstScan()
    ensures Scan(TRAP, 0, {}, {A, B})
         == Ok([Statement(A, 0, 3, 2, 2, 2, [], false), Statement(B, 3, 6, 5, 6, 6, [49], false)])
  {
    hide NextUnit;
    FirstUnit();
    SecondScan();
    assert TRAP[2..] == [10, 66, 61, 49] && TRAP[2..2] == [] && {} + {A} == {A};
    var a, rest := StatementOf(TRAP, 0, NextUnit(TRAP)), [Statement(B, 3, 6, 5, 6, 6, [49], false)];
    assert [a] + rest == [a, rest[0]];
  }

  /** The case exists: A is given a value and B is removed. */
  lemma TrapExample()
    ensures Scan(TRAP, 0, {}, {A, B}).Ok?
    ensures Trap(TRAP, Scan(TRAP, 0, {}, {A, B}).value, map[A := Replace([39, 39]), B := Remove], 0, 1)
  {
    hide Scan;
    FirstScan();
  }
}
