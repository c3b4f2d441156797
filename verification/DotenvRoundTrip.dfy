/** Adding a key and removing it again gives the original bytes back. */
module DotenvRoundTrip {
  import opened ByteStrings
  import opened DotenvSyntax
  import opened DotenvLocality
  import opened DotenvEdit
  import opened DotenvSplice
  import opened DotenvApply
  import opened DotenvScanner
  import opened KeyOrder
  import opened DotenvPolicy
  import opened DotenvChange

  function NewLine(key: Bytes, e: Bytes): Bytes { key + [EQUALS] + e }

  lemma NewLineUnit(key: Bytes, e: Bytes, tail: Bytes)
    requires ValidKey(key) && Closed(e) && Follows(tail)
    ensures var line := NewLine(key, e);
            NextUnit(line + tail) == Unit.Entry(key, 0, |key| + 1, |line|, |line|, false)
  {
    hide ReadHead, ReadValue, SpaceLength, LineStart, Closed, ValidKey;
    var line := NewLine(key, e);
    NewLineHead(key, e);
    assert line[0..] == line;
    assert line[|key| + 1..] == e;
    EmptyTrailer();
    ClosedReads(e, []);
    assert e + [] == e;
    assert NextUnit(line) == Unit.Entry(key, 0, |key| + 1, |line|, |line|, false);
    hide NextUnit;
    UnitJoin(line, tail);
  }

  /** Space that a new line follows. */
  lemma NewLineBehindSpace(x: Bytes, key: Bytes, e: Bytes, tail: Bytes)
    requires ValidKey(key) && Closed(e) && Follows(tail)
    requires SpaceLength(x) == |x| && (x == [] || IsBreak(x[|x| - 1]))
    ensures var line := NewLine(key, e);
            NextUnit(x + (line + tail)) == Unit.Entry(key, |x|, |x| + |key| + 1, |x| + |line|, |x| + |line|, false)
  {
    hide NextUnit, SpaceLength, Closed, ValidKey;
    NewLineUnit(key, e, tail);
    UnitBehindBreak(x, NewLine(key, e) + tail);
  }

  predicate EndsLine(x: Bytes, p: nat) { if x == [] then p == 0 else IsBreak(x[|x| - 1]) }

  lemma NewlineLength(tail: Bytes)
    requires tail == [] || IsNewline(tail)
    ensures Follows(tail) && BreakLength(tail) == |tail|
  {
  }

  /** The last of s is a statement of the key that lies between start and end. */
  predicate EndsWith(s: seq<Statement>, key: Bytes, start: nat, end: nat) {
    s != [] && s[|s| - 1].key == key && s[|s| - 1].start == start && s[|s| - 1].end == end
  }

  /** Behind a new line there is nothing. */
  lemma NothingBehind(tail: Bytes, base: nat, seen: set<Bytes>, allowed: set<Bytes>)
    requires tail == [] || IsNewline(tail)
    ensures Scan(tail, base, seen, allowed) == Ok([])
  {
    SpaceLengthIs(tail, |tail|);
    UnitOfSpace(tail);
    hide NextUnit;
  }

  /** The new line is the last statement of the file, from its line start to the end. */
  lemma {:induction false} NewLineIsLast(c: Bytes, p: nat, x: Bytes, key: Bytes, e: Bytes, tail: Bytes,
                                         seen: set<Bytes>, allowed: set<Bytes>)
    requires p <= |c| && c[p..] == x + (NewLine(key, e) + tail) && EndsLine(x, p) && Items(x).Some?
    requires ValidKey(key) && Closed(e) && (tail == [] || IsNewline(tail))
    requires Scan(c[p..], p, seen, allowed).Ok?
    ensures EndsWith(Scan(c[p..], p, seen, allowed).value, key, p + |x|, |c|)
    decreases |x|
  {
    hide *;
    var u := NextUnit(x);
    UnitOfSpace(x);
    if u.Blank? {
      NewLineAlone(c[p..], p, x, key, e, tail, seen, allowed);
    } else {
      ItemsRead(x);
      var n := BlockEnd(u);
      BlockInFront(c, p, x, NewLine(key, e) + tail, u);
      ScanOver(c[p..], p, seen, allowed, u);
      NewLineIsLast(c, p + n, x[n..], key, e, tail, if u.Entry? then seen + {u.key} else seen, allowed);
    }
  }

  /** The rest of a scan behind one unit. */
  lemma ScanOver(d: Bytes, base: nat, seen: set<Bytes>, allowed: set<Bytes>, u: Unit)
    requires NextUnit(d) == u && (u.Entry? || u.Comment?) && Scan(d, base, seen, allowed).Ok?
    ensures var rest := Scan(d[BlockEnd(u)..], base + BlockEnd(u), if u.Entry? then seen + {u.key} else seen, allowed);
            && rest.Ok?
            && forall key, start, end :: EndsWith(rest.value, key, start, end) ==>
                 EndsWith(Scan(d, base, seen, allowed).value, key, start, end)
  {
    hide NextUnit, StatementOf;
    var rest := Scan(d[BlockEnd(u)..], base + BlockEnd(u), if u.Entry? then seen + {u.key} else seen, allowed);
  }

  /** A block in front of the new line is read as it was. */
  lemma BlockInFront(c: Bytes, p: nat, x: Bytes, y: Bytes, u: Unit)
    requires p <= |c| && c[p..] == x + y && EndsLine(x, p)
    requires u == NextUnit(x) && (u.Entry? || u.Comment?)
    ensures var n := BlockEnd(u);
            && NextUnit(c[p..]) == u && 0 < n <= |x| && p + n <= |c|
            && c[p..][n..] == c[p + n..] == x[n..] + y && EndsLine(x[n..], p + n)
  {
    hide NextUnit;
    var n := BlockEnd(u);
    UnitEnds(x);
    UnitJoin(x, y);
    assert c[p..][n..] == x[n..] + y;
    assert c[p..][n..] == c[p + n..];
  }

  lemma NewLineAlone(d: Bytes, p: nat, x: Bytes, key: Bytes, e: Bytes, tail: Bytes, seen: set<Bytes>,
                     allowed: set<Bytes>)
    requires d == x + (NewLine(key, e) + tail) && EndsLine(x, p) && SpaceLength(x) == |x|
    requires ValidKey(key) && Closed(e) && (tail == [] || IsNewline(tail))
    requires Scan(d, p, seen, allowed).Ok?
    ensures EndsWith(Scan(d, p, seen, allowed).value, key, p + |x|, p + |d|)
  {
    hide *;
    UnitAlone(d, p, x, key, e, tail);
    var u := NextUnit(d);
    NewlineLength(tail);
    LastStatementIs(d, p, x, NewLine(key, e), tail, u);
    ScanOverLast(d, p, seen, allowed, u);
  }

  lemma UnitAlone(d: Bytes, p: nat, x: Bytes, key: Bytes, e: Bytes, tail: Bytes)
    requires d == x + (NewLine(key, e) + tail) && EndsLine(x, p) && SpaceLength(x) == |x|
    requires ValidKey(key) && Closed(e) && (tail == [] || IsNewline(tail))
    ensures var u := NextUnit(d);
            && u.Entry? && u.key == key && u.lineStart == |x|
            && u.lineStart < u.valueStart <= u.valueEnd <= u.blockEnd == |x| + |NewLine(key, e)|
  {
    hide *;
    EndsLineIs(x, p);
    NewlineLength(tail);
    NewLineBehindSpace(x, key, e, tail);
    NewLinePlaces(key, e);
  }

  lemma EndsLineIs(x: Bytes, p: nat)
    requires EndsLine(x, p)
    ensures x == [] || IsBreak(x[|x| - 1])
  {
  }

  lemma NewLinePlaces(key: Bytes, e: Bytes)
    ensures |key| < |key| + 1 <= |NewLine(key, e)|
  {
  }

  /** A statement with nothing but a line break behind it is the last one. */
  lemma ScanOverLast(d: Bytes, base: nat, seen: set<Bytes>, allowed: set<Bytes>, u: Unit)
    requires NextUnit(d) == u && u.Entry? && Scan(d, base, seen, allowed).Ok?
    requires d[u.blockEnd..] == [] || IsNewline(d[u.blockEnd..])
    ensures var s := StatementOf(d, base, u); EndsWith(Scan(d, base, seen, allowed).value, s.key, s.start, s.end)
  {
    hide NextUnit, StatementOf;
    NothingBehind(d[u.blockEnd..], base + u.blockEnd, seen + {u.key}, allowed);
    assert [StatementOf(d, base, u)] + [] == [StatementOf(d, base, u)];
  }

  lemma ItemsRead(x: Bytes)
    requires Items(x).Some? && !NextUnit(x).Blank?
    ensures var u := NextUnit(x); (u.Entry? || u.Comment?) && Items(x[BlockEnd(u)..]).Some?
  {
    hide NextUnit;
  }

  lemma LastStatementIs(d: Bytes, p: nat, x: Bytes, line: Bytes, tail: Bytes, u: Unit)
    requires d == x + (line + tail) && u.Entry?
    requires u.lineStart == |x| && u.lineStart < u.valueStart <= u.valueEnd <= u.blockEnd == |x| + |line|
    requires BreakLength(tail) == |tail|
    ensures u.blockEnd <= |d| && d[u.blockEnd..] == tail
    ensures var s := StatementOf(d, p, u); s.key == u.key && s.start == p + |x| && s.end == p + |d|
  {
    assert d[u.blockEnd..] == tail;
  }

  lemma {:induction false} EditsForOne(raw: Bytes, s: seq<Statement>, key: Bytes, op: Op)
    requires AllWithin(raw, s) && s != [] && s[|s| - 1].key == key && forall i :: 0 <= i < |s| - 1 ==> s[i].key != key
    ensures EditsFor(raw, s, map[key := op]) == [EditOf(raw, s[|s| - 1], op)]
  {
    hide EditOf;
    if |s| > 1 {
      EditsForOne(raw, s[1..], key, op);
    }
  }

  lemma {:induction false} EditsForNone(raw: Bytes, s: seq<Statement>, key: Bytes, op: Op)
    requires AllWithin(raw, s) && forall i :: 0 <= i < |s| ==> s[i].key != key
    ensures EditsFor(raw, s, map[key := op]) == []
  {
    if s != [] {
      EditsForNone(raw, s[1..], key, op);
    }
  }

  lemma ArrangeOne(key: Bytes)
    ensures Arrange({key}) == [key]
  {
    var r := Arrange({key});
    ArrangeHas({key});
    assert |r| == |multiset(r)| == |multiset({key})| == 1;
    assert r[0] in r;
  }

  /** What separates the new line from the file. */
  function Separator(raw: Bytes): Bytes {
    if raw != [] && !FinalBreak(raw) then DetectNewline(raw) else []
  }

  function Terminator(raw: Bytes): Bytes {
    if FinalBreak(raw) then DetectNewline(raw) else []
  }

  /** The file with one key added. */
  lemma AddedText(raw: Bytes, allowed: set<Bytes>, key: Bytes, e: Bytes)
    requires Scan(raw, 0, {}, allowed).Ok? && AllWithin(raw, Scan(raw, 0, {}, allowed).value)
    requires !HasKey(Scan(raw, 0, {}, allowed).value, key)
    ensures Edited(raw, allowed, map[key := Replace(e)])
         == raw + Separator(raw) + (NewLine(key, e) + Terminator(raw))
  {
    hide Scan, DetectNewline, EntriesOf, FinalBreak;
    var s := Scan(raw, 0, {}, allowed).value;
    var ops := map[key := Replace(e)];
    assert forall i :: 0 <= i < |s| ==> s[i].key != key;
    EditsForNone(raw, s, key, Replace(e));
    assert Cover(raw, 0, []) == raw;
    if key in EntriesOf(s, allowed) {
      var i := EntriesFrom(s, allowed, key);
      assert false;
    }
    var values := NewValues(EntriesOf(s, allowed), ops);
    assert values == map[key := e];
    assert values.Keys == {key};
    ArrangeOne(key);
    assert [key][1..] == [];
    assert NewText([], values, DetectNewline(raw), FinalBreak(raw)) == [];
    var line := NewText([key], values, DetectNewline(raw), FinalBreak(raw));
    assert line == NewLine(key, e) + Terminator(raw);
  }

  /** The file from which one key, its last statement, is removed. */
  lemma RemovedText(c: Bytes, allowed: set<Bytes>, key: Bytes)
    requires Scan(c, 0, {}, allowed).Ok? && AllWithin(c, Scan(c, 0, {}, allowed).value)
    requires var s := Scan(c, 0, {}, allowed).value; s != [] && s[|s| - 1].key == key && s[|s| - 1].end == |c|
    ensures var s := Scan(c, 0, {}, allowed).value;
            var start := s[|s| - 1].start;
            Edited(c, allowed, map[key := Remove]) == c[..if FinalBreak(c) then start else PrecedingSeparator(c, start)]
  {
    hide *;
    var s := Scan(c, 0, {}, allowed).value;
    ScanItems(c, 0, {}, allowed);
    RemovedCover(c, s, allowed, key);
    NoNewValues(EntriesOf(s, allowed), key);
    NothingNew(c, allowed, map[key := Remove]);
  }

  lemma RemovedCover(c: Bytes, s: seq<Statement>, allowed: set<Bytes>, key: Bytes)
    requires AllWithin(c, s) && ScanClean(s, {}, allowed) && s != []
    requires s[|s| - 1].key == key && s[|s| - 1].end == |c|
    ensures var start := s[|s| - 1].start;
            var stop := if FinalBreak(c) then start else PrecedingSeparator(c, start);
            Cover(c, 0, EditsFor(c, s, map[key := Remove])) == c[..stop]
  {
    hide FinalBreak, PrecedingSeparator, EditsFor, Cover;
    EditsForOne(c, s, key, Remove);
    OneRemoval(c, EditOf(c, s[|s| - 1], Remove));
  }

  lemma NothingNew(raw: Bytes, allowed: set<Bytes>, ops: map<Bytes, Op>)
    requires Scan(raw, 0, {}, allowed).Ok? && AllWithin(raw, Scan(raw, 0, {}, allowed).value)
    requires NewValues(EntriesOf(Scan(raw, 0, {}, allowed).value, allowed), ops) == map[]
    ensures Edited(raw, allowed, ops) == Cover(raw, 0, EditsFor(raw, Scan(raw, 0, {}, allowed).value, ops))
  {
    hide Scan, EntriesOf, EditsFor, Cover, NewValues, DetectNewline;
    var values := NewValues(EntriesOf(Scan(raw, 0, {}, allowed).value, allowed), ops);
    assert values.Keys == {};
    var r := Arrange(values.Keys);
    assert |r| == |multiset(r)| == 0;
  }

  lemma OneRemoval(c: Bytes, e: Edit)
    requires e.start <= e.end == |c| && e.replacement == []
    ensures Cover(c, 0, [e]) == c[..e.start]
  {
    assert [e][1..] == [];
    CoverFirst(c, 0, [e]);
    assert Cover(c, |c|, []) == [];
    assert c[0..e.start] + [] + [] == c[..e.start];
  }

  lemma NoNewValues(entries: map<Bytes, Place>, key: Bytes)
    ensures NewValues(entries, map[key := Remove]) == map[]
  {
  }

  lemma SeparatorBehind(raw: Bytes, c: Bytes)
    requires raw + Separator(raw) <= c && !FinalBreak(raw)
    ensures PrecedingSeparator(c, |raw + Separator(raw)|) == |raw|
  {
    var n := DetectNewline(raw);
    if raw != [] {
      assert c[|raw|..|raw| + |n|] == n;
      assert c[|raw| - 1] == raw[|raw| - 1];
      assert c[|raw|] == c[|raw|..|raw| + |n|][0];
    }
  }

  lemma AddedEnds(raw: Bytes, line: Bytes, c: Bytes)
    requires c == raw + Separator(raw) + (line + Terminator(raw)) && line != [] && !IsBreak(line[|line| - 1])
    ensures FinalBreak(c) <==> FinalBreak(raw)
  {
    assert c[|c| - 1] == (line + Terminator(raw))[|line + Terminator(raw)| - 1];
  }

  /**
   Adding a key that the file does not have and removing it from the result restores the file byte for byte,
   whatever its line breaks are and whether or not it ends with one.
   */
  lemma AddThenRemove(raw: Bytes, allowed: set<Bytes>, key: Bytes, e: Bytes)
    requires Scan(raw, 0, {}, allowed).Ok? && AllWithin(raw, Scan(raw, 0, {}, allowed).value)
    requires !HasKey(Scan(raw, 0, {}, allowed).value, key) && ValidKey(key) && Closed(e)
    requires var c := Edited(raw, allowed, map[key := Replace(e)]); Scan(c, 0, {}, allowed).Ok?
    ensures var c := Edited(raw, allowed, map[key := Replace(e)]);
            && AllWithin(c, Scan(c, 0, {}, allowed).value)
            && Edited(c, allowed, map[key := Remove]) == raw
  {
    hide Scan, Edited, Closed, ValidKey, Items, DetectNewline, FinalBreak, PrecedingSeparator, AllWithin, HasKey;
    var c, line, tail := Edited(raw, allowed, map[key := Replace(e)]), NewLine(key, e), Terminator(raw);
    AddedText(raw, allowed, key, e);
    var x := raw + Separator(raw);
    assert c[0..] == c;
    ScanWithin(c, 0, {}, allowed);
    ScanItems(raw, 0, {}, allowed);
    BreakItems(Separator(raw));
    ItemsConcat(raw, Separator(raw));
    assert EndsLine(x, 0) by { SeparatorEnds(raw); }
    NewLineIsLast(c, 0, x, key, e, tail, {}, allowed);
    RemovedText(c, allowed, key);
    NewLineEnds(key, e);
    AddedEnds(raw, line, c);
    if !FinalBreak(raw) {
      SeparatorBehind(raw, c);
    }
    assert c[..|raw|] == raw;
  }

  lemma SeparatorEnds(raw: Bytes)
    ensures EndsLine(raw + Separator(raw), 0)
  {
  }

  lemma NewLineEnds(key: Bytes, e: Bytes)
    requires Closed(e)
    ensures var line := NewLine(key, e); line != [] && !IsBreak(line[|line| - 1])
  {
    hide HasExpansion;
  }
}
