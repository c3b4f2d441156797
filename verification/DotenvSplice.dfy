/** Re-reading the spliced text: exactly the intended statements change. */
module DotenvSplice {
  import opened ByteStrings
  import opened DotenvSyntax
  import opened DotenvLocality
  import opened DotenvEdit

  // ---------- resuming behind a line break ----------

  lemma BreakIsSpace(d: Bytes)
    ensures var b := BreakLength(d); SpaceLength(d[..b]) == b && (b > 0 ==> IsBreak(d[b - 1]))
  {
    SpaceLengthIs(d[..BreakLength(d)], BreakLength(d));
  }

  lemma LineStartBehindBreak(x: Bytes, y: Bytes, w: nat)
    requires w <= |y| && (x == [] || IsBreak(x[|x| - 1]))
    ensures LineStart(x + y, |x| + w) == |x| + LineStart(y, w)
  {
    hide LineStart;
    var n := LineStart(y, w);
    assert n > 0 ==> (x + y)[|x| + n - 1] == y[n - 1];
    forall i | |x| + n <= i < |x| + w ensures !IsBreak((x + y)[i]) {
      assert (x + y)[i] == y[i - |x|];
    }
    LineStartIs(x + y, |x| + w, |x| + n);
  }

  /** A unit read across the break that ends a block lies where it lies. */
  lemma UnitBehindBreak(x: Bytes, y: Bytes)
    requires SpaceLength(x) == |x| && (x == [] || IsBreak(x[|x| - 1]))
    ensures var u := NextUnit(y);
            NextUnit(x + y) == Moved(u, |x|, if u.Entry? then |x| + u.lineStart else 0)
  {
    hide NextUnit, LineStart, SpaceLength;
    UnitAfterSpace(x, y);
    if NextUnit(y).Entry? {
      UnitLine(y);
      LineStartBehindBreak(x, y, SpaceLength(y));
    }
  }

  /** A unit of x + y that lies in y gives the same statement. */
  lemma StatementBehind(x: Bytes, y: Bytes, base: nat, u: Unit)
    requires u.Entry? && u.lineStart < u.valueStart <= u.valueEnd <= u.blockEnd <= |y|
    ensures StatementOf(x + y, base, Moved(u, |x|, |x| + u.lineStart)) == StatementOf(y, base + |x|, u)
    ensures (x + y)[|x| + u.blockEnd..] == y[u.blockEnd..]
  {
    assert (x + y)[|x| + u.blockEnd..] == y[u.blockEnd..];
    assert (x + y)[|x| + u.valueStart..|x| + u.valueEnd] == y[u.valueStart..u.valueEnd];
  }

  /** Scanning from the end of a block or from behind its line break finds the same statements. */
  lemma ScanBehindBreak(d: Bytes, base: nat, seen: set<Bytes>, allowed: set<Bytes>)
    ensures var b := BreakLength(d); Scan(d[b..], base + b, seen, allowed) == Scan(d, base, seen, allowed)
  {
    hide NextUnit, SpaceLength, LineStart, StatementOf, BreakLength;
    var b := BreakLength(d);
    var x, y := d[..b], d[b..];
    BreakIsSpace(d);
    assert x + y == d;
    UnitBehindBreak(x, y);
    var u, z := NextUnit(y), NextUnit(d);
    if u.Comment? {
      assert d[z.end..] == y[u.end..];
    } else if u.Entry? {
      StatementBehind(x, y, base, u);
    }
  }

  // ---------- one step of the splice ----------

  ghost predicate AllClosed(ops: map<Bytes, Op>) {
    forall k :: k in ops && ops[k].Replace? ==> Closed(ops[k].encoded)
  }

  /** Items of a text to which a piece that meets it is appended. */
  lemma ItemsAppend(out: Bytes, acc: seq<Item>, piece: Bytes, more: seq<Item>)
    requires Items(out) == Some(acc) && Items(piece) == Some(more) && Meets(out, piece)
    ensures Items(out + piece) == Some(acc + more)
  {
    hide Items;
    ItemsConcat(out, piece);
  }

  lemma MeetsPrefix(out: Bytes, d: Bytes, n: nat)
    requires Meets(out, d) && n <= |d|
    ensures Meets(out, d[..n])
  {
  }

  lemma MeetsBlock(out: Bytes, block: Bytes, raw: Bytes, p: nat)
    requires BlockStop(raw, p)
    ensures Meets(out + block, raw[p..])
  {
  }

  /** Space in front of a statement, up to its line or less, says nothing. */
  lemma SpaceBefore(d: Bytes, n: nat)
    requires NextUnit(d).Entry? && n <= NextUnit(d).lineStart
    ensures Items(d[..n]) == Some([])
  {
    UnitLine(d);
    SpaceLengthIs(d[..n], n);
    hide NextUnit;
    ItemsOfSpace(d[..n], []);
  }

  /** The items of a statement whose value has been replaced. */
  lemma ReplacedBlock(d: Bytes, e: Bytes)
    requires NextUnit(d).Entry? && Closed(e)
    ensures var u := NextUnit(d);
            Items(d[..u.valueStart] + e + d[u.valueEnd..u.blockEnd]) == Some([Item(u.key, e, false)])
  {
    hide NextUnit, Closed;
    var u := NextUnit(d);
    var z := d[..u.valueStart] + e + d[u.valueEnd..u.blockEnd];
    UnitReplace(d, e);
    EmptyIsBlank();
    assert z[|z|..] == [];
    assert z[u.valueStart..u.valueStart + |e|] == e;
    assert UnitItem(z, NextUnit(z)) == Item(u.key, e, false);
    assert [Item(u.key, e, false)] + [] == [Item(u.key, e, false)];
  }

  /** The line of a statement starts behind a break, so removing the statement leaves a text that ends well. */
  lemma MeetsAnything(out: Bytes, d: Bytes, y: Bytes)
    requires Meets(out, d) && NextUnit(d).Entry?
    ensures Meets(out + d[..NextUnit(d).lineStart], y)
  {
    UnitLine(d);
    hide NextUnit, SpaceLength, LineStart;
    var n, w := NextUnit(d).lineStart, SpaceLength(d);
    var o := out + d[..n];
    if n > 0 {
      assert o[|o| - 1] == d[n - 1];
    } else {
      assert o == out;
      assert !IsBreak(d[0]);
    }
  }

  /** Removing an unterminated last statement also drops the line break in front of it; nothing follows. */
  lemma LastStatement(raw: Bytes, q: nat, u: Unit)
    requires q <= |raw| && u == NextUnit(raw[q..]) && u.Entry?
    requires StatementOf(raw[q..], q, u).end == |raw| && !FinalBreak(raw)
    ensures q + u.blockEnd == |raw|
  {
    hide NextUnit;
    var d := raw[q..][u.blockEnd..];
    assert d == raw[q + u.blockEnd..];
    BreakIsSpace(d);
    SuffixFinal(raw, q + u.blockEnd);
  }

  lemma SuffixFinal(raw: Bytes, p: nat)
    requires p <= |raw|
    ensures FinalBreak(raw[p..]) ==> FinalBreak(raw)
  {
  }

  // ---------- the whole file ----------

  /** The splice has read raw up to q and written out, which says acc. */
  ghost predicate Progress(raw: Bytes, q: nat, out: Bytes, acc: seq<Item>) {
    q <= |raw| && Meets(out, raw[q..]) && Items(out) == Some(acc)
  }

  /** Copying a comment. */
  lemma CommentStep(raw: Bytes, q: nat, out: Bytes, acc: seq<Item>)
    requires Progress(raw, q, out, acc) && NextUnit(raw[q..]).Comment?
    ensures var n := NextUnit(raw[q..]).end;
            BlockStop(raw, q + n) && Progress(raw, q + n, out + raw[q..q + n], acc)
  {
    hide NextUnit, Items, BlockStop, Meets;
    var d, n := raw[q..], NextUnit(raw[q..]).end;
    UnitStops(raw, q);
    assert d[..n] == raw[q..q + n];
    ItemsOfBlock(d);
    MeetsPrefix(out, d, n);
    ItemsAppend(out, acc, d[..n], []);
    MeetsBlock(out, d[..n], raw, q + n);
    assert acc + [] == acc;
  }

  /** Copying a statement. */
  lemma KeepStep(raw: Bytes, q: nat, out: Bytes, acc: seq<Item>)
    requires Progress(raw, q, out, acc) && NextUnit(raw[q..]).Entry?
    ensures var u := NextUnit(raw[q..]);
            && BlockStop(raw, q + u.blockEnd)
            && Progress(raw, q + u.blockEnd, out + raw[q..q + u.blockEnd], acc + [UnitItem(raw[q..], u)])
  {
    hide NextUnit, Items, BlockStop, Meets, UnitItem;
    var d, u := raw[q..], NextUnit(raw[q..]);
    UnitStops(raw, q);
    assert d[..u.blockEnd] == raw[q..q + u.blockEnd];
    ItemsOfBlock(d);
    MeetsPrefix(out, d, u.blockEnd);
    ItemsAppend(out, acc, d[..u.blockEnd], [UnitItem(d, u)]);
    MeetsBlock(out, d[..u.blockEnd], raw, q + u.blockEnd);
  }

  /** Replacing the value of a statement. */
  lemma ReplaceStep(raw: Bytes, q: nat, out: Bytes, acc: seq<Item>, e: Bytes)
    requires Progress(raw, q, out, acc) && NextUnit(raw[q..]).Entry? && Closed(e)
    ensures var u := NextUnit(raw[q..]);
            var piece := raw[q..q + u.valueStart] + e + raw[q + u.valueEnd..q + u.blockEnd];
            && BlockStop(raw, q + u.blockEnd)
            && Progress(raw, q + u.blockEnd, out + piece, acc + [Item(u.key, e, false)])
  {
    hide NextUnit, Items, BlockStop, Closed;
    var d, u := raw[q..], NextUnit(raw[q..]);
    UnitStops(raw, q);
    var piece := raw[q..q + u.valueStart] + e + raw[q + u.valueEnd..q + u.blockEnd];
    assert d[..u.valueStart] == raw[q..q + u.valueStart];
    assert d[u.valueEnd..u.blockEnd] == raw[q + u.valueEnd..q + u.blockEnd];
    ReplacedBlock(d, e);
    assert piece[0] == d[0];
    ItemsAppend(out, acc, piece, [Item(u.key, e, false)]);
    MeetsBlock(out, piece, raw, q + u.blockEnd);
  }

  /** Copying the space in front of a statement that is to be removed. */
  lemma RemoveStep(raw: Bytes, q: nat, out: Bytes, acc: seq<Item>, n: nat)
    requires Progress(raw, q, out, acc) && NextUnit(raw[q..]).Entry? && n <= NextUnit(raw[q..]).lineStart
    ensures Items(out + raw[q..q + n]) == Some(acc)
  {
    hide NextUnit, Items, Meets;
    var d := raw[q..];
    assert d[..n] == raw[q..q + n];
    SpaceBefore(d, n);
    MeetsPrefix(out, d, n);
    ItemsAppend(out, acc, d[..n], []);
    assert acc + [] == acc;
  }

  lemma RemoveProgress(raw: Bytes, q: nat, out: Bytes, acc: seq<Item>, p: nat)
    requires Progress(raw, q, out, acc) && NextUnit(raw[q..]).Entry? && q <= p <= |raw|
    ensures Progress(raw, p, out + raw[q..q + NextUnit(raw[q..]).lineStart], acc)
  {
    hide NextUnit, Items, Meets;
    var d, n := raw[q..], NextUnit(raw[q..]).lineStart;
    RemoveStep(raw, q, out, acc, n);
    assert d[..n] == raw[q..q + n];
    MeetsAnything(out, d, raw[p..]);
  }

  // What the cover writes in each of these steps.

  lemma CoverKeep(raw: Bytes, q: nat, p: nat, edits: seq<Edit>)
    requires q <= p <= |raw| && Bounded(raw, edits) && StartsFrom(edits, p)
    ensures Cover(raw, q, edits) == raw[q..p] + Cover(raw, p, edits)
  {
    hide Cover;
    CoverCopy(raw, q, p, edits);
  }

  lemma CoverReplace(raw: Bytes, q: nat, a: nat, b: nat, p: nat, e: Bytes, edits: seq<Edit>)
    requires q <= a <= b <= p <= |raw| && Bounded(raw, edits) && StartsFrom(edits, p)
    ensures Cover(raw, q, [Edit(a, b, e)] + edits) == (raw[q..a] + e + raw[b..p]) + Cover(raw, p, edits)
  {
    CoverFirst(raw, q, [Edit(a, b, e)] + edits);
    hide Cover;
    assert ([Edit(a, b, e)] + edits)[1..] == edits;
    CoverCopy(raw, b, p, edits);
    Regroup(raw[q..a], e, raw[b..p], Cover(raw, p, edits));
  }

  lemma Regroup(a: Bytes, b: Bytes, c: Bytes, d: Bytes)
    ensures a + b + (c + d) == (a + b + c) + d
  {
  }

  lemma CoverRemove(raw: Bytes, q: nat, a: nat, b: nat, edits: seq<Edit>)
    requires q <= b <= |raw| && a <= b && Bounded(raw, edits)
    ensures Cover(raw, q, [Edit(a, b, [])] + edits) == raw[q..Max(q, a)] + Cover(raw, b, edits)
  {
    assert ([Edit(a, b, [])] + edits)[1..] == edits;
    assert raw[q..Max(q, a)] + [] == raw[q..Max(q, a)];
  }

  lemma ExpectedCons(s: Statement, rest: seq<Statement>, ops: map<Bytes, Op>)
    ensures Expected([s] + rest, ops)
         == (if s.key !in ops then [ItemOf(s)]
             else match ops[s.key] case Replace(e) => [Item(s.key, e, false)] case Remove => []) + Expected(rest, ops)
  {
    assert ([s] + rest)[1..] == rest;
  }

  /** The output of the splice says what was said before, changed exactly as the operations ask. */
  lemma {:induction false} CoverItems(raw: Bytes, q: nat, out: Bytes, acc: seq<Item>, seen: set<Bytes>,
                                      allowed: set<Bytes>, ops: map<Bytes, Op>)
    requires Progress(raw, q, out, acc) && AllClosed(ops)
    requires Scan(raw[q..], q, seen, allowed).Ok?
    ensures AllWithin(raw, Scan(raw[q..], q, seen, allowed).value)
    ensures var s := Scan(raw[q..], q, seen, allowed).value;
            Items(out + Cover(raw, q, EditsFor(raw, s, ops))) == Some(acc + Expected(s, ops))
    decreases |raw| - q
  {
    hide NextUnit, Items, Progress, BlockStop, Cover, EditsFor, Expected, StatementOf;
    assert q <= |raw| by { ProgressBounds(raw, q, out, acc); }
    ScanWithin(raw, q, seen, allowed);
    var d, u := raw[q..], NextUnit(raw[q..]);
    match u
    case Blank => BlankTail(raw, q, out, acc, ops);
    case Comment(n) =>
      CommentStep(raw, q, out, acc);
      assert d[n..] == raw[q + n..];
      EditsBehind(raw, q + n, seen, allowed, ops);
      var edits := EditsFor(raw, Scan(raw[q + n..], q + n, seen, allowed).value, ops);
      CoverKeep(raw, q, q + n, edits);
      CoverItems(raw, q + n, out + raw[q..q + n], acc, seen, allowed, ops);
      assert out + raw[q..q + n] + Cover(raw, q + n, edits) == out + (raw[q..q + n] + Cover(raw, q + n, edits));
    case Entry(key, _, _, _, n, _) => EntryItems(raw, q, out, acc, seen, allowed, ops);
    case Malformed =>
    case MalformedValue(_) =>
  }

  lemma ProgressBounds(raw: Bytes, q: nat, out: Bytes, acc: seq<Item>)
    requires Progress(raw, q, out, acc)
    ensures q <= |raw|
  {
  }

  lemma BlankTail(raw: Bytes, q: nat, out: Bytes, acc: seq<Item>, ops: map<Bytes, Op>)
    requires Progress(raw, q, out, acc) && NextUnit(raw[q..]).Blank?
    ensures Items(out + Cover(raw, q, EditsFor(raw, [], ops))) == Some(acc + Expected([], ops))
  {
    hide NextUnit;
    ItemsConcat(out, raw[q..]);
  }

  /** s is the next statement and rest are those behind it. */
  ghost predicate AtStatement(raw: Bytes, q: nat, seen: set<Bytes>, allowed: set<Bytes>, s: Statement,
                              rest: seq<Statement>) {
    && q <= |raw|
    && NextUnit(raw[q..]).Entry?
    && s == StatementOf(raw[q..], q, NextUnit(raw[q..]))
    && s.blockEnd <= |raw|
    && Scan(raw[s.blockEnd..], s.blockEnd, seen + {s.key}, allowed) == Ok(rest)
  }

  lemma AtStatementPlaces(raw: Bytes, q: nat, seen: set<Bytes>, allowed: set<Bytes>, s: Statement, rest: seq<Statement>)
    requires AtStatement(raw, q, seen, allowed, s, rest)
    ensures q <= s.start && q < s.blockEnd && Within(raw, s) && AllWithin(raw, rest) && BlockStop(raw, s.blockEnd)
    ensures var u := NextUnit(raw[q..]);
            && s.start == q + u.lineStart && s.valueStart == q + u.valueStart && s.valueEnd == q + u.valueEnd
            && s.blockEnd == q + u.blockEnd && s.key == u.key && UnitItem(raw[q..], u) == ItemOf(s)
    ensures s.end == s.blockEnd + BreakLength(raw[s.blockEnd..])
  {
    hide NextUnit, BlockStop;
    UnitStops(raw, q);
    ScanWithin(raw, s.blockEnd, seen + {s.key}, allowed);
    assert raw[q..][NextUnit(raw[q..]).blockEnd..] == raw[s.blockEnd..];
  }

  lemma StatementPlaces(d: Bytes, base: nat, u: Unit)
    requires u.Entry? && u.lineStart < u.valueStart <= u.valueEnd <= u.blockEnd <= |d|
    ensures var s := StatementOf(d, base, u); s.key == u.key && s.blockEnd == base + u.blockEnd
  {
  }

  lemma ScanAtStatement(raw: Bytes, q: nat, seen: set<Bytes>, allowed: set<Bytes>) returns (s: Statement, rest: seq<Statement>)
    requires q <= |raw| && NextUnit(raw[q..]).Entry? && Scan(raw[q..], q, seen, allowed).Ok?
    ensures AtStatement(raw, q, seen, allowed, s, rest) && Scan(raw[q..], q, seen, allowed).value == [s] + rest
  {
    hide NextUnit, StatementOf, BreakLength;
    var u := NextUnit(raw[q..]);
    StatementPlaces(raw[q..], q, u);
    s := StatementOf(raw[q..], q, u);
    assert raw[q..][u.blockEnd..] == raw[s.blockEnd..];
    rest := Scan(raw[s.blockEnd..], s.blockEnd, seen + {s.key}, allowed).value;
  }

  /** The step over a statement, whatever is to become of it. */
  lemma {:induction false} EntryItems(raw: Bytes, q: nat, out: Bytes, acc: seq<Item>, seen: set<Bytes>,
                                      allowed: set<Bytes>, ops: map<Bytes, Op>)
    requires Progress(raw, q, out, acc) && AllClosed(ops) && q <= |raw|
    requires Scan(raw[q..], q, seen, allowed).Ok? && NextUnit(raw[q..]).Entry?
    requires AllWithin(raw, Scan(raw[q..], q, seen, allowed).value)
    ensures var s := Scan(raw[q..], q, seen, allowed).value;
            Items(out + Cover(raw, q, EditsFor(raw, s, ops))) == Some(acc + Expected(s, ops))
    decreases |raw| - q, 1
  {
    hide NextUnit, Items, Progress, BlockStop, Cover, EditsFor, Expected, Scan, AtStatement, Closed;
    var s, rest := ScanAtStatement(raw, q, seen, allowed);
    AtStatementPlaces(raw, q, seen, allowed, s, rest);
    EditsForCons(raw, s, rest, ops);
    ExpectedCons(s, rest, ops);
    if s.key !in ops {
      KeepItems(raw, q, out, acc, seen, allowed, ops, s, rest);
      assert [] + EditsFor(raw, rest, ops) == EditsFor(raw, rest, ops);
    } else if ops[s.key].Replace? {
      ReplaceItems(raw, q, out, acc, seen, allowed, ops, s, rest);
    } else {
      RemoveItems(raw, q, out, acc, seen, allowed, ops, s, rest);
      assert [] + Expected(rest, ops) == Expected(rest, ops);
    }
  }

  lemma Rejoin(a: Bytes, b: Bytes, c: Bytes, x: seq<Item>, y: seq<Item>, z: seq<Item>)
    ensures a + b + c == a + (b + c) && x + y + z == x + (y + z)
  {
  }

  lemma {:induction false} KeepItems(raw: Bytes, q: nat, out: Bytes, acc: seq<Item>, seen: set<Bytes>,
                                     allowed: set<Bytes>, ops: map<Bytes, Op>, s: Statement, rest: seq<Statement>)
    requires Progress(raw, q, out, acc) && AllClosed(ops) && AtStatement(raw, q, seen, allowed, s, rest)
    requires Within(raw, s) && AllWithin(raw, rest)
    ensures Items(out + Cover(raw, q, EditsFor(raw, rest, ops))) == Some(acc + ([ItemOf(s)] + Expected(rest, ops)))
    decreases |raw| - q, 0
  {
    hide NextUnit, Items, Progress, BlockStop, Cover, EditsFor, Expected, StatementOf;
    AtStatementPlaces(raw, q, seen, allowed, s, rest);
    var p, edits := s.blockEnd, EditsFor(raw, rest, ops);
    EditsBehind(raw, p, seen + {s.key}, allowed, ops);
    KeepStep(raw, q, out, acc);
    CoverKeep(raw, q, p, edits);
    CoverItems(raw, p, out + raw[q..p], acc + [ItemOf(s)], seen + {s.key}, allowed, ops);
    Rejoin(out, raw[q..p], Cover(raw, p, edits), acc, [ItemOf(s)], Expected(rest, ops));
  }

  lemma {:induction false} ReplaceItems(raw: Bytes, q: nat, out: Bytes, acc: seq<Item>, seen: set<Bytes>,
                                        allowed: set<Bytes>, ops: map<Bytes, Op>, s: Statement, rest: seq<Statement>)
    requires Progress(raw, q, out, acc) && AllClosed(ops) && AtStatement(raw, q, seen, allowed, s, rest)
    requires AllWithin(raw, [s] + rest) && s.key in ops && ops[s.key].Replace?
    ensures var item := Item(s.key, ops[s.key].encoded, false);
            Items(out + Cover(raw, q, EditsFor(raw, [s] + rest, ops))) == Some(acc + ([item] + Expected(rest, ops)))
    decreases |raw| - q, 0
  {
    hide NextUnit, Items, Progress, BlockStop, Cover, EditsFor, Expected, StatementOf, Closed;
    AtStatementPlaces(raw, q, seen, allowed, s, rest);
    EditsForCons(raw, s, rest, ops);
    var p, edits, e := s.blockEnd, EditsFor(raw, rest, ops), ops[s.key].encoded;
    EditsBehind(raw, p, seen + {s.key}, allowed, ops);
    ReplaceStep(raw, q, out, acc, e);
    CoverReplace(raw, q, s.valueStart, s.valueEnd, p, e, edits);
    var piece := raw[q..s.valueStart] + e + raw[s.valueEnd..p];
    CoverItems(raw, p, out + piece, acc + [Item(s.key, e, false)], seen + {s.key}, allowed, ops);
    Rejoin(out, piece, Cover(raw, p, edits), acc, [Item(s.key, e, false)], Expected(rest, ops));
  }

  lemma {:induction false} RemoveItems(raw: Bytes, q: nat, out: Bytes, acc: seq<Item>, seen: set<Bytes>,
                                       allowed: set<Bytes>, ops: map<Bytes, Op>, s: Statement, rest: seq<Statement>)
    requires Progress(raw, q, out, acc) && AllClosed(ops) && AtStatement(raw, q, seen, allowed, s, rest)
    requires AllWithin(raw, [s] + rest) && s.key in ops && ops[s.key].Remove?
    ensures Items(out + Cover(raw, q, EditsFor(raw, [s] + rest, ops))) == Some(acc + Expected(rest, ops))
    decreases |raw| - q, 0
  {
    hide NextUnit, Items, Progress, BlockStop, Cover, EditsFor, Expected, StatementOf, PrecedingSeparator;
    AtStatementPlaces(raw, q, seen, allowed, s, rest);
    EditsForCons(raw, s, rest, ops);
    var edits, e := EditsFor(raw, rest, ops), EditOf(raw, s, Remove);
    CoverRemove(raw, q, e.start, e.end, edits);
    if s.end == |raw| && !FinalBreak(raw) {
      RemoveLast(raw, q, out, acc, seen, allowed, ops, s, rest, Max(q, e.start));
    } else {
      ScanBehindBreak(raw[s.blockEnd..], s.blockEnd, seen + {s.key}, allowed);
      assert raw[s.blockEnd..][BreakLength(raw[s.blockEnd..])..] == raw[s.end..];
      RemoveProgress(raw, q, out, acc, s.end);
      CoverItems(raw, s.end, out + raw[q..s.start], acc, seen + {s.key}, allowed, ops);
      Rejoin(out, raw[q..s.start], Cover(raw, s.end, edits), [], [], []);
    }
  }

  lemma RemoveLast(raw: Bytes, q: nat, out: Bytes, acc: seq<Item>, seen: set<Bytes>, allowed: set<Bytes>,
                   ops: map<Bytes, Op>, s: Statement, rest: seq<Statement>, p: nat)
    requires Progress(raw, q, out, acc) && AtStatement(raw, q, seen, allowed, s, rest)
    requires Within(raw, s) && AllWithin(raw, rest) && s.end == |raw| && !FinalBreak(raw) && q <= p <= s.start
    ensures Items(out + (raw[q..p] + Cover(raw, s.end, EditsFor(raw, rest, ops)))) == Some(acc + Expected(rest, ops))
  {
    hide NextUnit, Items, Progress, BlockStop, Cover, EditsFor, Expected;
    AtStatementPlaces(raw, q, seen, allowed, s, rest);
    LastStatement(raw, q, NextUnit(raw[q..]));
    EmptyScan(raw, s.blockEnd, seen + {s.key}, allowed, ops);
    RemoveStep(raw, q, out, acc, p - q);
    assert raw[q..p] + [] == raw[q..p];
    assert acc + [] == acc;
  }

  lemma EmptyScan(raw: Bytes, p: nat, seen: set<Bytes>, allowed: set<Bytes>, ops: map<Bytes, Op>)
    requires p == |raw|
    ensures Scan(raw[p..], p, seen, allowed) == Ok([])
    ensures EditsFor(raw, [], ops) == [] && Expected([], ops) == [] && Cover(raw, p, []) == []
  {
    EmptyIsBlank();
  }
}
