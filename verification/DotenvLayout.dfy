/** Where the bytes of an edited file come from: statement by statement, with everything around the values in its place. */
module DotenvLayout {
  import opened ByteStrings
  import opened DotenvSyntax
  import opened DotenvLocality
  import opened DotenvEdit
  import opened DotenvSplice
  import opened DotenvApply
  import opened DotenvChange
  import opened DotenvGrammar
  import opened DotenvPolicy
  import opened DotenvScanner
  import opened KeyOrder

  // ---------- the edited text, statement by statement ----------

  /** How far a removal reaches back: to its line, or to the break in front when it was the unterminated last line. */
  function RemovedFrom(raw: Bytes, from: nat, s: Statement): (p: nat)
    requires from <= s.start <= |raw|
    ensures from <= p <= s.start
  {
    if s.end < |raw| || FinalBreak(raw) then s.start else Max(from, PrecedingSeparator(raw, s.start))
  }

  /** Kept and replaced statements keep their line, but for the value; a removed one goes with its break. */
  function Laid(raw: Bytes, from: nat, s: seq<Statement>, ops: map<Bytes, Op>): Bytes
    requires AllWithin(raw, s) && Follow(raw, from, s)
    decreases |s|
  {
    if s == [] then raw[from..]
    else
      var x := s[0];
      if x.key !in ops then raw[from..x.blockEnd] + Laid(raw, x.blockEnd, s[1..], ops)
      else match ops[x.key]
           case Replace(e) =>
             raw[from..x.valueStart] + e + raw[x.valueEnd..x.blockEnd] + Laid(raw, x.blockEnd, s[1..], ops)
           case Remove => raw[from..RemovedFrom(raw, from, x)] + Laid(raw, x.end, s[1..], ops)
  }

  /** Each statement starts behind the end of the one before it, and the break in front of it behind that one's block. */
  predicate Follow(raw: Bytes, from: nat, s: seq<Statement>)
    requires AllWithin(raw, s)
  {
    && from <= |raw| && (s != [] ==> from <= s[0].start)
    && forall i :: 0 < i < |s| ==> s[i - 1].end <= s[i].start && s[i - 1].blockEnd <= PrecedingSeparator(raw, s[i].start)
  }

  lemma FollowTail(raw: Bytes, from: nat, s: seq<Statement>, p: nat)
    requires AllWithin(raw, s) && s != [] && Follow(raw, from, s) && p <= s[0].end
    ensures AllWithin(raw, s[1..]) && Follow(raw, p, s[1..])
  {
    hide PrecedingSeparator;
    assert forall i :: 0 <= i < |s| - 1 ==> s[1..][i] == s[i + 1];
  }

  /** Behind a block, the next line starts behind the break that follows the block. */
  lemma NextLineStart(raw: Bytes, p: nat)
    requires BlockStop(raw, p) && NextUnit(raw[p..]).Entry?
    ensures p + BreakLength(raw[p..]) <= p + NextUnit(raw[p..]).lineStart
  {
    hide UnitOf, SpaceLength, LineStart;
    var d := raw[p..];
    UnitLine(d);
    assert d != [] && IsBreak(d[0]);
  }

  /** The statements of a scan follow each other, behind any comments. */
  lemma {:induction false} ScanFollows(raw: Bytes, p: nat, seen: set<Bytes>, allowed: set<Bytes>)
    requires BlockStop(raw, p) && Scan(raw[p..], p, seen, allowed).Ok?
    ensures AllWithin(raw, Scan(raw[p..], p, seen, allowed).value)
    ensures Follow(raw, p + BreakLength(raw[p..]), Scan(raw[p..], p, seen, allowed).value)
    ensures var s := Scan(raw[p..], p, seen, allowed).value; s != [] ==> p <= PrecedingSeparator(raw, s[0].start)
    decreases |raw| - p
  {
    hide NextUnit, BlockStop, StatementOf, BreakLength, AtStatement, Follows, PrecedingSeparator;
    BlockStopBounds(raw, p);
    ScanWithin(raw, p, seen, allowed);
    var d := raw[p..];
    match NextUnit(d)
    case Blank =>
    case Comment(n) =>
      UnitStops(raw, p);
      CommentBehindBreak(raw, p);
      assert d[n..] == raw[p + n..];
      ScanFollows(raw, p + n, seen, allowed);
    case Entry(_, _, _, _, _, _) =>
      var s, rest := ScanAtStatement(raw, p, seen, allowed);
      NextLineStart(raw, p);
      LineStartsBehind(raw, p);
      AtStatementPlaces(raw, p, seen, allowed, s, rest);
      AtStatementScan(raw, p, seen, allowed, s, rest);
      ScanFollows(raw, s.blockEnd, seen + {s.key}, allowed);
      FollowCons(raw, p + BreakLength(raw[p..]), s, rest);
    case Malformed =>
    case MalformedValue(_) =>
  }

  lemma FollowCons(raw: Bytes, from: nat, s: Statement, rest: seq<Statement>)
    requires AllWithin(raw, [s] + rest) && AllWithin(raw, rest) && from <= s.start <= |raw| && Follow(raw, s.end, rest)
    requires rest != [] ==> s.blockEnd <= PrecedingSeparator(raw, rest[0].start)
    ensures Follow(raw, from, [s] + rest)
  {
    hide PrecedingSeparator;
    var all := [s] + rest;
    assert forall i :: 0 < i < |all| ==> all[i] == rest[i - 1];
  }

  lemma CommentBehindBreak(raw: Bytes, p: nat)
    requires BlockStop(raw, p) && NextUnit(raw[p..]).Comment?
    ensures BreakLength(raw[p..]) <= NextUnit(raw[p..]).end
  {
    hide UnitOf;
    CommentEnd(raw[p..]);
  }

  lemma CommentEnd(d: Bytes)
    requires NextUnit(d).Comment? && d != [] && IsBreak(d[0])
    ensures BreakLength(d) <= NextUnit(d).end
  {
    var w := SpaceLength(d);
    assert w >= BreakLength(d);
  }

  // ---------- the splice writes just that ----------

  lemma {:induction false} EditsFrom(raw: Bytes, s: seq<Statement>, ops: map<Bytes, Op>, p: nat)
    requires AllWithin(raw, s) && Follow(raw, p, s) && (s != [] ==> p <= PrecedingSeparator(raw, s[0].start))
    ensures StartsFrom(EditsFor(raw, s, ops), p)
    decreases |s|
  {
    hide PrecedingSeparator;
    if s != [] {
      FollowTail(raw, p, s, s[0].blockEnd);
      assert |s| > 1 ==> s[1..][0] == s[1];
      EditsFrom(raw, s[1..], ops, s[0].blockEnd);
      if s[0].key in ops {
        FirstFrom(raw, s[0], ops, p);
      }
    }
  }

  lemma FirstFrom(raw: Bytes, s: Statement, ops: map<Bytes, Op>, p: nat)
    requires Within(raw, s) && p <= s.start && p <= PrecedingSeparator(raw, s.start) && s.key in ops
    ensures p <= EditOf(raw, s, ops[s.key]).start && p < EditOf(raw, s, ops[s.key]).end
  {
  }

  /** Splicing the edits of the statements writes exactly the text laid out. */
  lemma {:induction false} CoverIsLaid(raw: Bytes, from: nat, s: seq<Statement>, ops: map<Bytes, Op>)
    requires AllWithin(raw, s) && Follow(raw, from, s)
    ensures Cover(raw, from, EditsFor(raw, s, ops)) == Laid(raw, from, s, ops)
    decreases |s|
  {
    hide Cover, PrecedingSeparator, StartsFrom;
    if s == [] {
      CoverNothing(raw, from);
    } else {
      var x, rest := s[0], s[1..];
      FollowTail(raw, from, s, x.blockEnd);
      FollowTail(raw, from, s, x.end);
      assert |s| > 1 ==> rest[0] == s[1];
      var edits := EditsFor(raw, rest, ops);
      EditsFrom(raw, rest, ops, x.blockEnd);
      if x.key !in ops {
        CoverKeep(raw, from, x.blockEnd, edits);
        CoverIsLaid(raw, x.blockEnd, rest, ops);
      } else if ops[x.key].Replace? {
        CoverReplace(raw, from, x.valueStart, x.valueEnd, x.blockEnd, ops[x.key].encoded, edits);
        CoverIsLaid(raw, x.blockEnd, rest, ops);
      } else {
        var e := EditOf(raw, x, Remove);
        CoverRemove(raw, from, e.start, e.end, edits);
        CoverIsLaid(raw, x.end, rest, ops);
        RemovalStart(raw, from, x);
      }
    }
  }

  lemma CoverNothing(raw: Bytes, from: nat)
    requires from <= |raw|
    ensures Cover(raw, from, []) == raw[from..]
  {
  }

  lemma RemovalStart(raw: Bytes, from: nat, s: Statement)
    requires Within(raw, s) && from <= s.start
    ensures Max(from, EditOf(raw, s, Remove).start) == RemovedFrom(raw, from, s)
  {
  }

  /** The statements of a whole file follow each other. */
  lemma FileFollows(raw: Bytes, allowed: set<Bytes>)
    requires Scan(raw, 0, {}, allowed).Ok?
    ensures AllWithin(raw, Scan(raw, 0, {}, allowed).value) && Follow(raw, 0, Scan(raw, 0, {}, allowed).value)
  {
    FileFollowsFrom(raw, 0, {}, allowed);
    assert raw[0..] == raw;
  }

  lemma {:induction false} FileFollowsFrom(raw: Bytes, p: nat, seen: set<Bytes>, allowed: set<Bytes>)
    requires p <= |raw| && Scan(raw[p..], p, seen, allowed).Ok?
    ensures AllWithin(raw, Scan(raw[p..], p, seen, allowed).value)
    ensures Follow(raw, p, Scan(raw[p..], p, seen, allowed).value)
    decreases |raw| - p
  {
    hide NextUnit, BlockStop, StatementOf, BreakLength, AtStatement, Follows, PrecedingSeparator;
    ScanWithin(raw, p, seen, allowed);
    var d := raw[p..];
    match NextUnit(d)
    case Blank =>
    case Comment(n) =>
      UnitStops(raw, p);
      assert d[n..] == raw[p + n..];
      FileFollowsFrom(raw, p + n, seen, allowed);
    case Entry(_, _, _, _, _, _) =>
      var s, rest := ScanAtStatement(raw, p, seen, allowed);
      AtStatementPlaces(raw, p, seen, allowed, s, rest);
      AtStatementScan(raw, p, seen, allowed, s, rest);
      ScanFollows(raw, s.blockEnd, seen + {s.key}, allowed);
      FollowCons(raw, p, s, rest);
    case Malformed =>
    case MalformedValue(_) =>
  }

  // ---------- what stays around a value ----------

  /** t stands in s. */
  ghost predicate Holds(s: Bytes, t: Bytes) {
    exists a, b :: s == a + t + b
  }

  lemma HoldsBehind(x: Bytes, s: Bytes, t: Bytes)
    requires Holds(s, t)
    ensures Holds(x + s, t)
  {
    var a, b :| s == a + t + b;
    assert x + s == (x + a) + t + b;
  }

  /** The line of a statement, with its new value if it is to have one. */
  function LineOf(raw: Bytes, s: Statement, ops: map<Bytes, Op>): Bytes
    requires Within(raw, s)
  {
    raw[s.start..s.valueStart]
    + (if s.key in ops && ops[s.key].Replace? then ops[s.key].encoded else raw[s.valueStart..s.valueEnd])
    + raw[s.valueEnd..s.blockEnd]
  }

  /** Every line that is not removed is in the edited text whole, but for a value that is replaced: its comment too. */
  lemma {:induction false} LinesStay(raw: Bytes, from: nat, s: seq<Statement>, ops: map<Bytes, Op>, i: nat)
    requires AllWithin(raw, s) && Follow(raw, from, s) && i < |s|
    requires s[i].key in ops ==> ops[s[i].key].Replace?
    ensures Holds(Laid(raw, from, s, ops), LineOf(raw, s[i], ops))
    decreases |s|
  {
    hide Holds, LineOf, PrecedingSeparator;
    var x, rest := s[0], s[1..];
    FollowTail(raw, from, s, x.blockEnd);
    FollowTail(raw, from, s, x.end);
    if i == 0 {
      FirstLine(raw, from, x, ops, Laid(raw, x.blockEnd, rest, ops));
    } else {
      assert s[i] == rest[i - 1];
      var q := if x.key in ops && ops[x.key].Remove? then x.end else x.blockEnd;
      LinesStay(raw, q, rest, ops, i - 1);
      var before := if x.key !in ops then raw[from..x.blockEnd]
                    else match ops[x.key]
                         case Replace(e) => raw[from..x.valueStart] + e + raw[x.valueEnd..x.blockEnd]
                         case Remove => raw[from..RemovedFrom(raw, from, x)];
      HoldsBehind(before, Laid(raw, q, rest, ops), LineOf(raw, s[i], ops));
    }
  }

  lemma FirstLine(raw: Bytes, from: nat, s: Statement, ops: map<Bytes, Op>, rest: Bytes)
    requires Within(raw, s) && from <= s.start && (s.key in ops ==> ops[s.key].Replace?)
    ensures var value := if s.key in ops then ops[s.key].encoded else raw[s.valueStart..s.valueEnd];
            Holds(raw[from..s.valueStart] + value + raw[s.valueEnd..s.blockEnd] + rest, LineOf(raw, s, ops))
    ensures s.key !in ops ==> Holds(raw[from..s.blockEnd] + rest, LineOf(raw, s, ops))
  {
    var value := if s.key in ops then ops[s.key].encoded else raw[s.valueStart..s.valueEnd];
    assert raw[from..s.valueStart] == raw[from..s.start] + raw[s.start..s.valueStart];
    var line := LineOf(raw, s, ops);
    assert raw[from..s.valueStart] + value + raw[s.valueEnd..s.blockEnd] + rest == raw[from..s.start] + line + rest;
    if s.key !in ops {
      assert raw[from..s.blockEnd] + rest == raw[from..s.start] + line + rest;
    }
  }

  /** Whatever stands between statements stays. */
  lemma {:induction false} GapStays(raw: Bytes, from: nat, s: seq<Statement>, ops: map<Bytes, Op>, a: nat, b: nat)
    requires AllWithin(raw, s) && Follow(raw, from, s) && from <= a <= b <= |raw|
    requires forall x :: x in s ==> x.end <= a || (b <= x.start && b <= PrecedingSeparator(raw, x.start))
    ensures Holds(Laid(raw, from, s, ops), raw[a..b])
    decreases |s|
  {
    hide Holds, PrecedingSeparator;
    if s == [] {
      Inside(raw, from, a, b, |raw|, []);
      assert raw[from..] + [] == raw[from..] && raw[from..|raw|] == raw[from..];
    } else {
      var x, rest := s[0], s[1..];
      FollowTail(raw, from, s, x.blockEnd);
      FollowTail(raw, from, s, x.end);
      assert x in s && forall y :: y in rest ==> y in s;
      if x.end <= a {
        var q := if x.key in ops && ops[x.key].Remove? then x.end else x.blockEnd;
        GapStays(raw, q, rest, ops, a, b);
        var before := if x.key !in ops then raw[from..x.blockEnd]
                      else match ops[x.key]
                           case Replace(e) => raw[from..x.valueStart] + e + raw[x.valueEnd..x.blockEnd]
                           case Remove => raw[from..RemovedFrom(raw, from, x)];
        HoldsBehind(before, Laid(raw, q, rest, ops), raw[a..b]);
      } else if x.key !in ops {
        Inside(raw, from, a, b, x.blockEnd, Laid(raw, x.blockEnd, rest, ops));
      } else {
        match ops[x.key]
        case Replace(e) =>
          var more := Laid(raw, x.blockEnd, rest, ops);
          Inside(raw, from, a, b, x.valueStart, e + raw[x.valueEnd..x.blockEnd] + more);
          Regroup4(raw[from..x.valueStart], e, raw[x.valueEnd..x.blockEnd], more);
        case Remove =>
          RemovedBehind(raw, from, x, b);
          Inside(raw, from, a, b, RemovedFrom(raw, from, x), Laid(raw, x.end, rest, ops));
      }
    }
  }

  lemma Inside(raw: Bytes, from: nat, a: nat, b: nat, to: nat, rest: Bytes)
    requires from <= a <= b <= to <= |raw|
    ensures Holds(raw[from..to] + rest, raw[a..b])
  {
    assert raw[from..to] + rest == raw[from..a] + raw[a..b] + (raw[b..to] + rest);
  }

  lemma Regroup4(a: Bytes, b: Bytes, c: Bytes, d: Bytes)
    ensures a + b + c + d == a + (b + c + d)
  {
  }

  lemma RemovedBehind(raw: Bytes, from: nat, s: Statement, b: nat)
    requires from <= s.start <= |raw| && b <= s.start && b <= PrecedingSeparator(raw, s.start)
    ensures b <= RemovedFrom(raw, from, s)
  {
  }

  // ---------- in terms of what is written ----------

  /** An assignment up to its value. */
  function Head(p: Piece): Bytes
    requires p.Assignment?
  {
    p.prefix + (p.keyText + [p.separator] + p.lead)
  }

  /** The statement of an assignment that stands in the file: its value is exactly the value written, its tail the tail. */
  predicate StatementIs(raw: Bytes, s: Statement, p: Piece)
    requires p.Assignment?
  {
    && Within(raw, s) && s.key == Trim(p.keyText) && s.expansion == Expands(p.form)
    && raw[s.valueStart..s.valueEnd] == s.value == Body(p.form) && raw[s.valueEnd..s.blockEnd] == p.tail
    && s.start <= s.valueStart - |Head(p)| && raw[s.valueStart - |Head(p)|..s.valueStart] == Head(p)
  }

  lemma PartStands(raw: Bytes, q: nat, part: Part, rest: Bytes)
    requires q <= |raw| && raw[q..] == part.space + PieceText(part.piece) + rest
    requires AllSpace(part.space) && ValidPiece(part.piece) && Follows(rest)
    ensures var p, n, u := part.piece, |part.space| + |PieceText(part.piece)|, NextUnit(raw[q..]);
            && q + n <= |raw| && raw[q + n..] == rest && BreakLength(raw[q..]) <= |part.space|
            && raw[q + |part.space|..q + n] == PieceText(p)
            && if p.Remark? then u == Comment(n)
               else u.Entry? && u.blockEnd == n && StatementIs(raw, StatementOf(raw[q..], q, u), p)
  {
    hide Trim, Body, Expands, ValidPiece, NextUnit, PieceText, ValueAt, AllSpace, StatementIs, IsSpace, UnitItem, PieceItem;
    var p, w, d := part.piece, |part.space|, raw[q..];
    var n := w + |PieceText(p)|;
    PartReads(part, rest);
    PieceStarts(p);
    assert d[n..] == raw[q + n..];
    BodySlice(part.space, PieceText(p), rest, 0, |PieceText(p)|);
    assert raw[q + w..q + n] == d[w..n] == PieceText(p);
    assert d[..w] == part.space && d[w] == PieceText(p)[0];
    BreakIsSpace(d, w, part.space);
    if p.Assignment? {
      PieceLine(raw, q, part);
    }
  }

  lemma PieceLine(raw: Bytes, q: nat, part: Part)
    requires q <= |raw| && part.piece.Assignment? && AllSpace(part.space)
    requires var d, p, w, u := raw[q..], part.piece, |part.space|, NextUnit(raw[q..]);
             && w < |d| && d[..w] == part.space && !IsSpace(d[w]) && w + |PieceText(p)| <= |d|
             && d[w..w + |PieceText(p)|] == PieceText(p)
             && u.Entry? && u.blockEnd == w + |PieceText(p)| && u.valueStart == w + ValueAt(p)
             && u.valueEnd == u.valueStart + |Body(p.form)| && UnitItem(d, u) == PieceItem(p)
    ensures StatementIs(raw, StatementOf(raw[q..], q, NextUnit(raw[q..])), part.piece)
  {
    hide Trim, Body, Expands, NextUnit, PieceText, LineStart, SpaceLength, BreakLength, UnitItem, PieceItem;
    var d, p, w, u := raw[q..], part.piece, |part.space|, NextUnit(raw[q..]);
    SpaceThen(d, w, part.space);
    UnitLine(d);
    ItemFields(d, u, p);
    WithinUnit(raw, q, u);
    PieceCuts(raw, q, w, p);
    assert d[u.valueStart..u.valueEnd] == raw[q + u.valueStart..q + u.valueEnd];
    hide ValueAt, Head, Within;
  }

  lemma PieceCuts(raw: Bytes, q: nat, w: nat, p: Piece)
    requires p.Assignment? && q + w + |PieceText(p)| <= |raw| && raw[q..][w..w + |PieceText(p)|] == PieceText(p)
    ensures var a, b := q + w + ValueAt(p), q + w + ValueAt(p) + |Body(p.form)|;
            && |Head(p)| == ValueAt(p) && b <= q + w + |PieceText(p)|
            && raw[q + w..a] == Head(p) && raw[a..b] == Body(p.form) && raw[b..q + w + |PieceText(p)|] == p.tail
  {
    hide Body, PieceText, ValueAt, Head;
    var t := PieceText(p);
    BodyStands(p);
    HeadStands(p);
    Cut(raw, q, w, t, 0, ValueAt(p));
    Cut(raw, q, w, t, ValueAt(p), ValueAt(p) + |Body(p.form)|);
    Cut(raw, q, w, t, ValueAt(p) + |Body(p.form)|, |t|);
  }

  lemma WithinUnit(raw: Bytes, q: nat, u: Unit)
    requires q <= |raw| && u.Entry? && u.lineStart < u.valueStart <= u.valueEnd <= u.blockEnd <= |raw| - q
    ensures Within(raw, StatementOf(raw[q..], q, u))
  {
    assert |raw[q..][u.blockEnd..]| == |raw| - q - u.blockEnd;
  }

  lemma SpaceThen(d: Bytes, w: nat, space: Bytes)
    requires w == |space| < |d| && d[..w] == space && AllSpace(space) && !IsSpace(d[w])
    ensures SpaceLength(d) == w
  {
    assert forall i :: 0 <= i < w ==> d[i] == space[i];
    SpaceLengthIs(d, w);
  }

  lemma ItemFields(d: Bytes, u: Unit, p: Piece)
    requires u.Entry? && u.valueStart <= u.valueEnd <= |d| && p.Assignment? && UnitItem(d, u) == PieceItem(p)
    ensures u.key == Trim(p.keyText) && u.expansion == Expands(p.form) && d[u.valueStart..u.valueEnd] == Body(p.form)
  {
    hide Trim, Body, Expands;
  }

  lemma HeadStands(p: Piece)
    requires p.Assignment?
    ensures |Head(p)| == ValueAt(p) <= |PieceText(p)| && PieceText(p)[..ValueAt(p)] == Head(p)
  {
    hide Body;
    assert PieceText(p) == Head(p) + (Body(p.form) + p.tail);
  }

  lemma Cut(raw: Bytes, q: nat, w: nat, t: Bytes, a: nat, b: nat)
    requires q + w + |t| <= |raw| && raw[q..][w..w + |t|] == t && a <= b <= |t|
    ensures raw[q + w + a..q + w + b] == t[a..b]
  {
    SliceOfSlice(raw[q..], w, |t|, a, b);
    Shifted(raw, q, w + a, w + b);
  }

  lemma SliceOfSlice(d: Bytes, w: nat, n: nat, a: nat, b: nat)
    requires w + n <= |d| && a <= b <= n
    ensures d[w..w + n][a..b] == d[w + a..w + b]
  {
    var x, y := d[w..w + n][a..b], d[w + a..w + b];
    forall i | 0 <= i < b - a ensures x[i] == y[i] {
      assert x[i] == d[w..w + n][a + i] == d[w + a + i];
    }
  }

  lemma BreakIsSpace(d: Bytes, w: nat, space: Bytes)
    requires w == |space| < |d| && d[..w] == space && AllSpace(space) && !IsSpace(d[w])
    ensures BreakLength(d) <= w
  {
    assert w == 0 ==> !IsBreak(d[0]);
    assert w == 1 && |d| > 1 ==> d[1] != LF;
  }

  /** Each assignment that stands in a file is a statement of its scan. */
  lemma {:induction false} AssignmentScanned(raw: Bytes, q: nat, parts: seq<Part>, final: Bytes, seen: set<Bytes>,
                                             allowed: set<Bytes>, k: nat) returns (i: nat)
    requires q <= |raw| && raw[q..] == Text(parts, final) && ValidParts(parts, final)
    requires Scan(raw[q..], q, seen, allowed).Ok? && k < |parts| && parts[k].piece.Assignment?
    ensures i < |Scan(raw[q..], q, seen, allowed).value|
    ensures StatementIs(raw, Scan(raw[q..], q, seen, allowed).value[i], parts[k].piece)
    decreases |parts|
  {
    hide NextUnit, StatementOf, StatementIs, ValidPiece, PieceText, AllSpace, Follows, Text, ValidParts, BreakLength, Scan;
    TextFirst(parts, final);
    if parts[0].piece.Remark? {
      var part := parts[0];
      PartStands(raw, q, part, Text(parts[1..], final));
      var n := |part.space| + |PieceText(part.piece)|;
      ScanComment(raw, q, n, seen, allowed);
      i := AssignmentScanned(raw, q + n, parts[1..], final, seen, allowed, k - 1);
    } else {
      i := AssignmentBehind(raw, q, parts, final, seen, allowed, k);
    }
  }

  lemma ScanComment(raw: Bytes, q: nat, n: nat, seen: set<Bytes>, allowed: set<Bytes>)
    requires q <= |raw| && NextUnit(raw[q..]) == Comment(n)
    ensures q + n <= |raw| && Scan(raw[q..], q, seen, allowed) == Scan(raw[q + n..], q + n, seen, allowed)
  {
    hide NextUnit;
    assert raw[q..][n..] == raw[q + n..];
  }

  lemma {:induction false} AssignmentBehind(raw: Bytes, q: nat, parts: seq<Part>, final: Bytes, seen: set<Bytes>,
                                            allowed: set<Bytes>, k: nat) returns (i: nat)
    requires q <= |raw| && raw[q..] == Text(parts, final) && ValidParts(parts, final) && parts != [] && parts[0].piece.Assignment?
    requires Scan(raw[q..], q, seen, allowed).Ok? && k < |parts| && parts[k].piece.Assignment?
    ensures i < |Scan(raw[q..], q, seen, allowed).value|
    ensures StatementIs(raw, Scan(raw[q..], q, seen, allowed).value[i], parts[k].piece)
    decreases |parts|, 0
  {
    hide NextUnit, StatementOf, StatementIs, ValidPiece, PieceText, AllSpace, Follows, Text, ValidParts, BreakLength, Scan,
         AtStatement, Within;
    TextFirst(parts, final);
    var part, rest := parts[0], Text(parts[1..], final);
    PartStands(raw, q, part, rest);
    var n := |part.space| + |PieceText(part.piece)|;
    var s, more := ScanAtStatement(raw, q, seen, allowed);
    AtStatementPlaces(raw, q, seen, allowed, s, more);
    AtStatementScan(raw, q, seen, allowed, s, more);
    AtStatementIs(raw, q, seen, allowed, s, more);
    if k == 0 {
      i := 0;
    } else {
      var j := AssignmentScanned(raw, q + n, parts[1..], final, seen + {s.key}, allowed, k - 1);
      i := j + 1;
    }
  }

  lemma AtStatementIs(raw: Bytes, q: nat, seen: set<Bytes>, allowed: set<Bytes>, s: Statement, rest: seq<Statement>)
    requires AtStatement(raw, q, seen, allowed, s, rest)
    ensures q <= |raw| && NextUnit(raw[q..]).Entry? && s == StatementOf(raw[q..], q, NextUnit(raw[q..]))
  {
  }

  /** Every statement lies before a or behind b, with the break in front of it. */
  predicate Clear(raw: Bytes, s: seq<Statement>, a: nat, b: nat)
    requires AllWithin(raw, s)
  {
    forall x :: x in s ==> x.end <= a || (b <= x.start && b <= PrecedingSeparator(raw, x.start))
  }

  lemma ClearCons(raw: Bytes, s: Statement, rest: seq<Statement>, a: nat, b: nat)
    requires AllWithin(raw, [s] + rest) && AllWithin(raw, rest) && Clear(raw, rest, a, b) && s.end <= a
    ensures Clear(raw, [s] + rest, a, b)
  {
    hide PrecedingSeparator;
  }

  /** Where a comment stands, every statement lies before it or behind it. */
  lemma {:induction false} RemarkScanned(raw: Bytes, q: nat, parts: seq<Part>, final: Bytes, seen: set<Bytes>,
                                         allowed: set<Bytes>, k: nat) returns (a: nat)
    requires q <= |raw| && raw[q..] == Text(parts, final) && ValidParts(parts, final)
    requires Scan(raw[q..], q, seen, allowed).Ok? && k < |parts| && parts[k].piece.Remark?
    ensures AllWithin(raw, Scan(raw[q..], q, seen, allowed).value)
    ensures q + BreakLength(raw[q..]) <= a && a + |PieceText(parts[k].piece)| <= |raw|
    ensures var b := a + |PieceText(parts[k].piece)|;
            raw[a..b] == PieceText(parts[k].piece) && Clear(raw, Scan(raw[q..], q, seen, allowed).value, a, b)
    decreases |parts|
  {
    hide NextUnit, StatementOf, StatementIs, ValidPiece, PieceText, AllSpace, Follows, PrecedingSeparator, BreakLength, Clear,
         AllWithin, Scan, Text, ValidParts;
    TextFirst(parts, final);
    if parts[0].piece.Remark? {
      var part := parts[0];
      PartStands(raw, q, part, Text(parts[1..], final));
      var n := |part.space| + |PieceText(part.piece)|;
      ScanComment(raw, q, n, seen, allowed);
      if k == 0 {
        a := q + |part.space|;
        UnitStops(raw, q);
        BehindClear(raw, q + n, seen, allowed, a);
      } else {
        a := RemarkScanned(raw, q + n, parts[1..], final, seen, allowed, k - 1);
      }
    } else {
      a := RemarkBehind(raw, q, parts, final, seen, allowed, k);
    }
  }

  lemma BehindClear(raw: Bytes, b: nat, seen: set<Bytes>, allowed: set<Bytes>, a: nat)
    requires BlockStop(raw, b) && Scan(raw[b..], b, seen, allowed).Ok?
    ensures AllWithin(raw, Scan(raw[b..], b, seen, allowed).value) && Clear(raw, Scan(raw[b..], b, seen, allowed).value, a, b)
  {
    hide Scan, PrecedingSeparator, Follow;
    ScanFollows(raw, b, seen, allowed);
    FollowEarlier(raw, b, BreakLength(raw[b..]), Scan(raw[b..], b, seen, allowed).value);
    AllBehind(raw, b, Scan(raw[b..], b, seen, allowed).value);
  }

  lemma FollowEarlier(raw: Bytes, b: nat, n: nat, s: seq<Statement>)
    requires AllWithin(raw, s) && Follow(raw, b + n, s)
    ensures Follow(raw, b, s)
  {
    hide PrecedingSeparator;
  }

  lemma {:induction false} RemarkBehind(raw: Bytes, q: nat, parts: seq<Part>, final: Bytes, seen: set<Bytes>,
                                        allowed: set<Bytes>, k: nat) returns (a: nat)
    requires q <= |raw| && raw[q..] == Text(parts, final) && ValidParts(parts, final)
    requires Scan(raw[q..], q, seen, allowed).Ok? && 0 < k < |parts| && parts[k].piece.Remark? && parts[0].piece.Assignment?
    ensures AllWithin(raw, Scan(raw[q..], q, seen, allowed).value)
    ensures q + BreakLength(raw[q..]) <= a && a + |PieceText(parts[k].piece)| <= |raw|
    ensures var b := a + |PieceText(parts[k].piece)|;
            raw[a..b] == PieceText(parts[k].piece) && Clear(raw, Scan(raw[q..], q, seen, allowed).value, a, b)
    decreases |parts|, 0
  {
    hide NextUnit, StatementOf, StatementIs, ValidPiece, PieceText, AllSpace, Follows, PrecedingSeparator, BreakLength, Clear,
         AllWithin, Scan, Text, AtStatement;
    var part, rest := parts[0], Text(parts[1..], final);
    TextFirst(parts, final);
    PartStands(raw, q, part, rest);
    var n := |part.space| + |PieceText(part.piece)|;
    ScanWithin(raw, q, seen, allowed);
    var s, more := ScanAtStatement(raw, q, seen, allowed);
    AtStatementPlaces(raw, q, seen, allowed, s, more);
    AtStatementScan(raw, q, seen, allowed, s, more);
    a := RemarkScanned(raw, q + n, parts[1..], final, seen + {s.key}, allowed, k - 1);
    ClearCons(raw, s, more, a, a + |PieceText(parts[k].piece)|);
  }

  lemma TextFirst(parts: seq<Part>, final: Bytes)
    requires parts != [] && ValidParts(parts, final)
    ensures Text(parts, final) == parts[0].space + PieceText(parts[0].piece) + Text(parts[1..], final)
    ensures AllSpace(parts[0].space) && ValidPiece(parts[0].piece)
    ensures ValidParts(parts[1..], final) && Follows(Text(parts[1..], final))
  {
  }

  lemma {:induction false} AllBehind(raw: Bytes, b: nat, s: seq<Statement>)
    requires AllWithin(raw, s) && Follow(raw, b, s) && (s != [] ==> b <= PrecedingSeparator(raw, s[0].start))
    ensures forall x :: x in s ==> b <= x.start && b <= PrecedingSeparator(raw, x.start)
    decreases |s|
  {
    hide PrecedingSeparator;
    if s != [] {
      FollowTail(raw, b, s, b);
      assert |s| > 1 ==> s[1..][0] == s[1];
      AllBehind(raw, b, s[1..]);
      assert forall x :: x in s ==> x == s[0] || x in s[1..];
    }
  }

  lemma CandidateExtends(body: Bytes, keys: seq<Bytes>, values: map<Bytes, Bytes>, newline: Bytes, final: bool)
    requires forall k :: k in keys ==> k in values
    ensures body <= Candidate(body, keys, values, newline, final)
  {
    hide NewText;
  }

  lemma CandidateHolds(body: Bytes, keys: seq<Bytes>, values: map<Bytes, Bytes>, newline: Bytes, final: bool, t: Bytes)
    requires Holds(body, t) && forall k :: k in keys ==> k in values
    ensures Holds(Candidate(body, keys, values, newline, final), t)
  {
    hide Candidate;
    CandidateExtends(body, keys, values, newline, final);
    var all := Candidate(body, keys, values, newline, final);
    var a, b :| body == a + t + b;
    assert all == body + all[|body|..] == a + t + (b + all[|body|..]);
  }

  /** What stays in the text laid out stays in the edited file. */
  lemma EditedHolds(raw: Bytes, allowed: set<Bytes>, ops: map<Bytes, Op>, t: Bytes)
    requires Scan(raw, 0, {}, allowed).Ok? && AllWithin(raw, Scan(raw, 0, {}, allowed).value)
    requires Follow(raw, 0, Scan(raw, 0, {}, allowed).value)
    requires Holds(Laid(raw, 0, Scan(raw, 0, {}, allowed).value, ops), t)
    ensures Holds(Edited(raw, allowed, ops), t)
  {
    hide Holds, Scan, Laid, Cover, EditsFor, Candidate, Follow, EntriesOf;
    var s := Scan(raw, 0, {}, allowed).value;
    CoverIsLaid(raw, 0, s, ops);
    var values := NewValues(EntriesOf(s, allowed), ops);
    ArrangeHas(values.Keys);
    CandidateHolds(Laid(raw, 0, s, ops), Arrange(values.Keys), values, DetectNewline(raw), FinalBreak(raw), t);
  }

  /**
   An assignment that is not removed stays where it stands, with its export, its spaces and its comment; only its value
   is the new one, when it is replaced.
   */
  lemma AssignmentStays(parts: seq<Part>, final: Bytes, allowed: set<Bytes>, ops: map<Bytes, Op>, k: nat)
    requires ValidParts(parts, final) && Scan(Text(parts, final), 0, {}, allowed).Ok?
    requires k < |parts| && parts[k].piece.Assignment?
    requires var key := Trim(parts[k].piece.keyText); key in ops ==> ops[key].Replace?
    ensures AllWithin(Text(parts, final), Scan(Text(parts, final), 0, {}, allowed).value)
    ensures var p := parts[k].piece;
            var value := if Trim(p.keyText) in ops then ops[Trim(p.keyText)].encoded else Body(p.form);
            Holds(Edited(Text(parts, final), allowed, ops), Head(p) + value + p.tail)
  {
    hide Holds, Scan, Laid, Edited, Head, Body, Trim, ValidParts, Follow, LineOf;
    var raw, p := Text(parts, final), parts[k].piece;
    assert raw[0..] == raw;
    FileFollows(raw, allowed);
    var i := AssignmentScanned(raw, 0, parts, final, {}, allowed, k);
    var s := Scan(raw, 0, {}, allowed).value;
    LinesStay(raw, 0, s, ops, i);
    EditedHolds(raw, allowed, ops, LineOf(raw, s[i], ops));
    LineHasHead(raw, s[i], p, ops);
    HoldsPart(Edited(raw, allowed, ops), LineOf(raw, s[i], ops),
              Head(p) + (if Trim(p.keyText) in ops then ops[Trim(p.keyText)].encoded else Body(p.form)) + p.tail);
  }

  lemma LineHasHead(raw: Bytes, s: Statement, p: Piece, ops: map<Bytes, Op>)
    requires p.Assignment? && StatementIs(raw, s, p) && (s.key in ops ==> ops[s.key].Replace?)
    ensures Holds(LineOf(raw, s, ops), Head(p) + (if s.key in ops then ops[s.key].encoded else Body(p.form)) + p.tail)
  {
    hide Head, Body, Trim;
    var at := s.valueStart - |Head(p)|;
    var value := if s.key in ops then ops[s.key].encoded else Body(p.form);
    assert raw[s.start..s.valueStart] == raw[s.start..at] + Head(p);
    assert LineOf(raw, s, ops) == raw[s.start..at] + (Head(p) + value + p.tail) + [];
  }

  lemma HoldsPart(s: Bytes, t: Bytes, u: Bytes)
    requires Holds(s, t) && Holds(t, u)
    ensures Holds(s, u)
  {
    var a, b :| s == a + t + b;
    var c, d :| t == c + u + d;
    assert s == (a + c) + u + (d + b);
  }

  /** Every comment line stays, whatever is replaced, removed or added. */
  lemma RemarkStays(parts: seq<Part>, final: Bytes, allowed: set<Bytes>, ops: map<Bytes, Op>, k: nat)
    requires ValidParts(parts, final) && Scan(Text(parts, final), 0, {}, allowed).Ok?
    requires k < |parts| && parts[k].piece.Remark?
    ensures AllWithin(Text(parts, final), Scan(Text(parts, final), 0, {}, allowed).value)
    ensures Holds(Edited(Text(parts, final), allowed, ops), parts[k].piece.text)
  {
    hide Holds, Scan, Laid, Edited, ValidParts, Follow, PrecedingSeparator, AllWithin;
    var raw, t := Text(parts, final), parts[k].piece.text;
    assert raw[0..] == raw;
    FileFollows(raw, allowed);
    var a := RemarkScanned(raw, 0, parts, final, {}, allowed, k);
    var s := Scan(raw, 0, {}, allowed).value;
    assert PieceText(parts[k].piece) == t;
    GapStays(raw, 0, s, ops, a, a + |t|);
    EditedHolds(raw, allowed, ops, t);
  }

  // ---------- added lines ----------

  predicate EndsUnbroken(e: Bytes) { e != [] && !IsBreak(e[|e| - 1]) }

  lemma {:induction false} NewTextEnds(keys: seq<Bytes>, values: map<Bytes, Bytes>, newline: Bytes, final: bool)
    requires IsNewline(newline) && keys != [] && forall k :: k in keys ==> k in values && EndsUnbroken(values[k])
    ensures NewText(keys, values, newline, final) != []
    ensures FinalBreak(NewText(keys, values, newline, final)) <==> final
    decreases |keys|
  {
    hide EndsUnbroken;
    var e := values[keys[0]];
    if |keys| == 1 {
      assert keys[1..] == [] && NewText(keys[1..], values, newline, final) == [];
      OneLine(keys[0], e, newline, final);
    } else {
      NewTextEnds(keys[1..], values, newline, final);
      LastOf(keys[0] + [EQUALS] + e + newline, NewText(keys[1..], values, newline, final));
    }
  }

  lemma OneLine(key: Bytes, e: Bytes, newline: Bytes, final: bool)
    requires IsNewline(newline) && EndsUnbroken(e)
    ensures var line := key + [EQUALS] + e + (if final then newline else []) + []; line != [] && (FinalBreak(line) <==> final)
  {
  }

  lemma LastOf(a: Bytes, b: Bytes)
    requires b != []
    ensures FinalBreak(a + b) <==> FinalBreak(b)
  {
  }

  lemma ClosedEnds(e: Bytes)
    requires Closed(e)
    ensures EndsUnbroken(e)
  {
  }

  /** A file to which keys are added ends with a break exactly when it did before. */
  lemma AddedKeepEnd(raw: Bytes, allowed: set<Bytes>, ops: map<Bytes, Op>)
    requires Scan(raw, 0, {}, allowed).Ok? && AllWithin(raw, Scan(raw, 0, {}, allowed).value) && AllClosed(ops)
    requires NewValues(EntriesOf(Scan(raw, 0, {}, allowed).value, allowed), ops) != map[]
    ensures FinalBreak(Edited(raw, allowed, ops)) <==> FinalBreak(raw)
  {
    hide Scan, Cover, EditsFor, EntriesOf, Closed, NewText, FinalBreak, DetectNewline;
    var s := Scan(raw, 0, {}, allowed).value;
    var values := NewValues(EntriesOf(s, allowed), ops);
    var keys := Arrange(values.Keys);
    ArrangeHas(values.Keys);
    assert keys != [] by {
      var k :| k in values;
      assert k in keys;
    }
    forall k | k in keys ensures k in values && EndsUnbroken(values[k]) {
      ClosedEnds(values[k]);
    }
    NewTextEnds(keys, values, DetectNewline(raw), FinalBreak(raw));
    var body := Cover(raw, 0, EditsFor(raw, s, ops));
    LastOf(body + (if body != [] && !FinalBreak(body) then DetectNewline(raw) else []),
           NewText(keys, values, DetectNewline(raw), FinalBreak(raw)));
  }

  lemma BreaksJoin(a: Bytes, b: Bytes, n: Bytes)
    requires BreaksAre(a, n) && BreaksAre(b, n)
    ensures BreaksAre(a + b, n)
  {
    var d := a + b;
    forall i | 0 <= i < |d| ensures BreakAt(d, i, n) {
      assert if i < |a| then BreakAt(a, i, n) else BreakAt(b, i - |a|, n);
    }
  }

  lemma UnbrokenBreaks(d: Bytes, n: Bytes)
    requires Unbroken(d)
    ensures BreaksAre(d, n)
  {
  }

  lemma NewlineBreaks(n: Bytes)
    requires IsNewline(n)
    ensures BreaksAre(n, n)
  {
  }

  lemma KeyUnbroken(key: Bytes)
    requires ValidKey(key)
    ensures Unbroken(key + [EQUALS])
  {
  }

  lemma {:induction false} NewTextBreaks(keys: seq<Bytes>, values: map<Bytes, Bytes>, n: Bytes, final: bool)
    requires IsNewline(n) && forall k :: k in keys ==> ValidKey(k) && k in values && Unbroken(values[k])
    ensures BreaksAre(NewText(keys, values, n, final), n)
    decreases |keys|
  {
    hide BreaksAre, ValidKey;
    UnbrokenBreaks([], n);
    if keys != [] {
      var line, sep := keys[0] + [EQUALS], if |keys| > 1 || final then n else [];
      KeyUnbroken(keys[0]);
      UnbrokenBreaks(line, n);
      UnbrokenBreaks(values[keys[0]], n);
      NewlineBreaks(n);
      BreaksJoin(line, values[keys[0]], n);
      BreaksJoin(line + values[keys[0]], sep, n);
      NewTextBreaks(keys[1..], values, n, final);
      BreaksJoin(line + values[keys[0]] + sep, NewText(keys[1..], values, n, final), n);
    }
  }

  /** A file with breaks of one kind has breaks of that kind only when keys have been added. */
  lemma AddedKeepBreaks(raw: Bytes, allowed: set<Bytes>, ops: map<Bytes, Op>, n: Bytes)
    requires Scan(raw, 0, {}, allowed).Ok? && AllWithin(raw, Scan(raw, 0, {}, allowed).value)
    requires BreaksAre(raw, n) && (exists i :: 0 <= i < |raw| && IsBreak(raw[i]))
    requires forall k :: k in ops ==> ValidKey(k) && !HasKey(Scan(raw, 0, {}, allowed).value, k)
    requires forall k :: k in ops && ops[k].Replace? ==> Unbroken(ops[k].encoded)
    ensures BreaksAre(Edited(raw, allowed, ops), n)
  {
    hide Scan, BreaksAre, ValidKey, Unbroken, IsBreak, DetectNewline, FinalBreak, NewText, EntriesOf;
    var s := Scan(raw, 0, {}, allowed).value;
    var values := NewValues(EntriesOf(s, allowed), ops);
    ArrangeHas(values.Keys);
    NewlineKind(raw, n);
    NoEdits(raw, s, ops);
    NewTextBreaks(Arrange(values.Keys), values, n, FinalBreak(raw));
    var sep := if raw != [] && !FinalBreak(raw) then n else [];
    UnbrokenNothing(n);
    BreaksJoin(raw, sep, n);
    BreaksJoin(raw + sep, NewText(Arrange(values.Keys), values, n, FinalBreak(raw)), n);
  }

  lemma UnbrokenNothing(n: Bytes)
    ensures BreaksAre([], n) && (IsNewline(n) ==> BreaksAre(n, n))
  {
  }

  lemma {:induction false} NoEdits(raw: Bytes, s: seq<Statement>, ops: map<Bytes, Op>)
    requires AllWithin(raw, s) && forall k :: k in ops ==> !HasKey(s, k)
    ensures EditsFor(raw, s, ops) == [] && Cover(raw, 0, EditsFor(raw, s, ops)) == raw
  {
    if s != [] {
      forall k | k in ops ensures !HasKey(s[1..], k) && s[0].key != k {
        HasKeyTail(s, k);
      }
      NoEdits(raw, s[1..], ops);
    }
  }

  lemma HasKeyTail(s: seq<Statement>, key: Bytes)
    requires s != [] && !HasKey(s, key)
    ensures !HasKey(s[1..], key) && s[0].key != key
  {
    assert forall i :: 0 <= i < |s| - 1 ==> s[1..][i] == s[i + 1];
  }
}
