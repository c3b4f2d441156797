/**
 Surgical edits of a dotenv file: what an encoded value reads back as, and what re-reading the spliced text
 sees.
 */
module DotenvEdit {
  import opened ByteStrings
  import opened DotenvSyntax
  import opened DotenvLocality

  // ---------- encoded values ----------

  function EscapeByte(b: Byte): Bytes {
    if b == BACKSLASH || b == DOUBLE_QUOTE || b == DOLLAR then [BACKSLASH, b]
    else if b == LF then [BACKSLASH, 110]
    else if b == CR then [BACKSLASH, 114]
    else [b]
  }

  function Escape(v: Bytes): Bytes {
    if v == [] then [] else Escape(v[..|v| - 1]) + EscapeByte(v[|v| - 1])
  }

  function SingleQuoted(v: Bytes): Bytes { [SINGLE_QUOTE] + v + [SINGLE_QUOTE] }

  function DoubleQuoted(v: Bytes): Bytes { [DOUBLE_QUOTE] + Escape(v) + [DOUBLE_QUOTE] }

  /** The scanner closes e at its last byte and sees no expansion in it. */
  predicate Closed(e: Bytes) {
    && |e| >= 2
    && IsQuote(e[0])
    && CloseAt(e, e[0], 1) == |e| - 1
    && (e[0] == DOUBLE_QUOTE ==> !HasExpansion(e[1..|e| - 1]))
  }

  /** An even number of backslashes at the end, every quote escaped, and no expansion. */
  predicate Safe(e: Bytes) {
    && BackslashRun(e) % 2 == 0
    && (forall i :: 0 <= i < |e| && e[i] == DOUBLE_QUOTE ==> i > 0 && e[i - 1] == BACKSLASH)
    && !HasExpansion(e)
  }

  lemma {:induction false} EscapeIsSafe(v: Bytes)
    ensures Safe(Escape(v))
  {
    if v != [] {
      EscapeIsSafe(v[..|v| - 1]);
      SafeAppend(Escape(v[..|v| - 1]), v[|v| - 1]);
    }
  }

  lemma SafeAppend(e: Bytes, b: Byte)
    requires Safe(e)
    ensures Safe(e + EscapeByte(b))
  {
    var x := EscapeByte(b);
    var r := e + x;
    RunAppend(e, b);
    forall i | 0 <= i < |r| && r[i] == DOLLAR ensures BackslashRun(r[..i]) % 2 == 1 {
      if i < |e| {
        assert r[..i] == e[..i];
      } else {
        assert r[..i] == e + [BACKSLASH];
        assert (e + [BACKSLASH])[..|e|] == e;
      }
    }
  }

  lemma RunAppend(e: Bytes, b: Byte)
    ensures BackslashRun(e + EscapeByte(b)) == if b == BACKSLASH then BackslashRun(e) + 2 else 0
  {
    if b == BACKSLASH {
      assert (e + EscapeByte(b))[..|e| + 1] == e + [BACKSLASH];
      assert (e + [BACKSLASH])[..|e|] == e;
    }
  }

  /** The only unescaped quote of an encoded value is its last byte. */
  lemma EncodedClosesLast(v: Bytes, e: Bytes)
    requires (e == SingleQuoted(v) && SINGLE_QUOTE !in v) || e == DoubleQuoted(v)
    requires CloseAt(e, e[0], 1) < |e|
    ensures Closed(e)
  {
    var inner := e[1..|e| - 1];
    if e == DoubleQuoted(v) {
      assert inner == Escape(v);
      EscapeIsSafe(v);
    } else {
      assert inner == v;
    }
    forall i | 1 <= i < |e| - 1 ensures !(e[i] == e[0] && e[i - 1] != BACKSLASH) {
      assert e[i] == inner[i - 1];
      assert i > 1 ==> e[i - 1] == inner[i - 2];
    }
  }

  /** A closed value followed by what may follow a value. */
  lemma ClosedReads(e: Bytes, r: Bytes)
    requires Closed(e) && Trailer(r).Some?
    ensures ReadValue(e + r) == Value(|e|, |e| + Trailer(r).value, false)
  {
    hide Trailer, HasExpansion;
    CloseAtIs(e + r, e[0], |e| - 1);
    assert (e + r)[|e|..] == r;
    assert (e + r)[1..|e| - 1] == e[1..|e| - 1];
  }

  lemma ValueTrailer(v: Bytes)
    requires ReadValue(v).Value?
    ensures var x := ReadValue(v); Trailer(v[x.end..x.blockEnd]) == Some(x.blockEnd - x.end)
  {
    hide Trailer, HasExpansion, LineLength, CommentAt, TrimmedEnd, CloseAt;
    var x := ReadValue(v);
    if v == [] || IsBreak(v[0]) {
      EmptyTrailer();
      assert v[0..0] == [];
    } else if IsQuote(v[0]) {
      assert v[x.end..x.blockEnd] == v[x.end..][..x.blockEnd - x.end];
      TrailerCut(v[x.end..]);
    } else {
      BareTrailer(v);
    }
  }

  lemma EmptyTrailer()
    ensures Trailer([]) == Some(0)
  {
  }

  lemma BareTrailer(v: Bytes)
    ensures var x := ReadBare(v); Trailer(v[x.end..x.blockEnd]) == Some(x.blockEnd - x.end)
  {
    hide LineLength, CommentAt, TrimmedEnd, HasExpansion, HorizontalLength;
    var n := LineLength(v);
    var c := CommentAt(v, 1, n);
    var e := TrimmedEnd(v, c);
    var r := v[e..n];
    forall i | 0 <= i < c - e ensures IsHorizontal(r[i]) {
      assert r[i] == v[e + i];
    }
    assert c < n ==> r[c - e] == v[c];
    HorizontalLengthIs(r, c - e);
    LineLengthIs(r[c - e..], n - c);
  }

  /** Replacing the value of a statement leaves its key and reads back the encoded bytes. */
  lemma UnitReplace(d: Bytes, e: Bytes)
    requires NextUnit(d).Entry? && Closed(e)
    ensures var u := NextUnit(d);
            var z := d[..u.valueStart] + e + d[u.valueEnd..u.blockEnd];
            NextUnit(z) == Entry(u.key, u.lineStart, u.valueStart, u.valueStart + |e|, |z|, false)
  {
    hide UnitOf, SpaceLength, LineStart, Closed;
    var u, w := NextUnit(d), SpaceLength(d);
    UnitPlaces(d);
    UnitLine(d);
    var z := d[..u.valueStart] + e + d[u.valueEnd..u.blockEnd];
    SpaceLengthIs(z, w);
    LineStartSame(z, d, w);
    UnitOfReplace(d[w..], e, w, LineStart(d, w));
    DropOfSplice(d, w, u.valueStart, e, u.valueEnd, u.blockEnd);
    assert NextUnit(z) == UnitOf(z[w..], w, LineStart(z, w));
  }

  lemma DropOfSplice(d: Bytes, w: nat, a: nat, e: Bytes, b: nat, c: nat)
    requires w <= a <= b <= c <= |d|
    ensures (d[..a] + e + d[b..c])[w..] == d[w..][..a - w] + e + d[w..][b - w..c - w]
  {
  }

  lemma UnitPlaces(d: Bytes)
    requires NextUnit(d).Entry?
    ensures SpaceLength(d) < NextUnit(d).valueStart
  {
    hide ReadHead, ReadValue, SpaceLength, LineStart;
  }

  lemma UnitOfReplace(t: Bytes, e: Bytes, w: nat, lineStart: nat)
    requires t != [] && lineStart <= w && UnitOf(t, w, lineStart).Entry? && Closed(e)
    ensures var u := UnitOf(t, w, lineStart);
            && w < u.valueStart
            && var z := t[..u.valueStart - w] + e + t[u.valueEnd - w..u.blockEnd - w];
               UnitOf(z, w, lineStart) == Entry(u.key, lineStart, u.valueStart, u.valueStart + |e|, w + |z|, false)
  {
    hide ReadHead, ReadValue, Closed;
    var at := ReadHead(t).valueStart;
    var x := ReadValue(t[at..]);
    var r := t[at + x.end..at + x.blockEnd];
    assert r == t[at..][x.end..x.blockEnd];
    ValueTrailer(t[at..]);
    ClosedReads(e, r);
    ClosedStops(e, r);
    HeadCut(t, at);
    HeadJoin(t[..at], e + r);
    assert t[..at] + e + r == t[..at] + (e + r);
    assert (t[..at] + (e + r))[at..] == e + r;
  }

  lemma ClosedStops(e: Bytes, r: Bytes)
    requires Closed(e)
    ensures Stops(e + r) && e != []
  {
  }

  // ---------- edits ----------

  datatype Op = Replace(encoded: Bytes) | Remove

  datatype Edit = Edit(start: nat, end: nat, replacement: Bytes)

  predicate FinalBreak(d: Bytes) { d != [] && IsBreak(d[|d| - 1]) }

  /** The start of the line break that ends in front of position, or position. */
  function PrecedingSeparator(d: Bytes, position: nat): (p: nat)
    requires position <= |d|
    ensures position - 2 <= p <= position
  {
    if position == 0 then position
    else if d[position - 1] == LF then
      if position > 1 && d[position - 2] == CR then position - 2 else position - 1
    else if d[position - 1] == CR then position - 1
    else position
  }

  predicate Within(raw: Bytes, s: Statement) {
    s.start < s.valueStart <= s.valueEnd <= s.blockEnd <= s.end <= |raw|
  }

  function EditOf(raw: Bytes, s: Statement, op: Op): (e: Edit)
    requires Within(raw, s)
    ensures e.start <= e.end <= |raw|
  {
    match op
    case Replace(encoded) => Edit(s.valueStart, s.valueEnd, encoded)
    case Remove =>
      Edit(if s.end == |raw| && !FinalBreak(raw) then PrecedingSeparator(raw, s.start) else s.start, s.end, [])
  }

  predicate AllWithin(raw: Bytes, s: seq<Statement>) {
    forall i :: 0 <= i < |s| ==> Within(raw, s[i])
  }

  predicate Bounded(raw: Bytes, edits: seq<Edit>) {
    forall i :: 0 <= i < |edits| ==> edits[i].start <= edits[i].end <= |raw|
  }

  /** The edits of a list of statements, in file order. */
  function EditsFor(raw: Bytes, s: seq<Statement>, ops: map<Bytes, Op>): (e: seq<Edit>)
    requires AllWithin(raw, s)
    ensures Bounded(raw, e)
  {
    if s == [] then []
    else if s[0].key in ops then [EditOf(raw, s[0], ops[s[0].key])] + EditsFor(raw, s[1..], ops)
    else EditsFor(raw, s[1..], ops)
  }

  /** What the edited file must say. */
  function Expected(s: seq<Statement>, ops: map<Bytes, Op>): seq<Item> {
    if s == [] then []
    else
      var rest := Expected(s[1..], ops);
      if s[0].key !in ops then [ItemOf(s[0])] + rest
      else match ops[s[0].key]
           case Replace(encoded) => [Item(s[0].key, encoded, false)] + rest
           case Remove => rest
  }

  function Max(a: nat, b: nat): nat { if a < b then b else a }

  /** Splicing edits that may overlap: a byte survives when no edit covers it. */
  function Cover(raw: Bytes, last: nat, edits: seq<Edit>): Bytes
    requires last <= |raw| && Bounded(raw, edits)
    decreases |edits|
  {
    if edits == [] then raw[last..]
    else raw[last..Max(last, edits[0].start)] + edits[0].replacement
         + Cover(raw, Max(last, edits[0].end), edits[1..])
  }

  lemma CoverCopy(raw: Bytes, a: nat, b: nat, edits: seq<Edit>)
    requires a <= b <= |raw| && Bounded(raw, edits)
    requires edits != [] ==> b <= edits[0].start
    ensures Cover(raw, a, edits) == raw[a..b] + Cover(raw, b, edits)
  {
    if edits == [] {
      assert raw[a..] == raw[a..b] + raw[b..];
    } else {
      CoverFirst(raw, a, edits);
      CoverFirst(raw, b, edits);
      hide Cover;
      var s := edits[0].start;
      assert raw[a..s] == raw[a..b] + raw[b..s];
      Associate(raw[a..b], raw[b..s], edits[0].replacement, Cover(raw, edits[0].end, edits[1..]));
    }
  }

  lemma CoverFirst(raw: Bytes, a: nat, edits: seq<Edit>)
    requires Bounded(raw, edits) && edits != [] && a <= edits[0].start
    ensures Cover(raw, a, edits)
         == raw[a..edits[0].start] + edits[0].replacement + Cover(raw, edits[0].end, edits[1..])
  {
  }

  lemma Associate(a: Bytes, b: Bytes, c: Bytes, d: Bytes)
    ensures a + b + c + d == a + (b + c + d)
  {
  }

  lemma {:induction false} ScanWithin(raw: Bytes, q: nat, seen: set<Bytes>, allowed: set<Bytes>)
    requires q <= |raw| && Scan(raw[q..], q, seen, allowed).Ok?
    ensures AllWithin(raw, Scan(raw[q..], q, seen, allowed).value)
    decreases |raw| - q
  {
    hide NextUnit;
    var d := raw[q..];
    match NextUnit(d)
    case Blank =>
    case Comment(n) =>
      assert d[n..] == raw[q + n..];
      ScanWithin(raw, q + n, seen, allowed);
    case Entry(key, _, _, _, n, _) =>
      assert d[n..] == raw[q + n..];
      ScanWithin(raw, q + n, seen + {key}, allowed);
    case Malformed =>
    case MalformedValue(_) =>
  }

  /** p is the end of a block. */
  predicate BlockStop(raw: Bytes, p: nat) {
    p <= |raw| && Follows(raw[p..]) && (p > 0 ==> !IsBreak(raw[p - 1]))
  }

  lemma UnitStops(raw: Bytes, q: nat)
    requires q <= |raw|
    requires var u := NextUnit(raw[q..]); u.Entry? || u.Comment?
    ensures BlockStop(raw, q + BlockEnd(NextUnit(raw[q..])))
  {
    hide NextUnit;
    var d := raw[q..];
    UnitEnds(d);
    var n := BlockEnd(NextUnit(d));
    assert d[n..] == raw[q + n..];
    assert d[n - 1] == raw[q + n - 1];
  }

  /** Behind the end of a block every line start lies behind that block's line break. */
  lemma LineStartsBehind(raw: Bytes, p: nat)
    requires BlockStop(raw, p) && NextUnit(raw[p..]).Entry?
    ensures var start := p + NextUnit(raw[p..]).lineStart; start > p && PrecedingSeparator(raw, start) >= p
  {
    hide UnitOf, SpaceLength, LineStart;
    var d := raw[p..];
    var w := SpaceLength(d);
    UnitLine(d);
    assert d != [] && IsBreak(d[0]);
    var n := LineStart(d, w);
    assert n > 0 ==> d[n - 1] == raw[p + n - 1];
  }

  lemma UnitLine(d: Bytes)
    requires NextUnit(d).Entry?
    ensures NextUnit(d).lineStart == LineStart(d, SpaceLength(d)) && SpaceLength(d) < |d| && !IsSpace(d[SpaceLength(d)])
  {
    hide ReadHead, ReadValue, SpaceLength, LineStart;
  }

  /** Every edit starts at or behind p and reaches further. */
  predicate StartsFrom(edits: seq<Edit>, p: nat) {
    forall i :: 0 <= i < |edits| ==> p <= edits[i].start && p < edits[i].end
  }

  lemma EditsForCons(raw: Bytes, s: Statement, rest: seq<Statement>, ops: map<Bytes, Op>)
    requires Within(raw, s) && AllWithin(raw, rest)
    ensures AllWithin(raw, [s] + rest)
    ensures EditsFor(raw, [s] + rest, ops)
         == (if s.key in ops then [EditOf(raw, s, ops[s.key])] else []) + EditsFor(raw, rest, ops)
  {
    var all := [s] + rest;
    assert all[1..] == rest;
    assert forall i :: 0 <= i < |all| ==> all[i] == if i == 0 then s else rest[i - 1];
  }

  lemma StartsFromCons(raw: Bytes, s: Statement, rest: seq<Statement>, ops: map<Bytes, Op>, p: nat, n: nat)
    requires Within(raw, s) && AllWithin(raw, rest) && p <= n
    requires p < s.start && p <= PrecedingSeparator(raw, s.start)
    requires StartsFrom(EditsFor(raw, rest, ops), n)
    ensures AllWithin(raw, [s] + rest) && StartsFrom(EditsFor(raw, [s] + rest, ops), p)
  {
    EditsForCons(raw, s, rest, ops);
  }

  /** The edits of everything behind a block start behind it. */
  lemma {:induction false} EditsBehind(raw: Bytes, p: nat, seen: set<Bytes>, allowed: set<Bytes>, ops: map<Bytes, Op>)
    requires BlockStop(raw, p) && Scan(raw[p..], p, seen, allowed).Ok?
    ensures AllWithin(raw, Scan(raw[p..], p, seen, allowed).value)
    ensures StartsFrom(EditsFor(raw, Scan(raw[p..], p, seen, allowed).value, ops), p)
    decreases |raw| - p
  {
    hide NextUnit, PrecedingSeparator, BlockStop, Follows, EditsFor;
    BlockStopBounds(raw, p);
    ScanWithin(raw, p, seen, allowed);
    var d := raw[p..];
    match NextUnit(d)
    case Blank => NoEdits(raw, ops);
    case Comment(n) =>
      UnitStops(raw, p);
      assert d[n..] == raw[p + n..];
      EditsBehind(raw, p + n, seen, allowed, ops);
    case Entry(key, _, _, _, n, _) =>
      UnitStops(raw, p);
      LineStartsBehind(raw, p);
      assert d[n..] == raw[p + n..];
      EditsBehind(raw, p + n, seen + {key}, allowed, ops);
      StartsFromCons(raw, StatementOf(d, p, NextUnit(d)), Scan(raw[p + n..], p + n, seen + {key}, allowed).value,
                     ops, p, p + n);
    case Malformed =>
    case MalformedValue(_) =>
  }

  lemma NoEdits(raw: Bytes, ops: map<Bytes, Op>)
    ensures EditsFor(raw, [], ops) == []
  {
  }

  lemma BlockStopBounds(raw: Bytes, p: nat)
    requires BlockStop(raw, p)
    ensures p <= |raw|
  {
  }
}
