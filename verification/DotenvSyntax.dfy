/**
 The dotenv grammar the scanner accepts, read from the front of a byte string. A statement's block ends
 before its line break, so that a block means the same whatever follows the break.
 */
module DotenvSyntax {
  import opened ByteStrings

  const LF: Byte := 10
  const CR: Byte := 13
  const HASH: Byte := 35
  const DOLLAR: Byte := 36
  const DOUBLE_QUOTE: Byte := 34
  const SINGLE_QUOTE: Byte := 39
  const COLON: Byte := 58
  const EQUALS: Byte := 61
  const BACKSLASH: Byte := 92
  const EXPORT: Bytes := [101, 120, 112, 111, 114, 116]

  predicate IsBreak(b: Byte) { b == LF || b == CR }

  predicate IsHorizontal(b: Byte) { b == 32 || b == 9 || b == 11 || b == 12 }

  predicate IsQuote(b: Byte) { b == SINGLE_QUOTE || b == DOUBLE_QUOTE }

  // ---------- runs of bytes ----------

  /** The bytes before the first line break. */
  function LineLength(d: Bytes): (n: nat)
    ensures n <= |d|
    ensures n < |d| ==> IsBreak(d[n])
    ensures forall i :: 0 <= i < n ==> !IsBreak(d[i])
  {
    if d == [] || IsBreak(d[0]) then 0 else 1 + LineLength(d[1..])
  }

  /** The line break that begins d; carriage return and line feed together are one break. */
  function BreakLength(d: Bytes): (n: nat)
    ensures n <= |d|
  {
    if d == [] || !IsBreak(d[0]) then 0
    else if d[0] == CR && |d| > 1 && d[1] == LF then 2
    else 1
  }

  function HorizontalLength(d: Bytes): (n: nat)
    ensures n <= |d|
    ensures n < |d| ==> !IsHorizontal(d[n])
    ensures forall i :: 0 <= i < n ==> IsHorizontal(d[i])
  {
    if d == [] || !IsHorizontal(d[0]) then 0 else 1 + HorizontalLength(d[1..])
  }

  predicate IsSpace(b: Byte) { IsHorizontal(b) || IsBreak(b) }

  function SpaceLength(d: Bytes): (n: nat)
    ensures n <= |d|
    ensures n < |d| ==> !IsSpace(d[n])
    ensures forall i :: 0 <= i < n ==> IsSpace(d[i])
  {
    if d == [] || !IsSpace(d[0]) then 0 else 1 + SpaceLength(d[1..])
  }

  predicate IsSeparator(b: Byte) { b == EQUALS || b == COLON }

  /** The bytes before the first separator or line break. */
  function KeyLength(d: Bytes): (n: nat)
    ensures n <= |d|
    ensures n < |d| ==> IsSeparator(d[n]) || IsBreak(d[n])
    ensures forall i :: 0 <= i < n ==> !IsSeparator(d[i]) && !IsBreak(d[i])
  {
    if d == [] || IsSeparator(d[0]) || IsBreak(d[0]) then 0 else 1 + KeyLength(d[1..])
  }

  /** Where the line of position w starts: just behind the last break of d[..w]. */
  function LineStart(d: Bytes, w: nat): (n: nat)
    requires w <= |d|
    ensures n <= w
    ensures n > 0 ==> IsBreak(d[n - 1])
    ensures forall i :: n <= i < w ==> !IsBreak(d[i])
  {
    if w == 0 || IsBreak(d[w - 1]) then w else LineStart(d, w - 1)
  }

  // Each run is determined by what its function promises.

  lemma LineLengthIs(d: Bytes, n: nat)
    requires n <= |d| && (n < |d| ==> IsBreak(d[n])) && forall i :: 0 <= i < n ==> !IsBreak(d[i])
    ensures LineLength(d) == n
  {
  }

  lemma HorizontalLengthIs(d: Bytes, n: nat)
    requires n <= |d| && (n < |d| ==> !IsHorizontal(d[n])) && forall i :: 0 <= i < n ==> IsHorizontal(d[i])
    ensures HorizontalLength(d) == n
  {
  }

  lemma SpaceLengthIs(d: Bytes, n: nat)
    requires n <= |d| && (n < |d| ==> !IsSpace(d[n])) && forall i :: 0 <= i < n ==> IsSpace(d[i])
    ensures SpaceLength(d) == n
  {
  }

  lemma KeyLengthIs(d: Bytes, n: nat)
    requires n <= |d| && (n < |d| ==> IsSeparator(d[n]) || IsBreak(d[n]))
    requires forall i :: 0 <= i < n ==> !IsSeparator(d[i]) && !IsBreak(d[i])
    ensures KeyLength(d) == n
  {
  }

  lemma LineStartIs(d: Bytes, w: nat, n: nat)
    requires n <= w <= |d| && (n > 0 ==> IsBreak(d[n - 1])) && forall i :: n <= i < w ==> !IsBreak(d[i])
    ensures LineStart(d, w) == n
  {
  }

  // ---------- keys ----------

  /** One white space rune, in UTF-8, as surrounding trimming removes it from a key. */
  predicate IsWideSpace(w: Bytes) {
    || (|w| == 1 && (9 <= w[0] <= 13 || w[0] == 32))
    || (|w| == 2 && w[0] == 0xC2 && (w[1] == 0x85 || w[1] == 0xA0))
    || (|w| == 3 && w[0] == 0xE1 && w[1] == 0x9A && w[2] == 0x80)
    || (|w| == 3 && w[0] == 0xE2 && w[1] == 0x80
        && (0x80 <= w[2] <= 0x8A || w[2] == 0xA8 || w[2] == 0xA9 || w[2] == 0xAF))
    || (|w| == 3 && w[0] == 0xE2 && w[1] == 0x81 && w[2] == 0x9F)
    || (|w| == 3 && w[0] == 0xE3 && w[1] == 0x80 && w[2] == 0x80)
  }

  predicate StartsWithSpace(s: Bytes, n: nat) {
    0 < n <= |s| && IsWideSpace(s[..n])
  }

  predicate EndsWithSpace(s: Bytes, n: nat) {
    0 < n <= |s| && IsWideSpace(s[|s| - n..])
  }

  function TrimLeft(s: Bytes): Bytes {
    if StartsWithSpace(s, 1) then TrimLeft(s[1..])
    else if StartsWithSpace(s, 2) then TrimLeft(s[2..])
    else if StartsWithSpace(s, 3) then TrimLeft(s[3..])
    else s
  }

  function TrimRight(s: Bytes): Bytes {
    if EndsWithSpace(s, 1) then TrimRight(s[..|s| - 1])
    else if EndsWithSpace(s, 2) then TrimRight(s[..|s| - 2])
    else if EndsWithSpace(s, 3) then TrimRight(s[..|s| - 3])
    else s
  }

  function Trim(s: Bytes): Bytes { TrimRight(TrimLeft(s)) }

  predicate IsUpper(b: Byte) { 65 <= b <= 90 }
  predicate IsDigit(b: Byte) { 48 <= b <= 57 }
  predicate IsLower(b: Byte) { 97 <= b <= 122 }

  /** Any key the native parser understands. */
  predicate ValidSourceKey(key: Bytes) {
    && 0 < |key| <= 256
    && forall i :: 0 <= i < |key| ==> IsUpper(key[i]) || IsLower(key[i]) || IsDigit(key[i]) || key[i] == 95 || key[i] == 46
  }

  /** A key an integration may own. */
  predicate ValidKey(key: Bytes) {
    && 0 < |key| <= 128
    && forall i :: 0 <= i < |key| ==> IsUpper(key[i]) || key[i] == 95 || (i > 0 && IsDigit(key[i]))
  }

  // ---------- statements ----------

  datatype Head = BadHead | Head(key: Bytes, valueStart: nat)

  function KeyStart(d: Bytes): (n: nat)
    ensures n <= |d|
  {
    if EXPORT <= d && |d| > |EXPORT| && IsHorizontal(d[|EXPORT|])
    then |EXPORT| + HorizontalLength(d[|EXPORT|..])
    else 0
  }

  /** The key that begins r, and where its value starts. */
  function ReadKey(r: Bytes): (h: Head)
    ensures h.Head? ==> 0 < h.valueStart <= |r|
  {
    var n := KeyLength(r);
    if n == |r| || IsBreak(r[n]) || !ValidSourceKey(Trim(r[..n])) then BadHead
    else Head(Trim(r[..n]), n + 1 + HorizontalLength(r[n + 1..]))
  }

  /** The same behind an optional export. */
  function ReadHead(d: Bytes): (h: Head)
    ensures h.Head? ==> 0 < h.valueStart <= |d|
  {
    var k := KeyStart(d);
    var h := ReadKey(d[k..]);
    if h.BadHead? then BadHead else Head(h.key, k + h.valueStart)
  }

  datatype Value = BadValue | Value(end: nat, blockEnd: nat, expansion: bool)

  /** The first quote q at or behind p that no backslash precedes, or |v|. */
  function CloseAt(v: Bytes, q: Byte, p: nat): (c: nat)
    requires 0 < p <= |v|
    ensures p <= c <= |v|
    ensures c < |v| ==> v[c] == q && v[c - 1] != BACKSLASH
    ensures forall i :: p <= i < c ==> !(v[i] == q && v[i - 1] != BACKSLASH)
    decreases |v| - p
  {
    if p == |v| then p
    else if v[p] == q && v[p - 1] != BACKSLASH then p
    else CloseAt(v, q, p + 1)
  }

  lemma CloseAtIs(v: Bytes, q: Byte, c: nat)
    requires 0 < c <= |v| && (c < |v| ==> v[c] == q && v[c - 1] != BACKSLASH)
    requires forall i :: 1 <= i < c ==> !(v[i] == q && v[i - 1] != BACKSLASH)
    ensures CloseAt(v, q, 1) == c
  {
  }

  /** The number of backslashes that end v. */
  function BackslashRun(v: Bytes): nat {
    if v == [] || v[|v| - 1] != BACKSLASH then 0 else 1 + BackslashRun(v[..|v| - 1])
  }

  /** Some dollar sign is preceded by an even number of backslashes. */
  predicate HasExpansion(v: Bytes) {
    exists i :: 0 <= i < |v| && v[i] == DOLLAR && BackslashRun(v[..i]) % 2 == 0
  }

  /** The first hash at or behind p that follows horizontal space, or n. */
  function CommentAt(v: Bytes, p: nat, n: nat): (c: nat)
    requires 0 < p && n <= |v|
    ensures c <= n && (p <= n ==> p <= c)
    ensures p <= c < n ==> v[c] == HASH && IsHorizontal(v[c - 1])
    ensures forall i :: p <= i < c ==> !(v[i] == HASH && IsHorizontal(v[i - 1]))
    decreases n - p
  {
    if p >= n then n
    else if v[p] == HASH && IsHorizontal(v[p - 1]) then p
    else CommentAt(v, p + 1, n)
  }

  function TrimmedEnd(v: Bytes, n: nat): (e: nat)
    requires n <= |v|
    ensures e <= n
    ensures e > 0 ==> !IsHorizontal(v[e - 1])
    ensures forall i :: e <= i < n ==> IsHorizontal(v[i])
  {
    if n > 0 && IsHorizontal(v[n - 1]) then TrimmedEnd(v, n - 1) else n
  }

  function ReadQuoted(v: Bytes): (r: Value)
    requires v != []
    ensures r.Value? ==> 0 < r.end <= r.blockEnd <= |v|
  {
    var c := CloseAt(v, v[0], 1);
    if c == |v| then BadValue else CloseQuoted(v, c)
  }

  /** Behind a closing quote only space and a comment may follow: the length of the rest of the block. */
  function Trailer(r: Bytes): (n: Option<nat>)
    ensures n.Some? ==> n.value <= |r|
  {
    var t := HorizontalLength(r);
    if t < |r| && r[t] != HASH && !IsBreak(r[t]) then None else Some(t + LineLength(r[t..]))
  }

  function CloseQuoted(v: Bytes, c: nat): (r: Value)
    requires 0 < c < |v|
    ensures r.Value? ==> 0 < r.end <= r.blockEnd <= |v|
  {
    var n := Trailer(v[c + 1..]);
    if n.None? then BadValue
    else Value(c + 1, c + 1 + n.value, v[0] == DOUBLE_QUOTE && HasExpansion(v[1..c]))
  }

  function ReadBare(v: Bytes): (r: Value)
    ensures r.Value? && r.end <= r.blockEnd <= |v|
  {
    var n := LineLength(v);
    var e := TrimmedEnd(v, CommentAt(v, 1, n));
    Value(e, n, HasExpansion(v[..e]))
  }

  /** The value that begins v. */
  function ReadValue(v: Bytes): (r: Value)
    ensures r.Value? ==> r.end <= r.blockEnd <= |v|
  {
    if v == [] || IsBreak(v[0]) then Value(0, 0, false)
    else if IsQuote(v[0]) then ReadQuoted(v)
    else ReadBare(v)
  }

  // ---------- units ----------

  /** What comes next: nothing but space, a comment, or a statement, placed relative to the text read. */
  datatype Unit =
    | Blank
    | Comment(end: nat)
    | Malformed
    | MalformedValue(badKey: Bytes)
    | Entry(key: Bytes, lineStart: nat, valueStart: nat, valueEnd: nat, blockEnd: nat, expansion: bool)

  /** The unit of a text that starts with t behind w bytes of space, on a line that started at lineStart. */
  function UnitOf(t: Bytes, w: nat, lineStart: nat): (u: Unit)
    requires t != [] && lineStart <= w
    ensures u.Comment? ==> u.end <= w + |t|
    ensures u.Entry? ==> u.lineStart < u.valueStart <= u.valueEnd <= u.blockEnd <= w + |t|
  {
    if t[0] == HASH then Comment(w + LineLength(t))
    else
      var h := ReadHead(t);
      if h.BadHead? then Malformed
      else
        var v := ReadValue(t[h.valueStart..]);
        var at := w + h.valueStart;
        if v.BadValue? then MalformedValue(h.key)
        else Entry(h.key, lineStart, at, at + v.end, at + v.blockEnd, v.expansion)
  }

  function NextUnit(d: Bytes): (u: Unit)
    ensures u.Comment? ==> 0 < u.end <= |d|
    ensures u.Entry? ==> u.lineStart < u.valueStart <= u.valueEnd <= u.blockEnd <= |d|
  {
    var w := SpaceLength(d);
    if w == |d| then Blank else UnitOf(d[w..], w, LineStart(d, w))
  }

  // ---------- scanning ----------

  datatype Code = InvalidPolicy | InvalidUtf8 | TooLarge | TooManyLines | MalformedText | KeyNotAllowed
    | DuplicateKey | ExpansionNotAllowed | InvalidChange | ValueTooLarge

  datatype Result<+T> = Ok(value: T) | Err(code: Code)

  /** One statement: where it lies in the file, and what it says. */
  datatype Statement = Statement(key: Bytes, start: nat, end: nat, valueStart: nat, valueEnd: nat,
                                 blockEnd: nat, value: Bytes, expansion: bool)

  /** The entry u of the text d, which lies at offset base. */
  function StatementOf(d: Bytes, base: nat, u: Unit): Statement
    requires u.Entry? && u.lineStart < u.valueStart <= u.valueEnd <= u.blockEnd <= |d|
  {
    Statement(u.key, base + u.lineStart, base + u.blockEnd + BreakLength(d[u.blockEnd..]),
              base + u.valueStart, base + u.valueEnd, base + u.blockEnd,
              d[u.valueStart..u.valueEnd], u.expansion)
  }

  /** All statements of d, which lies at offset base of the file. */
  function Scan(d: Bytes, base: nat, seen: set<Bytes>, allowed: set<Bytes>): Result<seq<Statement>>
    decreases |d|
  {
    match NextUnit(d)
    case Blank => Ok([])
    case Comment(n) => Scan(d[n..], base + n, seen, allowed)
    case Malformed => Err(MalformedText)
    case MalformedValue(key) => Err(if key in seen then DuplicateKey else MalformedText)
    case Entry(key, _, _, _, n, expansion) =>
      if key in seen then Err(DuplicateKey)
      else if key in allowed && expansion then Err(ExpansionNotAllowed)
      else
        var rest := Scan(d[n..], base + n, seen + {key}, allowed);
        if rest.Err? then rest
        else Ok([StatementOf(d, base, NextUnit(d))] + rest.value)
  }

  /** What a statement says, wherever it lies. */
  datatype Item = Item(key: Bytes, value: Bytes, expansion: bool)

  function ItemOf(s: Statement): Item { Item(s.key, s.value, s.expansion) }

  function ItemsOf(s: seq<Statement>): (r: seq<Item>)
    ensures |r| == |s| && forall i :: 0 <= i < |s| ==> r[i] == ItemOf(s[i])
  {
    seq(|s|, i requires 0 <= i < |s| => ItemOf(s[i]))
  }

  function UnitItem(d: Bytes, u: Unit): Item
    requires u.Entry? && u.valueStart <= u.valueEnd <= |d|
  {
    Item(u.key, d[u.valueStart..u.valueEnd], u.expansion)
  }

  /** The items of d, or nothing when d is malformed; keys may repeat. */
  function Items(d: Bytes): Option<seq<Item>>
    decreases |d|
  {
    var u := NextUnit(d);
    match u
    case Blank => Some([])
    case Comment(n) => Items(d[n..])
    case Malformed => None
    case MalformedValue(_) => None
    case Entry(_, _, _, _, n, _) =>
      var rest := Items(d[n..]);
      if rest.None? then None else Some([UnitItem(d, u)] + rest.value)
  }

  ghost predicate ScanClean(s: seq<Statement>, seen: set<Bytes>, allowed: set<Bytes>) {
    && (forall i :: 0 <= i < |s| ==> s[i].key !in seen && !(s[i].key in allowed && s[i].expansion))
    && (forall i, j :: 0 <= i < j < |s| ==> s[i].key != s[j].key)
  }

  /** A successful scan reports the items, once per key, none of them an expansion in a managed key. */
  lemma {:induction false} ScanItems(d: Bytes, base: nat, seen: set<Bytes>, allowed: set<Bytes>)
    requires Scan(d, base, seen, allowed).Ok?
    ensures Items(d) == Some(ItemsOf(Scan(d, base, seen, allowed).value))
    ensures ScanClean(Scan(d, base, seen, allowed).value, seen, allowed)
    decreases |d|
  {
    hide NextUnit, StatementOf, UnitItem, ItemOf;
    match NextUnit(d)
    case Blank =>
    case Comment(n) => ScanItems(d[n..], base + n, seen, allowed);
    case Entry(key, _, _, _, n, _) =>
      ScanItems(d[n..], base + n, seen + {key}, allowed);
      var s, rest := StatementOf(d, base, NextUnit(d)), Scan(d[n..], base + n, seen + {key}, allowed).value;
      ItemOfStatement(d, base, NextUnit(d));
      ScanCleanCons(s, rest, seen, allowed);
      assert ItemsOf([s] + rest) == [ItemOf(s)] + ItemsOf(rest);
    case Malformed =>
    case MalformedValue(_) =>
  }

  lemma ItemOfStatement(d: Bytes, base: nat, u: Unit)
    requires u.Entry? && u.lineStart < u.valueStart <= u.valueEnd <= u.blockEnd <= |d|
    ensures var s := StatementOf(d, base, u);
            ItemOf(s) == UnitItem(d, u) && s.key == u.key && s.expansion == u.expansion
  {
  }

  lemma ScanCleanCons(s: Statement, rest: seq<Statement>, seen: set<Bytes>, allowed: set<Bytes>)
    requires ScanClean(rest, seen + {s.key}, allowed)
    requires s.key !in seen && !(s.key in allowed && s.expansion)
    ensures ScanClean([s] + rest, seen, allowed)
  {
  }
}
