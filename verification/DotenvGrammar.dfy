/** What a dotenv file may look like, without a scanner: space, comments and assignments, each up to the end of its line. */
module DotenvGrammar {
  import opened ByteStrings
  import opened DotenvSyntax
  import opened DotenvLocality

  // ---------- the grammar ----------

  /** A value as it is written: not at all, bare, or in quotes. */
  datatype Form = Absent | Bare(text: Bytes) | Quoted(quote: Byte, text: Bytes)

  datatype Piece =
    | Remark(text: Bytes)
    | Assignment(prefix: Bytes, keyText: Bytes, separator: Byte, lead: Bytes, form: Form, tail: Bytes)

  datatype Part = Part(space: Bytes, piece: Piece)

  predicate AllHorizontal(s: Bytes) { forall i :: 0 <= i < |s| ==> IsHorizontal(s[i]) }

  predicate AllSpace(s: Bytes) { forall i :: 0 <= i < |s| ==> IsSpace(s[i]) }

  predicate Unbroken(s: Bytes) { forall i :: 0 <= i < |s| ==> !IsBreak(s[i]) }

  /** Horizontal space up to h, and then nothing or a comment. */
  predicate TrailsAt(t: Bytes, h: nat) {
    h <= |t| && AllHorizontal(t[..h]) && (h < |t| ==> t[h] == HASH)
  }

  ghost predicate Trails(t: Bytes) {
    Unbroken(t) && exists h: nat :: TrailsAt(t, h)
  }

  /**
   A bare value starts with neither space nor quote and does not end with space; a hash behind space would start the
   comment. A quoted value holds its quote only behind a backslash, and no backslash stands before the closing one.
   */
  ghost predicate ValidForm(f: Form, tail: Bytes) {
    match f
    case Absent => tail == []
    case Bare(x) =>
      && x != [] && !IsHorizontal(x[0]) && !IsQuote(x[0]) && Unbroken(x)
      && !IsHorizontal(x[|x| - 1])
      && (forall i :: 0 < i < |x| && x[i] == HASH ==> !IsHorizontal(x[i - 1]))
      && Trails(tail) && (tail != [] ==> IsHorizontal(tail[0]))
    case Quoted(q, x) =>
      && IsQuote(q)
      && (forall i :: 0 <= i < |x| && x[i] == q ==> i > 0 && x[i - 1] == BACKSLASH)
      && (x != [] ==> x[|x| - 1] != BACKSLASH)
      && Trails(tail)
  }

  function Body(f: Form): Bytes {
    match f
    case Absent => []
    case Bare(x) => x
    case Quoted(q, x) => [q] + x + [q]
  }

  /** An optional export, and what stands in front of the separator. */
  predicate ValidKeyText(prefix: Bytes, keyText: Bytes) {
    && (if prefix == [] then !(EXPORT <= keyText && |keyText| > |EXPORT| && IsHorizontal(keyText[|EXPORT|]))
        else
          && EXPORT <= prefix && |prefix| > |EXPORT| && AllHorizontal(prefix[|EXPORT|..])
          && (keyText != [] ==> !IsHorizontal(keyText[0])))
    && (forall i :: 0 <= i < |keyText| ==> !IsSeparator(keyText[i]) && !IsBreak(keyText[i]))
    && ValidSourceKey(Trim(keyText))
  }

  ghost predicate ValidPiece(p: Piece) {
    match p
    case Remark(text) => text != [] && text[0] == HASH && Unbroken(text)
    case Assignment(prefix, keyText, separator, lead, form, tail) =>
      && ValidKeyText(prefix, keyText) && IsSeparator(separator) && AllHorizontal(lead) && ValidForm(form, tail)
      && !IsSpace((prefix + keyText)[0]) && (prefix + keyText)[0] != HASH
  }

  function PieceText(p: Piece): Bytes {
    match p
    case Remark(text) => text
    case Assignment(prefix, keyText, separator, lead, form, tail) =>
      prefix + (keyText + [separator] + lead + (Body(form) + tail))
  }

  function Expands(f: Form): bool {
    match f
    case Absent => false
    case Bare(x) => HasExpansion(x)
    case Quoted(q, x) => q == DOUBLE_QUOTE && HasExpansion(x)
  }

  /** What an assignment says. */
  function PieceItem(p: Piece): Item
    requires p.Assignment?
  {
    Item(Trim(p.keyText), Body(p.form), Expands(p.form))
  }

  function Text(parts: seq<Part>, final: Bytes): Bytes {
    if parts == [] then final else parts[0].space + PieceText(parts[0].piece) + Text(parts[1..], final)
  }

  /** Every part is valid and ends its line. */
  ghost predicate ValidParts(parts: seq<Part>, final: Bytes) {
    if parts == [] then AllSpace(final)
    else
      && AllSpace(parts[0].space) && ValidPiece(parts[0].piece)
      && ValidParts(parts[1..], final) && Follows(Text(parts[1..], final))
  }

  function PartItems(parts: seq<Part>): seq<Item> {
    if parts == [] then []
    else (if parts[0].piece.Assignment? then [PieceItem(parts[0].piece)] else []) + PartItems(parts[1..])
  }

  // ---------- the scanner reads what is written ----------

  lemma CommentAtIs(v: Bytes, p: nat, n: nat, c: nat)
    requires 0 < p <= c <= n <= |v| && (c < n ==> v[c] == HASH && IsHorizontal(v[c - 1]))
    requires forall i :: p <= i < c ==> !(v[i] == HASH && IsHorizontal(v[i - 1]))
    ensures CommentAt(v, p, n) == c
  {
  }

  lemma TrimmedEndIs(v: Bytes, n: nat, e: nat)
    requires e <= n <= |v| && (e > 0 ==> !IsHorizontal(v[e - 1])) && forall i :: e <= i < n ==> IsHorizontal(v[i])
    ensures TrimmedEnd(v, n) == e
  {
  }

  lemma BareReads(x: Bytes, tail: Bytes)
    requires ValidForm(Bare(x), tail)
    ensures ReadValue(x + tail) == Value(|x|, |x + tail|, HasExpansion(x))
  {
    hide HasExpansion;
    var v := x + tail;
    LineLengthIs(v, |v|);
    var h: nat :| TrailsAt(tail, h);
    var c := |x| + h;
    assert forall i :: 0 <= i < h ==> tail[i] == tail[..h][i] == v[|x| + i];
    assert h == 0 ==> tail == [];
    CommentAtIs(v, 1, |v|, c);
    TrimmedEndIs(v, c, |x|);
    assert v[..|x|] == x;
  }

  lemma TrailerIs(tail: Bytes)
    requires Trails(tail)
    ensures Trailer(tail) == Some(|tail|)
  {
    var h: nat :| TrailsAt(tail, h);
    assert forall i :: 0 <= i < h ==> tail[i] == tail[..h][i];
    HorizontalLengthIs(tail, h);
    LineLengthIs(tail[h..], |tail| - h);
  }

  lemma QuotedReads(q: Byte, x: Bytes, tail: Bytes)
    requires ValidForm(Quoted(q, x), tail)
    ensures ReadValue([q] + x + [q] + tail) == Value(|x| + 2, |x| + 2 + |tail|, q == DOUBLE_QUOTE && HasExpansion(x))
  {
    hide HasExpansion, Trails, Trailer, CloseAt, ReadBare;
    var v, c := [q] + x + [q] + tail, |x| + 1;
    QuoteCloses(q, x, tail);
    assert v[1..c] == x && v[c + 1..] == tail;
    TrailerIs(tail);
    assert v[0] == q && !IsBreak(q);
  }

  lemma QuoteCloses(q: Byte, x: Bytes, tail: Bytes)
    requires ValidForm(Quoted(q, x), tail)
    ensures CloseAt([q] + x + [q] + tail, q, 1) == |x| + 1
  {
    hide Trails;
    var v, c := [q] + x + [q] + tail, |x| + 1;
    assert forall i :: 0 < i < c ==> v[i] == x[i - 1];
    assert v[c] == q && v[c - 1] != BACKSLASH;
    CloseAtIs(v, q, c);
  }

  lemma FormReads(f: Form, tail: Bytes)
    requires ValidForm(f, tail)
    ensures ReadValue(Body(f) + tail) == Value(|Body(f)|, |Body(f) + tail|, Expands(f))
    ensures Body(f) + tail != [] ==> !IsHorizontal((Body(f) + tail)[0])
  {
    hide HasExpansion, ReadQuoted, ReadBare, Trails, IsHorizontal;
    match f
    case Absent =>
    case Bare(x) => BareReads(x, tail);
    case Quoted(q, x) =>
      QuotedReads(q, x, tail);
      QuoteIsNoSpace(q);
      assert [q] + x + [q] + tail == Body(f) + tail;
  }

  lemma QuoteIsNoSpace(b: Byte)
    ensures IsQuote(b) ==> !IsHorizontal(b)
  {
  }

  lemma KeyReads(keyText: Bytes, separator: Byte, lead: Bytes, v: Bytes)
    requires (forall i :: 0 <= i < |keyText| ==> !IsSeparator(keyText[i]) && !IsBreak(keyText[i]))
    requires ValidSourceKey(Trim(keyText)) && IsSeparator(separator) && AllHorizontal(lead)
    requires v != [] ==> !IsHorizontal(v[0])
    ensures ReadKey(keyText + [separator] + lead + v) == Head(Trim(keyText), |keyText| + 1 + |lead|)
  {
    hide Trim, ValidSourceKey;
    var r, n := keyText + [separator] + lead + v, |keyText|;
    KeyLengthIs(r, n);
    assert r[..n] == keyText && r[n + 1..] == lead + v;
    HorizontalLengthIs(lead + v, |lead|);
  }

  lemma ExportReads(prefix: Bytes, keyText: Bytes, separator: Byte, rest: Bytes)
    requires ValidKeyText(prefix, keyText) && IsSeparator(separator)
    ensures KeyStart(prefix + (keyText + [separator] + rest)) == |prefix|
  {
    hide Trim, ValidSourceKey;
    var d := prefix + (keyText + [separator] + rest);
    if prefix == [] {
      assert d == keyText + [separator] + rest;
      if EXPORT <= d {
        assert forall i :: 0 <= i < |EXPORT| ==> d[i] == EXPORT[i];
        ExportIsKey();
        assert d[|keyText|] == separator;
        assert |keyText| >= |EXPORT|;
        assert keyText[..|EXPORT|] == EXPORT;
      }
    } else {
      assert d[|EXPORT|..] == prefix[|EXPORT|..] + (keyText + [separator] + rest);
      assert d[..|EXPORT|] == prefix[..|EXPORT|] == EXPORT;
      assert forall i :: |EXPORT| <= i < |prefix| ==> d[i] == prefix[|EXPORT|..][i - |EXPORT|];
      HorizontalLengthIs(d[|EXPORT|..], |prefix| - |EXPORT|);
    }
  }

  lemma ExportIsKey()
    ensures forall i :: 0 <= i < |EXPORT| ==> !IsSeparator(EXPORT[i])
  {
  }

  /** A piece is read as what it says, up to its end. */
  lemma AssignmentReads(p: Piece, w: nat, lineStart: nat)
    requires p.Assignment? && ValidPiece(p) && lineStart <= w && PieceText(p) != []
    ensures var at := w + |p.prefix| + |p.keyText| + 1 + |p.lead|;
            UnitOf(PieceText(p), w, lineStart)
            == Entry(Trim(p.keyText), lineStart, at, at + |Body(p.form)|, w + |PieceText(p)|, Expands(p.form))
  {
    hide Trim, ValidSourceKey, Body, Expands, ReadValue, KeyStart, ReadKey, ValidForm;
    var t, v := PieceText(p), Body(p.form) + p.tail;
    var r := p.keyText + [p.separator] + p.lead + v;
    assert r == p.keyText + [p.separator] + (p.lead + v);
    assert t == p.prefix + r;
    FormReads(p.form, p.tail);
    ExportReads(p.prefix, p.keyText, p.separator, p.lead + v);
    KeyReads(p.keyText, p.separator, p.lead, v);
    assert t[|p.prefix|..] == r;
    assert t[|p.prefix| + |p.keyText| + 1 + |p.lead|..] == v;
    assert p.prefix + p.keyText != [] by { KeyNotEmpty(p.prefix, p.keyText); }
    assert t[0] == (p.prefix + p.keyText)[0];
  }

  lemma KeyNotEmpty(prefix: Bytes, keyText: Bytes)
    requires ValidKeyText(prefix, keyText)
    ensures keyText != []
  {
    assert Trim([]) == [];
  }

  lemma PieceStarts(p: Piece)
    requires ValidPiece(p)
    ensures PieceText(p) != [] && !IsSpace(PieceText(p)[0]) && (PieceText(p)[0] == HASH <==> p.Remark?)
  {
    hide Trim, ValidForm;
    if p.Assignment? {
      KeyNotEmpty(p.prefix, p.keyText);
    }
  }

  /** Where the value of an assignment starts in its piece. */
  function ValueAt(p: Piece): nat
    requires p.Assignment?
  {
    |p.prefix| + |p.keyText| + 1 + |p.lead|
  }

  lemma PieceUnit(p: Piece, w: nat, lineStart: nat)
    requires ValidPiece(p) && lineStart <= w && PieceText(p) != []
    ensures var u, n := UnitOf(PieceText(p), w, lineStart), |PieceText(p)|;
            u == if p.Remark? then Comment(w + n)
                 else Entry(Trim(p.keyText), lineStart, w + ValueAt(p), w + ValueAt(p) + |Body(p.form)|, w + n, Expands(p.form))
  {
    hide Trim, ValidForm, Body, Expands, ReadHead, ReadValue;
    if p.Remark? {
      LineLengthIs(p.text, |p.text|);
    } else {
      AssignmentReads(p, w, lineStart);
    }
  }

  lemma PartUnit(part: Part)
    requires AllSpace(part.space) && ValidPiece(part.piece)
    ensures var p, w, t := part.piece, |part.space|, part.space + PieceText(part.piece);
            w < |t| && LineStart(t, w) <= w
            && NextUnit(t) == if p.Remark? then Comment(|t|)
                              else Entry(Trim(p.keyText), LineStart(t, w), w + ValueAt(p), w + ValueAt(p) + |Body(p.form)|, |t|,
                                         Expands(p.form))
  {
    hide Trim, Body, Expands, ValidPiece, UnitOf, PieceText, ValueAt;
    var p, w := part.piece, |part.space|;
    var t := part.space + PieceText(p);
    PieceStarts(p);
    SpaceLengthIs(t, w);
    assert t[w..] == PieceText(p);
    PieceUnit(p, w, LineStart(t, w));
  }

  /** Space and a piece that ends its line are read as what the piece says, whatever follows. */
  lemma PartReads(part: Part, rest: Bytes)
    requires AllSpace(part.space) && ValidPiece(part.piece) && Follows(rest)
    ensures var d, p, w := part.space + PieceText(part.piece) + rest, part.piece, |part.space|;
            var u, n := NextUnit(d), w + |PieceText(p)|;
            && w < n <= |d| && d[n..] == rest
            && if p.Remark? then u == Comment(n)
               else
                 && u.Entry? && u.blockEnd == n && u.valueStart == w + ValueAt(p) && u.valueEnd == u.valueStart + |Body(p.form)|
                 && UnitItem(d, u) == PieceItem(p)
  {
    hide Trim, Body, Expands, ValidPiece, NextUnit, PieceText, ValueAt, AllSpace;
    var p, w := part.piece, |part.space|;
    var t := part.space + PieceText(p);
    PartUnit(part);
    UnitJoin(t, rest);
    if p.Assignment? {
      BodyStands(p);
      BodySlice(part.space, PieceText(p), rest, ValueAt(p), ValueAt(p) + |Body(p.form)|);
    }
  }

  lemma BodySlice(space: Bytes, t: Bytes, rest: Bytes, a: nat, b: nat)
    requires a <= b <= |t|
    ensures (space + t + rest)[|space| + a..|space| + b] == t[a..b]
  {
  }

  lemma BodyStands(p: Piece)
    requires p.Assignment?
    ensures ValueAt(p) + |Body(p.form)| + |p.tail| == |PieceText(p)|
    ensures PieceText(p)[ValueAt(p)..ValueAt(p) + |Body(p.form)|] == Body(p.form)
    ensures PieceText(p)[ValueAt(p) + |Body(p.form)|..] == p.tail
  {
    hide Body;
  }

  /** Every file of this form is read as exactly what it says. */
  lemma {:induction false} TextReads(parts: seq<Part>, final: Bytes)
    requires ValidParts(parts, final)
    ensures Items(Text(parts, final)) == Some(PartItems(parts))
  {
    hide ValidPiece, PieceText, PieceItem, NextUnit, UnitItem;
    if parts == [] {
      SpaceLengthIs(final, |final|);
      SpaceIsBlank(final);
    } else {
      var rest := Text(parts[1..], final);
      TextReads(parts[1..], final);
      PartReads(parts[0], rest);
      assert [] + PartItems(parts[1..]) == PartItems(parts[1..]);
    }
  }

  lemma SpaceIsBlank(d: Bytes)
    requires SpaceLength(d) == |d|
    ensures NextUnit(d) == Blank
  {
  }

  // ---------- the scanner reads nothing else ----------

  lemma HorizontalSlice(t: Bytes, a: nat, b: nat)
    requires a <= b <= |t| && forall i :: a <= i < b ==> IsHorizontal(t[i])
    ensures AllHorizontal(t[a..b])
  {
  }

  lemma TailWritten(v: Bytes, e: nat, c: nat, n: nat)
    requires e <= c <= n <= |v| && (c < n ==> v[c] == HASH) && forall i :: e <= i < c ==> IsHorizontal(v[i])
    requires forall i :: e <= i < n ==> !IsBreak(v[i])
    ensures Trails(v[e..n])
  {
    HorizontalSlice(v, e, c);
    assert v[e..n][..c - e] == v[e..c];
    assert TrailsAt(v[e..n], c - e);
  }

  lemma BareWritten(v: Bytes)
    requires v != [] && !IsBreak(v[0]) && !IsQuote(v[0]) && !IsHorizontal(v[0])
    ensures var r := ReadBare(v);
            && ValidForm(Bare(v[..r.end]), v[r.end..r.blockEnd]) && r.expansion == Expands(Bare(v[..r.end]))
  {
    hide HasExpansion, Trails;
    var n := LineLength(v);
    var c := CommentAt(v, 1, n);
    var e := TrimmedEnd(v, c);
    TailWritten(v, e, c, n);
    assert e > 0;
    assert e < n ==> IsHorizontal(v[e]);
  }

  lemma TrailerWritten(t: Bytes)
    requires Trailer(t).Some?
    ensures Trails(t[..Trailer(t).value])
  {
    var h := HorizontalLength(t);
    var n := LineLength(t[h..]);
    var tail := t[..h + n];
    assert forall i :: 0 <= i < n ==> tail[h + i] == t[h..][i];
    assert TrailsAt(tail, h);
  }

  lemma QuotesWritten(v: Bytes, c: nat)
    requires 0 < c < |v| && IsQuote(v[0]) && v[c] == v[0] && v[c - 1] != BACKSLASH
    requires forall i :: 1 <= i < c ==> !(v[i] == v[0] && v[i - 1] != BACKSLASH)
    ensures var x := v[1..c];
            && v[..c + 1] == [v[0]] + x + [v[0]] && (x != [] ==> x[|x| - 1] != BACKSLASH)
            && forall i :: 0 <= i < |x| && x[i] == v[0] ==> i > 0 && x[i - 1] == BACKSLASH
  {
    var x := v[1..c];
    assert forall i :: 0 <= i < |x| ==> x[i] == v[i + 1];
    assert v[0] != BACKSLASH;
  }

  lemma QuotedWritten(v: Bytes)
    requires v != [] && IsQuote(v[0]) && ReadQuoted(v).Value?
    ensures var r := ReadQuoted(v);
            && r.end >= 2 && v[..r.end] == Body(Quoted(v[0], v[1..r.end - 1]))
            && ValidForm(Quoted(v[0], v[1..r.end - 1]), v[r.end..r.blockEnd])
            && r.expansion == Expands(Quoted(v[0], v[1..r.end - 1]))
  {
    hide HasExpansion, Trailer, Trails, IsQuote;
    var q, c := v[0], CloseAt(v, v[0], 1);
    TrailerWritten(v[c + 1..]);
    QuotesWritten(v, c);
    assert v[c + 1..][..Trailer(v[c + 1..]).value] == v[c + 1..c + 1 + Trailer(v[c + 1..]).value];
  }

  /** The form of a value that is read. */
  function FormOf(v: Bytes): Form
    requires ReadValue(v).Value?
  {
    if v == [] || IsBreak(v[0]) then Absent
    else if IsQuote(v[0]) then if ReadQuoted(v).end >= 2 then Quoted(v[0], v[1..ReadQuoted(v).end - 1]) else Absent
    else Bare(v[..ReadBare(v).end])
  }

  lemma FormWritten(v: Bytes)
    requires ReadValue(v).Value? && (v != [] ==> !IsHorizontal(v[0]))
    ensures var r, f := ReadValue(v), FormOf(v);
            ValidForm(f, v[r.end..r.blockEnd]) && Body(f) == v[..r.end] && r.expansion == Expands(f)
  {
    hide ReadBare, ReadQuoted, ValidForm, HasExpansion;
    if v == [] || IsBreak(v[0]) {
      NothingWritten();
    } else if IsQuote(v[0]) {
      QuotedWritten(v);
    } else {
      BareWritten(v);
    }
  }

  lemma NothingWritten()
    ensures ValidForm(Absent, [])
  {
  }

  /** Where the separator stands. */
  function SeparatorAt(t: Bytes): nat { KeyStart(t) + KeyLength(t[KeyStart(t)..]) }

  lemma HeadParts(t: Bytes)
    requires ReadHead(t).Head?
    ensures var k := KeyStart(t);
            var r := t[k..];
            var n := KeyLength(r);
            && n < |r| && IsSeparator(r[n]) && ReadHead(t).key == Trim(r[..n]) && ValidSourceKey(Trim(r[..n]))
            && ReadHead(t).valueStart == k + n + 1 + HorizontalLength(r[n + 1..])
  {
    hide Trim, ValidSourceKey, KeyStart, HorizontalLength;
  }

  lemma KeyWritten(t: Bytes)
    requires ReadHead(t).Head?
    ensures var k, n, at := KeyStart(t), SeparatorAt(t), ReadHead(t).valueStart;
            && k <= n < at <= |t| && IsSeparator(t[n]) && ReadHead(t).key == Trim(t[k..n])
            && ValidKeyText(t[..k], t[k..n]) && AllHorizontal(t[n + 1..at]) && (at < |t| ==> !IsHorizontal(t[at]))
  {
    hide Trim, ValidSourceKey, ValidKeyText, KeyStart, ReadHead, HorizontalLength, KeyLength;
    HeadParts(t);
    var k, n := KeyStart(t), SeparatorAt(t);
    assert t[k..][..n - k] == t[k..n] && t[k..][n - k + 1..] == t[n + 1..];
    LeadWritten(t, n + 1);
    PrefixWritten(t, n - k);
  }

  lemma LeadWritten(t: Bytes, a: nat)
    requires a <= |t|
    ensures var n := HorizontalLength(t[a..]);
            AllHorizontal(t[a..a + n]) && (a + n < |t| ==> !IsHorizontal(t[a + n]))
  {
    var n := HorizontalLength(t[a..]);
    assert forall i :: a <= i < a + n ==> t[i] == t[a..][i - a];
    HorizontalSlice(t, a, a + n);
  }

  lemma PrefixWritten(t: Bytes, n: nat)
    requires KeyStart(t) + n <= |t| && n == KeyLength(t[KeyStart(t)..]) && ValidSourceKey(Trim(t[KeyStart(t)..KeyStart(t) + n]))
    ensures ValidKeyText(t[..KeyStart(t)], t[KeyStart(t)..KeyStart(t) + n])
  {
    hide Trim, ValidSourceKey;
    var k := KeyStart(t);
    var keyText := t[k..k + n];
    assert forall i :: 0 <= i < n ==> keyText[i] == t[k..][i];
    if k == 0 {
      NoPrefixWritten(t, n);
    } else {
      ExportWritten(t, n);
    }
  }

  lemma NoPrefixWritten(t: Bytes, n: nat)
    requires KeyStart(t) == 0 && n <= |t|
    ensures !(EXPORT <= t[..n] && n > |EXPORT| && IsHorizontal(t[..n][|EXPORT|]))
  {
    if EXPORT <= t[..n] && n > |EXPORT| {
      assert t[..|EXPORT|] == t[..n][..|EXPORT|];
    }
  }

  lemma ExportWritten(t: Bytes, n: nat)
    requires var k := KeyStart(t); 0 < k && k + n <= |t|
    ensures var k := KeyStart(t);
            && EXPORT <= t[..k] && k > |EXPORT| && AllHorizontal(t[..k][|EXPORT|..])
            && (n > 0 ==> !IsHorizontal(t[k..k + n][0]))
  {
    var k := KeyStart(t);
    LeadWritten(t, |EXPORT|);
    assert t[..k][|EXPORT|..] == t[|EXPORT|..k];
    assert t[..k][..|EXPORT|] == t[..|EXPORT|] == EXPORT;
  }

  /** The assignment that t begins with. */
  function AssignmentOf(t: Bytes): Piece
    requires ReadHead(t).Head? && ReadValue(t[ReadHead(t).valueStart..]).Value? && SeparatorAt(t) < ReadHead(t).valueStart
  {
    var k, n, at := KeyStart(t), SeparatorAt(t), ReadHead(t).valueStart;
    var v := t[at..];
    var r := ReadValue(v);
    Assignment(t[..k], t[k..n], t[n], t[n + 1..at], FormOf(v), v[r.end..r.blockEnd])
  }

  lemma Glue(t: Bytes, k: nat, n: nat, at: nat, e: nat, b: nat)
    requires k <= n < at <= |t| && e <= b <= |t| - at
    ensures t[..k] + (t[k..n] + [t[n]] + t[n + 1..at] + (t[at..][..e] + t[at..][e..b])) == t[..at + b]
    ensures (t[..k] + t[k..n]) == t[..n]
  {
    assert t[at..][..e] + t[at..][e..b] == t[at..at + b];
    assert t[k..n] + [t[n]] + t[n + 1..at] == t[k..at];
  }

  lemma AssignmentWritten(t: Bytes)
    requires t != [] && !IsSpace(t[0]) && t[0] != HASH && ReadHead(t).Head? && ReadValue(t[ReadHead(t).valueStart..]).Value?
    ensures SeparatorAt(t) < ReadHead(t).valueStart
    ensures var p, at := AssignmentOf(t), ReadHead(t).valueStart;
            var r := ReadValue(t[at..]);
            && p.Assignment? && ValidPiece(p) && PieceText(p) == t[..at + r.blockEnd]
            && PieceItem(p) == Item(ReadHead(t).key, t[at..][..r.end], r.expansion)
  {
    hide Trim, ValidSourceKey, ValidKeyText, ReadHead, ReadValue, KeyStart, ValidForm, Body, Expands, FormOf, SeparatorAt,
         AllHorizontal;
    KeyWritten(t);
    var at := ReadHead(t).valueStart;
    FormWritten(t[at..]);
    var r := ReadValue(t[at..]);
    Glue(t, KeyStart(t), SeparatorAt(t), at, r.end, r.blockEnd);
    var p := AssignmentOf(t);
    KeyNotEmpty(p.prefix, p.keyText);
    assert (p.prefix + p.keyText)[0] == t[0];
  }

  lemma UnitParts(d: Bytes)
    requires var u := NextUnit(d); u.Entry? || u.Comment?
    ensures var w, u := SpaceLength(d), NextUnit(d);
            && w < |d| && AllSpace(d[..w]) && !IsSpace(d[w])
            && var t := d[w..];
               if t[0] == HASH then u == Comment(w + LineLength(t))
               else
                 && u.Entry? && ReadHead(t).Head? && u.key == ReadHead(t).key && u.valueStart == w + ReadHead(t).valueStart
                 && var v := ReadValue(t[ReadHead(t).valueStart..]);
                    && v.Value? && u.valueEnd == u.valueStart + v.end && u.blockEnd == u.valueStart + v.blockEnd
                    && u.expansion == v.expansion
  {
    hide ReadHead, ReadValue, LineStart, AllSpace, IsSpace;
    SpaceWritten(d);
  }

  lemma SpaceWritten(d: Bytes)
    ensures AllSpace(d[..SpaceLength(d)])
  {
  }

  /** What a text begins with, up to the end of the unit. */
  lemma PartWritten(d: Bytes) returns (part: Part)
    requires var u := NextUnit(d); u.Entry? || u.Comment?
    ensures AllSpace(part.space) && ValidPiece(part.piece)
    ensures var u := NextUnit(d);
            && part.space + PieceText(part.piece) == d[..BlockEnd(u)]
            && part.piece.Remark? == u.Comment? && (u.Entry? ==> PieceItem(part.piece) == UnitItem(d, u))
  {
    hide Trim, PieceText, PieceItem, ValidPiece, NextUnit, AllSpace;
    UnitParts(d);
    var w := SpaceLength(d);
    var t, n := d[w..], BlockEnd(NextUnit(d));
    if t[0] == HASH {
      part := Part(d[..w], Remark(t[..n - w]));
      RemarkWritten(t);
    } else {
      var p := EntryWritten(d);
      part := Part(d[..w], p);
    }
    Glued(d, w, n);
  }

  lemma EntryWritten(d: Bytes) returns (p: Piece)
    requires NextUnit(d).Entry?
    ensures var u, w := NextUnit(d), SpaceLength(d);
            && w <= u.blockEnd && p.Assignment? && ValidPiece(p) && PieceText(p) == d[w..][..u.blockEnd - w]
            && PieceItem(p) == UnitItem(d, u)
  {
    hide Trim, ReadHead, ReadValue, PieceText, PieceItem, ValidPiece, AssignmentOf, SeparatorAt, NextUnit, AllSpace;
    UnitParts(d);
    var w := SpaceLength(d);
    var t := d[w..];
    AssignmentWritten(t);
    p := AssignmentOf(t);
    var at, e := ReadHead(t).valueStart, ReadValue(t[ReadHead(t).valueStart..]).end;
    Shifted(d, w, at, at + e);
    assert t[at..][..e] == t[at..at + e];
  }

  lemma Shifted(d: Bytes, w: nat, a: nat, b: nat)
    requires w <= |d| && a <= b <= |d| - w
    ensures d[w..][a..b] == d[w + a..w + b]
  {
  }

  lemma Glued(d: Bytes, w: nat, n: nat)
    requires w <= n <= |d|
    ensures d[..w] + d[w..][..n - w] == d[..n]
  {
  }

  lemma RemarkWritten(t: Bytes)
    requires t != [] && t[0] == HASH
    ensures var p := Remark(t[..LineLength(t)]); ValidPiece(p) && PieceText(p) == t[..LineLength(t)]
  {
  }

  /** Every file that is read at all is of this form, and says what was read. */
  lemma {:induction false} TextWritten(d: Bytes) returns (parts: seq<Part>, final: Bytes)
    requires Items(d).Some?
    ensures ValidParts(parts, final) && Text(parts, final) == d && PartItems(parts) == Items(d).value
    decreases |d|
  {
    hide NextUnit, UnitItem, PieceText, PieceItem, ValidPiece;
    var u := NextUnit(d);
    if u.Blank? {
      parts, final := [], d;
      BlankIsSpace(d);
    } else {
      UnitEnds(d);
      var part := PartWritten(d);
      var n := BlockEnd(u);
      var rest;
      rest, final := TextWritten(d[n..]);
      parts := [part] + rest;
      assert parts[1..] == rest;
      assert d[..n] + d[n..] == d;
      assert [] + PartItems(rest) == PartItems(rest);
    }
  }

  lemma BlankIsSpace(d: Bytes)
    requires NextUnit(d).Blank?
    ensures AllSpace(d)
  {
  }

  /** The scanner accepts exactly the files of this form, and of each exactly what it says. */
  lemma ReadIffWritten(d: Bytes, items: seq<Item>)
    ensures Items(d) == Some(items) <==>
            exists parts, final :: ValidParts(parts, final) && Text(parts, final) == d && PartItems(parts) == items
  {
    hide ValidParts, Text, PartItems;
    if Items(d) == Some(items) {
      var parts, final := TextWritten(d);
    }
    if parts, final :| ValidParts(parts, final) && Text(parts, final) == d && PartItems(parts) == items {
      TextReads(parts, final);
    }
  }

  /** The characters that these rules speak of. */
  lemma Characters(b: Byte)
    ensures IsHorizontal(b) <==> b in Ascii(" \t") + [0x0B, 0x0C]
    ensures IsBreak(b) <==> b in Ascii("\r\n")
    ensures IsQuote(b) <==> b in Ascii("'\"")
    ensures IsSeparator(b) <==> b in Ascii("=:")
    ensures [HASH] == Ascii("#") && [BACKSLASH] == Ascii("\\") && [DOLLAR] == Ascii("$") && EXPORT == Ascii("export")
  {
    assert Ascii(" \t") == [32, 9] && Ascii("\r\n") == [13, 10] && Ascii("'\"") == [39, 34] && Ascii("=:") == [61, 58];
  }
}
