/** The scanner as the program runs it: positions that advance over the whole file. */
module DotenvScanner {
  import opened ByteStrings
  import opened DotenvSyntax
  import opened DotenvLocality
  import opened DotenvSplice

  // ---------- advancing a position ----------

  method SkipWhitespace(data: Bytes, from: nat) returns (position: nat)
    requires from <= |data|
    ensures position == from + SpaceLength(data[from..])
  {
    position := from;
    while position < |data| && IsSpace(data[position])
      invariant from <= position <= |data|
      invariant forall i :: from <= i < position ==> IsSpace(data[i])
    {
      position := position + 1;
    }
    SpaceLengthIs(data[from..], position - from);
  }

  method SkipHorizontal(data: Bytes, from: nat) returns (position: nat)
    requires from <= |data|
    ensures position == from + HorizontalLength(data[from..])
  {
    position := from;
    while position < |data| && IsHorizontal(data[position])
      invariant from <= position <= |data|
      invariant forall i :: from <= i < position ==> IsHorizontal(data[i])
    {
      position := position + 1;
    }
    HorizontalLengthIs(data[from..], position - from);
  }

  method LineEnd(data: Bytes, from: nat) returns (position: nat)
    requires from <= |data|
    ensures position == from + LineLength(data[from..])
  {
    position := from;
    while position < |data| && !IsBreak(data[position])
      invariant from <= position <= |data|
      invariant forall i :: from <= i < position ==> !IsBreak(data[i])
    {
      position := position + 1;
    }
    LineLengthIs(data[from..], position - from);
  }

  /** Behind the line and its break. */
  method ConsumeLine(data: Bytes, from: nat) returns (position: nat)
    requires from <= |data|
    ensures var end := from + LineLength(data[from..]); position == end + BreakLength(data[end..])
  {
    position := LineEnd(data, from);
    if position < |data| && data[position] == CR {
      position := position + 1;
      if position < |data| && data[position] == LF {
        position := position + 1;
      }
    } else if position < |data| && data[position] == LF {
      position := position + 1;
    }
  }

  method CurrentLineStart(data: Bytes, from: nat) returns (position: nat)
    requires from <= |data|
    ensures position == LineStart(data, from)
  {
    position := from;
    while position > 0 && !IsBreak(data[position - 1])
      invariant position <= from
      invariant forall i :: position <= i < from ==> !IsBreak(data[i])
    {
      position := position - 1;
    }
    LineStartIs(data, from, position);
  }

  // ---------- values ----------

  method ContainsExpansion(value: Bytes) returns (found: bool)
    ensures found == HasExpansion(value)
  {
    for index := 0 to |value|
      invariant forall i :: 0 <= i < index ==> !(value[i] == DOLLAR && BackslashRun(value[..i]) % 2 == 0)
    {
      if value[index] == DOLLAR {
        var backslashes := 0;
        var previous := index - 1;
        while previous >= 0 && value[previous] == BACKSLASH
          invariant -1 <= previous < index
          invariant BackslashRun(value[..index]) == backslashes + BackslashRun(value[..previous + 1])
        {
          assert value[..previous + 1][..previous] == value[..previous];
          backslashes, previous := backslashes + 1, previous - 1;
        }
        if backslashes % 2 == 0 {
          return true;
        }
      }
    }
    return false;
  }

  /** Where a value ends, where its statement ends, and whether it asks for expansion. */
  datatype Span = Span(valueEnd: nat, statementEnd: nat, expansion: bool)

  function SpanAt(data: Bytes, start: nat): Option<Span>
    requires start <= |data|
  {
    var v := ReadValue(data[start..]);
    if v.BadValue? then None
    else Some(Span(start + v.end, start + v.blockEnd + BreakLength(data[start + v.blockEnd..]), v.expansion))
  }

  lemma SpanIs(data: Bytes, start: nat, v: Value)
    requires start <= |data| && ReadValue(data[start..]) == v
    ensures SpanAt(data, start)
         == if v.BadValue? then None
            else Some(Span(start + v.end, start + v.blockEnd + BreakLength(data[start + v.blockEnd..]), v.expansion))
  {
    hide ReadValue, BreakLength;
  }

  /** What follows the quote that closes a value. */
  method FinishQuoted(data: Bytes, start: nat, position: nat) returns (r: Option<Span>)
    requires start < position < |data| && IsQuote(data[start])
    requires CloseAt(data[start..], data[start], 1) == position - start
    ensures r == SpanAt(data, start)
  {
    hide HasExpansion, LineLength, HorizontalLength, CloseAt, BreakLength, SpanAt, Trailer;
    ghost var v := data[start..];
    var valueEnd := position + 1;
    assert v[position - start + 1..] == data[valueEnd..];
    assert v[1..position - start] == data[start + 1..position];
    var trailer := SkipHorizontal(data, valueEnd);
    TrailerAt(data, valueEnd, trailer);
    if trailer < |data| && data[trailer] != HASH && !IsBreak(data[trailer]) {
      SpanIs(data, start, BadValue);
      return None;
    }
    var expansion := false;
    if data[start] == DOUBLE_QUOTE {
      expansion := ContainsExpansion(data[start + 1..position]);
    }
    var statementEnd := ConsumeLine(data, trailer);
    SpanIs(data, start, Value(valueEnd - start, valueEnd - start + Trailer(data[valueEnd..]).value, expansion));
    return Some(Span(valueEnd, statementEnd, expansion));
  }

  method ScanQuoted(data: Bytes, start: nat) returns (r: Option<Span>)
    requires start < |data| && IsQuote(data[start])
    ensures r == SpanAt(data, start)
  {
    hide CloseAt, SpanAt, CloseQuoted;
    ghost var v := data[start..];
    var quote := data[start];
    var position := start + 1;
    while position < |data|
      invariant start < position <= |data|
      invariant forall i {:trigger v[i]} :: 1 <= i < position - start ==> !(v[i] == quote && v[i - 1] != BACKSLASH)
    {
      if data[position] == quote && data[position - 1] != BACKSLASH {
        CloseAtIs(v, quote, position - start);
        r := FinishQuoted(data, start, position);
        return;
      }
      position := position + 1;
    }
    CloseAtIs(v, quote, |v|);
    SpanIs(data, start, BadValue);
    return None;
  }

  lemma TrailerAt(data: Bytes, valueEnd: nat, trailer: nat)
    requires valueEnd <= trailer <= |data| && trailer == valueEnd + HorizontalLength(data[valueEnd..])
    ensures Trailer(data[valueEnd..])
         == if trailer < |data| && data[trailer] != HASH && !IsBreak(data[trailer]) then None
            else Some(trailer - valueEnd + LineLength(data[trailer..]))
  {
    hide HorizontalLength, LineLength;
    assert data[valueEnd..][trailer - valueEnd..] == data[trailer..];
  }

  /** Where the comment of a bare value starts. */
  method FindComment(data: Bytes, start: nat, lineEnd: nat) returns (valueEnd: nat)
    requires start < lineEnd <= |data|
    ensures valueEnd == start + CommentAt(data[start..], 1, lineEnd - start)
  {
    ghost var v, n := data[start..], lineEnd - start;
    var position := start;
    while position < lineEnd
      invariant start <= position <= lineEnd
      invariant CommentAt(v, 1, n) == CommentAt(v, if position == start then 1 else position - start, n)
    {
      if data[position] == HASH && position > start && IsHorizontal(data[position - 1]) {
        return position;
      }
      position := position + 1;
    }
    return lineEnd;
  }

  method TrimSpace(data: Bytes, start: nat, end: nat) returns (valueEnd: nat)
    requires start <= end <= |data|
    ensures valueEnd == start + TrimmedEnd(data[start..], end - start)
  {
    valueEnd := end;
    while valueEnd > start && IsHorizontal(data[valueEnd - 1])
      invariant start <= valueEnd <= end
      invariant TrimmedEnd(data[start..], end - start) == TrimmedEnd(data[start..], valueEnd - start)
    {
      valueEnd := valueEnd - 1;
    }
  }

  method ScanBare(data: Bytes, start: nat) returns (r: Option<Span>)
    requires start < |data| && !IsBreak(data[start]) && !IsQuote(data[start])
    ensures r == SpanAt(data, start)
  {
    hide HasExpansion, LineLength, BreakLength, SpanAt, CommentAt, TrimmedEnd;
    ghost var v := data[start..];
    var lineEnd := LineEnd(data, start);
    assert lineEnd > start;
    var valueEnd := FindComment(data, start, lineEnd);
    valueEnd := TrimSpace(data, start, valueEnd);
    assert v[..valueEnd - start] == data[start..valueEnd];
    var expansion := ContainsExpansion(data[start..valueEnd]);
    EmptyLine(data, lineEnd, start);
    var statementEnd := ConsumeLine(data, lineEnd);
    SpanIs(data, start, Value(valueEnd - start, lineEnd - start, expansion));
    return Some(Span(valueEnd, statementEnd, expansion));
  }

  lemma EmptyLine(data: Bytes, lineEnd: nat, start: nat)
    requires start <= |data| && lineEnd == start + LineLength(data[start..])
    ensures LineLength(data[lineEnd..]) == 0
  {
    assert lineEnd < |data| ==> data[start..][lineEnd - start] == data[lineEnd];
    LineLengthIs(data[lineEnd..], 0);
  }

  /** The value that starts at a position. */
  method ScanValue(data: Bytes, start: nat) returns (r: Option<Span>)
    requires start <= |data|
    ensures r == SpanAt(data, start)
  {
    if start >= |data| || IsBreak(data[start]) {
      var end := ConsumeLine(data, start);
      LineLengthIs(data[start..], 0);
      return Some(Span(start, end, false));
    }
    if IsQuote(data[start]) {
      r := ScanQuoted(data, start);
    } else {
      r := ScanBare(data, start);
    }
  }

  // ---------- entries ----------

  /** Where a managed statement and its value lie. */
  datatype Place = Place(statementStart: nat, statementEnd: nat, valueStart: nat, valueEnd: nat)

  function PlaceOf(s: Statement): Place { Place(s.start, s.end, s.valueStart, s.valueEnd) }

  /** The managed entries of a list of statements. */
  function EntriesOf(s: seq<Statement>, allowed: set<Bytes>): map<Bytes, Place> {
    if s == [] then map[]
    else
      var last := s[|s| - 1];
      var before := EntriesOf(s[..|s| - 1], allowed);
      if last.key in allowed then before[last.key := PlaceOf(last)] else before
  }

  /** The keys that are not managed. */
  function UnsupportedOf(s: seq<Statement>, allowed: set<Bytes>): set<Bytes> {
    if s == [] then {}
    else
      var last := s[|s| - 1];
      var before := UnsupportedOf(s[..|s| - 1], allowed);
      if last.key in allowed then before else before + {last.key}
  }

  lemma {:induction false} EntriesHold(s: seq<Statement>, allowed: set<Bytes>, i: nat)
    requires i < |s| && forall i, j :: 0 <= i < j < |s| ==> s[i].key != s[j].key
    ensures if s[i].key in allowed
            then s[i].key in EntriesOf(s, allowed) && EntriesOf(s, allowed)[s[i].key] == PlaceOf(s[i])
            else s[i].key in UnsupportedOf(s, allowed)
  {
    if i < |s| - 1 {
      assert s[..|s| - 1][i] == s[i];
      EntriesHold(s[..|s| - 1], allowed, i);
    }
  }

  lemma {:induction false} EntriesFrom(s: seq<Statement>, allowed: set<Bytes>, key: Bytes) returns (i: nat)
    requires key in EntriesOf(s, allowed) || key in UnsupportedOf(s, allowed)
    ensures i < |s| && s[i].key == key
    ensures key in EntriesOf(s, allowed) <==> key in allowed
  {
    var n := |s| - 1;
    if s[n].key == key {
      i := n;
      if key !in allowed && key in EntriesOf(s[..n], allowed) {
        var _ := EntriesFrom(s[..n], allowed, key);
      }
    } else {
      i := EntriesFrom(s[..n], allowed, key);
    }
  }

  /** What the whole scan reports, when done has been found and the rest is what remains to be scanned. */
  function After(done: seq<Statement>, rest: Result<seq<Statement>>): Result<seq<Statement>> {
    if rest.Err? then rest else Ok(done + rest.value)
  }

  /** A position from which scanning may resume: lines before it do not matter. */
  predicate Resumes(data: Bytes, position: nat) {
    position <= |data| && (position == 0 || position == |data| || IsBreak(data[position - 1]))
  }

  lemma ConsumedResumes(data: Bytes, end: nat)
    requires end <= |data| && Follows(data[end..])
    ensures Resumes(data, end + BreakLength(data[end..]))
  {
    BreakIsSpace(data[end..]);
    var b := BreakLength(data[end..]);
    assert b > 0 ==> data[end..][b - 1] == data[end + b - 1];
  }

  lemma LineStartWithin(data: Bytes, position: nat, w: nat)
    requires Resumes(data, position) && position + w < |data|
    ensures LineStart(data, position + w) == position + LineStart(data[position..], w)
  {
    LineStartBehindBreak(data[..position], data[position..], w);
    assert data[..position] + data[position..] == data;
  }

  lemma ScanBlank(data: Bytes, position: nat, seen: set<Bytes>, allowed: set<Bytes>)
    requires position <= |data| && SpaceLength(data[position..]) == |data| - position
    ensures Scan(data[position..], position, seen, allowed) == Ok([])
  {
    UnitOfSpace(data[position..]);
    hide NextUnit;
  }

  lemma ScanOverComment(d: Bytes, base: nat, seen: set<Bytes>, allowed: set<Bytes>)
    requires NextUnit(d).Comment?
    ensures var n := NextUnit(d).end; Scan(d, base, seen, allowed) == Scan(d[n..], base + n, seen, allowed)
  {
    hide NextUnit;
  }

  lemma ScanOverStatement(d: Bytes, base: nat, seen: set<Bytes>, allowed: set<Bytes>, u: Unit)
    requires NextUnit(d) == u && u.Entry? && u.key !in seen && !(u.key in allowed && u.expansion)
    ensures Scan(d, base, seen, allowed)
         == After([StatementOf(d, base, u)], Scan(d[u.blockEnd..], base + u.blockEnd, seen + {u.key}, allowed))
  {
    hide NextUnit;
  }

  /** A comment found behind white space. */
  lemma CommentAhead(data: Bytes, position: nat, at: nat)
    requires position <= at < |data| && at == position + SpaceLength(data[position..]) && data[at] == HASH
    ensures var end := at + LineLength(data[at..]);
            NextUnit(data[position..]) == Comment(end - position) && data[position..][end - position..] == data[end..]
  {
    hide SpaceLength, LineStart, LineLength, ReadHead, ReadValue;
    assert data[position..][at - position..] == data[at..];
    var end := at + LineLength(data[at..]);
    assert data[position..][end - position..] == data[end..];
  }

  lemma LineEndFollows(data: Bytes, at: nat)
    requires at <= |data|
    ensures var end := at + LineLength(data[at..]); end <= |data| && Follows(data[end..])
  {
    var end := at + LineLength(data[at..]);
    assert end < |data| ==> data[at..][end - at] == data[end];
  }

  lemma ScanComment(data: Bytes, position: nat, seen: set<Bytes>, allowed: set<Bytes>, at: nat)
    requires position <= at < |data| && at == position + SpaceLength(data[position..]) && data[at] == HASH
    ensures var end := at + LineLength(data[at..]);
            var next := end + BreakLength(data[end..]);
            && Resumes(data, next)
            && Scan(data[position..], position, seen, allowed) == Scan(data[next..], next, seen, allowed)
  {
    hide *;
    CommentAhead(data, position, at);
    var end := at + LineLength(data[at..]);
    ScanOverComment(data[position..], position, seen, allowed);
    ScanBehindBreak(data[end..], end, seen, allowed);
    var next := end + BreakLength(data[end..]);
    assert data[end..][next - end..] == data[next..];
    LineEndFollows(data, at);
    ConsumedResumes(data, end);
  }

  /** The statement or the fault that begins at a position behind white space. */
  lemma ScanHead(data: Bytes, position: nat, seen: set<Bytes>, allowed: set<Bytes>, at: nat)
    requires Resumes(data, position) && position <= at < |data| && data[at] != HASH
    requires at == position + SpaceLength(data[position..])
    ensures var h, u := ReadHead(data[at..]), NextUnit(data[position..]);
            if h.BadHead? then u == Malformed
            else
              var start := at + h.valueStart;
              var v := ReadValue(data[start..]);
              if v.BadValue? then u == MalformedValue(h.key)
              else
                u == Unit.Entry(h.key, LineStart(data, at) - position, start - position, start + v.end - position,
                                start + v.blockEnd - position, v.expansion)
  {
    hide SpaceLength, LineStart, ReadHead, ReadValue;
    var d := data[position..];
    assert d[at - position..] == data[at..];
    LineStartWithin(data, position, at - position);
    var h := ReadHead(data[at..]);
    if h.Head? {
      assert data[at..][h.valueStart..] == data[at + h.valueStart..];
    }
  }

  lemma StatementEnd(data: Bytes, position: nat, u: Unit)
    requires position <= |data| && u.Entry? && u == NextUnit(data[position..])
    ensures var s, end := StatementOf(data[position..], position, u), position + u.blockEnd;
            && s.key == u.key && s.expansion == u.expansion && s.end == end + BreakLength(data[end..])
            && position < end <= |data| && data[position..][u.blockEnd..] == data[end..] && Follows(data[end..])
  {
    hide NextUnit, BreakLength, Follows;
    UnitEnds(data[position..]);
  }

  /** Scanning goes on behind the line break of a statement. */
  lemma ScanStatement(data: Bytes, position: nat, seen: set<Bytes>, allowed: set<Bytes>, s: Statement)
    requires Resumes(data, position) && NextUnit(data[position..]).Entry?
    requires s == StatementOf(data[position..], position, NextUnit(data[position..]))
    requires s.key !in seen && !(s.key in allowed && s.expansion)
    ensures position < s.end && Resumes(data, s.end)
    ensures Scan(data[position..], position, seen, allowed)
         == After([s], Scan(data[s.end..], s.end, seen + {s.key}, allowed))
  {
    hide *;
    ResumesBounds(data, position);
    var u := NextUnit(data[position..]);
    StatementEnd(data, position, u);
    ScanOverStatement(data[position..], position, seen, allowed, u);
    var end := position + u.blockEnd;
    ScanBehindBreak(data[end..], end, seen + {s.key}, allowed);
    assert data[end..][s.end - end..] == data[s.end..];
    ConsumedResumes(data, end);
  }

  /** Behind an optional export. */
  method SkipExport(data: Bytes, at: nat) returns (keyStart: nat)
    requires at < |data|
    ensures keyStart == at + KeyStart(data[at..])
  {
    keyStart := at;
    if EXPORT <= data[at..] {
      var after := at + |EXPORT|;
      if after < |data| && IsHorizontal(data[after]) {
        keyStart := SkipHorizontal(data, after);
        assert data[at..][|EXPORT|..] == data[after..];
      }
    }
  }

  method ReadHeadAt(data: Bytes, at: nat) returns (head: Head)
    requires at < |data|
    ensures head == ReadHead(data[at..])
  {
    hide ReadKey, KeyStart;
    var keyStart := SkipExport(data, at);
    assert data[at..][keyStart - at..] == data[keyStart..];
    head := ReadKeyAt(data, keyStart);
    if head.Head? {
      head := Head(head.key, keyStart - at + head.valueStart);
    }
  }

  method ReadKeyAt(data: Bytes, keyStart: nat) returns (head: Head)
    requires keyStart <= |data|
    ensures head == ReadKey(data[keyStart..])
  {
    hide Trim, ValidSourceKey;
    ghost var r := data[keyStart..];
    var separator := keyStart;
    while separator < |data| && !IsSeparator(data[separator])
      invariant keyStart <= separator <= |data|
      invariant forall i :: keyStart <= i < separator ==> !IsSeparator(data[i]) && !IsBreak(data[i])
    {
      if IsBreak(data[separator]) {
        KeyLengthIs(r, separator - keyStart);
        return BadHead;
      }
      separator := separator + 1;
    }
    KeyLengthIs(r, separator - keyStart);
    if separator == |data| {
      return BadHead;
    }
    var key := Trim(data[keyStart..separator]);
    assert r[..separator - keyStart] == data[keyStart..separator];
    if !ValidSourceKey(key) {
      return BadHead;
    }
    var valueStart := SkipHorizontal(data, separator + 1);
    assert r[separator - keyStart + 1..] == data[separator + 1..];
    return Head(key, valueStart - keyStart);
  }

  method ScanEntries(data: Bytes, allowed: seq<Bytes>) returns (r: Result<(map<Bytes, Place>, set<Bytes>)>)
    ensures var managed := set k | k in allowed;
            match Scan(data, 0, {}, managed)
            case Err(code) => r == Err(code)
            case Ok(s) => r == Ok((EntriesOf(s, managed), UnsupportedOf(s, managed)))
  {
    hide NextUnit, SpaceLength, LineStart, LineLength, BreakLength, ReadHead, ReadValue, Scan, Resumes, UnitOf;
    var entries, seen, unsupported, position := map[], {}, {}, 0;
    ghost var managed := set k | k in allowed;
    ghost var done: seq<Statement> := [];
    assert data[0..] == data;
    assert Resumes(data, 0) by { Start(data); }
    ghost var all := Scan(data, 0, {}, managed);
    assert all == After(done, all) by { assert all.Ok? ==> [] + all.value == all.value; }
    while position < |data|
      invariant Resumes(data, position) && position <= |data|
      invariant all == After(done, Scan(data[position..], position, seen, managed))
      invariant entries == EntriesOf(done, managed) && unsupported == UnsupportedOf(done, managed)
    {
      var at := SkipWhitespace(data, position);
      if at >= |data| {
        ScanBlank(data, position, seen, managed);
        assert done + [] == done;
        return Ok((entries, unsupported));
      }
      if data[at] == HASH {
        ScanComment(data, position, seen, managed, at);
        position := ConsumeLine(data, at);
        continue;
      }
      ghost var before := position;
      ScanHead(data, position, seen, managed, at);
      var head := ReadHeadAt(data, at);
      if head.BadHead? {
        ScanFault(data, position, seen, managed);
        return Err(MalformedText);
      }
      var key, valueStart := head.key, at + head.valueStart;
      if key in seen {
        ScanFault(data, position, seen, managed);
        return Err(DuplicateKey);
      }
      var statementStart := CurrentLineStart(data, at);
      var span := ScanValue(data, valueStart);
      if span.None? {
        ScanFault(data, position, seen, managed);
        return Err(MalformedText);
      }
      if key in allowed && span.value.expansion {
        ScanFault(data, position, seen, managed);
        return Err(ExpansionNotAllowed);
      }
      ghost var s := StatementAt(data, position, at);
      ScanStatement(data, position, seen, managed, s);
      seen := seen + {key};
      if key in allowed {
        entries := entries[key := Place(statementStart, span.value.statementEnd, valueStart, span.value.valueEnd)];
      } else {
        unsupported := unsupported + {key};
      }
      AfterStep(done, s, Scan(data[s.end..], s.end, seen, managed), managed);
      done := done + [s];
      position := span.value.statementEnd;
    }
    ScanEnd(data, position, seen, managed);
    assert done + [] == done;
    return Ok((entries, unsupported));
  }

  lemma Start(data: Bytes)
    ensures Resumes(data, 0)
  {
  }

  lemma ScanEnd(data: Bytes, position: nat, seen: set<Bytes>, allowed: set<Bytes>)
    requires position == |data|
    ensures Scan(data[position..], position, seen, allowed) == Ok([])
  {
    EmptyIsBlank();
  }

  lemma ScanFault(data: Bytes, position: nat, seen: set<Bytes>, allowed: set<Bytes>)
    requires position <= |data|
    ensures var u, r := NextUnit(data[position..]), Scan(data[position..], position, seen, allowed);
            && (u.Malformed? ==> r == Err(MalformedText))
            && (u.MalformedValue? ==> r == Err(if u.badKey in seen then DuplicateKey else MalformedText))
            && (u.Entry? && u.key in seen ==> r == Err(DuplicateKey))
            && (u.Entry? && u.key !in seen && u.key in allowed && u.expansion ==> r == Err(ExpansionNotAllowed))
  {
    hide NextUnit;
  }

  /** The statement behind the white space at a position, placed in the whole file. */
  lemma StatementAt(data: Bytes, position: nat, at: nat) returns (s: Statement)
    requires Resumes(data, position) && position <= at < |data| && data[at] != HASH
    requires at == position + SpaceLength(data[position..])
    requires ReadHead(data[at..]).Head? && ReadValue(data[at + ReadHead(data[at..]).valueStart..]).Value?
    ensures NextUnit(data[position..]).Entry?
    ensures s == StatementOf(data[position..], position, NextUnit(data[position..]))
    ensures var h := ReadHead(data[at..]);
            && s.key == h.key
            && SpanAt(data, at + h.valueStart) == Some(Span(s.valueEnd, s.end, s.expansion))
            && PlaceOf(s) == Place(LineStart(data, at), s.end, at + h.valueStart, s.valueEnd)
  {
    hide SpaceLength, LineStart, ReadHead, ReadValue, BreakLength, NextUnit, Resumes;
    ScanHead(data, position, {}, {}, at);
    var d, u := data[position..], NextUnit(data[position..]);
    s := StatementOf(d, position, u);
    assert position <= |data| by { ResumesBounds(data, position); }
    assert d[u.blockEnd..] == data[position + u.blockEnd..];
  }

  lemma ResumesBounds(data: Bytes, position: nat)
    requires Resumes(data, position)
    ensures position <= |data|
  {
  }

  lemma AfterStep(done: seq<Statement>, s: Statement, rest: Result<seq<Statement>>, allowed: set<Bytes>)
    ensures After(done, After([s], rest)) == After(done + [s], rest)
    ensures var more := done + [s];
            && EntriesOf(more, allowed)
            == (if s.key in allowed then EntriesOf(done, allowed)[s.key := PlaceOf(s)] else EntriesOf(done, allowed))
            && UnsupportedOf(more, allowed)
            == (if s.key in allowed then UnsupportedOf(done, allowed) else UnsupportedOf(done, allowed) + {s.key})
  {
    assert (done + [s])[..|done|] == done;
    if rest.Ok? {
      assert done + ([s] + rest.value) == done + [s] + rest.value;
    }
  }
}
