/** What a text must satisfy before it becomes a document. */
module DotenvPolicy {
  import opened ByteStrings
  import opened DotenvSyntax
  import opened DotenvEdit
  import opened DotenvApply
  import opened DotenvScanner
  import opened DotenvEncoding
  import opened KeyOrder
  import Utf8

  const MAXIMUM_ALLOWED_BYTES := 8 * 1024 * 1024
  const MAXIMUM_ALLOWED_LINES := 32768
  const MAXIMUM_ALLOWED_VALUE_BYTES := 1024 * 1024

  datatype Policy = Policy(maximumBytes: int, maximumLines: int, maximumValueBytes: int)

  predicate ValidPolicy(p: Policy) {
    && 0 < p.maximumBytes <= MAXIMUM_ALLOWED_BYTES
    && 0 < p.maximumLines <= MAXIMUM_ALLOWED_LINES
    && 0 < p.maximumValueBytes <= MAXIMUM_ALLOWED_VALUE_BYTES
  }

  ghost predicate ValidAllowed(keys: seq<Bytes>) {
    (forall k :: k in keys ==> ValidKey(k)) && AllDiffer(keys)
  }

  function KeySet(keys: seq<Bytes>): set<Bytes> { set k | k in keys }

  method ValidateAllowedKeys(keys: seq<Bytes>) returns (r: Option<seq<Bytes>>)
    ensures r == if ValidAllowed(keys) then Some(SortKeys(keys)) else None
  {
    hide ValidKey, Less, SortKeys, Ascending;
    for i := 0 to |keys|
      invariant forall j :: 0 <= j < i ==> ValidKey(keys[j])
    {
      if !ValidKey(keys[i]) {
        assert keys[i] in keys;
        return None;
      }
    }
    var sorted := SortKeys(keys);
    assert |keys| == |multiset(keys)| == |sorted|;
    SortKeysAscends(keys);
    if |sorted| == 0 {
      assert keys == [];
      return Some(sorted);
    }
    for i := 1 to |sorted|
      invariant forall j {:trigger sorted[j]} :: 0 < j < i ==> sorted[j] != sorted[j - 1]
    {
      if sorted[i] == sorted[i - 1] {
        if AllDiffer(keys) {
          DifferPermuted(keys, sorted);
        }
        return None;
      }
    }
    NeighboursDiffer(sorted);
    DifferPermuted(sorted, keys);
    return Some(sorted);
  }

  // ---------- lines ----------

  /** The lines of a text, a final line break ending the last of them. */
  function Lines(d: Bytes): nat
    decreases |d|
  {
    if d == [] then 0
    else
      var n := LineLength(d);
      1 + Lines(d[n + BreakLength(d[n..])..])
  }

  function BreakCount(d: Bytes): nat
    decreases |d|
  {
    if d == [] then 0
    else if IsBreak(d[0]) then 1 + BreakCount(d[BreakLength(d)..])
    else BreakCount(d[1..])
  }

  lemma {:induction false} BreaksBehindLine(d: Bytes)
    ensures BreakCount(d) == BreakCount(d[LineLength(d)..])
    decreases |d|
  {
    if d != [] && !IsBreak(d[0]) {
      BreaksBehindLine(d[1..]);
      assert d[1..][LineLength(d[1..])..] == d[LineLength(d)..];
    } else {
      assert d[0..] == d;
    }
  }

  lemma {:induction false} LinesAreBreaks(d: Bytes)
    ensures Lines(d) == BreakCount(d) + if d == [] || FinalBreak(d) then 0 else 1
    decreases |d|
  {
    hide Lines, LineLength, BreakLength, IsBreak, BreakCount, FinalBreak;
    NoLines();
    if d != [] {
      var n := LineLength(d) + BreakLength(d[LineLength(d)..]);
      BreaksOfLine(d);
      FirstLine(d);
      if LineLength(d) < |d| {
        LinesAreBreaks(d[n..]);
        FinalBreakBehind(d, n);
      }
    }
  }

  lemma NoLines()
    ensures Lines([]) == 0 && BreakCount([]) == 0
  {
  }

  lemma FirstLine(d: Bytes)
    requires d != []
    ensures Lines(d) == 1 + Lines(d[LineLength(d) + BreakLength(d[LineLength(d)..])..])
  {
  }

  lemma BreaksOfLine(d: Bytes)
    requires d != []
    ensures var n := LineLength(d);
            var rest := n + BreakLength(d[n..]);
            if n == |d| then rest == |d| && BreakCount(d) == 0 && !FinalBreak(d)
            else n < rest <= |d| && IsBreak(d[rest - 1]) && BreakCount(d) == 1 + BreakCount(d[rest..])
  {
    var n := LineLength(d);
    BreaksBehindLine(d);
    assert d[n..][BreakLength(d[n..])..] == d[n + BreakLength(d[n..])..];
  }

  lemma FinalBreakBehind(d: Bytes, n: nat)
    requires 0 < n <= |d| && IsBreak(d[n - 1])
    ensures FinalBreak(d) <==> d[n..] == [] || FinalBreak(d[n..])
  {
  }

  method LineCount(data: Bytes) returns (count: int)
    ensures count == Lines(data)
  {
    if |data| == 0 {
      return 0;
    }
    count := 1;
    var index := 0;
    while index < |data|
      invariant 0 <= index <= |data|
      invariant count + BreakCount(data[index..]) == 1 + BreakCount(data)
    {
      ghost var rest := data[index..];
      if data[index] == LF {
        count := count + 1;
        assert rest[1..] == data[index + 1..];
      } else if data[index] == CR {
        count := count + 1;
        if index + 1 < |data| && data[index + 1] == LF {
          index := index + 1;
          assert rest[2..] == data[index + 1..];
        } else {
          assert rest[1..] == data[index + 1..];
        }
      } else {
        assert rest[1..] == data[index + 1..];
      }
      index := index + 1;
    }
    LinesAreBreaks(data);
    if FinalBreak(data) {
      count := count - 1;
    }
  }

  /** The first place of b, or |d|. */
  function IndexOf(d: Bytes, b: Byte): (i: nat)
    ensures i <= |d|
    ensures i < |d| ==> d[i] == b
    ensures forall j :: 0 <= j < i ==> d[j] != b
  {
    if d == [] || d[0] == b then 0 else 1 + IndexOf(d[1..], b)
  }

  /** The line break the file uses. */
  function DetectNewline(d: Bytes): (n: Bytes)
    ensures IsNewline(n)
  {
    var lf := IndexOf(d, LF);
    if 0 < lf < |d| && d[lf - 1] == CR then [CR, LF]
    else if CR in d && LF !in d then [CR]
    else [LF]
  }

  /** At place i of d stands no carriage return or line feed, or one of a break n. */
  predicate BreakAt(d: Bytes, i: nat, n: Bytes)
    requires i < |d|
  {
    && (d[i] == LF ==> n == [LF] || (n == [CR, LF] && i > 0 && d[i - 1] == CR))
    && (d[i] == CR ==> n == [CR] || (n == [CR, LF] && i + 1 < |d| && d[i + 1] == LF))
  }

  /** Every line break of d is the break n. */
  predicate BreaksAre(d: Bytes, n: Bytes) { forall i :: 0 <= i < |d| ==> BreakAt(d, i, n) }

  /** In a file all of whose breaks are of one kind, that kind is found; in a file without any, the line feed. */
  lemma NewlineKind(d: Bytes, n: Bytes)
    requires BreaksAre(d, n)
    ensures (exists i :: 0 <= i < |d| && IsBreak(d[i])) ==> DetectNewline(d) == n
    ensures (forall i :: 0 <= i < |d| ==> !IsBreak(d[i])) ==> DetectNewline(d) == [LF]
  {
    var lf := IndexOf(d, LF);
    if lf < |d| {
      assert BreakAt(d, lf, n);
      if lf > 0 {
        assert BreakAt(d, lf - 1, n);
      }
    } else if i :| 0 <= i < |d| && d[i] == CR {
      assert BreakAt(d, i, n);
    }
  }

  /** In a file that mixes its breaks, the first line feed decides, and without any the carriage return. */
  lemma NewlineFirst(d: Bytes, i: nat)
    requires i < |d| && (forall j :: 0 <= j < i ==> d[j] != LF)
    ensures d[i] == LF ==> DetectNewline(d) == if i > 0 && d[i - 1] == CR then [CR, LF] else [LF]
    ensures LF !in d && d[i] == CR ==> DetectNewline(d) == [CR]
  {
  }

  // ---------- parsing ----------

  predicate CleanText(d: Bytes) { Utf8.Valid(d) && 0 !in d }

  /** The fault found before any value is read, in the order in which the checks are made. */
  ghost function EarlyFault(d: Bytes, allowed: seq<Bytes>, policy: Policy): Option<Code> {
    if !ValidPolicy(policy) || !ValidAllowed(allowed) then Some(InvalidPolicy)
    else if |d| > policy.maximumBytes then Some(TooLarge)
    else if !CleanText(d) then Some(InvalidUtf8)
    else if Lines(d) > policy.maximumLines then Some(TooManyLines)
    else
      var s := Scan(d, 0, {}, KeySet(allowed));
      if s.Err? then Some(s.code) else None
  }

  /** The value the upstream parser reads from a managed statement. */
  function ReadBack(upstream: Upstream, d: Bytes, key: Bytes, p: Place): Option<Bytes>
    requires p.statementStart <= p.statementEnd <= |d|
  {
    var parsed := upstream(d[p.statementStart..p.statementEnd]);
    if parsed.Some? && key in parsed.value then Some(parsed.value[key]) else None
  }

  ghost predicate PlacesWithin(d: Bytes, entries: map<Bytes, Place>) {
    forall k :: k in entries ==> entries[k].statementStart <= entries[k].statementEnd <= |d|
  }

  /** The upstream parser understands every managed statement, and no value is too long. */
  ghost predicate Understood(upstream: Upstream, d: Bytes, entries: map<Bytes, Place>, policy: Policy)
    requires PlacesWithin(d, entries)
  {
    forall k :: k in entries ==>
      var v := ReadBack(upstream, d, k, entries[k]); v.Some? && |v.value| <= policy.maximumValueBytes
  }

  /** The managed entries of a text that can be scanned. */
  function Managed(d: Bytes, allowed: set<Bytes>): (e: map<Bytes, Place>)
    requires Scan(d, 0, {}, allowed).Ok?
  {
    EntriesOf(Scan(d, 0, {}, allowed).value, allowed)
  }

  lemma {:induction false} EntriesWithin(d: Bytes, s: seq<Statement>, allowed: set<Bytes>)
    requires AllWithin(d, s)
    ensures PlacesWithin(d, EntriesOf(s, allowed))
  {
    if s != [] {
      EntriesWithin(d, s[..|s| - 1], allowed);
    }
  }

  lemma ManagedWithin(d: Bytes, allowed: set<Bytes>)
    requires Scan(d, 0, {}, allowed).Ok?
    ensures PlacesWithin(d, Managed(d, allowed))
  {
    hide Scan, EntriesOf;
    assert d[0..] == d;
    ScanWithin(d, 0, {}, allowed);
    EntriesWithin(d, Scan(d, 0, {}, allowed).value, allowed);
  }

  /** The text becomes a document. */
  ghost predicate Parses(upstream: Upstream, d: Bytes, allowed: seq<Bytes>, policy: Policy) {
    && EarlyFault(d, allowed, policy).None?
    && PlacesWithin(d, Managed(d, KeySet(allowed)))
    && Understood(upstream, d, Managed(d, KeySet(allowed)), policy)
  }

  /** The verdict on a text that does not parse. */
  ghost predicate Faulty(upstream: Upstream, d: Bytes, allowed: seq<Bytes>, policy: Policy, code: Code) {
    && !Parses(upstream, d, allowed, policy)
    && var early := EarlyFault(d, allowed, policy);
       if early.Some? then code == early.value else code == MalformedText || code == ValueTooLarge
  }
}
