/** Documents: parsing a dotenv file and applying changes to it. */
module DotenvDocument {
  import opened ByteStrings
  import opened DotenvSyntax
  import opened DotenvEdit
  import opened DotenvApply
  import opened DotenvOrder
  import opened DotenvScanner
  import opened DotenvEncoding
  import opened KeyOrder
  import opened DotenvPolicy
  import opened DotenvChange

  // ---------- the edit list ----------

  lemma InsertSorted(e: Edit, s: seq<Edit>, j: nat)
    requires SortedByStart(s) && j <= |s| && (forall k :: 0 <= k < j ==> s[k].start < e.start)
    requires j < |s| ==> e.start <= s[j].start
    ensures SortedByStart(s[..j] + [e] + s[j..])
  {
    var r := s[..j] + [e] + s[j..];
    assert forall k :: 0 <= k < |r| ==> r[k] == if k < j then s[k] else if k == j then e else s[k - 1];
  }

  method InsertByStart(e: Edit, s: seq<Edit>) returns (r: seq<Edit>)
    requires SortedByStart(s)
    ensures multiset(r) == multiset(s) + multiset{e} && SortedByStart(r)
  {
    hide SortedByStart;
    var j := 0;
    while j < |s| && s[j].start < e.start
      invariant 0 <= j <= |s|
      invariant forall k :: 0 <= k < j ==> s[k].start < e.start
    {
      j := j + 1;
    }
    InsertSorted(e, s, j);
    assert s == s[..j] + s[j..];
    return s[..j] + [e] + s[j..];
  }

  /** Sorting by start. Nothing is promised about the order of edits that start at one place. */
  method SortByStart(edits: seq<Edit>) returns (sorted: seq<Edit>)
    ensures multiset(sorted) == multiset(edits) && SortedByStart(sorted)
  {
    sorted := [];
    for i := 0 to |edits|
      invariant multiset(sorted) == multiset(edits[..i]) && SortedByStart(sorted)
    {
      assert edits[..i + 1] == edits[..i] + [edits[i]];
      sorted := InsertByStart(edits[i], sorted);
    }
    assert edits[..|edits|] == edits;
  }

  function Prepend<T>(first: seq<T>, rest: Option<seq<T>>): Option<seq<T>> {
    if rest.None? then None else Some(first + rest.value)
  }

  method MergeAdjacent(edits: seq<Edit>) returns (r: Option<seq<Edit>>)
    ensures r == MergeEdits(edits)
  {
    hide MergeEdits;
    var merged: seq<Edit> := [];
    assert edits[0..] == edits;
    for i := 0 to |edits|
      invariant merged == [] <==> i == 0
      invariant MergeEdits(edits)
             == if merged == [] then MergeEdits(edits[i..])
                else Prepend(merged[..|merged| - 1], MergeEdits([merged[|merged| - 1]] + edits[i..]))
    {
      var current := edits[i];
      assert edits[i..] == [current] + edits[i + 1..];
      if merged != [] {
        var previous := merged[|merged| - 1];
        var init := merged[..|merged| - 1];
        MergeTwo(previous, current, edits[i + 1..]);
        if current.start < previous.end {
          if previous.replacement != [] || current.replacement != [] {
            return None;
          }
          merged := init + [Edit(previous.start, Max(previous.end, current.end), [])];
          continue;
        }
        PrependTwice(init, previous, MergeEdits([current] + edits[i + 1..]));
        assert merged == init + [previous];
      } else {
        PrependNothing(MergeEdits([current] + edits[i + 1..]));
      }
      merged := merged + [current];
    }
    MergeFew(edits[|edits|..]);
    if merged != [] {
      MergeFew([merged[|merged| - 1]]);
      assert merged[..|merged| - 1] + [merged[|merged| - 1]] == merged;
      assert [merged[|merged| - 1]] + edits[|edits|..] == [merged[|merged| - 1]];
    }
    return Some(merged);
  }

  lemma MergeFew(edits: seq<Edit>)
    requires |edits| <= 1
    ensures MergeEdits(edits) == Some(edits)
  {
  }

  lemma MergeTwo(a: Edit, b: Edit, rest: seq<Edit>)
    ensures MergeEdits([a] + ([b] + rest))
         == if b.start < a.end then
              if a.replacement != [] || b.replacement != [] then None
              else MergeEdits([Edit(a.start, Max(a.end, b.end), [])] + rest)
            else Prepend([a], MergeEdits([b] + rest))
  {
    var edits := [a] + ([b] + rest);
    assert edits[1..] == [b] + rest && edits[2..] == rest;
  }

  lemma PrependNothing<T>(rest: Option<seq<T>>)
    ensures Prepend([], rest) == rest
  {
    if rest.Some? {
      assert [] + rest.value == rest.value;
    }
  }

  lemma PrependTwice<T>(first: seq<T>, x: T, rest: Option<seq<T>>)
    ensures Prepend(first, Prepend([x], rest)) == Prepend(first + [x], rest)
  {
    if rest.Some? {
      assert first + ([x] + rest.value) == first + [x] + rest.value;
    }
  }

  method SpliceAll(raw: Bytes, edits: seq<Edit>) returns (r: Option<Bytes>)
    ensures r == Splice(raw, 0, edits)
  {
    var candidate: Bytes, last: nat := [], 0;
    PrependNothing(Splice(raw, 0, edits));
    assert edits[0..] == edits;
    for i := 0 to |edits|
      invariant last <= |raw|
      invariant Splice(raw, 0, edits) == Prepend(candidate, Splice(raw, last, edits[i..]))
    {
      var current := edits[i];
      assert edits[i..][1..] == edits[i + 1..];
      if current.start < last || current.end < current.start || current.end > |raw| {
        return None;
      }
      var piece := raw[last..current.start] + current.replacement;
      SpliceStep(raw, last, edits[i..], candidate, piece);
      candidate := candidate + piece;
      last := current.end;
    }
    assert edits[|edits|..] == [];
    return Some(candidate + raw[last..]);
  }

  lemma SpliceStep(raw: Bytes, last: nat, edits: seq<Edit>, candidate: Bytes, piece: Bytes)
    requires last <= |raw| && edits != [] && last <= edits[0].start <= edits[0].end <= |raw|
    requires piece == raw[last..edits[0].start] + edits[0].replacement
    ensures Prepend(candidate, Splice(raw, last, edits))
         == Prepend(candidate + piece, Splice(raw, edits[0].end, edits[1..]))
  {
    var rest := Splice(raw, edits[0].end, edits[1..]);
    if rest.Some? {
      assert candidate + (piece + rest.value) == candidate + piece + rest.value;
    }
  }

  method AppendNew(body: Bytes, keys: seq<Bytes>, values: map<Bytes, Bytes>, newline: Bytes, final: bool)
    returns (candidate: Bytes)
    requires forall k :: k in keys ==> k in values
    ensures candidate == Candidate(body, keys, values, newline, final)
  {
    candidate := body;
    if |keys| == 0 {
      return;
    }
    if |candidate| > 0 && !FinalBreak(candidate) {
      candidate := candidate + newline;
    }
    ghost var first := candidate;
    for index := 0 to |keys|
      invariant candidate + NewText(keys[index..], values, newline, final) == first + NewText(keys, values, newline, final)
    {
      ghost var before := candidate;
      var key := keys[index];
      assert keys[index..][1..] == keys[index + 1..];
      var line := key + [EQUALS] + values[key];
      if index + 1 < |keys| || final {
        line := line + newline;
      } else {
        assert line + [] == line;
      }
      candidate := candidate + line;
      ghost var rest := NewText(keys[index + 1..], values, newline, final);
      assert before + (line + rest) == before + line + rest;
    }
    assert keys[|keys|..] == [];
    assert candidate + [] == candidate;
  }

  lemma {:induction false} EditsForSame(raw: Bytes, s: seq<Statement>, ops: map<Bytes, Op>, key: Bytes, op: Op)
    requires AllWithin(raw, s) && forall i :: 0 <= i < |s| ==> s[i].key != key
    ensures EditsFor(raw, s, ops[key := op]) == EditsFor(raw, s, ops)
  {
    hide EditOf;
    if s != [] {
      EditsForSame(raw, s[1..], ops, key, op);
    }
  }

  /** One more operation, on a key that had none. */
  lemma {:induction false} EditsForMore(raw: Bytes, s: seq<Statement>, ops: map<Bytes, Op>, key: Bytes, op: Op, i: nat)
    requires AllWithin(raw, s) && AllDistinct(s) && key !in ops && i < |s| && s[i].key == key
    ensures multiset(EditsFor(raw, s, ops[key := op]))
         == multiset(EditsFor(raw, s, ops)) + multiset{EditOf(raw, s[i], op)}
  {
    hide EditOf;
    if i == 0 {
      EditsForSame(raw, s[1..], ops, key, op);
    } else {
      EditsForMore(raw, s[1..], ops, key, op, i - 1);
    }
  }

  // ---------- summaries ----------

  datatype Summary = Summary(key: Bytes, action: Action)

  /** One summary for each change that does something, in the order of the changes. */
  function SummariesOf(changes: seq<Change>, entries: map<Bytes, Place>): seq<Summary> {
    if changes == [] then []
    else
      var c := changes[|changes| - 1];
      var before := SummariesOf(changes[..|changes| - 1], entries);
      if c.action.ReplaceValue? || c.key in entries then before + [Summary(c.key, c.action)] else before
  }

  /** The summary tells every replacement, and a removal exactly when there was something to remove. */
  lemma {:induction false} SummariesTell(changes: seq<Change>, entries: map<Bytes, Place>, x: Summary)
    ensures x in SummariesOf(changes, entries) <==>
              && (exists i :: 0 <= i < |changes| && changes[i].key == x.key && changes[i].action == x.action)
              && (x.action.ReplaceValue? || x.key in entries)
  {
    if changes != [] {
      var n := |changes| - 1;
      SummariesTell(changes[..n], entries, x);
      assert forall i :: 0 <= i < n ==> changes[..n][i] == changes[i];
    }
  }

  predicate ByKey(s: seq<Summary>) {
    forall i, j :: 0 <= i < j < |s| ==> !Less(s[j].key, s[i].key)
  }

  method InsertByKey(x: Summary, s: seq<Summary>) returns (r: seq<Summary>)
    requires ByKey(s)
    ensures multiset(r) == multiset(s) + multiset{x} && ByKey(r)
  {
    hide Less, ByKey;
    var j := 0;
    while j < |s| && Less(s[j].key, x.key)
      invariant 0 <= j <= |s|
      invariant forall k :: 0 <= k < j ==> Less(s[k].key, x.key)
    {
      j := j + 1;
    }
    assert s == s[..j] + s[j..];
    InsertByKeySorted(x, s, j);
    return s[..j] + [x] + s[j..];
  }

  lemma InsertByKeySorted(x: Summary, s: seq<Summary>, j: nat)
    requires ByKey(s) && j <= |s| && (forall k :: 0 <= k < j ==> Less(s[k].key, x.key))
    requires j < |s| ==> !Less(s[j].key, x.key)
    ensures ByKey(s[..j] + [x] + s[j..])
  {
    hide Less;
    var r := s[..j] + [x] + s[j..];
    forall k | 0 <= k < |s| ensures k < j ==> !Less(x.key, s[k].key)
      ensures k >= j ==> !Less(s[k].key, x.key)
    {
      LessTotal(x.key, s[k].key);
      if k > j {
        NotLessChain(s[j].key, s[k].key, x.key);
      }
    }
    assert forall k :: 0 <= k < |r| ==> r[k] == if k < j then s[k] else if k == j then x else s[k - 1];
  }

  method SortSummaries(s: seq<Summary>) returns (sorted: seq<Summary>)
    ensures multiset(sorted) == multiset(s) && ByKey(sorted)
  {
    sorted := [];
    for i := 0 to |s|
      invariant multiset(sorted) == multiset(s[..i]) && ByKey(sorted)
    {
      assert s[..i + 1] == s[..i] + [s[i]];
      sorted := InsertByKey(s[i], sorted);
    }
    assert s[..|s|] == s;
  }

  /** The keys of a set in no particular order, as ranging over a map yields them. */
  method ListKeys(keys: set<Bytes>) returns (listed: seq<Bytes>)
    ensures multiset(listed) == multiset(keys)
  {
    listed := [];
    var rest := keys;
    while rest != {}
      invariant rest <= keys && multiset(listed) + multiset(rest) == multiset(keys)
      decreases |rest|
    {
      var key :| key in rest;
      listed := listed + [key];
      assert multiset(rest) == multiset(rest - {key}) + multiset{key};
      rest := rest - {key};
    }
  }

  method ArrangeKeys(keys: set<Bytes>) returns (arranged: seq<Bytes>)
    ensures arranged == Arrange(keys)
  {
    var listed := ListKeys(keys);
    SortArranges(listed, keys);
    return SortKeys(listed);
  }

  // ---------- documents ----------

  /** Sorting the allowed keys changes no verdict. */
  lemma SortedFault(d: Bytes, keys: seq<Bytes>, policy: Policy)
    ensures EarlyFault(d, SortKeys(keys), policy) == EarlyFault(d, keys, policy)
    ensures KeySet(SortKeys(keys)) == KeySet(keys)
  {
    hide ValidPolicy, CleanText, Lines, Scan, ValidKey, SortKeys;
    var sorted := SortKeys(keys);
    forall k ensures k in keys <==> k in sorted {
      assert k in keys <==> k in multiset(keys);
      assert k in sorted <==> k in multiset(sorted);
    }
    assert KeySet(sorted) == KeySet(keys);
    if AllDiffer(keys) {
      DifferPermuted(keys, sorted);
    } else if AllDiffer(sorted) {
      DifferPermuted(sorted, keys);
    }
  }

  /** Whether each of the values agrees with what the upstream parser reads. */
  ghost predicate Decoded(upstream: Upstream, d: Bytes, entries: map<Bytes, Place>, values: map<Bytes, Bytes>,
                          policy: Policy)
    requires PlacesWithin(d, entries)
  {
    forall k :: k in values ==>
      k in entries && ReadBack(upstream, d, k, entries[k]) == Some(values[k]) && |values[k]| <= policy.maximumValueBytes
  }

  /** Reads every managed value with the upstream parser, in no particular order. */
  method ReadValues(upstream: Upstream, data: Bytes, entries: map<Bytes, Place>, policy: Policy)
    returns (r: Result<map<Bytes, Bytes>>)
    requires PlacesWithin(data, entries)
    ensures r.Ok? <==> Understood(upstream, data, entries, policy)
    ensures r.Ok? ==> r.value.Keys == entries.Keys && Decoded(upstream, data, entries, r.value, policy)
    ensures r.Err? ==> r.code == MalformedText || r.code == ValueTooLarge
  {
    var values: map<Bytes, Bytes> := map[];
    var rest := entries.Keys;
    while rest != {}
      invariant rest <= entries.Keys && values.Keys == entries.Keys - rest
      invariant Decoded(upstream, data, entries, values, policy)
      decreases |rest|
    {
      var key :| key in rest;
      var value := ReadBack(upstream, data, key, entries[key]);
      if value.None? {
        return Err(MalformedText);
      }
      if |value.value| > policy.maximumValueBytes {
        return Err(ValueTooLarge);
      }
      values := values[key := value.value];
      rest := rest - {key};
    }
    assert forall k :: k in entries ==> k in values;
    return Ok(values);
  }

  lemma NothingAsked(upstream: Upstream, d: Bytes, s: seq<Statement>, entries: map<Bytes, Place>, allowed: set<Bytes>,
                     policy: Policy)
    requires AllWithin(d, s)
    ensures ChangeFault(upstream, [], allowed, policy).None? && OpsOf(upstream, []) == map[]
    ensures EditsFor(d, s, map[]) == [] && NewValues(entries, map[]) == map[] && SummariesOf([], entries) == []
  {
    if s != [] {
      NothingAsked(upstream, d, s[1..], entries, allowed, policy);
    }
  }

  /** What one more change adds. */
  lemma ChangeStep(upstream: Upstream, changes: seq<Change>, i: nat, entries: map<Bytes, Place>, allowed: set<Bytes>,
                   policy: Policy)
    requires i < |changes| && ChangeFault(upstream, changes[..i], allowed, policy).None?
    ensures var c, more := changes[i], changes[..i + 1];
            && ChangeFault(upstream, more, allowed, policy)
            == (if c.key !in allowed then Some(KeyNotAllowed)
                else if Named(changes[..i], c.key) then Some(InvalidChange)
                else EncodingFault(upstream, c, policy))
            && OpsOf(upstream, more) == OpsOf(upstream, changes[..i])[c.key := OpOf(upstream, c)]
            && SummariesOf(more, entries)
            == SummariesOf(changes[..i], entries)
               + (if c.action.ReplaceValue? || c.key in entries then [Summary(c.key, c.action)] else [])
    ensures ChangeFault(upstream, changes[..i + 1], allowed, policy).Some? ==>
              ChangeFault(upstream, changes, allowed, policy) == ChangeFault(upstream, changes[..i + 1], allowed, policy)
  {
    hide OpOf, EncodingFault, Named;
    var more := changes[..i + 1];
    assert more[..i] == changes[..i];
    if ChangeFault(upstream, more, allowed, policy).Some? {
      FaultStays(upstream, changes, allowed, policy, i + 1);
    }
  }

  /** The edit of a managed entry. */
  function PlaceEdit(raw: Bytes, p: Place, op: Op): Edit
    requires p.statementStart <= |raw|
  {
    match op
    case Replace(encoded) => Edit(p.valueStart, p.valueEnd, encoded)
    case Remove =>
      Edit(if p.statementEnd == |raw| && !FinalBreak(raw) then PrecedingSeparator(raw, p.statementStart)
           else p.statementStart, p.statementEnd, [])
  }

  /** What one more operation adds to the edits and to the new values. */
  lemma AskedStep(raw: Bytes, s: seq<Statement>, allowed: set<Bytes>, ops: map<Bytes, Op>, key: Bytes, op: Op,
                  entries: map<Bytes, Place>)
    requires AllWithin(raw, s) && AllDistinct(s) && key !in ops && key in allowed && entries == EntriesOf(s, allowed)
    requires PlacesWithin(raw, entries)
    ensures multiset(EditsFor(raw, s, ops[key := op]))
         == multiset(EditsFor(raw, s, ops)) + (if key in entries then multiset{PlaceEdit(raw, entries[key], op)} else multiset{})
    ensures NewValues(entries, ops[key := op])
         == if key !in entries && op.Replace? then NewValues(entries, ops)[key := op.encoded] else NewValues(entries, ops)
  {
    hide EditsFor, PrecedingSeparator, EntriesOf, AllDistinct;
    if key in entries {
      var i := EntriesFrom(s, allowed, key);
      assert AllDistinct(s);
      EntryPlace(s, allowed, i);
      EditsForMore(raw, s, ops, key, op, i);
      assert EditOf(raw, s[i], op) == PlaceEdit(raw, entries[key], op);
    } else {
      forall i | 0 <= i < |s| ensures s[i].key != key {
        EntryPlace(s, allowed, i);
      }
      EditsForSame(raw, s, ops, key, op);
    }
  }

  lemma EntryPlace(s: seq<Statement>, allowed: set<Bytes>, i: nat)
    requires AllDistinct(s) && i < |s|
    ensures s[i].key in allowed ==>
              s[i].key in EntriesOf(s, allowed) && EntriesOf(s, allowed)[s[i].key] == PlaceOf(s[i])
  {
    EntriesHold(s, allowed, i);
  }

  lemma ScanDistinct(d: Bytes, allowed: set<Bytes>)
    requires Scan(d, 0, {}, allowed).Ok?
    ensures AllDistinct(Scan(d, 0, {}, allowed).value)
  {
    hide Scan;
    ScanItems(d, 0, {}, allowed);
  }

  /** What Apply may answer. */
  ghost predicate Applied(upstream: Upstream, raw: Bytes, allowed: seq<Bytes>, policy: Policy, changes: seq<Change>,
                          r: Result<(Bytes, seq<Summary>)>)
    requires Scan(raw, 0, {}, KeySet(allowed)).Ok?
    requires AllWithin(raw, Scan(raw, 0, {}, KeySet(allowed)).value)
  {
    var managed := KeySet(allowed);
    var s, fault, ops := Scan(raw, 0, {}, managed).value, ChangeFault(upstream, changes, managed, policy), OpsOf(upstream, changes);
    if fault.Some? then r == Err(fault.value)
    else
      var result := Edited(raw, managed, ops);
      if r.Ok? then
        && r.value.0 == result && Parses(upstream, result, allowed, policy)
        && ByKey(r.value.1) && multiset(r.value.1) == multiset(SummariesOf(changes, EntriesOf(s, managed)))
      else
        || Faulty(upstream, result, allowed, policy, r.code)
        || (!TieFree(EditsFor(raw, s, ops)) && r.code == InvalidChange)
  }

  lemma TooLargeIsFaulty(upstream: Upstream, d: Bytes, allowed: seq<Bytes>, policy: Policy)
    requires ValidPolicy(policy) && ValidAllowed(allowed) && |d| > policy.maximumBytes
    ensures Faulty(upstream, d, allowed, policy, TooLarge)
  {
    hide ValidPolicy, CleanText, Lines, Scan, ValidAllowed;
  }

  lemma EditedIs(raw: Bytes, allowed: set<Bytes>, ops: map<Bytes, Op>, body: Bytes, values: map<Bytes, Bytes>)
    requires Scan(raw, 0, {}, allowed).Ok? && AllWithin(raw, Scan(raw, 0, {}, allowed).value)
    requires body == Cover(raw, 0, EditsFor(raw, Scan(raw, 0, {}, allowed).value, ops))
    requires values == NewValues(Managed(raw, allowed), ops) && forall k :: k in Arrange(values.Keys) ==> k in values
    ensures Edited(raw, allowed, ops)
         == Candidate(body, Arrange(values.Keys), values, DetectNewline(raw), FinalBreak(raw))
  {
  }

  lemma DocumentScans(document: Document, d: Bytes)
    requires document.raw == Some(d) && document.Valid()
    ensures var managed := KeySet(document.allowed);
            && Scan(d, 0, {}, managed).Ok? && AllWithin(d, Scan(d, 0, {}, managed).value)
            && document.entries == Managed(d, managed)
            && document.newline == DetectNewline(d) && document.finalNewline == FinalBreak(d)
            && ValidPolicy(document.policy) && ValidAllowed(document.allowed)
  {
    hide Scan, EntriesOf, CleanText, Lines, ValidPolicy, ValidAllowed;
    assert d[0..] == d;
    ScanWithin(d, 0, {}, KeySet(document.allowed));
  }

  class Document {
    const upstream: Upstream
    const policy: Policy
    const allowed: seq<Bytes>
    var raw: Option<Bytes>
    var entries: map<Bytes, Place>
    var values: map<Bytes, Bytes>
    var unsupported: seq<Bytes>
    var newline: Bytes
    var finalNewline: bool

    /** What the fields say about the text d. */
    ghost predicate Describes(d: Bytes)
      reads this
    {
      && EarlyFault(d, allowed, policy).None?
      && entries == Managed(d, KeySet(allowed)) && PlacesWithin(d, entries)
      && values.Keys == entries.Keys && Decoded(upstream, d, entries, values, policy)
      && unsupported == Arrange(UnsupportedOf(Scan(d, 0, {}, KeySet(allowed)).value, KeySet(allowed)))
      && newline == DetectNewline(d) && finalNewline == FinalBreak(d)
    }

    ghost predicate Valid()
      reads this
    {
      raw.Some? ==> Describes(raw.value)
    }

    constructor (upstream: Upstream, data: Bytes, allowed: seq<Bytes>, policy: Policy, entries: map<Bytes, Place>,
                 values: map<Bytes, Bytes>, unsupported: seq<Bytes>)
      ensures this.upstream == upstream && this.policy == policy && this.allowed == allowed
      ensures raw == Some(data) && this.entries == entries && this.values == values && this.unsupported == unsupported
      ensures newline == DetectNewline(data) && finalNewline == FinalBreak(data)
    {
      this.upstream, this.policy, this.allowed := upstream, policy, allowed;
      this.raw, this.entries, this.values, this.unsupported := Some(data), entries, values, unsupported;
      this.newline, this.finalNewline := DetectNewline(data), FinalBreak(data);
    }

    static method Parse(upstream: Upstream, data: Bytes, allowedKeys: seq<Bytes>, policy: Policy)
      returns (r: Result<Document>)
      ensures r.Ok? <==> Parses(upstream, data, allowedKeys, policy)
      ensures r.Err? ==> Faulty(upstream, data, allowedKeys, policy, r.code)
      ensures r.Ok? ==> fresh(r.value) && r.value.Valid() && r.value.raw == Some(data)
      ensures r.Ok? ==> r.value.upstream == upstream && r.value.policy == policy
      ensures r.Ok? ==> r.value.allowed == SortKeys(allowedKeys)
    {
      hide Scan, EntriesOf, UnsupportedOf, CleanText, Lines, Understood, Decoded, PlacesWithin, ReadBack, ValidPolicy;
      if !ValidPolicy(policy) {
        return Err(InvalidPolicy);
      }
      var keys := ValidateAllowedKeys(allowedKeys);
      if keys.None? {
        return Err(InvalidPolicy);
      }
      var allowed := keys.value;
      SortedFault(data, allowedKeys, policy);
      hide ValidAllowed, SortKeys, Arrange;
      if |data| > policy.maximumBytes {
        return Err(TooLarge);
      }
      if !CleanText(data) {
        return Err(InvalidUtf8);
      }
      var lines := LineCount(data);
      if lines > policy.maximumLines {
        return Err(TooManyLines);
      }
      var scanned := ScanEntries(data, allowed);
      assert KeySet(allowed) == set k | k in allowed;
      if scanned.Err? {
        return Err(scanned.code);
      }
      var entries := scanned.value.0;
      ManagedWithin(data, KeySet(allowed));
      var values := ReadValues(upstream, data, entries, policy);
      if values.Err? {
        return Err(values.code);
      }
      var unsupported := ArrangeKeys(scanned.value.1);
      var document := new Document(upstream, data, allowed, policy, entries, values.value, unsupported);
      return Ok(document);
    }

    /** What one more change asks: an edit where its key is present, a new value where it is not. */
    method Ask(d: Bytes, c: Change, edits: seq<Edit>, newValues: map<Bytes, Bytes>, ghost ops: map<Bytes, Op>)
      returns (r: Result<(seq<Edit>, map<Bytes, Bytes>)>)
      requires raw == Some(d) && Valid() && AllWithin(d, Scan(d, 0, {}, KeySet(allowed)).value)
      requires c.key in KeySet(allowed) && c.key !in ops && newValues == NewValues(entries, ops)
      requires multiset(edits) == multiset(EditsFor(d, Scan(d, 0, {}, KeySet(allowed)).value, ops))
      ensures var fault, more := EncodingFault(upstream, c, policy), ops[c.key := OpOf(upstream, c)];
              if fault.Some? then r == Err(fault.value)
              else
                && r.Ok?
                && multiset(r.value.0) == multiset(EditsFor(d, Scan(d, 0, {}, KeySet(allowed)).value, more))
                && r.value.1 == NewValues(entries, more)
    {
      hide Scan, EntriesOf, UnsupportedOf, CleanText, Lines, Decoded, AllWithin, EditsFor, Encoding, AllDistinct, Arrange;
      hide NewValues;
      ScanDistinct(d, KeySet(allowed));
      AskedStep(d, Scan(d, 0, {}, KeySet(allowed)).value, KeySet(allowed), ops, c.key, OpOf(upstream, c), entries);
      match c.action {
        case ReplaceValue =>
          if |c.value| > policy.maximumValueBytes {
            return Err(ValueTooLarge);
          }
          if !CleanText(c.value) {
            return Err(InvalidChange);
          }
          var encoded := EncodeValue(upstream, c.value);
          if encoded.None? {
            return Err(InvalidChange);
          }
          if c.key in entries {
            var current := entries[c.key];
            return Ok((edits + [Edit(current.valueStart, current.valueEnd, encoded.value)], newValues));
          }
          return Ok((edits, newValues[c.key := encoded.value]));
        case RemoveKey =>
          if c.key in entries {
            var current := entries[c.key];
            var start := current.statementStart;
            if current.statementEnd == |d| && !finalNewline {
              start := PrecedingSeparator(d, start);
            }
            return Ok((edits + [Edit(start, current.statementEnd, [])], newValues));
          }
          return Ok((edits, newValues));
        case UnknownAction =>
          return Err(InvalidChange);
      }
    }

    /** Whether and what the changes ask, checked one after the other. */
    method Prepare(d: Bytes, changes: seq<Change>)
      returns (r: Result<(seq<Edit>, map<Bytes, Bytes>, seq<Summary>)>)
      requires raw == Some(d) && Valid() && AllWithin(d, Scan(d, 0, {}, KeySet(allowed)).value)
      ensures var fault := ChangeFault(upstream, changes, KeySet(allowed), policy);
              if fault.Some? then r == Err(fault.value)
              else
                && r.Ok?
                && var ops := OpsOf(upstream, changes);
                   && multiset(r.value.0) == multiset(EditsFor(d, Scan(d, 0, {}, KeySet(allowed)).value, ops))
                   && r.value.1 == NewValues(entries, ops)
                   && r.value.2 == SummariesOf(changes, entries)
    {
      hide Scan, EntriesOf, UnsupportedOf, Describes, AllWithin, EditsFor;
      DocumentScans(this, d);
      hide ChangeFault, OpsOf, SummariesOf, Arrange, Named, NewValues, EncodingFault, OpOf, EarlyFault;
      ghost var s := Scan(d, 0, {}, KeySet(allowed)).value;
      ghost var ops: map<Bytes, Op> := map[];
      var seen: set<Bytes>, edits: seq<Edit>, newValues: map<Bytes, Bytes>, summaries: seq<Summary> := {}, [], map[], [];
      NothingAsked(upstream, d, s, entries, KeySet(allowed), policy);
      assert changes[..0] == [];
      for i := 0 to |changes|
        invariant ChangeFault(upstream, changes[..i], KeySet(allowed), policy).None?
        invariant ops == OpsOf(upstream, changes[..i])
        invariant forall k :: k in seen <==> k in ops
        invariant multiset(edits) == multiset(EditsFor(d, s, ops))
        invariant newValues == NewValues(entries, ops)
        invariant summaries == SummariesOf(changes[..i], entries)
      {
        var c := changes[i];
        ghost var op := OpOf(upstream, c);
        ChangeStep(upstream, changes, i, entries, KeySet(allowed), policy);
        if c.key !in allowed {
          return Err(KeyNotAllowed);
        }
        OpsNamed(upstream, changes[..i], c.key);
        if c.key in seen {
          return Err(InvalidChange);
        }
        seen := seen + {c.key};
        var asked := Ask(d, c, edits, newValues, ops);
        if asked.Err? {
          return Err(asked.code);
        }
        edits, newValues := asked.value.0, asked.value.1;
        if c.action.ReplaceValue? || c.key in entries {
          summaries := summaries + [Summary(c.key, c.action)];
        }
        ops := ops[c.key := op];
      }
      assert changes[..|changes|] == changes;
      return Ok((edits, newValues, summaries));
    }

    /**
     The candidate file. Which of two edits that start at one place comes first is left open by the sort, and
     the wrong order is refused; nothing else is left open.
     */
    method Apply(changes: seq<Change>) returns (r: Result<(Bytes, seq<Summary>)>)
      requires Valid()
      ensures raw.None? ==> r == Err(InvalidChange)
      ensures raw.Some? ==>
                && Scan(raw.value, 0, {}, KeySet(allowed)).Ok?
                && AllWithin(raw.value, Scan(raw.value, 0, {}, KeySet(allowed)).value)
                && Applied(upstream, raw.value, allowed, policy, changes, r)
    {
      if raw.None? {
        return Err(InvalidChange);
      }
      hide Scan, EntriesOf, Parses, Cover, EditsFor, MergeEdits, Splice, Arrange, NewValues, Candidate, SummariesOf;
      hide ChangeFault, OpsOf, Describes, TieFree, Understood, AllWithin, EarlyFault, Faulty, ValidPolicy, ValidAllowed;
      var d := raw.value;
      DocumentScans(this, d);
      var prepared := Prepare(d, changes);
      if prepared.Err? {
        return Err(prepared.code);
      }
      ghost var s, ops := Scan(d, 0, {}, KeySet(allowed)).value, OpsOf(upstream, changes);
      var edits, newValues := prepared.value.0, prepared.value.1;
      var sorted := SortByStart(edits);
      OpsClosed(upstream, changes);
      MergeIffFileOrder(d, KeySet(allowed), ops, sorted);
      var merged := MergeAdjacent(sorted);
      if merged.None? {
        return Err(InvalidChange);
      }
      var body := SpliceAll(d, merged.value);
      if body.None? {
        return Err(InvalidChange);
      }
      ArrangeHas(newValues.Keys);
      var newKeys := ArrangeKeys(newValues.Keys);
      var result := AppendNew(body.value, newKeys, newValues, newline, finalNewline);
      EditedIs(d, KeySet(allowed), ops, body.value, newValues);
      r := Confirm(result, prepared.value.2);
    }

    /** The candidate is given only when it becomes a document itself. */
    method Confirm(result: Bytes, told: seq<Summary>) returns (r: Result<(Bytes, seq<Summary>)>)
      requires ValidPolicy(policy) && ValidAllowed(allowed)
      ensures r.Ok? ==>
                && r.value.0 == result && Parses(upstream, result, allowed, policy)
                && ByKey(r.value.1) && multiset(r.value.1) == multiset(told)
      ensures r.Err? ==> Faulty(upstream, result, allowed, policy, r.code)
    {
      hide Scan, Parses, Understood, EarlyFault, Faulty, ValidPolicy, ValidAllowed, Describes;
      if |result| > policy.maximumBytes {
        TooLargeIsFaulty(upstream, result, allowed, policy);
        return Err(TooLarge);
      }
      var validated := Parse(upstream, result, allowed, policy);
      if validated.Err? {
        return Err(validated.code);
      }
      validated.value.Clear();
      var summaries := SortSummaries(told);
      return Ok((result, summaries));
    }

    /** Forgets the text and everything read from it. */
    method Clear()
      modifies this
      ensures raw.None? && values == map[] && entries == map[] && unsupported == [] && Valid()
    {
      raw := None;
      values, entries, unsupported := map[], map[], [];
    }
  }
}
