/** What a list of changes asks for, and what the file that results from it says. */
module DotenvChange {
  import opened ByteStrings
  import opened DotenvSyntax
  import opened DotenvLocality
  import opened DotenvEdit
  import opened DotenvSplice
  import opened DotenvApply
  import opened DotenvScanner
  import opened DotenvEncoding
  import opened KeyOrder
  import opened DotenvPolicy

  datatype Action = ReplaceValue | RemoveKey | UnknownAction

  datatype Change = Change(key: Bytes, action: Action, value: Bytes)

  // ---------- faults ----------

  function EncodingFault(upstream: Upstream, c: Change, policy: Policy): Option<Code> {
    match c.action
    case ReplaceValue =>
      if |c.value| > policy.maximumValueBytes then Some(ValueTooLarge)
      else if !CleanText(c.value) || Encoding(upstream, c.value).None? then Some(InvalidChange)
      else None
    case RemoveKey => None
    case UnknownAction => Some(InvalidChange)
  }

  /** The first change that is refused decides. */
  function ChangeFault(upstream: Upstream, changes: seq<Change>, allowed: set<Bytes>, policy: Policy): Option<Code> {
    if changes == [] then None
    else
      var init, c := changes[..|changes| - 1], changes[|changes| - 1];
      var before := ChangeFault(upstream, init, allowed, policy);
      if before.Some? then before
      else if c.key !in allowed then Some(KeyNotAllowed)
      else if Named(init, c.key) then Some(InvalidChange)
      else EncodingFault(upstream, c, policy)
  }

  lemma {:induction false} FaultStays(upstream: Upstream, changes: seq<Change>, allowed: set<Bytes>, policy: Policy,
                                      n: nat)
    requires n <= |changes| && ChangeFault(upstream, changes[..n], allowed, policy).Some?
    ensures ChangeFault(upstream, changes, allowed, policy) == ChangeFault(upstream, changes[..n], allowed, policy)
    decreases |changes|
  {
    if n < |changes| {
      assert changes[..|changes| - 1][..n] == changes[..n];
      FaultStays(upstream, changes[..|changes| - 1], allowed, policy, n);
    } else {
      assert changes[..n] == changes;
    }
  }

  // ---------- operations ----------

  function OpOf(upstream: Upstream, c: Change): Op {
    if c.action.ReplaceValue? && Encoding(upstream, c.value).Some? then Replace(Encoding(upstream, c.value).value)
    else Remove
  }

  function OpsOf(upstream: Upstream, changes: seq<Change>): map<Bytes, Op> {
    if changes == [] then map[]
    else
      var c := changes[|changes| - 1];
      OpsOf(upstream, changes[..|changes| - 1])[c.key := OpOf(upstream, c)]
  }

  predicate Named(changes: seq<Change>, key: Bytes) {
    exists i :: 0 <= i < |changes| && changes[i].key == key
  }

  lemma NamedStep(changes: seq<Change>, key: Bytes)
    requires changes != []
    ensures var n := |changes| - 1; Named(changes, key) <==> changes[n].key == key || Named(changes[..n], key)
  {
    var n := |changes| - 1;
    if Named(changes[..n], key) {
      var i :| 0 <= i < n && changes[..n][i].key == key;
      assert changes[i].key == key;
    }
    if Named(changes, key) && changes[n].key != key {
      var i :| 0 <= i < |changes| && changes[i].key == key;
      assert changes[..n][i].key == key;
    }
  }

  lemma {:induction false} OpsNamed(upstream: Upstream, changes: seq<Change>, key: Bytes)
    ensures key in OpsOf(upstream, changes) <==> Named(changes, key)
  {
    if changes != [] {
      hide Named, OpOf;
      NamedStep(changes, key);
      OpsNamed(upstream, changes[..|changes| - 1], key);
    }
  }

  lemma {:induction false} OpsClosed(upstream: Upstream, changes: seq<Change>)
    ensures AllClosed(OpsOf(upstream, changes))
  {
    if changes != [] {
      hide Closed, Encoding;
      var c := changes[|changes| - 1];
      OpsClosed(upstream, changes[..|changes| - 1]);
      if OpOf(upstream, c).Replace? {
        EncodingIsClosed(upstream, c.value);
      }
    }
  }

  lemma {:induction false} OpsAllowed(upstream: Upstream, changes: seq<Change>, allowed: set<Bytes>, policy: Policy)
    requires ChangeFault(upstream, changes, allowed, policy).None?
    ensures forall k :: k in OpsOf(upstream, changes) ==> k in allowed
  {
    if changes != [] {
      hide OpOf, EncodingFault;
      OpsAllowed(upstream, changes[..|changes| - 1], allowed, policy);
    }
  }

  /** The encoded values of replaced keys that the file does not have. */
  function NewValues(entries: map<Bytes, Place>, ops: map<Bytes, Op>): map<Bytes, Bytes> {
    map k | k in ops && k !in entries && ops[k].Replace? :: ops[k].encoded
  }

  /** The file that the operations ask for. */
  ghost function Edited(raw: Bytes, allowed: set<Bytes>, ops: map<Bytes, Op>): Bytes
    requires Scan(raw, 0, {}, allowed).Ok? && AllWithin(raw, Scan(raw, 0, {}, allowed).value)
  {
    var s := Scan(raw, 0, {}, allowed).value;
    var values := NewValues(EntriesOf(s, allowed), ops);
    ArrangeHas(values.Keys);
    Candidate(Cover(raw, 0, EditsFor(raw, s, ops)), Arrange(values.Keys), values, DetectNewline(raw), FinalBreak(raw))
  }

  // ---------- meaning ----------

  lemma {:induction false} ExpectedHas(s: seq<Statement>, ops: map<Bytes, Op>, item: Item)
    ensures item in Expected(s, ops) <==>
              exists i :: 0 <= i < |s| && s[i].key == item.key &&
                if s[i].key !in ops then item == ItemOf(s[i])
                else ops[s[i].key] == Replace(item.value) && !item.expansion
  {
    if s != [] {
      ExpectedHas(s[1..], ops, item);
      assert forall i :: 0 <= i < |s| ==> i == 0 || s[i] == s[1..][i - 1];
      if item in Expected(s[1..], ops) {
        var i :| 0 <= i < |s[1..]| && s[1..][i].key == item.key &&
                 if s[1..][i].key !in ops then item == ItemOf(s[1..][i])
                 else ops[s[1..][i].key] == Replace(item.value) && !item.expansion;
        assert s[i + 1] == s[1..][i];
      }
    }
  }

  lemma {:induction false} NewItemsHave(keys: seq<Bytes>, values: map<Bytes, Bytes>, item: Item)
    requires forall k :: k in keys ==> k in values
    ensures item in NewItems(keys, values) <==>
              item.key in keys && item.value == values[item.key] && !item.expansion
  {
    if keys != [] {
      NewItemsHave(keys[1..], values, item);
      assert item.key in keys <==> item.key == keys[0] || item.key in keys[1..];
    }
  }

  /** A statement of s has the key k. */
  predicate HasKey(s: seq<Statement>, k: Bytes) {
    exists i :: 0 <= i < |s| && s[i].key == k
  }

  /** The items of a file whose items are those expected and then the new ones, in any terms. */
  lemma ItemsMeaning(s: seq<Statement>, allowed: set<Bytes>, ops: map<Bytes, Op>, keys: seq<Bytes>,
                     values: map<Bytes, Bytes>, item: Item)
    requires AllDistinct(s) && (forall k :: k in ops ==> k in allowed)
    requires values == NewValues(EntriesOf(s, allowed), ops) && forall k :: k in keys <==> k in values
    ensures item in Expected(s, ops) + NewItems(keys, values) <==>
              if item.key !in ops then item in ItemsOf(s)
              else ops[item.key] == Replace(item.value) && !item.expansion
  {
    ExpectedHas(s, ops, item);
    NewItemsHave(keys, values, item);
    if item.key in ops {
      if item.key in EntriesOf(s, allowed) {
        var i := EntriesFrom(s, allowed, item.key);
      } else {
        forall i | 0 <= i < |s| ensures s[i].key != item.key {
          EntriesHold(s, allowed, i);
        }
      }
    }
  }

  ghost predicate AllDistinct(s: seq<Statement>) {
    forall i, j :: 0 <= i < j < |s| ==> s[i].key != s[j].key
  }

  /**
   Whenever the changes are accepted and the result can be scanned, its statements are exactly those asked
   for: a key that no change names keeps the bytes of its value, a replaced key has exactly the encoded
   bytes, a removed key is gone, and nothing else appears.
   */
  lemma EditedMeaning(upstream: Upstream, raw: Bytes, allowed: set<Bytes>, policy: Policy, changes: seq<Change>,
                      item: Item)
    requires Scan(raw, 0, {}, allowed).Ok? && AllWithin(raw, Scan(raw, 0, {}, allowed).value)
    requires ChangeFault(upstream, changes, allowed, policy).None? && forall k :: k in allowed ==> ValidKey(k)
    requires Scan(Edited(raw, allowed, OpsOf(upstream, changes)), 0, {}, allowed).Ok?
    ensures var ops := OpsOf(upstream, changes);
            var before, after := Scan(raw, 0, {}, allowed).value, Scan(Edited(raw, allowed, ops), 0, {}, allowed).value;
            item in ItemsOf(after) <==>
              if item.key !in ops then item in ItemsOf(before)
              else ops[item.key] == Replace(item.value) && !item.expansion
  {
    hide Scan, EditsFor, Cover, Closed, ChangeFault, OpsOf, Items, ValidKey, Expected, NewItems, Candidate, EntriesOf;
    var ops := OpsOf(upstream, changes);
    OpsClosed(upstream, changes);
    OpsAllowed(upstream, changes, allowed, policy);
    var s := Scan(raw, 0, {}, allowed).value;
    var values := NewValues(EntriesOf(s, allowed), ops);
    var keys := Arrange(values.Keys);
    ArrangeHas(values.Keys);
    EditedItems(raw, allowed, ops);
    ScanItems(Edited(raw, allowed, ops), 0, {}, allowed);
    ScanItems(raw, 0, {}, allowed);
    ItemsMeaning(s, allowed, ops, keys, values, item);
  }

  lemma EditedItems(raw: Bytes, allowed: set<Bytes>, ops: map<Bytes, Op>)
    requires Scan(raw, 0, {}, allowed).Ok? && AllWithin(raw, Scan(raw, 0, {}, allowed).value) && AllClosed(ops)
    requires forall k :: k in ops ==> ValidKey(k)
    ensures var s := Scan(raw, 0, {}, allowed).value;
            var values := NewValues(EntriesOf(s, allowed), ops);
            && (forall k :: k in Arrange(values.Keys) ==> k in values)
            && Items(Edited(raw, allowed, ops)) == Some(Expected(s, ops) + NewItems(Arrange(values.Keys), values))
  {
    hide Scan, EditsFor, Cover, Closed, Items, ValidKey, Expected, NewItems, Candidate, EntriesOf;
    var s := Scan(raw, 0, {}, allowed).value;
    var values := NewValues(EntriesOf(s, allowed), ops);
    ArrangeHas(values.Keys);
    assert raw[0..] == raw;
    EmptyIsBlank();
    NothingRead(raw);
    CoverItems(raw, 0, [], [], {}, allowed, ops);
    var body := Cover(raw, 0, EditsFor(raw, s, ops));
    assert [] + body == body && [] + Expected(s, ops) == Expected(s, ops);
    CandidateItems(body, Expected(s, ops), Arrange(values.Keys), values, DetectNewline(raw), FinalBreak(raw));
  }

  lemma NothingRead(raw: Bytes)
    ensures Progress(raw, 0, [], [])
  {
    EmptyIsBlank();
  }

  lemma HasKeyItem(s: seq<Statement>, key: Bytes)
    ensures HasKey(s, key) <==> exists item :: item in ItemsOf(s) && item.key == key
  {
    if HasKey(s, key) {
      var i :| 0 <= i < |s| && s[i].key == key;
      assert ItemsOf(s)[i] in ItemsOf(s);
    }
    if exists item :: item in ItemsOf(s) && item.key == key {
      var item :| item in ItemsOf(s) && item.key == key;
      var i :| 0 <= i < |s| && ItemsOf(s)[i] == item;
      assert s[i].key == key;
    }
  }

  /** The keys of the result: those there were and those replaced, without those removed. */
  lemma EditedKeys(upstream: Upstream, raw: Bytes, allowed: set<Bytes>, policy: Policy, changes: seq<Change>, key: Bytes)
    requires Scan(raw, 0, {}, allowed).Ok? && AllWithin(raw, Scan(raw, 0, {}, allowed).value)
    requires ChangeFault(upstream, changes, allowed, policy).None? && forall k :: k in allowed ==> ValidKey(k)
    requires Scan(Edited(raw, allowed, OpsOf(upstream, changes)), 0, {}, allowed).Ok?
    ensures var ops := OpsOf(upstream, changes);
            var before, after := Scan(raw, 0, {}, allowed).value, Scan(Edited(raw, allowed, ops), 0, {}, allowed).value;
            HasKey(after, key) <==> if key in ops then ops[key].Replace? else HasKey(before, key)
  {
    hide Scan, Edited, AllWithin, ChangeFault, OpsOf, ValidKey, HasKey, ItemsOf;
    var ops := OpsOf(upstream, changes);
    var before, after := Scan(raw, 0, {}, allowed).value, Scan(Edited(raw, allowed, ops), 0, {}, allowed).value;
    HasKeyItem(before, key);
    HasKeyItem(after, key);
    forall item: Item ensures item in ItemsOf(after) <==>
        if item.key !in ops then item in ItemsOf(before) else ops[item.key] == Replace(item.value) && !item.expansion
    {
      EditedMeaning(upstream, raw, allowed, policy, changes, item);
    }
    if key in ops && ops[key].Replace? {
      assert Item(key, ops[key].encoded, false) in ItemsOf(after);
    }
  }

  // ---------- what is asked ----------

  /** A change that may be made: a known action on an allowed key, with a value that can be written. */
  predicate Askable(upstream: Upstream, c: Change, allowed: set<Bytes>, policy: Policy) {
    && c.key in allowed && !c.action.UnknownAction?
    && (c.action.ReplaceValue? ==>
          |c.value| <= policy.maximumValueBytes && CleanText(c.value) && Encoding(upstream, c.value).Some?)
  }

  /** Changes are accepted exactly when each of them may be made and no key is named twice. */
  lemma {:induction false} AcceptedIff(upstream: Upstream, changes: seq<Change>, allowed: set<Bytes>, policy: Policy)
    ensures ChangeFault(upstream, changes, allowed, policy).None? <==>
              && (forall i :: 0 <= i < |changes| ==> Askable(upstream, changes[i], allowed, policy))
              && forall i, j :: 0 <= i < j < |changes| ==> changes[i].key != changes[j].key
  {
    hide Named, EncodingFault, Askable;
    if changes != [] {
      var n := |changes| - 1;
      AcceptedIff(upstream, changes[..n], allowed, policy);
      NamedBefore(changes, n, changes[n].key);
      AskableIs(upstream, changes[n], allowed, policy);
    }
  }

  lemma AskableIs(upstream: Upstream, c: Change, allowed: set<Bytes>, policy: Policy)
    ensures Askable(upstream, c, allowed, policy) <==> c.key in allowed && EncodingFault(upstream, c, policy).None?
  {
    hide Encoding, CleanText;
  }

  lemma NamedBefore(changes: seq<Change>, n: nat, key: Bytes)
    requires n <= |changes|
    ensures Named(changes[..n], key) <==> exists i :: 0 <= i < n && changes[i].key == key
  {
    assert forall i :: 0 <= i < n ==> changes[..n][i] == changes[i];
  }

  /** Each of them asks for its own: the removal of its key, or an encoding that reads back as its value. */
  lemma {:induction false} AskedFor(upstream: Upstream, changes: seq<Change>, allowed: set<Bytes>, policy: Policy, i: nat)
    requires ChangeFault(upstream, changes, allowed, policy).None? && i < |changes|
    ensures var ops, c := OpsOf(upstream, changes), changes[i];
            && c.key in ops
            && (c.action.RemoveKey? ==> ops[c.key] == Remove)
            && (c.action.ReplaceValue? ==> ops[c.key].Replace? && RoundTrips(upstream, c.value, ops[c.key].encoded))
  {
    hide Encoding, CleanText, RoundTrips;
    var n := |changes| - 1;
    AcceptedIff(upstream, changes, allowed, policy);
    assert Askable(upstream, changes[i], allowed, policy);
    if i < n {
      AcceptedIff(upstream, changes[..n], allowed, policy);
      AskedFor(upstream, changes[..n], allowed, policy, i);
    }
  }

  /** In the result, each replaced key has a value that the upstream parser reads as the one submitted. */
  lemma ReplacedReads(upstream: Upstream, raw: Bytes, allowed: set<Bytes>, policy: Policy, changes: seq<Change>, i: nat)
    returns (item: Item)
    requires Scan(raw, 0, {}, allowed).Ok? && AllWithin(raw, Scan(raw, 0, {}, allowed).value)
    requires ChangeFault(upstream, changes, allowed, policy).None? && forall k :: k in allowed ==> ValidKey(k)
    requires Scan(Edited(raw, allowed, OpsOf(upstream, changes)), 0, {}, allowed).Ok?
    requires i < |changes| && changes[i].action.ReplaceValue?
    ensures item in ItemsOf(Scan(Edited(raw, allowed, OpsOf(upstream, changes)), 0, {}, allowed).value)
    ensures item.key == changes[i].key && !item.expansion && RoundTrips(upstream, changes[i].value, item.value)
  {
    hide Scan, Edited, AllWithin, ChangeFault, OpsOf, ValidKey, RoundTrips;
    AskedFor(upstream, changes, allowed, policy, i);
    var key := changes[i].key;
    item := Item(key, OpsOf(upstream, changes)[key].encoded, false);
    EditedMeaning(upstream, raw, allowed, policy, changes, item);
  }
}
