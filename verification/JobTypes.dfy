/** The latest durable operation: its values and the checks a persisted one must pass. */
module JobTypes {
  import opened ByteStrings
  import Utf8

  const MAXIMUM_OUTPUT_BYTES := 256 * 1024
  const MAXIMUM_ITEM_RESULTS := 256
  const MAXIMUM_ITEM_NAME_BYTES := 255
  const MAXIMUM_CERTIFICATE_COUNT := 10000
  const MAXIMUM_CODE_BYTES := 64
  const SHA256_HEX_BYTES := 64

  /** Nanoseconds since the start of year 1; 0 is the absent time. */
  type Time = int

  const END_OF_TIME: Time := 315537897600 * 1000000000

  // The values outside the source's constants are kept apart as Unknown.

  datatype Kind = Manual | Scheduled | UnknownKind

  datatype State =
    | Queued | Running | Succeeded | Failed | Partial | NotAttempted | TimedOut | Interrupted | Incompatible | Ambiguous
    | UnknownState

  datatype Phase = NoPhase | PhaseQueued | Revalidating | Executing | RefreshingInventory | UnknownPhase

  datatype InventoryState = Pending | Refreshed | Unavailable | UnknownInventory

  datatype ItemState = ItemCompleted | ItemFailed | ItemNotAttempted | ItemAmbiguous | UnknownItem

  datatype Inventory = Inventory(state: InventoryState, code: Bytes, count: Option<int>)

  datatype ItemResult = ItemResult(name: Bytes, state: ItemState, code: Bytes)

  datatype Context = Context(runtimeIdentity: Bytes, runtimeManifestID: Bytes, configurationPath: Bytes,
                             storagePath: Bytes)

  datatype RequestItem = RequestItem(name: Bytes, account: Bytes, ca: Bytes, challengeKind: Bytes, challengeMode: Bytes)

  datatype Request = Request(evidence: Bytes, items: seq<Bytes>, context: Context, details: seq<RequestItem>)

  datatype ExecutorResult = ExecutorResult(state: State, code: Bytes, mayHaveChanged: bool, inventory: Inventory,
                                           output: Bytes, outputTruncated: bool, items: seq<ItemResult>)

  datatype Operation = Operation(id: Bytes, kind: Kind, state: State, phase: Phase, requestedAt: Time, startedAt: Time,
                                 finishedAt: Time, updatedAt: Time, code: Bytes, mayHaveChanged: bool,
                                 inventory: Inventory, output: Bytes, outputTruncated: bool, items: seq<ItemResult>,
                                 request: Request)

  datatype Error = Invalid | Active | NoQueued | StateChanged | NotFound | Database

  datatype Result<+T> = Ok(value: T) | Err(error: Error)

  // ---------- texts ----------

  predicate IsLowerHex(b: Byte) { 48 <= b <= 57 || 97 <= b <= 102 }

  predicate LowerHex(s: Bytes, n: nat) {
    |s| == n && forall i :: 0 <= i < n ==> IsLowerHex(s[i])
  }

  predicate ValidID(id: Bytes) { LowerHex(id, 32) }

  /** A stable code: a lower-case letter, then letters, digits and underscores. */
  predicate ValidCode(code: Bytes) {
    && 0 < |code| <= MAXIMUM_CODE_BYTES
    && 97 <= code[0] <= 122
    && forall i :: 0 <= i < |code| ==> 97 <= code[i] <= 122 || 48 <= code[i] <= 57 || code[i] == 95
  }

  /** The rune that begins s is a control character. */
  predicate ControlRune(s: Bytes) {
    s != [] && (s[0] < 0x20 || s[0] == 0x7F || (|s| > 1 && s[0] == 0xC2 && 0x80 <= s[1] < 0xA0))
  }

  /** Valid UTF-8 whose control runes, if any, are layout. */
  predicate PlainText(s: Bytes, layout: bool) {
    s == [] ||
    (Utf8.RuneLength(s) > 0
     && (ControlRune(s) ==> layout && (s[0] == 9 || s[0] == 10 || s[0] == 13))
     && PlainText(s[Utf8.RuneLength(s)..], layout))
  }

  predicate ValidOutput(s: Bytes) { |s| <= MAXIMUM_OUTPUT_BYTES && PlainText(s, true) }

  predicate ValidItemName(s: Bytes) { 0 < |s| <= MAXIMUM_ITEM_NAME_BYTES && PlainText(s, false) }

  predicate ValidRequestText(s: Bytes, maximum: nat) { 0 < |s| <= maximum && PlainText(s, false) }

  const SLASH: Byte := 47
  const DOT: Byte := 46

  /** The bytes up to the next slash. */
  function NameLength(s: Bytes): (n: nat)
    ensures n <= |s|
  {
    if s == [] || s[0] == SLASH then 0 else 1 + NameLength(s[1..])
  }

  /** Names behind slashes, none of them empty or a dot or two. */
  predicate CleanNames(s: Bytes)
    decreases |s|
  {
    s == [] ||
    (s[0] == SLASH
     && var n := NameLength(s[1..]);
        var name := s[1..1 + n];
        name != [] && name != [DOT] && name != [DOT, DOT] && CleanNames(s[1 + n..]))
  }

  /** An absolute path that cleaning leaves as it is. */
  predicate CleanPath(s: Bytes) { s == [SLASH] || (s != [] && CleanNames(s)) }

  predicate ValidRequestPath(s: Bytes) { ValidRequestText(s, 4095) && CleanPath(s) }

  predicate ValidTime(t: Time) { 0 < t < END_OF_TIME }

  // ---------- requests ----------

  predicate ValidNames(names: seq<Bytes>) {
    |names| <= MAXIMUM_ITEM_RESULTS && AllDiffer(names) && forall i :: 0 <= i < |names| ==> ValidItemName(names[i])
  }

  const NO_CONTEXT := Context([], [], [], [])

  predicate ValidDetail(d: RequestItem, name: Bytes) {
    && d.name == name
    && ValidRequestText(d.account, 64) && ValidRequestText(d.ca, 255)
    && ValidRequestText(d.challengeKind, 32) && ValidRequestText(d.challengeMode, 64)
  }

  predicate ValidContext(c: Context) {
    && ValidRequestText(c.runtimeIdentity, 64) && ValidRequestText(c.runtimeManifestID, 128)
    && ValidRequestPath(c.configurationPath) && ValidRequestPath(c.storagePath)
  }

  predicate ValidRequest(r: Request) {
    && LowerHex(r.evidence, SHA256_HEX_BYTES)
    && r.items != [] && ValidNames(r.items)
    && (|| (r.context == NO_CONTEXT && r.details == [])
        || (&& ValidContext(r.context) && |r.details| == |r.items|
            && forall i :: 0 <= i < |r.details| ==> ValidDetail(r.details[i], r.items[i])))
  }

  /** The row kept for each requested item, without a name of its own in the details. */
  function StoredItems(r: Request): seq<RequestItem> {
    seq(|r.items|, i requires 0 <= i < |r.items| =>
      if r.details == [] || i >= |r.details| then RequestItem(r.items[i], [], [], [], [])
      else r.details[i].(name := r.items[i]))
  }

  predicate HasDetail(d: RequestItem) { d.account != [] || d.ca != [] || d.challengeKind != [] || d.challengeMode != [] }

  /** The request that the stored rows are read back as. */
  function LoadedRequest(evidence: Bytes, context: Context, rows: seq<RequestItem>): Request {
    Request(evidence, seq(|rows|, i requires 0 <= i < |rows| => rows[i].name), context,
            if exists i :: 0 <= i < |rows| && HasDetail(rows[i]) then rows else [])
  }

  /** A valid request is read back as it was stored. */
  lemma RequestSurvives(r: Request)
    requires ValidRequest(r)
    ensures LoadedRequest(r.evidence, r.context, StoredItems(r)) == r
  {
    hide ValidItemName, ValidContext, LowerHex, PlainText;
    var rows := StoredItems(r);
    assert seq(|rows|, i requires 0 <= i < |rows| => rows[i].name) == r.items;
    if r.details != [] {
      assert ValidDetail(r.details[0], r.items[0]);
      assert HasDetail(rows[0]);
      forall i | 0 <= i < |rows| ensures rows[i] == r.details[i] {
        assert ValidDetail(r.details[i], r.items[i]);
      }
      assert rows == r.details;
    }
  }

  /** The request check, item by item. */
  method ValidateRequest(r: Request) returns (ok: bool)
    ensures ok <==> ValidRequest(r)
  {
    hide ValidItemName, ValidContext, ValidDetail, LowerHex;
    if !LowerHex(r.evidence, SHA256_HEX_BYTES) || |r.items| == 0 || |r.items| > MAXIMUM_ITEM_RESULTS {
      return false;
    }
    var seen: set<Bytes> := {};
    for i := 0 to |r.items|
      invariant ValidNames(r.items[..i])
      invariant forall n :: n in seen <==> n in r.items[..i]
    {
      assert r.items[..i + 1] == r.items[..i] + [r.items[i]];
      if !ValidItemName(r.items[i]) || r.items[i] in seen {
        return false;
      }
      seen := seen + {r.items[i]};
    }
    assert r.items[..|r.items|] == r.items;
    if r.context == NO_CONTEXT && |r.details| == 0 {
      return true;
    }
    if !ValidContext(r.context) || |r.details| != |r.items| {
      return false;
    }
    for i := 0 to |r.details|
      invariant forall j :: 0 <= j < i ==> ValidDetail(r.details[j], r.items[j])
    {
      if !ValidDetail(r.details[i], r.items[i]) {
        return false;
      }
    }
    return true;
  }

  // ---------- results ----------

  predicate IsActive(s: State) { s == Queued || s == Running }

  predicate IsTerminal(s: State) { !IsActive(s) && s != UnknownState }

  predicate ValidPhaseTransition(from: Phase, to: Phase) {
    match from
    case Revalidating => to == Executing || to == RefreshingInventory
    case Executing => to == RefreshingInventory
    case _ => false
  }

  predicate ValidInventory(v: Inventory, allowPending: bool) {
    match v.state
    case Pending => allowPending && v.code == [] && v.count.None?
    case Refreshed => ValidCode(v.code) && v.count.Some? && 0 <= v.count.value <= MAXIMUM_CERTIFICATE_COUNT
    case Unavailable => ValidCode(v.code) && v.count.None?
    case UnknownInventory => false
  }

  function Names(items: seq<ItemResult>): (names: seq<Bytes>)
    ensures |names| == |items| && forall i :: 0 <= i < |items| ==> names[i] == items[i].name
  {
    seq(|items|, i requires 0 <= i < |items| => items[i].name)
  }

  predicate ValidItems(items: seq<ItemResult>) {
    && ValidNames(Names(items))
    && forall i :: 0 <= i < |items| ==> items[i].state != UnknownItem && ValidCode(items[i].code)
  }

  /** The result check, item by item. */
  method ValidateItems(items: seq<ItemResult>) returns (ok: bool)
    ensures ok <==> ValidItems(items)
  {
    hide ValidItemName, ValidCode;
    if |items| > MAXIMUM_ITEM_RESULTS {
      return false;
    }
    var seen: set<Bytes> := {};
    for i := 0 to |items|
      invariant forall j :: 0 <= j < i ==>
        ValidItemName(items[j].name) && items[j].state != UnknownItem && ValidCode(items[j].code)
      invariant forall j, k :: 0 <= j < k < i ==> items[j].name != items[k].name
      invariant forall j :: 0 <= j < i ==> items[j].name in seen
      invariant forall n :: n in seen ==> exists j :: 0 <= j < i && items[j].name == n
    {
      if !ValidItemName(items[i].name) {
        assert !ValidItemName(Names(items)[i]);
        return false;
      }
      if items[i].name in seen {
        var j :| 0 <= j < i && items[j].name == items[i].name;
        assert Names(items)[j] == Names(items)[i];
        return false;
      }
      if items[i].state == UnknownItem || !ValidCode(items[i].code) {
        return false;
      }
      seen := seen + {items[i].name};
    }
    return true;
  }

  predicate ValidExecutorResult(r: ExecutorResult) {
    IsTerminal(r.state) && ValidCode(r.code) && ValidInventory(r.inventory, false) && ValidOutput(r.output)
    && ValidItems(r.items)
  }

  // ---------- persisted operations ----------

  predicate ValidQueued(o: Operation) {
    && o.phase == PhaseQueued && o.startedAt == 0 && o.finishedAt == 0
    && o.code == [] && !o.mayHaveChanged && o.output == [] && !o.outputTruncated && o.items == []
    && o.inventory.state == Pending && ValidInventory(o.inventory, true)
  }

  predicate ValidRunning(o: Operation) {
    && (o.phase == Revalidating || o.phase == Executing || o.phase == RefreshingInventory)
    && ValidTime(o.startedAt) && o.finishedAt == 0
    && o.code == [] && o.output == [] && !o.outputTruncated && o.items == []
    && o.inventory.state == Pending && ValidInventory(o.inventory, true)
  }

  predicate ValidTerminal(o: Operation) {
    && o.phase == NoPhase && ValidTime(o.startedAt) && ValidTime(o.finishedAt)
    && ValidCode(o.code) && ValidOutput(o.output) && ValidItems(o.items)
    && ValidInventory(o.inventory, o.state == Interrupted || o.state == Ambiguous)
    && Names(o.items) == o.request.items
  }

  /** What every loaded operation satisfies. */
  predicate ValidOperation(o: Operation) {
    && ValidID(o.id) && o.kind != UnknownKind && ValidRequest(o.request)
    && ValidTime(o.requestedAt) && ValidTime(o.updatedAt) && o.requestedAt <= o.updatedAt
    && (match o.state
        case Queued => ValidQueued(o)
        case Running => ValidRunning(o)
        case UnknownState => false
        case _ => ValidTerminal(o))
    && (o.startedAt != 0 ==> o.requestedAt <= o.startedAt)
    && (o.finishedAt != 0 ==> o.startedAt <= o.finishedAt <= o.updatedAt)
  }

  // ---------- texts, rune by rune ----------

  predicate IsLayout(r: int) { r == 9 || r == 10 || r == 13 }

  predicate AllPlain(runes: seq<int>, layout: bool) {
    forall i :: 0 <= i < |runes| ==> (Utf8.IsControl(runes[i]) ==> layout && IsLayout(runes[i]))
  }

  lemma ControlRuneIs(r: int, rest: Bytes)
    requires Utf8.IsRune(r)
    ensures ControlRune(Utf8.Encode(r) + rest) <==> Utf8.IsControl(r)
    ensures Utf8.IsControl(r) ==>
              (IsLayout(r) <==> (Utf8.Encode(r) + rest)[0] == 9 || (Utf8.Encode(r) + rest)[0] == 10 || (Utf8.Encode(r) + rest)[0] == 13)
  {
  }

  lemma PlainTextStep(s: Bytes, layout: bool)
    requires s != []
    ensures PlainText(s, layout) <==>
              && Utf8.RuneLength(s) > 0 && (ControlRune(s) ==> layout && (s[0] == 9 || s[0] == 10 || s[0] == 13))
              && PlainText(s[Utf8.RuneLength(s)..], layout)
  {
  }

  /** A text of runes is plain exactly when none of them is a control character, but for layout where that is allowed. */
  lemma {:induction false} PlainTextRunes(runes: seq<int>, layout: bool)
    requires Utf8.AllRunes(runes)
    ensures PlainText(Utf8.EncodeAll(runes), layout) <==> AllPlain(runes, layout)
  {
    hide Utf8.RuneLength, Utf8.Encode, ControlRune, PlainText, Utf8.IsControl, IsLayout;
    if runes == [] {
      NothingIsPlain(layout);
    } else {
      var r, rest := runes[0], Utf8.EncodeAll(runes[1..]);
      PlainTextRunes(runes[1..], layout);
      Utf8.DecodeEncoded(r, rest);
      Utf8.EncodeNotEmpty(r);
      ControlRuneIs(r, rest);
      var s := Utf8.Encode(r) + rest;
      assert s[|Utf8.Encode(r)|..] == rest;
      PlainTextStep(s, layout);
      assert AllPlain(runes, layout) <==>
          (Utf8.IsControl(r) ==> layout && IsLayout(r)) && AllPlain(runes[1..], layout);
    }
  }

  lemma NothingIsPlain(layout: bool)
    ensures PlainText([], layout)
  {
  }

  /** Plain texts are texts of runes. */
  lemma {:induction false} PlainTextIsValid(s: Bytes, layout: bool)
    requires PlainText(s, layout)
    ensures Utf8.Valid(s)
  {
    hide Utf8.RuneLength, ControlRune;
    if s != [] {
      PlainTextIsValid(s[Utf8.RuneLength(s)..], layout);
    }
  }

  /** Exactly the texts of such runes are plain. */
  lemma PlainTextIff(s: Bytes, layout: bool)
    ensures PlainText(s, layout) <==>
              exists runes :: Utf8.AllRunes(runes) && Utf8.EncodeAll(runes) == s && AllPlain(runes, layout)
  {
    hide PlainText, Utf8.AllRunes, Utf8.EncodeAll, AllPlain, Utf8.Valid;
    if PlainText(s, layout) {
      PlainTextIsValid(s, layout);
      var runes := Utf8.ValidIsEncoded(s);
      PlainTextRunes(runes, layout);
    }
    if runes :| Utf8.AllRunes(runes) && Utf8.EncodeAll(runes) == s && AllPlain(runes, layout) {
      PlainTextRunes(runes, layout);
    }
  }

  // ---------- paths, name by name ----------

  predicate IsName(name: Bytes) { name != [] && SLASH !in name && name != [DOT] && name != [DOT, DOT] }

  /** Names, each behind a slash. */
  function Slashed(names: seq<Bytes>): Bytes {
    if names == [] then [] else [SLASH] + names[0] + Slashed(names[1..])
  }

  lemma {:induction false} NameLengthIs(name: Bytes, rest: Bytes)
    requires SLASH !in name && (rest == [] || rest[0] == SLASH)
    ensures NameLength(name + rest) == |name|
  {
    var s := name + rest;
    if name == [] {
      assert s == rest;
    } else {
      assert s[0] == name[0] && s[1..] == name[1..] + rest;
      NameLengthIs(name[1..], rest);
    }
  }

  lemma {:induction false} NameEnds(s: Bytes)
    ensures SLASH !in s[..NameLength(s)]
    ensures s[NameLength(s)..] == [] || s[NameLength(s)..][0] == SLASH
  {
    if s != [] && s[0] != SLASH {
      NameEnds(s[1..]);
      assert s[..NameLength(s)] == [s[0]] + s[1..][..NameLength(s[1..])];
      assert s[NameLength(s)..] == s[1..][NameLength(s[1..])..];
    }
  }

  lemma {:induction false} SlashedIsClean(names: seq<Bytes>)
    requires forall i :: 0 <= i < |names| ==> IsName(names[i])
    ensures CleanNames(Slashed(names)) && (Slashed(names) == [] || Slashed(names)[0] == SLASH)
  {
    if names != [] {
      var s, rest := Slashed(names), Slashed(names[1..]);
      SlashedIsClean(names[1..]);
      NameLengthIs(names[0], rest);
      assert s[1..] == names[0] + rest && s[1 + |names[0]|..] == rest && s[1..1 + |names[0]|] == names[0];
    }
  }

  lemma {:induction false} CleanIsSlashed(s: Bytes) returns (names: seq<Bytes>)
    requires CleanNames(s)
    ensures Slashed(names) == s && forall i :: 0 <= i < |names| ==> IsName(names[i])
    decreases |s|
  {
    names := [];
    if s != [] {
      var n := NameLength(s[1..]);
      NameEnds(s[1..]);
      assert s[1..1 + n] == s[1..][..n];
      var rest := CleanIsSlashed(s[1 + n..]);
      names := [s[1..1 + n]] + rest;
      assert names[1..] == rest;
      assert s == [s[0]] + s[1..1 + n] + s[1 + n..];
    }
  }

  /** A path is clean when it is the root, or names behind slashes of which none is empty, a dot or two dots. */
  lemma CleanPathIff(s: Bytes)
    ensures CleanPath(s) <==>
              || s == [SLASH]
              || exists names :: names != [] && Slashed(names) == s && forall i :: 0 <= i < |names| ==> IsName(names[i])
  {
    hide CleanNames, IsName;
    if CleanPath(s) && s != [SLASH] {
      var names := CleanIsSlashed(s);
    }
    if names :| names != [] && Slashed(names) == s && forall i :: 0 <= i < |names| ==> IsName(names[i]) {
      SlashedIsClean(names);
    }
  }
}
