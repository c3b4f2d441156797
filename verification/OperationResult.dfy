/** From what the broker saw to the result that is persisted. */
module OperationResult {
  import opened ByteStrings
  import opened BrokerOutput
  import opened JobTypes
  import Utf8

  // ---------- output ----------

  const STDOUT_MARK: Bytes := Ascii("[stdout]\n")
  const STDERR_MARK: Bytes := Ascii("[stderr]\n")

  datatype Outcome = RunSucceeded | RunFailed | RunTimedOut | RunInterrupted | RunOutputLimit | RunAmbiguous | RunUnknown

  datatype BrokerResult = BrokerResult(outcome: Outcome, started: bool, mayHaveChanged: bool, stdout: Bytes,
                                       stderr: Bytes, outputDiscarded: bool)

  predicate EndsWithLineFeed(s: Bytes) { s != [] && s[|s| - 1] == 10 }

  /** Both streams, each behind its mark on a line of its own. */
  function Combined(stdout: Bytes, stderr: Bytes): Bytes {
    var out := if stdout == [] then [] else STDOUT_MARK + stdout;
    if stderr == [] then out
    else out + (if out != [] && !EndsWithLineFeed(out) then [10] else []) + STDERR_MARK + stderr
  }

  /** The longest prefix of at most n bytes that is valid UTF-8. */
  function ValidPrefix(s: Bytes, n: nat): (k: nat)
    requires n <= |s|
    ensures k <= n && Utf8.Valid(s[..k])
    ensures forall i :: k < i <= n ==> !Utf8.Valid(s[..i])
  {
    if n == 0 || Utf8.Valid(s[..n]) then n else ValidPrefix(s, n - 1)
  }

  /** What stands in front of a stream that is shown last: nothing, or the other one, ending its line. */
  function Front(stdout: Bytes): Bytes {
    if stdout == [] then []
    else
      var out := Ascii("[stdout]\n") + stdout;
      if stdout[|stdout| - 1] == 10 then out else out + [10]
  }

  /** Each stream that is not empty is there in full behind its own mark, standard output first, and nothing else. */
  lemma CombinedShows(stdout: Bytes, stderr: Bytes)
    ensures stderr == [] ==> Combined(stdout, stderr) == if stdout == [] then [] else Ascii("[stdout]\n") + stdout
    ensures stderr != [] ==> Combined(stdout, stderr) == Front(stdout) + Ascii("[stderr]\n") + stderr
    ensures Front(stdout) != [] ==> EndsWithLineFeed(Front(stdout))
  {
    assert Ascii("[stdout]\n")[8] == 10;
    hide Ascii;
    assert [] + STDERR_MARK == STDERR_MARK;
  }

  method OperationOutput(result: BrokerResult) returns (output: Bytes, truncated: bool)
    ensures (output, truncated) == OutputOf(result)
  {
    hide Utf8.Valid;
    if result.outputDiscarded {
      return [], true;
    }
    var built: Bytes := [];
    if |result.stdout| != 0 {
      built := built + STDOUT_MARK + result.stdout;
    }
    assert built == if result.stdout == [] then [] else STDOUT_MARK + result.stdout;
    if |result.stderr| != 0 {
      if |built| != 0 && !EndsWithLineFeed(built) {
        built := built + [10];
      }
      built := built + STDERR_MARK + result.stderr;
    }
    assert built == Combined(result.stdout, result.stderr);
    if |built| <= MAXIMUM_OUTPUT_BYTES {
      return built, false;
    }
    var value := built[..MAXIMUM_OUTPUT_BYTES];
    EmptyValid();
    while !Utf8.Valid(value)
      invariant |value| <= MAXIMUM_OUTPUT_BYTES && value == built[..|value|]
      invariant ValidPrefix(built, MAXIMUM_OUTPUT_BYTES) == ValidPrefix(built, |value|)
      decreases |value|
    {
      assert value != [];
      value := value[..|value| - 1];
    }
    return value, true;
  }

  lemma EmptyValid()
    ensures Utf8.Valid([])
  {
  }

  function OutputOf(r: BrokerResult): (Bytes, bool) {
    if r.outputDiscarded then ([], true)
    else
      var all := Combined(r.stdout, r.stderr);
      if |all| <= MAXIMUM_OUTPUT_BYTES then (all, false) else (all[..ValidPrefix(all, MAXIMUM_OUTPUT_BYTES)], true)
  }

  /** Some boundary lies within three bytes of any place in valid text. */
  lemma {:induction false} NearBoundary(s: Bytes, n: nat) returns (k: nat)
    requires Utf8.Valid(s) && n <= |s|
    ensures k <= n <= k + 3 && Utf8.Valid(s[..k])
    decreases |s|
  {
    hide Utf8.RuneLength;
    var m := Utf8.RuneLength(s);
    if n == 0 || n < m {
      k := 0;
    } else {
      var rest := NearBoundary(s[m..], n - m);
      k := m + rest;
      Utf8.RuneCut(s, k);
      assert s[..k][m..] == s[m..][..rest];
    }
  }

  /** A valid prefix of plain text is plain. */
  lemma {:induction false} PlainPrefix(s: Bytes, k: nat)
    requires Plain(s) && k <= |s| && Utf8.Valid(s[..k])
    ensures Plain(s[..k])
    decreases |s|
  {
    hide Utf8.RuneLength, Utf8.RuneValue, IsPlain;
    if k > 0 {
      var n := Utf8.RuneLength(s[..k]);
      Utf8.RuneJoin(s[..k], s[k..]);
      assert s[..k] + s[k..] == s;
      assert s[..k][n..] == s[n..][..k - n];
      PlainPrefix(s[n..], k - n);
      SameRune(s, s[..k]);
    }
  }

  lemma PlainIsValid(s: Bytes)
    requires Plain(s)
    ensures Utf8.Valid(s)
  {
    hide Utf8.RuneLength, Utf8.RuneValue, IsPlain;
    if s != [] {
      PlainIsValid(s[Utf8.RuneLength(s)..]);
    }
  }

  lemma {:induction false} PlainIsText(s: Bytes)
    requires Plain(s)
    ensures PlainText(s, true)
  {
    hide Utf8.RuneLength, Utf8.RuneValue, ControlRune;
    if s != [] {
      PlainIsText(s[Utf8.RuneLength(s)..]);
      if ControlRune(s) {
        PlainLayout(s);
      }
    }
  }

  lemma PlainLayout(s: Bytes)
    requires Utf8.RuneLength(s) > 0 && IsPlain(Utf8.RuneValue(s)) && ControlRune(s)
    ensures s[0] == 9 || s[0] == 10
  {
  }

  lemma MarksPlain()
    ensures Plain(STDOUT_MARK) && Plain(STDERR_MARK) && Plain([10])
  {
    hide Plain;
    StdoutMarkPlain();
    StderrMarkPlain();
    AsciiPlain([10]);
  }

  lemma StdoutMarkPlain()
    ensures Plain(STDOUT_MARK)
  {
    hide Plain;
    AsciiPlain(STDOUT_MARK);
  }

  lemma StderrMarkPlain()
    ensures Plain(STDERR_MARK)
  {
    hide Plain;
    AsciiPlain(STDERR_MARK);
  }

  lemma {:induction false} AsciiPlain(s: Bytes)
    requires forall i :: 0 <= i < |s| ==> s[i] == 10 || 32 <= s[i] < 127
    ensures Plain(s)
  {
    if s != [] {
      AsciiPlain(s[1..]);
    }
  }

  lemma CombinedPlain(stdout: Bytes, stderr: Bytes)
    requires Plain(stdout) && Plain(stderr)
    ensures Plain(Combined(stdout, stderr))
  {
    hide Plain;
    MarksPlain();
    NothingPlain();
    var out := if stdout == [] then [] else STDOUT_MARK + stdout;
    PlainJoin(STDOUT_MARK, stdout);
    var sep := if out != [] && !EndsWithLineFeed(out) then [10] else [];
    PlainJoin(out, sep);
    PlainJoin(out + sep, STDERR_MARK);
    PlainJoin(out + sep + STDERR_MARK, stderr);
  }

  lemma NothingPlain()
    ensures Plain([])
  {
  }

  /**
   Output made of plain streams is output that may be persisted; when it is too long, the cut is within three
   bytes of the bound and never inside a rune.
   */
  lemma OutputPersists(r: BrokerResult)
    requires Plain(r.stdout) && Plain(r.stderr)
    ensures ValidOutput(OutputOf(r).0) && Plain(OutputOf(r).0)
    ensures var all := Combined(r.stdout, r.stderr);
            !r.outputDiscarded ==>
              && OutputOf(r).0 <= all && (OutputOf(r).1 <==> |all| > MAXIMUM_OUTPUT_BYTES)
              && (OutputOf(r).1 ==> |OutputOf(r).0| >= MAXIMUM_OUTPUT_BYTES - 3)
              && (!OutputOf(r).1 ==> OutputOf(r).0 == all)
  {
    hide Plain, Utf8.Valid, PlainText, Combined;
    NothingPlain();
    var all := Combined(r.stdout, r.stderr);
    CombinedPlain(r.stdout, r.stderr);
    if |all| > MAXIMUM_OUTPUT_BYTES {
      PlainIsValid(all);
      var k := NearBoundary(all, MAXIMUM_OUTPUT_BYTES);
      PlainPrefix(all, ValidPrefix(all, MAXIMUM_OUTPUT_BYTES));
    }
    PlainIsText(OutputOf(r).0);
  }

  // ---------- certificates that changed ----------

  datatype Certificate = Certificate(name: Bytes, dnsNames: seq<Bytes>, issuer: Bytes, expiresAt: int,
                                     nativePath: Bytes, artifact: Bytes)

  /** The last certificate of each name. */
  function ByName(certificates: seq<Certificate>): map<Bytes, Certificate> {
    if certificates == [] then map[]
    else
      var last := certificates[|certificates| - 1];
      ByName(certificates[..|certificates| - 1])[last.name := last]
  }

  /** New, or no longer what the earlier certificate of that name was. */
  predicate Fresh(before: seq<Certificate>, c: Certificate) {
    c.name !in ByName(before) || ByName(before)[c.name] != c
  }

  function ChangedNames(before: seq<Certificate>, after: seq<Certificate>): (names: set<Bytes>)
    ensures forall i :: 0 <= i < |after| && Fresh(before, after[i]) ==> after[i].name in names
    ensures forall name :: name in names ==> exists i :: 0 <= i < |after| && after[i].name == name && Fresh(before, after[i])
  {
    set c | c in after && Fresh(before, c) :: c.name
  }

  method ChangedCertificateNames(before: seq<Certificate>, after: seq<Certificate>) returns (changed: set<Bytes>)
    ensures changed == ChangedNames(before, after)
  {
    var previous: map<Bytes, Certificate> := map[];
    for i := 0 to |before|
      invariant previous == ByName(before[..i])
    {
      assert before[..i + 1][..i] == before[..i];
      previous := previous[before[i].name := before[i]];
    }
    assert before[..|before|] == before;
    changed := {};
    for i := 0 to |after|
      invariant changed == ChangedNames(before, after[..i])
    {
      assert after[..i + 1] == after[..i] + [after[i]];
      if after[i].name !in previous || previous[after[i].name] != after[i] {
        changed := changed + {after[i].name};
      }
    }
    assert after[..|after|] == after;
  }

  // ---------- classification ----------

  function BrokerFailureCode(code: Bytes): Bytes {
    if code == [] then Ascii("broker_unavailable") else Ascii("broker_") + code
  }

  function ItemResults(names: seq<Bytes>, state: ItemState, code: Bytes): seq<ItemResult> {
    seq(|names|, i requires 0 <= i < |names| => ItemResult(names[i], state, code))
  }

  /** The run itself failed: nothing is known of a certificate but what its artifact shows. */
  function FailedRunItem(name: Bytes, code: Bytes, mayHaveChanged: bool, changed: set<Bytes>, inventory: Inventory):
    ItemResult
  {
    if mayHaveChanged && inventory.state == Refreshed && name in changed
    then ItemResult(name, ItemCompleted, Ascii("native_artifact_changed"))
    else ItemResult(name, if mayHaveChanged then ItemAmbiguous else ItemNotAttempted, code)
  }

  function RunItem(name: Bytes, outcome: Outcome, changed: set<Bytes>, failed: Option<Bytes>): ItemResult {
    if outcome == RunSucceeded then ItemResult(name, ItemCompleted, Ascii("evaluated"))
    else if name in changed then ItemResult(name, ItemCompleted, Ascii("native_artifact_changed"))
    else if failed == Some(name) then ItemResult(name, ItemFailed, Ascii("upstream_renewal_failed"))
    else ItemResult(name, ItemAmbiguous, Ascii("execution_outcome_ambiguous"))
  }

  /** A change behind the run makes everything uncertain that its artifact does not settle. */
  function Unsettled(item: ItemResult, code: Bytes): ItemResult {
    if item.state == ItemCompleted then item else item.(state := ItemAmbiguous, code := code)
  }

  function StateOf(outcome: Outcome, completed: nat, total: nat): (State, Bytes) {
    match outcome
    case RunSucceeded => (Succeeded, Ascii("execution_succeeded"))
    case RunFailed =>
      if 0 < completed < total then (Partial, Ascii("execution_partial")) else (Failed, Ascii("execution_failed"))
    case RunTimedOut => (TimedOut, Ascii("execution_timed_out"))
    case RunInterrupted => (Interrupted, Ascii("execution_interrupted"))
    case RunOutputLimit => (Ambiguous, Ascii("execution_output_limit"))
    case RunAmbiguous => (Ambiguous, Ascii("execution_ambiguous"))
    case RunUnknown => (Failed, Ascii("execution_failed"))
  }

  /** What a run is classified by, apart from its outcome and output. */
  datatype Evidence = Evidence(failure: Option<Bytes>, names: seq<Bytes>, changed: set<Bytes>, inventory: Inventory,
                               postChange: Bytes, failed: Option<Bytes>)

  /** The result of one certificate. */
  function ItemFor(r: BrokerResult, e: Evidence, name: Bytes): ItemResult {
    if e.failure.Some? then
      FailedRunItem(name, BrokerFailureCode(e.failure.value), r.started || r.mayHaveChanged, e.changed, e.inventory)
    else if e.postChange == [] then RunItem(name, r.outcome, e.changed, e.failed)
    else Unsettled(RunItem(name, r.outcome, e.changed, e.failed), e.postChange)
  }

  /** The state and the code of the whole. */
  function VerdictOf(r: BrokerResult, e: Evidence, completed: nat): (State, Bytes) {
    if e.failure.Some? then
      (if r.started || r.mayHaveChanged then Ambiguous else NotAttempted, BrokerFailureCode(e.failure.value))
    else if e.postChange == [] then StateOf(r.outcome, completed, |e.names|)
    else (Ambiguous, e.postChange)
  }

  function Completed(items: seq<ItemResult>): nat {
    if items == [] then 0
    else Completed(items[..|items| - 1]) + if items[|items| - 1].state == ItemCompleted then 1 else 0
  }

  predicate Classified(r: BrokerResult, e: Evidence, result: ExecutorResult) {
    && (result.output, result.outputTruncated) == OutputOf(r) && result.inventory == e.inventory
    && |result.items| == |e.names| && (forall i :: 0 <= i < |e.names| ==> result.items[i] == ItemFor(r, e, e.names[i]))
    && (result.state, result.code) == VerdictOf(r, e, Completed(result.items))
    && result.mayHaveChanged == if e.failure.Some? then r.started || r.mayHaveChanged else r.mayHaveChanged
  }

  method ClassifyExecution(r: BrokerResult, e: Evidence) returns (result: ExecutorResult)
    ensures Classified(r, e, result)
  {
    hide OutputOf, Ascii;
    var output, truncated := OperationOutput(r);
    if e.failure.Some? {
      result := ClassifyFailure(r, e, output, truncated);
      return;
    }
    result := ClassifyRun(r, e, output, truncated);
  }

  /** The broker itself failed. */
  method ClassifyFailure(r: BrokerResult, e: Evidence, output: Bytes, truncated: bool) returns (result: ExecutorResult)
    requires (output, truncated) == OutputOf(r) && e.failure.Some?
    ensures Classified(r, e, result)
  {
    hide OutputOf, Ascii, BrokerFailureCode;
    var state, itemState := NotAttempted, ItemNotAttempted;
    var mayHaveChanged := r.started || r.mayHaveChanged;
    if mayHaveChanged {
      state, itemState := Ambiguous, ItemAmbiguous;
    }
    var code := BrokerFailureCode(e.failure.value);
    var items := ItemResults(e.names, itemState, code);
    if mayHaveChanged && e.inventory.state == Refreshed {
      for i := 0 to |e.names|
        invariant |items| == |e.names|
        invariant forall j :: 0 <= j < i ==>
          items[j] == FailedRunItem(e.names[j], code, mayHaveChanged, e.changed, e.inventory)
        invariant forall j :: i <= j < |e.names| ==> items[j] == ItemResult(e.names[j], itemState, code)
      {
        if e.names[i] in e.changed {
          items := items[i := items[i].(state := ItemCompleted, code := Ascii("native_artifact_changed"))];
        }
      }
    }
    return ExecutorResult(state, code, mayHaveChanged, e.inventory, output, truncated, items);
  }

  /** The broker ran the executable to some end. */
  method ClassifyRun(r: BrokerResult, e: Evidence, output: Bytes, truncated: bool) returns (result: ExecutorResult)
    requires (output, truncated) == OutputOf(r) && e.failure.None?
    ensures Classified(r, e, result)
  {
    hide OutputOf, Ascii;
    var items: seq<ItemResult>, completed := [], 0;
    for i := 0 to |e.names|
      invariant |items| == i && completed == Completed(items)
      invariant forall j :: 0 <= j < i ==> items[j] == RunItem(e.names[j], r.outcome, e.changed, e.failed)
    {
      var item := RunItem(e.names[i], r.outcome, e.changed, e.failed);
      if item.state == ItemCompleted {
        completed := completed + 1;
      }
      assert (items + [item])[..i] == items;
      items := items + [item];
    }
    var state, code := StateOf(r.outcome, completed, |items|).0, StateOf(r.outcome, completed, |items|).1;
    if |e.postChange| != 0 {
      state, code := Ambiguous, e.postChange;
      for i := 0 to |items|
        invariant |items| == |e.names|
        invariant forall j :: 0 <= j < i ==>
          items[j] == Unsettled(RunItem(e.names[j], r.outcome, e.changed, e.failed), e.postChange)
        invariant forall j :: i <= j < |items| ==> items[j] == RunItem(e.names[j], r.outcome, e.changed, e.failed)
      {
        if items[i].state != ItemCompleted {
          items := items[i := items[i].(state := ItemAmbiguous, code := e.postChange)];
        }
      }
    }
    return ExecutorResult(state, code, r.mayHaveChanged, e.inventory, output, truncated, items);
  }

  // ---------- what the jobs store accepts ----------

  lemma EvaluatedValid()
    ensures ValidCode(Ascii("evaluated"))
  {
  }

  lemma NativeArtifactChangedValid()
    ensures ValidCode(Ascii("native_artifact_changed"))
  {
  }

  lemma UpstreamRenewalFailedValid()
    ensures ValidCode(Ascii("upstream_renewal_failed"))
  {
  }

  lemma ExecutionOutcomeAmbiguousValid()
    ensures ValidCode(Ascii("execution_outcome_ambiguous"))
  {
  }

  lemma ExecutionSucceededValid()
    ensures ValidCode(Ascii("execution_succeeded"))
  {
  }

  lemma ExecutionPartialValid()
    ensures ValidCode(Ascii("execution_partial"))
  {
  }

  lemma ExecutionFailedValid()
    ensures ValidCode(Ascii("execution_failed"))
  {
  }

  lemma ExecutionTimedOutValid()
    ensures ValidCode(Ascii("execution_timed_out"))
  {
  }

  lemma ExecutionInterruptedValid()
    ensures ValidCode(Ascii("execution_interrupted"))
  {
  }

  lemma ExecutionOutputLimitValid()
    ensures ValidCode(Ascii("execution_output_limit"))
  {
  }

  lemma ExecutionAmbiguousValid()
    ensures ValidCode(Ascii("execution_ambiguous"))
  {
  }

  lemma BrokerUnavailableValid()
    ensures ValidCode(Ascii("broker_unavailable"))
  {
  }

  lemma RunCodesValid()
    ensures ValidCode(Ascii("evaluated")) && ValidCode(Ascii("native_artifact_changed"))
    ensures ValidCode(Ascii("upstream_renewal_failed")) && ValidCode(Ascii("execution_outcome_ambiguous"))
  {
    hide ValidCode, Ascii;
    EvaluatedValid();
    NativeArtifactChangedValid();
    UpstreamRenewalFailedValid();
    ExecutionOutcomeAmbiguousValid();
  }

  lemma StateCodesValid(outcome: Outcome, completed: nat, total: nat)
    ensures IsTerminal(StateOf(outcome, completed, total).0) && ValidCode(StateOf(outcome, completed, total).1)
  {
    hide ValidCode, Ascii;
    ExecutionSucceededValid();
    ExecutionPartialValid();
    ExecutionFailedValid();
    ExecutionTimedOutValid();
    ExecutionInterruptedValid();
    ExecutionOutputLimitValid();
    ExecutionAmbiguousValid();
  }

  /** Codes short enough to be prefixed. */
  predicate ShortCode(code: Bytes) { code == [] || (ValidCode(code) && |code| <= MAXIMUM_CODE_BYTES - 7) }

  lemma FailureCodeValid(code: Bytes)
    requires ShortCode(code)
    ensures ValidCode(BrokerFailureCode(code))
  {
    BrokerUnavailableValid();
    var prefix := Ascii("broker_");
    assert forall i :: 0 <= i < |prefix| ==> 97 <= prefix[i] <= 122 || prefix[i] == 95;
  }

  /** Evidence as the executor gathers it: distinct valid names, a finished inventory and stable codes. */
  predicate ValidEvidence(e: Evidence) {
    && ValidNames(e.names) && ValidInventory(e.inventory, false)
    && (e.failure.Some? ==> ShortCode(e.failure.value)) && (e.postChange == [] || ValidCode(e.postChange))
  }

  lemma ItemValid(r: BrokerResult, e: Evidence, name: Bytes)
    requires ValidEvidence(e)
    ensures var item := ItemFor(r, e, name); item.name == name && item.state != UnknownItem && ValidCode(item.code)
  {
    RunCodesValid();
    if e.failure.Some? {
      FailureCodeValid(e.failure.value);
    }
    hide ValidCode, Ascii, BrokerFailureCode;
  }

  lemma VerdictValid(r: BrokerResult, e: Evidence, completed: nat)
    requires ValidEvidence(e)
    ensures IsTerminal(VerdictOf(r, e, completed).0) && ValidCode(VerdictOf(r, e, completed).1)
  {
    StateCodesValid(r.outcome, completed, |e.names|);
    if e.failure.Some? {
      FailureCodeValid(e.failure.value);
    }
    hide ValidCode, Ascii, BrokerFailureCode, StateOf;
  }

  lemma ItemsValid(items: seq<ItemResult>, names: seq<Bytes>)
    requires ValidNames(names) && |items| == |names|
    requires forall i :: 0 <= i < |items| ==> items[i].name == names[i] && items[i].state != UnknownItem && ValidCode(items[i].code)
    ensures ValidItems(items) && Names(items) == names
  {
    hide ValidItemName, ValidCode;
    assert Names(items) == names;
  }

  /**
   Whatever a run does, its classification is a result that the jobs store accepts, and names exactly the
   requested certificates in their order.
   */
  lemma ClassifiedIsAccepted(r: BrokerResult, e: Evidence, result: ExecutorResult)
    requires Plain(r.stdout) && Plain(r.stderr) && ValidEvidence(e) && Classified(r, e, result)
    ensures ValidExecutorResult(result) && Names(result.items) == e.names
  {
    hide ValidCode, OutputOf, ValidOutput, Plain, ValidNames, VerdictOf, ItemFor, Completed, ValidItems, IsTerminal;
    VerdictValid(r, e, Completed(result.items));
    OutputPersists(r);
    forall i | 0 <= i < |e.names|
      ensures result.items[i].name == e.names[i] && result.items[i].state != UnknownItem && ValidCode(result.items[i].code)
    {
      ItemValid(r, e, e.names[i]);
    }
    ItemsValid(result.items, e.names);
  }

  lemma {:induction false} CompletedAll(items: seq<ItemResult>)
    ensures Completed(items) <= |items|
    ensures Completed(items) == |items| <==> forall i :: 0 <= i < |items| ==> items[i].state == ItemCompleted
    ensures Completed(items) == 0 <==> forall i :: 0 <= i < |items| ==> items[i].state != ItemCompleted
  {
    if items != [] {
      CompletedAll(items[..|items| - 1]);
    }
  }

  /**
   Success is claimed only when every certificate is completed, and a certificate is completed exactly when the
   run succeeded as a whole or its own artifact changed while that could be seen.
   */
  lemma ClassifiedMeans(r: BrokerResult, e: Evidence, result: ExecutorResult)
    requires Classified(r, e, result)
    ensures result.state == Succeeded <==> e.failure.None? && e.postChange == [] && r.outcome == RunSucceeded
    ensures result.state == Succeeded ==> forall i :: 0 <= i < |e.names| ==> result.items[i].state == ItemCompleted
    ensures result.state == Partial <==>
              && e.failure.None? && e.postChange == [] && r.outcome == RunFailed
              && (exists i :: 0 <= i < |e.names| && result.items[i].state == ItemCompleted)
              && exists i :: 0 <= i < |e.names| && result.items[i].state != ItemCompleted
    ensures forall i :: 0 <= i < |e.names| ==>
              (result.items[i].state == ItemCompleted <==>
                 if e.failure.Some? then (r.started || r.mayHaveChanged) && e.inventory.state == Refreshed && e.names[i] in e.changed
                 else r.outcome == RunSucceeded || e.names[i] in e.changed)
  {
    hide OutputOf, Ascii;
    CompletedAll(result.items);
  }

  /** The run came to an end that the broker could name, and nothing changed behind it. */
  predicate Conclusive(e: Evidence) { e.failure.None? && e.postChange == [] }

  /** The run may have touched a certificate. */
  predicate Touched(r: BrokerResult) { r.started || r.mayHaveChanged }

  /** The artifacts of some certificates changed and those of others did not. */
  predicate Mixed(e: Evidence) {
    && (exists i :: 0 <= i < |e.names| && e.names[i] in e.changed)
    && exists i :: 0 <= i < |e.names| && e.names[i] !in e.changed
  }

  /**
   Every state a result can have, by what the broker saw: a run that failed is partial when artifacts of some
   certificates changed and of others not, and what cannot be known is ambiguous, never failed.
   */
  lemma StatesMean(r: BrokerResult, e: Evidence, result: ExecutorResult)
    requires Classified(r, e, result)
    ensures result.state == Succeeded <==> Conclusive(e) && r.outcome == RunSucceeded
    ensures result.state == Partial <==> Conclusive(e) && r.outcome == RunFailed && Mixed(e)
    ensures result.state == Failed <==> Conclusive(e) && (r.outcome == RunUnknown || (r.outcome == RunFailed && !Mixed(e)))
    ensures result.state == TimedOut <==> Conclusive(e) && r.outcome == RunTimedOut
    ensures result.state == Interrupted <==> Conclusive(e) && r.outcome == RunInterrupted
    ensures result.state == NotAttempted <==> e.failure.Some? && !Touched(r)
    ensures result.state == Ambiguous <==>
              if e.failure.Some? then Touched(r)
              else e.postChange != [] || r.outcome == RunOutputLimit || r.outcome == RunAmbiguous
    ensures result.mayHaveChanged <==> r.mayHaveChanged || (e.failure.Some? && r.started)
  {
    hide OutputOf, Ascii;
    CompletedAll(result.items);
    if Conclusive(e) && r.outcome == RunFailed {
      assert forall i :: 0 <= i < |e.names| ==> (result.items[i].state == ItemCompleted <==> e.names[i] in e.changed);
    }
  }

  /**
   Every state the result of one certificate can have: it is failed only when the evidence of an otherwise conclusive run
   names it and its artifact is as before, and not attempted only when the run was.
   */
  lemma ItemStatesMean(r: BrokerResult, e: Evidence, result: ExecutorResult, i: nat)
    requires Classified(r, e, result) && i < |e.names|
    ensures result.items[i].name == e.names[i]
    ensures result.items[i].state == ItemFailed <==>
              && Conclusive(e) && r.outcome != RunSucceeded && e.names[i] !in e.changed && e.failed == Some(e.names[i])
    ensures result.items[i].state == ItemNotAttempted <==> e.failure.Some? && !Touched(r)
    ensures result.items[i].state == ItemAmbiguous <==>
              && result.items[i].state != ItemCompleted && result.items[i].state != ItemFailed
              && result.items[i].state != ItemNotAttempted
    ensures result.state == Ambiguous && result.items[i].state != ItemCompleted && !Conclusive(e) ==>
              result.items[i].code == result.code
  {
    hide OutputOf, Ascii, StateOf, BrokerFailureCode;
  }

  /** The code that goes with a state, when the run was conclusive. */
  predicate CodeOf(state: State, outcome: Outcome, code: Bytes) {
    && (state == Succeeded ==> code == Ascii("execution_succeeded"))
    && (state == Partial ==> code == Ascii("execution_partial"))
    && (state == Failed ==> code == Ascii("execution_failed"))
    && (state == TimedOut ==> code == Ascii("execution_timed_out"))
    && (state == Interrupted ==> code == Ascii("execution_interrupted"))
    && (state == Ambiguous ==>
          code == if outcome == RunOutputLimit then Ascii("execution_output_limit") else Ascii("execution_ambiguous"))
  }

  lemma StateHasCode(outcome: Outcome, completed: nat, total: nat)
    ensures CodeOf(StateOf(outcome, completed, total).0, outcome, StateOf(outcome, completed, total).1)
  {
    hide Ascii;
  }

  /** The code of the whole tells its state, or what was found behind the run, or why the broker gave up. */
  lemma CodesMean(r: BrokerResult, e: Evidence, result: ExecutorResult)
    requires Classified(r, e, result)
    ensures Conclusive(e) ==> CodeOf(result.state, r.outcome, result.code)
    ensures e.failure.None? && e.postChange != [] ==> result.code == e.postChange
    ensures e.failure.Some? ==>
              result.code == if e.failure.value == [] then Ascii("broker_unavailable") else Ascii("broker_") + e.failure.value
  {
    hide OutputOf, Ascii, Completed, ItemFor, StateOf, CodeOf;
    StateHasCode(r.outcome, Completed(result.items), |e.names|);
  }

  /** The code of one certificate tells why it has its state. */
  lemma ItemCodesMean(r: BrokerResult, e: Evidence, result: ExecutorResult, i: nat)
    requires Classified(r, e, result) && i < |e.names|
    ensures var item := result.items[i];
            && (item.state == ItemCompleted ==>
                  item.code == if e.failure.None? && r.outcome == RunSucceeded then Ascii("evaluated")
                               else Ascii("native_artifact_changed"))
            && (item.state == ItemFailed ==> item.code == Ascii("upstream_renewal_failed"))
            && (item.state == ItemNotAttempted ==> item.code == result.code)
            && (item.state == ItemAmbiguous ==>
                  item.code == if Conclusive(e) then Ascii("execution_outcome_ambiguous") else result.code)
  {
    hide OutputOf, Ascii, Completed, StateOf, BrokerFailureCode;
  }
}
