/** The executor: its effects in order, whatever its surroundings answer, and what the worker makes of it. */
module OperationExecutor {
  import opened ByteStrings
  import opened BrokerOutput
  import opened JobTypes
  import opened JobStore
  import opened JobWorker
  import opened OperationResult
  import opened RenewalAttempts

  datatype Lease = Held | Busy | NoLease

  datatype Plan = NoPlan(code: Bytes) | Plan(evidence: Bytes, names: seq<Bytes>)

  datatype Reading = Reading(certificates: seq<Certificate>, inventory: Inventory)

  /** All that the surroundings answer in the course of one execution. */
  datatype Surroundings = Surroundings(lease: Lease, plan: Plan, before: Reading, confirmation: Plan,
                                       runtimeReady: bool, run: BrokerResult, failure: Option<Bytes>,
                                       after: Reading, postChange: Bytes, attempt: Attempt)

  const WORKSPACE_UNAVAILABLE: Bytes := Ascii("workspace_unavailable")
  const WORKSPACE_BUSY: Bytes := Ascii("workspace_busy")
  const REVIEWED_SOURCE_CHANGED: Bytes := Ascii("reviewed_source_changed")
  const INVENTORY_PREFLIGHT_FAILED: Bytes := Ascii("inventory_preflight_failed")
  const RUNTIME_INCOMPATIBLE: Bytes := Ascii("runtime_incompatible")
  const CONFIGURATION_INCOMPATIBLE: Bytes := Ascii("configuration_incompatible")
  const PHASE_PERSISTENCE_FAILED: Bytes := Ascii("phase_persistence_failed")

  /** Stable codes, finished inventories, plain output; and equal evidence means equal certificates. */
  predicate Orderly(s: Surroundings, request: Request) {
    && (s.plan.NoPlan? ==> ValidCode(s.plan.code)) && (s.confirmation.NoPlan? ==> ValidCode(s.confirmation.code))
    && (s.plan.Plan? && s.plan.evidence == request.evidence ==> s.plan.names == request.items)
    && ValidInventory(s.before.inventory, false) && ValidInventory(s.after.inventory, false)
    && Plain(s.run.stdout) && Plain(s.run.stderr)
    && (s.failure.Some? ==> ShortCode(s.failure.value)) && (s.postChange == [] || ValidCode(s.postChange))
  }

  /** Each certificate keeps what its artifact shows; the rest is uncertain, because the phase was not recorded. */
  function PhaseLost(r: ExecutorResult, run: BrokerResult): ExecutorResult {
    r.(state := Ambiguous, code := PHASE_PERSISTENCE_FAILED, mayHaveChanged := run.started || run.mayHaveChanged,
       items := seq(|r.items|, i requires 0 <= i < |r.items| => Unsettled(r.items[i], PHASE_PERSISTENCE_FAILED)))
  }

  /** What the executor did: the phases it reported, whether each was recorded, and how often it ran the broker. */
  datatype Trace = Trace(reports: seq<(Phase, bool)>, runs: nat, result: ExecutorResult)

  function WithoutRun(s: Surroundings, names: seq<Bytes>, code: Bytes, recorded: bool): Trace {
    var reason := if recorded then code else PHASE_PERSISTENCE_FAILED;
    var state := if reason == RUNTIME_INCOMPATIBLE || reason == CONFIGURATION_INCOMPATIBLE then Incompatible else NotAttempted;
    Trace([(RefreshingInventory, recorded)], 0,
          ExecutorResult(state, reason, false, s.after.inventory, [], false, ItemResults(names, ItemNotAttempted, reason)))
  }

  /** Nothing was tried, and no inventory was read. */
  function Untried(names: seq<Bytes>, state: State, code: Bytes): ExecutorResult {
    ExecutorResult(state, code, false, Inventory(Unavailable, code, None), [], false, ItemResults(names, ItemNotAttempted, code))
  }

  predicate RunFree(t: Trace) { t.runs == 0 && !t.result.mayHaveChanged && t.result.output == [] }

  /** The order of phases: the broker runs at most once, and only behind a recorded report of it. */
  predicate InOrder(t: Trace) {
    && t.runs <= 1
    && (|| (|t.reports| == 1 && t.reports[0].0 == RefreshingInventory && RunFree(t))
        || (|t.reports| == 1 && t.reports[0] == (Phase.Executing, false) && RunFree(t))
        || (|t.reports| == 2 && t.reports[0] == (Phase.Executing, true) && t.reports[1].0 == RefreshingInventory && t.runs == 1))
  }

  function LeaseCode(lease: Lease): Bytes { if lease == Busy then WORKSPACE_BUSY else WORKSPACE_UNAVAILABLE }

  /** The first thing found wrong under the lease, before anything is executed. */
  function FirstFault(request: Request, s: Surroundings): Option<Bytes> {
    if s.plan.NoPlan? then Some(s.plan.code)
    else if request.evidence != s.plan.evidence then Some(REVIEWED_SOURCE_CHANGED)
    else if s.before.inventory.state != Refreshed then
      Some(if s.before.inventory.code == [] then INVENTORY_PREFLIGHT_FAILED else s.before.inventory.code)
    else if s.confirmation.NoPlan? then Some(s.confirmation.code)
    else if s.confirmation.evidence != s.plan.evidence then Some(REVIEWED_SOURCE_CHANGED)
    else if !s.runtimeReady then Some(RUNTIME_INCOMPATIBLE)
    else None
  }

  /** Two readings of the configuration agree with what was reviewed, the inventory was read, the runtime is there. */
  predicate Ready(request: Request, s: Surroundings) {
    && s.lease.Held? && s.plan.Plan? && s.plan.evidence == request.evidence
    && s.confirmation.Plan? && s.confirmation.evidence == request.evidence
    && s.before.inventory.state == Refreshed && s.runtimeReady
  }

  function EvidenceOf(request: Request, s: Surroundings): Evidence {
    var changed := ChangedNames(s.before.certificates, s.after.certificates);
    Evidence(s.failure, request.items, changed, s.after.inventory, s.postChange,
             FailedRenewal(s.attempt, s.run, request.items, changed, s.after.inventory))
  }

  /** A run whose last report was lost: only the certificates whose completion is known stay completed. */
  predicate LostBehind(r: BrokerResult, e: Evidence, result: ExecutorResult) {
    && result.state == Ambiguous && result.code == PHASE_PERSISTENCE_FAILED
    && result.mayHaveChanged == (r.started || r.mayHaveChanged)
    && result.inventory == e.inventory && (result.output, result.outputTruncated) == OutputOf(r)
    && |result.items| == |e.names|
    && forall i :: 0 <= i < |e.names| ==> result.items[i] == Unsettled(ItemFor(r, e, e.names[i]), PHASE_PERSISTENCE_FAILED)
  }

  /**
   What is recorded of the two reports, should they be made, is given. The broker runs exactly when all is ready
   and the report of the execution is recorded; the result always names the requested certificates in order.
   */
  method Execute(request: Request, s: Surroundings, executingRecorded: bool, refreshingRecorded: bool) returns (t: Trace)
    requires ValidRequest(request) && Orderly(s, request)
    ensures InOrder(t)
    ensures forall i :: 0 <= i < |t.reports| ==>
              t.reports[i].1 == if t.reports[i].0 == Phase.Executing then executingRecorded else refreshingRecorded
    ensures ValidExecutorResult(t.result) && Names(t.result.items) == request.items
    ensures t.runs == 1 <==> Ready(request, s) && executingRecorded
    ensures t.runs == 1 && refreshingRecorded ==> Classified(s.run, EvidenceOf(request, s), t.result)
    ensures t.runs == 1 && !refreshingRecorded ==> LostBehind(s.run, EvidenceOf(request, s), t.result)
    ensures !s.lease.Held? ==> t.result == Untried(request.items, NotAttempted, LeaseCode(s.lease))
    ensures s.lease.Held? && FirstFault(request, s).Some? ==>
              t == WithoutRun(s, request.items, FirstFault(request, s).value, refreshingRecorded)
    ensures Ready(request, s) && !executingRecorded ==>
              t.result == Untried(request.items, Ambiguous, PHASE_PERSISTENCE_FAILED)
  {
    hide ValidRequest, ValidCode, Ascii, Orderly, ValidExecutorResult, ItemResults, OutputOf, ItemFor, VerdictOf, Completed;
    CodesStable();
    OrderlyParts(s, request);
    if !s.lease.Held? {
      var code := WORKSPACE_UNAVAILABLE;
      if s.lease.Busy? {
        code := WORKSPACE_BUSY;
      }
      t := Trace([(RefreshingInventory, refreshingRecorded)], 0,
                 ExecutorResult(NotAttempted, code, false, Inventory(Unavailable, code, None), [], false,
                                ItemResults(request.items, ItemNotAttempted, code)));
      UntriedAccepted(request, NotAttempted, code, Inventory(Unavailable, code, None), false);
      return;
    }
    if s.plan.NoPlan? {
      t := FinishWithoutRun(request, s, request.items, s.plan.code, refreshingRecorded);
      return;
    }
    var certificates := s.plan.names;
    if request.evidence != s.plan.evidence {
      t := FinishWithoutRun(request, s, request.items, REVIEWED_SOURCE_CHANGED, refreshingRecorded);
      return;
    }
    if s.before.inventory.state != Refreshed {
      var code := s.before.inventory.code;
      if |code| == 0 {
        code := INVENTORY_PREFLIGHT_FAILED;
      }
      t := FinishWithoutRun(request, s, certificates, code, refreshingRecorded);
      return;
    }
    if s.confirmation.NoPlan? {
      t := FinishWithoutRun(request, s, certificates, s.confirmation.code, refreshingRecorded);
      return;
    }
    if s.confirmation.evidence != s.plan.evidence {
      t := FinishWithoutRun(request, s, certificates, REVIEWED_SOURCE_CHANGED, refreshingRecorded);
      return;
    }
    if !s.runtimeReady {
      t := FinishWithoutRun(request, s, certificates, RUNTIME_INCOMPATIBLE, refreshingRecorded);
      return;
    }
    if !executingRecorded {
      var code := PHASE_PERSISTENCE_FAILED;
      t := Trace([(Phase.Executing, false)], 0,
                 ExecutorResult(Ambiguous, code, false, Inventory(Unavailable, code, None), [], false,
                                ItemResults(certificates, ItemNotAttempted, code)));
      UntriedAccepted(request, Ambiguous, code, Inventory(Unavailable, code, None), false);
      return;
    }
    t := RunBroker(request, s, certificates, refreshingRecorded);
  }

  /** From the broker's start on. */
  method RunBroker(request: Request, s: Surroundings, certificates: seq<Bytes>, refreshingRecorded: bool) returns (t: Trace)
    requires certificates == request.items && ValidEvidence(EvidenceOf(request, s))
    requires Plain(s.run.stdout) && Plain(s.run.stderr)
    ensures t.reports == [(Phase.Executing, true), (RefreshingInventory, refreshingRecorded)] && t.runs == 1
    ensures ValidExecutorResult(t.result) && Names(t.result.items) == request.items
    ensures refreshingRecorded ==> Classified(s.run, EvidenceOf(request, s), t.result)
    ensures !refreshingRecorded ==> LostBehind(s.run, EvidenceOf(request, s), t.result)
  {
    hide ValidEvidence, ValidCode, Ascii, ValidExecutorResult, OutputOf, ItemFor, VerdictOf, Completed;
    var changed := ChangedCertificateNames(s.before.certificates, s.after.certificates);
    var failed := FailedRenewalCertificate(s.attempt, s.run, certificates, changed, s.after.inventory);
    var evidence := Evidence(s.failure, certificates, changed, s.after.inventory, s.postChange, failed);
    var result := ClassifyExecution(s.run, evidence);
    ClassifiedIsAccepted(s.run, evidence, result);
    if !refreshingRecorded {
      PhaseLostAccepted(result, s.run, certificates);
      result := PhaseLost(result, s.run);
    }
    t := Trace([(Phase.Executing, true), (RefreshingInventory, refreshingRecorded)], 1, result);
  }

  method FinishWithoutRun(request: Request, s: Surroundings, certificates: seq<Bytes>, code: Bytes, recorded: bool)
    returns (t: Trace)
    requires ValidRequest(request) && certificates == request.items
    requires ValidInventory(s.after.inventory, false) && ValidCode(code)
    ensures t == WithoutRun(s, certificates, code, recorded)
    ensures ValidExecutorResult(t.result) && Names(t.result.items) == request.items
  {
    hide ValidRequest, ValidCode, ValidExecutorResult, ItemResults;
    CodesStable();
    var reason := code;
    if !recorded {
      reason := PHASE_PERSISTENCE_FAILED;
    }
    var state := NotAttempted;
    if reason == RUNTIME_INCOMPATIBLE || reason == CONFIGURATION_INCOMPATIBLE {
      state := Incompatible;
    }
    UntriedAccepted(request, state, reason, s.after.inventory, false);
    return Trace([(RefreshingInventory, recorded)], 0,
                 ExecutorResult(state, reason, false, s.after.inventory, [], false,
                                ItemResults(certificates, ItemNotAttempted, reason)));
  }

  lemma CodesStable()
    ensures ValidCode(WORKSPACE_UNAVAILABLE) && ValidCode(WORKSPACE_BUSY) && ValidCode(REVIEWED_SOURCE_CHANGED)
    ensures ValidCode(INVENTORY_PREFLIGHT_FAILED) && ValidCode(RUNTIME_INCOMPATIBLE) && ValidCode(PHASE_PERSISTENCE_FAILED)
  {
    LeaseCodesStable();
    PlanCodesStable();
    PhaseCodesStable();
    hide ValidCode, Ascii;
  }

  lemma LeaseCodesStable()
    ensures ValidCode(WORKSPACE_UNAVAILABLE) && ValidCode(WORKSPACE_BUSY)
  {
  }

  lemma PlanCodesStable()
    ensures ValidCode(REVIEWED_SOURCE_CHANGED) && ValidCode(INVENTORY_PREFLIGHT_FAILED)
  {
  }

  lemma PhaseCodesStable()
    ensures ValidCode(RUNTIME_INCOMPATIBLE) && ValidCode(PHASE_PERSISTENCE_FAILED)
  {
  }

  lemma OrderlyParts(s: Surroundings, request: Request)
    requires ValidRequest(request) && Orderly(s, request)
    ensures (s.plan.NoPlan? ==> ValidCode(s.plan.code)) && (s.confirmation.NoPlan? ==> ValidCode(s.confirmation.code))
    ensures s.plan.Plan? && s.plan.evidence == request.evidence ==> s.plan.names == request.items
    ensures s.before.inventory.state != Refreshed ==> ValidCode(s.before.inventory.code)
    ensures ValidInventory(s.after.inventory, false) && Plain(s.run.stdout) && Plain(s.run.stderr)
    ensures forall changed, failed ::
              ValidEvidence(Evidence(s.failure, request.items, changed, s.after.inventory, s.postChange, failed))
  {
    hide ValidCode, Plain, LowerHex, ValidContext, ValidItemName;
  }

  /** A result of certificates that were not tried. */
  lemma UntriedAccepted(request: Request, state: State, code: Bytes, inventory: Inventory, mayHaveChanged: bool)
    requires ValidRequest(request) && IsTerminal(state) && ValidCode(code) && ValidInventory(inventory, false)
    ensures var r := ExecutorResult(state, code, mayHaveChanged, inventory, [], false, ItemResults(request.items, ItemNotAttempted, code));
            ValidExecutorResult(r) && Names(r.items) == request.items
  {
    hide ValidCode, ValidItems;
    RequestNames(request);
    EmptyOutput();
    hide ValidRequest, ValidOutput, ValidNames;
    ItemsValid(ItemResults(request.items, ItemNotAttempted, code), request.items);
  }

  lemma PhaseLostAccepted(r: ExecutorResult, run: BrokerResult, names: seq<Bytes>)
    requires ValidExecutorResult(r) && Names(r.items) == names
    ensures ValidExecutorResult(PhaseLost(r, run)) && Names(PhaseLost(r, run).items) == names
  {
    hide ValidCode, ValidOutput, Ascii, ValidItemName;
    PhaseCodesStable();
    var lost := PhaseLost(r, run).items;
    assert ValidNames(names);
    forall i | 0 <= i < |lost| ensures lost[i].name == names[i] && lost[i].state != UnknownItem && ValidCode(lost[i].code) {
      assert names[i] == r.items[i].name;
    }
    ItemsValid(lost, names);
  }

  // ---------- with the worker ----------

  /** The transactions that record the reports. */
  function ReportsOf(t: Trace, now: Time): seq<Report> {
    seq(|t.reports|, i requires 0 <= i < |t.reports| => Report(t.reports[i].0, now, Commits))
  }

  /** A report that may be made is recorded, and the worker goes with it. */
  lemma Recorded(s: Reported, id: Bytes, phase: Phase, now: Time)
    requires s.failure.None? && s.row.Some? && s.row.value.id == id && s.row.value.state == Running
    requires s.row.value.phase == s.phase && ValidPhaseTransition(s.phase, phase) && ValidID(id) && ValidTime(now)
    ensures ReportOne(s, id, Report(phase, now, Commits))
         == Reported(Some(s.row.value.(phase := phase, updatedAt := now)), phase, None)
  {
    hide ValidID;
  }

  lemma ReportLast(s: Reported, id: Bytes, reports: seq<Report>, r: Report)
    ensures ReportAll(s, id, reports + [r]) == ReportOne(ReportAll(s, id, reports), id, r)
  {
    hide ReportOne;
    assert (reports + [r])[..|reports|] == reports;
  }

  /** When the database records every report, the worker finds that this executor did all it promised. */
  lemma ExecutorIsClean(o: Operation, t: Trace, now: Time)
    requires ValidOperation(o) && o.state == Running && o.phase == Revalidating && ValidTime(now)
    requires InOrder(t) && (forall i :: 0 <= i < |t.reports| ==> t.reports[i].1) && ValidExecutorResult(t.result)
    ensures Clean(ReportAll(Reported(Some(o), Revalidating, None), o.id, ReportsOf(t, now)), Returned(t.result))
  {
    hide ValidExecutorResult, ReportOne;
    OperationParts(o);
    hide ValidOperation, ValidID, ValidTime;
    var s, executing, refreshing := Reported(Some(o), Revalidating, None), Report(Phase.Executing, now, Commits),
                                    Report(RefreshingInventory, now, Commits);
    ReportLast(s, o.id, [], refreshing);
    ReportLast(s, o.id, [], executing);
    ReportLast(s, o.id, [executing], refreshing);
    Recorded(s, o.id, RefreshingInventory, now);
    Recorded(s, o.id, Phase.Executing, now);
    Recorded(ReportOne(s, o.id, executing), o.id, RefreshingInventory, now);
    assert ReportsOf(t, now) == if |t.reports| == 2 then [executing] + [refreshing] else [] + [refreshing];
  }

  /**
   With a healthy database an operation that this executor runs always ends settled: the one thing that could
   stop the worker, a result for other certificates than were requested, never happens.
   */
  lemma ExecutorNeverStopsWorker(o: Operation, t: Trace, now: Time, end: Moment, inventory: JobWorker.Outcome<Inventory>,
                                 last: Moment)
    requires ValidOperation(o) && o.state == Running && o.phase == Revalidating && NotAfter(Some(o), now)
    requires ValidTime(now) && Healthy(end, now) && Healthy(last, end.now)
    requires InOrder(t) && (forall i :: 0 <= i < |t.reports| ==> t.reports[i].1)
    requires ValidExecutorResult(t.result) && Names(t.result.items) == o.request.items
    ensures var done := Executed(o, ReportsOf(t, now), Returned(t.result), end, inventory, last);
            done.1.None? && done.0.Some? && Settled(done.0.value, o) && done.0.value.state == t.result.state
  {
    hide ValidOperation, ValidExecutorResult, InOrder, Executed, Settled, Clean, ReportAll;
    ExecutorIsClean(o, t, now);
    ExecutedFailsOnlyOnScope(o, ReportsOf(t, now), Returned(t.result), end, inventory, last, now);
    ExecutedSettles(o, ReportsOf(t, now), Returned(t.result), end, inventory, last);
  }
}
