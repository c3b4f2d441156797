/** The worker: it runs one claimed operation to its end, whatever the executor does. */
module JobWorker {
  import opened ByteStrings
  import opened JobTypes
  import opened JobStore

  /** One phase report of the executor, the moment of its transaction, and what became of that. */
  datatype Report = Report(phase: Phase, now: Time, fate: Fate)

  /** What a call of the executor ends with. */
  datatype Outcome<T> = Panicked | Returned(value: T)

  /** The moment of a transaction and what became of it. */
  datatype Moment = Moment(now: Time, fate: Fate)

  const WORKER_RESULT_INVALID: Bytes := Ascii("worker_result_invalid")
  const WORKER_PANICKED: Bytes := Ascii("worker_panicked")
  const WORKER_PHASE_FAILED: Bytes := Ascii("worker_phase_failed")
  const INVENTORY_RECONCILIATION_FAILED: Bytes := Ascii("inventory_reconciliation_failed")

  // ---------- what the worker does, as functions of the row ----------

  datatype Reported = Reported(row: Row, phase: Phase, failure: Option<Error>)

  /** After the first failure nothing is persisted any more. */
  function ReportOne(s: Reported, id: Bytes, r: Report): Reported {
    if s.failure.Some? then s
    else if !ValidPhaseTransition(s.phase, r.phase) then s.(failure := Some(StateChanged))
    else
      var attempt := PhaseTx(s.row, id, r.phase, r.now);
      var row := Settle(s.row, attempt, r.fate);
      var answer := Answer(attempt, r.fate);
      if answer.Err? then s.(row := row, failure := Some(answer.error)) else s.(row := row, phase := r.phase)
  }

  function ReportAll(s: Reported, id: Bytes, reports: seq<Report>): Reported {
    if reports == [] then s
    else ReportOne(ReportAll(s, id, reports[..|reports| - 1]), id, reports[|reports| - 1])
  }

  /** The executor did all it promised. */
  predicate Clean(s: Reported, outcome: Outcome<ExecutorResult>) {
    outcome.Returned? && s.failure.None? && s.phase == RefreshingInventory && ValidExecutorResult(outcome.value)
  }

  function FailureCode(s: Reported, outcome: Outcome<ExecutorResult>): Bytes {
    if outcome.Panicked? then WORKER_PANICKED
    else if s.failure.Some? then WORKER_PHASE_FAILED
    else WORKER_RESULT_INVALID
  }

  function ReconciledInventory(outcome: Outcome<Inventory>): Inventory {
    if outcome.Returned? && ValidInventory(outcome.value, false) then outcome.value
    else Inventory(Unavailable, INVENTORY_RECONCILIATION_FAILED, None)
  }

  lemma FailedCodeValid()
    ensures ValidCode(INVENTORY_RECONCILIATION_FAILED)
  {
  }

  lemma ReconciledInventoryValid(outcome: Outcome<Inventory>)
    ensures ValidInventory(ReconciledInventory(outcome), false)
  {
    FailedCodeValid();
    hide ValidCode;
  }

  function ErrorOf<T>(r: Result<T>): Option<Error> {
    if r.Ok? then None else Some(r.error)
  }

  function Reconciled(row: Row, id: Bytes, outcome: Outcome<Inventory>, at: Moment): (Row, Option<Error>) {
    var attempt := ReconcileTx(row, id, ReconciledInventory(outcome), at.now);
    (Settle(row, attempt, at.fate), ErrorOf(Answer(attempt, at.fate)))
  }

  function Executed(o: Operation, reports: seq<Report>, outcome: Outcome<ExecutorResult>, end: Moment,
                     inventory: Outcome<Inventory>, last: Moment): (Row, Option<Error>) {
    var s := ReportAll(Reported(Some(o), Revalidating, None), o.id, reports);
    if Clean(s, outcome) then
      var attempt := CheckedFinishTx(s.row, o.id, outcome.value, end.now);
      (Settle(s.row, attempt, end.fate), ErrorOf(Answer(attempt, end.fate)))
    else
      var attempt := UncertainTx(s.row, o.id, Ambiguous, FailureCode(s, outcome), end.now);
      var row, answer := Settle(s.row, attempt, end.fate), Answer(attempt, end.fate);
      if answer.Err? then (row, Some(answer.error)) else Reconciled(row, answer.value.id, inventory, last)
  }

  /** The row and the interruption found, or an error. */
  function Recovered(row: Row, start: Moment, inventory: Outcome<Inventory>, last: Moment): (Row, Result<bool>) {
    var attempt := InterruptTx(row, start.now);
    var next := if attempt.Ok? && attempt.value.Some? then Settle(row, Ok(attempt.value.value), start.fate) else row;
    var answer := Answer(attempt, start.fate);
    if answer.Err? then (next, Err(answer.error))
    else
      var pending := PendingTx(next);
      if pending == Err(NotFound) then (next, Ok(answer.value.Some?))
      else if pending.Err? then (next, Err(pending.error))
      else
        var done := Reconciled(next, pending.value.id, inventory, last);
        (done.0, if done.1.Some? then Err(done.1.value) else Ok(answer.value.Some?))
  }

  // ---------- the worker loop ----------

  /** A request of some client, with the id drawn for it. */
  datatype Arrival = Arrival(id: Bytes, kind: Kind, request: Request, at: Moment)

  /** All that an execution meets: the executor's reports and outcome, the inventory read afterwards, and when. */
  datatype Work = Work(reports: seq<Report>, outcome: Outcome<ExecutorResult>, end: Moment, inventory: Outcome<Inventory>,
                       last: Moment)

  /** One round of the loop: the requests that arrive before it, and what it meets if it claims one. */
  datatype Tick = Tick(arrivals: seq<Arrival>, claim: Moment, work: Work, cancelled: bool)

  function Arrived(row: Row, arrivals: seq<Arrival>): Row
    decreases |arrivals|
  {
    if arrivals == [] then row
    else
      var a := arrivals[0];
      Arrived(Settle(row, EnqueueTx(row, a.id, a.kind, a.request, a.at.now), a.at.fate), arrivals[1..])
  }

  /** How a round of the loop ends. */
  datatype End = Goes | Stopped | Halted(error: Error)

  function Worked(o: Operation, w: Work): (Row, End) {
    var done := Executed(o, w.reports, w.outcome, w.end, w.inventory, w.last);
    (done.0, if done.1.Some? then Halted(done.1.value) else Goes)
  }

  function Round(row: Row, tick: Tick): (Row, End) {
    var found := Arrived(row, tick.arrivals);
    var attempt := ClaimTx(found, tick.claim.now);
    var answer := Answer(attempt, tick.claim.fate);
    if answer.Ok? then Worked(answer.value, tick.work)
    else
      (Settle(found, attempt, tick.claim.fate),
       if answer.error == NoQueued then Goes else if tick.cancelled then Stopped else Halted(answer.error))
  }

  /** Rounds until the worker is told to stop, or fails. */
  function Rounds(row: Row, ticks: seq<Tick>): (Row, End) {
    if ticks == [] then (row, Goes)
    else
      var init := Rounds(row, ticks[..|ticks| - 1]);
      if init.1.Goes? then Round(init.0, ticks[|ticks| - 1]) else init
  }

  lemma {:induction false} RoundsStay(row: Row, ticks: seq<Tick>, n: nat)
    requires n <= |ticks| && !Rounds(row, ticks[..n]).1.Goes?
    ensures Rounds(row, ticks) == Rounds(row, ticks[..n])
    decreases |ticks|
  {
    if n < |ticks| {
      assert ticks[..|ticks| - 1][..n] == ticks[..n];
      RoundsStay(row, ticks[..|ticks| - 1], n);
    } else {
      assert ticks[..n] == ticks;
    }
  }

  /** The whole life of a worker: it recovers first, and a failure while it is being stopped is none. */
  function Ran(row: Row, start: Moment, inventory: Outcome<Inventory>, last: Moment, stopped: bool, ticks: seq<Tick>):
    (Row, Option<Error>)
  {
    var recovered := Recovered(row, start, inventory, last);
    if recovered.1.Err? then (recovered.0, if stopped then None else Some(recovered.1.error))
    else
      var done := Rounds(recovered.0, ticks);
      (done.0, if done.1.Halted? then Some(done.1.error) else None)
  }

  class Service {
    const store: Store

    constructor (store: Store)
      ensures this.store == store
    {
      this.store := store;
    }

    method Reconcile(id: Bytes, outcome: Outcome<Inventory>, at: Moment) returns (err: Option<Error>)
      modifies store
      ensures (store.row, err) == Reconciled(old(store.row), id, outcome, at)
    {
      var inventory := Inventory(Unavailable, INVENTORY_RECONCILIATION_FAILED, None);
      if outcome.Returned? && ValidInventory(outcome.value, false) {
        inventory := outcome.value;
      }
      var done := store.CompleteReconciliation(id, inventory, at.now, at.fate);
      return ErrorOf(done);
    }

    /** Runs a claimed operation: the reports and the outcome are the executor's, in any order and of any kind. */
    method Execute(o: Operation, reports: seq<Report>, outcome: Outcome<ExecutorResult>, end: Moment,
                   inventory: Outcome<Inventory>, last: Moment) returns (err: Option<Error>)
      requires store.row == Some(o)
      modifies store
      ensures (store.row, err) == Executed(o, reports, outcome, end, inventory, last)
    {
      hide UncertainTx, CheckedFinishTx, PhaseTx, ValidExecutorResult;
      var currentPhase, phaseFailure: Option<Error> := Revalidating, None;
      ghost var s := Reported(Some(o), Revalidating, None);
      ghost var start := s;
      for i := 0 to |reports|
        invariant s == ReportAll(start, o.id, reports[..i])
        invariant s == Reported(store.row, currentPhase, phaseFailure)
      {
        var r := reports[i];
        assert reports[..i + 1][..i] == reports[..i];
        s := ReportOne(s, o.id, r);
        if phaseFailure.None? {
          if !ValidPhaseTransition(currentPhase, r.phase) {
            phaseFailure := Some(StateChanged);
          } else {
            var updated := store.UpdatePhase(o.id, r.phase, r.now, r.fate);
            if updated.Err? {
              phaseFailure := Some(updated.error);
            } else {
              currentPhase := r.phase;
            }
          }
        }
      }
      assert reports[..|reports|] == reports;
      if outcome.Panicked? || phaseFailure.Some? || currentPhase != RefreshingInventory
         || !ValidExecutorResult(outcome.value) {
        var code := WORKER_RESULT_INVALID;
        if outcome.Panicked? {
          code := WORKER_PANICKED;
        } else if phaseFailure.Some? {
          code := WORKER_PHASE_FAILED;
        }
        var uncertain := store.FinishUncertain(o.id, Ambiguous, code, end.now, end.fate);
        if uncertain.Err? {
          return Some(uncertain.error);
        }
        err := Reconcile(uncertain.value.id, inventory, last);
        return;
      }
      var finished := store.Finish(o.id, outcome.value, end.now, end.fate);
      return ErrorOf(finished);
    }

    method Recover(start: Moment, inventory: Outcome<Inventory>, last: Moment) returns (r: Result<bool>)
      modifies store
      ensures (store.row, r) == Recovered(old(store.row), start, inventory, last)
    {
      hide InterruptTx, PendingTx;
      var interrupted := store.InterruptRunning(start.now, start.fate);
      if interrupted.Err? {
        return Err(interrupted.error);
      }
      var pending := store.PendingReconciliation();
      if pending == Err(NotFound) {
        return Ok(interrupted.value.Some?);
      }
      if pending.Err? {
        return Err(pending.error);
      }
      var err := Reconcile(pending.value.id, inventory, last);
      if err.Some? {
        return Err(err.value);
      }
      return Ok(interrupted.value.Some?);
    }

    /** Accepts what arrives. */
    method Accept(arrivals: seq<Arrival>)
      modifies store
      ensures store.row == Arrived(old(store.row), arrivals)
    {
      hide EnqueueTx;
      for i := 0 to |arrivals|
        invariant Arrived(store.row, arrivals[i..]) == Arrived(old(store.row), arrivals)
      {
        var a := arrivals[i];
        assert arrivals[i..][1..] == arrivals[i + 1..];
        var _ := store.EnqueueKind(a.id, a.kind, a.request, a.at.now, a.at.fate);
      }
    }

    /** The one worker: it recovers, then claims and executes whatever is queued until it is told to stop. */
    method Run(start: Moment, inventory: Outcome<Inventory>, last: Moment, stopped: bool, ticks: seq<Tick>)
      returns (err: Option<Error>)
      modifies store
      ensures (store.row, err) == Ran(old(store.row), start, inventory, last, stopped, ticks)
    {
      hide Recovered, Executed, ClaimTx, Arrived;
      var interrupted := Recover(start, inventory, last);
      if interrupted.Err? {
        return if stopped then None else Some(interrupted.error);
      }
      ghost var row := store.row;
      for i := 0 to |ticks|
        invariant Rounds(row, ticks[..i]) == (store.row, Goes)
      {
        var tick := ticks[i];
        assert ticks[..i + 1][..i] == ticks[..i];
        Accept(tick.arrivals);
        var claimed := store.Claim(tick.claim.now, tick.claim.fate);
        if claimed.Ok? {
          var w := tick.work;
          err := Execute(claimed.value, w.reports, w.outcome, w.end, w.inventory, w.last);
          if err.Some? {
            RoundsStay(row, ticks, i + 1);
            return;
          }
        } else if claimed.error != NoQueued {
          RoundsStay(row, ticks, i + 1);
          return if tick.cancelled then None else Some(claimed.error);
        }
      }
      assert ticks[..|ticks|] == ticks;
      return None;
    }

    /** Work in progress, with a finished operation whose inventory is unknown shown as running. */
    method Status() returns (r: Result<Operation>)
      ensures r == StatusOf(store.row)
    {
      var loaded := Load(store.row);
      if loaded.Err? {
        return loaded;
      }
      var o := loaded.value;
      if IsActive(o.state) {
        return Ok(o);
      }
      if IsTerminal(o.state) && o.inventory.state == Pending {
        return Ok(Hidden(o));
      }
      return Err(NotFound);
    }

    /** A finished operation whose inventory is known. */
    method Latest() returns (r: Result<Operation>)
      ensures r == LatestOf(store.row)
    {
      var loaded := Load(store.row);
      if loaded.Err? {
        return loaded;
      }
      var o := loaded.value;
      if !IsTerminal(o.state) || o.inventory.state == Pending {
        return Err(NotFound);
      }
      return Ok(o);
    }
  }

  const NO_REQUEST := Request([], [], NO_CONTEXT, [])

  function Hidden(o: Operation): Operation {
    Operation(o.id, o.kind, Running, RefreshingInventory, o.requestedAt, o.startedAt, 0, o.updatedAt, [], false,
              Inventory(Pending, [], None), [], false, [], NO_REQUEST)
  }

  function StatusOf(row: Row): Result<Operation> {
    var loaded := Load(row);
    if loaded.Err? then loaded
    else if IsActive(loaded.value.state) then loaded
    else if loaded.value.inventory.state == Pending then Ok(Hidden(loaded.value))
    else Err(NotFound)
  }

  function LatestOf(row: Row): Result<Operation> {
    var loaded := Load(row);
    if loaded.Ok? && (!IsTerminal(loaded.value.state) || loaded.value.inventory.state == Pending) then Err(NotFound)
    else loaded
  }

  /** Of every valid row, exactly one of the two is shown, and the one in progress blocks acceptance. */
  lemma StatusOrLatest(o: Operation)
    requires ValidOperation(o)
    ensures StatusOf(Some(o)).Ok? <==> LatestOf(Some(o)) == Err(NotFound)
    ensures StatusOf(Some(o)).Ok? <==> Blocks(Some(o))
    ensures StatusOf(Some(o)).Ok? ==> IsActive(StatusOf(Some(o)).value.state) && StatusOf(Some(o)).value.items == []
  {
    hide ValidID, ValidRequest, ValidItems, ValidOutput, ValidCode;
  }

  // ---------- every executor ----------

  /** The row is still the operation that was claimed, running. */
  predicate StillRuns(row: Row, o: Operation) {
    && row.Some? && row.value.state == Running && SameOperation(row.value, o) && row.value.items == o.items
  }

  predicate SameOperation(p: Operation, o: Operation) {
    p.id == o.id && p.kind == o.kind && p.request == o.request && p.requestedAt == o.requestedAt
    && p.startedAt == o.startedAt
  }

  lemma {:induction false} ReportsKeep(o: Operation, s: Reported, reports: seq<Report>)
    requires StillRuns(s.row, o) && (s.failure.None? ==> s.row.value.phase == s.phase)
    ensures var t := ReportAll(s, o.id, reports);
            StillRuns(t.row, o) && (t.failure.None? ==> t.row.value.phase == t.phase)
  {
    if reports != [] {
      ReportsKeep(o, s, reports[..|reports| - 1]);
    }
  }

  /** A row that is done: every requested certificate has its result, in order, and the inventory is known. */
  predicate Settled(p: Operation, o: Operation) {
    && SameOperation(p, o) && IsTerminal(p.state) && ValidOperation(p)
    && Names(p.items) == o.request.items && p.inventory.state != Pending
  }

  lemma ReconciledSettles(row: Row, o: Operation, outcome: Outcome<Inventory>, at: Moment)
    requires row.Some? && SameOperation(row.value, o) && Names(row.value.items) == o.request.items
    requires Reconciled(row, row.value.id, outcome, at).1.None?
    ensures var done := Reconciled(row, row.value.id, outcome, at).0; done.Some? && Settled(done.value, o)
  {
    hide ValidOperation, ReconciledInventory;
    ReconcileAdvances(row, row.value.id, ReconciledInventory(outcome), at.now);
  }

  /**
   Whatever the executor reports, returns or panics with, an execution that ends without an error leaves the
   operation settled.
   */
  lemma ExecutedSettles(o: Operation, reports: seq<Report>, outcome: Outcome<ExecutorResult>, end: Moment,
                         inventory: Outcome<Inventory>, last: Moment)
    requires o.state == Running && o.phase == Revalidating
    requires Executed(o, reports, outcome, end, inventory, last).1.None?
    ensures var row := Executed(o, reports, outcome, end, inventory, last).0; row.Some? && Settled(row.value, o)
    ensures var row, s := Executed(o, reports, outcome, end, inventory, last).0,
                ReportAll(Reported(Some(o), Revalidating, None), o.id, reports);
            if Clean(s, outcome) then ResultOf(row.value) == outcome.value && row.value.finishedAt == end.now
            else
              && EndsUnknown(ResultOf(row.value), Ambiguous, FailureCode(s, outcome), o.request.items)
              && row.value.finishedAt == end.now && row.value.inventory == ReconciledInventory(inventory)
  {
    hide ValidOperation, ValidExecutorResult, ReportAll, FailureCode, Reconciled, FinishTx, ValidItems;
    var s := ReportAll(Reported(Some(o), Revalidating, None), o.id, reports);
    ReportsKeep(o, Reported(Some(o), Revalidating, None), reports);
    if Clean(s, outcome) {
      FinishAdvances(s.row, o.id, outcome.value, end.now, false);
      FinishRecords(s.row, o.id, outcome.value, end.now);
    } else {
      var code := FailureCode(s, outcome);
      var r := ExecutorResult(Ambiguous, code, true, Inventory(Pending, [], None), [], false, []);
      assert UncertainTx(s.row, o.id, Ambiguous, code, end.now) == FinishTx(s.row, o.id, r, end.now, true);
      FinishAdvances(s.row, o.id, r, end.now, true);
      UncertainRecords(s.row, o.id, Ambiguous, code, end.now);
      var next := Some(FinishTx(s.row, o.id, r, end.now, true).value);
      ReconciledSettles(next, o, inventory, last);
      ReconciledKeeps(next, o.id, inventory, last);
    }
  }

  /** Which of the three codes an uncertain end has. */
  lemma FailureCodes(s: Reported, outcome: Outcome<ExecutorResult>)
    ensures FailureCode(s, outcome) ==
            Ascii(if outcome.Panicked? then "worker_panicked"
                  else if s.failure.Some? then "worker_phase_failed"
                  else "worker_result_invalid")
  {
  }

  /** A valid inventory is recorded as it was read, and anything else as unavailable. */
  lemma ReconciledInventories(outcome: Outcome<Inventory>)
    ensures outcome.Returned? && ValidInventory(outcome.value, false) ==> ReconciledInventory(outcome) == outcome.value
    ensures !(outcome.Returned? && ValidInventory(outcome.value, false)) ==>
              ReconciledInventory(outcome) == Inventory(Unavailable, Ascii("inventory_reconciliation_failed"), None)
  {
    hide ValidInventory;
  }

  lemma ReconciledKeeps(row: Row, id: Bytes, outcome: Outcome<Inventory>, at: Moment)
    requires row.Some?
    ensures var done := Reconciled(row, id, outcome, at).0;
            done.Some? && done.value == row.value.(inventory := done.value.inventory, updatedAt := done.value.updatedAt)
    ensures Reconciled(row, id, outcome, at).1.None? ==>
              Reconciled(row, id, outcome, at).0.value.inventory == ReconciledInventory(outcome)
  {
    hide ValidOperation, ValidInventory, ReconciledInventory;
  }

  /**
   A recovery that succeeds leaves no running operation, and nothing pending but a queued one; it says whether
   it interrupted one.
   */
  lemma RecoveredSettles(row: Row, start: Moment, inventory: Outcome<Inventory>, last: Moment)
    requires Recovered(row, start, inventory, last).1.Ok?
    ensures var next := Recovered(row, start, inventory, last).0;
            next.Some? ==> ValidOperation(next.value) && next.value.state != Running
                           && (next.value.inventory.state == Pending ==> next.value.state == Queued)
    ensures Recovered(row, start, inventory, last).1.value <==> row.Some? && row.value.state == Running
  {
    hide ReconciledInventory, ValidID, ValidRequest, ValidItems, ValidOutput, ValidCode, FinishTx;
    var attempt := InterruptTx(row, start.now);
    if attempt.Ok? && attempt.value.Some? {
      InterruptAdvances(row, start.now);
    }
    var next := if attempt.Ok? && attempt.value.Some? then Settle(row, Ok(attempt.value.value), start.fate) else row;
    if PendingTx(next).Ok? {
      ReconcileAdvances(next, next.value.id, ReconciledInventory(inventory), last.now);
    }
  }

  /**
   What a recovery that succeeds makes of a row: a running operation is recorded as interrupted with nothing known of
   its end but the inventory read now, one with an unknown inventory gets that, and every other row is left as it is.
   */
  lemma RecoveredRecords(o: Operation, start: Moment, inventory: Outcome<Inventory>, last: Moment)
    requires Recovered(Some(o), start, inventory, last).1.Ok?
    ensures var next := Recovered(Some(o), start, inventory, last).0;
            && next.Some?
            && if o.state == Running then
                 && EndsUnknown(ResultOf(next.value), Interrupted, Ascii("service_restarted"), o.request.items)
                 && SameStart(o, next.value) && next.value.finishedAt == start.now
                 && next.value.inventory == ReconciledInventory(inventory)
               else if IsTerminal(o.state) && o.inventory.state == Pending then
                 && ResultOf(next.value) == ResultOf(o).(inventory := ReconciledInventory(inventory))
                 && SameStart(o, next.value) && next.value.finishedAt == o.finishedAt
               else next.value == o
  {
    hide ReconciledInventory, ValidID, ValidRequest, ValidItems, ValidOutput, ValidCode, FinishTx, Reconciled, EndsUnknown;
    var attempt := InterruptTx(Some(o), start.now);
    var next := if attempt.Ok? && attempt.value.Some? then Settle(Some(o), Ok(attempt.value.value), start.fate) else Some(o);
    if o.state == Running {
      InterruptAdvances(Some(o), start.now);
      InterruptRecords(Some(o), start.now);
    }
    assert next.Some?;
    ReconciledKeeps(next, next.value.id, inventory, last);
    EndStays(next.value, Reconciled(next, next.value.id, inventory, last).0.value);
  }

  lemma EndStays(o: Operation, p: Operation)
    requires p == o.(inventory := p.inventory, updatedAt := p.updatedAt)
    ensures forall state, code, names :: EndsUnknown(ResultOf(o), state, code, names) ==>
              EndsUnknown(ResultOf(p), state, code, names)
  {
  }

  // ---------- a healthy database ----------

  predicate Healthy(m: Moment, from: Time) { m.fate.Commits? && from <= m.now && ValidTime(m.now) }

  /** All reports commit, and their clock does not run back. */
  predicate HealthyReports(reports: seq<Report>, from: Time) {
    && (forall i :: 0 <= i < |reports| ==> reports[i].fate.Commits? && ValidTime(reports[i].now) && from <= reports[i].now)
    && (forall i, j :: 0 <= i < j < |reports| ==> reports[i].now <= reports[j].now)
  }

  lemma {:induction false} HealthyReporting(o: Operation, reports: seq<Report>, from: Time, to: Time)
    requires ValidOperation(o) && o.state == Running && o.phase == Revalidating && NotAfter(Some(o), from)
    requires HealthyReports(reports, from) && from <= to && forall i :: 0 <= i < |reports| ==> reports[i].now <= to
    ensures var s := ReportAll(Reported(Some(o), Revalidating, None), o.id, reports);
            && StillRuns(s.row, o) && ValidOperation(s.row.value) && NotAfter(s.row, to)
            && (s.failure.None? ==> s.row.value.phase == s.phase)
  {
    hide ValidID, ValidRequest;
    if reports != [] {
      HealthyReporting(o, reports[..|reports| - 1], from, reports[|reports| - 1].now);
    }
  }

  function Phases(reports: seq<Report>): (phases: seq<Phase>)
    ensures |phases| == |reports| && forall i :: 0 <= i < |reports| ==> phases[i] == reports[i].phase
  {
    if reports == [] then [] else Phases(reports[..|reports| - 1]) + [reports[|reports| - 1].phase]
  }

  /** The orders of phases that an executor may report. */
  predicate InPhaseOrder(phases: seq<Phase>) {
    || phases == [] || phases == [Executing] || phases == [RefreshingInventory]
    || phases == [Executing, RefreshingInventory]
  }

  lemma NoPhasesInOrder()
    ensures InPhaseOrder([])
  {
  }

  lemma InPhaseOrderUpTo(phases: seq<Phase>, phase: Phase)
    ensures InPhaseOrder(phases + [phase]) <==>
              && InPhaseOrder(phases)
              && ValidPhaseTransition(if phases == [] then Revalidating else phases[|phases| - 1], phase)
  {
    if |phases| <= 1 {
      assert phases + [phase] == if phases == [] then [phase] else [phases[0], phase];
    }
  }

  lemma HealthyReport(s: Reported, o: Operation, r: Report)
    requires StillRuns(s.row, o) && (s.failure.None? ==> s.row.value.phase == s.phase)
    requires ValidID(o.id) && ValidTime(r.now) && r.fate.Commits?
    ensures var t := ReportOne(s, o.id, r);
            && (t.failure.None? <==> s.failure.None? && ValidPhaseTransition(s.phase, r.phase))
            && (t.failure.None? ==> t.phase == r.phase)
  {
    hide ValidID;
  }

  /** With a healthy database a report fails exactly when it breaks the order of phases. */
  lemma {:induction false} HealthyPhases(o: Operation, reports: seq<Report>, from: Time, to: Time)
    requires ValidOperation(o) && o.state == Running && o.phase == Revalidating && NotAfter(Some(o), from)
    requires HealthyReports(reports, from) && from <= to && forall i :: 0 <= i < |reports| ==> reports[i].now <= to
    ensures var s := ReportAll(Reported(Some(o), Revalidating, None), o.id, reports);
            && (s.failure.None? <==> InPhaseOrder(Phases(reports)))
            && (s.failure.None? ==> s.phase == if reports == [] then Revalidating else reports[|reports| - 1].phase)
  {
    hide ValidOperation, ReportOne, InPhaseOrder, StillRuns, ValidPhaseTransition;
    if reports != [] {
      var init, r := reports[..|reports| - 1], reports[|reports| - 1];
      HealthyPhases(o, init, from, r.now);
      HealthyReporting(o, init, from, r.now);
      OperationParts(o);
      HealthyReport(ReportAll(Reported(Some(o), Revalidating, None), o.id, init), o, r);
      InPhaseOrderUpTo(Phases(init), r.phase);
    } else {
      NoPhasesInOrder();
    }
  }

  /**
   With a healthy database an execution is clean exactly when the executor returns a valid result and has reported the
   refresh of the inventory last, at most the execution before it, and nothing else.
   */
  lemma CleanIffOrderly(o: Operation, reports: seq<Report>, outcome: Outcome<ExecutorResult>, from: Time, to: Time)
    requires ValidOperation(o) && o.state == Running && o.phase == Revalidating && NotAfter(Some(o), from)
    requires HealthyReports(reports, from) && from <= to && forall i :: 0 <= i < |reports| ==> reports[i].now <= to
    ensures Clean(ReportAll(Reported(Some(o), Revalidating, None), o.id, reports), outcome) <==>
              && outcome.Returned? && ValidExecutorResult(outcome.value)
              && (Phases(reports) == [RefreshingInventory] || Phases(reports) == [Executing, RefreshingInventory])
  {
    hide ValidOperation, ValidExecutorResult, ReportAll, HealthyReports;
    HealthyPhases(o, reports, from, to);
  }

  /**
   With a healthy database, one thing alone stops the worker: an otherwise clean result that names other
   certificates than were requested.
   */
  lemma ExecutedFailsOnlyOnScope(o: Operation, reports: seq<Report>, outcome: Outcome<ExecutorResult>, end: Moment,
                                  inventory: Outcome<Inventory>, last: Moment, from: Time)
    requires ValidOperation(o) && o.state == Running && o.phase == Revalidating && NotAfter(Some(o), from)
    requires HealthyReports(reports, from) && Healthy(end, from) && Healthy(last, end.now)
    requires forall i :: 0 <= i < |reports| ==> reports[i].now <= end.now
    ensures var s := ReportAll(Reported(Some(o), Revalidating, None), o.id, reports);
            Executed(o, reports, outcome, end, inventory, last).1.None? <==>
              (Clean(s, outcome) ==> Names(outcome.value.items) == o.request.items)
  {
    hide ReportAll, ValidOperation, ValidItems, ValidOutput, ValidCode, HealthyReports, Reconciled;
    var s := ReportAll(Reported(Some(o), Revalidating, None), o.id, reports);
    HealthyReporting(o, reports, from, end.now);
    OperationParts(s.row.value);
    if Clean(s, outcome) {
      if Names(outcome.value.items) == o.request.items {
        CleanFinish(s.row.value, outcome.value, end.now);
      }
    } else {
      CodesValid();
      var code := FailureCode(s, outcome);
      UncertainFinish(s.row.value, code, end.now);
      var p := UncertainTx(s.row, o.id, Ambiguous, code, end.now).value;
      RecoveryReconciles(p, inventory, last);
    }
  }

  lemma OperationParts(o: Operation)
    requires ValidOperation(o)
    ensures ValidID(o.id) && ValidRequest(o.request)
    ensures o.state == Running ==> o.items == []
  {
  }

  lemma CleanFinish(o: Operation, r: ExecutorResult, now: Time)
    requires ValidOperation(o) && o.state == Running && ValidTime(now) && NotAfter(Some(o), now)
    requires ValidExecutorResult(r) && Names(r.items) == o.request.items
    ensures CheckedFinishTx(Some(o), o.id, r, now).Ok?
  {
    hide ValidOperation, ValidItems, ValidOutput, ValidCode;
    OperationParts(o);
    FinishSucceeds(o, r, r.items, now);
  }

  lemma UncertainFinish(o: Operation, code: Bytes, now: Time)
    requires ValidOperation(o) && o.state == Running && ValidTime(now) && NotAfter(Some(o), now) && ValidCode(code)
    ensures var attempt := UncertainTx(Some(o), o.id, Ambiguous, code, now);
            && attempt.Ok? && ValidOperation(attempt.value) && NotAfter(Some(attempt.value), now)
            && attempt.value.state == Ambiguous && attempt.value.inventory.state == Pending && attempt.value.id == o.id
  {
    hide ValidOperation, ValidItems, ValidOutput, ValidCode;
    OperationParts(o);
    RequestNames(o.request);
    UncertainItemsValid(o.request.items, code);
    EmptyOutput();
    NoItems();
    var r := ExecutorResult(Ambiguous, code, true, Inventory(Pending, [], None), [], false, []);
    FinishSucceeds(o, r, Uncertain(o.request.items, code), now);
  }

  lemma NoItems()
    ensures ValidItems([])
  {
  }

  // ---------- a healthy life ----------

  predicate HealthyWork(w: Work, from: Time) {
    && HealthyReports(w.reports, from) && Healthy(w.end, from) && Healthy(w.last, w.end.now)
    && forall i :: 0 <= i < |w.reports| ==> w.reports[i].now <= w.end.now
  }

  /** The work is not a clean result that names other certificates than were requested. */
  predicate InScope(o: Operation, w: Work) {
    var s := ReportAll(Reported(Some(o), Revalidating, None), o.id, w.reports);
    Clean(s, w.outcome) ==> Names(w.outcome.value.items) == o.request.items
  }

  lemma {:induction false} NoneArrives(row: Row, arrivals: seq<Arrival>)
    requires Blocks(row)
    ensures Arrived(row, arrivals) == row
    decreases |arrivals|
  {
    hide Blocks, ValidID, ValidRequest;
    if arrivals != [] {
      var a := arrivals[0];
      EnqueueAccepts(row, a.id, a.kind, a.request, a.at.now);
      NoneArrives(row, arrivals[1..]);
    }
  }

  function Claimed(o: Operation, now: Time): Operation {
    o.(state := Running, phase := Revalidating, startedAt := now, updatedAt := now)
  }

  /**
   With a healthy database a queued operation, whatever arrives meanwhile, is claimed in the next round and settled in
   it; the worker goes on unless the result was out of scope.
   */
  lemma QueuedIsSettled(o: Operation, tick: Tick)
    requires ValidOperation(o) && o.state == Queued && NotAfter(Some(o), tick.claim.now)
    requires Healthy(tick.claim, tick.claim.now) && HealthyWork(tick.work, tick.claim.now)
    ensures Round(Some(o), tick).1.Goes? <==> InScope(Claimed(o, tick.claim.now), tick.work)
    ensures Round(Some(o), tick).1.Goes? ==>
              Round(Some(o), tick).0.Some? && Settled(Round(Some(o), tick).0.value, Claimed(o, tick.claim.now))
  {
    hide ValidOperation, Executed, ReportAll, HealthyReports, Clean, Settled;
    NoneArrives(Some(o), tick.arrivals);
    ClaimSucceeds(o, tick.claim.now);
    var c, w := Claimed(o, tick.claim.now), tick.work;
    assert ClaimTx(Some(o), tick.claim.now) == Ok(c) && ValidOperation(c);
    ExecutedFailsOnlyOnScope(c, w.reports, w.outcome, w.end, w.inventory, w.last, tick.claim.now);
    if Executed(c, w.reports, w.outcome, w.end, w.inventory, w.last).1.None? {
      ExecutedSettles(c, w.reports, w.outcome, w.end, w.inventory, w.last);
    }
  }

  /** With a healthy database a recovery fails on nothing but a row, not running, that no read accepts. */
  lemma HealthyRecovery(row: Row, start: Moment, inventory: Outcome<Inventory>, last: Moment)
    requires Healthy(start, start.now) && Healthy(last, start.now) && NotAfter(row, start.now)
    ensures row.None? || ValidOperation(row.value) ==> Recovered(row, start, inventory, last).1.Ok?
    ensures row.Some? && !ValidOperation(row.value) && row.value.state != Running ==>
              Recovered(row, start, inventory, last).1 == Err(Invalid)
  {
    hide ValidOperation, Reconciled, ReconciledInventory;
    if row.Some? && ValidOperation(row.value) {
      if row.value.state == Running {
        InterruptSucceeds(row.value, start.now);
        InterruptAdvances(row, start.now);
        var o := InterruptTx(row, start.now).value.value;
        RecoveryReconciles(o, inventory, last);
      } else if row.value.inventory.state == Pending && (row.value.state == Interrupted || row.value.state == Ambiguous) {
        RecoveryReconciles(row.value, inventory, last);
      }
    }
  }

  lemma RecoveryReconciles(o: Operation, outcome: Outcome<Inventory>, at: Moment)
    requires ValidOperation(o) && (o.state == Interrupted || o.state == Ambiguous) && o.inventory.state == Pending
    requires at.fate.Commits? && ValidTime(at.now) && NotAfter(Some(o), at.now)
    ensures Reconciled(Some(o), o.id, outcome, at).1.None?
  {
    hide ValidOperation, ReconciledInventory;
    ReconciledInventoryValid(outcome);
    ReconcileSucceeds(o, ReconciledInventory(outcome), at.now);
  }

  lemma CodesValid()
    ensures ValidCode(WORKER_PANICKED) && ValidCode(WORKER_PHASE_FAILED) && ValidCode(WORKER_RESULT_INVALID)
  {
  }
}
