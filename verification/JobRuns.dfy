/**
 Every run of the service: any number of clients, workers and restarts, with a crash after any commit. A step is
 one transaction, the call of the executor, or the loss of what the processes had in memory.
 */
module JobRuns {
  import opened ByteStrings
  import opened JobTypes
  import opened JobStore
  import opened JobWorker

  /** The row; claims that were answered but not yet executed; and how often each id was accepted and executed. */
  datatype System = System(row: Row, claims: multiset<Bytes>, accepted: multiset<Bytes>, executed: multiset<Bytes>)

  datatype Step =
    | Accept(id: Bytes, kind: Kind, request: Request, now: Time, fate: Fate)
    | Claim(now: Time, fate: Fate)
    | Execute(id: Bytes)
    | Report(id: Bytes, phase: Phase, now: Time, fate: Fate)
    | Finish(id: Bytes, result: ExecutorResult, now: Time, fate: Fate)
    | FinishUncertain(id: Bytes, state: State, code: Bytes, now: Time, fate: Fate)
    | Interrupt(now: Time, fate: Fate)
    | Reconcile(id: Bytes, inventory: Inventory, now: Time, fate: Fate)
    | Crash

  predicate Committed(attempt: Result<Operation>, fate: Fate) {
    attempt.Ok? && (fate.Commits? || (fate.Unclear? && fate.applied))
  }

  predicate Enabled(s: System, step: Step) {
    step.Execute? ==> step.id in s.claims
  }

  function Apply(s: System, step: Step): System
    requires Enabled(s, step)
  {
    match step
    case Accept(id, kind, request, now, fate) =>
      var attempt := EnqueueTx(s.row, id, kind, request, now);
      s.(row := Settle(s.row, attempt, fate),
         accepted := if Committed(attempt, fate) then s.accepted + multiset{id} else s.accepted)
    case Claim(now, fate) =>
      var attempt := ClaimTx(s.row, now);
      s.(row := Settle(s.row, attempt, fate),
         claims := if Answer(attempt, fate).Ok? then s.claims + multiset{attempt.value.id} else s.claims)
    case Execute(id) => s.(claims := s.claims - multiset{id}, executed := s.executed + multiset{id})
    case Report(id, phase, now, fate) => s.(row := Settle(s.row, PhaseTx(s.row, id, phase, now), fate))
    case Finish(id, result, now, fate) => s.(row := Settle(s.row, CheckedFinishTx(s.row, id, result, now), fate))
    case FinishUncertain(id, state, code, now, fate) =>
      s.(row := Settle(s.row, UncertainTx(s.row, id, state, code, now), fate))
    case Interrupt(now, fate) =>
      var attempt := InterruptTx(s.row, now);
      if attempt.Ok? && attempt.value.Some? then s.(row := Settle(s.row, Ok(attempt.value.value), fate)) else s
    case Reconcile(id, inventory, now, fate) => s.(row := Settle(s.row, ReconcileTx(s.row, id, inventory, now), fate))
    case Crash => s.(claims := multiset{})
  }

  /** The states of a run, from no row at all. */
  predicate IsRun(run: seq<System>, steps: seq<Step>) {
    && |run| == |steps| + 1
    && run[0] == System(None, multiset{}, multiset{}, multiset{})
    && forall i :: 0 <= i < |steps| ==> Enabled(run[i], steps[i]) && run[i + 1] == Apply(run[i], steps[i])
  }

  // ---------- one step ----------

  /** A step leaves the row, moves its operation forward, or accepts a new one where none blocks. */
  lemma StepMoves(s: System, step: Step)
    requires Enabled(s, step)
    ensures var t := Apply(s, step);
            || (t.row == s.row && t.accepted == s.accepted)
            || (s.row.Some? && t.row.Some? && Advances(s.row.value, t.row.value) && t.accepted == s.accepted)
            || (step.Accept? && !Blocks(s.row) && t.row.Some? && t.row.value.state == Queued && t.row.value.id == step.id
                && t.row.value.request == step.request && t.accepted == s.accepted + multiset{step.id})
  {
    hide Advances, ValidOperation, EnqueueTx, ClaimTx, PhaseTx, FinishTx, InterruptTx, ReconcileTx, Blocks;
    match step
    case Accept(id, kind, request, now, _) => EnqueueAccepts(s.row, id, kind, request, now);
    case Claim(now, _) => if ClaimTx(s.row, now).Ok? { ClaimAdvances(s.row, now); ClaimHasRow(s.row, now); }
    case Execute(_) =>
    case Report(id, phase, now, _) =>
      if PhaseTx(s.row, id, phase, now).Ok? { PhaseAdvances(s.row, id, phase, now); PhaseHasRow(s.row, id, phase, now); }
    case Finish(id, result, now, _) =>
      if CheckedFinishTx(s.row, id, result, now).Ok? { FinishMoves(s.row, id, result, now, false); }
    case FinishUncertain(id, state, code, now, _) =>
      if UncertainTx(s.row, id, state, code, now).Ok? {
        FinishMoves(s.row, id, ExecutorResult(state, code, true, Inventory(Pending, [], None), [], false, []), now, true);
      }
    case Interrupt(now, _) => InterruptMoves(s.row, now);
    case Reconcile(id, inventory, now, _) =>
      if ReconcileTx(s.row, id, inventory, now).Ok? { ReconcileMoves(s.row, id, inventory, now); }
    case Crash =>
  }

  lemma ClaimHasRow(row: Row, now: Time)
    requires ClaimTx(row, now).Ok?
    ensures row.Some?
  {
  }

  lemma PhaseHasRow(row: Row, id: Bytes, phase: Phase, now: Time)
    requires PhaseTx(row, id, phase, now).Ok?
    ensures row.Some?
  {
  }

  lemma FinishMoves(row: Row, id: Bytes, r: ExecutorResult, now: Time, allowPending: bool)
    requires FinishTx(row, id, r, now, allowPending).Ok? && (!allowPending ==> ValidExecutorResult(r))
    ensures row.Some? && Advances(row.value, FinishTx(row, id, r, now, allowPending).value)
  {
    FinishAdvances(row, id, r, now, allowPending);
    hide Advances, ValidOperation, ValidItems;
  }

  lemma InterruptMoves(row: Row, now: Time)
    ensures var attempt := InterruptTx(row, now);
            attempt.Ok? && attempt.value.Some? ==> row.Some? && Advances(row.value, attempt.value.value)
  {
    hide Advances, ValidOperation;
    var attempt := InterruptTx(row, now);
    if attempt.Ok? && attempt.value.Some? {
      InterruptAdvances(row, now);
    }
  }

  lemma ReconcileMoves(row: Row, id: Bytes, inventory: Inventory, now: Time)
    requires ReconcileTx(row, id, inventory, now).Ok?
    ensures row.Some? && Advances(row.value, ReconcileTx(row, id, inventory, now).value)
  {
    ReconcileAdvances(row, id, inventory, now);
    hide Advances, ValidOperation;
  }

  // ---------- whole runs ----------

  /** How often id may still be executed without a new acceptance. */
  function Credit(s: System, id: Bytes): nat {
    s.executed[id] + s.claims[id] + if s.row.Some? && s.row.value.state == Queued && s.row.value.id == id then 1 else 0
  }

  lemma StepKeepsCredit(s: System, step: Step, id: Bytes)
    requires Enabled(s, step) && Credit(s, id) <= s.accepted[id]
    ensures var t := Apply(s, step); Credit(t, id) <= t.accepted[id]
  {
    StepMoves(s, step);
    hide ValidOperation, EnqueueTx, PhaseTx, FinishTx, InterruptTx, ReconcileTx, UncertainTx, CheckedFinishTx, Blocks;
    if step.Claim? && ClaimTx(s.row, step.now).Ok? {
      ClaimAdvances(s.row, step.now);
    }
  }

  /**
   In every run, with a crash after any commit and any number of restarts, the executor is called at most once
   for each acceptance of an operation id.
   */
  lemma {:induction false} ExecutedAtMostOnce(run: seq<System>, steps: seq<Step>, n: nat, id: Bytes)
    requires IsRun(run, steps) && n <= |steps|
    ensures run[n].executed[id] <= Credit(run[n], id) <= run[n].accepted[id]
  {
    if n > 0 {
      ExecutedAtMostOnce(run, steps, n - 1, id);
      assert run[n - 1 + 1] == Apply(run[n - 1], steps[n - 1]);
      StepKeepsCredit(run[n - 1], steps[n - 1], id);
    }
  }

  /** A request is accepted only when there is no row, or a finished one whose inventory is known. */
  lemma AcceptedOnlyWhenFree(run: seq<System>, steps: seq<Step>, n: nat)
    requires IsRun(run, steps) && n < |steps|
    ensures run[n + 1].accepted != run[n].accepted ==>
              steps[n].Accept? && !Blocks(run[n].row) && run[n + 1].accepted == run[n].accepted + multiset{steps[n].id}
  {
    hide Apply, Blocks;
    StepMoves(run[n], steps[n]);
  }

  /** Accepted requests only accumulate. */
  lemma {:induction false} AcceptedGrows(run: seq<System>, steps: seq<Step>, m: nat, n: nat)
    requires IsRun(run, steps) && m <= n <= |steps|
    ensures run[m].accepted <= run[n].accepted
    decreases n
  {
    if m < n {
      AcceptedGrows(run, steps, m, n - 1);
      hide Apply;
      assert run[n - 1 + 1] == Apply(run[n - 1], steps[n - 1]);
      StepMoves(run[n - 1], steps[n - 1]);
    }
  }

  /** What an operation was accepted with is still there, and it has not gone back. */
  predicate Onward(o: Operation, p: Operation) {
    && p.id == o.id && p.kind == o.kind && p.request == o.request && p.requestedAt == o.requestedAt
    && Progress(o) <= Progress(p)
  }

  lemma OnwardStep(o: Operation, s: System, step: Step)
    requires Enabled(s, step) && s.row.Some? && Onward(o, s.row.value) && Apply(s, step).accepted == s.accepted
    ensures Apply(s, step).row.Some? && Onward(o, Apply(s, step).row.value)
  {
    StepMoves(s, step);
    hide Apply, Progress, Blocks;
  }

  /**
   Until another request is accepted, an operation keeps everything it was accepted with and never goes back:
   a running one is never queued again, and a finished one never runs again.
   */
  lemma {:induction false} OnlyOnward(run: seq<System>, steps: seq<Step>, m: nat, n: nat)
    requires IsRun(run, steps) && m <= n <= |steps| && run[m].accepted == run[n].accepted && run[m].row.Some?
    ensures run[n].row.Some? && Onward(run[m].row.value, run[n].row.value)
    decreases n
  {
    if m < n {
      AcceptedGrows(run, steps, m, n - 1);
      AcceptedGrows(run, steps, n - 1, n);
      OnlyOnward(run, steps, m, n - 1);
      hide Apply, Onward, Enabled;
      assert run[n - 1 + 1] == Apply(run[n - 1], steps[n - 1]);
      OnwardStep(run[m].row.value, run[n - 1], steps[n - 1]);
    }
  }

  lemma NeverQueuedAgain(run: seq<System>, steps: seq<Step>, m: nat, n: nat)
    requires IsRun(run, steps) && m <= n <= |steps| && run[m].accepted == run[n].accepted
    requires run[m].row.Some? && run[m].row.value.state != Queued
    ensures run[n].row.Some? && run[n].row.value.state != Queued
    ensures run[m].row.value.state != Running ==> run[n].row.value.state != Running
  {
    hide IsRun;
    OnlyOnward(run, steps, m, n);
  }

  // ---------- the clock ----------

  function Now(step: Step, before: Time): Time {
    if step.Execute? || step.Crash? then before else step.now
  }

  /** The clock never runs back. */
  predicate ForwardClock(steps: seq<Step>, times: seq<Time>) {
    && |times| == |steps| + 1
    && forall i :: 0 <= i < |steps| ==> times[i + 1] == Now(steps[i], times[i]) && times[i] <= times[i + 1]
  }

  predicate Sound(row: Row, now: Time) {
    row.Some? ==> ValidOperation(row.value) && NotAfter(row, now)
  }

  lemma SoundLater(row: Row, now: Time, later: Time)
    requires Sound(row, now) && now <= later
    ensures Sound(row, later)
  {
    hide ValidOperation;
  }

  /** What a transaction writes is no later than its clock, if what it found was not. */
  predicate Timely(row: Row, attempt: Result<Operation>, now: Time) {
    attempt.Ok? && NotAfter(row, now) && 0 < now ==> NotAfter(Some(attempt.value), now)
  }

  lemma TransactionsTimely(row: Row, step: Step)
    ensures step.Accept? ==> Timely(row, EnqueueTx(row, step.id, step.kind, step.request, step.now), step.now)
    ensures step.Claim? ==> Timely(row, ClaimTx(row, step.now), step.now)
    ensures step.Report? ==> Timely(row, PhaseTx(row, step.id, step.phase, step.now), step.now)
    ensures step.Reconcile? ==> Timely(row, ReconcileTx(row, step.id, step.inventory, step.now), step.now)
  {
    hide ValidOperation, ValidRequest, LoadedRequest, StoredItems;
  }

  lemma FinishTimely(row: Row, id: Bytes, r: ExecutorResult, now: Time, allowPending: bool)
    ensures Timely(row, FinishTx(row, id, r, now, allowPending), now)
  {
    hide ValidOperation, ValidItems;
  }

  lemma InterruptTimely(row: Row, now: Time)
    ensures var attempt := InterruptTx(row, now);
            attempt.Ok? && attempt.value.Some? ==> Timely(row, Ok(attempt.value.value), now)
  {
    hide ValidOperation;
  }

  lemma LoadSound(row: Row, attempt: Result<Operation>, fate: Fate, now: Time)
    requires Sound(row, now) && Timely(row, attempt, now) && 0 < now
    requires attempt.Ok? ==> ValidOperation(attempt.value)
    ensures Sound(Settle(row, attempt, fate), now)
  {
    hide ValidOperation;
  }

  lemma StepKeepsSound(s: System, step: Step, before: Time)
    requires Enabled(s, step) && Sound(s.row, before) && before <= Now(step, before)
    ensures Sound(Apply(s, step).row, Now(step, before))
  {
    hide ValidOperation, EnqueueTx, ClaimTx, PhaseTx, FinishTx, InterruptTx, ReconcileTx, Sound, Timely;
    var now := Now(step, before);
    SoundLater(s.row, before, now);
    TransactionsTimely(s.row, step);
    match step
    case Accept(id, kind, request, _, fate) =>
      var attempt := EnqueueTx(s.row, id, kind, request, now);
      if attempt.Ok? {
        EnqueueAccepts(s.row, id, kind, request, now);
        LoadSound(s.row, attempt, fate, now);
      }
    case Claim(_, fate) =>
      var attempt := ClaimTx(s.row, now);
      if attempt.Ok? {
        ClaimAdvances(s.row, now);
        ClaimTime(s.row, now);
        LoadSound(s.row, attempt, fate, now);
      }
    case Execute(_) =>
    case Report(id, phase, _, fate) =>
      var attempt := PhaseTx(s.row, id, phase, now);
      if attempt.Ok? {
        PhaseHasRow(s.row, id, phase, now);
        SoundRow(s.row, now);
        PhaseTime(s.row, id, phase, now);
        PhaseKeepsValid(s.row, id, phase, now);
        LoadSound(s.row, attempt, fate, now);
      }
    case Finish(id, r, _, fate) =>
      var attempt := CheckedFinishTx(s.row, id, r, now);
      if attempt.Ok? {
        FinishSound(s.row, id, r, now, false, fate);
      }
    case FinishUncertain(id, state, code, _, fate) =>
      var attempt := UncertainTx(s.row, id, state, code, now);
      if attempt.Ok? {
        FinishSound(s.row, id, ExecutorResult(state, code, true, Inventory(Pending, [], None), [], false, []), now, true, fate);
      }
    case Interrupt(_, fate) => InterruptSound(s.row, now, fate);
    case Reconcile(id, inventory, _, fate) =>
      var attempt := ReconcileTx(s.row, id, inventory, now);
      if attempt.Ok? {
        ReconcileAdvances(s.row, id, inventory, now);
        ReconcileTime(s.row, id, inventory, now);
        LoadSound(s.row, attempt, fate, now);
      }
    case Crash =>
  }

  lemma SoundRow(row: Row, now: Time)
    requires Sound(row, now) && row.Some?
    ensures ValidOperation(row.value) && row.value.requestedAt <= now
  {
    hide ValidOperation;
  }

  lemma ClaimTime(row: Row, now: Time)
    requires ClaimTx(row, now).Ok?
    ensures 0 < now
  {
  }

  lemma PhaseTime(row: Row, id: Bytes, phase: Phase, now: Time)
    requires PhaseTx(row, id, phase, now).Ok?
    ensures 0 < now
  {
  }

  lemma ReconcileTime(row: Row, id: Bytes, inventory: Inventory, now: Time)
    requires ReconcileTx(row, id, inventory, now).Ok?
    ensures 0 < now
  {
    hide ValidOperation;
  }

  lemma FinishSound(row: Row, id: Bytes, r: ExecutorResult, now: Time, allowPending: bool, fate: Fate)
    requires Sound(row, now) && FinishTx(row, id, r, now, allowPending).Ok? && (!allowPending ==> ValidExecutorResult(r))
    ensures Sound(Settle(row, FinishTx(row, id, r, now, allowPending), fate), now)
  {
    hide ValidOperation, ValidItems, Sound, Timely, ValidExecutorResult;
    FinishTimely(row, id, r, now, allowPending);
    FinishAdvances(row, id, r, now, allowPending);
    LoadSound(row, FinishTx(row, id, r, now, allowPending), fate, now);
  }

  lemma InterruptSound(row: Row, now: Time, fate: Fate)
    requires Sound(row, now)
    ensures var attempt := InterruptTx(row, now);
            Sound(if attempt.Ok? && attempt.value.Some? then Settle(row, Ok(attempt.value.value), fate) else row, now)
  {
    hide ValidOperation, Sound, Timely;
    var attempt := InterruptTx(row, now);
    if attempt.Ok? && attempt.value.Some? {
      InterruptTimely(row, now);
      InterruptAdvances(row, now);
      LoadSound(row, Ok(attempt.value.value), fate, now);
    }
  }

  /** With a clock that never runs back, every row that is ever committed can be read back. */
  lemma {:induction false} EveryRowValid(run: seq<System>, steps: seq<Step>, times: seq<Time>, n: nat)
    requires IsRun(run, steps) && ForwardClock(steps, times) && n <= |steps|
    ensures Sound(run[n].row, times[n])
    ensures run[n].row.Some? ==> Load(run[n].row) == Ok(run[n].row.value)
  {
    hide ValidOperation;
    if n > 0 {
      EveryRowValid(run, steps, times, n - 1);
      assert run[n - 1 + 1] == Apply(run[n - 1], steps[n - 1]);
      assert times[n - 1 + 1] == Now(steps[n - 1], times[n - 1]);
      hide Apply;
      StepKeepsSound(run[n - 1], steps[n - 1], times[n - 1]);
    }
  }
}
