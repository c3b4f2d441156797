/** The durable store: each transaction is one atomic step on the singleton row. */
module JobStore {
  import opened ByteStrings
  import opened JobTypes

  /** The row, or none. The rows of its items live and die with it. */
  type Row = Option<Operation>

  const SERVICE_RESTARTED: Bytes := Ascii("service_restarted")

  // ---------- transactions, up to their commit ----------

  /** Reading the operation inside a transaction. */
  function Load(row: Row): Result<Operation> {
    if row.None? then Err(NotFound)
    else if ValidOperation(row.value) then Ok(row.value)
    else Err(Invalid)
  }

  function Fresh(id: Bytes, kind: Kind, request: Request, now: Time): Operation {
    Operation(id, kind, Queued, PhaseQueued, now, 0, 0, now, [], false, Inventory(Pending, [], None), [], false, [],
              LoadedRequest(request.evidence, request.context, StoredItems(request)))
  }

  /** A row that blocks acceptance. */
  predicate Blocks(row: Row) {
    row.Some? && (IsActive(row.value.state) || row.value.inventory.state == Pending)
  }

  function EnqueueTx(row: Row, id: Bytes, kind: Kind, request: Request, now: Time): Result<Operation> {
    if !ValidID(id) || kind == UnknownKind || !ValidRequest(request) || !ValidTime(now) then Err(Invalid)
    else if Blocks(row) then Err(Active)
    else Load(Some(Fresh(id, kind, request, now)))
  }

  function ClaimTx(row: Row, now: Time): Result<Operation> {
    if !ValidTime(now) then Err(Invalid)
    else if row.None? || row.value.state != Queued then Err(NoQueued)
    else if row.value.phase != PhaseQueued then Err(StateChanged)
    else Load(Some(row.value.(state := Running, phase := Revalidating, startedAt := now, updatedAt := now)))
  }

  /** The one transaction that does not read its result back. */
  function PhaseTx(row: Row, id: Bytes, phase: Phase, now: Time): Result<Operation> {
    if !ValidID(id) || !ValidTime(now) then Err(Invalid)
    else if row.None? || row.value.id != id then Err(StateChanged)
    else if row.value.state != Running || !ValidPhaseTransition(row.value.phase, phase) then Err(StateChanged)
    else Ok(row.value.(phase := phase, updatedAt := now))
  }

  function Uncertain(names: seq<Bytes>, code: Bytes): seq<ItemResult> {
    seq(|names|, i requires 0 <= i < |names| => ItemResult(names[i], ItemAmbiguous, code))
  }

  /** A row that records r; nothing of r has been checked here. */
  function Finished(o: Operation, r: ExecutorResult, items: seq<ItemResult>, now: Time): Operation {
    o.(state := r.state, phase := NoPhase, finishedAt := now, updatedAt := now, code := r.code,
       mayHaveChanged := r.mayHaveChanged, inventory := r.inventory, output := r.output,
       outputTruncated := r.outputTruncated, items := o.items + items)
  }

  function FinishTx(row: Row, id: Bytes, r: ExecutorResult, now: Time, allowPending: bool): Result<Operation> {
    if !ValidID(id) || !ValidTime(now) then Err(Invalid)
    else if allowPending && !(IsTerminal(r.state) && ValidCode(r.code) && ValidInventory(r.inventory, true)
                              && ValidOutput(r.output) && ValidItems(r.items)) then Err(Invalid)
    else if row.None? || row.value.id != id || row.value.state != Running then Err(StateChanged)
    else
      var requested := row.value.request.items;
      var items := if allowPending && r.items == [] then Uncertain(requested, r.code) else r.items;
      if Names(items) != requested then Err(Invalid)
      else Load(Some(Finished(row.value, r, items, now)))
  }

  function CheckedFinishTx(row: Row, id: Bytes, r: ExecutorResult, now: Time): Result<Operation> {
    if !ValidExecutorResult(r) then Err(Invalid) else FinishTx(row, id, r, now, false)
  }

  function UncertainTx(row: Row, id: Bytes, state: State, code: Bytes, now: Time): Result<Operation> {
    if state != Interrupted && state != Ambiguous then Err(Invalid)
    else FinishTx(row, id, ExecutorResult(state, code, true, Inventory(Pending, [], None), [], false, []), now, true)
  }

  /** A running row becomes an interrupted one; any other is left alone. */
  function InterruptTx(row: Row, now: Time): Result<Option<Operation>> {
    if !ValidTime(now) then Err(Invalid)
    else if row.None? || row.value.state != Running then Ok(None)
    else
      var o := row.value;
      var r := ExecutorResult(Interrupted, SERVICE_RESTARTED, true, Inventory(Pending, [], None), [], false, []);
      var loaded := Load(Some(Finished(o, r, Uncertain(o.request.items, SERVICE_RESTARTED), now)));
      if loaded.Err? then Err(loaded.error) else Ok(Some(loaded.value))
  }

  function ReconcileTx(row: Row, id: Bytes, inventory: Inventory, now: Time): Result<Operation> {
    if !ValidID(id) || !ValidInventory(inventory, false) || !ValidTime(now) then Err(Invalid)
    else if row.None? || row.value.id != id then Err(StateChanged)
    else if (row.value.state != Interrupted && row.value.state != Ambiguous) || row.value.inventory.state != Pending
    then Err(StateChanged)
    else Load(Some(row.value.(inventory := inventory, updatedAt := now)))
  }

  // ---------- what the database makes of them ----------

  /** A transaction commits, fails without effect, or fails with its commit applied or not. */
  datatype Fate = Commits | Fails | Unclear(applied: bool)

  function Settle(row: Row, attempt: Result<Operation>, fate: Fate): Row {
    if attempt.Ok? && (fate.Commits? || (fate.Unclear? && fate.applied)) then Some(attempt.value) else row
  }

  function Answer<T>(attempt: Result<T>, fate: Fate): Result<T> {
    if fate.Commits? then attempt
    else if fate.Unclear? && attempt.Err? then attempt
    else Err(Database)
  }

  /** Every requested item, with the code of an uncertain end. */
  method AllUncertain(names: seq<Bytes>, code: Bytes) returns (items: seq<ItemResult>)
    ensures items == Uncertain(names, code)
  {
    items := [];
    for i := 0 to |names|
      invariant items == Uncertain(names[..i], code)
    {
      items := items + [ItemResult(names[i], ItemAmbiguous, code)];
    }
    assert names[..|names|] == names;
  }

  /** Results for exactly the requested items, in their order. */
  method ValidateResultScope(requested: seq<Bytes>, results: seq<ItemResult>) returns (ok: bool)
    ensures ok <==> Names(results) == requested
  {
    if |requested| != |results| {
      return false;
    }
    for i := 0 to |requested|
      invariant forall j :: 0 <= j < i ==> results[j].name == requested[j]
    {
      if results[i].name != requested[i] {
        assert Names(results)[i] != requested[i];
        return false;
      }
    }
    return true;
  }

  class Store {
    var row: Row

    constructor (row: Row)
      ensures this.row == row
    {
      this.row := row;
    }

    /** Ends a transaction. */
    method Commit(attempt: Result<Operation>, fate: Fate) returns (r: Result<Operation>)
      modifies this
      ensures row == Settle(old(row), attempt, fate) && r == Answer(attempt, fate)
    {
      match fate {
        case Commits =>
          if attempt.Ok? {
            row := Some(attempt.value);
          }
          return attempt;
        case Fails =>
          return Err(Database);
        case Unclear(applied) =>
          if attempt.Err? {
            return attempt;
          }
          if applied {
            row := Some(attempt.value);
          }
          return Err(Database);
      }
    }

    method EnqueueKind(id: Bytes, kind: Kind, request: Request, now: Time, fate: Fate) returns (r: Result<Operation>)
      modifies this
      ensures var attempt := EnqueueTx(old(row), id, kind, request, now);
              row == Settle(old(row), attempt, fate) && r == Answer(attempt, fate)
    {
      hide Load, ValidID, LoadedRequest, StoredItems;
      if !ValidID(id) || kind == UnknownKind {
        r := Commit(Err(Invalid), fate);
        return;
      }
      var valid := ValidateRequest(request);
      if !valid || !ValidTime(now) {
        r := Commit(Err(Invalid), fate);
        return;
      }
      var current := row;
      if current.Some? && (IsActive(current.value.state) || current.value.inventory.state == Pending) {
        r := Commit(Err(Active), fate);
        return;
      }
      r := Commit(Load(Some(Fresh(id, kind, request, now))), fate);
    }

    method Claim(now: Time, fate: Fate) returns (r: Result<Operation>)
      modifies this
      ensures row == Settle(old(row), ClaimTx(old(row), now), fate) && r == Answer(ClaimTx(old(row), now), fate)
    {
      hide ValidOperation;
      if !ValidTime(now) {
        r := Commit(Err(Invalid), fate);
        return;
      }
      if row.None? || row.value.state != Queued {
        r := Commit(Err(NoQueued), fate);
        return;
      }
      if row.value.phase != PhaseQueued {
        r := Commit(Err(StateChanged), fate);
        return;
      }
      var claimed := row.value.(state := Running, phase := Revalidating, startedAt := now, updatedAt := now);
      r := Commit(Load(Some(claimed)), fate);
    }

    method UpdatePhase(id: Bytes, phase: Phase, now: Time, fate: Fate) returns (r: Result<Operation>)
      modifies this
      ensures var attempt := PhaseTx(old(row), id, phase, now);
              row == Settle(old(row), attempt, fate) && r == Answer(attempt, fate)
    {
      if !ValidID(id) || !ValidTime(now) {
        r := Commit(Err(Invalid), fate);
        return;
      }
      if row.None? || row.value.id != id {
        r := Commit(Err(StateChanged), fate);
        return;
      }
      if row.value.state != Running || !ValidPhaseTransition(row.value.phase, phase) {
        r := Commit(Err(StateChanged), fate);
        return;
      }
      r := Commit(Ok(row.value.(phase := phase, updatedAt := now)), fate);
    }

    method Finish(id: Bytes, result: ExecutorResult, now: Time, fate: Fate) returns (r: Result<Operation>)
      modifies this
      ensures var attempt := CheckedFinishTx(old(row), id, result, now);
              row == Settle(old(row), attempt, fate) && r == Answer(attempt, fate)
    {
      hide FinishTx, ValidCode, ValidOutput, ValidItems;
      var items := ValidateItems(result.items);
      if !IsTerminal(result.state) || !ValidCode(result.code) || !ValidInventory(result.inventory, false)
         || !ValidOutput(result.output) || !items {
        r := Commit(Err(Invalid), fate);
        return;
      }
      r := FinishOperation(id, result, now, false, fate);
    }

    method FinishUncertain(id: Bytes, state: State, code: Bytes, now: Time, fate: Fate) returns (r: Result<Operation>)
      modifies this
      ensures var attempt := UncertainTx(old(row), id, state, code, now);
              row == Settle(old(row), attempt, fate) && r == Answer(attempt, fate)
    {
      hide FinishTx;
      if state != Interrupted && state != Ambiguous {
        r := Commit(Err(Invalid), fate);
        return;
      }
      var result := ExecutorResult(state, code, true, Inventory(Pending, [], None), [], false, []);
      r := FinishOperation(id, result, now, true, fate);
    }

    /** Records a result that covers the requested items; an uncertain one without items is given them. */
    method FinishOperation(id: Bytes, result: ExecutorResult, now: Time, allowPending: bool, fate: Fate)
      returns (r: Result<Operation>)
      modifies this
      ensures var attempt := FinishTx(old(row), id, result, now, allowPending);
              row == Settle(old(row), attempt, fate) && r == Answer(attempt, fate)
    {
      hide ValidOperation, ValidCode, ValidOutput, ValidItems, ValidInventory;
      if !ValidID(id) || !ValidTime(now) {
        r := Commit(Err(Invalid), fate);
        return;
      }
      if allowPending {
        var valid := ValidateItems(result.items);
        if !IsTerminal(result.state) || !ValidCode(result.code) || !ValidInventory(result.inventory, true)
           || !ValidOutput(result.output) || !valid {
          r := Commit(Err(Invalid), fate);
          return;
        }
      }
      if row.None? || row.value.id != id || row.value.state != Running {
        r := Commit(Err(StateChanged), fate);
        return;
      }
      var requested := row.value.request.items;
      var items := result.items;
      if allowPending && |items| == 0 {
        items := AllUncertain(requested, result.code);
      }
      var covered := ValidateResultScope(requested, items);
      if !covered {
        r := Commit(Err(Invalid), fate);
        return;
      }
      r := Commit(Load(Some(Finished(row.value, result, items, now))), fate);
    }

    method InterruptRunning(now: Time, fate: Fate) returns (r: Result<Option<Operation>>)
      modifies this
      ensures var attempt := InterruptTx(old(row), now);
              && r == Answer(attempt, fate)
              && row == if attempt.Ok? && attempt.value.Some? then Settle(old(row), Ok(attempt.value.value), fate)
                        else old(row)
    {
      hide ValidOperation;
      if !ValidTime(now) {
        return Answer(Err(Invalid), fate);
      }
      if row.None? || row.value.state != Running {
        return Answer(Ok(None), fate);
      }
      var items := AllUncertain(row.value.request.items, SERVICE_RESTARTED);
      var result := ExecutorResult(Interrupted, SERVICE_RESTARTED, true, Inventory(Pending, [], None), [], false, []);
      var done := Commit(Load(Some(Finished(row.value, result, items, now))), fate);
      return if done.Ok? then Ok(Some(done.value)) else Err(done.error);
    }

    method PendingReconciliation() returns (r: Result<Operation>)
      ensures r == PendingTx(row)
    {
      var loaded := Load(row);
      if loaded.Err? {
        return loaded;
      }
      var o := loaded.value;
      if o.inventory.state != Pending || (o.state != Interrupted && o.state != Ambiguous) {
        return Err(NotFound);
      }
      return loaded;
    }

    method CompleteReconciliation(id: Bytes, inventory: Inventory, now: Time, fate: Fate) returns (r: Result<Operation>)
      modifies this
      ensures var attempt := ReconcileTx(old(row), id, inventory, now);
              row == Settle(old(row), attempt, fate) && r == Answer(attempt, fate)
    {
      hide ValidOperation;
      if !ValidID(id) || !ValidInventory(inventory, false) || !ValidTime(now) {
        r := Commit(Err(Invalid), fate);
        return;
      }
      if row.None? || row.value.id != id || (row.value.state != Interrupted && row.value.state != Ambiguous)
         || row.value.inventory.state != Pending {
        r := Commit(Err(StateChanged), fate);
        return;
      }
      r := Commit(Load(Some(row.value.(inventory := inventory, updatedAt := now))), fate);
    }
  }

  /** The operation whose inventory is still to be reconciled. */
  function PendingTx(row: Row): Result<Operation> {
    var loaded := Load(row);
    if loaded.Ok? && !(loaded.value.inventory.state == Pending
                       && (loaded.value.state == Interrupted || loaded.value.state == Ambiguous))
    then Err(NotFound)
    else loaded
  }

  // ---------- what transactions keep ----------

  /** Where an operation stands: 0 queued, 1 to 3 running, 4 finished, 5 finished with its inventory known. */
  function Progress(o: Operation): nat {
    match o.state
    case Queued => 0
    case Running => if o.phase == Executing then 2 else if o.phase == RefreshingInventory then 3 else 1
    case _ => if o.inventory.state == Pending then 4 else 5
  }

  /** One step of an accepted operation: everything it was accepted with stays, and it only moves forward. */
  predicate Advances(o: Operation, p: Operation) {
    && p.id == o.id && p.kind == o.kind && p.request == o.request && p.requestedAt == o.requestedAt
    && Progress(o) < Progress(p)
    && p.state != Queued
    && (p.state == Running ==> o.state == Queued || o.state == Running)
    && (o.state == Running ==> p.startedAt == o.startedAt)
    && (IsTerminal(o.state) ==> p == o.(inventory := p.inventory, updatedAt := p.updatedAt))
  }

  lemma ClaimAdvances(row: Row, now: Time)
    requires ClaimTx(row, now).Ok?
    ensures Advances(row.value, ClaimTx(row, now).value) && row.value.state == Queued
    ensures ValidOperation(ClaimTx(row, now).value)
  {
    hide ValidOperation;
  }

  lemma PhaseAdvances(row: Row, id: Bytes, phase: Phase, now: Time)
    requires PhaseTx(row, id, phase, now).Ok?
    ensures Advances(row.value, PhaseTx(row, id, phase, now).value) && row.value.state == Running
  {
  }

  lemma FinishAdvances(row: Row, id: Bytes, r: ExecutorResult, now: Time, allowPending: bool)
    requires FinishTx(row, id, r, now, allowPending).Ok? && (!allowPending ==> ValidExecutorResult(r))
    ensures var o := FinishTx(row, id, r, now, allowPending).value;
            && Advances(row.value, o) && row.value.state == Running && IsTerminal(o.state) && ValidOperation(o)
            && Names(o.items) == o.request.items && (o.inventory.state == Pending ==> allowPending)
  {
    hide ValidID, ValidRequest, ValidItems, ValidOutput, ValidCode;
  }

  lemma InterruptAdvances(row: Row, now: Time)
    requires InterruptTx(row, now).Ok? && InterruptTx(row, now).value.Some?
    ensures var o := InterruptTx(row, now).value.value;
            && Advances(row.value, o) && row.value.state == Running && o.state == Interrupted && ValidOperation(o)
            && o.inventory.state == Pending
  {
    hide ValidOperation;
  }

  lemma ReconcileAdvances(row: Row, id: Bytes, inventory: Inventory, now: Time)
    requires ReconcileTx(row, id, inventory, now).Ok?
    ensures var o := ReconcileTx(row, id, inventory, now).value;
            Advances(row.value, o) && IsTerminal(row.value.state) && ValidOperation(o) && o.inventory.state != Pending
  {
    hide ValidOperation;
  }

  /** The result that a finished row holds. */
  function ResultOf(o: Operation): ExecutorResult {
    ExecutorResult(o.state, o.code, o.mayHaveChanged, o.inventory, o.output, o.outputTruncated, o.items)
  }

  /** The same operation, accepted and started when it was. */
  predicate SameStart(o: Operation, p: Operation) {
    p.id == o.id && p.kind == o.kind && p.request == o.request && p.requestedAt == o.requestedAt && p.startedAt == o.startedAt
  }

  /** Nothing is known of the end: not what changed, nor of any requested certificate. */
  predicate EndsUnknown(r: ExecutorResult, state: State, code: Bytes, names: seq<Bytes>) {
    && r.state == state && r.code == code && r.mayHaveChanged
    && r.output == [] && !r.outputTruncated
    && |r.items| == |names| && forall i :: 0 <= i < |names| ==> r.items[i] == ItemResult(names[i], ItemAmbiguous, code)
  }

  /** A result that is recorded is recorded as it is, in every field. */
  lemma FinishRecords(row: Row, id: Bytes, r: ExecutorResult, now: Time)
    requires CheckedFinishTx(row, id, r, now).Ok?
    ensures var o := CheckedFinishTx(row, id, r, now).value;
            ResultOf(o) == r && SameStart(row.value, o) && o.phase == NoPhase && o.finishedAt == o.updatedAt == now
  {
    hide ValidID, ValidRequest, ValidItems, ValidOutput, ValidCode, ValidInventory;
    var o := CheckedFinishTx(row, id, r, now).value;
    NamesLength(o.items);
    NamesLength(r.items);
    assert row.value.items == [];
    assert [] + r.items == r.items;
  }

  lemma NamesLength(items: seq<ItemResult>)
    ensures |Names(items)| == |items|
  {
  }

  /** An uncertain end claims nothing: every requested certificate is ambiguous, and the inventory is unknown. */
  lemma UncertainRecords(row: Row, id: Bytes, state: State, code: Bytes, now: Time)
    requires UncertainTx(row, id, state, code, now).Ok?
    ensures var o := UncertainTx(row, id, state, code, now).value;
            && EndsUnknown(ResultOf(o), state, code, o.request.items) && o.inventory == Inventory(Pending, [], None)
            && SameStart(row.value, o) && o.phase == NoPhase && o.finishedAt == o.updatedAt == now
  {
    hide ValidID, ValidRequest, ValidItems, ValidOutput, ValidCode, ValidInventory;
    var o := UncertainTx(row, id, state, code, now).value;
    NamesLength(o.items);
    assert row.value.items == [];
    assert [] + Uncertain(o.request.items, code) == Uncertain(o.request.items, code);
  }

  /** So does an interruption found at the next start. */
  lemma InterruptRecords(row: Row, now: Time)
    requires InterruptTx(row, now).Ok? && InterruptTx(row, now).value.Some?
    ensures var o := InterruptTx(row, now).value.value;
            && EndsUnknown(ResultOf(o), Interrupted, Ascii("service_restarted"), o.request.items)
            && o.inventory == Inventory(Pending, [], None)
            && SameStart(row.value, o) && o.phase == NoPhase && o.finishedAt == o.updatedAt == now
  {
    hide ValidID, ValidRequest, ValidItems, ValidOutput, ValidCode, ValidInventory;
    var o := InterruptTx(row, now).value.value;
    NamesLength(o.items);
    assert row.value.items == [];
    assert [] + Uncertain(o.request.items, SERVICE_RESTARTED) == Uncertain(o.request.items, SERVICE_RESTARTED);
  }

  /** A reconciliation records the inventory it is given, and changes nothing else of the result. */
  lemma ReconcileRecords(row: Row, id: Bytes, inventory: Inventory, now: Time)
    requires ReconcileTx(row, id, inventory, now).Ok?
    ensures var o := ReconcileTx(row, id, inventory, now).value;
            && ResultOf(o) == ResultOf(row.value).(inventory := inventory)
            && SameStart(row.value, o) && o.finishedAt == row.value.finishedAt && o.updatedAt == now
  {
    hide ValidOperation, ValidInventory;
  }

  /** A claim starts the operation at its moment, in the first phase. */
  lemma ClaimRecords(row: Row, now: Time)
    requires ClaimTx(row, now).Ok?
    ensures var o := ClaimTx(row, now).value;
            && o.state == Running && o.phase == Revalidating && o.startedAt == o.updatedAt == now
            && SameStart(row.value.(startedAt := now), o)
  {
    hide ValidOperation;
  }

  /** A phase report records that phase and its moment, and nothing else. */
  lemma PhaseRecords(row: Row, id: Bytes, phase: Phase, now: Time)
    requires PhaseTx(row, id, phase, now).Ok?
    ensures var o := PhaseTx(row, id, phase, now).value;
            && o.phase == phase && o.updatedAt == now && o.state == Running
            && SameStart(row.value, o) && ResultOf(o) == ResultOf(row.value)
  {
  }

  /** Acceptance is durable and complete: the queued row is exactly the request, and nothing has happened to it. */
  lemma EnqueueAccepts(row: Row, id: Bytes, kind: Kind, request: Request, now: Time)
    ensures EnqueueTx(row, id, kind, request, now).Ok? <==>
              ValidID(id) && kind != UnknownKind && ValidRequest(request) && ValidTime(now) && !Blocks(row)
    ensures EnqueueTx(row, id, kind, request, now).Ok? ==>
              var o := EnqueueTx(row, id, kind, request, now).value;
              && o.state == Queued && o.id == id && o.kind == kind && o.request == request
              && o.requestedAt == o.updatedAt == now && o.startedAt == o.finishedAt == 0
              && o.output == [] && o.items == [] && !o.mayHaveChanged && o.inventory == Inventory(Pending, [], None)
              && ValidOperation(o)
  {
    if ValidRequest(request) {
      RequestSurvives(request);
    }
    hide ValidID, ValidRequest, LoadedRequest, StoredItems;
  }

  // ---------- the clock ----------

  /** The latest moment a row mentions. */
  predicate NotAfter(row: Row, now: Time) {
    row.Some? ==>
      row.value.requestedAt <= now && row.value.startedAt <= now && row.value.finishedAt <= now
      && row.value.updatedAt <= now
  }

  /** With a clock that is not behind the row, an update of the phase leaves a valid row. */
  lemma PhaseKeepsValid(row: Row, id: Bytes, phase: Phase, now: Time)
    requires row.Some? && ValidOperation(row.value) && PhaseTx(row, id, phase, now).Ok?
    ensures ValidOperation(PhaseTx(row, id, phase, now).value) <==> row.value.requestedAt <= now
  {
    hide ValidID, ValidRequest;
  }

  /** With such a clock, claiming a valid queued row succeeds. */
  lemma ClaimSucceeds(o: Operation, now: Time)
    requires ValidOperation(o) && o.state == Queued && ValidTime(now) && NotAfter(Some(o), now)
    ensures ClaimTx(Some(o), now).Ok?
  {
    hide ValidID, ValidRequest;
  }

  lemma UncertainItemsValid(names: seq<Bytes>, code: Bytes)
    requires ValidNames(names) && ValidCode(code)
    ensures ValidItems(Uncertain(names, code)) && Names(Uncertain(names, code)) == names
  {
    hide ValidItemName, ValidCode;
    assert Names(Uncertain(names, code)) == names;
  }

  lemma RestartCodeValid()
    ensures ValidCode(SERVICE_RESTARTED)
  {
  }

  lemma FinishSucceeds(o: Operation, r: ExecutorResult, items: seq<ItemResult>, now: Time)
    requires ValidOperation(o) && o.state == Running && ValidTime(now) && NotAfter(Some(o), now)
    requires IsTerminal(r.state) && ValidCode(r.code) && ValidOutput(r.output) && ValidItems(items)
    requires ValidInventory(r.inventory, r.state == Interrupted || r.state == Ambiguous)
    requires Names(items) == o.request.items
    ensures Load(Some(Finished(o, r, items, now))).Ok?
  {
    hide ValidID, ValidRequest, ValidItems, ValidOutput, ValidCode;
    assert [] + items == items;
  }

  /** With such a clock, interrupting a valid running row succeeds. */
  lemma InterruptSucceeds(o: Operation, now: Time)
    requires ValidOperation(o) && o.state == Running && ValidTime(now) && NotAfter(Some(o), now)
    ensures InterruptTx(Some(o), now).Ok? && InterruptTx(Some(o), now).value.Some?
  {
    hide ValidItems, ValidCode, ValidOutput;
    RestartCodeValid();
    assert ValidNames(o.request.items) by { RequestNames(o.request); }
    UncertainItemsValid(o.request.items, SERVICE_RESTARTED);
    assert ValidOutput([]) by { EmptyOutput(); }
    var r := ExecutorResult(Interrupted, SERVICE_RESTARTED, true, Inventory(Pending, [], None), [], false, []);
    FinishSucceeds(o, r, Uncertain(o.request.items, SERVICE_RESTARTED), now);
  }

  lemma RequestNames(r: Request)
    requires ValidRequest(r)
    ensures ValidNames(r.items)
  {
  }

  lemma EmptyOutput()
    ensures ValidOutput([])
  {
  }

  lemma ReconcileSucceeds(o: Operation, inventory: Inventory, now: Time)
    requires ValidOperation(o) && (o.state == Interrupted || o.state == Ambiguous) && o.inventory.state == Pending
    requires ValidTime(now) && NotAfter(Some(o), now) && ValidInventory(inventory, false)
    ensures ReconcileTx(Some(o), o.id, inventory, now).Ok?
  {
    hide ValidID, ValidRequest, ValidItems, ValidOutput, ValidCode;
  }

  /** A clock set back makes an update of the phase commit a row that no later read accepts. */
  lemma PhaseBehindClock(o: Operation, now: Time)
    requires ValidOperation(o) && o.state == Running && o.phase == Revalidating && 0 < now < o.requestedAt
    ensures PhaseTx(Some(o), o.id, Executing, now).Ok?
    ensures Load(Some(PhaseTx(Some(o), o.id, Executing, now).value)) == Err(Invalid)
  {
    hide ValidRequest;
  }
}
