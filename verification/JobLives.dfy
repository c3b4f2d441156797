/**
 The lives of the worker as runs of the service: every step its methods take is a step of that machine, so what
 holds in every run holds whatever a worker does and wherever a crash cuts it off.
 */
module JobLives {
  import opened ByteStrings
  import opened JobTypes
  import opened JobStore
  import opened JobWorker
  import opened JobRuns

  // ---------- taking steps ----------

  /** Each of the steps is possible when it is taken. */
  predicate Possible(s: System, steps: seq<Step>)
    decreases |steps|, 0
  {
    steps == [] || (Possible(s, steps[..|steps| - 1]) && Enabled(After(s, steps[..|steps| - 1]), steps[|steps| - 1]))
  }

  function After(s: System, steps: seq<Step>): System
    requires Possible(s, steps)
    decreases |steps|, 1
  {
    if steps == [] then s else Apply(After(s, steps[..|steps| - 1]), steps[|steps| - 1])
  }

  lemma {:induction false} Join(s: System, a: seq<Step>, b: seq<Step>)
    requires Possible(s, a) && Possible(After(s, a), b)
    ensures Possible(s, a + b) && After(s, a + b) == After(After(s, a), b)
    decreases |b|
  {
    hide Apply, Enabled;
    if b == [] {
      assert a + b == a;
    } else {
      Join(s, a, b[..|b| - 1]);
      assert (a + b)[..|a + b| - 1] == a + b[..|b| - 1];
    }
  }

  lemma One(s: System, step: Step)
    requires Enabled(s, step)
    ensures Possible(s, [step]) && After(s, [step]) == Apply(s, step)
  {
    hide Apply, Enabled;
    assert [step][..0] == [];
    assert Possible(s, []) && After(s, []) == s;
  }

  lemma Add(s: System, a: seq<Step>, step: Step)
    requires Possible(s, a) && Enabled(After(s, a), step)
    ensures Possible(s, a + [step]) && After(s, a + [step]) == Apply(After(s, a), step)
  {
    One(After(s, a), step);
    Join(s, a, [step]);
  }

  lemma {:induction false} Prefix(s: System, steps: seq<Step>, n: nat)
    requires Possible(s, steps) && n <= |steps|
    ensures Possible(s, steps[..n])
    decreases |steps|
  {
    if n < |steps| {
      assert steps[..|steps| - 1][..n] == steps[..n];
      Prefix(s, steps[..|steps| - 1], n);
    } else {
      assert steps[..n] == steps;
    }
  }

  // ---------- the steps of the worker ----------

  function ReportSteps(s: Reported, id: Bytes, reports: seq<Report>): seq<Step> {
    if reports == [] then []
    else
      var init, r := reports[..|reports| - 1], reports[|reports| - 1];
      var before := ReportAll(s, id, init);
      ReportSteps(s, id, init)
      + if before.failure.None? && ValidPhaseTransition(before.phase, r.phase) then [Step.Report(id, r.phase, r.now, r.fate)]
        else []
  }

  function EndSteps(o: Operation, w: Work): seq<Step> {
    var s := ReportAll(Reported(Some(o), Revalidating, None), o.id, w.reports);
    if Clean(s, w.outcome) then [Step.Finish(o.id, w.outcome.value, w.end.now, w.end.fate)]
    else
      var code := FailureCode(s, w.outcome);
      var answer := Answer(UncertainTx(s.row, o.id, Ambiguous, code, w.end.now), w.end.fate);
      [Step.FinishUncertain(o.id, Ambiguous, code, w.end.now, w.end.fate)]
      + if answer.Ok? then [Step.Reconcile(answer.value.id, ReconciledInventory(w.inventory), w.last.now, w.last.fate)]
        else []
  }

  function WorkSteps(o: Operation, w: Work): seq<Step> {
    [Step.Execute(o.id)] + ReportSteps(Reported(Some(o), Revalidating, None), o.id, w.reports) + EndSteps(o, w)
  }

  function AcceptSteps(arrivals: seq<Arrival>): seq<Step> {
    seq(|arrivals|, i requires 0 <= i < |arrivals| =>
      var a := arrivals[i]; Step.Accept(a.id, a.kind, a.request, a.at.now, a.at.fate))
  }

  function RoundSteps(row: Row, tick: Tick): seq<Step> {
    var answer := Answer(ClaimTx(Arrived(row, tick.arrivals), tick.claim.now), tick.claim.fate);
    AcceptSteps(tick.arrivals) + [Step.Claim(tick.claim.now, tick.claim.fate)]
    + if answer.Ok? then WorkSteps(answer.value, tick.work) else []
  }

  function RoundsSteps(row: Row, ticks: seq<Tick>): seq<Step> {
    if ticks == [] then []
    else
      var init := ticks[..|ticks| - 1];
      RoundsSteps(row, init)
      + if Rounds(row, init).1.Goes? then RoundSteps(Rounds(row, init).0, ticks[|ticks| - 1]) else []
  }

  /** The row behind the interruption of whatever still runs. */
  function Interrupted(row: Row, start: Moment): Row {
    var attempt := InterruptTx(row, start.now);
    if attempt.Ok? && attempt.value.Some? then Settle(row, Ok(attempt.value.value), start.fate) else row
  }

  function RecoverSteps(row: Row, start: Moment, inventory: Outcome<Inventory>, last: Moment): seq<Step> {
    var pending := PendingTx(Interrupted(row, start));
    [Step.Interrupt(start.now, start.fate)]
    + if Answer(InterruptTx(row, start.now), start.fate).Ok? && pending.Ok?
      then [Step.Reconcile(pending.value.id, ReconciledInventory(inventory), last.now, last.fate)] else []
  }

  /** A life of the service: what its worker meets, and behind how many of its steps it is cut off. */
  datatype Life = Life(start: Moment, inventory: Outcome<Inventory>, last: Moment, stopped: bool, ticks: seq<Tick>, cut: nat)

  function LifeSteps(row: Row, l: Life): seq<Step> {
    var recovered := Recovered(row, l.start, l.inventory, l.last);
    RecoverSteps(row, l.start, l.inventory, l.last)
    + if recovered.1.Ok? then RoundsSteps(recovered.0, l.ticks) else []
  }

  // ---------- every method takes its steps ----------

  lemma {:induction false} ReportsTaken(s: System, at: Reported, id: Bytes, reports: seq<Report>)
    requires s.row == at.row
    ensures var steps := ReportSteps(at, id, reports);
            Possible(s, steps) && After(s, steps).row == ReportAll(at, id, reports).row
  {
    hide PhaseTx;
    if reports != [] {
      var init, r := reports[..|reports| - 1], reports[|reports| - 1];
      ReportsTaken(s, at, id, init);
      var before := ReportAll(at, id, init);
      if before.failure.None? && ValidPhaseTransition(before.phase, r.phase) {
        Add(s, ReportSteps(at, id, init), Step.Report(id, r.phase, r.now, r.fate));
      } else {
        assert ReportSteps(at, id, reports) == ReportSteps(at, id, init);
      }
    }
  }

  lemma EndTaken(s: System, o: Operation, w: Work)
    requires s.row == ReportAll(Reported(Some(o), Revalidating, None), o.id, w.reports).row
    ensures Possible(s, EndSteps(o, w)) && After(s, EndSteps(o, w)).row == Worked(o, w).0
  {
    hide UncertainTx, CheckedFinishTx, ReconcileTx, ReportAll, FailureCode, ReconciledInventory, ValidExecutorResult;
    var at := ReportAll(Reported(Some(o), Revalidating, None), o.id, w.reports);
    if Clean(at, w.outcome) {
      One(s, Step.Finish(o.id, w.outcome.value, w.end.now, w.end.fate));
    } else {
      var first := Step.FinishUncertain(o.id, Ambiguous, FailureCode(at, w.outcome), w.end.now, w.end.fate);
      One(s, first);
      var answer := Answer(UncertainTx(at.row, o.id, Ambiguous, FailureCode(at, w.outcome), w.end.now), w.end.fate);
      if answer.Ok? {
        Add(s, [first], Step.Reconcile(answer.value.id, ReconciledInventory(w.inventory), w.last.now, w.last.fate));
      }
    }
  }

  lemma WorkTaken(s: System, o: Operation, w: Work)
    requires s.row == Some(o) && o.id in s.claims
    ensures Possible(s, WorkSteps(o, w)) && After(s, WorkSteps(o, w)).row == Worked(o, w).0
  {
    hide ReportSteps, EndSteps, Worked, ReportAll, Possible, After;
    var first := [Step.Execute(o.id)];
    One(s, Step.Execute(o.id));
    var at := Reported(Some(o), Revalidating, None);
    ReportsTaken(After(s, first), at, o.id, w.reports);
    Join(s, first, ReportSteps(at, o.id, w.reports));
    EndTaken(After(s, first + ReportSteps(at, o.id, w.reports)), o, w);
    Join(s, first + ReportSteps(at, o.id, w.reports), EndSteps(o, w));
  }

  lemma {:induction false} ArrivalsTaken(s: System, arrivals: seq<Arrival>)
    ensures var steps := AcceptSteps(arrivals); Possible(s, steps) && After(s, steps).row == Arrived(s.row, arrivals)
    decreases |arrivals|
  {
    hide EnqueueTx;
    if arrivals != [] {
      var a := arrivals[0];
      var step := Step.Accept(a.id, a.kind, a.request, a.at.now, a.at.fate);
      One(s, step);
      ArrivalsTaken(Apply(s, step), arrivals[1..]);
      Join(s, [step], AcceptSteps(arrivals[1..]));
      assert AcceptSteps(arrivals) == [step] + AcceptSteps(arrivals[1..]);
    }
  }

  lemma RoundTaken(s: System, tick: Tick)
    ensures var steps := RoundSteps(s.row, tick); Possible(s, steps) && After(s, steps).row == Round(s.row, tick).0
  {
    hide ClaimTx, Possible, After, AcceptSteps, WorkSteps, Worked, Arrived;
    var accepts, claim := AcceptSteps(tick.arrivals), Step.Claim(tick.claim.now, tick.claim.fate);
    ArrivalsTaken(s, tick.arrivals);
    Add(s, accepts, claim);
    var t := After(s, accepts + [claim]);
    var answer := Answer(ClaimTx(Arrived(s.row, tick.arrivals), tick.claim.now), tick.claim.fate);
    if answer.Ok? {
      WorkTaken(t, answer.value, tick.work);
      Join(s, accepts + [claim], WorkSteps(answer.value, tick.work));
    } else {
      assert accepts + [claim] + [] == accepts + [claim];
    }
  }

  lemma {:induction false} RoundsTaken(s: System, ticks: seq<Tick>)
    ensures var steps := RoundsSteps(s.row, ticks); Possible(s, steps) && After(s, steps).row == Rounds(s.row, ticks).0
  {
    hide RoundSteps, Round;
    if ticks != [] {
      var init := ticks[..|ticks| - 1];
      RoundsTaken(s, init);
      var steps := RoundsSteps(s.row, init);
      if Rounds(s.row, init).1.Goes? {
        RoundTaken(After(s, steps), ticks[|ticks| - 1]);
        Join(s, steps, RoundSteps(Rounds(s.row, init).0, ticks[|ticks| - 1]));
      } else {
        assert steps + [] == steps;
      }
    }
  }

  lemma RecoveryTaken(s: System, start: Moment, inventory: Outcome<Inventory>, last: Moment)
    ensures var steps := RecoverSteps(s.row, start, inventory, last);
            Possible(s, steps) && After(s, steps).row == Recovered(s.row, start, inventory, last).0
  {
    hide InterruptTx, PendingTx, ReconcileTx, ReconciledInventory, Possible, After;
    var first := Step.Interrupt(start.now, start.fate);
    One(s, first);
    var pending := PendingTx(Interrupted(s.row, start));
    if Answer(InterruptTx(s.row, start.now), start.fate).Ok? && pending.Ok? {
      Add(s, [first], Step.Reconcile(pending.value.id, ReconciledInventory(inventory), last.now, last.fate));
    } else {
      assert [first] + [] == [first];
    }
  }

  /** The worker's whole life is a run of the machine, to the same row. */
  lemma LifeTaken(s: System, l: Life)
    ensures Possible(s, LifeSteps(s.row, l))
    ensures After(s, LifeSteps(s.row, l)).row == Ran(s.row, l.start, l.inventory, l.last, l.stopped, l.ticks).0
  {
    hide Recovered, Rounds, RecoverSteps, RoundsSteps, Possible, After;
    RecoveryTaken(s, l.start, l.inventory, l.last);
    var steps := RecoverSteps(s.row, l.start, l.inventory, l.last);
    var recovered := Recovered(s.row, l.start, l.inventory, l.last);
    if recovered.1.Ok? {
      RoundsTaken(After(s, steps), l.ticks);
      Join(s, steps, RoundsSteps(recovered.0, l.ticks));
    } else {
      assert steps + [] == steps;
    }
  }

  // ---------- any number of lives ----------

  /** What remains of a life that is cut off. */
  function CutSteps(row: Row, l: Life): seq<Step> {
    var steps := LifeSteps(row, l);
    (if l.cut < |steps| then steps[..l.cut] else steps) + [Crash]
  }

  const START := System(None, multiset{}, multiset{}, multiset{})

  lemma CutTaken(s: System, l: Life)
    ensures Possible(s, CutSteps(s.row, l))
  {
    hide LifeSteps, Possible, After;
    LifeTaken(s, l);
    var steps := LifeSteps(s.row, l);
    var cut := if l.cut < |steps| then l.cut else |steps|;
    Prefix(s, steps, cut);
    Add(s, steps[..cut], Crash);
    assert steps[..|steps|] == steps;
  }

  /** All the steps of a service that lives several times. */
  ghost function LivesSteps(lives: seq<Life>): (steps: seq<Step>)
    ensures Possible(START, steps)
  {
    if lives == [] then []
    else
      var before := LivesSteps(lives[..|lives| - 1]);
      var s, l := After(START, before), lives[|lives| - 1];
      CutTaken(s, l);
      Join(START, before, CutSteps(s.row, l));
      before + CutSteps(s.row, l)
  }

  function States(s: System, steps: seq<Step>): (run: seq<System>)
    requires Possible(s, steps)
    ensures |run| == |steps| + 1 && run[|steps|] == After(s, steps)
  {
    if steps == [] then [s] else States(s, steps[..|steps| - 1]) + [After(s, steps)]
  }

  lemma {:induction false} StatesRun(steps: seq<Step>)
    requires Possible(START, steps)
    ensures IsRun(States(START, steps), steps)
  {
    hide Apply, Enabled;
    if steps != [] {
      var init := steps[..|steps| - 1];
      StatesRun(init);
      var run := States(START, steps);
      forall i | 0 <= i < |steps| ensures Enabled(run[i], steps[i]) && run[i + 1] == Apply(run[i], steps[i]) {
        if i < |init| {
          assert init[i] == steps[i];
        }
      }
    }
  }

  /**
   A service that is started any number of times, its worker cut off behind any step, calls the executor for an
   operation at most as often as that was accepted: once, when ids do not repeat.
   */
  lemma LivesExecuteOnce(lives: seq<Life>, id: Bytes)
    ensures var s := After(START, LivesSteps(lives)); s.executed[id] <= s.accepted[id]
  {
    hide LivesSteps, Possible, After, IsRun, Credit;
    var steps := LivesSteps(lives);
    StatesRun(steps);
    ExecutedAtMostOnce(States(START, steps), steps, |steps|, id);
  }
}
