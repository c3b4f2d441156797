/** Histories of statements: each is possible when it is taken, so that every history is a run. */
module SessionLives {
  import opened SessionStore
  import opened SessionRuns
  import opened SessionIdle

  const START := System(Database(NoAdministrator, map[]), {}, {}, map[], 0, multiset{})

  predicate Possible(s: System, steps: seq<Step>, p: Policy)
    decreases |steps|, 0
  {
    steps == []
    || (Possible(s, steps[..|steps| - 1], p) && Enabled(After(s, steps[..|steps| - 1], p), steps[|steps| - 1]))
  }

  function After(s: System, steps: seq<Step>, p: Policy): System
    requires Possible(s, steps, p)
    decreases |steps|, 1
  {
    if steps == [] then s else Apply(After(s, steps[..|steps| - 1], p), steps[|steps| - 1], p)
  }

  lemma Add(s: System, a: seq<Step>, step: Step, p: Policy)
    requires Possible(s, a, p)
    ensures Possible(s, a + [step], p) <==> Enabled(After(s, a, p), step)
    ensures Possible(s, a + [step], p) ==> After(s, a + [step], p) == Apply(After(s, a, p), step, p)
  {
    hide Apply, Enabled;
    assert (a + [step])[..|a|] == a;
  }

  lemma {:induction false} Join(s: System, a: seq<Step>, b: seq<Step>, p: Policy)
    requires Possible(s, a, p) && Possible(After(s, a, p), b, p)
    ensures Possible(s, a + b, p) && After(s, a + b, p) == After(After(s, a, p), b, p)
    decreases |b|
  {
    hide Apply, Enabled;
    if b == [] {
      assert a + b == a;
    } else {
      Join(s, a, b[..|b| - 1], p);
      assert (a + b)[..|a + b| - 1] == a + b[..|b| - 1];
    }
  }

  lemma {:induction false} Prefix(s: System, steps: seq<Step>, n: nat, p: Policy)
    requires Possible(s, steps, p) && n <= |steps|
    ensures Possible(s, steps[..n], p)
    decreases |steps|
  {
    hide Enabled;
    if n < |steps| {
      assert steps[..|steps| - 1][..n] == steps[..n];
      Prefix(s, steps[..|steps| - 1], n, p);
    } else {
      assert steps[..n] == steps;
    }
  }

  function Seen(s: System, x: Snapshot): System { s.(snapshots := s.snapshots + {x}) }

  /** What has been loaded before stands in the way of no later step. */
  lemma {:induction false} MoreLoaded(s: System, steps: seq<Step>, x: Snapshot, p: Policy)
    requires Possible(s, steps, p)
    ensures Possible(Seen(s, x), steps, p) && After(Seen(s, x), steps, p) == Seen(After(s, steps, p), x)
    decreases |steps|
  {
    hide Create, ValidatedDb, Replaces, Alive, Selects;
    if steps != [] {
      MoreLoaded(s, steps[..|steps| - 1], x, p);
      var t := After(s, steps[..|steps| - 1], p);
      OneMore(t, steps[|steps| - 1], x, p);
    }
  }

  lemma OneMore(s: System, step: Step, x: Snapshot, p: Policy)
    requires Enabled(s, step)
    ensures Enabled(Seen(s, x), step) && Apply(Seen(s, x), step, p) == Seen(Apply(s, step, p), x)
  {
    hide Create, ValidatedDb, Replaces, Alive, Selects;
  }

  // ---------- the states of a history ----------

  function States(s: System, steps: seq<Step>, p: Policy): (run: seq<System>)
    requires Possible(s, steps, p)
    ensures |run| == |steps| + 1 && run[|steps|] == After(s, steps, p)
  {
    if steps == [] then [s] else States(s, steps[..|steps| - 1], p) + [After(s, steps, p)]
  }

  lemma {:induction false} StatesRun(steps: seq<Step>, p: Policy)
    requires Possible(START, steps, p)
    ensures IsRun(States(START, steps, p), steps, p)
  {
    hide Apply, Enabled;
    if steps != [] {
      var init := steps[..|steps| - 1];
      StatesRun(init, p);
      var run := States(START, steps, p);
      forall i | 0 <= i < |steps| ensures Enabled(run[i], steps[i]) && run[i + 1] == Apply(run[i], steps[i], p) {
        if i < |init| {
          assert init[i] == steps[i];
        }
      }
    }
  }

  /** The token was issued after the last revocation. */
  predicate IssuedSince(history: seq<Step>, t: Token, p: Policy)
    requires Possible(START, history, p)
  {
    forall m :: 0 <= m < |history| && history[m].RevokeStep? ==> t !in States(START, history, p)[m].origins
  }

  /** The password was checked after the last revocation. */
  predicate CheckedSince(history: seq<Step>, epoch: int, p: Policy)
    requires Possible(START, history, p)
  {
    forall m :: 0 <= m < |history| && history[m].RevokeStep? ==> epoch !in States(START, history, p)[m].logins
  }

  lemma LastStates(history: seq<Step>, step: Step, p: Policy)
    requires Possible(START, history, p) && Possible(START, history + [step], p)
    ensures States(START, history + [step], p) == States(START, history, p) + [After(START, history + [step], p)]
  {
    assert (history + [step])[..|history|] == history;
  }

  lemma AcceptedIsCurrent(history: seq<Step>, step: Step, p: Policy)
    requires ValidPolicy(p) && Possible(START, history, p) && Enabled(After(START, history, p), step)
    requires step.Validate? && Accepts(After(START, history, p).db, step, p)
    ensures Possible(START, history + [step], p) && IssuedSince(history + [step], step.snapshot.token, p)
  {
    hide Accepts, Apply, Enabled, IsRun, Possible, After;
    var steps, n := history + [step], |history|;
    Add(START, history, step, p);
    StatesRun(steps, p);
    LastStates(history, step, p);
    var run := States(START, steps, p);
    assert steps[n] == step && run[n] == After(START, history, p);
    forall m | 0 <= m < |steps| && steps[m].RevokeStep? ensures step.snapshot.token !in run[m].origins {
      RevokedForGood(run, steps, p, m, n);
    }
  }

  lemma CreatedIsCurrent(history: seq<Step>, step: Step, p: Policy)
    requires ValidPolicy(p) && Possible(START, history, p) && Enabled(After(START, history, p), step) && step.CreateStep?
    requires Apply(After(START, history, p), step, p) != After(START, history, p)
    ensures Possible(START, history + [step], p) && CheckedSince(history + [step], step.epoch, p)
  {
    hide Apply, Enabled, IsRun, Possible, After;
    var steps, n := history + [step], |history|;
    Add(START, history, step, p);
    StatesRun(steps, p);
    LastStates(history, step, p);
    var run := States(START, steps, p);
    assert steps[n] == step && run[n] == After(START, history, p);
    forall m | 0 <= m < |steps| && steps[m].RevokeStep? ensures step.epoch !in run[m].logins {
      RevokedForGood(run, steps, p, m, n);
    }
  }

  /** Before its last step, less than the idle time ago, the history has created t's session or accepted a token of it. */
  ghost predicate ActiveWithin(history: seq<Step>, t: Token, now: int, p: Policy)
    requires Possible(START, history, p) && history != []
  {
    t in After(START, history, p).origins
    && exists k: nat :: k < |history| - 1 && WasActive(history, k, t, p) && now < history[k].now + p.idle
  }

  /** Step k has created the session of t, or accepted one of its tokens. */
  predicate WasActive(history: seq<Step>, k: nat, t: Token, p: Policy): (active: bool)
    requires Possible(START, history, p) && t in After(START, history, p).origins && k < |history|
    ensures active ==> history[k].CreateStep? || history[k].Validate?
  {
    Active(States(START, history, p), history, p, k, After(START, history, p).origins[t])
  }

  lemma AcceptedIsActive(history: seq<Step>, step: Step, p: Policy)
    requires ValidPolicy(p) && Possible(START, history, p) && Enabled(After(START, history, p), step)
    requires step.Validate? && Accepts(After(START, history, p).db, step, p)
    ensures Possible(START, history + [step], p) && ActiveWithin(history + [step], step.snapshot.token, step.now, p)
    ensures EffectiveNow(step.snapshot.session, step.now) < step.snapshot.session.idleExpires
  {
    hide Accepts, Apply, Enabled, IsRun, Possible, After;
    var steps, n := history + [step], |history|;
    Add(START, history, step, p);
    StatesRun(steps, p);
    LastStates(history, step, p);
    var run := States(START, steps, p);
    assert steps[n] == step && run[n] == After(START, history, p) && run[n + 1] == After(START, steps, p);
    IdleHolds(run, steps, p, n);
    StepIsLater(run[n], step, p);
    var o := run[n].origins[step.snapshot.token];
    var k: nat :| k < n && Active(run, steps, p, k, o) && step.now < steps[k].now + p.idle;
    assert WasActive(steps, k, step.snapshot.token, p);
  }

  lemma RenewedIsFirst(history: seq<Step>, step: Step, p: Policy)
    requires ValidPolicy(p) && Possible(START, history, p) && Enabled(After(START, history, p), step)
    requires step.Validate? && Replaces(After(START, history, p).db, step, p)
    ensures After(START, history, p).replaced[step.snapshot.token] == 0
    ensures Apply(After(START, history, p), step, p).replaced[step.snapshot.token] == 1
  {
    hide Replaces, Apply, Enabled, IsRun, Possible, After;
    var steps, n := history + [step], |history|;
    Add(START, history, step, p);
    StatesRun(steps, p);
    LastStates(history, step, p);
    assert steps[n] == step;
    ReplacedAtMostOnce(States(START, steps, p), steps, p, n, step.snapshot.token);
  }

  lemma HistoryKeepsInv(history: seq<Step>, p: Policy)
    requires ValidPolicy(p) && Possible(START, history, p)
    ensures Inv(After(START, history, p), p)
  {
    hide Inv, IsRun;
    StatesRun(history, p);
    RunKeepsInv(States(START, history, p), history, p, |history|);
  }

  /** Whatever has happened, a token selects one row at most: as a current token or as a previous one. */
  lemma OneIsSelected(history: seq<Step>, p: Policy, t: Token, i: nat, j: nat)
    requires ValidPolicy(p) && Possible(START, history, p)
    requires Selects(After(START, history, p).db, t, i) && Selects(After(START, history, p).db, t, j)
    ensures i == j
  {
    hide Possible, After;
    var s := After(START, history, p);
    HistoryKeepsInv(history, p);
    BearerIsRow(s, i, t);
    BearerIsRow(s, j, t);
    assert i == j || Apart(s.origins, s.db.rows[i], s.db.rows[j]);
  }
}
