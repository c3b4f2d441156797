/** Idle sessions: no token outlives them, and a visit in time is always accepted. */
module SessionIdle {
  import opened SessionStore
  import opened SessionRuns

  // ---------- no session outlives its idle time ----------

  /** Step k creates the session o, or accepts one of its tokens. */
  predicate Active(run: seq<System>, steps: seq<Step>, p: Policy, k: nat, o: Origin)
    requires |run| == |steps| + 1 && k < |steps|
  {
    || (steps[k].CreateStep? && run[k + 1].born > run[k].born
        && steps[k].token in run[k + 1].origins && run[k + 1].origins[steps[k].token] == o)
    || (steps[k].Validate? && Accepts(run[k].db, steps[k], p)
        && steps[k].snapshot.token in run[k].origins && run[k].origins[steps[k].snapshot.token] == o)
  }

  /** A step before n that was active gave r its times, or may have. */
  predicate Since(run: seq<System>, steps: seq<Step>, p: Policy, n: nat, o: Origin, r: Session, k: nat)
    requires |run| == |steps| + 1 && n <= |steps|
  {
    k < n && Active(run, steps, p, k, o) && r.lastSeen == Unix(steps[k].now) && r.idleExpires <= Unix(steps[k].now + p.idle)
  }

  ghost predicate Backed(run: seq<System>, steps: seq<Step>, p: Policy, n: nat, o: Origin, r: Session)
    requires |run| == |steps| + 1 && n <= |steps|
  {
    exists k: nat :: Since(run, steps, p, n, o, r, k)
  }

  ghost predicate AllBacked(run: seq<System>, steps: seq<Step>, p: Policy, n: nat)
    requires |run| == |steps| + 1 && n <= |steps|
  {
    && (forall id :: id in run[n].db.rows ==>
          run[n].db.rows[id].current in run[n].origins
          && Backed(run, steps, p, n, run[n].origins[run[n].db.rows[id].current], run[n].db.rows[id]))
    && (forall x :: x in run[n].snapshots ==>
          x.token in run[n].origins && Backed(run, steps, p, n, run[n].origins[x.token], x.session))
  }

  lemma StillBacked(run: seq<System>, steps: seq<Step>, p: Policy, m: nat, n: nat, o: Origin, r: Session, s: Session)
    requires |run| == |steps| + 1 && m <= n <= |steps| && Backed(run, steps, p, m, o, r)
    requires s.lastSeen == r.lastSeen && s.idleExpires == r.idleExpires
    ensures Backed(run, steps, p, n, o, s)
  {
    hide Active;
    var k: nat :| Since(run, steps, p, m, o, r, k);
    assert Since(run, steps, p, n, o, s, k);
  }

  lemma UnixAdds(now: int, idle: int)
    ensures Unix(now) + idle / SECOND <= Unix(now + idle)
  {
    DivideMonotone((Unix(now) + idle / SECOND) * SECOND, now + idle);
    Exactly(Unix(now) + idle / SECOND);
  }

  lemma Exactly(n: int)
    ensures Unix(n * SECOND) == n
  {
  }

  lemma AcceptedTimes(db: Database, step: Step, p: Policy)
    requires step.Validate? && Accepts(db, step, p)
    ensures var x, d := step.snapshot.session, DecisionOf(step, p);
            && d.at == EffectiveNow(x, step.now) && d.idleExpires <= d.at + p.idle / SECOND
            && d.at < x.idleExpires && d.at < x.absoluteExpires
  {
    hide Refreshes, Rotates;
  }

  /** What an accepted validation writes is backed by itself, or by what backed the row that it loaded. */
  lemma AcceptedBacks(run: seq<System>, steps: seq<Step>, p: Policy, n: nat, r: Session)
    requires |run| == |steps| + 1 && n < |steps| && steps[n].Validate? && Accepts(run[n].db, steps[n], p)
    requires steps[n].snapshot.token in run[n].origins && ValidPolicy(p)
    requires var x := steps[n].snapshot; Backed(run, steps, p, n, run[n].origins[x.token], x.session)
    requires var d := DecisionOf(steps[n], p); r.lastSeen == d.at && r.idleExpires == d.idleExpires
    ensures Backed(run, steps, p, n + 1, run[n].origins[steps[n].snapshot.token], r)
  {
    AcceptedTimes(run[n].db, steps[n], p);
    hide Accepts, DecisionOf;
    var x, o := steps[n].snapshot, run[n].origins[steps[n].snapshot.token];
    if x.session.lastSeen > Unix(steps[n].now) {
      var k: nat :| Since(run, steps, p, n, o, x.session, k);
      UnixAdds(steps[k].now, p.idle);
      assert Since(run, steps, p, n + 1, o, r, k);
    } else {
      UnixAdds(steps[n].now, p.idle);
      assert Since(run, steps, p, n + 1, o, r, n);
    }
  }

  lemma CreatedBacks(run: seq<System>, steps: seq<Step>, p: Policy, n: nat)
    requires |run| == |steps| + 1 && n < |steps| && steps[n].CreateStep? && ValidPolicy(p)
    requires run[n + 1] == Apply(run[n], steps[n], p) && run[n].db.administrator == Administrator(steps[n].epoch)
    ensures steps[n].token in run[n + 1].origins
    ensures Backed(run, steps, p, n + 1, run[n + 1].origins[steps[n].token],
                   NewSession(steps[n].epoch, steps[n].token, steps[n].csrf, steps[n].now, p))
  {
    CreateApplied(run[n], steps[n], p);
    var r := NewSession(steps[n].epoch, steps[n].token, steps[n].csrf, steps[n].now, p);
    hide Newest, Alive;
    assert Since(run, steps, p, n + 1, run[n + 1].origins[steps[n].token], r, n);
  }

  /** The same times and the same current token. */
  predicate Unmoved(a: Session, b: Session) {
    b.current == a.current && b.lastSeen == a.lastSeen && b.idleExpires == a.idleExpires
  }

  /** A step moves no row but the one it creates or accepts a token of. */
  lemma RowsMoved(s: System, step: Step, p: Policy, id: nat)
    requires ValidPolicy(p) && Enabled(s, step) && id in Apply(s, step, p).db.rows
    ensures var r := Apply(s, step, p).db.rows[id];
            || (id in s.db.rows && Unmoved(s.db.rows[id], r))
            || (step.CreateStep? && s.db.administrator == Administrator(step.epoch)
                && r == NewSession(step.epoch, step.token, step.csrf, step.now, p))
            || (step.Validate? && id == step.snapshot.id && Accepts(s.db, step, p))
  {
    hide Decide, NewSession;
    if step.CreateStep? {
      CreateApplied(s, step, p);
      hide Apply;
      if s.db.administrator == Administrator(step.epoch) {
        CreateRows(s.db, step.epoch, step.id, step.token, step.csrf, step.now, p);
      }
      hide Create;
    }
  }

  /** What an accepted token leaves in its row. */
  lemma AcceptedRow(s: System, step: Step, p: Policy)
    requires Inv(s, p) && ValidPolicy(p) && Enabled(s, step) && step.Validate? && Accepts(s.db, step, p)
    ensures var x, d, t := step.snapshot, DecisionOf(step, p), Apply(s, step, p);
            && x.token in s.origins && x.id in s.db.rows && x.id in t.db.rows
            && var r := t.db.rows[x.id];
               && r.lastSeen == d.at && r.idleExpires == d.idleExpires
               && r.current in t.origins && t.origins[r.current] == s.origins[x.token]
  {
    AcceptedToken(s, step, p);
    BearerIsRow(s, step.snapshot.id, step.snapshot.token);
    hide Decide, Belongs;
  }

  lemma StepBacks(run: seq<System>, steps: seq<Step>, p: Policy, n: nat)
    requires |run| == |steps| + 1 && n < |steps| && ValidPolicy(p) && Inv(run[n], p) && AllBacked(run, steps, p, n)
    requires Enabled(run[n], steps[n]) && run[n + 1] == Apply(run[n], steps[n], p)
    ensures AllBacked(run, steps, p, n + 1)
  {
    var s, step, t := run[n], steps[n], run[n + 1];
    StepIsLater(s, step, p);
    hide Backed, Accepts, Inv, Enabled, Unmoved, NewSession;
    forall id | id in t.db.rows
      ensures t.db.rows[id].current in t.origins
      ensures Backed(run, steps, p, n + 1, t.origins[t.db.rows[id].current], t.db.rows[id])
    {
      RowBacked(run, steps, p, n, id);
    }
    forall x | x in t.snapshots ensures x.token in t.origins && Backed(run, steps, p, n + 1, t.origins[x.token], x.session) {
      SnapshotBacked(run, steps, p, n, x);
    }
  }

  lemma RowBacked(run: seq<System>, steps: seq<Step>, p: Policy, n: nat, id: nat)
    requires |run| == |steps| + 1 && n < |steps| && ValidPolicy(p) && Inv(run[n], p) && AllBacked(run, steps, p, n)
    requires Enabled(run[n], steps[n]) && run[n + 1] == Apply(run[n], steps[n], p) && id in run[n + 1].db.rows
    ensures run[n + 1].db.rows[id].current in run[n + 1].origins
    ensures var r := run[n + 1].db.rows[id]; Backed(run, steps, p, n + 1, run[n + 1].origins[r.current], r)
  {
    var s, step, t := run[n], steps[n], run[n + 1];
    var r := t.db.rows[id];
    StepIsLater(s, step, p);
    RowsMoved(s, step, p, id);
    hide Apply, Accepts, Backed, Inv, Enabled, NewSession;
    if id in s.db.rows && Unmoved(s.db.rows[id], r) {
      StillBacked(run, steps, p, n, n + 1, s.origins[r.current], s.db.rows[id], r);
    } else if step.CreateStep? {
      CreatedBacks(run, steps, p, n);
      NewSessionFields(step.epoch, step.token, step.csrf, step.now, p);
    } else {
      AcceptedRow(s, step, p);
      ValidatedIsLoaded(s, step);
      AcceptedBacks(run, steps, p, n, r);
    }
  }

  lemma ValidatedIsLoaded(s: System, step: Step)
    requires Enabled(s, step) && step.Validate?
    ensures step.snapshot in s.snapshots
  {
  }

  lemma SnapshotBacked(run: seq<System>, steps: seq<Step>, p: Policy, n: nat, x: Snapshot)
    requires |run| == |steps| + 1 && n < |steps| && Inv(run[n], p) && AllBacked(run, steps, p, n)
    requires Enabled(run[n], steps[n]) && run[n + 1] == Apply(run[n], steps[n], p) && x in run[n + 1].snapshots
    ensures x.token in run[n + 1].origins && Backed(run, steps, p, n + 1, run[n + 1].origins[x.token], x.session)
  {
    var s, step := run[n], steps[n];
    StepIsLater(s, step, p);
    SnapshotsAfter(s, step, p, x);
    hide Apply, Backed, Inv, Enabled;
    if x in s.snapshots {
      StillBacked(run, steps, p, n, n + 1, s.origins[x.token], x.session, x.session);
    } else {
      LoadedBelongs(s, step, p);
      StillBacked(run, steps, p, n, n + 1, s.origins[x.token], s.db.rows[x.id], x.session);
    }
  }

  lemma SnapshotsAfter(s: System, step: Step, p: Policy, x: Snapshot)
    requires Enabled(s, step) && x in Apply(s, step, p).snapshots
    ensures x in s.snapshots || (step.Load? && step.id in s.db.rows && x == Snapshot(step.token, step.id, s.db.rows[step.id], s.born))
  {
    hide Create, ValidatedDb, Replaces;
  }

  lemma LoadedBelongs(s: System, step: Step, p: Policy)
    requires Inv(s, p) && Enabled(s, step) && step.Load?
    ensures step.token in s.origins && s.db.rows[step.id].current in s.origins
    ensures s.origins[step.token] == s.origins[s.db.rows[step.id].current]
  {
    BearerIsRow(s, step.id, step.token);
  }

  lemma {:induction false} RunBacks(run: seq<System>, steps: seq<Step>, p: Policy, n: nat)
    requires IsRun(run, steps, p) && ValidPolicy(p) && n <= |steps|
    ensures AllBacked(run, steps, p, n)
  {
    if n > 0 {
      RunBacks(run, steps, p, n - 1);
      RunKeepsInv(run, steps, p, n - 1);
      assert run[n - 1 + 1] == Apply(run[n - 1], steps[n - 1], p);
      hide Apply, Inv, Enabled, AllBacked;
      StepBacks(run, steps, p, n - 1);
    }
  }

  /**
   A token is accepted only below the idle expiry of the row that was loaded, and only when its session was created, or
   one of its tokens accepted, less than the idle time ago. The clock may run back.
   */
  lemma IdleHolds(run: seq<System>, steps: seq<Step>, p: Policy, n: nat)
    requires IsRun(run, steps, p) && ValidPolicy(p) && n < |steps|
    requires steps[n].Validate? && Accepts(run[n].db, steps[n], p)
    ensures EffectiveNow(steps[n].snapshot.session, steps[n].now) < steps[n].snapshot.session.idleExpires
    ensures steps[n].snapshot.token in run[n].origins
    ensures exists k: nat :: k < n && Active(run, steps, p, k, run[n].origins[steps[n].snapshot.token])
                             && steps[n].now < steps[k].now + p.idle
  {
    RunBacks(run, steps, p, n);
    AcceptedTimes(run[n].db, steps[n], p);
    ValidatedIsLoaded(run[n], steps[n]);
    hide Active, Accepts, Enabled, DecisionOf;
    var x := steps[n].snapshot;
    var k: nat :| Since(run, steps, p, n, run[n].origins[x.token], x.session, k);
    Below(steps[n].now, steps[k].now + p.idle);
  }

  lemma Below(a: int, b: int)
    requires Unix(a) < Unix(b)
    ensures a < b
  {
  }

  // ---------- a visit in time is accepted ----------

  /** The token is presented before everything that ends it: idle time, absolute expiry, and grace for a previous one. */
  predicate InTime(r: Session, t: Token, now: int) {
    && Unix(now) < r.idleExpires && r.lastSeen < r.idleExpires
    && Unix(now) < r.absoluteExpires && r.lastSeen < r.absoluteExpires
    && (r.current != t ==> r.previous.Previous? && Unix(now) < r.previous.validUntil && r.lastSeen < r.previous.validUntil)
  }

  function Latest(a: int, b: int): int { if a < b then b else a }

  /** What a visit writes: it is seen now, idles out later, and rotates when it is due. */
  predicate Visited(r: Session, next: Session, t: Token, now: int, allowRotation: bool, renewed: Token, p: Policy) {
    var at := Latest(r.lastSeen, Unix(now));
    && next.lastSeen == at && next.epoch == r.epoch && next.created == r.created && next.csrf == r.csrf
    && next.absoluteExpires == r.absoluteExpires
    && next.idleExpires <= r.absoluteExpires && next.idleExpires <= at + p.idle / SECOND
    && (next.idleExpires == r.absoluteExpires || next.idleExpires == at + p.idle / SECOND)
    && if r.current == t && allowRotation && at >= r.rotateAfter then
         && next.current == renewed && next.previous == Previous(t, at + p.grace / SECOND)
         && next.rotateAfter == at + p.rotation / SECOND
       else next.current == r.current && next.previous == r.previous && next.rotateAfter == r.rotateAfter
  }

  /** Whom nobody disturbs is accepted exactly when the token is in time; then only its own row changes, as a visit says. */
  lemma UndisturbedIff(db: Database, t: Token, id: nat, born: nat, now: int, allowRotation: bool, renewed: Token, p: Policy)
    requires Selects(db, t, id) && (db.rows[id].previous.Previous? ==> db.rows[id].previous.token != db.rows[id].current)
    ensures var r, step := db.rows[id], Validate(Snapshot(t, id, db.rows[id], born), now, allowRotation, renewed);
            && (Accepts(db, step, p) <==> InTime(r, t, now))
            && (Replaces(db, step, p) <==>
                  InTime(r, t, now) && r.current == t && allowRotation && Latest(r.lastSeen, Unix(now)) >= r.rotateAfter)
            && (InTime(r, t, now) ==>
                  var next := ValidatedDb(db, step, p);
                  && id in next.rows && Visited(r, next.rows[id], t, now, allowRotation, renewed, p)
                  && next == db.(rows := db.rows[id := next.rows[id]]))
  {
  }

  /** Whom nobody disturbs and who comes too late loses the row, and a previous token that comes too late is forgotten. */
  lemma UndisturbedEnds(db: Database, t: Token, id: nat, born: nat, now: int, allowRotation: bool, renewed: Token, p: Policy)
    requires Selects(db, t, id) && (db.rows[id].previous.Previous? ==> db.rows[id].previous.token != db.rows[id].current)
    requires !InTime(db.rows[id], t, now)
    ensures var r, step := db.rows[id], Validate(Snapshot(t, id, db.rows[id], born), now, allowRotation, renewed);
            var next, at := ValidatedDb(db, step, p), Latest(r.lastSeen, Unix(now));
            next == if at >= r.idleExpires || at >= r.absoluteExpires then db.(rows := db.rows - {id})
                    else db.(rows := db.rows[id := r.(previous := NoPrevious)])
  {
    var step := Validate(Snapshot(t, id, db.rows[id], born), now, allowRotation, renewed);
    if DecisionOf(step, p).Expired? {
      assert ValidatedDb(db, step, p).rows == db.rows - {id};
    }
  }

  /** Whoever comes back within the idle time and before the absolute expiry, with the token last told, stays logged in. */
  lemma NextVisit(db: Database, t: Token, id: nat, now: int, renewed: Token, later: int, again: Token, p: Policy)
    requires ValidPolicy(p) && Selects(db, t, id) && db.rows[id].current == t && renewed != t && Ordered(db.rows[id])
    requires db.rows[id].previous.Previous? ==> db.rows[id].previous.token != t
    requires InTime(db.rows[id], t, now) && db.rows[id].lastSeen <= Unix(now) <= Unix(later)
    requires Unix(later) < Unix(now) + p.idle / SECOND && Unix(later) < db.rows[id].absoluteExpires
    ensures var next := ValidatedDb(db, Validate(Snapshot(t, id, db.rows[id], 0), now, true, renewed), p);
            && id in next.rows && Selects(next, next.rows[id].current, id)
            && Accepts(next, Validate(Snapshot(next.rows[id].current, id, next.rows[id], 0), later, true, again), p)
  {
    UndisturbedIff(db, t, id, 0, now, true, renewed, p);
    var next := ValidatedDb(db, Validate(Snapshot(t, id, db.rows[id], 0), now, true, renewed), p);
    hide Accepts, Replaces, ValidatedDb;
    UndisturbedIff(next, next.rows[id].current, id, 0, later, true, again, p);
  }

  /** A replaced token is still accepted, and not replaced again, until its grace ends. */
  lemma GraceHolds(db: Database, t: Token, id: nat, now: int, renewed: Token, later: int, again: Token, p: Policy)
    requires ValidPolicy(p) && Selects(db, t, id) && renewed != t && Ordered(db.rows[id])
    requires db.rows[id].previous.Previous? ==> db.rows[id].previous.token != db.rows[id].current
    requires var step := Validate(Snapshot(t, id, db.rows[id], 0), now, true, renewed); Replaces(db, step, p)
    requires db.rows[id].lastSeen <= Unix(now) <= Unix(later) < Unix(now) + p.grace / SECOND
    requires Unix(later) < Unix(now) + p.idle / SECOND && Unix(later) < db.rows[id].absoluteExpires
    ensures var next := ValidatedDb(db, Validate(Snapshot(t, id, db.rows[id], 0), now, true, renewed), p);
            && id in next.rows && Selects(next, t, id)
            && var step := Validate(Snapshot(t, id, next.rows[id], 0), later, true, again);
               Accepts(next, step, p) && !Replaces(next, step, p)
  {
    UndisturbedIff(db, t, id, 0, now, true, renewed, p);
    var next := ValidatedDb(db, Validate(Snapshot(t, id, db.rows[id], 0), now, true, renewed), p);
    hide Accepts, Replaces, ValidatedDb;
    UndisturbedIff(next, t, id, 0, later, true, again, p);
  }

  /** A new session is accepted exactly until its idle time has passed. */
  lemma FirstVisit(s: System, create: Step, later: int, renewed: Token, p: Policy)
    requires ValidPolicy(p) && create.CreateStep? && s.db.administrator == Administrator(create.epoch)
    requires forall k :: k in s.db.rows ==> s.db.rows[k].lastSeen <= Unix(create.now) && k < create.id
    requires create.now <= later
    ensures var db := Apply(s, create, p).db;
            && Selects(db, create.token, create.id)
            && var step := Validate(Snapshot(create.token, create.id, db.rows[create.id], 0), later, true, renewed);
               && (Accepts(db, step, p) <==> Unix(later) < Unix(create.now + p.idle))
               && (Replaces(db, step, p) <==> Unix(create.now + p.rotation) <= Unix(later) < Unix(create.now + p.idle))
  {
    NewSessionSurvives(s, create, p);
    CreateApplied(s, create, p);
    CreateRows(s.db, create.epoch, create.id, create.token, create.csrf, create.now, p);
    var db := Apply(s, create, p).db;
    hide Apply, Create, Accepts, Replaces, ValidatedDb;
    DivideMonotone(create.now, later);
    DivideMonotone(create.now + p.idle, create.now + p.absolute);
    DivideMonotone(create.now + SECOND, create.now + p.idle);
    UndisturbedIff(db, create.token, create.id, 0, later, true, renewed, p);
  }
}
