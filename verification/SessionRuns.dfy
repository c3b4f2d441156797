/**
 Every interleaving of logins, validations, resets and logouts. A validation loads a row in one statement and
 acts on what it loaded in another; a login captures the epoch in one statement and creates its session in a
 later transaction. What they hold between the two is kept for good, so that any number of requests, however
 slow, and any order of their statements is a run.
 */
module SessionRuns {
  import opened SessionStore

  /** The session a token was issued for: its number, epoch, creation, absolute expiry and CSRF token. */
  datatype Origin = Origin(serial: nat, epoch: int, created: int, absolute: int, csrf: Token)

  /** A row as a validation has loaded it, and how many sessions had been created by then. */
  datatype Snapshot = Snapshot(token: Token, id: nat, session: Session, born: nat)

  datatype System = System(db: Database, snapshots: set<Snapshot>, logins: set<int>, origins: map<Token, Origin>,
                           born: nat, replaced: multiset<Token>)

  datatype Step =
    | BootstrapStep
    | RevokeStep
    | LogIn
    | CreateStep(epoch: int, id: nat, token: Token, csrf: Token, now: int)
    | Load(token: Token, id: nat)
    | Validate(snapshot: Snapshot, now: int, allowRotation: bool, renewed: Token)
    | LogoutStep(token: Token)

  /** New tokens are fresh, and a new row id is free. */
  predicate Enabled(s: System, step: Step) {
    match step
    case LogIn => s.db.administrator.Administrator?
    case CreateStep(epoch, id, token, _, now) =>
      epoch in s.logins && token !in s.origins && (id in s.db.rows ==> !Alive(s.db, s.db.rows[id], Unix(now)))
    case Load(token, id) => Selects(s.db, token, id)
    case Validate(snapshot, _, _, renewed) => snapshot in s.snapshots && renewed !in s.origins
    case _ => true
  }

  function DecisionOf(step: Step, p: Policy): Decision
    requires step.Validate?
  {
    Decide(step.snapshot.session, step.snapshot.token, step.now, step.allowRotation, p)
  }

  /** The validation gives its token a replacement. */
  predicate Replaces(db: Database, step: Step, p: Policy) {
    step.Validate? && DecisionOf(step, p).Rotate?
    && Rotates(db, step.snapshot.id, step.snapshot.token, DecisionOf(step, p).at)
  }

  /** The validation accepts its token. */
  predicate Accepts(db: Database, step: Step, p: Policy) {
    Replaces(db, step, p)
    || (step.Validate? && DecisionOf(step, p).Refresh?
        && Refreshes(db, step.snapshot.id, step.snapshot.token, DecisionOf(step, p).at))
  }

  function ValidatedDb(db: Database, step: Step, p: Policy): Database
    requires step.Validate?
  {
    var t, id := step.snapshot.token, step.snapshot.id;
    match DecisionOf(step, p)
    case Expired => DeleteExpired(db, id, step.snapshot.session.epoch, t)
    case Unknown => db
    case Lapsed => ClearPrevious(db, id, t)
    case Rotate(at, idle) => RotateRow(db, id, t, step.renewed, at, idle, p)
    case Refresh(at, idle) => RefreshRow(db, id, t, at, idle)
  }

  function Apply(s: System, step: Step, p: Policy): System {
    match step
    case BootstrapStep => s.(db := Bootstrap(s.db))
    case RevokeStep => s.(db := AdvanceEpoch(s.db))
    case LogIn => if s.db.administrator.Administrator? then s.(logins := s.logins + {s.db.administrator.epoch}) else s
    case CreateStep(epoch, id, token, csrf, now) =>
      var created := Create(s.db, epoch, id, token, csrf, now, p);
      if created.Refused? then s
      else
        var origin := Origin(s.born, epoch, Unix(now), Unix(now + p.absolute), csrf);
        s.(db := created.db, origins := s.origins[token := origin], born := s.born + 1)
    case Load(token, id) =>
      if id in s.db.rows then s.(snapshots := s.snapshots + {Snapshot(token, id, s.db.rows[id], s.born)}) else s
    case Validate(snapshot, _, _, renewed) =>
      var next := s.(db := ValidatedDb(s.db, step, p));
      if Replaces(s.db, step, p) && snapshot.token in s.origins then
        next.(origins := s.origins[renewed := s.origins[snapshot.token]], replaced := s.replaced + multiset{snapshot.token})
      else next
    case LogoutStep(token) => s.(db := Logout(s.db, token))
  }

  predicate IsRun(run: seq<System>, steps: seq<Step>, p: Policy) {
    && |run| == |steps| + 1
    && run[0] == System(Database(NoAdministrator, map[]), {}, {}, map[], 0, multiset{})
    && forall i :: 0 <= i < |steps| ==> Enabled(run[i], steps[i]) && run[i + 1] == Apply(run[i], steps[i], p)
  }

  // ---------- the invariant ----------

  /** Both tokens of a row were issued for the session o, whose epoch and times the row has. */
  predicate Belongs(origins: map<Token, Origin>, r: Session, o: Origin) {
    && r.current in origins && origins[r.current] == o
    && (r.previous.Previous? ==> r.previous.token in origins && origins[r.previous.token] == o
                                 && r.previous.token != r.current)
    && r.epoch == o.epoch && r.created == o.created && r.absoluteExpires == o.absolute && r.csrf == o.csrf && Ordered(r)
  }

  predicate RowsOk(s: System) {
    forall id :: id in s.db.rows ==>
      && s.db.rows[id].current in s.origins
      && Belongs(s.origins, s.db.rows[id], s.origins[s.db.rows[id].current])
      && s.db.administrator == Administrator(s.db.rows[id].epoch)
      && s.replaced[s.db.rows[id].current] == 0
  }

  predicate Apart(origins: map<Token, Origin>, a: Session, b: Session) {
    a.current in origins && b.current in origins && origins[a.current].serial != origins[b.current].serial
  }

  /** Different rows are different sessions. */
  predicate RowsDiffer(s: System) {
    forall i, j :: i in s.db.rows && j in s.db.rows && i != j ==> Apart(s.origins, s.db.rows[i], s.db.rows[j])
  }

  predicate SnapshotOk(s: System, x: Snapshot) {
    && x.token in s.origins && Bears(x.session, x.token)
    && x.session.epoch == s.origins[x.token].epoch && x.session.created == s.origins[x.token].created
    && x.session.absoluteExpires == s.origins[x.token].absolute && x.session.csrf == s.origins[x.token].csrf
    && s.origins[x.token].serial < x.born <= s.born && Ordered(x.session)
  }

  predicate EpochsOk(s: System) {
    && (forall e :: e in s.logins ==> s.db.administrator.Administrator? && e <= s.db.administrator.epoch)
    && (forall t :: t in s.origins ==>
          && s.origins[t].serial < s.born
          && s.db.administrator.Administrator? && s.origins[t].epoch <= s.db.administrator.epoch)
  }

  predicate ReplacedOk(s: System) {
    forall t :: t in s.replaced ==> s.replaced[t] <= 1 && t in s.origins
  }

  predicate Sound(s: System) {
    && RowsOk(s) && RowsDiffer(s) && EpochsOk(s) && ReplacedOk(s)
    && (forall x :: x in s.snapshots ==> SnapshotOk(s, x))
  }

  predicate Inv(s: System, p: Policy) { Sound(s) && |s.db.rows| <= p.maximum }

  lemma FewerRows(a: map<nat, Session>, b: map<nat, Session>)
    requires a.Keys <= b.Keys
    ensures |a| <= |b|
  {
    SubsetSize(a.Keys, b.Keys);
    assert |a| == |a.Keys| && |b| == |b.Keys|;
  }

  /** Statements that only remove rows, or forget a previous token. */
  predicate Shrinks(a: Database, b: Database) {
    && b.administrator == a.administrator
    && forall k :: k in b.rows ==> k in a.rows && (b.rows[k] == a.rows[k] || b.rows[k] == a.rows[k].(previous := NoPrevious))
  }

  lemma ShrinkKeepsSound(s: System, db: Database)
    requires Sound(s) && Shrinks(s.db, db)
    ensures Sound(s.(db := db))
  {
    var t := s.(db := db);
    assert forall x :: x in t.snapshots ==> SnapshotOk(s, x) && SnapshotOk(t, x);
  }

  lemma ShrinkKeepsInv(s: System, db: Database, p: Policy)
    requires Inv(s, p) && Shrinks(s.db, db)
    ensures Inv(s.(db := db), p)
  {
    ShrinkKeepsSound(s, db);
    FewerRows(db.rows, s.db.rows);
  }

  predicate Extends(a: map<Token, Origin>, b: map<Token, Origin>) {
    forall t :: t in a ==> t in b && b[t] == a[t]
  }

  lemma BelongsStill(a: map<Token, Origin>, b: map<Token, Origin>, r: Session, o: Origin)
    requires Extends(a, b) && Belongs(a, r, o)
    ensures Belongs(b, r, o)
  {
    hide Ordered;
  }

  /** Writing one row of a session of its own. */
  lemma PutRow(s: System, t: System, id: nat, r: Session)
    requires RowsOk(s) && RowsDiffer(s) && Extends(s.origins, t.origins)
    requires t.db == s.db.(rows := s.db.rows[id := r]) && s.db.administrator == Administrator(r.epoch)
    requires r.current in t.origins && Belongs(t.origins, r, t.origins[r.current]) && t.replaced[r.current] == 0
    requires forall k :: k in s.db.rows && k != id ==>
               Apart(t.origins, s.db.rows[k], r) && t.replaced[s.db.rows[k].current] == 0
    ensures RowsOk(t) && RowsDiffer(t)
  {
    hide Belongs;
    forall k | k in t.db.rows && k != id
      ensures t.db.rows[k].current in s.origins && t.db.rows[k].current in t.origins
      ensures Belongs(t.origins, t.db.rows[k], t.origins[t.db.rows[k].current])
    {
      BelongsStill(s.origins, t.origins, s.db.rows[k], s.origins[s.db.rows[k].current]);
    }
    forall i, j | i in t.db.rows && j in t.db.rows && i != j ensures Apart(t.origins, t.db.rows[i], t.db.rows[j]) {
      if i != id && j != id {
        assert Apart(s.origins, s.db.rows[i], s.db.rows[j]);
      }
    }
  }

  lemma SnapshotsStill(s: System, t: System)
    requires (forall x :: x in s.snapshots ==> SnapshotOk(s, x)) && t.snapshots == s.snapshots
    requires Extends(s.origins, t.origins) && s.born <= t.born
    ensures forall x :: x in t.snapshots ==> SnapshotOk(t, x)
  {
    hide Ordered, Bears;
    forall x | x in t.snapshots ensures SnapshotOk(t, x) {
      assert SnapshotOk(s, x);
    }
  }

  /** Adding a row with a fresh token. */
  lemma AddRow(s: System, id: nat, r: Session) returns (t: System)
    requires Sound(s) && r.current !in s.origins && r.previous.NoPrevious? && Ordered(r)
    requires s.db.administrator == Administrator(r.epoch)
    ensures t == s.(db := s.db.(rows := s.db.rows[id := r]), born := s.born + 1,
                    origins := s.origins[r.current := Origin(s.born, r.epoch, r.created, r.absoluteExpires, r.csrf)])
    ensures Sound(t)
  {
    hide Ordered;
    t := s.(db := s.db.(rows := s.db.rows[id := r]), born := s.born + 1,
            origins := s.origins[r.current := Origin(s.born, r.epoch, r.created, r.absoluteExpires, r.csrf)]);
    assert Belongs(t.origins, r, t.origins[r.current]);
    NewRowApart(s, t, id, r);
    PutRow(s, t, id, r);
    SnapshotsStill(s, t);
    hide Belongs, RowsOk, RowsDiffer, SnapshotOk;
  }

  lemma CreateApplied(s: System, step: Step, p: Policy)
    requires step.CreateStep?
    ensures var created := Create(s.db, step.epoch, step.id, step.token, step.csrf, step.now, p);
            && (created.Refused? ==> Apply(s, step, p) == s)
            && (created.Created? ==>
                  var origin := Origin(s.born, step.epoch, Unix(step.now), Unix(step.now + p.absolute), step.csrf);
                  Apply(s, step, p) == s.(db := created.db, born := s.born + 1, origins := s.origins[step.token := origin]))
  {
    hide Create;
  }

  lemma NewSessionFields(epoch: int, token: Token, csrf: Token, now: int, p: Policy)
    ensures var r := NewSession(epoch, token, csrf, now, p);
            && r.current == token && r.previous.NoPrevious? && r.epoch == epoch
            && r.created == Unix(now) && r.absoluteExpires == Unix(now + p.absolute) && r.csrf == csrf
  {
  }

  lemma CreateFresh(s: System, step: Step)
    requires step.CreateStep? && Enabled(s, step)
    ensures step.token !in s.origins
  {
  }

  /** The new row is added first, and then the oldest rows go. */
  lemma CreateInTwo(s: System, step: Step, p: Policy) returns (middle: System)
    requires Sound(s) && ValidPolicy(p) && step.CreateStep? && step.token !in s.origins
    requires Create(s.db, step.epoch, step.id, step.token, step.csrf, step.now, p).Created?
    ensures var db := Create(s.db, step.epoch, step.id, step.token, step.csrf, step.now, p).db;
            Sound(middle) && Apply(s, step, p) == middle.(db := db) && Shrinks(middle.db, db) && |db.rows| <= p.maximum
  {
    CreateApplied(s, step, p);
    hide Apply, Create, Ordered, NewSession, Sound, Unix, Alive, Shrinks;
    CreateShrinks(s.db, step, p);
    NewSessionOrdered(step.epoch, step.token, step.csrf, step.now, p);
    NewSessionFields(step.epoch, step.token, step.csrf, step.now, p);
    middle := AddRow(s, step.id, NewSession(step.epoch, step.token, step.csrf, step.now, p));
  }

  lemma CreateShrinks(db: Database, step: Step, p: Policy)
    requires ValidPolicy(p) && step.CreateStep?
    requires Create(db, step.epoch, step.id, step.token, step.csrf, step.now, p).Created?
    ensures var next := Create(db, step.epoch, step.id, step.token, step.csrf, step.now, p).db;
            && db.administrator == Administrator(step.epoch) && |next.rows| <= p.maximum
            && Shrinks(db.(rows := db.rows[step.id := NewSession(step.epoch, step.token, step.csrf, step.now, p)]), next)
  {
    hide Create, NewSession, Unix, Alive;
    CreateRows(db, step.epoch, step.id, step.token, step.csrf, step.now, p);
  }

  lemma CreateKeepsInv(s: System, step: Step, p: Policy)
    requires Inv(s, p) && ValidPolicy(p) && step.CreateStep? && Enabled(s, step)
    ensures Inv(Apply(s, step, p), p)
  {
    CreateFresh(s, step);
    CreateApplied(s, step, p);
    hide Apply, Create, Sound, Enabled, Shrinks;
    var created := Create(s.db, step.epoch, step.id, step.token, step.csrf, step.now, p);
    if created.Created? {
      var middle := CreateInTwo(s, step, p);
      ShrinkKeepsSound(middle, created.db);
    }
  }

  lemma NewRowApart(s: System, t: System, id: nat, r: Session)
    requires Sound(s) && r.current !in s.origins && t.origins == s.origins[r.current := Origin(s.born, r.epoch, r.created, r.absoluteExpires, r.csrf)]
    requires t.replaced == s.replaced
    ensures t.replaced[r.current] == 0
    ensures forall k :: k in s.db.rows && k != id ==>
              Apart(t.origins, s.db.rows[k], r) && t.replaced[s.db.rows[k].current] == 0
  {
    hide Belongs, SnapshotOk;
  }

  /** A token that a row bears was issued for that row's session, and for no other row's. */
  lemma BearerIsRow(s: System, id: nat, t: Token)
    requires RowsOk(s) && id in s.db.rows && Bears(s.db.rows[id], t)
    ensures t in s.origins && s.origins[t] == s.origins[s.db.rows[id].current]
    ensures Belongs(s.origins, s.db.rows[id], s.origins[t])
  {
  }

  /** What a rotation or a refresh writes keeps the times in order and below the absolute expiry. */
  lemma TimesStayOrdered(x: Session, t: Token, now: int, allowRotation: bool, p: Policy)
    requires Ordered(x) && ValidPolicy(p)
    ensures var d := Decide(x, t, now, allowRotation, p);
            d.Rotate? || d.Refresh? ==>
              x.created <= d.at <= d.idleExpires <= x.absoluteExpires && Unix(now) <= d.at < x.absoluteExpires && x.lastSeen <= d.at
  {
  }

  /** A row written over one of the same session stays apart from the others. */
  lemma SameSessionApart(s: System, origins: map<Token, Origin>, id: nat, r: Session)
    requires RowsOk(s) && RowsDiffer(s) && id in s.db.rows && Extends(s.origins, origins)
    requires r.current in origins && origins[r.current] == s.origins[s.db.rows[id].current]
    ensures forall k :: k in s.db.rows && k != id ==> Apart(origins, s.db.rows[k], r)
  {
    hide Belongs;
    forall k | k in s.db.rows && k != id ensures Apart(origins, s.db.rows[k], r) {
      assert Apart(s.origins, s.db.rows[k], s.db.rows[id]);
    }
  }

  lemma RotateKeepsInv(s: System, step: Step, p: Policy)
    requires Inv(s, p) && ValidPolicy(p) && step.Validate? && Enabled(s, step) && Replaces(s.db, step, p)
    ensures Inv(Apply(s, step, p), p)
  {
    var x, d := step.snapshot, DecisionOf(step, p);
    assert SnapshotOk(s, x);
    TimesStayOrdered(x.session, x.token, step.now, step.allowRotation, p);
    BearerIsRow(s, x.id, x.token);
    hide Decide;
    var t := Apply(s, step, p);
    var r := t.db.rows[x.id];
    assert Belongs(t.origins, r, t.origins[step.renewed]);
    assert t.db == s.db.(rows := s.db.rows[x.id := r]);
    assert t.db.rows.Keys == s.db.rows.Keys && |t.db.rows| == |t.db.rows.Keys| == |s.db.rows|;
    RotatedTokens(s, t, x.id, x.token, step.renewed);
    hide Apply, Belongs, Ordered;
    SameSessionApart(s, t.origins, x.id, r);
    PutRow(s, t, x.id, r);
    SnapshotsStill(s, t);
  }

  lemma RotatedTokens(s: System, t: System, id: nat, token: Token, renewed: Token)
    requires Sound(s) && id in s.db.rows && s.db.rows[id].current == token && renewed !in s.origins
    requires t.origins == s.origins[renewed := s.origins[token]] && t.replaced == s.replaced + multiset{token}
    requires t.logins == s.logins && t.born == s.born && t.db.administrator == s.db.administrator
    ensures ReplacedOk(t) && EpochsOk(t) && t.replaced[renewed] == 0
    ensures forall k :: k in s.db.rows && k != id ==> t.replaced[s.db.rows[k].current] == 0
  {
    hide Belongs, SnapshotOk;
    assert renewed !in s.replaced;
    forall k | k in s.db.rows && k != id ensures s.db.rows[k].current != token {
      assert Apart(s.origins, s.db.rows[k], s.db.rows[id]);
    }
  }

  lemma RefreshKeepsInv(s: System, step: Step, p: Policy)
    requires Inv(s, p) && ValidPolicy(p) && step.Validate? && Enabled(s, step) && DecisionOf(step, p).Refresh?
    requires Accepts(s.db, step, p)
    ensures Inv(Apply(s, step, p), p)
  {
    var x, d := step.snapshot, DecisionOf(step, p);
    assert SnapshotOk(s, x);
    TimesStayOrdered(x.session, x.token, step.now, step.allowRotation, p);
    BearerIsRow(s, x.id, x.token);
    hide Decide;
    var t := Apply(s, step, p);
    var r := t.db.rows[x.id];
    assert Belongs(t.origins, r, t.origins[r.current]);
    assert t == s.(db := s.db.(rows := s.db.rows[x.id := r]));
    assert t.db.rows.Keys == s.db.rows.Keys && |t.db.rows| == |t.db.rows.Keys| == |s.db.rows|;
    hide Apply, Belongs, Ordered;
    SameSessionApart(s, t.origins, x.id, r);
    PutRow(s, t, x.id, r);
    SnapshotsStill(s, t);
  }

  lemma StepKeepsInv(s: System, step: Step, p: Policy)
    requires Inv(s, p) && ValidPolicy(p) && Enabled(s, step)
    ensures Inv(Apply(s, step, p), p)
  {
    match step
    case BootstrapStep =>
    case RevokeStep =>
    case LogIn =>
    case CreateStep(_, _, _, _, _) => CreateKeepsInv(s, step, p);
    case Load(token, id) => LoadKeepsInv(s, step, p);
    case Validate(x, _, _, _) => ValidateKeepsInv(s, step, p);
    case LogoutStep(token) => ShrinkKeepsInv(s, Logout(s.db, token), p);
  }

  lemma LoadKeepsInv(s: System, step: Step, p: Policy)
    requires Inv(s, p) && step.Load? && Enabled(s, step)
    ensures Inv(Apply(s, step, p), p)
  {
    BearerIsRow(s, step.id, step.token);
    var t := Apply(s, step, p);
    assert forall y :: y in t.snapshots ==> SnapshotOk(t, y);
  }

  lemma ValidateKeepsInv(s: System, step: Step, p: Policy)
    requires Inv(s, p) && ValidPolicy(p) && step.Validate? && Enabled(s, step)
    ensures Inv(Apply(s, step, p), p)
  {
    hide Decide, Inv, Enabled;
    var x := step.snapshot;
    if Replaces(s.db, step, p) {
      RotateKeepsInv(s, step, p);
    } else if Accepts(s.db, step, p) {
      RefreshKeepsInv(s, step, p);
    } else {
      ShrinkKeepsInv(s, ValidatedDb(s.db, step, p), p);
    }
  }

  lemma {:induction false} RunKeepsInv(run: seq<System>, steps: seq<Step>, p: Policy, n: nat)
    requires IsRun(run, steps, p) && ValidPolicy(p) && n <= |steps|
    ensures Inv(run[n], p)
  {
    if n > 0 {
      RunKeepsInv(run, steps, p, n - 1);
      assert run[n - 1 + 1] == Apply(run[n - 1], steps[n - 1], p);
      hide Apply, Inv, Enabled;
      StepKeepsInv(run[n - 1], steps[n - 1], p);
    }
  }

  // ---------- what every run keeps ----------

  /** Whom the row belongs to, and that it is of the epoch of the moment, when a token is accepted. */
  lemma AcceptedToken(s: System, step: Step, p: Policy)
    requires Inv(s, p) && ValidPolicy(p) && Enabled(s, step) && Accepts(s.db, step, p)
    ensures var t, id := step.snapshot.token, step.snapshot.id;
            && id in s.db.rows && Bears(s.db.rows[id], t) && t in s.origins
            && s.db.administrator == Administrator(s.origins[t].epoch)
            && Belongs(s.origins, s.db.rows[id], s.origins[t])
            && Unix(step.now) <= DecisionOf(step, p).at < s.origins[t].absolute
            && (s.db.rows[id].current != t ==> DecisionOf(step, p).at < s.db.rows[id].previous.validUntil)
  {
    var x := step.snapshot;
    assert SnapshotOk(s, x);
    TimesStayOrdered(x.session, x.token, step.now, step.allowRotation, p);
    BearerIsRow(s, x.id, x.token);
    hide Decide;
  }

  /** What only grows in a run. */
  predicate Later(s: System, t: System) {
    && Extends(s.origins, t.origins) && s.logins <= t.logins
    && (s.db.administrator.Administrator? ==>
          t.db.administrator.Administrator? && s.db.administrator.epoch <= t.db.administrator.epoch)
  }

  lemma StepIsLater(s: System, step: Step, p: Policy)
    requires Enabled(s, step)
    ensures Later(s, Apply(s, step, p))
    ensures step.RevokeStep? && s.db.administrator.Administrator? ==>
              Apply(s, step, p).db.administrator.epoch > s.db.administrator.epoch
  {
    hide Decide;
  }

  lemma {:induction false} RunIsLater(run: seq<System>, steps: seq<Step>, p: Policy, m: nat, n: nat)
    requires IsRun(run, steps, p) && m <= n <= |steps|
    ensures Later(run[m], run[n])
    decreases n
  {
    hide Apply, Enabled;
    if m < n {
      RunIsLater(run, steps, p, m, n - 1);
      assert run[n - 1 + 1] == Apply(run[n - 1], steps[n - 1], p);
      StepIsLater(run[n - 1], steps[n - 1], p);
    }
  }

  /**
   Once the epoch has been advanced, no token issued before is accepted by any validation whose update runs
   afterwards, however long before it loaded its row; and no login whose password was checked before gets a
   session.
   */
  lemma RevokedForGood(run: seq<System>, steps: seq<Step>, p: Policy, m: nat, n: nat)
    requires IsRun(run, steps, p) && ValidPolicy(p) && m < n < |steps| && steps[m].RevokeStep?
    ensures steps[n].Validate? && steps[n].snapshot.token in run[m].origins ==> !Accepts(run[n].db, steps[n], p)
    ensures steps[n].CreateStep? && steps[n].epoch in run[m].logins ==> run[n + 1] == run[n]
  {
    hide Apply, Decide;
    RunKeepsInv(run, steps, p, m);
    RunKeepsInv(run, steps, p, n);
    RunIsLater(run, steps, p, m + 1, n);
    StepIsLater(run[m], steps[m], p);
    if Accepts(run[n].db, steps[n], p) {
      AcceptedToken(run[n], steps[n], p);
    }
    if steps[n].CreateStep? && steps[n].epoch in run[m].logins {
      CreateRefused(run[n], steps[n], p);
    }
  }

  lemma CreateRefused(s: System, step: Step, p: Policy)
    requires step.CreateStep? && s.db.administrator != Administrator(step.epoch)
    ensures Apply(s, step, p) == s
  {
  }

  /** Of all validations of a token, in any run, at most one is given a replacement. */
  lemma ReplacedAtMostOnce(run: seq<System>, steps: seq<Step>, p: Policy, n: nat, t: Token)
    requires IsRun(run, steps, p) && ValidPolicy(p) && n <= |steps|
    ensures run[n].replaced[t] <= 1
    ensures n < |steps| && Replaces(run[n].db, steps[n], p) && steps[n].snapshot.token == t ==>
              run[n].replaced[t] == 0 && run[n + 1].replaced[t] == 1
  {
    RunKeepsInv(run, steps, p, n);
    hide Decide;
    if n < |steps| && Replaces(run[n].db, steps[n], p) && steps[n].snapshot.token == t {
      assert SnapshotOk(run[n], steps[n].snapshot);
      var row := run[n].db.rows[steps[n].snapshot.id];
      assert row.current == t && run[n].replaced[row.current] == 0;
    }
  }

  /**
   A token is accepted only before the absolute expiry fixed when its session was created, which every rotation
   hands on, and as a previous token only before its grace ends; and each row has the absolute expiry and the CSRF
   token of its session and idles out no later.
   */
  lemma ExpiryHolds(run: seq<System>, steps: seq<Step>, p: Policy, n: nat)
    requires IsRun(run, steps, p) && ValidPolicy(p) && n < |steps|
    ensures Accepts(run[n].db, steps[n], p) ==>
              var t, id := steps[n].snapshot.token, steps[n].snapshot.id;
              && t in run[n].origins && id in run[n].db.rows
              && Unix(steps[n].now) <= DecisionOf(steps[n], p).at < run[n].origins[t].absolute
              && (run[n].db.rows[id].current != t ==> DecisionOf(steps[n], p).at < run[n].db.rows[id].previous.validUntil)
    ensures Replaces(run[n].db, steps[n], p) ==>
              && steps[n].renewed in run[n + 1].origins && steps[n].snapshot.token in run[n].origins
              && run[n + 1].origins[steps[n].renewed] == run[n].origins[steps[n].snapshot.token]
    ensures forall id :: id in run[n].db.rows ==>
              var r := run[n].db.rows[id];
              && r.idleExpires <= r.absoluteExpires && r.current in run[n].origins
              && r.absoluteExpires == run[n].origins[r.current].absolute && r.csrf == run[n].origins[r.current].csrf
  {
    hide Decide;
    RunKeepsInv(run, steps, p, n);
    if Accepts(run[n].db, steps[n], p) {
      AcceptedToken(run[n], steps[n], p);
    }
    forall id | id in run[n].db.rows
      ensures var r := run[n].db.rows[id]; r.idleExpires <= r.absoluteExpires && r.current in run[n].origins
      ensures var r := run[n].db.rows[id];
              r.absoluteExpires == run[n].origins[r.current].absolute && r.csrf == run[n].origins[r.current].csrf
    {
      assert Belongs(run[n].origins, run[n].db.rows[id], run[n].origins[run[n].db.rows[id].current]);
    }
  }

  /** Wherever t is still known it is a previous token, to be accepted until limit. */
  predicate Limited(db: Database, t: Token, limit: int) {
    forall id :: id in db.rows ==>
      && db.rows[id].current != t
      && (db.rows[id].previous.Previous? && db.rows[id].previous.token == t ==> db.rows[id].previous.validUntil == limit)
  }

  lemma ReplacedIsLimited(s: System, step: Step, p: Policy)
    requires Inv(s, p) && Enabled(s, step) && Replaces(s.db, step, p)
    ensures Limited(Apply(s, step, p).db, step.snapshot.token, DecisionOf(step, p).at + p.grace / SECOND)
    ensures step.snapshot.token in s.origins
  {
    hide Decide, Ordered;
    var id, t := step.snapshot.id, step.snapshot.token;
    BearerIsRow(s, id, t);
    forall k | k in s.db.rows && k != id ensures !Bears(s.db.rows[k], t) {
      assert Apart(s.origins, s.db.rows[k], s.db.rows[id]);
      if Bears(s.db.rows[k], t) {
        BearerIsRow(s, k, t);
      }
    }
  }

  lemma LimitStays(s: System, step: Step, p: Policy, t: Token, limit: int)
    requires Inv(s, p) && ValidPolicy(p) && Enabled(s, step) && t in s.origins && Limited(s.db, t, limit)
    ensures Limited(Apply(s, step, p).db, t, limit)
  {
    hide Decide, Inv;
    if step.CreateStep? {
      CreateApplied(s, step, p);
      hide Apply;
      if s.db.administrator == Administrator(step.epoch) {
        CreateRows(s.db, step.epoch, step.id, step.token, step.csrf, step.now, p);
        NewSessionFields(step.epoch, step.token, step.csrf, step.now, p);
      }
      hide Create, NewSession;
    }
  }

  lemma {:induction false} LimitHolds(run: seq<System>, steps: seq<Step>, p: Policy, m: nat, n: nat, t: Token, limit: int)
    requires IsRun(run, steps, p) && ValidPolicy(p) && m <= n <= |steps|
    requires t in run[m].origins && Limited(run[m].db, t, limit)
    ensures Limited(run[n].db, t, limit)
    decreases n
  {
    hide Apply, Inv, Enabled, Limited;
    if m < n {
      LimitHolds(run, steps, p, m, n - 1, t, limit);
      RunKeepsInv(run, steps, p, n - 1);
      RunIsLater(run, steps, p, m, n - 1);
      assert run[n - 1 + 1] == Apply(run[n - 1], steps[n - 1], p);
      LimitStays(run[n - 1], steps[n - 1], p, t, limit);
    }
  }

  /**
   The grace of a replaced token is fixed when it is replaced: whatever happens afterwards, it is never accepted
   once the effective time of a validation reaches that limit, and never replaced again.
   */
  lemma GraceEnds(run: seq<System>, steps: seq<Step>, p: Policy, m: nat, n: nat)
    requires IsRun(run, steps, p) && ValidPolicy(p) && m < n < |steps|
    requires Replaces(run[m].db, steps[m], p) && Accepts(run[n].db, steps[n], p)
    requires steps[n].snapshot.token == steps[m].snapshot.token
    ensures DecisionOf(steps[n], p).Refresh?
    ensures DecisionOf(steps[n], p).at < DecisionOf(steps[m], p).at + p.grace / SECOND
  {
    hide Apply, Decide, Inv, Enabled;
    var t, limit := steps[m].snapshot.token, DecisionOf(steps[m], p).at + p.grace / SECOND;
    RunKeepsInv(run, steps, p, m);
    ReplacedIsLimited(run[m], steps[m], p);
    RunIsLater(run, steps, p, m, m + 1);
    LimitHolds(run, steps, p, m + 1, n, t, limit);
  }

  /**
   Cleanup after a stale validation removes at most the session that the validation had loaded: a session
   created since, even under the same row id, stays.
   */
  lemma CleanupIsBound(run: seq<System>, steps: seq<Step>, p: Policy, n: nat, id: nat)
    requires IsRun(run, steps, p) && ValidPolicy(p) && n < |steps|
    requires steps[n].Validate? && id in run[n].db.rows && id !in run[n + 1].db.rows
    ensures var x, r := steps[n].snapshot, run[n].db.rows[id];
            && id == x.id && DecisionOf(steps[n], p).Expired?
            && r.current in run[n].origins && x.token in run[n].origins
            && run[n].origins[r.current] == run[n].origins[x.token] && run[n].origins[r.current].serial < x.born
  {
    hide Decide;
    RunKeepsInv(run, steps, p, n);
    var x := steps[n].snapshot;
    assert SnapshotOk(run[n], x);
    BearerIsRow(run[n], id, x.token);
  }

  /** There are never more sessions than the policy allows. */
  lemma SessionsBounded(run: seq<System>, steps: seq<Step>, p: Policy, n: nat)
    requires IsRun(run, steps, p) && ValidPolicy(p) && n <= |steps|
    ensures |run[n].db.rows| <= p.maximum
  {
    RunKeepsInv(run, steps, p, n);
  }

  /** A login of the current epoch keeps its session when no row was used later and none has a larger id. */
  lemma NewSessionSurvives(s: System, step: Step, p: Policy)
    requires ValidPolicy(p) && step.CreateStep? && s.db.administrator == Administrator(step.epoch)
    requires forall k :: k in s.db.rows ==> s.db.rows[k].lastSeen <= Unix(step.now) && k < step.id
    ensures var t := Apply(s, step, p);
            && step.id in t.db.rows && Bears(t.db.rows[step.id], step.token) && Selects(t.db, step.token, step.id)
            && t.db.rows[step.id].absoluteExpires == Unix(step.now + p.absolute)
  {
    CreateRows(s.db, step.epoch, step.id, step.token, step.csrf, step.now, p);
    hide Create;
  }
}
