/** The service as the program runs it: statements on shared rows, with other requests between any two of them. */
module SessionService {
  import opened SessionStore
  import opened SessionRuns
  import opened SessionIdle
  import opened SessionLives

  datatype Answer =
    | InvalidSession
    | SessionExpired
    | Kept(idleExpires: int, absoluteExpires: int, csrf: Token)
    | Renewed(token: Token, idleExpires: int, absoluteExpires: int, csrf: Token)

  datatype Loaded = NoRow | Row(id: nat, session: Session)

  /** One pass of a validation: its clock, its fresh token, and what other requests do after it has loaded. */
  datatype Pass = Pass(now: int, renewed: Token, others: seq<Step>)

  function SnapshotOf(t: Token, row: Loaded, born: nat): Snapshot
    requires row.Row?
  {
    Snapshot(t, row.id, row.session, born)
  }

  /** The step that the second statement of a pass is. */
  function StepOf(t: Token, row: Loaded, born: nat, pass: Pass, allowRotation: bool): Step
    requires row.Row?
  {
    Validate(SnapshotOf(t, row, born), pass.now, allowRotation, pass.renewed)
  }

  /** A due rotation that another request has overtaken. */
  predicate Overtaken(db: Database, step: Step, p: Policy) {
    step.Validate? && DecisionOf(step, p).Rotate? && !Replaces(db, step, p)
  }

  function AnswerTo(db: Database, step: Step, p: Policy): Answer
    requires step.Validate?
  {
    var x, d := step.snapshot.session, DecisionOf(step, p);
    if d.Expired? then SessionExpired
    else if !Accepts(db, step, p) then InvalidSession
    else if d.Rotate? then Renewed(step.renewed, d.idleExpires, x.absoluteExpires, x.csrf)
    else Kept(d.idleExpires, x.absoluteExpires, x.csrf)
  }

  /** Idle for too long, or past its absolute expiry. */
  predicate Ended(r: Session, now: int) {
    Latest(r.lastSeen, Unix(now)) >= r.idleExpires || Latest(r.lastSeen, Unix(now)) >= r.absoluteExpires
  }

  predicate Accepting(answer: Answer) { answer.Kept? || answer.Renewed? }

  /** An accepting answer tells what is now in the row, and the absolute expiry and CSRF token fixed at login. */
  predicate Tells(answer: Answer, s: System, t: Token, id: nat)
    requires Accepting(answer)
  {
    && t in s.origins && id in s.db.rows
    && answer.absoluteExpires == s.origins[t].absolute && answer.csrf == s.origins[t].csrf
    && answer.idleExpires == s.db.rows[id].idleExpires
    && (answer.Renewed? ==> answer.token == s.db.rows[id].current)
  }

  /**
   What a pass that has found a row leaves: its load, what others did, and its second statement are possible
   steps. A token is accepted only when it was issued after the last revocation and its session was active within the
   idle time, and replaced only once. Whether it has expired is decided by the row that was loaded, and when nobody
   disturbs, it is accepted exactly when it is in time.
   */
  ghost predicate Validated(before: seq<Step>, after: seq<Step>, t: Token, row: Loaded, pass: Pass, allowRotation: bool,
                            p: Policy, answer: Answer, retry: bool)
    requires row.Row? && Possible(START, before, p) && Possible(START, after, p)
  {
    var prior := before + [Load(t, row.id)] + pass.others;
    var step := StepOf(t, row, After(START, before, p).born, pass, allowRotation);
    && after == prior + [step] && Possible(START, prior, p)
    && var s := After(START, prior, p);
       && answer == AnswerTo(s.db, step, p) && retry == Overtaken(s.db, step, p)
       && (Accepting(answer) ==>
             IssuedSince(after, t, p) && ActiveWithin(after, t, pass.now, p) && Tells(answer, After(START, after, p), t, row.id))
       && (answer.SessionExpired? <==> Ended(row.session, pass.now))
       && (pass.others == [] ==> (Accepting(answer) <==> InTime(row.session, t, pass.now)))
       && (answer.Renewed? ==> s.replaced[t] == 0 && After(START, after, p).replaced[t] == 1)
  }

  /** What one statement of some request makes of the rows. */
  function Stepped(db: Database, step: Step, p: Policy): Database {
    match step
    case BootstrapStep => Bootstrap(db)
    case RevokeStep => AdvanceEpoch(db)
    case CreateStep(epoch, id, token, csrf, now) =>
      var created := Create(db, epoch, id, token, csrf, now, p);
      if created.Created? then created.db else db
    case Validate(_, _, _, _) => ValidatedDb(db, step, p)
    case LogoutStep(token) => Logout(db, token)
    case _ => db
  }

  lemma SteppedIsApplied(s: System, step: Step, p: Policy)
    ensures Apply(s, step, p).db == Stepped(s.db, step, p)
  {
    hide Create, ValidatedDb, Replaces;
  }

  class Service {
    const policy: Policy
    var administrator: Administrator
    var rows: map<nat, Session>

    // Every statement that any request has executed.
    ghost var history: seq<Step>

    ghost predicate Valid()
      reads this
    {
      ValidPolicy(policy) && Possible(START, history, policy) && After(START, history, policy).db == Db()
    }

    ghost function Now(): (s: System)
      requires Valid()
      reads this
      ensures s.db == Db()
    {
      After(START, history, policy)
    }

    /** The service on a database as earlier requests left it. */
    constructor (policy: Policy, db: Database, ghost history: seq<Step>)
      requires ValidPolicy(policy) && Possible(START, history, policy) && After(START, history, policy).db == db
      ensures Valid() && this.policy == policy && Db() == db && this.history == history
    {
      this.policy, this.history := policy, history;
      administrator, rows := db.administrator, db.rows;
    }

    function Db(): Database
      reads this
    {
      Database(administrator, rows)
    }

    /** A statement that has changed the rows goes down in the history. */
    ghost method Record(step: Step, before: Database)
      requires ValidPolicy(policy) && Possible(START, history, policy) && After(START, history, policy).db == before
      requires Enabled(After(START, history, policy), step) && Db() == Stepped(before, step, policy)
      modifies this`history
      ensures Valid() && history == old(history) + [step]
      ensures Now() == Apply(After(START, old(history), policy), step, policy)
    {
      hide Possible, After, Enabled, Apply, Stepped;
      Add(START, history, step, policy);
      SteppedIsApplied(After(START, history, policy), step, policy);
      history := history + [step];
    }

    /** What other requests do. */
    method Meanwhile(others: seq<Step>)
      requires Valid() && Possible(Now(), others, policy)
      modifies this
      ensures Valid() && history == old(history) + others && Now() == After(old(Now()), others, policy)
    {
      hide Possible, After, Enabled, Apply, Stepped, ValidPolicy;
      ghost var start, before := Now(), history;
      Join(START, history, others, policy);
      assert before + others[..0] == before;
      for i := 0 to |others|
        invariant Valid() && history == before + others[..i]
      {
        Prefix(START, before + others, |before| + i + 1, policy);
        assert (before + others)[..|before| + i + 1] == history + [others[i]];
        Add(START, history, others[i], policy);
        ghost var db := Db();
        var next := Stepped(Db(), others[i], policy);
        administrator, rows := next.administrator, next.rows;
        Record(others[i], db);
        assert before + others[..i + 1] == before + others[..i] + [others[i]];
      }
      assert others[..|others|] == others;
    }

    method Initialize() returns (ok: bool)
      requires Valid()
      modifies this
      ensures Valid() && history == old(history) + [BootstrapStep]
      ensures ok == old(administrator).NoAdministrator? && administrator.Administrator?
    {
      hide Possible, After, ValidPolicy, Apply;
      ghost var db := Db();
      ok := administrator.NoAdministrator?;
      if ok {
        administrator := Administrator(1);
      }
      Record(BootstrapStep, db);
    }

    method CreateSession(epoch: int, id: nat, token: Token, csrf: Token, now: int) returns (created: bool)
      requires Valid() && Enabled(Now(), CreateStep(epoch, id, token, csrf, now))
      modifies this
      ensures Valid() && history == old(history) + [CreateStep(epoch, id, token, csrf, now)]
      ensures created <==> old(administrator) == Administrator(epoch)
      ensures created ==> CheckedSince(history, epoch, policy)
    {
      hide Possible, After, ValidPolicy, Apply, Enabled, CheckedSince, Newest;
      ghost var db, s := Db(), Now();
      created := StoreSession(epoch, id, token, csrf, now);
      if created {
        CreatedChanges(s, CreateStep(epoch, id, token, csrf, now), policy);
        CreatedIsCurrent(history, CreateStep(epoch, id, token, csrf, now), policy);
      }
      Record(CreateStep(epoch, id, token, csrf, now), db);
    }

    /**
     Loads the epoch, checks the password while others act, and creates the session in a later transaction, which is
     refused when a reset or a revocation has come between.
     */
    method Authenticate(verified: bool, others: seq<Step>, id: nat, token: Token, csrf: Token, now: int)
      returns (created: bool)
      requires Valid()
      requires administrator.Administrator? && verified ==>
                 && Possible(Now(), [LogIn] + others, policy)
                 && Enabled(After(Now(), [LogIn] + others, policy), CreateStep(administrator.epoch, id, token, csrf, now))
      modifies this
      ensures Valid()
      ensures !(old(administrator).Administrator? && verified) ==> !created && history == old(history)
      ensures old(administrator).Administrator? && verified ==>
                var epoch, prior := old(administrator).epoch, [LogIn] + others;
                && history == old(history) + prior + [CreateStep(epoch, id, token, csrf, now)]
                && (created <==> After(old(Now()), prior, policy).db.administrator == Administrator(epoch))
                && (created ==> CheckedSince(history, epoch, policy))
    {
      hide Possible, After, ValidPolicy, Apply, Enabled, CheckedSince, Alive;
      if administrator.NoAdministrator? || !verified {
        return false;
      }
      var epoch := administrator.epoch;
      Meanwhile([LogIn] + others);
      created := CreateSession(epoch, id, token, csrf, now);
    }

    method StoreSession(epoch: int, id: nat, token: Token, csrf: Token, now: int) returns (created: bool)
      modifies this`rows
      ensures var after := Create(old(Db()), epoch, id, token, csrf, now, policy);
              if after.Created? then created && Db() == after.db else !created && Db() == old(Db())
    {
      var nowUnix := Unix(now);
      var kept := map k | k in rows && !(rows[k].idleExpires <= nowUnix || rows[k].absoluteExpires <= nowUnix
                                         || administrator != Administrator(rows[k].epoch)) :: rows[k];
      if administrator != Administrator(epoch) {
        return false;
      }
      ghost var alive := map k | k in rows && Alive(Db(), rows[k], nowUnix) :: rows[k];
      assert kept == alive;
      kept := kept[id := NewSession(epoch, token, csrf, now, policy)];
      rows := Newest(kept, policy.maximum);
      return true;
    }

    /** Any one row that the token selects. */
    method LoadSession(t: Token) returns (row: Loaded)
      ensures row.Row? ==> Selects(Db(), t, row.id) && row.session == rows[row.id]
      ensures row.NoRow? ==> forall id :: !Selects(Db(), t, id)
    {
      if id: nat :| id in rows && Bears(rows[id], t) && administrator == Administrator(rows[id].epoch) {
        return Row(id, rows[id]);
      }
      return NoRow;
    }

    method DeleteExpiredSession(row: Loaded, t: Token)
      requires row.Row?
      modifies this`rows
      ensures Db() == DeleteExpired(old(Db()), row.id, row.session.epoch, t)
    {
      rows := map k | k in rows && !(k == row.id && rows[k].epoch == row.session.epoch && Bears(rows[k], t)) :: rows[k];
    }

    /** The second statement of a pass acts on the row that the first has loaded. */
    method Settle(t: Token, row: Loaded, pass: Pass, allowRotation: bool) returns (answer: Answer, retry: bool)
      requires row.Row?
      modifies this`rows
      ensures var db, step := old(Db()), StepOf(t, row, 0, pass, allowRotation);
              && Db() == ValidatedDb(db, step, policy)
              && retry == Overtaken(db, step, policy) && answer == AnswerTo(db, step, policy)
    {
      var record := row.session;
      var effectiveNow := Unix(pass.now);
      if record.lastSeen > effectiveNow {
        effectiveNow := record.lastSeen;
      }
      if effectiveNow >= record.idleExpires || effectiveNow >= record.absoluteExpires {
        DeleteExpiredSession(row, t);
        return SessionExpired, false;
      }
      var matchedCurrent := t == record.current;
      var matchedPrevious := record.previous.Previous? && t == record.previous.token;
      if !matchedCurrent && !matchedPrevious {
        return InvalidSession, false;
      }
      if matchedPrevious && effectiveNow >= record.previous.validUntil {
        if row.id in rows && rows[row.id].previous.Previous? && rows[row.id].previous.token == t {
          rows := rows[row.id := rows[row.id].(previous := NoPrevious)];
        }
        return InvalidSession, false;
      }
      var idleExpiry := effectiveNow + policy.idle / SECOND;
      if idleExpiry > record.absoluteExpires {
        idleExpiry := record.absoluteExpires;
      }
      if allowRotation && matchedCurrent && effectiveNow >= record.rotateAfter {
        if Rotates(Db(), row.id, t, effectiveNow) {
          rows := RotateRow(Db(), row.id, t, pass.renewed, effectiveNow, idleExpiry, policy).rows;
          return Renewed(pass.renewed, idleExpiry, record.absoluteExpires, record.csrf), false;
        }
        return InvalidSession, true;
      }
      if !Refreshes(Db(), row.id, t, effectiveNow) {
        return InvalidSession, false;
      }
      rows := RefreshRow(Db(), row.id, t, effectiveNow, idleExpiry).rows;
      return Kept(idleExpiry, record.absoluteExpires, record.csrf), false;
    }

    /** One pass: load, let others act, decide, and act in one statement. */
    method ValidateOnce(t: Token, pass: Pass, allowRotation: bool) returns (answer: Answer, retry: bool, row: Loaded)
      requires Valid() && Possible(Now(), pass.others, policy)
      requires pass.renewed !in After(Now(), pass.others, policy).origins
      modifies this
      ensures Valid()
      ensures row.NoRow? ==>
                && (forall id :: !Selects(old(Db()), t, id)) && answer.InvalidSession? && !retry
                && history == old(history) + pass.others
      ensures row.Row? ==>
                && Selects(old(Db()), t, row.id) && row.session == old(rows)[row.id]
                && Validated(old(history), history, t, row, pass, allowRotation, policy, answer, retry)
      ensures retry ==>
                row.Row? && Now() == Seen(After(old(Now()), pass.others, policy), SnapshotOf(t, row, old(Now()).born))
    {
      hide Possible, After, ValidPolicy, Enabled, Selects, Seen, ValidatedDb, Overtaken, AnswerTo, IssuedSince, Apply,
           ActiveWithin, Tells, Ended, InTime;
      row := LoadSession(t);
      if row.NoRow? {
        Meanwhile(pass.others);
        return InvalidSession, false, NoRow;
      }
      ghost var start, x := Now(), SnapshotOf(t, row, Now().born);
      LoadSees(start, t, row, policy);
      Record(Load(t, row.id), Db());
      MoreLoaded(start, pass.others, x, policy);
      Meanwhile(pass.others);
      ghost var prior, s, db := history, Now(), Db();
      ghost var step := StepOf(t, row, start.born, pass, allowRotation);
      answer, retry := Settle(t, row, pass, allowRotation);
      BornIsNoMatter(db, t, row, start.born, pass, allowRotation, policy);
      SeenEnables(After(start, pass.others, policy), step);
      Answered(prior, step, policy);
      ExpiredIffEnded(db, step, policy);
      if pass.others == [] {
        NothingElse(Seen(start, x), policy);
        SeenIssues(start, x);
        AtOnce(prior, step, policy);
      }
      Record(step, db);
    }

    /** A rotation that was overtaken is tried once more, as a validation that may not rotate. */
    method ValidateSession(t: Token, first: Pass, second: Pass)
      returns (answer: Answer, tried: seq<Loaded>, ghost between: seq<Step>)
      requires Valid() && Possible(Now(), first.others, policy)
      requires Possible(After(Now(), first.others, policy), second.others, policy)
      requires first.renewed !in After(Now(), first.others, policy).origins
      requires second.renewed !in After(After(Now(), first.others, policy), second.others, policy).origins
      modifies this
      ensures Valid() && Possible(START, between, policy) && 1 <= |tried| <= 2
      ensures tried[0].NoRow? ==> |tried| == 1 && answer.InvalidSession? && history == old(history) + first.others
      ensures tried[0].Row? ==>
                Validated(old(history), between, t, tried[0], first, true, policy,
                          if |tried| == 1 then answer else InvalidSession, |tried| == 2)
      ensures |tried| == 1 ==> history == between
      ensures |tried| == 2 ==>
                && !answer.Renewed?
                && if tried[1].Row? then Validated(between, history, t, tried[1], second, false, policy, answer, false)
                   else answer.InvalidSession? && history == between + second.others
      ensures Accepting(answer) ==> IssuedSince(history, t, policy)
    {
      hide Possible, After, ValidPolicy, Enabled, Selects, Seen, ValidatedDb, IssuedSince, Apply, ActiveWithin, Tells, Ended,
           InTime;
      ghost var start := Now();
      var row, retry;
      answer, retry, row := ValidateOnce(t, first, true);
      tried, between := [row], history;
      if retry {
        MoreLoaded(After(start, first.others, policy), second.others, SnapshotOf(t, row, start.born), policy);
        SeenIssues(After(After(start, first.others, policy), second.others, policy), SnapshotOf(t, row, start.born));
        answer, retry, row := ValidateOnce(t, second, false);
        tried := tried + [row];
      }
    }

    method Revoke() returns (ok: bool)
      requires Valid()
      modifies this
      ensures Valid() && history == old(history) + [RevokeStep] && Db() == AdvanceEpoch(old(Db()))
      ensures ok == old(administrator).Administrator?
    {
      hide Possible, After, ValidPolicy, Apply;
      ghost var db := Db();
      ok := administrator.Administrator?;
      if ok {
        administrator := Administrator(administrator.epoch + 1);
        rows := map[];
      }
      Record(RevokeStep, db);
    }

    method LogOut(t: Token)
      requires Valid()
      modifies this
      ensures Valid() && history == old(history) + [LogoutStep(t)] && Db() == Logout(old(Db()), t)
    {
      hide Possible, After, ValidPolicy, Apply;
      ghost var db := Db();
      rows := map k | k in rows && !Bears(rows[k], t) :: rows[k];
      Record(LogoutStep(t), db);
    }
  }

  lemma CreatedChanges(s: System, step: Step, p: Policy)
    requires step.CreateStep? && s.db.administrator == Administrator(step.epoch)
    ensures Apply(s, step, p) != s
  {
    hide Newest, Alive;
    assert Apply(s, step, p).born == s.born + 1;
  }

  lemma LoadSees(s: System, t: Token, row: Loaded, p: Policy)
    requires row.Row? && Selects(s.db, t, row.id) && row.session == s.db.rows[row.id]
    ensures Enabled(s, Load(t, row.id)) && Apply(s, Load(t, row.id), p) == Seen(s, SnapshotOf(t, row, s.born))
  {
  }

  lemma SeenEnables(s: System, step: Step)
    requires step.Validate? && step.renewed !in s.origins
    ensures Enabled(Seen(s, step.snapshot), step)
  {
  }

  lemma NothingElse(s: System, p: Policy)
    ensures Possible(s, [], p) && After(s, [], p) == s
  {
  }

  lemma SeenIssues(s: System, x: Snapshot)
    ensures Seen(s, x).origins == s.origins && Seen(s, x).db == s.db
  {
  }

  /** How many sessions there were does not bear on a decision. */
  lemma BornIsNoMatter(db: Database, t: Token, row: Loaded, born: nat, pass: Pass, allowRotation: bool, p: Policy)
    requires row.Row?
    ensures var a, b := StepOf(t, row, 0, pass, allowRotation), StepOf(t, row, born, pass, allowRotation);
            && ValidatedDb(db, a, p) == ValidatedDb(db, b, p) && Overtaken(db, a, p) == Overtaken(db, b, p)
            && AnswerTo(db, a, p) == AnswerTo(db, b, p)
  {
    hide Decide, DeleteExpired, ClearPrevious, RotateRow, RefreshRow, Rotates, Refreshes;
  }

  lemma Answered(prior: seq<Step>, step: Step, p: Policy)
    requires ValidPolicy(p) && Possible(START, prior, p) && step.Validate? && Enabled(After(START, prior, p), step)
    ensures var s, t := After(START, prior, p), Apply(After(START, prior, p), step, p);
            && Possible(START, prior + [step], p) && After(START, prior + [step], p) == t
            && (Accepting(AnswerTo(s.db, step, p)) ==>
                  && IssuedSince(prior + [step], step.snapshot.token, p)
                  && ActiveWithin(prior + [step], step.snapshot.token, step.now, p)
                  && Tells(AnswerTo(s.db, step, p), t, step.snapshot.token, step.snapshot.id))
            && (AnswerTo(s.db, step, p).Renewed? ==>
                  s.replaced[step.snapshot.token] == 0 && t.replaced[step.snapshot.token] == 1)
            && (Overtaken(s.db, step, p) ==> t == s && AnswerTo(s.db, step, p).InvalidSession?)
  {
    hide Decide, Enabled, Possible, After, ValidPolicy, IssuedSince, ActiveWithin, Tells;
    var s := After(START, prior, p);
    Add(START, prior, step, p);
    if Accepts(s.db, step, p) {
      AcceptedIsCurrent(prior, step, p);
      AcceptedIsActive(prior, step, p);
      AcceptedTells(prior, step, p);
    }
    if Replaces(s.db, step, p) {
      RenewedIsFirst(prior, step, p);
    }
  }

  lemma AcceptedTells(prior: seq<Step>, step: Step, p: Policy)
    requires ValidPolicy(p) && Possible(START, prior, p) && step.Validate? && Enabled(After(START, prior, p), step)
    requires Accepts(After(START, prior, p).db, step, p)
    ensures var s := After(START, prior, p);
            && Accepting(AnswerTo(s.db, step, p))
            && Tells(AnswerTo(s.db, step, p), Apply(s, step, p), step.snapshot.token, step.snapshot.id)
  {
    var s := After(START, prior, p);
    HistoryKeepsInv(prior, p);
    ValidatedIsLoaded(s, step);
    assert SnapshotOk(s, step.snapshot);
    AcceptedToken(s, step, p);
    StepIsLater(s, step, p);
    hide Possible, After, Decide, Inv, Enabled, Belongs;
  }

  /** What the loaded row tells of the answer, whatever others have done since. */
  lemma ExpiredIffEnded(db: Database, step: Step, p: Policy)
    requires step.Validate?
    ensures AnswerTo(db, step, p).SessionExpired? <==> Ended(step.snapshot.session, step.now)
  {
  }

  lemma AtOnce(prior: seq<Step>, step: Step, p: Policy)
    requires ValidPolicy(p) && Possible(START, prior, p) && step.Validate?
    requires var x, db := step.snapshot, After(START, prior, p).db; Selects(db, x.token, x.id) && x.session == db.rows[x.id]
    ensures Accepting(AnswerTo(After(START, prior, p).db, step, p)) <==> InTime(step.snapshot.session, step.snapshot.token, step.now)
  {
    var s, x := After(START, prior, p), step.snapshot;
    HistoryKeepsInv(prior, p);
    BearerIsRow(s, x.id, x.token);
    UndisturbedIff(s.db, x.token, x.id, x.born, step.now, step.allowRotation, step.renewed, p);
    AcceptingIff(s.db, step, p);
    hide Possible, After, Accepts, AnswerTo;
  }

  lemma AcceptingIff(db: Database, step: Step, p: Policy)
    requires step.Validate?
    ensures Accepting(AnswerTo(db, step, p)) <==> Accepts(db, step, p)
  {
    hide Refreshes, Rotates;
  }
}
