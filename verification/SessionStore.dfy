/** Session rows and the single statements and transactions that change them. */
module SessionStore {
  const SECOND := 1000000000

  /** A token, known only by its digest; distinct tokens have distinct digests. */
  type Token = nat

  /** Nanoseconds; stored times are whole seconds. */
  function Unix(t: int): int { t / SECOND }

  datatype Policy = Policy(idle: int, absolute: int, rotation: int, grace: int, maximum: int)

  predicate ValidPolicy(p: Policy) {
    && SECOND <= p.idle <= p.absolute && SECOND <= p.rotation < p.absolute && SECOND <= p.grace
    && 1 <= p.maximum <= 64
  }

  /** The token before the last rotation, and when it stops being accepted. */
  datatype Previous = NoPrevious | Previous(token: Token, validUntil: int)

  datatype Session = Session(epoch: int, current: Token, previous: Previous, csrf: Token, created: int,
                             lastSeen: int, idleExpires: int, absoluteExpires: int, rotateAfter: int)

  datatype Administrator = NoAdministrator | Administrator(epoch: int)

  /** The administrator, if there is one, and the session rows by row id. */
  datatype Database = Database(administrator: Administrator, rows: map<nat, Session>)

  predicate Bears(s: Session, t: Token) {
    s.current == t || (s.previous.Previous? && s.previous.token == t)
  }

  // ---------- creation ----------

  predicate Alive(db: Database, s: Session, now: int) {
    now < s.idleExpires && now < s.absoluteExpires && db.administrator == Administrator(s.epoch)
  }

  function NewSession(epoch: int, token: Token, csrf: Token, now: int, p: Policy): Session {
    Session(epoch, token, NoPrevious, csrf, Unix(now), Unix(now),
            Unix(if p.idle > p.absolute then now + p.absolute else now + p.idle), Unix(now + p.absolute),
            Unix(now + p.rotation))
  }

  /** Row j comes before row k in the order of last use, later ids first among equals. */
  predicate Ahead(rows: map<nat, Session>, j: nat, k: nat)
    requires j in rows && k in rows
  {
    rows[j].lastSeen > rows[k].lastSeen || (rows[j].lastSeen == rows[k].lastSeen && j > k)
  }

  function AheadOf(rows: map<nat, Session>, k: nat): set<nat>
    requires k in rows
  {
    set j | j in rows && Ahead(rows, j, k)
  }

  /** The n rows used last. */
  function Newest(rows: map<nat, Session>, n: int): map<nat, Session> {
    map k | k in rows && |AheadOf(rows, k)| < n :: rows[k]
  }

  datatype Created = Created(db: Database) | Refused

  /** The whole transaction; it is refused when the epoch has moved since the password was checked. */
  function Create(db: Database, epoch: int, id: nat, token: Token, csrf: Token, now: int, p: Policy): Created {
    if db.administrator != Administrator(epoch) then Refused
    else
      var alive := map k | k in db.rows && Alive(db, db.rows[k], Unix(now)) :: db.rows[k];
      Created(db.(rows := Newest(alive[id := NewSession(epoch, token, csrf, now, p)], p.maximum)))
  }

  // ---------- validation ----------

  /** The row a token selects, if its epoch is the current one. */
  predicate Selects(db: Database, t: Token, id: nat) {
    id in db.rows && Bears(db.rows[id], t) && db.administrator == Administrator(db.rows[id].epoch)
  }

  datatype Decision = Expired | Unknown | Lapsed | Rotate(at: int, idleExpires: int) | Refresh(at: int, idleExpires: int)

  function EffectiveNow(s: Session, now: int): int {
    if s.lastSeen > Unix(now) then s.lastSeen else Unix(now)
  }

  /** What a validation makes of the row it has loaded. */
  function Decide(s: Session, t: Token, now: int, allowRotation: bool, p: Policy): Decision {
    var at := EffectiveNow(s, now);
    if at >= s.idleExpires || at >= s.absoluteExpires then Expired
    else if !Bears(s, t) then Unknown
    else if s.previous.Previous? && s.previous.token == t && at >= s.previous.validUntil then Lapsed
    else
      var idle := if at + p.idle / SECOND > s.absoluteExpires then s.absoluteExpires else at + p.idle / SECOND;
      if allowRotation && s.current == t && at >= s.rotateAfter then Rotate(at, idle) else Refresh(at, idle)
  }

  /** Cleanup after expiry, bound to the epoch and the token as well as to the row id. */
  function DeleteExpired(db: Database, id: nat, epoch: int, t: Token): Database {
    db.(rows := map k | k in db.rows && !(k == id && db.rows[k].epoch == epoch && Bears(db.rows[k], t)) :: db.rows[k])
  }

  function ClearPrevious(db: Database, id: nat, t: Token): Database {
    if id in db.rows && db.rows[id].previous.Previous? && db.rows[id].previous.token == t
    then db.(rows := db.rows[id := db.rows[id].(previous := NoPrevious)])
    else db
  }

  /** The row that a rotation would change is still there, due and of the current epoch. */
  predicate Rotates(db: Database, id: nat, t: Token, at: int) {
    && id in db.rows && db.rows[id].current == t && db.rows[id].rotateAfter <= at
    && db.administrator == Administrator(db.rows[id].epoch)
  }

  function RotateRow(db: Database, id: nat, t: Token, renewed: Token, at: int, idle: int, p: Policy): Database {
    if !Rotates(db, id, t, at) then db
    else
      db.(rows := db.rows[id := db.rows[id].(previous := Previous(t, at + p.grace / SECOND), current := renewed,
                                             lastSeen := at, idleExpires := idle,
                                             rotateAfter := at + p.rotation / SECOND)])
  }

  /** The row that a refresh would change still accepts the token, and is of the current epoch. */
  predicate Refreshes(db: Database, id: nat, t: Token, at: int) {
    && id in db.rows && db.administrator == Administrator(db.rows[id].epoch)
    && (db.rows[id].current == t
        || (db.rows[id].previous.Previous? && db.rows[id].previous.token == t
            && db.rows[id].previous.validUntil > at))
  }

  function RefreshRow(db: Database, id: nat, t: Token, at: int, idle: int): Database {
    if !Refreshes(db, id, t, at) then db
    else db.(rows := db.rows[id := db.rows[id].(lastSeen := at, idleExpires := idle)])
  }

  // ---------- administration ----------

  function Bootstrap(db: Database): Database {
    if db.administrator.NoAdministrator? then db.(administrator := Administrator(1)) else db
  }

  function AdvanceEpoch(db: Database): Database {
    if db.administrator.NoAdministrator? then db else Database(Administrator(db.administrator.epoch + 1), map[])
  }

  function Logout(db: Database, t: Token): Database {
    db.(rows := map k | k in db.rows && !Bears(db.rows[k], t) :: db.rows[k])
  }

  // ---------- the bound ----------

  lemma AheadTotal(rows: map<nat, Session>, j: nat, k: nat)
    requires j in rows && k in rows
    ensures j == k || Ahead(rows, j, k) || Ahead(rows, k, j)
  {
  }

  /** The last row of a set in that order. */
  lemma {:induction false} Rearmost(rows: map<nat, Session>, s: set<nat>, x: nat) returns (m: nat)
    requires x in s && s <= rows.Keys
    ensures m in s && forall j :: j in s && j != m ==> Ahead(rows, j, m)
    decreases s
  {
    m := x;
    var rest := s - {x};
    assert forall j :: j in s ==> j == x || j in rest;
    if y: nat :| y in rest {
      var r := Rearmost(rows, rest, y);
      AheadTotal(rows, x, r);
      m := if Ahead(rows, x, r) then r else x;
    }
  }

  lemma {:induction false} SubsetSize(a: set<nat>, b: set<nat>)
    requires a <= b
    ensures |a| <= |b|
    decreases a
  {
    if x: nat :| x in a {
      SubsetSize(a - {x}, b - {x});
    } else {
      assert a == {};
    }
  }

  /** No more rows than the bound remain. */
  lemma NewestBounded(rows: map<nat, Session>, n: int)
    requires 1 <= n
    ensures |Newest(rows, n)| <= n
  {
    var kept := Newest(rows, n);
    assert kept.Keys <= rows.Keys;
    assert |kept| == |kept.Keys|;
    if x: nat :| x in kept.Keys {
      var m := Rearmost(rows, kept.Keys, x);
      assert kept.Keys - {m} <= AheadOf(rows, m);
      SubsetSize(kept.Keys - {m}, AheadOf(rows, m));
    } else {
      assert kept.Keys == {};
    }
  }

  /** The first row of a set in that order. */
  lemma {:induction false} Foremost(rows: map<nat, Session>, s: set<nat>, x: nat) returns (m: nat)
    requires x in s && s <= rows.Keys
    ensures m in s && forall j :: j in s && j != m ==> Ahead(rows, m, j)
    decreases s
  {
    m := x;
    var rest := s - {x};
    assert forall j :: j in s ==> j == x || j in rest;
    if y: nat :| y in rest {
      var r := Foremost(rows, rest, y);
      AheadTotal(rows, x, r);
      m := if Ahead(rows, x, r) then x else r;
    }
  }

  /** What remains is ahead of all that goes. */
  lemma NewestAhead(rows: map<nat, Session>, n: int, j: nat, k: nat)
    requires j in Newest(rows, n) && k in rows && k !in Newest(rows, n)
    ensures Ahead(rows, j, k)
  {
    AheadTotal(rows, j, k);
    if !Ahead(rows, j, k) {
      assert AheadOf(rows, k) <= AheadOf(rows, j);
      SubsetSize(AheadOf(rows, k), AheadOf(rows, j));
    }
  }

  /** Exactly as many rows remain as the bound allows, or all. */
  lemma NewestCount(rows: map<nat, Session>, n: int)
    requires 1 <= n
    ensures |Newest(rows, n)| == if |rows| <= n then |rows| else n
  {
    var kept := Newest(rows, n);
    assert |kept| == |kept.Keys| && |rows| == |rows.Keys| && kept.Keys <= rows.Keys;
    NewestBounded(rows, n);
    SubsetSize(kept.Keys, rows.Keys);
    var gone := rows.Keys - kept.Keys;
    assert forall k: nat :: k in rows.Keys ==> k in gone || k in kept.Keys;
    if x: nat :| x in gone {
      var m := Foremost(rows, gone, x);
      forall j | j in AheadOf(rows, m) ensures j in kept.Keys {
        assert j in gone || j in kept.Keys;
      }
      SubsetSize(AheadOf(rows, m), kept.Keys);
      assert kept.Keys + {m} <= rows.Keys && |kept.Keys + {m}| == |kept| + 1;
      SubsetSize(kept.Keys + {m}, rows.Keys);
    } else {
      assert kept.Keys == rows.Keys;
    }
  }

  /** A row that was used no earlier than any other and has the largest id remains. */
  lemma NewestKeeps(rows: map<nat, Session>, n: int, id: nat)
    requires 1 <= n && id in rows
    requires forall k :: k in rows && k != id ==> rows[k].lastSeen <= rows[id].lastSeen && k < id
    ensures id in Newest(rows, n) && Newest(rows, n)[id] == rows[id]
  {
    assert AheadOf(rows, id) == {};
  }

  /** What a creation does to the rows: survivors are unchanged, and the new one is the only new one. */
  lemma CreateRows(db: Database, epoch: int, id: nat, token: Token, csrf: Token, now: int, p: Policy)
    requires 1 <= p.maximum && Create(db, epoch, id, token, csrf, now, p).Created?
    ensures var next := Create(db, epoch, id, token, csrf, now, p).db;
            && next.administrator == db.administrator == Administrator(epoch) && |next.rows| <= p.maximum
            && forall k :: k in next.rows ==>
                 if k == id then next.rows[k] == NewSession(epoch, token, csrf, now, p)
                 else k in db.rows && next.rows[k] == db.rows[k] && Alive(db, db.rows[k], Unix(now))
    ensures (forall k :: k in db.rows ==> db.rows[k].lastSeen <= Unix(now) && k < id) ==>
              var next := Create(db, epoch, id, token, csrf, now, p).db;
              id in next.rows && next.rows[id] == NewSession(epoch, token, csrf, now, p)
  {
    hide NewSession;
    var alive := map k | k in db.rows && Alive(db, db.rows[k], Unix(now)) :: db.rows[k];
    var rows := alive[id := NewSession(epoch, token, csrf, now, p)];
    NewestBounded(rows, p.maximum);
    if forall k :: k in db.rows ==> db.rows[k].lastSeen <= Unix(now) && k < id {
      assert rows[id].lastSeen == Unix(now) by { NewSessionSeen(epoch, token, csrf, now, p); }
      NewestKeeps(rows, p.maximum, id);
    }
  }

  function Living(db: Database, now: int): set<nat> {
    set k | k in db.rows && Alive(db, db.rows[k], Unix(now))
  }

  /** The rows that a creation has to choose from. */
  lemma CreateChooses(db: Database, epoch: int, id: nat, token: Token, csrf: Token, now: int, p: Policy)
    returns (rows: map<nat, Session>)
    requires Create(db, epoch, id, token, csrf, now, p).Created?
    ensures Create(db, epoch, id, token, csrf, now, p).db.rows == Newest(rows, p.maximum)
    ensures rows.Keys == Living(db, now) + {id} && |rows| == |rows.Keys|
    ensures forall k :: k in rows && k != id ==> rows[k] == db.rows[k]
  {
    hide NewSession, Newest, Alive;
    var alive := map k | k in db.rows && Alive(db, db.rows[k], Unix(now)) :: db.rows[k];
    rows := alive[id := NewSession(epoch, token, csrf, now, p)];
  }

  lemma NewestAmong(rows: map<nat, Session>, n: int)
    ensures forall k :: k in Newest(rows, n) ==> k in rows && Newest(rows, n)[k] == rows[k]
  {
  }

  /**
   A creation ends no session that it need not end: of the living ones and the new one as many remain as the policy
   allows, and each that goes was used before each that remains, or with it under a smaller id.
   */
  lemma CreateSpares(db: Database, epoch: int, id: nat, token: Token, csrf: Token, now: int, p: Policy)
    requires 1 <= p.maximum && Create(db, epoch, id, token, csrf, now, p).Created?
    ensures var next := Create(db, epoch, id, token, csrf, now, p).db.rows;
            var living := Living(db, now) + {id};
            && next.Keys <= living && |next| == (if |living| <= p.maximum then |living| else p.maximum)
            && forall j, k :: j in next && k in living && k !in next && k != id ==>
                 next[j].lastSeen > db.rows[k].lastSeen || (next[j].lastSeen == db.rows[k].lastSeen && j > k)
  {
    hide Create, Newest, Living;
    var rows := CreateChooses(db, epoch, id, token, csrf, now, p);
    NewestCount(rows, p.maximum);
    NewestAmong(rows, p.maximum);
    forall j, k | j in Newest(rows, p.maximum) && k in rows && k !in Newest(rows, p.maximum) ensures Ahead(rows, j, k) {
      NewestAhead(rows, p.maximum, j, k);
    }
    LivingAreRows(db, now);
  }

  lemma LivingAreRows(db: Database, now: int)
    ensures Living(db, now) <= db.rows.Keys
  {
  }

  lemma NewSessionSeen(epoch: int, token: Token, csrf: Token, now: int, p: Policy)
    ensures NewSession(epoch, token, csrf, now, p).lastSeen == Unix(now)
  {
  }

  /** A session as the schema demands it: created, used and expiring in this order. */
  predicate Ordered(s: Session) {
    s.created <= s.lastSeen <= s.idleExpires <= s.absoluteExpires
  }

  lemma NewSessionOrdered(epoch: int, token: Token, csrf: Token, now: int, p: Policy)
    requires ValidPolicy(p)
    ensures Ordered(NewSession(epoch, token, csrf, now, p))
  {
    DivideMonotone(now, now + p.idle);
    DivideMonotone(now + p.idle, now + p.absolute);
  }

  lemma DivideMonotone(a: int, b: int)
    requires a <= b
    ensures Unix(a) <= Unix(b)
  {
  }
}
