/** What the limiter promises over every sequence of calls. */
module LimiterBounds {
  import opened LimiterRules

  // ---------- spending ----------

  /**
   A refused call takes nothing from either bucket, an admitted one takes exactly one token from each; nobody
   else's bucket changes but by expiry.
   */
  lemma CallSpends(l: Limits, key: Key, now: int, c: Config)
    ensures var e := Expire(l, now, c);
            var t, answer := Call(l, key, now, c).0, Call(l, key, now, c).1;
            var spent := if answer.Admitted? then 1 else 0;
            var own := if Overflows(e, key, c) then t.overflow.bucket
                       else if key in t.clients then t.clients[key].bucket else Untouched;
            && t.global.Bucket? && own.Bucket?
            && t.global.level == Refilled(l.global, now, c.globalCapacity, c.globalRefill).level - spent * c.globalRefill
            && own.level == Refilled(ClientOf(e, key, now, c).bucket, now, c.clientCapacity, c.clientRefill).level
                            - spent * c.clientRefill
            && (forall k :: k != key ==> (k in t.clients <==> k in e.clients)
                                         && (k in e.clients ==> t.clients[k] == e.clients[k]))
            && (!Overflows(e, key, c) ==> t.overflow == e.overflow)
    ensures Call(l, key, now, c).1.Admitted? <==>
              && Refilled(l.global, now, c.globalCapacity, c.globalRefill).level >= c.globalRefill
              && Refilled(ClientOf(Expire(l, now, c), key, now, c).bucket, now, c.clientCapacity, c.clientRefill).level
                 >= c.clientRefill
  {
    hide Refilled, Idle;
  }

  lemma {:induction false} LevelsStayOk(calls: seq<Request>, c: Config)
    requires ValidConfig(c)
    ensures LevelsOk(After(FRESH, calls, c), c)
  {
    hide LevelsOk, Call;
    if calls != [] {
      LevelsStayOk(calls[..|calls| - 1], c);
      CallKeepsLevels(After(FRESH, calls[..|calls| - 1], c), calls[|calls| - 1].key, calls[|calls| - 1].now, c);
    } else {
      FreshOk(c);
    }
  }

  lemma FreshOk(c: Config)
    requires ValidConfig(c)
    ensures LevelsOk(FRESH, c)
  {
  }

  // ---------- the bound on admissions ----------

  /** One call moves what it admits from what is left to what has been admitted. */
  lemma BudgetStep(l: Limits, key: Key, now: int, c: Config, n: nat, start: int)
    requires ValidConfig(c)
    requires if l.global.Untouched? then n == 0 && start == now
             else l.global.level + n * c.globalRefill <= c.globalCapacity * c.globalRefill + (l.global.at - start)
    ensures var t := Call(l, key, now, c);
            var m := n + if t.1.Admitted? then 1 else 0;
            && t.0.global.Bucket? && t.0.global.at == (if l.global.Untouched? then now else Max(l.global.at, now))
            && t.0.global.level + m * c.globalRefill <= c.globalCapacity * c.globalRefill + (t.0.global.at - start)
  {
    CallSpends(l, key, now, c);
    GlobalMoves(l, key, now, c);
    hide Call, Expire, ClientOf, Overflows;
    Distribute(n, c.globalRefill);
  }

  /** What has been admitted and what is left, against what there was and what time has refilled. */
  lemma {:induction false} GlobalBudget(calls: seq<Request>, c: Config)
    requires ValidConfig(c) && calls != []
    ensures var l, n := After(FRESH, calls, c), AdmittedCount(Answers(FRESH, calls, c));
            && l.global.Bucket? && l.global.at == LatestOf(calls)
            && l.global.level + n * c.globalRefill <= c.globalCapacity * c.globalRefill + (l.global.at - calls[0].now)
  {
    hide *;
    var init, last := calls[..|calls| - 1], calls[|calls| - 1];
    LastCall(calls, c);
    if init != [] {
      GlobalBudget(init, c);
      assert init[0] == calls[0];
    }
    BudgetStep(After(FRESH, init, c), last.key, last.now, c, AdmittedCount(Answers(FRESH, init, c)), calls[0].now);
  }

  lemma LastCall(calls: seq<Request>, c: Config)
    requires calls != []
    ensures var init, last := calls[..|calls| - 1], calls[|calls| - 1];
            var before := After(FRESH, init, c);
            && After(FRESH, calls, c) == Call(before, last.key, last.now, c).0
            && AdmittedCount(Answers(FRESH, calls, c))
            == AdmittedCount(Answers(FRESH, init, c)) + (if Call(before, last.key, last.now, c).1.Admitted? then 1 else 0)
            && LatestOf(calls) == (if init == [] then last.now else Max(LatestOf(init), last.now))
            && (init == [] ==> before.global.Untouched? && AdmittedCount(Answers(FRESH, init, c)) == 0)
  {
    hide Call;
    var init, last := calls[..|calls| - 1], calls[|calls| - 1];
    var a := Answers(FRESH, init, c);
    var answer := Call(After(FRESH, init, c), last.key, last.now, c).1;
    assert (a + [answer])[..|a|] == a;
  }

  lemma Distribute(n: nat, x: int)
    ensures (n + 1) * x == n * x + x
  {
  }

  lemma GlobalMoves(l: Limits, key: Key, now: int, c: Config)
    ensures var g := Call(l, key, now, c).0.global;
            g.Bucket? && g.at == Refilled(l.global, now, c.globalCapacity, c.globalRefill).at
  {
    hide Refilled, Idle, ClientOf;
  }

  /**
   For every sequence of calls, with any keys and with clocks that run back, no more logins are admitted than
   the capacity and one for each refill interval between the first and the latest moment.
   */
  lemma AdmissionsBounded(calls: seq<Request>, c: Config)
    requires ValidConfig(c) && calls != []
    ensures AdmittedCount(Answers(FRESH, calls, c)) <= c.globalCapacity + (LatestOf(calls) - calls[0].now) / c.globalRefill
  {
    hide After, Answers, AdmittedCount, LatestOf, LevelsOk;
    GlobalBudget(calls, c);
    LevelsStayOk(calls, c);
    LevelNotNegative(After(FRESH, calls, c), c);
    var n, d := AdmittedCount(Answers(FRESH, calls, c)), LatestOf(calls) - calls[0].now;
    QuotientBound(n, c.globalCapacity, d, c.globalRefill);
  }

  lemma LevelNotNegative(l: Limits, c: Config)
    requires LevelsOk(l, c) && l.global.Bucket?
    ensures 0 <= l.global.level
  {
  }

  lemma QuotientBound(n: int, capacity: int, d: int, x: int)
    requires 0 < x && n * x <= capacity * x + d
    ensures n <= capacity + d / x
  {
    var q := capacity + d / x + 1;
    assert d == (d / x) * x + d % x && 0 <= d % x < x;
    Spread(capacity, d / x, x);
    LessByMultiple(n, q, x);
  }

  lemma Spread(a: int, b: int, x: int)
    ensures (a + b + 1) * x == a * x + b * x + x
  {
  }

  lemma LessByMultiple(a: int, b: int, x: int)
    requires 0 < x
    ensures a * x < b * x ==> a < b
  {
    if b <= a {
      MultiplyMonotone(b, a, x);
    }
  }

  lemma MultiplyMonotone(a: int, b: int, x: int)
    requires a <= b && 0 <= x
    ensures a * x <= b * x
  {
    assert (b - a) * x >= 0;
    assert b * x == a * x + (b - a) * x;
  }

  /** However many addresses call, no more than the maximum are remembered. */
  lemma ClientsBounded(calls: seq<Request>, c: Config)
    requires ValidConfig(c)
    ensures |After(FRESH, calls, c).clients| <= c.maximumClients
  {
    LevelsStayOk(calls, c);
  }

  // ---------- waiting ----------

  /** The bucket holds a token at that time: it does already, or time from its own clock on brings what is missing. */
  predicate Due(b: Bucket, later: int, refill: int) {
    b.Bucket? ==> b.level >= refill || later - b.at >= refill - b.level
  }

  lemma DueIffHolds(b: Bucket, later: int, capacity: int, refill: int)
    requires 0 < capacity && 0 < refill && Holds(b, capacity, refill)
    ensures Refilled(b, later, capacity, refill).level >= refill <==> Due(b, later, refill)
  {
    CapacityPositive(capacity, refill);
  }

  /** Both buckets that a call at that time is judged by. */
  predicate BothDue(l: Limits, key: Key, later: int, c: Config) {
    Due(l.global, later, c.globalRefill) && Due(ClientOf(Expire(l, later, c), key, later, c).bucket, later, c.clientRefill)
  }

  lemma ClientHolds(l: Limits, key: Key, now: int, c: Config)
    requires LevelsOk(l, c)
    ensures Holds(l.global, c.globalCapacity, c.globalRefill)
    ensures Holds(ClientOf(Expire(l, now, c), key, now, c).bucket, c.clientCapacity, c.clientRefill)
  {
    hide Idle;
  }

  /** A call is admitted exactly when both its buckets are due. */
  lemma AdmittedIffDue(l: Limits, key: Key, now: int, c: Config)
    requires ValidConfig(c) && LevelsOk(l, c)
    ensures Call(l, key, now, c).1.Admitted? <==> BothDue(l, key, now, c)
  {
    hide LevelsOk, Call, Expire, ClientOf, Overflows, WithClient, Refilled, WaitOf, Holds, Due;
    ClientHolds(l, key, now, c);
    DueIffHolds(l.global, now, c.globalCapacity, c.globalRefill);
    DueIffHolds(ClientOf(Expire(l, now, c), key, now, c).bucket, now, c.clientCapacity, c.clientRefill);
    CallSpends(l, key, now, c);
  }

  /** Later a key is counted against the same bucket, or against an untouched one. */
  lemma ClientStays(l: Limits, key: Key, now: int, later: int, c: Config)
    requires LevelsOk(l, c) && now <= later
    ensures var a, b := ClientOf(Expire(l, now, c), key, now, c).bucket, ClientOf(Expire(l, later, c), key, later, c).bucket;
            b == a || b == Untouched
  {
    hide LevelsOk, Holds;
    var d, e := Expire(l, now, c), Expire(l, later, c);
    LevelsBound(l, c);
    FewerKeys(e.clients.Keys, d.clients.Keys);
    assert |d.clients| == |d.clients.Keys| && |e.clients| == |e.clients.Keys|;
    if key in l.clients {
      ForgottenKey(l, key, later, c);
    }
  }

  /** What is due stays due, as long as nobody calls. */
  lemma DueStays(l: Limits, key: Key, now: int, later: int, c: Config)
    requires LevelsOk(l, c) && now <= later && BothDue(l, key, now, c)
    ensures BothDue(l, key, later, c)
  {
    hide LevelsOk, Expire, ClientOf;
    ClientStays(l, key, now, later, c);
  }

  /**
   The wait that a refused caller is told suffices, nobody else calling meanwhile, exactly when by its end both
   buckets are due by their own clocks; then any later call is admitted as well.
   */
  lemma WaitExactly(l: Limits, key: Key, now: int, c: Config)
    requires ValidConfig(c) && LevelsOk(l, c) && Call(l, key, now, c).1.Refused?
    ensures var t, end := Call(l, key, now, c).0, now + Call(l, key, now, c).1.wait;
            (forall later :: end <= later ==> Call(t, key, later, c).1.Admitted?) <==> BothDue(t, key, end, c)
  {
    hide LevelsOk, BothDue;
    CallKeepsLevels(l, key, now, c);
    var t, end := Call(l, key, now, c).0, now + Call(l, key, now, c).1.wait;
    hide Call;
    AdmittedIffDue(t, key, end, c);
    if BothDue(t, key, end, c) {
      forall later | end <= later ensures Call(t, key, later, c).1.Admitted? {
        DueStays(t, key, end, later, c);
        AdmittedIffDue(t, key, later, c);
      }
    }
  }

  /** The clock is not behind any bucket that the key may be counted against. */
  predicate ClockReached(l: Limits, key: Key, now: int) {
    && (l.global.Bucket? ==> l.global.at <= now)
    && (l.overflow.bucket.Bucket? ==> l.overflow.bucket.at <= now)
    && (key in l.clients && l.clients[key].bucket.Bucket? ==> l.clients[key].bucket.at <= now)
  }

  /**
   A caller who was refused by a clock that is not behind its buckets and comes back after the wait it was told,
   nobody else having called, is admitted, whatever has expired by then.
   */
  lemma WaitSuffices(l: Limits, key: Key, now: int, later: int, c: Config)
    requires ValidConfig(c) && LevelsOk(l, c) && ClockReached(l, key, now)
    requires Call(l, key, now, c).1.Refused? && later >= now + Call(l, key, now, c).1.wait
    ensures Call(Call(l, key, now, c).0, key, later, c).1.Admitted?
  {
    hide LevelsOk, ClockReached, Call, Expire, ClientOf, Overflows, WithClient;
    var t, end := Call(l, key, now, c).0, now + Call(l, key, now, c).1.wait;
    RefusedState(l, key, now, c);
    ClientReady(l, key, now, c);
    LaterClient(l, key, now, end, c);
    assert BothDue(t, key, end, c);
    WaitExactly(l, key, now, c);
  }

  lemma ClientReady(l: Limits, key: Key, now: int, c: Config)
    requires ValidConfig(c) && LevelsOk(l, c) && ClockReached(l, key, now)
    ensures var b := ClientOf(Expire(l, now, c), key, now, c).bucket;
            Holds(b, c.clientCapacity, c.clientRefill) && (b.Bucket? ==> b.at <= now)
    ensures Holds(l.global, c.globalCapacity, c.globalRefill) && (l.global.Bucket? ==> l.global.at <= now)
  {
    hide Idle;
  }

  lemma RefusedState(l: Limits, key: Key, now: int, c: Config)
    requires ValidConfig(c) && Call(l, key, now, c).1.Refused?
    ensures var e := Expire(l, now, c);
            var client := ClientOf(e, key, now, c);
            var own, wait := Refilled(client.bucket, now, c.clientCapacity, c.clientRefill), Call(l, key, now, c).1.wait;
            && Call(l, key, now, c).0.global == Refilled(l.global, now, c.globalCapacity, c.globalRefill)
            && wait >= WaitOf(Call(l, key, now, c).0.global, c.globalRefill) && wait >= WaitOf(own, c.clientRefill)
            && wait >= ONE_SECOND
  {
    hide Refilled, Idle, Overflows;
  }

  /** When the key calls again, it is counted against the same bucket, or against a full one. */
  lemma LaterClient(l: Limits, key: Key, now: int, later: int, c: Config)
    requires ValidConfig(c) && LevelsOk(l, c) && Call(l, key, now, c).1.Refused?
    ensures var own := Refilled(ClientOf(Expire(l, now, c), key, now, c).bucket, now, c.clientCapacity, c.clientRefill);
            var b := ClientOf(Expire(Call(l, key, now, c).0, later, c), key, later, c).bucket;
            b == own || b == Untouched
  {
    CallKeepsLevels(l, key, now, c);
    hide Refilled, Idle, LevelsOk, Holds;
    var e := Expire(l, now, c);
    var t := Call(l, key, now, c).0;
    if Overflows(e, key, c) {
      assert t.clients == e.clients;
    } else {
      assert |t.clients| <= c.maximumClients by { LevelsBound(t, c); }
      ForgottenKey(t, key, later, c);
    }
  }

  lemma LevelsBound(l: Limits, c: Config)
    requires LevelsOk(l, c)
    ensures |l.clients| <= c.maximumClients
  {
  }

  /** Forgetting a key leaves room for it. */
  lemma ForgottenKey(l: Limits, key: Key, now: int, c: Config)
    requires key in l.clients && |l.clients| <= c.maximumClients
    ensures !Overflows(Expire(l, now, c), key, c)
  {
    var e := Expire(l, now, c);
    if key !in e.clients {
      FewerKeys(e.clients.Keys, l.clients.Keys - {key});
      assert |e.clients| == |e.clients.Keys| && |l.clients| == |l.clients.Keys|;
    }
  }

  /**
   Nor is the wait longer than it need be: beyond the one second that is always told, a caller with a bucket of its own
   who comes back sooner is refused, when clients are remembered at least as long as a token takes to refill.
   */
  lemma WaitIsNeeded(l: Limits, key: Key, now: int, later: int, c: Config)
    requires ValidConfig(c) && LevelsOk(l, c) && ClockReached(l, key, now) && c.idleExpiry >= c.clientRefill
    requires Call(l, key, now, c).1.Refused? && key in Call(l, key, now, c).0.clients
    requires ONE_SECOND < Call(l, key, now, c).1.wait && now <= later < now + Call(l, key, now, c).1.wait
    ensures Call(Call(l, key, now, c).0, key, later, c).1.Refused?
  {
    hide LevelsOk, ClockReached, Call, Expire, ClientOf, Overflows, WithClient, Refilled, WaitOf, Due;
    var t := Call(l, key, now, c).0;
    CallKeepsLevels(l, key, now, c);
    AdmittedIffDue(t, key, later, c);
    NotYetDue(l, key, now, later, c);
  }

  lemma NotYetDue(l: Limits, key: Key, now: int, later: int, c: Config)
    requires ValidConfig(c) && LevelsOk(l, c) && ClockReached(l, key, now) && c.idleExpiry >= c.clientRefill
    requires Call(l, key, now, c).1.Refused? && key in Call(l, key, now, c).0.clients
    requires ONE_SECOND < Call(l, key, now, c).1.wait && now <= later < now + Call(l, key, now, c).1.wait
    ensures !BothDue(Call(l, key, now, c).0, key, later, c)
  {
    hide LevelsOk, ClockReached, Holds, Idle;
    var t, e := Call(l, key, now, c).0, Expire(l, now, c);
    var own := Refilled(ClientOf(e, key, now, c).bucket, now, c.clientCapacity, c.clientRefill);
    ClientReady(l, key, now, c);
    RefilledNow(l.global, now, c.globalCapacity, c.globalRefill);
    RefilledNow(ClientOf(e, key, now, c).bucket, now, c.clientCapacity, c.clientRefill);
    RefusedClient(l, key, now, c);
    hide Expire, ClientOf, Refilled;
    if WaitOf(own, c.clientRefill) == Call(l, key, now, c).1.wait {
      StillRemembered(t, key, now, later, c);
    }
  }

  lemma RefilledNow(b: Bucket, now: int, capacity: int, refill: int)
    requires b.Bucket? ==> b.at <= now
    requires Holds(b, capacity, refill) && 0 < capacity && 0 < refill
    ensures Refilled(b, now, capacity, refill).at == now && 0 <= Refilled(b, now, capacity, refill).level
  {
    CapacityPositive(capacity, refill);
  }

  lemma RefusedClient(l: Limits, key: Key, now: int, c: Config)
    requires LevelsOk(l, c) && Call(l, key, now, c).1.Refused? && key in Call(l, key, now, c).0.clients
    ensures var e, t, wait := Expire(l, now, c), Call(l, key, now, c).0, Call(l, key, now, c).1.wait;
            var own := Refilled(ClientOf(e, key, now, c).bucket, now, c.clientCapacity, c.clientRefill);
            && t.clients[key].bucket == own && t.clients[key].seen.Seen? && now <= t.clients[key].seen.last
            && t.global == Refilled(l.global, now, c.globalCapacity, c.globalRefill)
            && wait == Max(Max(WaitOf(t.global, c.globalRefill), WaitOf(own, c.clientRefill)), ONE_SECOND)
  {
    hide Refilled, Idle, Holds;
  }

  lemma StillRemembered(t: Limits, key: Key, now: int, later: int, c: Config)
    requires key in t.clients && t.clients[key].seen.Seen? && now <= t.clients[key].seen.last
    requires later < now + c.idleExpiry
    ensures ClientOf(Expire(t, later, c), key, later, c) == t.clients[key]
  {
  }

  /** With the clock set back, the wait may not suffice: time below the bucket's clock refills nothing. */
  lemma WaitMayFail()
    ensures var c := Config(1, ONE_SECOND, 1, ONE_SECOND, 1, 100 * ONE_SECOND);
            var l := After(FRESH, [Request(0, 50 * ONE_SECOND)], c);
            var t, answer := Call(l, 0, 10 * ONE_SECOND, c).0, Call(l, 0, 10 * ONE_SECOND, c).1;
            && answer == Refused(ONE_SECOND)
            && !BothDue(t, 0, 11 * ONE_SECOND, c) && Call(t, 0, 11 * ONE_SECOND, c).1.Refused?
  {
    var c := Config(1, ONE_SECOND, 1, ONE_SECOND, 1, 100 * ONE_SECOND);
    var calls := [Request(0, 50 * ONE_SECOND)];
    assert calls[..0] == [];
    assert After(FRESH, [], c) == FRESH;
    var l := Limits(Bucket(0, 50 * ONE_SECOND), map[0 := Client(Bucket(0, 50 * ONE_SECOND), Seen(50 * ONE_SECOND))], NO_CLIENT);
    FirstCall(c);
    assert After(FRESH, calls, c) == l;
    SameBack(c, l, 10 * ONE_SECOND);
    SameBack(c, l, 11 * ONE_SECOND);
    AdmittedIffDue(l, 0, 11 * ONE_SECOND, c);
  }

  lemma FirstCall(c: Config)
    requires c == Config(1, ONE_SECOND, 1, ONE_SECOND, 1, 100 * ONE_SECOND)
    ensures Call(FRESH, 0, 50 * ONE_SECOND, c).0
         == Limits(Bucket(0, 50 * ONE_SECOND), map[0 := Client(Bucket(0, 50 * ONE_SECOND), Seen(50 * ONE_SECOND))], NO_CLIENT)
  {
    assert Expire(FRESH, 50 * ONE_SECOND, c) == FRESH;
  }

  lemma SameBack(c: Config, l: Limits, now: int)
    requires c == Config(1, ONE_SECOND, 1, ONE_SECOND, 1, 100 * ONE_SECOND) && now < 50 * ONE_SECOND
    requires l == Limits(Bucket(0, 50 * ONE_SECOND), map[0 := Client(Bucket(0, 50 * ONE_SECOND), Seen(50 * ONE_SECOND))], NO_CLIENT)
    ensures Call(l, 0, now, c) == (l, Refused(ONE_SECOND))
  {
    assert Expire(l, now, c) == l;
    assert l.clients[0 := l.clients[0]] == l.clients;
  }

  // ---------- idle expiry ----------

  /** The same call without expiry and without a bound on clients. */
  function UnboundedCall(l: Limits, key: Key, now: int, c: Config): (Limits, Answer) {
    var client := if key in l.clients then l.clients[key] else Client(Untouched, Seen(now));
    var global, own := Refilled(l.global, now, c.globalCapacity, c.globalRefill),
                       Refilled(client.bucket, now, c.clientCapacity, c.clientRefill);
    var answer := Judge(global, own, c);
    (l.(clients := l.clients[key := Client(Charge(own, answer, c.clientRefill), Latest(client.seen, now))],
        global := Charge(global, answer, c.globalRefill)),
     answer)
  }

  function UnboundedAfter(l: Limits, calls: seq<Request>, c: Config): Limits {
    if calls == [] then l
    else UnboundedCall(UnboundedAfter(l, calls[..|calls| - 1], c), calls[|calls| - 1].key, calls[|calls| - 1].now, c).0
  }

  /** The bucket would be full at the moment now, by a refill from before it. */
  predicate FullBy(b: Bucket, now: int, c: Config) {
    b.Bucket? && b.at < now && b.level + (now - b.at) >= c.clientCapacity * c.clientRefill
  }

  /** The limiter and the one that never forgets agree, but for clients that are full again. */
  predicate Agree(l: Limits, u: Limits, now: int, c: Config) {
    && l.global == u.global
    && (forall k :: k in l.clients ==> k in u.clients && u.clients[k] == l.clients[k])
    && (forall k :: k in u.clients && k !in l.clients ==> FullBy(u.clients[k].bucket, now, c))
    && (forall k :: k in l.clients ==> l.clients[k].bucket.Bucket? && l.clients[k].seen == Seen(l.clients[k].bucket.at)
                                       && l.clients[k].bucket.at <= now)
  }

  lemma ExpireAgrees(l: Limits, u: Limits, before: int, now: int, c: Config)
    requires ValidConfig(c) && LevelsOk(l, c) && Agree(l, u, before, c) && before <= now
    requires c.idleExpiry >= c.clientCapacity * c.clientRefill
    ensures Agree(Expire(l, now, c), u, now, c)
  {
    CapacityPositive(c.clientCapacity, c.clientRefill);
  }

  /** A full bucket answers and is charged like an untouched one. */
  lemma FullIsUntouched(b: Bucket, now: int, c: Config)
    requires FullBy(b, now, c)
    ensures Refilled(b, now, c.clientCapacity, c.clientRefill) == Refilled(Untouched, now, c.clientCapacity, c.clientRefill)
  {
  }

  /** The bucket that a call is judged by and that it leaves behind. */
  lemma SameClient(e: Limits, u: Limits, key: Key, now: int, c: Config)
    requires Agree(e, u, now, c) && !Overflows(e, key, c)
    ensures var a, b := ClientOf(e, key, now, c),
                        if key in u.clients then u.clients[key] else Client(Untouched, Seen(now));
            && Refilled(a.bucket, now, c.clientCapacity, c.clientRefill) == Refilled(b.bucket, now, c.clientCapacity, c.clientRefill)
            && Latest(a.seen, now) == Seen(now)
            && Refilled(a.bucket, now, c.clientCapacity, c.clientRefill).at == now
            && (key in e.clients || key !in u.clients ==> Latest(b.seen, now) == Seen(now))
  {
    if key in u.clients && key !in e.clients {
      FullIsUntouched(u.clients[key].bucket, now, c);
    }
  }

  predicate SeenWithBucket(u: Limits, now: int) {
    forall k :: k in u.clients ==> u.clients[k].seen.Seen? && u.clients[k].seen.last <= now
  }

  lemma CallAgrees(l: Limits, u: Limits, before: int, key: Key, now: int, c: Config)
    requires ValidConfig(c) && LevelsOk(l, c) && Agree(l, u, before, c) && before <= now
    requires SeenWithBucket(u, now)
    requires c.idleExpiry >= c.clientCapacity * c.clientRefill
    requires !Overflows(Expire(l, now, c), key, c)
    ensures Agree(Call(l, key, now, c).0, UnboundedCall(u, key, now, c).0, now, c)
    ensures Call(l, key, now, c).1 == UnboundedCall(u, key, now, c).1
    ensures SeenWithBucket(UnboundedCall(u, key, now, c).0, now)
  {
    ExpireAgrees(l, u, before, now, c);
    var e := Expire(l, now, c);
    SameClient(e, u, key, now, c);
    assert Latest(if key in u.clients then u.clients[key].seen else Seen(now), now) == Seen(now);
    assert e.global == u.global;
    hide LevelsOk, Expire, ClientOf, Refilled, Judge, Latest, ValidConfig, Agree, SeenWithBucket;
    PutAgrees(e, u, key, Call(l, key, now, c).0.clients[key], Call(l, key, now, c).0.global, now, c);
  }

  lemma PutAgrees(l: Limits, u: Limits, key: Key, client: Client, global: Bucket, now: int, c: Config)
    requires Agree(l, u, now, c) && SeenWithBucket(u, now)
    requires client.bucket.Bucket? && client.bucket.at == now && client.seen == Seen(now)
    ensures Agree(l.(clients := l.clients[key := client], global := global),
                  u.(clients := u.clients[key := client], global := global), now, c)
    ensures SeenWithBucket(u.(clients := u.clients[key := client], global := global), now)
  {
  }

  /** The clock never runs back. */
  predicate Forward(calls: seq<Request>) {
    forall i, j :: 0 <= i < j < |calls| ==> calls[i].now <= calls[j].now
  }

  function KeysOf(calls: seq<Request>): set<Key> {
    set r | r in calls :: r.key
  }

  lemma {:induction false} OnlyCallersKept(calls: seq<Request>, c: Config)
    ensures After(FRESH, calls, c).clients.Keys <= KeysOf(calls)
  {
    hide Judge, Charge, Latest, Refilled, Idle;
    if calls != [] {
      var init, last := calls[..|calls| - 1], calls[|calls| - 1];
      OnlyCallersKept(init, c);
      assert last in calls;
      forall k | k in KeysOf(init) ensures k in KeysOf(calls) {
        var r :| r in init && r.key == k;
        assert r in calls;
      }
    }
  }

  lemma NeverOverflows(calls: seq<Request>, key: Key, now: int, all: set<Key>, c: Config)
    requires KeysOf(calls) <= all && key in all && |all| <= c.maximumClients
    ensures !Overflows(Expire(After(FRESH, calls, c), now, c), key, c)
  {
    OnlyCallersKept(calls, c);
    var l := After(FRESH, calls, c);
    var e := Expire(l, now, c);
    if key !in e.clients {
      assert e.clients.Keys <= all - {key};
      FewerKeys(e.clients.Keys, all - {key});
      assert |e.clients| == |e.clients.Keys|;
    }
  }

  lemma {:induction false} RunsAgree(calls: seq<Request>, all: set<Key>, c: Config)
    requires ValidConfig(c) && Forward(calls) && c.idleExpiry >= c.clientCapacity * c.clientRefill
    requires KeysOf(calls) <= all && |all| <= c.maximumClients
    ensures calls != [] ==> Agree(After(FRESH, calls, c), UnboundedAfter(FRESH, calls, c), calls[|calls| - 1].now, c)
    ensures calls != [] ==> SeenWithBucket(UnboundedAfter(FRESH, calls, c), calls[|calls| - 1].now)
    ensures calls != [] ==>
              var init, last := calls[..|calls| - 1], calls[|calls| - 1];
              Call(After(FRESH, init, c), last.key, last.now, c).1
              == UnboundedCall(UnboundedAfter(FRESH, init, c), last.key, last.now, c).1
  {
    hide Agree, LevelsOk, Call, UnboundedCall, Overflows, SeenWithBucket;
    if calls != [] {
      var init, last := calls[..|calls| - 1], calls[|calls| - 1];
      assert KeysOf(init) <= KeysOf(calls) by {
        forall k | k in KeysOf(init) ensures k in KeysOf(calls) {
          var r :| r in init && r.key == k;
          assert r in calls;
        }
      }
      assert last in calls;
      RunsAgree(init, all, c);
      LevelsStayOk(init, c);
      NeverOverflows(init, last.key, last.now, all, c);
      if init == [] {
        FreshAgrees(last.now, c);
      } else {
        SeenStill(UnboundedAfter(FRESH, init, c), init[|init| - 1].now, last.now);
      }
      CallAgrees(After(FRESH, init, c), UnboundedAfter(FRESH, init, c),
                 if init == [] then last.now else init[|init| - 1].now, last.key, last.now, c);
    }
  }

  lemma FreshAgrees(now: int, c: Config)
    ensures Agree(FRESH, FRESH, now, c) && SeenWithBucket(FRESH, now)
  {
  }

  lemma SeenStill(u: Limits, before: int, now: int)
    requires SeenWithBucket(u, before) && before <= now
    ensures SeenWithBucket(u, now)
  {
  }

  function UnboundedAnswers(calls: seq<Request>, c: Config): (r: seq<Answer>)
    ensures |r| == |calls|
  {
    if calls == [] then []
    else
      var init, last := calls[..|calls| - 1], calls[|calls| - 1];
      UnboundedAnswers(init, c) + [UnboundedCall(UnboundedAfter(FRESH, init, c), last.key, last.now, c).1]
  }

  /**
   With a clock that never runs back, no more distinct callers than the limiter remembers, and an expiry no
   shorter than the refill of a whole client bucket, forgetting idle clients changes no answer and no wait.
   */
  lemma {:induction false} ExpiryChangesNoAnswer(calls: seq<Request>, c: Config)
    requires ValidConfig(c) && Forward(calls) && c.idleExpiry >= c.clientCapacity * c.clientRefill
    requires |KeysOf(calls)| <= c.maximumClients
    ensures Answers(FRESH, calls, c) == UnboundedAnswers(calls, c)
  {
    ExpiryChangesNone(calls, KeysOf(calls), c);
  }

  lemma {:induction false} ExpiryChangesNone(calls: seq<Request>, all: set<Key>, c: Config)
    requires ValidConfig(c) && Forward(calls) && c.idleExpiry >= c.clientCapacity * c.clientRefill
    requires KeysOf(calls) <= all && |all| <= c.maximumClients
    ensures Answers(FRESH, calls, c) == UnboundedAnswers(calls, c)
  {
    hide Call, UnboundedCall, After, UnboundedAfter;
    if calls != [] {
      var init := calls[..|calls| - 1];
      forall k | k in KeysOf(init) ensures k in KeysOf(calls) {
        var r :| r in init && r.key == k;
        assert r in calls;
      }
      ExpiryChangesNone(init, all, c);
      RunsAgree(calls, all, c);
    }
  }
}
