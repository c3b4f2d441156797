/**
 What the buckets hold, told from the answers alone: in every window of time that ends now, the capacity and what has
 been refilled since the window began, less what was admitted in it. A bucket holds the least of these.
 */
module LimiterWindows {
  import opened LimiterRules
  import opened LimiterBounds

  /** A call counted against a bucket, and whether it took a token. */
  datatype Use = Use(now: int, spent: bool)

  function Spent(uses: seq<Use>): nat {
    if uses == [] then 0 else Spent(uses[..|uses| - 1]) + if uses[|uses| - 1].spent then 1 else 0
  }

  /** The latest moment of some uses. */
  function Clock(uses: seq<Use>): int
    requires uses != []
  {
    if |uses| == 1 then uses[0].now else Max(Clock(uses[..|uses| - 1]), uses[|uses| - 1].now)
  }

  /** What the window that begins with use i leaves of the capacity and the refill since then. */
  function Left(uses: seq<Use>, i: nat, capacity: int, refill: int): int
    requires i < |uses|
  {
    capacity * refill + (Clock(uses) - Clock(uses[..i + 1])) - Spent(uses[i..]) * refill
  }

  /** Whether one more token may be taken now, in every window that ends now. */
  predicate Allows(uses: seq<Use>, now: int, capacity: int, refill: int) {
    var all := uses + [Use(now, false)];
    forall i :: 0 <= i < |all| ==> Left(all, i, capacity, refill) >= refill
  }

  // ---------- one bucket ----------

  function Used(uses: seq<Use>, capacity: int, refill: int): Bucket {
    if uses == [] then Untouched
    else
      var last := uses[|uses| - 1];
      var b := Refilled(Used(uses[..|uses| - 1], capacity, refill), last.now, capacity, refill);
      if last.spent then b.(level := b.level - refill) else b
  }

  lemma UsedNext(uses: seq<Use>, u: Use, capacity: int, refill: int)
    ensures var b := Refilled(Used(uses, capacity, refill), u.now, capacity, refill);
            Used(uses + [u], capacity, refill) == if u.spent then b.(level := b.level - refill) else b
  {
    assert (uses + [u])[..|uses|] == uses;
  }

  lemma ClockNext(uses: seq<Use>, u: Use)
    ensures Clock(uses + [u]) == if uses == [] then u.now else Max(Clock(uses), u.now)
  {
    assert (uses + [u])[..|uses|] == uses;
  }

  lemma SpentNext(uses: seq<Use>, u: Use)
    ensures Spent(uses + [u]) == Spent(uses) + if u.spent then 1 else 0
  {
    assert (uses + [u])[..|uses|] == uses;
  }

  lemma CostNext(uses: seq<Use>, u: Use, refill: int)
    ensures Spent(uses + [u]) * refill == Spent(uses) * refill + if u.spent then refill else 0
  {
    hide Spent;
    SpentNext(uses, u);
    Distribute(Spent(uses), refill);
  }

  lemma CostNothing(refill: int)
    ensures Spent([]) * refill == 0
  {
  }

  /** How one more use moves what each window leaves, and what its own window leaves. */
  lemma LeftNext(uses: seq<Use>, u: Use, i: nat, capacity: int, refill: int)
    requires i <= |uses|
    ensures var all, cost := uses + [u], if u.spent then refill else 0;
            Left(all, i, capacity, refill)
            == if i < |uses| then Left(uses, i, capacity, refill) + (Clock(all) - Clock(uses)) - cost
               else capacity * refill - cost
  {
    hide Spent, Clock;
    var all := uses + [u];
    if i < |uses| {
      assert all[..i + 1] == uses[..i + 1] && all[i..] == uses[i..] + [u];
      CostNext(uses[i..], u, refill);
    } else {
      assert all[..i + 1] == all && all[i..] == [] + [u];
      CostNext([], u, refill);
      CostNothing(refill);
    }
  }

  ghost predicate IsLeast(level: int, uses: seq<Use>, capacity: int, refill: int) {
    && (forall i :: 0 <= i < |uses| ==> level <= Left(uses, i, capacity, refill))
    && exists i :: 0 <= i < |uses| && level == Left(uses, i, capacity, refill)
  }

  /** A bucket holds exactly the least that any window leaves. */
  lemma {:induction false} WindowLaw(uses: seq<Use>, capacity: int, refill: int)
    requires uses != [] && 0 <= refill
    ensures var b := Used(uses, capacity, refill);
            b.Bucket? && b.at == Clock(uses) && IsLeast(b.level, uses, capacity, refill)
  {
    hide Left, Clock;
    var n := |uses| - 1;
    var init, u := uses[..n], uses[n];
    assert init + [u] == uses;
    if init != [] {
      WindowLaw(init, capacity, refill);
      LastWindow(init, capacity, refill);
      assert Left(init, n - 1, capacity, refill) <= capacity * refill;
    }
    LeastNext(init, u, capacity, refill);
  }

  lemma LastWindow(uses: seq<Use>, capacity: int, refill: int)
    requires uses != [] && 0 <= refill
    ensures Left(uses, |uses| - 1, capacity, refill) <= capacity * refill
  {
    var n := |uses| - 1;
    assert uses[..n] + [uses[n]] == uses;
    LeftNext(uses[..n], uses[n], n, capacity, refill);
  }

  lemma LeastNext(init: seq<Use>, u: Use, capacity: int, refill: int)
    requires 0 <= refill
    requires init != [] ==>
               var b := Used(init, capacity, refill);
               b.Bucket? && b.at == Clock(init) && IsLeast(b.level, init, capacity, refill) && b.level <= capacity * refill
    ensures var b := Used(init + [u], capacity, refill);
            b.Bucket? && b.at == Clock(init + [u]) && IsLeast(b.level, init + [u], capacity, refill)
  {
    hide Left, Clock, Used;
    var uses, n := init + [u], |init|;
    UsedNext(init, u, capacity, refill);
    ClockNext(init, u);
    UsedNothing(capacity, refill);
    forall i | 0 <= i <= n
      ensures var cost := if u.spent then refill else 0;
              Left(uses, i, capacity, refill)
              == if i < n then Left(init, i, capacity, refill) + (Clock(uses) - Clock(init)) - cost
                 else capacity * refill - cost
    {
      LeftNext(init, u, i, capacity, refill);
    }
    var level := Used(uses, capacity, refill).level;
    if init != [] {
      var k :| 0 <= k < n && Used(init, capacity, refill).level == Left(init, k, capacity, refill);
      assert level == Left(uses, k, capacity, refill) || level == Left(uses, n, capacity, refill);
    } else {
      assert level == Left(uses, n, capacity, refill);
    }
  }

  lemma UsedNothing(capacity: int, refill: int)
    ensures Used([], capacity, refill) == Untouched
  {
  }

  /** A bucket gives a token exactly when every window allows one more. */
  lemma TokenIffAllowed(uses: seq<Use>, now: int, capacity: int, refill: int)
    requires 0 <= refill
    ensures Refilled(Used(uses, capacity, refill), now, capacity, refill).level >= refill <==> Allows(uses, now, capacity, refill)
  {
    hide Left, Used, Refilled;
    var all := uses + [Use(now, false)];
    UsedNext(uses, Use(now, false), capacity, refill);
    WindowLaw(all, capacity, refill);
  }

  // ---------- all calls ----------

  /** The uses of the global bucket: every call, with its answer. */
  function GlobalUses(calls: seq<Request>, answers: seq<Answer>): (uses: seq<Use>)
    requires |answers| == |calls|
    ensures |uses| == |calls|
  {
    if calls == [] then []
    else
      var n := |calls| - 1;
      GlobalUses(calls[..n], answers[..n]) + [Use(calls[n].now, answers[n].Admitted?)]
  }

  /** The calls of one key from m on, with their answers. */
  function KeyUses(calls: seq<Request>, answers: seq<Answer>, m: nat, key: Key): (uses: seq<Use>)
    requires |answers| == |calls| && m <= |calls|
    ensures |uses| <= |calls| - m
    decreases |calls|
  {
    if |calls| == m then []
    else
      var n := |calls| - 1;
      KeyUses(calls[..n], answers[..n], m, key) + if calls[n].key == key then [Use(calls[n].now, answers[n].Admitted?)] else []
  }

  /** The calls from m on that found no bucket of their own and no room for one, with their answers. */
  function SharedUses(calls: seq<Request>, m: nat, c: Config): (uses: seq<Use>)
    requires m <= |calls|
    ensures |uses| <= |calls| - m
    decreases |calls|
  {
    if |calls| == m then []
    else
      var n := |calls| - 1;
      var l, r := After(FRESH, calls[..n], c), calls[n];
      SharedUses(calls[..n], m, c)
      + if Overflows(Expire(l, r.now, c), r.key, c) then [Use(r.now, Call(l, r.key, r.now, c).1.Admitted?)] else []
  }

  lemma AnswersNext(calls: seq<Request>, r: Request, c: Config)
    ensures After(FRESH, calls + [r], c) == Call(After(FRESH, calls, c), r.key, r.now, c).0
    ensures Answers(FRESH, calls + [r], c) == Answers(FRESH, calls, c) + [Call(After(FRESH, calls, c), r.key, r.now, c).1]
  {
    hide Call;
    assert (calls + [r])[..|calls|] == calls;
  }

  lemma {:induction false} GlobalIs(calls: seq<Request>, c: Config)
    ensures After(FRESH, calls, c).global
         == Used(GlobalUses(calls, Answers(FRESH, calls, c)), c.globalCapacity, c.globalRefill)
  {
    hide Call, Used, After, Answers;
    if calls == [] {
      UsedNothing(c.globalCapacity, c.globalRefill);
      FreshIs(c);
    } else {
      var n := |calls| - 1;
      var init, r := calls[..n], calls[n];
      assert init + [r] == calls;
      GlobalIs(init, c);
      AnswersNext(init, r, c);
      var before := Answers(FRESH, init, c);
      assert Answers(FRESH, calls, c)[..n] == before;
      var answer := Call(After(FRESH, init, c), r.key, r.now, c).1;
      UsedNext(GlobalUses(init, before), Use(r.now, answer.Admitted?), c.globalCapacity, c.globalRefill);
      GlobalCall(After(FRESH, init, c), r.key, r.now, c);
    }
  }

  lemma FreshIs(c: Config)
    ensures After(FRESH, [], c) == FRESH && Answers(FRESH, [], c) == []
  {
  }

  lemma GlobalCall(l: Limits, key: Key, now: int, c: Config)
    ensures var b := Refilled(l.global, now, c.globalCapacity, c.globalRefill);
            Call(l, key, now, c).0.global == if Call(l, key, now, c).1.Admitted? then b.(level := b.level - c.globalRefill) else b
  {
    hide Refilled, Idle, ClientOf;
  }

  // ---------- client buckets ----------

  /** The bucket has counted exactly the calls of its key from m on. */
  predicate OwnFrom(b: Bucket, calls: seq<Request>, answers: seq<Answer>, m: nat, key: Key, c: Config) {
    |answers| == |calls| && m <= |calls| && b == Used(KeyUses(calls, answers, m, key), c.clientCapacity, c.clientRefill)
  }

  /** The shared bucket has counted exactly the calls without room from m on. */
  predicate SharedFrom(b: Bucket, calls: seq<Request>, m: nat, c: Config) {
    m <= |calls| && b == Used(SharedUses(calls, m, c), c.clientCapacity, c.clientRefill)
  }

  ghost predicate Tracked(l: Limits, calls: seq<Request>, answers: seq<Answer>, c: Config) {
    && (forall k :: k in l.clients ==> exists m: nat :: OwnFrom(l.clients[k].bucket, calls, answers, m, k, c))
    && exists m: nat :: SharedFrom(l.overflow.bucket, calls, m, c)
  }

  lemma KeyUsesNext(calls: seq<Request>, answers: seq<Answer>, r: Request, a: Answer, m: nat, key: Key)
    requires |answers| == |calls| && m <= |calls|
    ensures KeyUses(calls + [r], answers + [a], m, key)
         == KeyUses(calls, answers, m, key) + (if r.key == key then [Use(r.now, a.Admitted?)] else [])
    ensures KeyUses(calls, answers, |calls|, key) == []
  {
    assert (calls + [r])[..|calls|] == calls && (answers + [a])[..|answers|] == answers;
  }

  lemma SharedUsesNext(calls: seq<Request>, r: Request, m: nat, c: Config)
    requires m <= |calls|
    ensures var l := After(FRESH, calls, c);
            SharedUses(calls + [r], m, c)
            == SharedUses(calls, m, c)
               + (if Overflows(Expire(l, r.now, c), r.key, c) then [Use(r.now, Call(l, r.key, r.now, c).1.Admitted?)] else [])
    ensures SharedUses(calls, |calls|, c) == []
  {
    hide Call, Expire, Overflows, After;
    assert (calls + [r])[..|calls|] == calls;
  }

  /** What one call does to client buckets. */
  lemma ClientCall(l: Limits, key: Key, now: int, c: Config)
    ensures var e, t, answer := Expire(l, now, c), Call(l, key, now, c).0, Call(l, key, now, c).1;
            var b := Refilled(ClientOf(e, key, now, c).bucket, now, c.clientCapacity, c.clientRefill);
            var next := if answer.Admitted? then b.(level := b.level - c.clientRefill) else b;
            && ClientOf(e, key, now, c).bucket
            == (if key in e.clients then e.clients[key].bucket else if Overflows(e, key, c) then e.overflow.bucket else Untouched)
            && (if Overflows(e, key, c) then t.clients == e.clients && t.overflow.bucket == next
                else
                  && t.overflow == e.overflow && t.clients.Keys == e.clients.Keys + {key} && t.clients[key].bucket == next
                  && forall k :: k in e.clients && k != key ==> t.clients[k] == e.clients[k])
    ensures var e := Expire(l, now, c);
            && (Overflows(e, key, c) ==> key !in e.clients)
            && (forall k :: k in e.clients ==> k in l.clients && e.clients[k] == l.clients[k])
            && (e.overflow == l.overflow || e.overflow.bucket == Untouched)
  {
    hide Refilled, Idle;
  }

  lemma OwnStill(b: Bucket, calls: seq<Request>, answers: seq<Answer>, r: Request, a: Answer, m: nat, key: Key, c: Config)
    requires OwnFrom(b, calls, answers, m, key, c)
    ensures r.key != key ==> OwnFrom(b, calls + [r], answers + [a], m, key, c)
    ensures r.key == key ==>
              var f := Refilled(b, r.now, c.clientCapacity, c.clientRefill);
              OwnFrom(if a.Admitted? then f.(level := f.level - c.clientRefill) else f, calls + [r], answers + [a], m, key, c)
  {
    hide KeyUses, Used, Refilled;
    KeyUsesNext(calls, answers, r, a, m, key);
    var uses := KeyUses(calls, answers, m, key);
    assert uses + [] == uses;
    UsedNext(uses, Use(r.now, a.Admitted?), c.clientCapacity, c.clientRefill);
  }

  lemma OwnFresh(calls: seq<Request>, answers: seq<Answer>, key: Key, c: Config)
    requires |answers| == |calls|
    ensures OwnFrom(Untouched, calls, answers, |calls|, key, c)
  {
  }

  lemma SharedStill(b: Bucket, calls: seq<Request>, r: Request, m: nat, c: Config)
    requires SharedFrom(b, calls, m, c)
    ensures var l := After(FRESH, calls, c);
            if !Overflows(Expire(l, r.now, c), r.key, c) then SharedFrom(b, calls + [r], m, c)
            else
              var f := Refilled(b, r.now, c.clientCapacity, c.clientRefill);
              var a := Call(l, r.key, r.now, c).1;
              SharedFrom(if a.Admitted? then f.(level := f.level - c.clientRefill) else f, calls + [r], m, c)
  {
    hide SharedUses, Used, Refilled, Overflows, Expire, Call, After;
    SharedUsesNext(calls, r, m, c);
    var uses := SharedUses(calls, m, c);
    assert uses + [] == uses;
    UsedNext(uses, Use(r.now, Call(After(FRESH, calls, c), r.key, r.now, c).1.Admitted?), c.clientCapacity, c.clientRefill);
  }

  lemma SharedFresh(calls: seq<Request>, c: Config)
    ensures SharedFrom(Untouched, calls, |calls|, c)
  {
  }

  lemma TrackedNext(calls: seq<Request>, r: Request, c: Config)
    requires Tracked(After(FRESH, calls, c), calls, Answers(FRESH, calls, c), c)
    ensures Tracked(After(FRESH, calls + [r], c), calls + [r], Answers(FRESH, calls + [r], c), c)
  {
    hide OwnFrom, SharedFrom, Overflows, Expire, Call, ClientOf, Refilled, After, Answers;
    var l, answers := After(FRESH, calls, c), Answers(FRESH, calls, c);
    var e, t, a := Expire(l, r.now, c), Call(l, r.key, r.now, c).0, Call(l, r.key, r.now, c).1;
    AnswersNext(calls, r, c);
    ClientCall(l, r.key, r.now, c);
    forall k | k in t.clients ensures exists m: nat :: OwnFrom(t.clients[k].bucket, calls + [r], answers + [a], m, k, c) {
      var m: nat := |calls|;
      OwnFresh(calls, answers, k, c);
      if k in e.clients {
        m :| OwnFrom(l.clients[k].bucket, calls, answers, m, k, c);
      }
      OwnStill(if k in e.clients then l.clients[k].bucket else Untouched, calls, answers, r, a, m, k, c);
      assert OwnFrom(t.clients[k].bucket, calls + [r], answers + [a], m, k, c);
    }
    var m: nat := |calls|;
    SharedFresh(calls, c);
    if e.overflow == l.overflow {
      m :| SharedFrom(l.overflow.bucket, calls, m, c);
    }
    SharedStill(e.overflow.bucket, calls, r, m, c);
    assert SharedFrom(t.overflow.bucket, calls + [r], m, c);
  }

  lemma {:induction false} AllTracked(calls: seq<Request>, c: Config)
    ensures Tracked(After(FRESH, calls, c), calls, Answers(FRESH, calls, c), c)
  {
    hide Tracked, After, Answers;
    if calls == [] {
      NothingTracked(c);
    } else {
      var n := |calls| - 1;
      AllTracked(calls[..n], c);
      TrackedNext(calls[..n], calls[n], c);
      assert calls[..n] + [calls[n]] == calls;
    }
  }

  lemma NothingTracked(c: Config)
    ensures Tracked(After(FRESH, [], c), [], Answers(FRESH, [], c), c)
  {
    SharedFresh([], c);
  }

  // ---------- refusals ----------

  /** In some window that ends now, one more token is more than the capacity and what was refilled. */
  predicate Exhausted(uses: seq<Use>, now: int, capacity: int, refill: int) {
    var all := uses + [Use(now, false)];
    exists i :: 0 <= i < |all| && (Spent(all[i..]) + 1) * refill > capacity * refill + (Clock(all) - Clock(all[..i + 1]))
  }

  lemma ExhaustedIff(uses: seq<Use>, now: int, capacity: int, refill: int)
    ensures Exhausted(uses, now, capacity, refill) <==> !Allows(uses, now, capacity, refill)
  {
    hide Spent, Clock;
    var all := uses + [Use(now, false)];
    forall i | 0 <= i < |all|
      ensures Left(all, i, capacity, refill) < refill <==>
              (Spent(all[i..]) + 1) * refill > capacity * refill + (Clock(all) - Clock(all[..i + 1]))
    {
      Distribute(Spent(all[i..]), refill);
    }
  }

  /**
   No call is refused without reason: after any calls, with any keys and clocks, a refusal means that in some window
   that ends now the admissions have used up the capacity and what was refilled, among all calls, or among those of
   this key since its bucket was new, or among those that shared a bucket for want of room since that was new.
   */
  lemma RefusalExplained(calls: seq<Request>, key: Key, now: int, c: Config)
    requires ValidConfig(c) && Call(After(FRESH, calls, c), key, now, c).1.Refused?
    ensures var answers := Answers(FRESH, calls, c);
            || Exhausted(GlobalUses(calls, answers), now, c.globalCapacity, c.globalRefill)
            || (exists m: nat :: m <= |calls|
                  && Exhausted(KeyUses(calls, answers, m, key), now, c.clientCapacity, c.clientRefill))
            || (exists m: nat :: m <= |calls| && Exhausted(SharedUses(calls, m, c), now, c.clientCapacity, c.clientRefill))
  {
    hide Exhausted, Allows, OwnFrom, SharedFrom, Overflows, Call, ClientOf, Refilled, After, Answers, Used, KeyUses,
         SharedUses, GlobalUses, Expire;
    var l, answers := After(FRESH, calls, c), Answers(FRESH, calls, c);
    var e := Expire(l, now, c);
    AllTracked(calls, c);
    GlobalIs(calls, c);
    CallSpends(l, key, now, c);
    ClientCall(l, key, now, c);
    TokenIffAllowed(GlobalUses(calls, answers), now, c.globalCapacity, c.globalRefill);
    ExhaustedIff(GlobalUses(calls, answers), now, c.globalCapacity, c.globalRefill);
    var m: nat := |calls|;
    OwnFresh(calls, answers, key, c);
    if key in e.clients {
      m :| OwnFrom(l.clients[key].bucket, calls, answers, m, key, c);
    } else if Overflows(e, key, c) {
      SharedFresh(calls, c);
      if e.overflow == l.overflow {
        m :| SharedFrom(l.overflow.bucket, calls, m, c);
      }
      SharedIs(e.overflow.bucket, calls, m, c);
      TokenIffAllowed(SharedUses(calls, m, c), now, c.clientCapacity, c.clientRefill);
      ExhaustedIff(SharedUses(calls, m, c), now, c.clientCapacity, c.clientRefill);
      return;
    }
    OwnIs(if key in e.clients then l.clients[key].bucket else Untouched, calls, answers, m, key, c);
    TokenIffAllowed(KeyUses(calls, answers, m, key), now, c.clientCapacity, c.clientRefill);
    ExhaustedIff(KeyUses(calls, answers, m, key), now, c.clientCapacity, c.clientRefill);
  }

  lemma OwnIs(b: Bucket, calls: seq<Request>, answers: seq<Answer>, m: nat, key: Key, c: Config)
    requires OwnFrom(b, calls, answers, m, key, c)
    ensures |answers| == |calls| && m <= |calls|
    ensures b == Used(KeyUses(calls, answers, m, key), c.clientCapacity, c.clientRefill)
  {
  }

  lemma SharedIs(b: Bucket, calls: seq<Request>, m: nat, c: Config)
    requires SharedFrom(b, calls, m, c)
    ensures m <= |calls| && b == Used(SharedUses(calls, m, c), c.clientCapacity, c.clientRefill)
  {
  }

  lemma {:induction false} SpentAtMost(uses: seq<Use>)
    ensures Spent(uses) <= |uses|
  {
    if uses != [] {
      SpentAtMost(uses[..|uses| - 1]);
    }
  }

  lemma {:induction false} ClockGrows(uses: seq<Use>, n: nat)
    requires 0 < n <= |uses|
    ensures Clock(uses[..n]) <= Clock(uses)
    decreases |uses|
  {
    if n < |uses| {
      assert uses[..|uses| - 1][..n] == uses[..n];
      ClockGrows(uses[..|uses| - 1], n);
    } else {
      assert uses[..n] == uses;
    }
  }

  /** Only as many uses as the capacity, or more, exhaust a bucket. */
  lemma FewNeverExhaust(uses: seq<Use>, now: int, capacity: int, refill: int)
    requires 0 < refill && |uses| < capacity
    ensures !Exhausted(uses, now, capacity, refill)
  {
    hide Spent, Clock;
    var all := uses + [Use(now, false)];
    forall i | 0 <= i < |all|
      ensures (Spent(all[i..]) + 1) * refill <= capacity * refill + (Clock(all) - Clock(all[..i + 1]))
    {
      ClockGrows(all, i + 1);
      SpentBefore(uses, now, i);
      MultiplyMonotone(Spent(all[i..]) + 1, capacity, refill);
    }
  }

  lemma SpentBefore(uses: seq<Use>, now: int, i: nat)
    requires i <= |uses|
    ensures Spent((uses + [Use(now, false)])[i..]) <= |uses|
  {
    assert (uses + [Use(now, false)])[i..] == uses[i..] + [Use(now, false)];
    SpentNext(uses[i..], Use(now, false));
    SpentAtMost(uses[i..]);
  }

  /** The capacity is granted: of any calls the first are all admitted, as many as both capacities allow. */
  lemma CapacityGranted(calls: seq<Request>, key: Key, now: int, c: Config)
    requires ValidConfig(c) && |calls| < c.globalCapacity && |calls| < c.clientCapacity
    ensures Call(After(FRESH, calls, c), key, now, c).1.Admitted?
  {
    hide Exhausted, Call, After, Answers, KeyUses, SharedUses, GlobalUses;
    if Call(After(FRESH, calls, c), key, now, c).1.Refused? {
      RefusalExplained(calls, key, now, c);
      var answers := Answers(FRESH, calls, c);
      FewNeverExhaust(GlobalUses(calls, answers), now, c.globalCapacity, c.globalRefill);
      if m: nat :| m <= |calls| && Exhausted(KeyUses(calls, answers, m, key), now, c.clientCapacity, c.clientRefill) {
        FewNeverExhaust(KeyUses(calls, answers, m, key), now, c.clientCapacity, c.clientRefill);
      } else {
        var m: nat :| m <= |calls| && Exhausted(SharedUses(calls, m, c), now, c.clientCapacity, c.clientRefill);
        FewNeverExhaust(SharedUses(calls, m, c), now, c.clientCapacity, c.clientRefill);
      }
    }
  }

  // ---------- exactly when a call is admitted ----------

  /** Without expiry and bound, each bucket has counted exactly the calls of its key. */
  predicate CountedAll(u: Limits, calls: seq<Request>, answers: seq<Answer>, key: Key, c: Config)
    requires |answers| == |calls|
  {
    (if key in u.clients then u.clients[key].bucket else Untouched)
    == Used(KeyUses(calls, answers, 0, key), c.clientCapacity, c.clientRefill)
  }

  lemma UnboundedNext(calls: seq<Request>, r: Request, c: Config)
    ensures UnboundedAfter(FRESH, calls + [r], c) == UnboundedCall(UnboundedAfter(FRESH, calls, c), r.key, r.now, c).0
    ensures UnboundedAnswers(calls + [r], c)
         == UnboundedAnswers(calls, c) + [UnboundedCall(UnboundedAfter(FRESH, calls, c), r.key, r.now, c).1]
  {
    hide UnboundedCall;
    assert (calls + [r])[..|calls|] == calls;
  }

  lemma UnboundedBuckets(u: Limits, key: Key, now: int, c: Config, k: Key)
    ensures var t, a := UnboundedCall(u, key, now, c).0, UnboundedCall(u, key, now, c).1;
            var b, next := if k in u.clients then u.clients[k].bucket else Untouched,
                           if k in t.clients then t.clients[k].bucket else Untouched;
            var f := Refilled(b, now, c.clientCapacity, c.clientRefill);
            next == if k != key then b else if a.Admitted? then f.(level := f.level - c.clientRefill) else f
    ensures var t, a := UnboundedCall(u, key, now, c).0, UnboundedCall(u, key, now, c).1;
            var g := Refilled(u.global, now, c.globalCapacity, c.globalRefill);
            t.global == if a.Admitted? then g.(level := g.level - c.globalRefill) else g
    ensures var own := Refilled(if key in u.clients then u.clients[key].bucket else Untouched, now, c.clientCapacity, c.clientRefill);
            UnboundedCall(u, key, now, c).1.Admitted? <==>
              && Refilled(u.global, now, c.globalCapacity, c.globalRefill).level >= c.globalRefill
              && own.level >= c.clientRefill
  {
    hide Refilled;
  }

  lemma {:induction false} UnboundedIs(calls: seq<Request>, c: Config, key: Key)
    ensures var u, answers := UnboundedAfter(FRESH, calls, c), UnboundedAnswers(calls, c);
            && CountedAll(u, calls, answers, key, c)
            && u.global == Used(GlobalUses(calls, answers), c.globalCapacity, c.globalRefill)
  {
    if calls != [] {
      var n := |calls| - 1;
      UnboundedIs(calls[..n], c, key);
      UnboundedIsNext(calls[..n], calls[n], c, key);
      assert calls[..n] + [calls[n]] == calls;
    }
  }

  lemma UnboundedIsNext(calls: seq<Request>, r: Request, c: Config, key: Key)
    requires CountedAll(UnboundedAfter(FRESH, calls, c), calls, UnboundedAnswers(calls, c), key, c)
    requires UnboundedAfter(FRESH, calls, c).global
          == Used(GlobalUses(calls, UnboundedAnswers(calls, c)), c.globalCapacity, c.globalRefill)
    ensures var u, answers := UnboundedAfter(FRESH, calls + [r], c), UnboundedAnswers(calls + [r], c);
            && CountedAll(u, calls + [r], answers, key, c)
            && u.global == Used(GlobalUses(calls + [r], answers), c.globalCapacity, c.globalRefill)
  {
    hide Used, UnboundedCall, UnboundedAfter, UnboundedAnswers, Refilled, KeyUses, GlobalUses;
    var u, answers := UnboundedAfter(FRESH, calls, c), UnboundedAnswers(calls, c);
    var a := UnboundedCall(u, r.key, r.now, c).1;
    UnboundedNext(calls, r, c);
    UnboundedBuckets(u, r.key, r.now, c, key);
    KeyUsesNext(calls, answers, r, a, 0, key);
    GlobalUsesNext(calls, answers, r, a);
    var own := KeyUses(calls, answers, 0, key);
    assert own + [] == own;
    UsedNext(own, Use(r.now, a.Admitted?), c.clientCapacity, c.clientRefill);
    UsedNext(GlobalUses(calls, answers), Use(r.now, a.Admitted?), c.globalCapacity, c.globalRefill);
  }

  lemma GlobalUsesNext(calls: seq<Request>, answers: seq<Answer>, r: Request, a: Answer)
    requires |answers| == |calls|
    ensures GlobalUses(calls + [r], answers + [a]) == GlobalUses(calls, answers) + [Use(r.now, a.Admitted?)]
  {
    assert (calls + [r])[..|calls|] == calls && (answers + [a])[..|answers|] == answers;
  }

  /**
   With a clock that never runs back, no more distinct callers than the limiter remembers, and an expiry no shorter than
   the refill of a whole client bucket, a call is admitted exactly when every window that ends now allows one more: of
   all calls, and of the calls of its own key.
   */
  lemma AdmittedIffAllowed(calls: seq<Request>, key: Key, now: int, c: Config)
    requires ValidConfig(c) && c.idleExpiry >= c.clientCapacity * c.clientRefill
    requires Forward(calls + [Request(key, now)]) && |KeysOf(calls + [Request(key, now)])| <= c.maximumClients
    ensures var answers := Answers(FRESH, calls, c);
            Call(After(FRESH, calls, c), key, now, c).1.Admitted? <==>
              && Allows(GlobalUses(calls, answers), now, c.globalCapacity, c.globalRefill)
              && Allows(KeyUses(calls, answers, 0, key), now, c.clientCapacity, c.clientRefill)
  {
    hide Used, UnboundedCall, UnboundedAfter, UnboundedAnswers, Refilled, KeyUses, GlobalUses, Call, After, Answers, Allows, Agree,
         SeenWithBucket;
    var all := calls + [Request(key, now)];
    assert all[..|calls|] == calls;
    RunsAgree(all, KeysOf(all), c);
    FewerCallers(calls, Request(key, now));
    assert Forward(calls) by {
      assert forall i :: 0 <= i < |calls| ==> all[i] == calls[i];
    }
    ExpiryChangesNoAnswer(calls, c);
    UnboundedIs(calls, c, key);
    UnboundedBuckets(UnboundedAfter(FRESH, calls, c), key, now, c, key);
    var answers := Answers(FRESH, calls, c);
    TokenIffAllowed(GlobalUses(calls, answers), now, c.globalCapacity, c.globalRefill);
    TokenIffAllowed(KeyUses(calls, answers, 0, key), now, c.clientCapacity, c.clientRefill);
  }

  lemma FewerCallers(calls: seq<Request>, r: Request)
    ensures KeysOf(calls) <= KeysOf(calls + [r]) && |KeysOf(calls)| <= |KeysOf(calls + [r])|
  {
    forall k | k in KeysOf(calls) ensures k in KeysOf(calls + [r]) {
      var x :| x in calls && x.key == k;
      assert x in calls + [r];
    }
    FewerKeys(KeysOf(calls), KeysOf(calls + [r]));
  }

  // ---------- who is remembered ----------

  /** When key has called last, if at all. */
  function LastOf(calls: seq<Request>, key: Key): Seen {
    if calls == [] then Never
    else if calls[|calls| - 1].key == key then Seen(calls[|calls| - 1].now)
    else LastOf(calls[..|calls| - 1], key)
  }

  lemma {:induction false} LastIsBefore(calls: seq<Request>, key: Key)
    requires Forward(calls)
    ensures LastOf(calls, key).Seen? ==> calls != [] && LastOf(calls, key).last <= calls[|calls| - 1].now
    ensures LastOf(calls, key).Seen? <==> key in KeysOf(calls)
  {
    if calls != [] {
      var init, r := calls[..|calls| - 1], calls[|calls| - 1];
      LastIsBefore(init, key);
      assert calls == init + [r];
      FewerCallers(init, r);
      assert r in calls;
      if key in KeysOf(calls) && key != r.key {
        var x :| x in calls && x.key == key;
        assert x in init;
      }
    }
  }

  /** Exactly the callers of the last idle time are remembered, and when they have called last. */
  lemma {:induction false} RememberedIff(calls: seq<Request>, key: Key, c: Config)
    requires ValidConfig(c) && Forward(calls) && |KeysOf(calls)| <= c.maximumClients && calls != []
    ensures var l, last := After(FRESH, calls, c), LastOf(calls, key);
            && (key in l.clients <==> last.Seen? && calls[|calls| - 1].now - last.last < c.idleExpiry)
            && (key in l.clients ==> l.clients[key].seen == last)
  {
    hide Refilled, Judge, Charge, KeysOf, ValidConfig;
    var init, r := calls[..|calls| - 1], calls[|calls| - 1];
    assert calls == init + [r];
    FewerCallers(init, r);
    LastIsBefore(calls, key);
    LastIsBefore(init, key);
    if init != [] {
      RememberedIff(init, key, c);
    }
    CalledBy(calls, r);
    NeverOverflows(init, r.key, r.now, KeysOf(calls), c);
    Positive(c);
  }

  lemma Positive(c: Config)
    requires ValidConfig(c)
    ensures 0 < c.idleExpiry
  {
  }

  lemma CalledBy(calls: seq<Request>, r: Request)
    requires r in calls
    ensures r.key in KeysOf(calls)
  {
  }
}
