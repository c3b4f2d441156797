/**
 Login token buckets. Levels are counted in nanoseconds of refill, a token being one refill interval, so that
 all arithmetic is exact.
 */
module LimiterRules {
  const ONE_SECOND := 1000000000
  const NANOSECOND := 1

  /** A normalized client identity. */
  type Key = nat

  datatype Config = Config(clientCapacity: int, clientRefill: int, globalCapacity: int, globalRefill: int,
                           maximumClients: int, idleExpiry: int)

  predicate ValidConfig(c: Config) {
    && 0 < c.clientCapacity && 0 < c.clientRefill && 0 < c.globalCapacity && 0 < c.globalRefill
    && 0 < c.maximumClients && 0 < c.idleExpiry
  }

  /** A bucket before its first use, or what it holds and when it was last refilled. */
  datatype Bucket = Untouched | Bucket(level: int, at: int)

  datatype Seen = Never | Seen(last: int)

  datatype Client = Client(bucket: Bucket, seen: Seen)

  const NO_CLIENT := Client(Untouched, Never)

  datatype Limits = Limits(global: Bucket, clients: map<Key, Client>, overflow: Client)

  // ---------- one bucket ----------

  /** Time refills, up to the capacity; a clock that runs back refills nothing. */
  function Refilled(b: Bucket, now: int, capacity: int, refill: int): (r: Bucket)
    ensures r.Bucket?
  {
    if b.Untouched? then Bucket(capacity * refill, now)
    else if now > b.at then Bucket(if b.level + (now - b.at) > capacity * refill then capacity * refill
                                   else b.level + (now - b.at), now)
    else b
  }

  /** How long until the bucket holds a token, or 0 when it does. */
  function WaitOf(b: Bucket, refill: int): int
    requires b.Bucket?
  {
    if b.level >= refill then 0 else refill - b.level
  }

  function Latest(s: Seen, now: int): Seen {
    if s.Never? || now > s.last then Seen(now) else s
  }

  /** Idle for the expiry or longer. */
  predicate Idle(s: Seen, now: int, expiry: int) {
    s.Seen? && now >= s.last && now - s.last >= expiry
  }

  // ---------- one call ----------

  function Expire(l: Limits, now: int, c: Config): Limits {
    l.(clients := map k | k in l.clients && !Idle(l.clients[k].seen, now, c.idleExpiry) :: l.clients[k],
       overflow := if Idle(l.overflow.seen, now, c.idleExpiry) then NO_CLIENT else l.overflow)
  }

  /** The key has no bucket of its own, and none is left to give. */
  predicate Overflows(l: Limits, key: Key, c: Config) {
    key !in l.clients && |l.clients| >= c.maximumClients
  }

  /** The client the key is counted against. */
  function ClientOf(l: Limits, key: Key, now: int, c: Config): Client {
    if key in l.clients then l.clients[key]
    else if Overflows(l, key, c) then l.overflow.(seen := Latest(l.overflow.seen, now))
    else Client(Untouched, Seen(now))
  }

  function WithClient(l: Limits, key: Key, client: Client, c: Config): Limits {
    if Overflows(l, key, c) then l.(overflow := client) else l.(clients := l.clients[key := client])
  }

  datatype Answer = Admitted | Refused(wait: int)

  function Max(a: int, b: int): int { if a < b then b else a }

  /** The answer for a global and a client bucket that have both been refilled. */
  function Judge(global: Bucket, client: Bucket, c: Config): Answer
    requires global.Bucket? && client.Bucket?
  {
    if global.level < c.globalRefill || client.level < c.clientRefill
    then Refused(Max(Max(WaitOf(global, c.globalRefill), WaitOf(client, c.clientRefill)), ONE_SECOND))
    else Admitted
  }

  function Charge(b: Bucket, answer: Answer, refill: int): Bucket
    requires b.Bucket?
  {
    if answer.Admitted? then b.(level := b.level - refill) else b
  }

  /** The state and the answer after one call. */
  function Call(l: Limits, key: Key, now: int, c: Config): (Limits, Answer) {
    var e := Expire(l, now, c);
    var client := ClientOf(e, key, now, c);
    var global, own := Refilled(e.global, now, c.globalCapacity, c.globalRefill),
                       Refilled(client.bucket, now, c.clientCapacity, c.clientRefill);
    var answer := Judge(global, own, c);
    (WithClient(e, key, Client(Charge(own, answer, c.clientRefill), Latest(client.seen, now)), c)
       .(global := Charge(global, answer, c.globalRefill)),
     answer)
  }

  const FRESH := Limits(Untouched, map[], NO_CLIENT)

  datatype Request = Request(key: Key, now: int)

  function After(l: Limits, calls: seq<Request>, c: Config): Limits {
    if calls == [] then l
    else Call(After(l, calls[..|calls| - 1], c), calls[|calls| - 1].key, calls[|calls| - 1].now, c).0
  }

  function Answers(l: Limits, calls: seq<Request>, c: Config): (r: seq<Answer>)
    ensures |r| == |calls|
  {
    if calls == [] then []
    else
      var init, last := calls[..|calls| - 1], calls[|calls| - 1];
      Answers(l, init, c) + [Call(After(l, init, c), last.key, last.now, c).1]
  }

  function AdmittedCount(answers: seq<Answer>): nat {
    if answers == [] then 0
    else AdmittedCount(answers[..|answers| - 1]) + if answers[|answers| - 1].Admitted? then 1 else 0
  }

  /** The latest moment of some calls. */
  function LatestOf(calls: seq<Request>): int
    requires calls != []
  {
    if |calls| == 1 then calls[0].now else Max(LatestOf(calls[..|calls| - 1]), calls[|calls| - 1].now)
  }

  // ---------- levels ----------

  /** Buckets hold between nothing and their capacity. */
  predicate Holds(b: Bucket, capacity: int, refill: int) {
    b.Bucket? ==> 0 <= b.level <= capacity * refill
  }

  predicate LevelsOk(l: Limits, c: Config) {
    && Holds(l.global, c.globalCapacity, c.globalRefill)
    && Holds(l.overflow.bucket, c.clientCapacity, c.clientRefill)
    && (forall k :: k in l.clients ==> Holds(l.clients[k].bucket, c.clientCapacity, c.clientRefill) && l.clients[k].bucket.Bucket?
                                       && l.clients[k].seen.Seen? && l.clients[k].bucket.at <= l.clients[k].seen.last)
    && (l.overflow.bucket.Bucket? ==> l.overflow.seen.Seen? && l.overflow.bucket.at <= l.overflow.seen.last)
    && |l.clients| <= c.maximumClients
  }

  lemma CapacityPositive(capacity: int, refill: int)
    requires 0 < capacity && 0 < refill
    ensures refill <= capacity * refill
  {
    assert capacity * refill == refill + (capacity - 1) * refill;
    assert 0 <= (capacity - 1) * refill;
  }

  lemma RefilledHolds(b: Bucket, now: int, capacity: int, refill: int)
    requires Holds(b, capacity, refill) && 0 < capacity && 0 < refill
    ensures Holds(Refilled(b, now, capacity, refill), capacity, refill)
  {
    CapacityPositive(capacity, refill);
  }

  lemma {:induction false} FewerKeys(a: set<Key>, b: set<Key>)
    requires a <= b
    ensures |a| <= |b|
    decreases a
  {
    if x: Key :| x in a {
      FewerKeys(a - {x}, b - {x});
    } else {
      assert a == {};
    }
  }

  lemma ExpireShrinks(l: Limits, now: int, c: Config)
    ensures |Expire(l, now, c).clients| <= |l.clients|
  {
    var e := Expire(l, now, c);
    FewerKeys(e.clients.Keys, l.clients.Keys);
    assert |e.clients| == |e.clients.Keys| && |l.clients| == |l.clients.Keys|;
  }

  lemma CallKeepsLevels(l: Limits, key: Key, now: int, c: Config)
    requires LevelsOk(l, c) && ValidConfig(c)
    ensures LevelsOk(Call(l, key, now, c).0, c)
  {
    ExpireShrinks(l, now, c);
    var e := Expire(l, now, c);
    var client := ClientOf(e, key, now, c);
    RefilledHolds(e.global, now, c.globalCapacity, c.globalRefill);
    RefilledHolds(client.bucket, now, c.clientCapacity, c.clientRefill);
    var global, own := Refilled(e.global, now, c.globalCapacity, c.globalRefill),
                       Refilled(client.bucket, now, c.clientCapacity, c.clientRefill);
    InsertSize(e.clients, key, Client(Charge(own, Judge(global, own, c), c.clientRefill), Latest(client.seen, now)));
    hide Expire, ClientOf, Refilled;
  }

  lemma InsertSize(m: map<Key, Client>, key: Key, client: Client)
    ensures |m[key := client]| == if key in m then |m| else |m| + 1
  {
    var n := m[key := client];
    assert |n| == |n.Keys| && |m| == |m.Keys|;
    assert n.Keys == m.Keys + {key};
  }
}
