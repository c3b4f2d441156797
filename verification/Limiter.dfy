/** The login limiter as the program runs it. */
module Limiter {
  import opened LimiterRules

  class LoginLimiter {
    const config: Config
    var global: Bucket
    var clients: map<Key, Client>
    var overflow: Client

    function Value(): Limits
      reads this
    {
      Limits(global, clients, overflow)
    }

    constructor (config: Config)
      requires ValidConfig(config)
      ensures Value() == FRESH && this.config == config
    {
      this.config := config;
      global, clients, overflow := Untouched, map[], NO_CLIENT;
    }

    /** Refills a bucket, and says whether it holds a token now or how long until it does. */
    static method Available(bucket: Bucket, now: int, capacity: int, refill: int)
      returns (filled: Bucket, holds: bool, wait: int)
      ensures filled == Refilled(bucket, now, capacity, refill)
      ensures holds <==> filled.level >= refill
      ensures wait == WaitOf(filled, refill)
    {
      var tokens, lastRefill := capacity * refill, now;
      if bucket.Bucket? {
        tokens, lastRefill := bucket.level, bucket.at;
      }
      if now > lastRefill {
        tokens := tokens + (now - lastRefill);
        if tokens > capacity * refill {
          tokens := capacity * refill;
        }
        lastRefill := now;
      }
      filled := Bucket(tokens, lastRefill);
      if tokens >= refill {
        return filled, true, 0;
      }
      wait := refill - tokens;
      if wait <= 0 {
        wait := NANOSECOND;
      }
      return filled, false, wait;
    }

    /** Forgets clients that have been idle for the expiry, in no particular order. */
    method ExpireIdleClients(now: int)
      modifies this
      ensures Value() == Expire(old(Value()), now, config)
    {
      var rest := clients.Keys;
      ghost var all := clients;
      while rest != {}
        invariant rest <= all.Keys && global == old(global) && overflow == old(overflow)
        invariant clients == map k | k in all && (k in rest || !Idle(all[k].seen, now, config.idleExpiry)) :: all[k]
        decreases |rest|
      {
        var key: Key :| key in rest;
        if Idle(clients[key].seen, now, config.idleExpiry) {
          clients := clients - {key};
        }
        rest := rest - {key};
      }
      if Idle(overflow.seen, now, config.idleExpiry) {
        overflow := NO_CLIENT;
      }
    }

    /** The client that a key is counted against, and whether it is the shared one. */
    method ClientBucket(key: Key, now: int) returns (client: Client, shared: bool)
      modifies this
      ensures client == ClientOf(old(Value()), key, now, config) && shared == Overflows(old(Value()), key, config)
      ensures Value() == WithClient(old(Value()), key, client, config)
    {
      if key in clients {
        assert clients == clients[key := clients[key]];
        return clients[key], false;
      }
      if |clients| >= config.maximumClients {
        overflow := overflow.(seen := Latest(overflow.seen, now));
        return overflow, true;
      }
      client := Client(Untouched, Seen(now));
      clients := clients[key := client];
      return client, false;
    }

    /** Spends one global token and one of the client, or refuses and says how long to wait. */
    method Allow(key: Key, now: int) returns (answer: Answer)
      modifies this
      ensures (Value(), answer) == Call(old(Value()), key, now, config)
    {
      hide Expire, Refilled, Latest, ClientOf;
      ExpireIdleClients(now);
      ghost var e := Value();
      var client, shared := ClientBucket(key, now);
      var globalHolds, globalWait, clientHolds, clientWait;
      global, globalHolds, globalWait := Available(global, now, config.globalCapacity, config.globalRefill);
      var bucket;
      bucket, clientHolds, clientWait := Available(client.bucket, now, config.clientCapacity, config.clientRefill);
      client := Client(bucket, Latest(client.seen, now));
      if !globalHolds || !clientHolds {
        if clientWait > globalWait {
          globalWait := clientWait;
        }
        if globalWait < ONE_SECOND {
          globalWait := ONE_SECOND;
        }
        answer := Refused(globalWait);
      } else {
        global := global.(level := global.level - config.globalRefill);
        client := client.(bucket := bucket.(level := bucket.level - config.clientRefill));
        answer := Admitted;
      }
      if shared {
        overflow := client;
      } else {
        clients := clients[key := client];
        assert clients == e.clients[key := client];
      }
    }
  }
}
