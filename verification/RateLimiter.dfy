/**
 The sharded rate limiter (middleware/ratelimit.go): one bucket per client, made on the
 first request, dropped by `Remove` and by the sweep of clients idle for ten minutes.
 The shard hash is an arbitrary function; a handler runs without interruption.
 */
module RateLimiter {
  import opened TokenBucket
  import opened Bits
  import opened Sharding

  /** The buckets by client. */
  type Limiter = map<string, Bucket>

  const STALE_AFTER := 600.0

  // ---- The operations as functions ----

  function BucketFor(m: Limiter, id: string, rate: int, burst: int, created: real): Bucket {
    if id in m then m[id] else New(burst as real, rate as real, created)
  }

  function Hit(m: Limiter, id: string, rate: int, burst: int, created: real, now: real): Limiter {
    m[id := Take(BucketFor(m, id, rate, burst, created), now)]
  }

  predicate HitAllowed(m: Limiter, id: string, rate: int, burst: int, created: real, now: real) {
    Allowed(BucketFor(m, id, rate, burst, created), now)
  }

  predicate Stale(b: Bucket, now: real) {
    b.lastTime < now - STALE_AFTER
  }

  function Swept(m: Limiter, now: real): Limiter {
    map id | id in m && !Stale(m[id], now) :: m[id]
  }

  // ---- The limiter as an object ----

  class RateLimiter {
    const rate: int
    const burst: int
    /** The index that `shardFor` computes from the hash of a client. */
    const shardOf: string -> nat
    var shards: seq<map<string, Bucket>>
    /** All shards together. */
    ghost var clients: Limiter

    ghost predicate Valid()
      reads this
    {
      Represents(shards, shardOf, clients)
    }

    constructor (ratePerSec: int, burst: int, shardCount: int, hash: string -> nat)
      ensures Valid() && clients == map[]
      ensures rate == ratePerSec && this.burst == burst
      ensures |shards| == if shardCount <= 0 then 32 else shardCount
    {
      rate, this.burst := ratePerSec, burst;
      var count := if shardCount <= 0 then 32 else shardCount;
      var f: string -> nat := id => BitAnd(hash(id), count - 1);
      assert forall id :: f(id) <= count - 1 by {
        forall id ensures f(id) <= count - 1 { assert f(id) == BitAnd(hash(id), count - 1); }
      }
      shardOf := f;
      shards, clients := seq(count, _ => map[]), map[];
    }

    method Allow(id: string, created: real, now: real) returns (ok: bool)
      requires Valid()
      modifies this
      ensures Valid()
      ensures ok == HitAllowed(old(clients), id, rate, burst, created, now)
      ensures clients == Hit(old(clients), id, rate, burst, created, now)
    {
      var i := shardOf(id);
      Lookup(shards, shardOf, clients, id);
      var b := if id in shards[i] then shards[i][id]
               else Bucket(burst as real, burst as real, rate as real, created);
      b, ok := Charge(b, now);
      Store(shards, shardOf, clients, id, b);
      shards, clients := shards[i := shards[i][id := b]], clients[id := b];
    }

    /** The part of `Allow` that runs under the bucket's lock. */
    static method Charge(b: Bucket, now: real) returns (b': Bucket, ok: bool)
      ensures ok == Allowed(b, now)
      ensures b' == Take(b, now)
    {
      var elapsed := now - b.lastTime;
      var tokens := b.tokens + elapsed * b.rate;
      if tokens > b.maxTokens {
        tokens := b.maxTokens;
      }
      if tokens < 1.0 {
        return b.(tokens := tokens, lastTime := now), false;
      }
      tokens := tokens - 1.0;
      return b.(tokens := tokens, lastTime := now), true;
    }

    method Remove(id: string)
      requires Valid()
      modifies this
      ensures Valid()
      ensures clients == old(clients) - {id}
    {
      var i := shardOf(id);
      Drop(shards, shardOf, clients, i, {id});
      shards, clients := shards[i := shards[i] - {id}], clients - {id};
    }

    /** One pass of the cleanup loop over all shards. */
    method Sweep(now: real)
      requires Valid()
      modifies this
      ensures Valid()
      ensures clients == Swept(old(clients), now)
    {
      var cutoff := now - STALE_AFTER;
      for i := 0 to |shards|
        invariant Valid() && |shards| == old(|shards|)
        invariant clients == map k | k in old(clients) && !(shardOf(k) < i && Stale(old(clients)[k], now)) :: old(clients)[k]
      {
        SweepShard(i, cutoff);
      }
    }

    method SweepShard(i: nat, cutoff: real)
      requires Valid() && i < |shards|
      modifies this
      ensures Valid() && |shards| == old(|shards|)
      ensures clients == map k | k in old(clients) && !(shardOf(k) == i && old(clients)[k].lastTime < cutoff) :: old(clients)[k]
    {
      var stale: set<string> := {};
      var rest := shards[i].Keys;
      while rest != {}
        invariant rest <= shards[i].Keys && Valid() && shards == old(shards) && clients == old(clients)
        invariant stale == set k <- shards[i].Keys - rest | shards[i][k].lastTime < cutoff
      {
        var k :| k in rest;
        rest := rest - {k};
        if shards[i][k].lastTime < cutoff {
          stale := stale + {k};
        }
      }
      Drop(shards, shardOf, clients, i, stale);
      shards, clients := shards[i := shards[i] - stale], clients - stale;
    }
  }
}
