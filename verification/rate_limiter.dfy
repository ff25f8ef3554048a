// The in-memory rate limiter: token buckets in a map, refilled and spent in place.

module RateLimiting {
  import opened RateLimitSpec

  class TokenBucket {
    var tokens: real
    var lastRefill: real
    const rate: real
    const burst: real

    constructor (tokens: real, lastRefill: real, rate: real, burst: real)
      ensures Value() == Bucket(tokens, lastRefill, rate, burst)
    {
      this.tokens, this.lastRefill, this.rate, this.burst := tokens, lastRefill, rate, burst;
    }

    ghost function Value(): Bucket
      reads this
    {
      Bucket(tokens, lastRefill, rate, burst)
    }

    // Refill for the time that passed, then take a token if there is one.
    method Spend(now: real) returns (ok: bool)
      modifies this
      ensures (Value(), ok) == Take(Refill(old(Value()), now))
    {
      ghost var before := Value();
      var elapsed := now - lastRefill;
      tokens := tokens + elapsed * rate;
      if tokens > burst {
        tokens := burst;
      }
      lastRefill := now;
      assert Value() == Refill(before, now);
      if tokens >= 1.0 {
        tokens := tokens - 1.0;
        return true;
      }
      return false;
    }
  }

  ghost function ValuesOf(buckets: map<string, TokenBucket>): map<string, Bucket>
    reads buckets.Values
  {
    map k | k in buckets :: buckets[k].Value()
  }

  lemma ValuesOfUpdate(buckets: map<string, TokenBucket>, key: string, b: TokenBucket)
    ensures ValuesOf(buckets[key := b]) == ValuesOf(buckets)[key := b.Value()]
  {
    assert ValuesOf(buckets[key := b]).Keys == ValuesOf(buckets)[key := b.Value()].Keys;
  }

  class RateLimiter {
    const config: Config
    var buckets: map<string, TokenBucket>

    // No two keys share a bucket.
    ghost predicate Valid()
      reads this
    {
      forall k, l :: k in buckets && l in buckets && k != l ==> buckets[k] != buckets[l]
    }

    ghost function Contents(): map<string, Bucket>
      reads this, buckets.Values
    {
      ValuesOf(buckets)
    }

    constructor (config: Config)
      ensures Valid() && Contents() == map[] && this.config == config
    {
      this.config := config;
      buckets := map[];
    }

    method BucketFor(key: string, rps: int, now: real) returns (bucket: TokenBucket)
      requires Valid()
      modifies this
      ensures Valid() && key in buckets && buckets[key] == bucket
      ensures bucket.Value() == Current(old(Contents()), config, key, rps, now)
      ensures Contents() == old(Contents())[key := bucket.Value()]
      ensures forall k :: k in buckets ==> buckets[k] in old(buckets.Values) || fresh(buckets[k])
    {
      ghost var before := Contents();
      if key !in buckets {
        var rate := rps as real;
        var burst := rate * config.burstMultiplier as real;
        bucket := new TokenBucket(burst, now, rate, burst);
        assert Contents() == before;
        ValuesOfUpdate(buckets, key, bucket);
        buckets := buckets[key := bucket];
      } else {
        bucket := buckets[key];
        assert before[key := before[key]] == before;
      }
    }

    method Allow(key: string, rps: int, now: real) returns (ok: bool)
      requires Valid()
      modifies this, buckets.Values
      ensures Valid()
      ensures (Contents(), ok) == RateLimitSpec.Allow(old(Contents()), config, key, rps, now)
      ensures forall k :: k in buckets ==> buckets[k] in old(buckets.Values) || fresh(buckets[k])
    {
      ghost var before := Contents();
      var bucket := BucketFor(key, rps, now);
      ok := Spend(bucket, key, now);
      assert Contents() == before[key := bucket.Value()];
    }

    method Spend(bucket: TokenBucket, ghost key: string, now: real) returns (ok: bool)
      requires Valid() && key in buckets && buckets[key] == bucket
      modifies bucket
      ensures Valid()
      ensures (bucket.Value(), ok) == Take(Refill(old(bucket.Value()), now))
      ensures Contents() == old(Contents())[key := bucket.Value()]
    {
      ok := bucket.Spend(now);
    }

    // Deletes entries while going over the map, in whatever order it yields them.
    method Cleanup(now: real)
      requires Valid()
      modifies this
      ensures Valid()
      ensures Contents() == Sweep(old(Contents()), config, now)
      ensures Contents().Keys == set k | k in old(Contents()) && now - old(Contents())[k].lastRefill <= config.bucketTTL
      ensures forall k :: k in buckets ==> k in old(buckets) && buckets[k] == old(buckets)[k]
    {
      var before := buckets;
      var remaining := before.Keys;
      while remaining != {}
        invariant remaining <= before.Keys
        invariant forall k :: k in buckets ==> k in before && buckets[k] == before[k]
        invariant forall k :: k in before ==>
          (k in buckets <==> k in remaining || !Stale(before[k].Value(), config, now))
      {
        var key :| key in remaining;
        var bucket := before[key];
        if now - bucket.lastRefill > config.bucketTTL {
          buckets := buckets - {key};
        }
        remaining := remaining - {key};
      }
    }
  }
}
