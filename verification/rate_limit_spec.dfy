// Token buckets as values, and what runs of the rate limiter promise. Times are
// seconds and token counts are reals; time never runs backwards.

module RateLimitSpec {
  datatype Bucket = Bucket(tokens: real, lastRefill: real, rate: real, burst: real)
  datatype Config = Config(burstMultiplier: int, bucketTTL: real)

  const DEFAULT_CONFIG := Config(3, 600.0)
  const DEFAULT_RPS := [200, 30, 20]   // global, per user, per address

  function NewBucket(cfg: Config, rps: int, now: real): Bucket {
    var rate := rps as real;
    var burst := rate * cfg.burstMultiplier as real;
    Bucket(burst, now, rate, burst)
  }

  function Refill(b: Bucket, now: real): Bucket {
    var tokens := b.tokens + (now - b.lastRefill) * b.rate;
    b.(tokens := if tokens > b.burst then b.burst else tokens, lastRefill := now)
  }

  function Take(b: Bucket): (Bucket, bool) {
    if b.tokens >= 1.0 then (b.(tokens := b.tokens - 1.0), true) else (b, false)
  }

  // The bucket a call on the key starts from.
  function Current(buckets: map<string, Bucket>, cfg: Config, key: string, rps: int, now: real): Bucket {
    if key in buckets then buckets[key] else NewBucket(cfg, rps, now)
  }

  function Allow(buckets: map<string, Bucket>, cfg: Config, key: string, rps: int, now: real): (map<string, Bucket>, bool) {
    var (b, ok) := Take(Refill(Current(buckets, cfg, key, rps, now), now));
    (buckets[key := b], ok)
  }

  predicate Stale(b: Bucket, cfg: Config, now: real) {
    now - b.lastRefill > cfg.bucketTTL
  }

  function Sweep(buckets: map<string, Bucket>, cfg: Config, now: real): map<string, Bucket> {
    map k | k in buckets && !Stale(buckets[k], cfg, now) :: buckets[k]
  }

  // ---------- Runs ----------

  datatype Op = AllowOp(key: string, rps: int) | SweepOp
  datatype Event = Event(op: Op, now: real)

  ghost function Step(buckets: map<string, Bucket>, cfg: Config, ev: Event): map<string, Bucket> {
    match ev.op
    case AllowOp(key, rps) => Allow(buckets, cfg, key, rps, ev.now).0
    case SweepOp => Sweep(buckets, cfg, ev.now)
  }

  ghost function StateAfter(cfg: Config, run: seq<Event>): map<string, Bucket> {
    if run == [] then map[] else Step(StateAfter(cfg, run[..|run| - 1]), cfg, run[|run| - 1])
  }

  // Whether the last event of a run was a request that was let through.
  ghost predicate Passed(cfg: Config, run: seq<Event>) {
    && run != [] && run[|run| - 1].op.AllowOp?
    && var last := run[|run| - 1];
       Allow(StateAfter(cfg, run[..|run| - 1]), cfg, last.op.key, last.op.rps, last.now).1
  }

  ghost function Answers(cfg: Config, run: seq<Event>): seq<bool> {
    if run == [] then []
    else Answers(cfg, run[..|run| - 1]) + if run[|run| - 1].op.SweepOp? then [] else [Passed(cfg, run)]
  }

  ghost function WithoutSweeps(run: seq<Event>): seq<Event> {
    if run == [] then []
    else WithoutSweeps(run[..|run| - 1]) + if run[|run| - 1].op.SweepOp? then [] else [run[|run| - 1]]
  }

  ghost predicate Chronological(run: seq<Event>) {
    forall i, j :: 0 <= i < j < |run| ==> run[i].now <= run[j].now
  }

  // Every call on a key passes the rate that belongs to the key, as the middleware does.
  ghost predicate FixedRates(run: seq<Event>, rpsOf: string -> int) {
    forall i :: 0 <= i < |run| && run[i].op.AllowOp? ==> run[i].op.rps == rpsOf(run[i].op.key)
  }

  // How many requests on the key passed between t1 and t2, both ends included.
  ghost function PassedWithin(cfg: Config, run: seq<Event>, key: string, t1: real, t2: real): nat {
    if run == [] then 0
    else
      var last := run[|run| - 1];
      PassedWithin(cfg, run[..|run| - 1], key, t1, t2)
      + if Passed(cfg, run) && last.op.key == key && t1 <= last.now <= t2 then 1 else 0
  }

  // ---------- The shape of reachable buckets ----------

  function Burst(cfg: Config, rps: int): real {
    rps as real * cfg.burstMultiplier as real
  }

  ghost predicate WellFilled(b: Bucket, cfg: Config, rps: int, now: real) {
    b.rate == rps as real && b.burst == Burst(cfg, rps) && b.tokens <= b.burst && b.lastRefill <= now
  }

  lemma {:induction false} ReachableBuckets(cfg: Config, run: seq<Event>, rpsOf: string -> int, key: string)
    requires Chronological(run) && FixedRates(run, rpsOf) && run != [] && key in StateAfter(cfg, run)
    ensures WellFilled(StateAfter(cfg, run)[key], cfg, rpsOf(key), run[|run| - 1].now)
  {
    var front, last := run[..|run| - 1], run[|run| - 1];
    if front != [] && key in StateAfter(cfg, front) {
      ReachableBuckets(cfg, front, rpsOf, key);
    }
  }

  // ---------- The bound on every window ----------

  function Pos(x: real): real {
    if x > 0.0 then x else 0.0
  }

  lemma Product(a: real, b: real)
    requires a >= 0.0 && b >= 0.0
    ensures a * b >= 0.0
  {}

  lemma Distribute(r: real, a: real, b: real)
    ensures r * (a + b) == r * a + r * b
  {}

  // Over a stretch of time that is not negative, the refill never exceeds its positive part.
  lemma Earned(rate: real, dt: real)
    requires dt >= 0.0
    ensures dt * rate <= Pos(rate) * dt && Pos(rate) * dt >= 0.0
  {
    if rate > 0.0 { Product(rate, dt); } else { Product(-rate, dt); }
  }

  // The burst plus what is refilled in a stretch of time.
  function Allowance(cfg: Config, rps: int, dt: real): real {
    Pos(Burst(cfg, rps)) + Pos(rps as real) * dt
  }

  // What has passed since t1 and what is left in the bucket together never exceed the
  // burst plus what was refilled since t1.
  ghost predicate Credit(count: nat, b: Bucket, t1: real) {
    || (count == 0 && b.tokens <= b.burst && b.lastRefill <= t1)
    || (t1 <= b.lastRefill && count as real + Pos(b.tokens) <= Pos(b.burst) + Pos(b.rate) * (b.lastRefill - t1))
  }

  lemma RefillGain(b: Bucket, now: real)
    requires b.lastRefill <= now
    ensures Refill(b, now).tokens <= b.tokens + Pos(b.rate) * (now - b.lastRefill)
    ensures Pos(Refill(b, now).tokens) <= Pos(b.tokens) + Pos(b.rate) * (now - b.lastRefill)
  {
    var dt := now - b.lastRefill;
    Earned(b.rate, dt);
    assert Refill(b, now).tokens <= b.tokens + dt * b.rate;
  }

  // The arithmetic of one call, with every product named.
  lemma CreditSum(count: real, tokens: real, burst: real, refilled: real, earned: real, more: real)
    requires count + Pos(tokens) <= Pos(burst) + earned && more >= 0.0
    requires refilled <= burst && Pos(refilled) <= Pos(tokens) + more
    ensures count + Pos(refilled) <= Pos(burst) + (earned + more)
    ensures refilled >= 1.0 ==> count + 1.0 + Pos(refilled - 1.0) <= Pos(burst) + (earned + more)
  {}

  // A bucket with the given stock of tokens after the refill, before and after a call.
  lemma CreditTaken(count: nat, r: Bucket, t1: real, earned: real)
    requires t1 <= r.lastRefill && earned == Pos(r.rate) * (r.lastRefill - t1)
    requires count as real + Pos(r.tokens) <= Pos(r.burst) + earned
    requires r.tokens >= 1.0 ==> count as real + 1.0 + Pos(r.tokens - 1.0) <= Pos(r.burst) + earned
    ensures Credit(count + if Take(r).1 then 1 else 0, Take(r).0, t1)
  {}

  lemma CreditStep(count: nat, b: Bucket, t1: real, now: real)
    requires Credit(count, b, t1) && b.lastRefill <= now && t1 <= now
    ensures Credit(count + if Take(Refill(b, now)).1 then 1 else 0, Take(Refill(b, now)).0, t1)
  {
    var r := Refill(b, now);
    if count == 0 && b.tokens <= b.burst && b.lastRefill <= t1 {
      var earned := Pos(b.rate) * (now - t1);
      Earned(b.rate, now - t1);
      CreditSum(0.0, b.burst, b.burst, r.tokens, 0.0, earned);
      CreditTaken(0, r, t1, earned);
    } else {
      CreditLater(count, b, t1, now);
    }
  }

  lemma EarnedSince(rate: real, t1: real, t2: real, t3: real)
    requires t2 <= t3
    ensures Pos(rate) * (t3 - t1) == Pos(rate) * (t2 - t1) + Pos(rate) * (t3 - t2) && Pos(rate) * (t3 - t2) >= 0.0
  {
    Earned(rate, t3 - t2);
    Distribute(Pos(rate), t2 - t1, t3 - t2);
    assert t2 - t1 + (t3 - t2) == t3 - t1;
  }

  lemma CreditLater(count: nat, b: Bucket, t1: real, now: real)
    requires t1 <= b.lastRefill <= now
    requires count as real + Pos(b.tokens) <= Pos(b.burst) + Pos(b.rate) * (b.lastRefill - t1)
    ensures Credit(count + if Take(Refill(b, now)).1 then 1 else 0, Take(Refill(b, now)).0, t1)
  {
    var earned, more := Pos(b.rate) * (b.lastRefill - t1), Pos(b.rate) * (now - b.lastRefill);
    EarnedSince(b.rate, t1, b.lastRefill, now);
    RefillGain(b, now);
    assert Refill(b, now).tokens <= b.burst;
    CreditSum(count as real, b.tokens, b.burst, Refill(b, now).tokens, earned, more);
    CreditTaken(count, Refill(b, now), t1, earned + more);
  }

  lemma CreditFresh(cfg: Config, rps: int, t1: real, now: real)
    requires t1 <= now
    ensures Credit(0, NewBucket(cfg, rps, now), t1)
  {
    Earned(rps as real, now - t1);
  }

  lemma CreditEarly(b: Bucket, t1: real, now: real)
    requires now < t1
    ensures Credit(0, Take(Refill(b, now)).0, t1)
  {}

  // For a run without sweeps whose events all happen by t2.
  lemma {:induction false} CreditAlways(cfg: Config, run: seq<Event>, key: string, t1: real, t2: real)
    requires Chronological(run) && WithoutSweeps(run) == run
    requires run != [] ==> run[|run| - 1].now <= t2
    ensures var s, count := StateAfter(cfg, run), PassedWithin(cfg, run, key, t1, t2);
      if key in s then Credit(count, s[key], t1) else count == 0
    ensures key in StateAfter(cfg, run) ==> run != [] && StateAfter(cfg, run)[key].lastRefill <= run[|run| - 1].now
  {
    if run != [] {
      var front, last := run[..|run| - 1], run[|run| - 1];
      NoSweepsInFront(run);
      CreditAlways(cfg, front, key, t1, t2);
      if last.op.key == key {
        if last.now < t1 { NothingBefore(cfg, front, key, t1, t2); }
        CreditCall(StateAfter(cfg, front), PassedWithin(cfg, front, key, t1, t2), cfg, key, last.op.rps, t1, last.now);
      }
    }
  }

  lemma CreditCall(s: map<string, Bucket>, count: nat, cfg: Config, key: string, rps: int, t1: real, now: real)
    requires if key in s then Credit(count, s[key], t1) && s[key].lastRefill <= now else count == 0
    requires now < t1 ==> count == 0
    ensures var (s', ok) := Allow(s, cfg, key, rps, now);
      Credit(count + if ok && t1 <= now then 1 else 0, s'[key], t1) && s'[key].lastRefill == now
  {
    var b := Current(s, cfg, key, rps, now);
    if now < t1 {
      CreditEarly(b, t1, now);
    } else {
      CreditFresh(cfg, rps, t1, now);
      CreditStep(count, b, t1, now);
    }
  }

  lemma {:induction false} NoSweepsInFront(run: seq<Event>)
    requires run != [] && WithoutSweeps(run) == run
    ensures run[|run| - 1].op.AllowOp? && WithoutSweeps(run[..|run| - 1]) == run[..|run| - 1]
  {
    WithoutSweepsLength(run[..|run| - 1]);
    assert WithoutSweeps(run)[..|run| - 1] == WithoutSweeps(run[..|run| - 1]);
  }

  lemma {:induction false} WithoutSweepsLength(run: seq<Event>)
    ensures |WithoutSweeps(run)| <= |run|
  {
    if run != [] { WithoutSweepsLength(run[..|run| - 1]); }
  }

  lemma {:induction false} NothingBefore(cfg: Config, run: seq<Event>, key: string, t1: real, t2: real)
    requires Chronological(run) && (run != [] ==> run[|run| - 1].now < t1)
    ensures PassedWithin(cfg, run, key, t1, t2) == 0
  {
    if run != [] { NothingBefore(cfg, run[..|run| - 1], key, t1, t2); }
  }

  // The events up to t2 are a prefix of the run, and only they count.
  lemma {:induction false} UpTo(cfg: Config, run: seq<Event>, key: string, t1: real, t2: real) returns (front: seq<Event>)
    requires Chronological(run) && WithoutSweeps(run) == run
    ensures front <= run && WithoutSweeps(front) == front && (front != [] ==> front[|front| - 1].now <= t2)
    ensures PassedWithin(cfg, run, key, t1, t2) == PassedWithin(cfg, front, key, t1, t2)
  {
    front := run;
    if run != [] && run[|run| - 1].now > t2 {
      NoSweepsInFront(run);
      front := UpTo(cfg, run[..|run| - 1], key, t1, t2);
    }
  }

  lemma WindowBoundWithoutSweeps(cfg: Config, run: seq<Event>, rpsOf: string -> int, key: string, t1: real, t2: real)
    requires Chronological(run) && FixedRates(run, rpsOf) && WithoutSweeps(run) == run && t1 <= t2
    ensures PassedWithin(cfg, run, key, t1, t2) as real <= Allowance(cfg, rpsOf(key), t2 - t1)
  {
    var front := UpTo(cfg, run, key, t1, t2);
    BoundUpTo(cfg, front, rpsOf, key, t1, t2, PassedWithin(cfg, front, key, t1, t2));
  }

  lemma BoundUpTo(cfg: Config, front: seq<Event>, rpsOf: string -> int, key: string, t1: real, t2: real, count: nat)
    requires Chronological(front) && FixedRates(front, rpsOf) && WithoutSweeps(front) == front && t1 <= t2
    requires front != [] ==> front[|front| - 1].now <= t2
    requires count == PassedWithin(cfg, front, key, t1, t2)
    ensures count as real <= Allowance(cfg, rpsOf(key), t2 - t1)
  {
    CreditAlways(cfg, front, key, t1, t2);
    var s := StateAfter(cfg, front);
    if key in s {
      ReachableBuckets(cfg, front, rpsOf, key);
      CreditMeans(cfg, rpsOf(key), count, s[key], t1, t2);
    } else {
      AllowanceNotNegative(cfg, rpsOf(key), t2 - t1);
    }
  }

  lemma AllowanceNotNegative(cfg: Config, rps: int, dt: real)
    requires dt >= 0.0
    ensures Allowance(cfg, rps, dt) >= 0.0
  {
    Earned(rps as real, dt);
  }

  lemma CreditMeans(cfg: Config, rps: int, count: nat, b: Bucket, t1: real, t2: real)
    requires Credit(count, b, t1) && WellFilled(b, cfg, rps, t2) && t1 <= t2
    ensures count as real <= Allowance(cfg, rps, t2 - t1)
  {
    Earned(b.rate, t2 - t1);
    Earned(b.rate, t2 - b.lastRefill);
    Distribute(Pos(b.rate), b.lastRefill - t1, t2 - b.lastRefill);
    assert b.lastRefill - t1 + (t2 - b.lastRefill) == t2 - t1;
  }

  // ---------- Sweeping idle buckets ----------

  // The swept map holds the same buckets, except some that have been idle long enough
  // to be full again whenever they are next used.
  ghost predicate Simulates(full: map<string, Bucket>, swept: map<string, Bucket>, cfg: Config, rpsOf: string -> int, now: real) {
    && (forall k :: k in swept ==> k in full && full[k] == swept[k])
    && forall k :: k in full && k !in swept ==>
         Recovered(full[k], cfg, rpsOf(k), now)
  }

  // A bucket that the refill at this time fills up.
  ghost predicate Recovered(b: Bucket, cfg: Config, rps: int, now: real) {
    WellFilled(b, cfg, rps, now) && b.tokens + (now - b.lastRefill) * b.rate >= b.burst
  }

  // An idle bucket is kept long enough to be refilled from empty.
  predicate OutlivesRefill(cfg: Config, rps: int) {
    rps as real * cfg.bucketTTL >= Burst(cfg, rps)
  }

  ghost predicate NonNegative(buckets: map<string, Bucket>, cfg: Config, rpsOf: string -> int, now: real) {
    forall k :: k in buckets ==> buckets[k].tokens >= 0.0 && WellFilled(buckets[k], cfg, rpsOf(k), now)
  }

  lemma FullStaysFull(b: Bucket, cfg: Config, rps: int, before: real, now: real)
    requires before <= now && rps >= 0 && Recovered(b, cfg, rps, before)
    ensures Recovered(b, cfg, rps, now)
    ensures Refill(b, now) == Refill(NewBucket(cfg, rps, now), now)
  {
    Product(now - before, b.rate);
    Distribute(b.rate, before - b.lastRefill, now - before);
    assert (now - b.lastRefill) * b.rate == b.rate * (before - b.lastRefill + (now - before));
  }

  lemma StaleIsFull(b: Bucket, cfg: Config, rps: int, now: real)
    requires rps >= 0 && b.tokens >= 0.0 && WellFilled(b, cfg, rps, now) && Stale(b, cfg, now)
    requires OutlivesRefill(cfg, rps)
    ensures Recovered(b, cfg, rps, now)
  {
    var spare := now - b.lastRefill - cfg.bucketTTL;
    Product(spare, b.rate);
    Distribute(b.rate, cfg.bucketTTL, spare);
    assert (now - b.lastRefill) * b.rate == b.rate * (cfg.bucketTTL + spare);
  }

  lemma SimulationAllow(full: map<string, Bucket>, swept: map<string, Bucket>, cfg: Config, rpsOf: string -> int,
                        key: string, before: real, now: real)
    requires before <= now && forall k :: rpsOf(k) >= 0
    requires Simulates(full, swept, cfg, rpsOf, before)
    ensures Simulates(Allow(full, cfg, key, rpsOf(key), now).0, Allow(swept, cfg, key, rpsOf(key), now).0, cfg, rpsOf, now)
    ensures Allow(full, cfg, key, rpsOf(key), now).1 == Allow(swept, cfg, key, rpsOf(key), now).1
  {
    forall k | k in full && k !in swept ensures Recovered(full[k], cfg, rpsOf(k), now) {
      FullStaysFull(full[k], cfg, rpsOf(k), before, now);
    }
    if key in full && key !in swept {
      FullStaysFull(full[key], cfg, rpsOf(key), before, now);
    }
  }

  lemma SimulationSweep(full: map<string, Bucket>, swept: map<string, Bucket>, cfg: Config, rpsOf: string -> int, before: real, now: real)
    requires before <= now && forall k :: rpsOf(k) >= 0
    requires Simulates(full, swept, cfg, rpsOf, before) && NonNegative(swept, cfg, rpsOf, before)
    requires forall k :: OutlivesRefill(cfg, rpsOf(k))
    ensures Simulates(full, Sweep(swept, cfg, now), cfg, rpsOf, now)
  {
    forall k | k in full && k !in Sweep(swept, cfg, now)
      ensures Recovered(full[k], cfg, rpsOf(k), now)
    {
      if k in swept {
        var b := swept[k];
        StaleIsFull(b, cfg, rpsOf(k), now);
      } else {
        FullStaysFull(full[k], cfg, rpsOf(k), before, now);
      }
    }
  }

  lemma NonNegativeBucket(b: Bucket, cfg: Config, rps: int, now: real)
    requires rps >= 0 && cfg.burstMultiplier >= 0 && WellFilled(b, cfg, rps, now)
    requires b == NewBucket(cfg, rps, now) || b.tokens >= 0.0
    ensures var b' := Take(Refill(b, now)).0; b'.tokens >= 0.0 && WellFilled(b', cfg, rps, now)
  {
    var gain := (now - b.lastRefill) * b.rate;
    Product(rps as real, cfg.burstMultiplier as real);
    Product(now - b.lastRefill, b.rate);
    assert b.tokens >= 0.0 && b.burst >= 0.0;
    assert Refill(b, now).tokens == if b.tokens + gain > b.burst then b.burst else b.tokens + gain;
  }

  lemma NonNegativeStep(buckets: map<string, Bucket>, cfg: Config, rpsOf: string -> int, ev: Event, before: real)
    requires before <= ev.now && cfg.burstMultiplier >= 0 && (forall k :: rpsOf(k) >= 0)
    requires NonNegative(buckets, cfg, rpsOf, before)
    requires ev.op.AllowOp? ==> ev.op.rps == rpsOf(ev.op.key)
    ensures NonNegative(Step(buckets, cfg, ev), cfg, rpsOf, ev.now)
  {
    if ev.op.AllowOp? {
      NonNegativeBucket(Current(buckets, cfg, ev.op.key, ev.op.rps, ev.now), cfg, ev.op.rps, ev.now);
    }
  }

  // The conditions under which sweeps cannot be seen, for every key that occurs.
  ghost predicate SafeToSweep(cfg: Config, rpsOf: string -> int) {
    cfg.burstMultiplier >= 0 && forall k :: rpsOf(k) >= 0 && OutlivesRefill(cfg, rpsOf(k))
  }

  lemma SimulationStep(full: map<string, Bucket>, swept: map<string, Bucket>, cfg: Config, rpsOf: string -> int, ev: Event, before: real)
    requires SafeToSweep(cfg, rpsOf) && before <= ev.now && (ev.op.AllowOp? ==> ev.op.rps == rpsOf(ev.op.key))
    requires Simulates(full, swept, cfg, rpsOf, before) && NonNegative(swept, cfg, rpsOf, before)
    ensures NonNegative(Step(swept, cfg, ev), cfg, rpsOf, ev.now)
    ensures Simulates(if ev.op.SweepOp? then full else Step(full, cfg, ev), Step(swept, cfg, ev), cfg, rpsOf, ev.now)
    ensures ev.op.AllowOp? ==>
      Allow(full, cfg, ev.op.key, ev.op.rps, ev.now).1 == Allow(swept, cfg, ev.op.key, ev.op.rps, ev.now).1
  {
    NonNegativeStep(swept, cfg, rpsOf, ev, before);
    match ev.op
    case SweepOp => SimulationSweep(full, swept, cfg, rpsOf, before, ev.now);
    case AllowOp(key, _) => SimulationAllow(full, swept, cfg, rpsOf, key, before, ev.now);
  }

  lemma WithoutSweepsSnoc(run: seq<Event>)
    requires run != []
    ensures var front, last := WithoutSweeps(run[..|run| - 1]), run[|run| - 1];
      WithoutSweeps(run) == (if last.op.SweepOp? then front else front + [last]) && (front + [last])[..|front|] == front
  {}

  lemma {:induction false} RunSimulates(cfg: Config, run: seq<Event>, rpsOf: string -> int)
    requires Chronological(run) && FixedRates(run, rpsOf) && SafeToSweep(cfg, rpsOf)
    ensures run != [] ==>
      && Simulates(StateAfter(cfg, WithoutSweeps(run)), StateAfter(cfg, run), cfg, rpsOf, run[|run| - 1].now)
      && NonNegative(StateAfter(cfg, run), cfg, rpsOf, run[|run| - 1].now)
    ensures run != [] && run[|run| - 1].op.AllowOp? ==> Passed(cfg, run) == Passed(cfg, WithoutSweeps(run))
  {
    if run != [] {
      var front, last := run[..|run| - 1], run[|run| - 1];
      RunSimulates(cfg, front, rpsOf);
      WithoutSweepsSnoc(run);
      SimulationStep(StateAfter(cfg, WithoutSweeps(front)), StateAfter(cfg, front), cfg, rpsOf, last,
                     if front == [] then last.now else front[|front| - 1].now);
    }
  }

  lemma {:induction false} AnswersKept(cfg: Config, run: seq<Event>, rpsOf: string -> int)
    requires Chronological(run) && FixedRates(run, rpsOf) && SafeToSweep(cfg, rpsOf)
    ensures Answers(cfg, run) == Answers(cfg, WithoutSweeps(run))
  {
    if run != [] {
      AnswersKept(cfg, run[..|run| - 1], rpsOf);
      RunSimulates(cfg, run, rpsOf);
      WithoutSweepsSnoc(run);
    }
  }

  lemma {:induction false} CountKept(cfg: Config, run: seq<Event>, rpsOf: string -> int, key: string, t1: real, t2: real)
    requires Chronological(run) && FixedRates(run, rpsOf) && SafeToSweep(cfg, rpsOf)
    ensures PassedWithin(cfg, run, key, t1, t2) == PassedWithin(cfg, WithoutSweeps(run), key, t1, t2)
  {
    if run != [] {
      CountKept(cfg, run[..|run| - 1], rpsOf, key, t1, t2);
      RunSimulates(cfg, run, rpsOf);
      WithoutSweepsSnoc(run);
    }
  }

  lemma {:induction false} WithoutSweepsTwice(run: seq<Event>)
    ensures WithoutSweeps(WithoutSweeps(run)) == WithoutSweeps(run)
  {
    if run != [] {
      var front, last := run[..|run| - 1], run[|run| - 1];
      var kept := WithoutSweeps(front);
      WithoutSweepsTwice(front);
      WithoutSweepsConcat(kept, [last]);
      assert [last][..0] == [];
      assert WithoutSweeps(run) == if last.op.SweepOp? then kept else kept + [last];
    }
  }

  lemma {:induction false} WithoutSweepsKeeps(run: seq<Event>, rpsOf: string -> int)
    requires Chronological(run) && FixedRates(run, rpsOf)
    ensures Chronological(WithoutSweeps(run)) && FixedRates(WithoutSweeps(run), rpsOf)
    ensures run != [] ==> forall i :: 0 <= i < |WithoutSweeps(run)| ==> WithoutSweeps(run)[i].now <= run[|run| - 1].now
  {
    if run != [] {
      var front, last := run[..|run| - 1], run[|run| - 1];
      WithoutSweepsKeeps(front, rpsOf);
      var w := WithoutSweeps(run);
      assert last.op.AllowOp? ==> w == WithoutSweeps(front) + [last];
    }
  }

  // In every window of every run, at most the burst plus the rate times the length of
  // the window passes. Without sweeps that needs nothing; with sweeps anywhere it
  // needs the lifetime of an idle bucket to be long enough to refill it.
  lemma WindowBound(cfg: Config, run: seq<Event>, rpsOf: string -> int, key: string, t1: real, t2: real)
    requires Chronological(run) && FixedRates(run, rpsOf) && t1 <= t2
    requires WithoutSweeps(run) == run || SafeToSweep(cfg, rpsOf)
    ensures PassedWithin(cfg, run, key, t1, t2) as real <= Allowance(cfg, rpsOf(key), t2 - t1)
  {
    if WithoutSweeps(run) != run {
      CountKept(cfg, run, rpsOf, key, t1, t2);
    }
    WithoutSweepsKeeps(run, rpsOf);
    WithoutSweepsTwice(run);
    WindowBoundWithoutSweeps(cfg, WithoutSweeps(run), rpsOf, key, t1, t2);
  }

  // ---------- Sweeping is invisible exactly when idle buckets live long enough ----------

  // In no run, whatever keys and rates it mixes, does a caller notice the sweeps.
  ghost predicate SweepsInvisible(cfg: Config, rpsOf: string -> int) {
    forall run :: Chronological(run) && FixedRates(run, rpsOf) ==> Answers(cfg, run) == Answers(cfg, WithoutSweeps(run))
  }

  ghost function Repeat(ev: Event, n: nat): seq<Event> {
    seq(n, _ => ev)
  }

  lemma RefillTwice(b: Bucket, now: real)
    requires b.lastRefill == now && b.tokens <= b.burst
    ensures Refill(b, now) == b
  {
    assert (now - now) * b.rate == 0.0;
  }

  // What a call on the key at this time finds in the bucket.
  ghost function Fund(cfg: Config, run: seq<Event>, key: string, rps: int, now: real): Bucket {
    Refill(Current(StateAfter(cfg, run), cfg, key, rps, now), now)
  }

  lemma CallOnce(cfg: Config, run: seq<Event>, key: string, rps: int, now: real)
    requires Fund(cfg, run, key, rps, now).tokens <= Fund(cfg, run, key, rps, now).burst
    ensures var r := run + [Event(AllowOp(key, rps), now)];
      && key in StateAfter(cfg, r) && StateAfter(cfg, r)[key] == Take(Fund(cfg, run, key, rps, now)).0
      && Fund(cfg, r, key, rps, now) == Take(Fund(cfg, run, key, rps, now)).0
      && Passed(cfg, r) == Take(Fund(cfg, run, key, rps, now)).1
  {
    var ev := Event(AllowOp(key, rps), now);
    assert (run + [ev])[..|run + [ev]| - 1] == run;
    RefillTwice(Take(Fund(cfg, run, key, rps, now)).0, now);
  }

  // Calls at one instant: the bucket lets through while it can.
  lemma {:induction false} Drain(cfg: Config, run: seq<Event>, key: string, rps: int, now: real, n: nat)
    requires Fund(cfg, run, key, rps, now).tokens <= Fund(cfg, run, key, rps, now).burst
    ensures var r := run + Repeat(Event(AllowOp(key, rps), now), n);
      var before, after := Fund(cfg, run, key, rps, now), Fund(cfg, r, key, rps, now);
      && after == before.(tokens := after.tokens) && after.tokens <= before.tokens
      && (n as real <= before.tokens ==> after.tokens == before.tokens - n as real)
      && (after.tokens == before.tokens - n as real || after.tokens < 1.0)
  {
    var ev := Event(AllowOp(key, rps), now);
    if n == 0 {
      assert run + Repeat(ev, 0) == run;
    } else {
      Drain(cfg, run, key, rps, now, n - 1);
      CallOnce(cfg, run + Repeat(ev, n - 1), key, rps, now);
      assert run + Repeat(ev, n) == (run + Repeat(ev, n - 1)) + [ev];
    }
  }

  lemma AnswersEndWithPassed(cfg: Config, run: seq<Event>)
    requires run != [] && run[|run| - 1].op.AllowOp?
    ensures Answers(cfg, run) != [] && Answers(cfg, run)[|Answers(cfg, run)| - 1] == Passed(cfg, run)
  {}

  lemma {:induction false} WithoutSweepsConcat(a: seq<Event>, b: seq<Event>)
    ensures WithoutSweeps(a + b) == WithoutSweeps(a) + WithoutSweeps(b)
  {
    if b == [] {
      assert a + b == a;
    } else {
      WithoutSweepsConcat(a, b[..|b| - 1]);
      assert (a + b)[..|a + b| - 1] == a + b[..|b| - 1];
    }
  }

  lemma {:induction false} WithoutSweepsRepeat(ev: Event, n: nat)
    requires ev.op.AllowOp?
    ensures WithoutSweeps(Repeat(ev, n)) == Repeat(ev, n)
  {
    if n > 0 {
      WithoutSweepsRepeat(ev, n - 1);
      assert Repeat(ev, n)[..n - 1] == Repeat(ev, n - 1);
    }
  }

  // A whole burst at time 0, a sweep at time t or none, and a whole burst at time t.
  ghost function BurstTwice(key: string, rps: int, n: nat, t: real, sweep: seq<Event>): seq<Event> {
    Repeat(Event(AllowOp(key, rps), 0.0), n) + sweep + Repeat(Event(AllowOp(key, rps), t), n)
  }

  lemma BurstTwiceShape(key: string, rps: int, n: nat, t: real, rpsOf: string -> int)
    requires t >= 0.0 && rps == rpsOf(key)
    ensures var run, plain := BurstTwice(key, rps, n, t, [Event(SweepOp, t)]), BurstTwice(key, rps, n, t, []);
      WithoutSweeps(run) == plain && Chronological(run) && FixedRates(run, rpsOf)
  {
    var early, late, sweep := Event(AllowOp(key, rps), 0.0), Event(AllowOp(key, rps), t), [Event(SweepOp, t)];
    WithoutSweepsConcat(Repeat(early, n) + sweep, Repeat(late, n));
    WithoutSweepsConcat(Repeat(early, n), sweep);
    assert sweep[..0] == [];
    WithoutSweepsRepeat(early, n);
    WithoutSweepsRepeat(late, n);
  }

  // The last call of the second burst passes exactly if the burst found n tokens.
  lemma LastOfBurst(cfg: Config, run: seq<Event>, key: string, rps: int, t: real, n: nat)
    requires n >= 1 && Fund(cfg, run, key, rps, t).tokens <= Fund(cfg, run, key, rps, t).burst
    ensures var r := run + Repeat(Event(AllowOp(key, rps), t), n);
      Answers(cfg, r) != [] && Answers(cfg, r)[|Answers(cfg, r)| - 1] == (Fund(cfg, run, key, rps, t).tokens >= n as real)
  {
    var ev := Event(AllowOp(key, rps), t);
    Drain(cfg, run, key, rps, t, n - 1);
    CallOnce(cfg, run + Repeat(ev, n - 1), key, rps, t);
    assert run + Repeat(ev, n) == (run + Repeat(ev, n - 1)) + [ev];
    AnswersEndWithPassed(cfg, run + Repeat(ev, n));
  }

  // A burst of n calls empties a fresh bucket of n tokens.
  lemma FirstBurst(cfg: Config, key: string, rps: int, n: nat)
    requires n >= 1 && n as real == Burst(cfg, rps)
    ensures var s := StateAfter(cfg, Repeat(Event(AllowOp(key, rps), 0.0), n));
      key in s && s[key] == Bucket(0.0, 0.0, rps as real, Burst(cfg, rps))
  {
    var ev := Event(AllowOp(key, rps), 0.0);
    RefillTwice(NewBucket(cfg, rps, 0.0), 0.0);
    Drain(cfg, [], key, rps, 0.0, n - 1);
    assert [] + Repeat(ev, n - 1) == Repeat(ev, n - 1);
    CallOnce(cfg, Repeat(ev, n - 1), key, rps, 0.0);
    assert Repeat(ev, n) == Repeat(ev, n - 1) + [ev];
  }

  lemma AtLeastOne(a: int, b: int)
    requires a >= 1 && b >= 1
    ensures a * b >= 1
  {
    assert (a - 1) * (b - 1) >= 0;
  }

  lemma BurstIsWhole(cfg: Config, rps: int) returns (n: nat)
    requires rps >= 1 && cfg.burstMultiplier >= 1
    ensures n >= 1 && n as real == Burst(cfg, rps)
  {
    n := rps * cfg.burstMultiplier;
    AtLeastOne(rps, cfg.burstMultiplier);
    WholeProduct(rps, cfg.burstMultiplier);
  }

  lemma {:induction false} WholeProduct(a: nat, b: int)
    ensures (a * b) as real == a as real * b as real
  {
    if a > 0 {
      WholeProduct(a - 1, b);
      assert a * b == (a - 1) * b + b;
      Distribute(b as real, (a - 1) as real, 1.0);
    }
  }

  lemma NotYetRefilled(cfg: Config, rps: int, t: real)
    requires rps >= 1 && 0.0 <= t < cfg.burstMultiplier as real
    ensures Refill(Bucket(0.0, 0.0, rps as real, Burst(cfg, rps)), t).tokens < Burst(cfg, rps)
  {
    var rate, m := rps as real, cfg.burstMultiplier as real;
    assert rate * (m - t) > 0.0;
    Distribute(rate, t, m - t);
    assert t + (m - t) == m;
  }

  // The second burst after a sweep finds a new bucket, without one a bucket still short.
  lemma SecondBurst(cfg: Config, key: string, rps: int, n: nat, t: real)
    requires rps >= 1 && n >= 1 && n as real == Burst(cfg, rps) && 0.0 <= cfg.bucketTTL < t < cfg.burstMultiplier as real
    ensures var drained := Repeat(Event(AllowOp(key, rps), 0.0), n);
      && Fund(cfg, drained + [Event(SweepOp, t)], key, rps, t) == NewBucket(cfg, rps, t)
      && Fund(cfg, drained, key, rps, t).tokens < n as real
      && Fund(cfg, drained, key, rps, t).burst == n as real
  {
    var drained, sweep := Repeat(Event(AllowOp(key, rps), 0.0), n), [Event(SweepOp, t)];
    FirstBurst(cfg, key, rps, n);
    NotYetRefilled(cfg, rps, t);
    assert (drained + sweep)[..|drained + sweep| - 1] == drained;
    assert key !in StateAfter(cfg, drained + sweep);
    RefillTwice(NewBucket(cfg, rps, t), t);
  }

  // Empty a bucket, let it go stale before it is full, sweep, and ask for a whole burst again.
  lemma BurstsDiffer(cfg: Config, key: string, rps: int, n: nat, t: real)
    requires rps >= 1 && n >= 1 && n as real == Burst(cfg, rps) && 0.0 <= cfg.bucketTTL < t < cfg.burstMultiplier as real
    ensures Answers(cfg, BurstTwice(key, rps, n, t, [Event(SweepOp, t)])) != Answers(cfg, BurstTwice(key, rps, n, t, []))
  {
    var drained, sweep := Repeat(Event(AllowOp(key, rps), 0.0), n), [Event(SweepOp, t)];
    SecondBurst(cfg, key, rps, n, t);
    LastOfBurst(cfg, drained + sweep, key, rps, t, n);
    LastOfBurst(cfg, drained, key, rps, t, n);
    assert drained + [] == drained;
  }

  // Between the end of an idle bucket's life and the time it would be full.
  function TooEarly(cfg: Config): real {
    (cfg.bucketTTL + cfg.burstMultiplier as real) / 2.0
  }

  lemma EarlySweepShows(cfg: Config, key: string, rpsOf: string -> int)
    requires rpsOf(key) >= 1 && cfg.burstMultiplier >= 1 && 0.0 <= cfg.bucketTTL < cfg.burstMultiplier as real
    ensures !SweepsInvisible(cfg, rpsOf)
  {
    var n := BurstIsWhole(cfg, rpsOf(key));
    BurstsDiffer(cfg, key, rpsOf(key), n, TooEarly(cfg));
    BurstTwiceShape(key, rpsOf(key), n, TooEarly(cfg), rpsOf);
  }

  lemma LongLifeIsSafe(cfg: Config, rpsOf: string -> int)
    requires cfg.burstMultiplier >= 1 && cfg.bucketTTL >= cfg.burstMultiplier as real && forall k :: rpsOf(k) >= 0
    ensures SafeToSweep(cfg, rpsOf)
  {
    forall k ensures OutlivesRefill(cfg, rpsOf(k)) {
      var rate := rpsOf(k) as real;
      Product(rate, cfg.bucketTTL - cfg.burstMultiplier as real);
      Distribute(rate, cfg.burstMultiplier as real, cfg.bucketTTL - cfg.burstMultiplier as real);
    }
  }

  // Whatever the schedule of sweeps, no caller can tell it from no sweeping at all, if
  // and only if an idle bucket lives at least burstMultiplier seconds, or nobody is ever
  // let through.
  lemma SweepsInvisibleIff(cfg: Config, rpsOf: string -> int)
    requires cfg.burstMultiplier >= 1 && cfg.bucketTTL >= 0.0 && forall k :: rpsOf(k) >= 0
    ensures SweepsInvisible(cfg, rpsOf) <==> cfg.bucketTTL >= cfg.burstMultiplier as real || forall k :: rpsOf(k) == 0
  {
    if cfg.bucketTTL >= cfg.burstMultiplier as real || forall k :: rpsOf(k) == 0 {
      if cfg.bucketTTL >= cfg.burstMultiplier as real { LongLifeIsSafe(cfg, rpsOf); }
      forall run | Chronological(run) && FixedRates(run, rpsOf)
        ensures Answers(cfg, run) == Answers(cfg, WithoutSweeps(run))
      {
        AnswersKept(cfg, run, rpsOf);
      }
    } else {
      var key :| rpsOf(key) != 0;
      EarlySweepShows(cfg, key, rpsOf);
    }
  }

  // The shipped settings, three seconds to refill and ten minutes to live, whatever of the
  // three rates the keys of a run have.
  lemma DefaultsAreSafe(rpsOf: string -> int)
    requires forall k :: rpsOf(k) in DEFAULT_RPS
    ensures SweepsInvisible(DEFAULT_CONFIG, rpsOf)
  {
    SweepsInvisibleIff(DEFAULT_CONFIG, rpsOf);
  }

  // ---------- And so are the windows bounded ----------

  ghost predicate WindowsBounded(cfg: Config, rpsOf: string -> int) {
    forall run, key, t1: real, t2: real :: Chronological(run) && FixedRates(run, rpsOf) && t1 <= t2 ==>
      PassedWithin(cfg, run, key, t1, t2) as real <= Allowance(cfg, rpsOf(key), t2 - t1)
  }

  // Of a burst of n calls that finds n tokens, all pass.
  lemma {:induction false} BurstPasses(cfg: Config, run: seq<Event>, key: string, rps: int, now: real, n: nat, t1: real, t2: real)
    requires n as real <= Fund(cfg, run, key, rps, now).tokens <= Fund(cfg, run, key, rps, now).burst && t1 <= now <= t2
    ensures PassedWithin(cfg, run + Repeat(Event(AllowOp(key, rps), now), n), key, t1, t2) ==
      PassedWithin(cfg, run, key, t1, t2) + n
  {
    var ev := Event(AllowOp(key, rps), now);
    if n == 0 {
      assert run + Repeat(ev, 0) == run;
    } else {
      var before := run + Repeat(ev, n - 1);
      BurstPasses(cfg, run, key, rps, now, n - 1, t1, t2);
      Drain(cfg, run, key, rps, now, n - 1);
      CallOnce(cfg, before, key, rps, now);
      assert run + Repeat(ev, n) == before + [ev];
      assert (before + [ev])[..|before + [ev]| - 1] == before;
    }
  }

  lemma SweepLetsNothingPass(cfg: Config, run: seq<Event>, now: real, key: string, t1: real, t2: real)
    ensures PassedWithin(cfg, run + [Event(SweepOp, now)], key, t1, t2) == PassedWithin(cfg, run, key, t1, t2)
  {
    var swept := run + [Event(SweepOp, now)];
    assert swept[..|swept| - 1] == run;
  }

  // Around an early sweep both bursts pass as a whole.
  lemma BothBurstsPass(cfg: Config, key: string, rps: int, n: nat, t: real)
    requires rps >= 1 && n >= 1 && n as real == Burst(cfg, rps) && 0.0 <= cfg.bucketTTL < t < cfg.burstMultiplier as real
    ensures PassedWithin(cfg, BurstTwice(key, rps, n, t, [Event(SweepOp, t)]), key, 0.0, t) == 2 * n
  {
    var first, sweep := Repeat(Event(AllowOp(key, rps), 0.0), n), [Event(SweepOp, t)];
    RefillTwice(NewBucket(cfg, rps, 0.0), 0.0);
    BurstPasses(cfg, [], key, rps, 0.0, n, 0.0, t);
    assert [] + first == first;
    SweepLetsNothingPass(cfg, first, t, key, 0.0, t);
    SecondBurst(cfg, key, rps, n, t);
    BurstPasses(cfg, first + sweep, key, rps, t, n, 0.0, t);
  }

  // And that is more than the burst and what is refilled in between.
  lemma ShortOfTwoBursts(cfg: Config, rps: int, n: nat, t: real)
    requires rps >= 1 && n as real == Burst(cfg, rps) && 0.0 <= t < cfg.burstMultiplier as real
    ensures Allowance(cfg, rps, t - 0.0) < n as real + n as real
  {
    var rate, m := rps as real, cfg.burstMultiplier as real;
    assert rate * (m - t) > 0.0;
    Distribute(rate, t, m - t);
    assert t + (m - t) == m && t - 0.0 == t;
  }

  lemma EarlySweepExceeds(cfg: Config, key: string, rpsOf: string -> int)
    requires rpsOf(key) >= 1 && cfg.burstMultiplier >= 1 && 0.0 <= cfg.bucketTTL < cfg.burstMultiplier as real
    ensures !WindowsBounded(cfg, rpsOf)
  {
    var t, rps := TooEarly(cfg), rpsOf(key);
    var n := BurstIsWhole(cfg, rps);
    var run := BurstTwice(key, rps, n, t, [Event(SweepOp, t)]);
    BothBurstsPass(cfg, key, rps, n, t);
    BurstTwiceShape(key, rps, n, t, rpsOf);
    ShortOfTwoBursts(cfg, rps, n, t);
    Exceeds(cfg, run, key, rpsOf, 0.0, t, n + n);
  }

  lemma Exceeds(cfg: Config, run: seq<Event>, key: string, rpsOf: string -> int, t1: real, t2: real, count: nat)
    requires Chronological(run) && FixedRates(run, rpsOf) && t1 <= t2 && PassedWithin(cfg, run, key, t1, t2) == count
    requires Allowance(cfg, rpsOf(key), t2 - t1) < count as real
    ensures !WindowsBounded(cfg, rpsOf)
  {}

  // The bound holds in every window of every run, sweeps anywhere, under the same condition.
  lemma WindowsBoundedIff(cfg: Config, rpsOf: string -> int)
    requires cfg.burstMultiplier >= 1 && cfg.bucketTTL >= 0.0 && forall k :: rpsOf(k) >= 0
    ensures WindowsBounded(cfg, rpsOf) <==> cfg.bucketTTL >= cfg.burstMultiplier as real || forall k :: rpsOf(k) == 0
  {
    if cfg.bucketTTL >= cfg.burstMultiplier as real || forall k :: rpsOf(k) == 0 {
      if cfg.bucketTTL >= cfg.burstMultiplier as real { LongLifeIsSafe(cfg, rpsOf); }
      forall run, key, t1: real, t2: real | Chronological(run) && FixedRates(run, rpsOf) && t1 <= t2
        ensures PassedWithin(cfg, run, key, t1, t2) as real <= Allowance(cfg, rpsOf(key), t2 - t1)
      {
        WindowBound(cfg, run, rpsOf, key, t1, t2);
      }
    } else {
      var key :| rpsOf(key) != 0;
      EarlySweepExceeds(cfg, key, rpsOf);
    }
  }

  // ---------- Exactly when a call is refused ----------

  // What is left in the bucket is the burst plus what was refilled since some instant, less
  // what has passed since then: that instant is the last at which the bucket was full.
  ghost predicate Exact(count: nat, b: Bucket, t1: real) {
    t1 <= b.lastRefill && b.tokens == b.burst + b.rate * (b.lastRefill - t1) - count as real
  }

  lemma ExactLater(count: nat, b: Bucket, t1: real, now: real)
    requires Exact(count, b, t1) && b.lastRefill <= now && b.tokens + (now - b.lastRefill) * b.rate <= b.burst
    ensures Exact(count, Refill(b, now), t1)
  {
    Distribute(b.rate, b.lastRefill - t1, now - b.lastRefill);
    assert b.lastRefill - t1 + (now - b.lastRefill) == now - t1;
  }

  lemma ExactFull(b: Bucket, now: real)
    requires b.lastRefill == now && b.tokens == b.burst
    ensures Exact(0, b, now)
  {
    assert b.rate * (now - now) == 0.0;
  }

  lemma FullAgain(b: Bucket, now: real)
    requires b.lastRefill <= now && b.tokens <= b.burst && b.tokens + (now - b.lastRefill) * b.rate > b.burst
    ensures b.lastRefill < now && Exact(0, Refill(b, now), now)
  {
    assert b.lastRefill == now ==> (now - b.lastRefill) * b.rate == 0.0;
    ExactFull(Refill(b, now), now);
  }

  lemma ExactTaken(count: nat, b: Bucket, t1: real)
    requires Exact(count, b, t1)
    ensures Exact(count + if Take(b).1 then 1 else 0, Take(b).0, t1)
  {}

  // Nothing on the key has passed after its bucket was last used.
  lemma {:induction false} NothingSinceUse(cfg: Config, run: seq<Event>, key: string, t1: real, t2: real)
    requires Chronological(run) && WithoutSweeps(run) == run
    requires key in StateAfter(cfg, run) ==> StateAfter(cfg, run)[key].lastRefill < t1
    ensures PassedWithin(cfg, run, key, t1, t2) == 0
  {
    if run != [] {
      var front, last := run[..|run| - 1], run[|run| - 1];
      NoSweepsInFront(run);
      if key in StateAfter(cfg, front) { LastRefillBound(cfg, front, key); }
      if last.op.key != key { NothingSinceUse(cfg, front, key, t1, t2); } else { NothingBefore(cfg, front, key, t1, t2); }
    }
  }

  lemma {:induction false} LastRefillBound(cfg: Config, run: seq<Event>, key: string)
    requires Chronological(run) && key in StateAfter(cfg, run)
    ensures run != [] && StateAfter(cfg, run)[key].lastRefill <= run[|run| - 1].now
  {
    var front, last := run[..|run| - 1], run[|run| - 1];
    if key in StateAfter(cfg, front) { LastRefillBound(cfg, front, key); }
  }

  // The bucket that a call on the key finds, once it is refilled.
  lemma FundIsExact(cfg: Config, run: seq<Event>, rpsOf: string -> int, key: string, now: real, t2: real) returns (t1: real)
    requires Chronological(run) && FixedRates(run, rpsOf) && WithoutSweeps(run) == run && now <= t2
    requires run != [] ==> run[|run| - 1].now <= now
    ensures var b := Fund(cfg, run, key, rpsOf(key), now);
      && Exact(PassedWithin(cfg, run, key, t1, t2), b, t1)
      && b.lastRefill == now && b.rate == rpsOf(key) as real && b.burst == Burst(cfg, rpsOf(key))
    decreases |run|, 1
  {
    var s := StateAfter(cfg, run);
    if key !in s {
      t1 := now;
      NothingSinceUse(cfg, run, key, now, t2);
      RefillTwice(NewBucket(cfg, rpsOf(key), now), now);
      ExactFull(NewBucket(cfg, rpsOf(key), now), now);
    } else {
      var b := s[key];
      t1 := BucketIsExact(cfg, run, rpsOf, key, t2);
      ReachableBuckets(cfg, run, rpsOf, key);
      if b.tokens + (now - b.lastRefill) * b.rate > b.burst {
        t1 := now;
        FullAgain(b, now);
        NothingSinceUse(cfg, run, key, now, t2);
      } else {
        ExactLater(PassedWithin(cfg, run, key, t1, t2), b, t1, now);
      }
    }
  }

  lemma {:induction false} BucketIsExact(cfg: Config, run: seq<Event>, rpsOf: string -> int, key: string, t2: real) returns (t1: real)
    requires Chronological(run) && FixedRates(run, rpsOf) && WithoutSweeps(run) == run
    requires key in StateAfter(cfg, run) && run[|run| - 1].now <= t2
    ensures Exact(PassedWithin(cfg, run, key, t1, t2), StateAfter(cfg, run)[key], t1)
    decreases |run|, 0
  {
    var front, last := run[..|run| - 1], run[|run| - 1];
    NoSweepsInFront(run);
    if last.op.key == key {
      t1 := FundIsExact(cfg, front, rpsOf, key, last.now, t2);
      ExactTaken(PassedWithin(cfg, front, key, t1, t2), Fund(cfg, front, key, rpsOf(key), last.now), t1);
    } else {
      t1 := BucketIsExact(cfg, front, rpsOf, key, t2);
    }
  }

  // So many passed calls and one more are not more than a burst, which takes burstMultiplier
  // seconds to earn, and what the rate gives in a stretch of time.
  ghost predicate Room(count: nat, cfg: Config, rps: int, dt: real) {
    count as real + 1.0 <= rps as real * (cfg.burstMultiplier as real + dt)
  }

  ghost predicate RoomSince(cfg: Config, run: seq<Event>, key: string, rps: int, now: real, t1: real) {
    Room(PassedWithin(cfg, run, key, t1, now), cfg, rps, now - t1)
  }

  // One more call fits in every window that ends with it.
  ghost predicate HasRoom(cfg: Config, run: seq<Event>, key: string, rps: int, now: real) {
    forall t1: real :: t1 <= now ==> RoomSince(cfg, run, key, rps, now, t1)
  }

  lemma PassedWithinSnoc(cfg: Config, run: seq<Event>, key: string, rps: int, now: real, t1: real)
    requires t1 <= now
    ensures var ev := Event(AllowOp(key, rps), now);
      PassedWithin(cfg, run + [ev], key, t1, now) ==
        PassedWithin(cfg, run, key, t1, now) + if Passed(cfg, run + [ev]) then 1 else 0
  {
    var next := run + [Event(AllowOp(key, rps), now)];
    assert next[..|next| - 1] == run;
  }

  lemma RoomIs(count: nat, cfg: Config, rps: int, dt: real)
    requires rps >= 0 && cfg.burstMultiplier >= 0 && dt >= 0.0 && (count + 1) as real <= Allowance(cfg, rps, dt)
    ensures Room(count, cfg, rps, dt)
  {
    Product(rps as real, cfg.burstMultiplier as real);
    Distribute(rps as real, cfg.burstMultiplier as real, dt);
  }

  lemma NoRoomIs(count: nat, b: Bucket, t1: real, cfg: Config, rps: int)
    requires Exact(count, b, t1) && b.tokens < 1.0 && b.rate == rps as real && b.burst == Burst(cfg, rps)
    ensures !Room(count, cfg, rps, b.lastRefill - t1)
  {
    var rate, m, dt := rps as real, cfg.burstMultiplier as real, b.lastRefill - t1;
    Distribute(rate, m, dt);
    assert b.burst == rate * m && b.tokens == b.burst + rate * dt - count as real;
    assert rate * (m + dt) == count as real + b.tokens;
  }

  lemma PassedHasRoom(cfg: Config, run: seq<Event>, rpsOf: string -> int, key: string, now: real, t1: real)
    requires var next := run + [Event(AllowOp(key, rpsOf(key)), now)];
      Chronological(next) && FixedRates(next, rpsOf) && WithoutSweeps(next) == next && Passed(cfg, next)
    requires rpsOf(key) >= 0 && cfg.burstMultiplier >= 0 && t1 <= now
    ensures RoomSince(cfg, run, key, rpsOf(key), now, t1)
  {
    var next := run + [Event(AllowOp(key, rpsOf(key)), now)];
    WindowBoundWithoutSweeps(cfg, next, rpsOf, key, t1, now);
    PassedWithinSnoc(cfg, run, key, rpsOf(key), now, t1);
    RoomIs(PassedWithin(cfg, run, key, t1, now), cfg, rpsOf(key), now - t1);
  }

  lemma RefusedHasNoRoom(cfg: Config, run: seq<Event>, rpsOf: string -> int, key: string, now: real) returns (t1: real)
    requires Chronological(run) && FixedRates(run, rpsOf) && WithoutSweeps(run) == run
    requires run != [] ==> run[|run| - 1].now <= now
    requires rpsOf(key) >= 0 && cfg.burstMultiplier >= 0
    requires !Take(Fund(cfg, run, key, rpsOf(key), now)).1
    ensures t1 <= now && !RoomSince(cfg, run, key, rpsOf(key), now, t1)
  {
    t1 := FundIsExact(cfg, run, rpsOf, key, now, now);
    NoRoomIs(PassedWithin(cfg, run, key, t1, now), Fund(cfg, run, key, rpsOf(key), now), t1, cfg, rpsOf(key));
  }

  lemma PassesIffRoomWithoutSweeps(cfg: Config, run: seq<Event>, rpsOf: string -> int, key: string, now: real)
    requires var next := run + [Event(AllowOp(key, rpsOf(key)), now)];
      Chronological(next) && FixedRates(next, rpsOf) && WithoutSweeps(next) == next
    requires rpsOf(key) >= 0 && cfg.burstMultiplier >= 0
    ensures Passed(cfg, run + [Event(AllowOp(key, rpsOf(key)), now)]) <==> HasRoom(cfg, run, key, rpsOf(key), now)
  {
    var ev := Event(AllowOp(key, rpsOf(key)), now);
    var next := run + [ev];
    assert next[..|next| - 1] == run && next[|run|] == ev;
    if Passed(cfg, next) {
      forall t1: real | t1 <= now ensures RoomSince(cfg, run, key, rpsOf(key), now, t1) {
        PassedHasRoom(cfg, run, rpsOf, key, now, t1);
      }
    } else {
      FrontOf(run, ev, rpsOf);
      var t1 := RefusedHasNoRoom(cfg, run, rpsOf, key, now);
    }
  }

  lemma FrontOf(run: seq<Event>, ev: Event, rpsOf: string -> int)
    requires Chronological(run + [ev]) && FixedRates(run + [ev], rpsOf)
    ensures Chronological(run) && FixedRates(run, rpsOf) && (run != [] ==> run[|run| - 1].now <= ev.now)
    ensures WithoutSweeps(run + [ev]) == run + [ev] ==> WithoutSweeps(run) == run
  {
    var next := run + [ev];
    assert next[..|next| - 1] == run && next[|run|] == ev;
    assert forall i :: 0 <= i < |run| ==> next[i] == run[i];
    if WithoutSweeps(next) == next { NoSweepsInFront(next); }
  }

  // With its sweeps or without them, the run lets the next call pass alike.
  lemma PassesAlike(cfg: Config, run: seq<Event>, rpsOf: string -> int, ev: Event)
    requires Chronological(run + [ev]) && FixedRates(run + [ev], rpsOf) && SafeToSweep(cfg, rpsOf) && ev.op.AllowOp?
    ensures var kept := WithoutSweeps(run);
      && Chronological(kept + [ev]) && FixedRates(kept + [ev], rpsOf) && WithoutSweeps(kept + [ev]) == kept + [ev]
      && Passed(cfg, run + [ev]) == Passed(cfg, kept + [ev])
  {
    var next := run + [ev];
    WithoutSweepsConcat(run, [ev]);
    assert [ev][..0] == [] && WithoutSweeps([ev]) == [ev];
    RunSimulates(cfg, next, rpsOf);
    WithoutSweepsKeeps(next, rpsOf);
    WithoutSweepsTwice(next);
  }

  lemma SameRoom(cfg: Config, run: seq<Event>, rpsOf: string -> int, key: string, now: real)
    requires Chronological(run) && FixedRates(run, rpsOf) && SafeToSweep(cfg, rpsOf)
    ensures HasRoom(cfg, run, key, rpsOf(key), now) <==> HasRoom(cfg, WithoutSweeps(run), key, rpsOf(key), now)
  {
    var kept := WithoutSweeps(run);
    forall t1: real ensures RoomSince(cfg, run, key, rpsOf(key), now, t1) == RoomSince(cfg, kept, key, rpsOf(key), now, t1) {
      CountKept(cfg, run, rpsOf, key, t1, now);
    }
  }

  // A call passes if and only if there is room for it in every window: nobody is ever
  // refused without need. Without sweeps that needs nothing, with sweeps anywhere what
  // keeps them invisible.
  lemma PassesIffRoom(cfg: Config, run: seq<Event>, rpsOf: string -> int, key: string, now: real)
    requires var next := run + [Event(AllowOp(key, rpsOf(key)), now)];
      && Chronological(next) && FixedRates(next, rpsOf)
      && (WithoutSweeps(next) == next || SafeToSweep(cfg, rpsOf))
    requires rpsOf(key) >= 0 && cfg.burstMultiplier >= 0
    ensures Passed(cfg, run + [Event(AllowOp(key, rpsOf(key)), now)]) <==> HasRoom(cfg, run, key, rpsOf(key), now)
  {
    var ev := Event(AllowOp(key, rpsOf(key)), now);
    if WithoutSweeps(run + [ev]) == run + [ev] {
      PassesIffRoomWithoutSweeps(cfg, run, rpsOf, key, now);
    } else {
      FrontOf(run, ev, rpsOf);
      PassesAlike(cfg, run, rpsOf, ev);
      SameRoom(cfg, run, rpsOf, key, now);
      PassesIffRoomWithoutSweeps(cfg, WithoutSweeps(run), rpsOf, key, now);
    }
  }

  // The shipped settings: three seconds' worth of calls, and what has come in since.
  lemma ShippedRoom(count: nat, rps: int, dt: real)
    ensures Room(count, DEFAULT_CONFIG, rps, dt) <==> count as real + 1.0 <= rps as real * (3.0 + dt)
  {}

  lemma ShippedPassesIffRoom(run: seq<Event>, rpsOf: string -> int, key: string, now: real)
    requires var next := run + [Event(AllowOp(key, rpsOf(key)), now)]; Chronological(next) && FixedRates(next, rpsOf)
    requires forall k :: rpsOf(k) == 200 || rpsOf(k) == 30 || rpsOf(k) == 20
    ensures Passed(DEFAULT_CONFIG, run + [Event(AllowOp(key, rpsOf(key)), now)]) <==>
      HasRoom(DEFAULT_CONFIG, run, key, rpsOf(key), now)
  {
    LongLifeIsSafe(DEFAULT_CONFIG, rpsOf);
    PassesIffRoom(DEFAULT_CONFIG, run, rpsOf, key, now);
  }

  // ---------- Steady callers are never refused ----------

  ghost predicate Spaced(run: seq<Event>, key: string, gap: real) {
    forall i, j :: 0 <= i < j < |run| && run[i].op == run[j].op && run[i].op.AllowOp? && run[i].op.key == key ==>
      run[j].now - run[i].now >= gap
  }

  // The bucket of the key, if any, was last used by an earlier call on it.
  lemma {:induction false} LastUseIsACall(cfg: Config, run: seq<Event>, rpsOf: string -> int, key: string) returns (i: nat)
    requires Chronological(run) && FixedRates(run, rpsOf) && key in StateAfter(cfg, run)
    ensures i < |run| && run[i].op == AllowOp(key, rpsOf(key)) && StateAfter(cfg, run)[key].lastRefill == run[i].now
  {
    var front, last := run[..|run| - 1], run[|run| - 1];
    if last.op.AllowOp? && last.op.key == key {
      i := |run| - 1;
    } else {
      i := LastUseIsACall(cfg, front, rpsOf, key);
    }
  }

  // Calls on a key at least 1/rate apart always pass, sweeps or not.
  lemma SteadyCallsPass(cfg: Config, run: seq<Event>, rpsOf: string -> int, j: nat, gap: real)
    requires Chronological(run) && FixedRates(run, rpsOf) && cfg.burstMultiplier >= 1 && forall k :: rpsOf(k) >= 0
    requires j < |run| && run[j].op.AllowOp? && rpsOf(run[j].op.key) >= 1
    requires Spaced(run, run[j].op.key, gap) && gap * rpsOf(run[j].op.key) as real >= 1.0
    ensures Passed(cfg, run[..j + 1])
  {
    var key := run[j].op.key;
    var front, upTo := run[..j], run[..j + 1];
    assert upTo[..|upTo| - 1] == front && upTo[j] == run[j];
    SteadyState(cfg, front, rpsOf, key, run[j].now, gap);
  }

  lemma SteadyState(cfg: Config, run: seq<Event>, rpsOf: string -> int, key: string, now: real, gap: real)
    requires Chronological(run) && FixedRates(run, rpsOf) && cfg.burstMultiplier >= 1 && (forall k :: rpsOf(k) >= 0)
    requires rpsOf(key) >= 1 && (run != [] ==> run[|run| - 1].now <= now)
    requires gap * rpsOf(key) as real >= 1.0
    requires forall i :: 0 <= i < |run| && run[i].op == AllowOp(key, rpsOf(key)) ==> now - run[i].now >= gap
    ensures Allow(StateAfter(cfg, run), cfg, key, rpsOf(key), now).1
  {
    var s := StateAfter(cfg, run);
    if key in s {
      var i := LastUseIsACall(cfg, run, rpsOf, key);
      NonNegativeAlways(cfg, run, rpsOf);
      SteadyBucketPasses(s, cfg, rpsOf, key, run[|run| - 1].now, now, gap);
    } else {
      FreshBucketPasses(cfg, rpsOf(key), now);
    }
  }

  lemma BurstAtLeastOne(cfg: Config, rps: int)
    requires rps >= 1 && cfg.burstMultiplier >= 1
    ensures Burst(cfg, rps) >= 1.0
  {
    var n := BurstIsWhole(cfg, rps);
  }

  lemma SteadyBucketPasses(s: map<string, Bucket>, cfg: Config, rpsOf: string -> int, key: string, before: real, now: real, gap: real)
    requires key in s && NonNegative(s, cfg, rpsOf, before) && before <= now
    requires rpsOf(key) >= 1 && cfg.burstMultiplier >= 1
    requires now - s[key].lastRefill >= gap && gap * rpsOf(key) as real >= 1.0
    ensures Take(Refill(s[key], now)).1
  {
    var b, extra := s[key], now - s[key].lastRefill - gap;
    BurstAtLeastOne(cfg, rpsOf(key));
    Product(extra, b.rate);
    Distribute(b.rate, gap, extra);
    assert (now - b.lastRefill) * b.rate == b.rate * (gap + extra);
  }

  lemma FreshBucketPasses(cfg: Config, rps: int, now: real)
    requires rps >= 1 && cfg.burstMultiplier >= 1
    ensures Take(Refill(NewBucket(cfg, rps, now), now)).1
  {
    BurstAtLeastOne(cfg, rps);
    RefillTwice(NewBucket(cfg, rps, now), now);
  }

  lemma {:induction false} NonNegativeAlways(cfg: Config, run: seq<Event>, rpsOf: string -> int)
    requires Chronological(run) && FixedRates(run, rpsOf) && cfg.burstMultiplier >= 0 && forall k :: rpsOf(k) >= 0
    ensures run != [] ==> NonNegative(StateAfter(cfg, run), cfg, rpsOf, run[|run| - 1].now)
  {
    if run != [] {
      var front, last := run[..|run| - 1], run[|run| - 1];
      NonNegativeAlways(cfg, front, rpsOf);
      NonNegativeStep(StateAfter(cfg, front), cfg, rpsOf, last, if front == [] then last.now else front[|front| - 1].now);
    }
  }
}
