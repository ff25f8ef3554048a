// The captcha cache as a sequence of entries, most recently used first, and what
// its runs promise.

module CaptchaSpec {
  import opened Collections

  type Instant = int   // nanoseconds

  const MAX_CAPTCHA_ITEMS := 3000
  const MAX_CLEANUP := 100
  const TTL: Instant := 10 * 60 * 1_000_000_000

  datatype Entry = Entry(key: string, value: string, expiration: Instant)

  predicate Expired(e: Entry, now: Instant) {
    now > e.expiration
  }

  ghost predicate Distinct(s: seq<Entry>) {
    forall i, j :: 0 <= i < j < |s| ==> s[i].key != s[j].key
  }

  ghost predicate Has(s: seq<Entry>, id: string) {
    exists i :: 0 <= i < |s| && s[i].key == id
  }

  ghost function Find(s: seq<Entry>, id: string): (i: nat)
    requires Has(s, id)
    ensures i < |s| && s[i].key == id
  {
    var i :| 0 <= i < |s| && s[i].key == id; i
  }

  // The list without its entry for the id, the others in their order.
  ghost function Without(s: seq<Entry>, id: string): seq<Entry>
    requires Has(s, id)
  {
    var i := Find(s, id);
    s[..i] + s[i + 1..]
  }

  ghost function EvictOldest(s: seq<Entry>): seq<Entry> {
    if s == [] then [] else s[..|s| - 1]
  }

  ghost function Set(s: seq<Entry>, capacity: nat, id: string, value: string, now: Instant): seq<Entry> {
    [Entry(id, value, now + TTL)] +
    if Has(s, id) then Without(s, id)
    else if |s| >= capacity then EvictOldest(s)
    else s
  }

  ghost function Get(s: seq<Entry>, id: string, clear: bool, now: Instant): (seq<Entry>, string) {
    if !Has(s, id) then (s, "")
    else
      var e := s[Find(s, id)];
      if Expired(e, now) then (Without(s, id), "")
      else (if clear then Without(s, id) else [e] + Without(s, id), e.value)
  }

  function Matches(value: string, answer: string): bool {
    value != "" && value == answer
  }

  // Drops expired entries from the back, at most budget of them, and stops at the first one still valid.
  ghost function Cleanup(s: seq<Entry>, now: Instant, budget: nat): seq<Entry>
    decreases budget
  {
    if s != [] && budget > 0 && Expired(s[|s| - 1], now) then Cleanup(s[..|s| - 1], now, budget - 1) else s
  }

  // ---------- Runs ----------

  datatype Op =
    | SetOp(id: string, value: string)
    | GetOp(id: string, clear: bool)
    | VerifyOp(id: string, answer: string, clear: bool)
    | CleanupOp

  datatype Event = Event(op: Op, now: Instant)
  datatype Answer = Done | Code(code: string) | Verdict(ok: bool)

  ghost function Step(s: seq<Entry>, capacity: nat, ev: Event): (seq<Entry>, Answer) {
    match ev.op
    case SetOp(id, value) => (Set(s, capacity, id, value, ev.now), Done)
    case GetOp(id, clear) => var (s', code) := Get(s, id, clear, ev.now); (s', Code(code))
    case VerifyOp(id, answer, clear) => var (s', code) := Get(s, id, clear, ev.now); (s', Verdict(Matches(code, answer)))
    case CleanupOp => (Cleanup(s, ev.now, MAX_CLEANUP), Done)
  }

  ghost function StateAfter(capacity: nat, run: seq<Event>): seq<Entry> {
    if run == [] then []
    else Step(StateAfter(capacity, run[..|run| - 1]), capacity, run[|run| - 1]).0
  }

  // The answer the last event of a run gets.
  ghost function LastAnswer(capacity: nat, run: seq<Event>): Answer
    requires run != []
  {
    Step(StateAfter(capacity, run[..|run| - 1]), capacity, run[|run| - 1]).1
  }

  // The answers the callers see: those of every event that is not a cleanup.
  ghost function Answers(capacity: nat, run: seq<Event>): seq<Answer> {
    if run == [] then []
    else Answers(capacity, run[..|run| - 1]) + if run[|run| - 1].op.CleanupOp? then [] else [LastAnswer(capacity, run)]
  }

  ghost function WithoutCleanups(run: seq<Event>): seq<Event> {
    if run == [] then []
    else WithoutCleanups(run[..|run| - 1]) + if run[|run| - 1].op.CleanupOp? then [] else [run[|run| - 1]]
  }

  ghost predicate Chronological(run: seq<Event>) {
    forall i, j :: 0 <= i < j < |run| ==> run[i].now <= run[j].now
  }

  // ---------- Taking one entry out of a list ----------

  lemma FindUnique(s: seq<Entry>, i: nat)
    requires Distinct(s) && i < |s|
    ensures Has(s, s[i].key) && Find(s, s[i].key) == i
    ensures Without(s, s[i].key) == s[..i] + s[i + 1..]
  {}

  lemma WithoutDistinct(s: seq<Entry>, id: string)
    requires Distinct(s) && Has(s, id)
    ensures Distinct(Without(s, id)) && !Has(Without(s, id), id) && |Without(s, id)| == |s| - 1
    ensures forall e :: e in Without(s, id) <==> e in s && e.key != id
  {
    var i, r := Find(s, id), Without(s, id);
    assert forall j :: 0 <= j < |r| ==> r[j] == if j < i then s[j] else s[j + 1];
    forall e | e in s && e.key != id ensures e in r {
      var j :| 0 <= j < |s| && s[j] == e;
      assert r[if j < i then j else j - 1] == e;
    }
  }

  lemma ConsDistinct(e: Entry, s: seq<Entry>)
    requires Distinct(s) && !Has(s, e.key)
    ensures Distinct([e] + s)
  {
    assert forall j :: 0 <= j < |s| ==> s[j].key != e.key;
  }

  // ---------- The representation stays a bounded list without repeated ids ----------

  ghost predicate Bounded(s: seq<Entry>, capacity: nat) {
    Distinct(s) && |s| <= capacity
  }

  lemma {:induction false} CleanupPrefix(s: seq<Entry>, now: Instant, budget: nat)
    ensures var r := Cleanup(s, now, budget);
      && r <= s && |s| - |r| <= budget
      && forall i :: |r| <= i < |s| ==> Expired(s[i], now)
    ensures var r := Cleanup(s, now, budget);
      |r| == |s| - budget || r == [] || !Expired(r[|r| - 1], now)
    decreases budget
  {
    if s != [] && budget > 0 && Expired(s[|s| - 1], now) {
      CleanupPrefix(s[..|s| - 1], now, budget - 1);
    }
  }

  lemma SetBounded(s: seq<Entry>, capacity: nat, id: string, value: string, now: Instant)
    requires capacity > 0 && Bounded(s, capacity)
    ensures Bounded(Set(s, capacity, id, value, now), capacity)
  {
    var e := Entry(id, value, now + TTL);
    if Has(s, id) {
      WithoutDistinct(s, id);
      ConsDistinct(e, Without(s, id));
    } else {
      ConsDistinct(e, if |s| >= capacity then EvictOldest(s) else s);
    }
  }

  lemma GetBounded(s: seq<Entry>, capacity: nat, id: string, clear: bool, now: Instant)
    requires Bounded(s, capacity)
    ensures Bounded(Get(s, id, clear, now).0, capacity)
  {
    if Has(s, id) {
      WithoutDistinct(s, id);
      ConsDistinct(s[Find(s, id)], Without(s, id));
    }
  }

  lemma StepBounded(s: seq<Entry>, capacity: nat, ev: Event)
    requires capacity > 0 && Bounded(s, capacity)
    ensures Bounded(Step(s, capacity, ev).0, capacity)
  {
    match ev.op
    case SetOp(id, value) => SetBounded(s, capacity, id, value, ev.now);
    case GetOp(id, clear) => GetBounded(s, capacity, id, clear, ev.now);
    case VerifyOp(id, _, clear) => GetBounded(s, capacity, id, clear, ev.now);
    case CleanupOp => CleanupPrefix(s, ev.now, MAX_CLEANUP);
  }

  lemma {:induction false} StateBounded(capacity: nat, run: seq<Event>)
    requires capacity > 0
    ensures Bounded(StateAfter(capacity, run), capacity)
  {
    if run != [] {
      StateBounded(capacity, run[..|run| - 1]);
      StepBounded(StateAfter(capacity, run[..|run| - 1]), capacity, run[|run| - 1]);
    }
  }

  // ---------- Cleanup cannot be observed ----------

  // The uncleaned list is the cleaned one followed by entries that are all expired.
  ghost predicate Simulates(full: seq<Entry>, cleaned: seq<Entry>, now: Instant) {
    cleaned <= full && forall i :: |cleaned| <= i < |full| ==> Expired(full[i], now)
  }

  // The three places an id can be: in both lists, in the expired tail only, in neither.
  lemma SimulationLookup(full: seq<Entry>, cleaned: seq<Entry>, id: string, now: Instant)
    requires Distinct(full) && Simulates(full, cleaned, now)
    ensures Has(cleaned, id) ==>
      && Has(full, id) && full[Find(full, id)] == cleaned[Find(cleaned, id)]
      && Without(full, id) == Without(cleaned, id) + full[|cleaned|..]
    ensures !Has(cleaned, id) && Has(full, id) ==>
      && Expired(full[Find(full, id)], now) && |cleaned| < |full|
      && Simulates(Without(full, id), cleaned, now)
  {
    if Has(cleaned, id) {
      FindUnique(full, Find(cleaned, id));
    } else if Has(full, id) {
      var i, r := Find(full, id), Without(full, id);
      assert forall j :: 0 <= j < |cleaned| ==> full[j] == cleaned[j];
      assert r[..|cleaned|] == cleaned;
      assert forall j :: |cleaned| <= j < |r| ==> r[j] == full[if j < i then j else j + 1];
    }
  }

  lemma SimulatesCons(e: Entry, full: seq<Entry>, cleaned: seq<Entry>, now: Instant)
    requires Simulates(full, cleaned, now)
    ensures Simulates([e] + full, [e] + cleaned, now)
  {
    var a, b := [e] + full, [e] + cleaned;
    assert a[..|b|] == [e] + full[..|cleaned|];
    assert forall i :: |b| <= i < |a| ==> a[i] == full[i - 1];
  }

  lemma SimulatesTail(cleaned: seq<Entry>, tail: seq<Entry>, now: Instant)
    requires forall i :: 0 <= i < |tail| ==> Expired(tail[i], now)
    ensures Simulates(cleaned + tail, cleaned, now)
  {}

  lemma SimulationSet(full: seq<Entry>, cleaned: seq<Entry>, capacity: nat, id: string, value: string, now: Instant)
    requires Bounded(full, capacity) && Simulates(full, cleaned, now)
    ensures Simulates(Set(full, capacity, id, value, now), Set(cleaned, capacity, id, value, now), now)
  {
    var e := Entry(id, value, now + TTL);
    SimulationLookup(full, cleaned, id, now);
    if Has(cleaned, id) {
      SimulatesTail(Without(cleaned, id), full[|cleaned|..], now);
      SimulatesCons(e, Without(full, id), Without(cleaned, id), now);
    } else if Has(full, id) {
      SimulatesCons(e, Without(full, id), cleaned, now);
    } else if |full| < capacity {
      SimulatesCons(e, full, cleaned, now);
    } else if |cleaned| < |full| {
      SimulatesCons(e, EvictOldest(full), cleaned, now);
    } else {
      assert full == cleaned;
    }
  }

  lemma SimulationGet(full: seq<Entry>, cleaned: seq<Entry>, id: string, clear: bool, now: Instant)
    requires Distinct(full) && Simulates(full, cleaned, now)
    ensures Simulates(Get(full, id, clear, now).0, Get(cleaned, id, clear, now).0, now)
    ensures Get(full, id, clear, now).1 == Get(cleaned, id, clear, now).1
  {
    SimulationLookup(full, cleaned, id, now);
    if Has(cleaned, id) {
      SimulatesTail(Without(cleaned, id), full[|cleaned|..], now);
      SimulatesCons(full[Find(full, id)], Without(full, id), Without(cleaned, id), now);
    }
  }

  lemma SimulationStep(full: seq<Entry>, cleaned: seq<Entry>, capacity: nat, ev: Event, before: Instant)
    requires Bounded(full, capacity) && Simulates(full, cleaned, before) && before <= ev.now
    requires !ev.op.CleanupOp?
    ensures Simulates(Step(full, capacity, ev).0, Step(cleaned, capacity, ev).0, ev.now)
    ensures Step(full, capacity, ev).1 == Step(cleaned, capacity, ev).1
  {
    assert Simulates(full, cleaned, ev.now);
    match ev.op
    case SetOp(id, value) => SimulationSet(full, cleaned, capacity, id, value, ev.now);
    case GetOp(id, clear) => SimulationGet(full, cleaned, id, clear, ev.now);
    case VerifyOp(id, _, clear) => SimulationGet(full, cleaned, id, clear, ev.now);
  }

  lemma SimulationCleanup(full: seq<Entry>, cleaned: seq<Entry>, before: Instant, now: Instant)
    requires Simulates(full, cleaned, before) && before <= now
    ensures Simulates(full, Cleanup(cleaned, now, MAX_CLEANUP), now)
  {
    CleanupPrefix(cleaned, now, MAX_CLEANUP);
  }

  lemma {:induction false} RunSimulates(capacity: nat, run: seq<Event>)
    requires capacity > 0 && Chronological(run)
    ensures run != [] ==>
      Simulates(StateAfter(capacity, WithoutCleanups(run)), StateAfter(capacity, run), run[|run| - 1].now)
    ensures Answers(capacity, run) == Answers(capacity, WithoutCleanups(run))
  {
    if run != [] {
      var front, last := run[..|run| - 1], run[|run| - 1];
      RunSimulates(capacity, front);
      var full, cleaned := StateAfter(capacity, WithoutCleanups(front)), StateAfter(capacity, front);
      var before := if front == [] then last.now else front[|front| - 1].now;
      StateBounded(capacity, WithoutCleanups(front));
      if last.op.CleanupOp? {
        SimulationCleanup(full, cleaned, before, last.now);
        assert WithoutCleanups(run) == WithoutCleanups(front);
      } else {
        SimulationStep(full, cleaned, capacity, last, before);
        assert WithoutCleanups(run)[..|WithoutCleanups(front)|] == WithoutCleanups(front);
      }
    }
  }

  // However cleanups are interleaved, callers get the answers they would get without any.
  lemma CleanupUnobservable(capacity: nat, run: seq<Event>, other: seq<Event>)
    requires capacity > 0 && Chronological(run) && Chronological(other)
    requires WithoutCleanups(run) == WithoutCleanups(other)
    ensures Answers(capacity, run) == Answers(capacity, other)
  {
    RunSimulates(capacity, run);
    RunSimulates(capacity, other);
  }

  // ---------- The list is ordered by last use ----------

  // An event uses an id if it sets it or reads a valid entry of it.
  ghost predicate Uses(s: seq<Entry>, ev: Event, id: string) {
    match ev.op
    case SetOp(i, _) => i == id
    case CleanupOp => false
    case _ => ev.op.id == id && Has(s, id) && !Expired(s[Find(s, id)], ev.now)
  }

  // Position in the run of the last event that used the id, -1 if none did.
  ghost function LastUse(capacity: nat, run: seq<Event>, id: string): int {
    if run == [] then -1
    else if Uses(StateAfter(capacity, run[..|run| - 1]), run[|run| - 1], id) then |run| - 1
    else LastUse(capacity, run[..|run| - 1], id)
  }

  ghost function Stamps(capacity: nat, run: seq<Event>, s: seq<Entry>): seq<int> {
    seq(|s|, i requires 0 <= i < |s| => LastUse(capacity, run, s[i].key))
  }

  ghost predicate Decreasing(a: seq<int>) {
    forall i, j :: 0 <= i < j < |a| ==> a[i] > a[j]
  }

  lemma {:induction false} LastUseBound(capacity: nat, run: seq<Event>, id: string)
    ensures LastUse(capacity, run, id) < |run|
  {
    if run != [] { LastUseBound(capacity, run[..|run| - 1], id); }
  }

  lemma DecreasingWithout(a: seq<int>, i: nat)
    requires Decreasing(a) && i < |a|
    ensures Decreasing(a[..i] + a[i + 1..])
  {
    var b := a[..i] + a[i + 1..];
    assert forall j :: 0 <= j < |b| ==> b[j] == a[if j < i then j else j + 1];
  }

  lemma DecreasingCons(x: int, a: seq<int>)
    requires Decreasing(a) && forall i :: 0 <= i < |a| ==> a[i] < x
    ensures Decreasing([x] + a)
  {}

  // Ids the last event did not name keep their stamp.
  lemma StampsKept(capacity: nat, run: seq<Event>, s: seq<Entry>)
    requires run != [] && (run[|run| - 1].op.CleanupOp? || !Has(s, run[|run| - 1].op.id))
    ensures Stamps(capacity, run, s) == Stamps(capacity, run[..|run| - 1], s)
    ensures forall i :: 0 <= i < |s| ==> Stamps(capacity, run, s)[i] < |run| - 1
  {
    forall i | 0 <= i < |s|
      ensures LastUse(capacity, run, s[i].key) == LastUse(capacity, run[..|run| - 1], s[i].key) < |run| - 1
    {
      LastUseBound(capacity, run[..|run| - 1], s[i].key);
    }
  }

  // The used id goes in front of a list that does not hold it.
  lemma StampInFront(capacity: nat, run: seq<Event>, e: Entry, rest: seq<Entry>)
    requires run != [] && !run[|run| - 1].op.CleanupOp? && run[|run| - 1].op.id == e.key
    requires Uses(StateAfter(capacity, run[..|run| - 1]), run[|run| - 1], e.key)
    requires !Has(rest, e.key) && Decreasing(Stamps(capacity, run[..|run| - 1], rest))
    ensures Decreasing(Stamps(capacity, run, [e] + rest))
  {
    StampsKept(capacity, run, rest);
    assert Stamps(capacity, run, [e] + rest) == [|run| - 1] + Stamps(capacity, run, rest);
    DecreasingCons(|run| - 1, Stamps(capacity, run, rest));
  }

  // In every reachable state, whatever the clock does, the list runs from the most
  // to the least recently used id.
  lemma {:induction false} AlwaysOrderedByUse(capacity: nat, run: seq<Event>)
    requires capacity > 0
    ensures Decreasing(Stamps(capacity, run, StateAfter(capacity, run)))
  {
    if run != [] {
      var front, last := run[..|run| - 1], run[|run| - 1];
      var s, t := StateAfter(capacity, front), StateAfter(capacity, run);
      AlwaysOrderedByUse(capacity, front);
      StateBounded(capacity, front);
      if last.op.CleanupOp? {
        CleanupPrefix(s, last.now, MAX_CLEANUP);
        StampsKept(capacity, run, s);
        assert Stamps(capacity, run, t) == Stamps(capacity, front, s)[..|t|];
      } else if Has(s, last.op.id) {
        UseKeepsOrder(capacity, run);
      } else {
        StampsKept(capacity, run, s);
        if last.op.SetOp? {
          var rest := t[1..];
          assert t == [t[0]] + rest && rest <= s;
          assert Stamps(capacity, front, rest) == Stamps(capacity, front, s)[..|rest|];
          assert !Has(rest, last.op.id) by {
            forall i | 0 <= i < |rest| ensures rest[i].key != last.op.id { assert rest[i] == s[i]; }
          }
          StampInFront(capacity, run, t[0], rest);
        }
      }
    }
  }

  lemma StampsWithout(capacity: nat, run: seq<Event>, s: seq<Entry>, id: string)
    requires Has(s, id) && Decreasing(Stamps(capacity, run, s))
    ensures Decreasing(Stamps(capacity, run, Without(s, id)))
  {
    var i, stamps := Find(s, id), Stamps(capacity, run, s);
    DecreasingWithout(stamps, i);
    assert Stamps(capacity, run, Without(s, id)) == stamps[..i] + stamps[i + 1..];
  }

  lemma UseKeepsOrder(capacity: nat, run: seq<Event>)
    requires run != [] && !run[|run| - 1].op.CleanupOp?
    requires var s := StateAfter(capacity, run[..|run| - 1]);
      Distinct(s) && Has(s, run[|run| - 1].op.id) && Decreasing(Stamps(capacity, run[..|run| - 1], s))
    ensures Decreasing(Stamps(capacity, run, StateAfter(capacity, run)))
  {
    var front, last := run[..|run| - 1], run[|run| - 1];
    var s, t := StateAfter(capacity, front), StateAfter(capacity, run);
    var id := last.op.id;
    var rest := Without(s, id);
    WithoutDistinct(s, id);
    StampsWithout(capacity, front, s, id);
    if t == rest {
      StampsKept(capacity, run, rest);
    } else {
      assert t == [t[0]] + rest;
      StampInFront(capacity, run, t[0], rest);
    }
  }

  // Every other id in the list was used after this one.
  ghost predicate LeastRecentlyUsed(capacity: nat, run: seq<Event>, id: string) {
    var s := StateAfter(capacity, run);
    Has(s, id) && forall k :: Has(s, k) && k != id ==> LastUse(capacity, run, id) < LastUse(capacity, run, k)
  }

  // t has the entries of s but that of the victim, and one more.
  ghost predicate InPlaceOf(s: seq<Entry>, t: seq<Entry>, e: Entry, victim: string) {
    forall x :: x in t <==> x == e || (x in s && x.key != victim)
  }

  lemma LastIsLeastRecentlyUsed(capacity: nat, run: seq<Event>)
    requires capacity > 0 && StateAfter(capacity, run) != []
    ensures var s := StateAfter(capacity, run); LeastRecentlyUsed(capacity, run, s[|s| - 1].key)
  {
    var s := StateAfter(capacity, run);
    var n := |s| - 1;
    AlwaysOrderedByUse(capacity, run);
    forall k | Has(s, k) && k != s[n].key ensures LastUse(capacity, run, s[n].key) < LastUse(capacity, run, k) {
      assert Stamps(capacity, run, s)[n] == LastUse(capacity, run, s[n].key);
      assert Stamps(capacity, run, s)[Find(s, k)] == LastUse(capacity, run, k);
    }
  }

  lemma LastIsDropped(s: seq<Entry>, capacity: nat, id: string, value: string, now: Instant)
    requires Distinct(s) && s != [] && |s| >= capacity && !Has(s, id)
    ensures InPlaceOf(s, Set(s, capacity, id, value, now), Entry(id, value, now + TTL), s[|s| - 1].key)
  {
    FindUnique(s, |s| - 1);
    WithoutDistinct(s, s[|s| - 1].key);
    assert Without(s, s[|s| - 1].key) == EvictOldest(s);
  }

  // A Set of a new id into a full cache drops the least recently used id and nothing else.
  lemma OverflowDropsLeastRecentlyUsed(capacity: nat, run: seq<Event>, id: string, value: string, now: Instant)
    requires capacity > 0 && |StateAfter(capacity, run)| >= capacity && !Has(StateAfter(capacity, run), id)
    ensures var s := StateAfter(capacity, run);
      exists victim :: LeastRecentlyUsed(capacity, run, victim) &&
        InPlaceOf(s, Set(s, capacity, id, value, now), Entry(id, value, now + TTL), victim)
  {
    StateBounded(capacity, run);
    LastIsLeastRecentlyUsed(capacity, run);
    LastIsDropped(StateAfter(capacity, run), capacity, id, value, now);
  }

  // ---------- What a successful verification says about the past ----------

  ghost predicate Names(op: Op, id: string) {
    !op.CleanupOp? && op.id == id
  }

  ghost predicate Clears(op: Op, id: string) {
    Names(op, id) && !op.SetOp? && op.clear
  }

  // Reference model without capacity or list: what the last Set of the id left,
  // unless a clearing read of the id came after it.
  ghost function Live(run: seq<Event>, id: string): seq<Entry> {
    if run == [] then []
    else
      var last := run[|run| - 1];
      if last.op.SetOp? && last.op.id == id then [Entry(id, last.op.value, last.now + TTL)]
      else if Clears(last.op, id) then []
      else Live(run[..|run| - 1], id)
  }

  lemma {:induction false} EntriesAreLive(capacity: nat, run: seq<Event>, e: Entry)
    requires capacity > 0 && e in StateAfter(capacity, run)
    ensures Live(run, e.key) == [e]
  {
    var front, last := run[..|run| - 1], run[|run| - 1];
    var s := StateAfter(capacity, front);
    StateBounded(capacity, front);
    if last.op.CleanupOp? {
      CleanupPrefix(s, last.now, MAX_CLEANUP);
      EntriesAreLive(capacity, front, e);
    } else {
      if Has(s, last.op.id) { WithoutDistinct(s, last.op.id); }
      if !(last.op.SetOp? && e.key == last.op.id) {
        assert e in s;
        EntriesAreLive(capacity, front, e);
        assert !Clears(last.op, e.key);
      }
    }
  }

  lemma {:induction false} LiveMeansSet(run: seq<Event>, id: string, e: Entry) returns (k: nat)
    requires Live(run, id) == [e]
    ensures k < |run| && run[k].op == SetOp(id, e.value) && e.expiration == run[k].now + TTL
    ensures forall m :: k < m < |run| ==> !(run[m].op.SetOp? && run[m].op.id == id) && !Clears(run[m].op, id)
  {
    var front, last := run[..|run| - 1], run[|run| - 1];
    if last.op.SetOp? && last.op.id == id {
      k := |run| - 1;
    } else {
      k := LiveMeansSet(front, id, e);
      forall m | k < m < |run| ensures !(run[m].op.SetOp? && run[m].op.id == id) && !Clears(run[m].op, id) {
        if m < |front| { assert run[m] == front[m]; }
      }
    }
  }

  // A verification that succeeds answers the last Set of that id: same value, within
  // ten minutes, and no clearing read of the id since.
  lemma VerifySound(capacity: nat, run: seq<Event>, j: nat) returns (k: nat)
    requires capacity > 0 && j < |run| && run[j].op.VerifyOp?
    requires LastAnswer(capacity, run[..j + 1]) == Verdict(true)
    ensures var id := run[j].op.id;
      && k < j
      && run[k].op == SetOp(id, run[j].op.answer) && run[j].op.answer != ""
      && run[j].now <= run[k].now + 600_000_000_000
      && forall m :: k < m < j ==> !(run[m].op.SetOp? && run[m].op.id == id) && !Clears(run[m].op, id)
  {
    var upTo, front := run[..j + 1], run[..j];
    assert upTo[..|upTo| - 1] == front;
    var s, id := StateAfter(capacity, front), run[j].op.id;
    var e := s[Find(s, id)];
    EntriesAreLive(capacity, front, e);
    k := LiveMeansSet(front, id, e);
    forall m | k < m < j ensures !(run[m].op.SetOp? && run[m].op.id == id) && !Clears(run[m].op, id) {
      assert run[m] == front[m];
    }
  }

  // A captcha is good for one clearing verification: between two successes on the
  // same id there is a Set of it.
  lemma OneSuccessPerSet(capacity: nat, run: seq<Event>, i: nat, j: nat)
    requires capacity > 0 && i < j < |run|
    requires run[i].op.VerifyOp? && run[j].op.VerifyOp? && run[i].op.id == run[j].op.id && run[i].op.clear
    requires LastAnswer(capacity, run[..i + 1]) == Verdict(true) && LastAnswer(capacity, run[..j + 1]) == Verdict(true)
    ensures exists k :: i < k < j && run[k].op.SetOp? && run[k].op.id == run[j].op.id
  {
    var k := VerifySound(capacity, run, j);
    assert Clears(run[i].op, run[j].op.id);
  }

  // ---------- And when it must succeed ----------

  // The event puts the id in front of the list: it sets it, or reads a valid entry of it
  // and leaves it there.
  ghost predicate MovesToFront(s: seq<Entry>, ev: Event, id: string) {
    Uses(s, ev, id) && !Clears(ev.op, id)
  }

  // The other ids put in front since the last use of this id.
  ghost function OthersSince(capacity: nat, run: seq<Event>, id: string): set<string> {
    if run == [] then {}
    else
      var front, last := run[..|run| - 1], run[|run| - 1];
      var s := StateAfter(capacity, front);
      if Uses(s, last, id) then {}
      else
        OthersSince(capacity, front, id)
        + if !last.op.CleanupOp? && last.op.id != id && MovesToFront(s, last, last.op.id) then {last.op.id} else {}
  }

  ghost function KeysOf(s: seq<Entry>): set<string> {
    set e | e in s :: e.key
  }

  lemma KeysOfSnoc(s: seq<Entry>, e: Entry)
    ensures KeysOf(s + [e]) == KeysOf(s) + {e.key}
  {
    forall x | x in s ensures x in s + [e] {}
    assert e in s + [e];
  }

  lemma {:induction false} DistinctCount(s: seq<Entry>)
    requires Distinct(s)
    ensures |KeysOf(s)| == |s|
  {
    if s != [] {
      var front, last := s[..|s| - 1], s[|s| - 1];
      DistinctCount(front);
      assert s == front + [last];
      KeysOfSnoc(front, last);
      assert last.key !in KeysOf(front) by {
        assert forall i :: 0 <= i < |front| ==> front[i].key != last.key;
      }
    }
  }

  // e sits in the list behind nothing but ids of the given set.
  ghost predicate BehindOnly(s: seq<Entry>, e: Entry, ahead: set<string>) {
    exists i :: 0 <= i < |s| && s[i] == e && KeysOf(s[..i]) <= ahead
  }

  lemma FirstIsBehindNone(s: seq<Entry>, ahead: set<string>)
    requires s != []
    ensures BehindOnly(s, s[0], ahead)
  {
    assert s[..0] == [];
  }

  lemma SurvivesCleanup(s: seq<Entry>, now: Instant, i: nat, ahead: set<string>)
    requires i < |s| && KeysOf(s[..i]) <= ahead && now <= s[i].expiration
    ensures BehindOnly(Cleanup(s, now, MAX_CLEANUP), s[i], ahead)
  {
    var t := Cleanup(s, now, MAX_CLEANUP);
    CleanupPrefix(s, now, MAX_CLEANUP);
    assert t[i] == s[i] && t[..i] == s[..i];
  }

  // An entry that is still valid stays in the cache until capacity other ids were used
  // since its own last use.
  lemma {:induction false} SurvivesUntilOverflow(capacity: nat, run: seq<Event>, e: Entry)
    requires capacity > 0 && Chronological(run) && Live(run, e.key) == [e]
    requires run[|run| - 1].now <= e.expiration
    requires |OthersSince(capacity, run, e.key)| < capacity
    ensures BehindOnly(StateAfter(capacity, run), e, OthersSince(capacity, run, e.key))
  {
    var front, last, id := run[..|run| - 1], run[|run| - 1], e.key;
    var s, t := StateAfter(capacity, front), StateAfter(capacity, run);
    var others := OthersSince(capacity, run, id);
    StateBounded(capacity, front);
    if Uses(s, last, id) {
      if !last.op.SetOp? { EntriesAreLive(capacity, front, s[Find(s, id)]); }
      FirstIsBehindNone(t, others);
    } else {
      var earlier := OthersSince(capacity, front, id);
      assert earlier <= others;
      SubsetCount(earlier, others);
      SurvivesUntilOverflow(capacity, front, e);
      var i :| 0 <= i < |s| && s[i] == e && KeysOf(s[..i]) <= earlier;
      FindUnique(s, i);
      if last.op.CleanupOp? {
        SurvivesCleanup(s, last.now, i, others);
      } else {
        SurvivesOtherId(s, capacity, last, i, others);
      }
    }
  }

  lemma KeysOfSubset(a: seq<Entry>, b: seq<Entry>)
    requires forall e :: e in a ==> e in b
    ensures KeysOf(a) <= KeysOf(b)
  {}

  lemma BehindOneMore(e: Entry, s: seq<Entry>, x: Entry, ahead: set<string>)
    requires BehindOnly(s, x, ahead) && e.key in ahead
    ensures BehindOnly([e] + s, x, ahead)
  {
    var i :| 0 <= i < |s| && s[i] == x && KeysOf(s[..i]) <= ahead;
    var t := [e] + s;
    assert t[i + 1] == x && t[..i + 1] == [e] + s[..i];
  }

  lemma BehindWithout(s: seq<Entry>, id: string, i: nat, ahead: set<string>)
    requires Distinct(s) && Has(s, id) && i < |s| && s[i].key != id && KeysOf(s[..i]) <= ahead
    ensures BehindOnly(Without(s, id), s[i], ahead)
  {
    var h, rest := Find(s, id), Without(s, id);
    var i' := if h < i then i - 1 else i;
    assert rest[i'] == s[i];
    forall x | x in rest[..i'] ensures x in s[..i] {
      var m :| 0 <= m < i' && rest[m] == x;
      assert s[..i][if m < h then m else m + 1] == x;
    }
    KeysOfSubset(rest[..i'], s[..i]);
  }

  // A full list whose last entry is s[i] holds capacity - 1 ids ahead of it.
  lemma LastPlaceNeedsCapacity(s: seq<Entry>, capacity: nat, i: nat, id: string, others: set<string>)
    requires Distinct(s) && |s| >= capacity && i == |s| - 1 && !Has(s, id)
    requires KeysOf(s[..i]) <= others && id in others
    ensures |others| >= capacity
  {
    DistinctCount(s[..i]);
    forall x | x in s[..i] ensures x.key != id {
      var m :| 0 <= m < i && s[m] == x;
    }
    SubsetCount(KeysOf(s[..i]) + {id}, others);
  }

  lemma SurvivesOtherId(s: seq<Entry>, capacity: nat, ev: Event, i: nat, others: set<string>)
    requires Bounded(s, capacity) && i < |s| && !ev.op.CleanupOp? && ev.op.id != s[i].key
    requires MovesToFront(s, ev, ev.op.id) ==> ev.op.id in others
    requires KeysOf(s[..i]) <= others && |others| < capacity
    ensures BehindOnly(Step(s, capacity, ev).0, s[i], others)
  {
    var t, id := Step(s, capacity, ev).0, ev.op.id;
    if Has(s, id) {
      BehindWithout(s, id, i, others);
      if t != Without(s, id) {
        assert t == [t[0]] + Without(s, id);
        BehindOneMore(t[0], Without(s, id), s[i], others);
      }
    } else if ev.op.SetOp? {
      var rest := t[1..];
      if i == |s| - 1 && |s| >= capacity {
        LastPlaceNeedsCapacity(s, capacity, i, id, others);
        assert false;
      }
      assert rest[i] == s[i] && rest[..i] == s[..i];
      assert t == [t[0]] + rest;
      BehindOneMore(t[0], rest, s[i], others);
    }
  }

  // The kth event sets the id to the value, at most ten minutes before, and no event since sets it anew or reads it and clears it.
  ghost predicate Standing(run: seq<Event>, id: string, value: string, now: Instant, k: nat) {
    && k < |run| && run[k].op == SetOp(id, value) && now <= run[k].now + 600_000_000_000
    && forall m :: k < m < |run| ==>
         match run[m].op
         case SetOp(i, _) => i != id
         case GetOp(i, clear) => !(i == id && clear)
         case VerifyOp(i, _, clear) => !(i == id && clear)
         case CleanupOp => true
  }

  lemma {:induction false} StandingIsLive(run: seq<Event>, id: string, value: string, now: Instant, k: nat)
    requires Standing(run, id, value, now, k)
    ensures Live(run, id) == [Entry(id, value, run[k].now + TTL)]
  {
    var front := run[..|run| - 1];
    if k < |front| {
      assert Standing(front, id, value, now, k) by {
        forall m | k < m < |front| ensures front[m] == run[m] {}
      }
      StandingIsLive(front, id, value, now, k);
    }
  }

  lemma LiveIsStanding(run: seq<Event>, id: string, e: Entry, now: Instant) returns (k: nat)
    requires Live(run, id) == [e] && now <= e.expiration
    ensures Standing(run, id, e.value, now, k)
  {
    k := LiveMeansSet(run, id, e);
  }

  // The cache has an entry that can be read exactly if the reference model has one.
  lemma ReadableIffLive(capacity: nat, run: seq<Event>, id: string, ev: Event)
    requires capacity > 0 && Chronological(run + [ev]) && |OthersSince(capacity, run, id)| < capacity
    ensures var s, live := StateAfter(capacity, run), Live(run, id);
      && (live != [] ==> live == [live[0]])
      && (Has(s, id) && !Expired(s[Find(s, id)], ev.now) <==> live != [] && !Expired(live[0], ev.now))
      && (Has(s, id) && !Expired(s[Find(s, id)], ev.now) ==> live[0] == s[Find(s, id)])
  {
    assert (run + [ev])[..|run + [ev]| - 1] == run;
    var s := StateAfter(capacity, run);
    StateBounded(capacity, run);
    if Live(run, id) != [] { LiveIsSingle(run, id); }
    if Has(s, id) {
      EntriesAreLive(capacity, run, s[Find(s, id)]);
    } else if Live(run, id) != [] && ev.now <= Live(run, id)[0].expiration {
      assert (run + [ev])[|run| - 1] == run[|run| - 1] && (run + [ev])[|run|] == ev;
      forall a, b | 0 <= a < b < |run| ensures run[a].now <= run[b].now {
        assert (run + [ev])[a].now <= (run + [ev])[b].now;
      }
      SurvivesUntilOverflow(capacity, run, Live(run, id)[0]);
      assert false;
    }
  }

  // As long as fewer than capacity other ids were used since the id was last used, a
  // verification succeeds if and only if the answer is not empty and is what a standing Set
  // has given the id: as in a cache without capacity, list or cleanup.
  lemma VerifyExactBelowCapacity(capacity: nat, run: seq<Event>, id: string, answer: string, clear: bool, now: Instant)
    requires capacity > 0 && Chronological(run + [Event(VerifyOp(id, answer, clear), now)])
    requires |OthersSince(capacity, run, id)| < capacity
    ensures LastAnswer(capacity, run + [Event(VerifyOp(id, answer, clear), now)]) == Verdict(true)
       <==> answer != "" && exists k :: Standing(run, id, answer, now, k)
  {
    var ev := Event(VerifyOp(id, answer, clear), now);
    assert (run + [ev])[..|run + [ev]| - 1] == run;
    ReadableIffLive(capacity, run, id, ev);
    if k :| Standing(run, id, answer, now, k) { StandingIsLive(run, id, answer, now, k); }
    if Live(run, id) != [] && now <= Live(run, id)[0].expiration {
      var k := LiveIsStanding(run, id, Live(run, id)[0], now);
    }
  }

  // And a read gives the value of the standing Set, or nothing if there is none.
  lemma GetExactBelowCapacity(capacity: nat, run: seq<Event>, id: string, clear: bool, now: Instant)
    requires capacity > 0 && Chronological(run + [Event(GetOp(id, clear), now)])
    requires |OthersSince(capacity, run, id)| < capacity
    ensures forall k, value :: Standing(run, id, value, now, k) ==>
      LastAnswer(capacity, run + [Event(GetOp(id, clear), now)]) == Code(value)
    ensures (forall k, value :: !Standing(run, id, value, now, k)) ==>
      LastAnswer(capacity, run + [Event(GetOp(id, clear), now)]) == Code("")
  {
    var ev := Event(GetOp(id, clear), now);
    assert (run + [ev])[..|run + [ev]| - 1] == run;
    ReadableIffLive(capacity, run, id, ev);
    forall k, value | Standing(run, id, value, now, k) ensures LastAnswer(capacity, run + [ev]) == Code(value) {
      StandingIsLive(run, id, value, now, k);
    }
    if Live(run, id) != [] && now <= Live(run, id)[0].expiration {
      var k := LiveIsStanding(run, id, Live(run, id)[0], now);
    }
  }

  lemma {:induction false} LiveIsSingle(run: seq<Event>, id: string)
    requires Live(run, id) != []
    ensures Live(run, id) == [Live(run, id)[0]] && Live(run, id)[0].key == id
  {
    var last := run[|run| - 1];
    if !(last.op.SetOp? && last.op.id == id) && !Clears(last.op, id) {
      LiveIsSingle(run[..|run| - 1], id);
    }
  }

  // ---------- How much a cleanup removes ----------

  ghost predicate NoneExpired(s: seq<Entry>, now: Instant) {
    forall i :: 0 <= i < |s| ==> !Expired(s[i], now)
  }

  // The number of expired entries at the end of the list.
  ghost function ExpiredTail(s: seq<Entry>, now: Instant): nat {
    if s == [] || !Expired(s[|s| - 1], now) then 0 else 1 + ExpiredTail(s[..|s| - 1], now)
  }

  lemma {:induction false} ExpiredTailIsTail(s: seq<Entry>, now: Instant)
    ensures var n := |s| - ExpiredTail(s, now);
      0 <= n && (forall i :: n <= i < |s| ==> Expired(s[i], now)) && (n > 0 ==> !Expired(s[n - 1], now))
  {
    if s != [] && Expired(s[|s| - 1], now) { ExpiredTailIsTail(s[..|s| - 1], now); }
  }

  lemma {:induction false} CleanupSize(s: seq<Entry>, now: Instant, budget: nat)
    ensures var tail := ExpiredTail(s, now);
      tail <= |s| && Cleanup(s, now, budget) == s[..|s| - if tail <= budget then tail else budget]
    decreases budget
  {
    if s != [] && Expired(s[|s| - 1], now) {
      ExpiredTailIsTail(s, now);
      if budget > 0 { CleanupSize(s[..|s| - 1], now, budget - 1); }
    }
  }

  // The entries in front of the expired tail are valid exactly when no expired entry
  // stands in front of a valid one.
  lemma FrontValidIff(s: seq<Entry>, now: Instant, n: nat)
    requires n <= |s| && (forall i :: n <= i < |s| ==> Expired(s[i], now)) && (n > 0 ==> !Expired(s[n - 1], now))
    ensures NoneExpired(s[..n], now) <==> forall i, j :: 0 <= i < j < |s| && Expired(s[i], now) ==> Expired(s[j], now)
  {
    if NoneExpired(s[..n], now) {
      forall i | 0 <= i < n ensures !Expired(s[i], now) {
        assert s[..n][i] == s[i];
      }
    } else {
      var i :| 0 <= i < n && Expired(s[..n][i], now);
      assert i < n - 1 && !Expired(s[n - 1], now);
    }
  }

  // A cleanup leaves no expired entry exactly when no expired entry stands before a
  // valid one and at most a hundred entries are expired at the end.
  lemma CleanupCompleteIff(s: seq<Entry>, now: Instant)
    ensures NoneExpired(Cleanup(s, now, MAX_CLEANUP), now) <==>
      && (forall i, j :: 0 <= i < j < |s| && Expired(s[i], now) ==> Expired(s[j], now))
      && ExpiredTail(s, now) <= 100
  {
    var n := |s| - ExpiredTail(s, now);
    CleanupSize(s, now, MAX_CLEANUP);
    ExpiredTailIsTail(s, now);
    FrontValidIff(s, now, n);
    if ExpiredTail(s, now) > MAX_CLEANUP {
      var r := s[..|s| - MAX_CLEANUP];
      assert Expired(r[|r| - 1], now);
    }
  }

  // Reading an entry moves it to the front but does not renew it, so an expired entry
  // can hide in front of a valid one and outlive a cleanup.
  lemma ExpiredEntryCanHide(a: string, b: string)
    requires a != b
    ensures var run := [Event(SetOp(a, "1"), 0), Event(SetOp(b, "2"), 5), Event(GetOp(a, false), 6), Event(CleanupOp, TTL + 1)];
      && Chronological(run)
      && StateAfter(2, run) == [Entry(a, "1", TTL), Entry(b, "2", TTL + 5)]
      && Expired(StateAfter(2, run)[0], TTL + 1)
  {
    var e0, e1, e2, e3 := Event(SetOp(a, "1"), 0), Event(SetOp(b, "2"), 5), Event(GetOp(a, false), 6), Event(CleanupOp, TTL + 1);
    var x, y := Entry(a, "1", TTL), Entry(b, "2", TTL + 5);
    var run := [e0, e1, e2, e3];
    assert run[..3] == [e0, e1, e2] && [e0, e1, e2][..2] == [e0, e1] && [e0, e1][..1] == [e0] && [e0][..0] == [];
    assert StateAfter(2, [e0]) == Set([], 2, a, "1", 0) == [x];
    assert [x][0].key != b && !Has([x], b);
    assert StateAfter(2, [e0, e1]) == Set([x], 2, b, "2", 5) == [y, x];
    FindUnique([y, x], 1);
    assert Without([y, x], a) == [y];
    assert StateAfter(2, [e0, e1, e2]) == Get([y, x], a, false, 6).0 == [x, y];
    assert Cleanup([x, y], TTL + 1, MAX_CLEANUP) == [x, y];
  }
}
