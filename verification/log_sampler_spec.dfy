// Log sampling: which repeated messages are written, and what cleaning up old samplers
// does to that.

module LogSamplerSpec {
  import opened Bits
  import opened Collections
  import opened Text

  type Instant = int   // nanoseconds

  const SECOND: Instant := 1_000_000_000
  const MAX_SAMPLERS := 1000
  const CLEAN_THRESHOLD: Instant := 30 * 60 * SECOND

  // Levels below Error; an error is always written and does not get here.
  datatype Level = Debug | Info | Other

  predicate OccursAt(s: string, part: string, i: int) {
    0 <= i <= |s| - |part| && s[i..i + |part|] == part
  }

  predicate Contains(s: string, part: string) {
    |part| > 0 && exists i :: 0 <= i <= |s| && OccursAt(s, part, i)
  }

  function SamplingInterval(level: Level, message: string): (r: Instant)
    ensures SECOND <= r <= 60 * SECOND
  {
    if Contains(message, "存储目录创建成功") then 10 * SECOND
    else if Contains(message, "监控数据") then 30 * SECOND
    else if Contains(message, "流量数据") then 60 * SECOND
    else if Contains(message, "Task") then 5 * SECOND
    else if Contains(message, "分配端口") then 5 * SECOND
    else if Contains(message, "端口映射") then 5 * SECOND
    else if Contains(message, "防火墙端口映射") then 5 * SECOND
    else if Contains(message, "iptables port mapping") then 5 * SECOND
    else if Contains(message, "agent monitor") then 5 * SECOND
    else if Contains(message, "pmacct监控") then 5 * SECOND
    else match level
      case Debug => 5 * SECOND
      case Info => 2 * SECOND
      case Other => SECOND
  }

  function MaxSkipLogs(level: Level): (r: nat)
    ensures 3 <= r <= 19
  {
    match level
    case Debug => 19
    case Info => 9
    case Other => 3
  }

  datatype Sampler = Sampler(interval: Instant, lastLog: Instant, skipCount: nat, maxSkipLogs: nat)
  type Samplers = map<string, Sampler>

  function NewSampler(message: string, level: Level, now: Instant): Sampler {
    Sampler(SamplingInterval(level, message), now, 0, MaxSkipLogs(level))
  }

  // One call for a message that has a sampler.
  function Count(p: Sampler, now: Instant): (Sampler, bool) {
    if now - p.lastLog >= p.interval || p.skipCount + 1 >= p.maxSkipLogs then
      (p.(lastLog := now, skipCount := 0), true)
    else (p.(skipCount := p.skipCount + 1), false)
  }

  function Sample(s: Samplers, message: string, level: Level, now: Instant): (Samplers, bool) {
    if message !in s then (s[message := NewSampler(message, level, now)], true)
    else
      var (p, written) := Count(s[message], now);
      (s[message := p], written)
  }

  // ---------- Cleaning up ----------

  predicate Stale(p: Sampler, now: Instant) {
    now - p.lastLog > CLEAN_THRESHOLD
  }

  function Fresh(s: Samplers, now: Instant): Samplers {
    map k | k in s && !Stale(s[k], now) :: s[k]
  }

  // How many go when there are n: half of them, or more if more than the limit would stay.
  function DeleteCount(n: nat): nat {
    if n - MAX_SAMPLERS < n / 2 then n / 2 else n - MAX_SAMPLERS
  }

  ghost predicate Oldest(s: Samplers, t: Samplers) {
    forall d, k :: d in s && d !in t && k in t ==> d in s && k in s && s[d].lastLog <= s[k].lastLog
  }

  // t is what may be left of s: ties among the oldest may fall either way.
  ghost predicate CleanedTo(s: Samplers, t: Samplers, now: Instant) {
    var kept := Fresh(s, now);
    if |kept| <= MAX_SAMPLERS then t == kept
    else
      && (forall k :: k in t ==> k in kept && t[k] == kept[k])
      && |kept.Keys| - |t.Keys| == DeleteCount(|kept|) && Oldest(kept, t)
  }

  lemma KeysCount(s: Samplers)
    ensures |s.Keys| == |s|
  {}

  // At most a thousand stay; they are not stale, unchanged, and none of them is older than
  // one that went for lack of room.
  lemma CleanedUp(s: Samplers, t: Samplers, now: Instant)
    requires CleanedTo(s, t, now)
    ensures |t| <= 1000
    ensures |Fresh(s, now)| > 1000 ==> var n := |Fresh(s, now)|; |t| == if n - n / 2 < 1000 then n - n / 2 else 1000
    ensures forall k :: k in t ==> k in s && t[k] == s[k] && !Stale(t[k], now) && now - t[k].lastLog <= 1_800_000_000_000
    ensures forall d, k :: d in s && d !in t && !Stale(s[d], now) && k in t ==> s[d].lastLog <= t[k].lastLog
    ensures |Fresh(s, now)| <= 1000 ==> forall d :: d in s && d !in t ==> now - s[d].lastLog > 1_800_000_000_000
  {
    KeysCount(t);
    KeysCount(Fresh(s, now));
  }

  // ---------- Runs ----------

  datatype Event = Log(message: string, level: Level, now: Instant) | Cleanup(now: Instant)

  // answer says whether the message was written.
  ghost predicate Step(s: Samplers, ev: Event, t: Samplers, answer: bool) {
    match ev
    case Log(message, level, now) => (t, answer) == Sample(s, message, level, now)
    case Cleanup(now) => CleanedTo(s, t, now) && answer
  }

  ghost predicate Run(events: seq<Event>, states: seq<Samplers>, answers: seq<bool>) {
    && |states| == |events| + 1 && |answers| == |events| && states[0] == map[]
    && forall i :: 0 <= i < |events| ==> Step(states[i], events[i], states[i + 1], answers[i])
  }

  lemma RunFront(events: seq<Event>, states: seq<Samplers>, answers: seq<bool>)
    requires Run(events, states, answers) && events != []
    ensures var n := |events| - 1;
      Run(events[..n], states[..n + 1], answers[..n]) && Step(states[n], events[n], states[n + 1], answers[n])
  {
    var n := |events| - 1;
    forall i | 0 <= i < n ensures Step(states[..n + 1][i], events[..n][i], states[..n + 1][i + 1], answers[..n][i]) {
      assert Step(states[i], events[i], states[i + 1], answers[i]);
    }
  }

  ghost predicate Names(ev: Event, message: string) {
    ev.Log? && ev.message == message
  }

  // How many calls for the message have been suppressed since one was written.
  ghost function InARow(events: seq<Event>, answers: seq<bool>, message: string): nat
    requires |answers| == |events|
  {
    if events == [] then 0
    else
      var n := |events| - 1;
      if !Names(events[n], message) then InARow(events[..n], answers[..n], message)
      else if answers[n] then 0
      else InARow(events[..n], answers[..n], message) + 1
  }

  ghost predicate LevelsUpTo(events: seq<Event>, message: string, max: nat) {
    forall i :: 0 <= i < |events| && Names(events[i], message) ==> MaxSkipLogs(events[i].level) <= max
  }

  lemma {:induction false} SkipsAreInARow(events: seq<Event>, states: seq<Samplers>, answers: seq<bool>, message: string, max: nat)
    requires Run(events, states, answers) && LevelsUpTo(events, message, max) && max > 0
    ensures InARow(events, answers, message) < max
    ensures message in states[|events|] ==>
      var p := states[|events|][message];
      p.skipCount == InARow(events, answers, message) && p.maxSkipLogs <= max && p.skipCount < p.maxSkipLogs
    decreases |events|
  {
    if events != [] {
      var n := |events| - 1;
      RunFront(events, states, answers);
      SkipsAreInARow(events[..n], states[..n + 1], answers[..n], message, max);
      if events[n].Cleanup? { CleanedUp(states[n], states[n + 1], events[n].now); }
    }
  }

  // Whatever the clock does and wherever cleanups happen, no message is suppressed more
  // than max - 1 times in a row: 18 times for debug messages, 8 for info messages.
  lemma SuppressionsAreBounded(events: seq<Event>, states: seq<Samplers>, answers: seq<bool>, message: string, max: nat)
    requires Run(events, states, answers) && LevelsUpTo(events, message, max) && max > 0
    ensures InARow(events, answers, message) <= max - 1
  {
    SkipsAreInARow(events, states, answers, message, max);
  }

  // And the bound is met: of calls at one instant exactly every max-th is written, so one
  // in 19, 9 or 3.
  lemma {:induction false} BurstWritesOneInMax(events: seq<Event>, states: seq<Samplers>, answers: seq<bool>,
                                               message: string, level: Level, now: Instant)
    requires Run(events, states, answers) && forall i :: 0 <= i < |events| ==> events[i] == Log(message, level, now)
    ensures forall i :: 0 <= i < |events| ==> (answers[i] <==> i % MaxSkipLogs(level) == 0)
    ensures events != [] ==> (
      states[|events|] == map[message := NewSampler(message, level, now).(skipCount := (|events| - 1) % MaxSkipLogs(level))])
    decreases |events|
  {
    if events != [] {
      var n := |events| - 1;
      RunFront(events, states, answers);
      BurstWritesOneInMax(events[..n], states[..n + 1], answers[..n], message, level, now);
      if n > 0 { NextRemainder(n, MaxSkipLogs(level)); }
      forall i | 0 <= i < n ensures answers[i] <==> i % MaxSkipLogs(level) == 0 {
        assert answers[..n][i] == answers[i];
      }
    }
  }

  lemma NextRemainder(n: nat, max: nat)
    requires 3 <= max <= 19 && n > 0
    ensures n % max == if (n - 1) % max + 1 >= max then 0 else (n - 1) % max + 1
  {
    var q, r := (n - 1) / max, (n - 1) % max;
    assert n - 1 == q * max + r;
    if r + 1 >= max {
      MulDistribute(q + 1, q, max);
      DivModUnique(n, max, q + 1, 0);
    } else {
      DivModUnique(n, max, q, r + 1);
    }
  }

  // ---------- Nothing is suppressed that was not written shortly before ----------

  ghost predicate WrittenAt(events: seq<Event>, answers: seq<bool>, message: string, i: nat, now: Instant) {
    i < |events| == |answers| && Names(events[i], message) && answers[i] && events[i].now == now
  }

  lemma {:induction false} LastLogWasWritten(events: seq<Event>, states: seq<Samplers>, answers: seq<bool>, message: string)
    returns (i: nat)
    requires Run(events, states, answers) && message in states[|events|]
    ensures WrittenAt(events, answers, message, i, states[|events|][message].lastLog)
    ensures states[|events|][message].interval <= 60 * SECOND
    decreases |events|
  {
    var n := |events| - 1;
    RunFront(events, states, answers);
    if Names(events[n], message) && answers[n] {
      i := n;
      if message in states[n] {
        var _ := LastLogWasWritten(events[..n], states[..n + 1], answers[..n], message);
      }
    } else {
      if events[n].Cleanup? { CleanedUp(states[n], states[n + 1], events[n].now); }
      i := LastLogWasWritten(events[..n], states[..n + 1], answers[..n], message);
    }
  }

  lemma SuppressedMeansRecent(events: seq<Event>, states: seq<Samplers>, answers: seq<bool>, j: nat) returns (i: nat)
    requires Run(events, states, answers) && j < |events| && !answers[j]
    ensures events[j].Log? && i < j && Names(events[i], events[j].message) && answers[i]
    ensures events[j].now - events[i].now < 60 * SECOND
  {
    assert Step(states[j], events[j], states[j + 1], answers[j]);
    RunUpTo(events, states, answers, j);
    i := LastLogWasWritten(events[..j], states[..j + 1], answers[..j], events[j].message);
  }

  lemma RunUpTo(events: seq<Event>, states: seq<Samplers>, answers: seq<bool>, j: nat)
    requires Run(events, states, answers) && j <= |events|
    ensures Run(events[..j], states[..j + 1], answers[..j])
  {
    forall i | 0 <= i < j ensures Step(states[..j + 1][i], events[..j][i], states[..j + 1][i + 1], answers[..j][i]) {
      assert Step(states[i], events[i], states[i + 1], answers[i]);
    }
  }

  // ---------- Cleaning up is not seen while there are few samplers ----------

  ghost predicate Chronological(events: seq<Event>) {
    forall i, j :: 0 <= i < j < |events| ==> events[i].now <= events[j].now
  }

  ghost predicate FixedLevels(events: seq<Event>, levelOf: string -> Level) {
    forall i :: 0 <= i < |events| && events[i].Log? ==> events[i].level == levelOf(events[i].message)
  }

  // Calls from a state on, cleanups left out.
  ghost function StateWithout(s: Samplers, events: seq<Event>): Samplers {
    if events == [] then s
    else
      var n := |events| - 1;
      match events[n]
      case Log(message, level, now) => Sample(StateWithout(s, events[..n]), message, level, now).0
      case Cleanup(_) => StateWithout(s, events[..n])
  }

  // Whether the last of them is written.
  ghost predicate WrittenWithout(s: Samplers, events: seq<Event>)
    requires events != [] && events[|events| - 1].Log?
  {
    var last := events[|events| - 1];
    Sample(StateWithout(s, events[..|events| - 1]), last.message, last.level, last.now).1
  }

  // The sampler would let the next call through.
  predicate Ready(p: Sampler, now: Instant) {
    Count(p, now).1
  }

  ghost predicate DropsOnlyReady(s: Samplers, t: Samplers, now: Instant) {
    forall d :: d in s && d !in t ==> Ready(s[d], now)
  }

  // The cleaned state lacks nothing but samplers that would let the next call through.
  ghost predicate LacksOnlyReady(full: Samplers, cleaned: Samplers, now: Instant) {
    (forall k :: k in cleaned ==> k in full && cleaned[k] == full[k]) && DropsOnlyReady(full, cleaned, now)
  }

  ghost predicate Settled(s: Samplers, levelOf: string -> Level) {
    forall k :: k in s ==> s[k].interval == SamplingInterval(levelOf(k), k) && s[k].maxSkipLogs == MaxSkipLogs(levelOf(k))
  }

  // Such a sampler starts over with the call it lets through: just what a new one does.
  lemma ReadyIsAsNew(full: Samplers, cleaned: Samplers, levelOf: string -> Level, message: string, now: Instant)
    requires LacksOnlyReady(full, cleaned, now) && Settled(full, levelOf)
    ensures var a, b := Sample(full, message, levelOf(message), now), Sample(cleaned, message, levelOf(message), now);
      a.1 == b.1 && LacksOnlyReady(a.0, b.0, now) && Settled(a.0, levelOf)
  {}

  lemma LaterStillReady(full: Samplers, cleaned: Samplers, before: Instant, now: Instant)
    requires LacksOnlyReady(full, cleaned, before) && before <= now
    ensures LacksOnlyReady(full, cleaned, now)
  {
    forall d | d in full && d !in cleaned ensures Ready(full[d], now) {
      assert Ready(full[d], before);
    }
  }

  // ---------- When a cleanup is not seen ----------

  ghost predicate Later(events: seq<Event>, levelOf: string -> Level, now: Instant) {
    && Chronological(events) && FixedLevels(events, levelOf)
    && events != [] && events[|events| - 1].Log? && now <= events[0].now
  }

  // Whatever is logged after this time, the same is written from either state.
  ghost predicate Unseen(s: Samplers, t: Samplers, levelOf: string -> Level, now: Instant) {
    forall events :: Later(events, levelOf, now) ==> WrittenWithout(s, events) == WrittenWithout(t, events)
  }

  lemma {:induction false} ReadyContinues(s: Samplers, t: Samplers, levelOf: string -> Level, now: Instant, events: seq<Event>)
    requires LacksOnlyReady(s, t, now) && Settled(s, levelOf) && Chronological(events) && FixedLevels(events, levelOf)
    requires events != [] ==> now <= events[0].now
    ensures var last := if events == [] then now else events[|events| - 1].now;
      LacksOnlyReady(StateWithout(s, events), StateWithout(t, events), last) && Settled(StateWithout(s, events), levelOf)
    ensures events != [] && events[|events| - 1].Log? ==> WrittenWithout(s, events) == WrittenWithout(t, events)
  {
    if events != [] {
      var n := |events| - 1;
      var front, last := events[..n], events[n];
      ReadyContinues(s, t, levelOf, now, front);
      LaterStillReady(StateWithout(s, front), StateWithout(t, front), if n == 0 then now else events[n - 1].now, last.now);
      if last.Log? {
        ReadyIsAsNew(StateWithout(s, front), StateWithout(t, front), levelOf, last.message, last.now);
      }
    }
  }

  // A cleanup, of few samplers or of many, changes nothing of what is written after it if
  // and only if every sampler it drops would let the next call through.
  lemma CleanupUnseenIff(s: Samplers, t: Samplers, levelOf: string -> Level, now: Instant)
    requires Settled(s, levelOf) && CleanedTo(s, t, now)
    ensures Unseen(s, t, levelOf, now) <==> DropsOnlyReady(s, t, now)
  {
    CleanedUp(s, t, now);
    if DropsOnlyReady(s, t, now) {
      forall events | Later(events, levelOf, now) ensures WrittenWithout(s, events) == WrittenWithout(t, events) {
        ReadyContinues(s, t, levelOf, now, events);
      }
    } else {
      var d :| d in s && d !in t && !Ready(s[d], now);
      var next := [Log(d, levelOf(d), now)];
      assert next[..0] == [] && Later(next, levelOf, now);
      assert WrittenWithout(t, next) && !WrittenWithout(s, next);
    }
  }

  // ---------- What a cleanup may drop ----------

  ghost function OlderThan(s: Samplers, d: string, now: Instant): set<string>
    requires d in s
  {
    set k | k in Fresh(s, now) && s[k].lastLog < s[d].lastLog
  }

  // Too many samplers are in use, and too few of them are older than this one to go instead.
  ghost predicate MayGo(s: Samplers, d: string, now: Instant) {
    |Fresh(s, now)| > MAX_SAMPLERS && d in Fresh(s, now) && |OlderThan(s, d, now)| < DeleteCount(|Fresh(s, now)|)
  }

  // Nothing that stays is older than something that goes.
  ghost predicate OldestFirst(s: Samplers, gone: set<string>) {
    gone <= s.Keys && forall d, k :: d in gone && k in s && k !in gone ==> s[d].lastLog <= s[k].lastLog
  }

  lemma FreshCount(s: Samplers, now: Instant)
    ensures |Fresh(s, now)| == |Fresh(s, now).Keys|
  {}

  // With a sampler in use all older ones go as well.
  lemma OlderGoToo(kept: Samplers, t: Samplers, older: set<string>, d: string)
    requires d in kept && d !in t && Oldest(kept, t) && t.Keys <= kept.Keys
    requires forall k :: k in older ==> k in kept && kept[k].lastLog < kept[d].lastLog
    ensures |older| < |kept.Keys| - |t.Keys|
  {
    var gone := kept.Keys - t.Keys;
    assert kept.Keys == gone + t.Keys;
    forall k | k in older + {d} ensures k in gone {}
    SubsetCount(older + {d}, gone);
  }

  lemma GoneMayGo(s: Samplers, t: Samplers, d: string, now: Instant)
    requires CleanedTo(s, t, now) && d in s && d !in t
    ensures Stale(s[d], now) || MayGo(s, d, now)
  {
    if d in Fresh(s, now) {
      assert t.Keys <= Fresh(s, now).Keys;
      OlderGoToo(Fresh(s, now), t, OlderThan(s, d, now), d);
    }
  }

  lemma {:induction false} OldestOf(s: Samplers, keys: set<string>) returns (k: string)
    requires keys != {} && keys <= s.Keys
    ensures k in keys && forall j :: j in keys ==> s[k].lastLog <= s[j].lastLog
    decreases |keys|
  {
    k :| k in keys;
    if keys != {k} {
      assert keys - {k} != {};
      var rest := OldestOf(s, keys - {k});
      if s[rest].lastLog < s[k].lastLog { k := rest; }
    }
  }

  lemma {:induction false} GrowGone(s: Samplers, gone: set<string>, n: nat) returns (more: set<string>)
    requires OldestFirst(s, gone) && |gone| <= n <= |s.Keys|
    ensures OldestFirst(s, more) && gone <= more && |more| == n
    decreases n - |gone|
  {
    more := gone;
    if |gone| < n {
      var rest := s.Keys - gone;
      assert s.Keys == gone + rest;
      var k := OldestOf(s, rest);
      more := GrowGone(s, gone + {k}, n);
    }
  }

  lemma DeleteCountFits(n: nat)
    requires n > MAX_SAMPLERS
    ensures 0 < DeleteCount(n) <= n && n - DeleteCount(n) <= MAX_SAMPLERS
  {}

  // Dropping the oldest, as many as are to go, is a cleanup.
  lemma DropIsCleanup(s: Samplers, gone: set<string>, now: Instant)
    requires |Fresh(s, now)| > MAX_SAMPLERS && OldestFirst(Fresh(s, now), gone) && |gone| == DeleteCount(|Fresh(s, now)|)
    ensures CleanedTo(s, Fresh(s, now) - gone, now)
  {
    var kept := Fresh(s, now);
    FreshCount(s, now);
    assert kept.Keys == gone + (kept - gone).Keys;
  }

  // Some cleanup drops a sampler that is in use exactly if it may go: among samplers used
  // at the same time the sort may leave any order.
  lemma MayGoIff(s: Samplers, d: string, now: Instant)
    requires d in s && !Stale(s[d], now)
    ensures MayGo(s, d, now) <==> exists t :: CleanedTo(s, t, now) && d !in t
  {
    if MayGo(s, d, now) {
      var kept := Fresh(s, now);
      FreshCount(s, now);
      DeleteCountFits(|kept|);
      var gone := GrowGone(kept, OlderThan(s, d, now) + {d}, DeleteCount(|kept|));
      DropIsCleanup(s, gone, now);
      assert d !in kept - gone;
    } else if t :| CleanedTo(s, t, now) && d !in t {
      GoneMayGo(s, t, d, now);
    }
  }

  // From a state on, no cleanup is seen, whichever samplers it picks among equals, if and
  // only if every sampler that may go would let the next call through.
  lemma CleanupNeverSeenIff(s: Samplers, levelOf: string -> Level, now: Instant)
    requires Settled(s, levelOf)
    ensures (forall t :: CleanedTo(s, t, now) ==> Unseen(s, t, levelOf, now))
      <==> forall d :: MayGo(s, d, now) ==> Ready(s[d], now)
  {
    if forall d :: MayGo(s, d, now) ==> Ready(s[d], now) {
      forall t | CleanedTo(s, t, now) ensures Unseen(s, t, levelOf, now) {
        OnlyReadyGo(s, t, levelOf, now);
        CleanupUnseenIff(s, t, levelOf, now);
      }
    } else {
      var d :| MayGo(s, d, now) && !Ready(s[d], now);
      MayGoIff(s, d, now);
      var t :| CleanedTo(s, t, now) && d !in t;
      CleanupUnseenIff(s, t, levelOf, now);
    }
  }

  lemma OnlyReadyGo(s: Samplers, t: Samplers, levelOf: string -> Level, now: Instant)
    requires Settled(s, levelOf) && CleanedTo(s, t, now)
    requires forall d :: MayGo(s, d, now) ==> Ready(s[d], now)
    ensures DropsOnlyReady(s, t, now)
  {
    forall d | d in s && d !in t ensures Ready(s[d], now) {
      GoneMayGo(s, t, d, now);
    }
  }

  ghost predicate AllSuppress(s: Samplers, levelOf: string -> Level, now: Instant) {
    Settled(s, levelOf) && forall k :: k in s ==> !Ready(s[k], now) && !Stale(s[k], now)
  }

  // More than a thousand that all suppress the next call: the cleanup is seen, whichever
  // of them it drops.
  lemma CrowdedCleanupIsSeen(s: Samplers, t: Samplers, levelOf: string -> Level, now: Instant)
    requires CleanedTo(s, t, now) && |s| > MAX_SAMPLERS && AllSuppress(s, levelOf, now)
    ensures !Unseen(s, t, levelOf, now)
  {
    assert Fresh(s, now) == s;
    CleanedUp(s, t, now);
    CleanupUnseenIff(s, t, levelOf, now);
    KeysCount(s);
    KeysCount(t);
    if s.Keys <= t.Keys { SubsetCount(s.Keys, t.Keys); }
    var d :| d in s.Keys && d !in t.Keys;
  }

  // A message each, at one instant.
  ghost function Crowd(levelOf: string -> Level, now: Instant, n: nat): seq<Event> {
    seq(n, i requires 0 <= i < n => Log(Itoa(i), levelOf(Itoa(i)), now))
  }

  lemma NewOneSuppresses(s: Samplers, levelOf: string -> Level, message: string, now: Instant)
    requires AllSuppress(s, levelOf, now) && message !in s
    ensures var t := Sample(s, message, levelOf(message), now).0;
      AllSuppress(t, levelOf, now) && t.Keys == s.Keys + {message} && |t| == |s| + 1
  {
    var p := NewSampler(message, levelOf(message), now);
    assert !Ready(p, now) && !Stale(p, now);
    KeysCount(s);
    KeysCount(s[message := p]);
    assert s[message := p].Keys == s.Keys + {message};
  }

  ghost function CrowdNames(n: nat): set<string> {
    if n == 0 then {} else CrowdNames(n - 1) + {Itoa(n - 1)}
  }

  lemma {:induction false} NotYetNamed(n: nat, m: nat)
    requires m <= n
    ensures Itoa(n) !in CrowdNames(m)
  {
    if m > 0 {
      NotYetNamed(n, m - 1);
      if Itoa(n) == Itoa(m - 1) { ItoaInjective(n, m - 1); }
    }
  }

  lemma CrowdSnoc(levelOf: string -> Level, now: Instant, n: nat)
    ensures StateWithout(map[], Crowd(levelOf, now, n + 1)) ==
      Sample(StateWithout(map[], Crowd(levelOf, now, n)), Itoa(n), levelOf(Itoa(n)), now).0
  {
    assert Crowd(levelOf, now, n + 1)[..n] == Crowd(levelOf, now, n);
  }

  lemma OneMoreOfCrowd(s: Samplers, levelOf: string -> Level, now: Instant, n: nat)
    requires |s| == n && s.Keys == CrowdNames(n) && AllSuppress(s, levelOf, now)
    ensures var t := Sample(s, Itoa(n), levelOf(Itoa(n)), now).0;
      |t| == n + 1 && t.Keys == CrowdNames(n + 1) && AllSuppress(t, levelOf, now)
  {
    NotYetNamed(n, n);
    NewOneSuppresses(s, levelOf, Itoa(n), now);
  }

  // And there are such states: any number of new messages may be logged at one instant.
  lemma {:induction false} CrowdSuppresses(levelOf: string -> Level, now: Instant, n: nat)
    ensures var s := StateWithout(map[], Crowd(levelOf, now, n));
      |s| == n && s.Keys == CrowdNames(n) && AllSuppress(s, levelOf, now)
  {
    if n > 0 {
      CrowdSuppresses(levelOf, now, n - 1);
      CrowdSnoc(levelOf, now, n - 1);
      OneMoreOfCrowd(StateWithout(map[], Crowd(levelOf, now, n - 1)), levelOf, now, n - 1);
    }
  }

  // ---------- Whole runs ----------

  ghost predicate EachDropsOnlyReady(events: seq<Event>, states: seq<Samplers>)
    requires |states| == |events| + 1
  {
    forall i :: 0 <= i < |events| && events[i].Cleanup? ==> DropsOnlyReady(states[i], states[i + 1], events[i].now)
  }

  // Every cleanup comes when all samplers that may go would let the next call through; with
  // at most a thousand in use none may go.
  ghost predicate OnlyReadyMayGo(events: seq<Event>, states: seq<Samplers>)
    requires |states| == |events| + 1
  {
    forall i, d :: 0 <= i < |events| && events[i].Cleanup? && MayGo(states[i], d, events[i].now) ==>
      Ready(states[i][d], events[i].now)
  }

  lemma {:induction false} RunSettled(events: seq<Event>, states: seq<Samplers>, answers: seq<bool>, levelOf: string -> Level)
    requires Run(events, states, answers) && FixedLevels(events, levelOf)
    ensures Settled(states[|events|], levelOf)
    decreases |events|
  {
    if events != [] {
      var n := |events| - 1;
      RunFront(events, states, answers);
      RunSettled(events[..n], states[..n + 1], answers[..n], levelOf);
      if events[n].Cleanup? { CleanedUp(states[n], states[n + 1], events[n].now); }
    }
  }

  lemma {:induction false} CleanupsSimulate(events: seq<Event>, states: seq<Samplers>, answers: seq<bool>, levelOf: string -> Level)
    requires Run(events, states, answers) && Chronological(events) && FixedLevels(events, levelOf)
    requires EachDropsOnlyReady(events, states)
    ensures Settled(StateWithout(map[], events), levelOf)
    ensures events != [] ==> LacksOnlyReady(StateWithout(map[], events), states[|events|], events[|events| - 1].now)
    ensures events == [] ==> states[0] == StateWithout(map[], events)
    ensures events != [] && events[|events| - 1].Log? ==> answers[|events| - 1] == WrittenWithout(map[], events)
    decreases |events|
  {
    if events != [] {
      var n := |events| - 1;
      var full, now := StateWithout(map[], events[..n]), events[n].now;
      RunFront(events, states, answers);
      CleanupsSimulate(events[..n], states[..n + 1], answers[..n], levelOf);
      if n > 0 { LaterStillReady(full, states[n], events[n - 1].now, now); }
      match events[n] {
        case Log(message, level, _) => ReadyIsAsNew(full, states[n], levelOf, message, now);
        case Cleanup(_) => CleanedUp(states[n], states[n + 1], now);
      }
    }
  }

  // With a clock that does not run back and one level for each message, cleanups change
  // nothing of what a run writes if each comes when the samplers that may go would let the
  // next call through, and so in particular if none finds more than a thousand in use.
  lemma CleanupsUnseen(events: seq<Event>, states: seq<Samplers>, answers: seq<bool>, levelOf: string -> Level, j: nat)
    requires Run(events, states, answers) && Chronological(events) && FixedLevels(events, levelOf)
    requires EachDropsOnlyReady(events, states) || OnlyReadyMayGo(events, states)
    requires j < |events| && events[j].Log?
    ensures answers[j] == WrittenWithout(map[], events[..j + 1])
  {
    forall i | 0 <= i < |events| && events[i].Cleanup? ensures DropsOnlyReady(states[i], states[i + 1], events[i].now) {
      RunUpTo(events, states, answers, i);
      RunSettled(events[..i], states[..i + 1], answers[..i], levelOf);
      assert Step(states[i], events[i], states[i + 1], answers[i]);
      if OnlyReadyMayGo(events, states) { OnlyReadyGo(states[i], states[i + 1], levelOf, events[i].now); }
    }
    RunUpTo(events, states, answers, j + 1);
    CleanupsSimulate(events[..j + 1], states[..j + 2], answers[..j + 1], levelOf);
  }

  // ---------- Exactly when a message is written ----------

  // The ith event is the last call for the message before the jth that was written.
  ghost predicate LastWritten(events: seq<Event>, answers: seq<bool>, message: string, i: nat, j: nat)
    requires j <= |events| == |answers|
  {
    && i < j && Names(events[i], message) && answers[i]
    && forall m :: i < m < j && Names(events[m], message) ==> !answers[m]
  }

  // How many calls for the message there have been from the ith event on, up to the jth.
  ghost function CallsFrom(events: seq<Event>, message: string, i: nat, j: nat): nat
    requires i <= j <= |events|
    decreases j
  {
    if i == j then 0 else CallsFrom(events, message, i, j - 1) + if Names(events[j - 1], message) then 1 else 0
  }

  ghost predicate NoCleanups(events: seq<Event>, j: nat)
    requires j <= |events|
  {
    forall i :: 0 <= i < j ==> events[i].Log?
  }

  // What a sampler remembers: when its message was last written, and how often it has been
  // suppressed since.
  lemma {:induction false} SamplerRemembers(events: seq<Event>, states: seq<Samplers>, answers: seq<bool>, message: string, j: nat)
    returns (i: nat)
    requires Run(events, states, answers) && j <= |events| && NoCleanups(events, j) && message in states[j]
    ensures LastWritten(events, answers, message, i, j)
    ensures states[j][message].lastLog == events[i].now
    ensures states[j][message].skipCount == CallsFrom(events, message, i + 1, j)
    decreases j
  {
    var k := j - 1;
    assert Step(states[k], events[k], states[j], answers[k]);
    if Names(events[k], message) && answers[k] {
      i := k;
    } else {
      i := SamplerRemembers(events, states, answers, message, k);
    }
  }

  lemma {:induction false} SampledIffNamed(events: seq<Event>, states: seq<Samplers>, answers: seq<bool>, message: string, j: nat)
    requires Run(events, states, answers) && j <= |events| && NoCleanups(events, j)
    ensures message in states[j] <==> exists i :: 0 <= i < j && Names(events[i], message)
    decreases j
  {
    if j > 0 {
      assert Step(states[j - 1], events[j - 1], states[j], answers[j - 1]);
      SampledIffNamed(events, states, answers, message, j - 1);
    }
  }

  // At the jth event the interval has passed since the ith, or enough calls have come since.
  ghost predicate Due(events: seq<Event>, i: nat, j: nat, interval: Instant, max: nat)
    requires i < j < |events| && events[j].Log?
  {
    || events[j].now - events[i].now >= interval
    || CallsFrom(events, events[j].message, i + 1, j) + 1 >= max
  }

  lemma WrittenIfDue(events: seq<Event>, states: seq<Samplers>, answers: seq<bool>, levelOf: string -> Level, j: nat)
    returns (i: nat)
    requires Run(events, states, answers) && FixedLevels(events, levelOf)
    requires j < |events| && events[j].Log? && NoCleanups(events, j) && events[j].message in states[j]
    ensures LastWritten(events, answers, events[j].message, i, j)
    ensures answers[j] <==> Due(events, i, j, SamplingInterval(events[j].level, events[j].message), MaxSkipLogs(events[j].level))
  {
    var message := events[j].message;
    assert Step(states[j], events[j], states[j + 1], answers[j]);
    i := SamplerRemembers(events, states, answers, message, j);
    RunUpTo(events, states, answers, j);
    RunSettled(events[..j], states[..j + 1], answers[..j], levelOf);
    assert answers[j] == Count(states[j][message], events[j].now).1;
  }

  lemma LastWrittenIsOne(events: seq<Event>, answers: seq<bool>, message: string, i: nat, k: nat, j: nat)
    requires j <= |events| == |answers|
    requires LastWritten(events, answers, message, i, j) && LastWritten(events, answers, message, k, j)
    ensures i == k
  {}

  // Without cleanups a message is written exactly if it is the first, or its interval has
  // passed since it was last written, or this is the 19th, 9th or 3rd call since then.
  lemma WrittenIff(events: seq<Event>, states: seq<Samplers>, answers: seq<bool>, levelOf: string -> Level, j: nat)
    requires Run(events, states, answers) && FixedLevels(events, levelOf)
    requires j < |events| && events[j].Log? && NoCleanups(events, j)
    ensures var message, level := events[j].message, events[j].level;
      var max := match level case Debug => 19 case Info => 9 case Other => 3;
      answers[j] <==>
        || (forall i :: 0 <= i < j ==> !Names(events[i], message))
        || exists i: nat :: LastWritten(events, answers, message, i, j) &&
             Due(events, i, j, SamplingInterval(level, message), max)
  {
    var message := events[j].message;
    SampledIffNamed(events, states, answers, message, j);
    if message in states[j] {
      var i := WrittenIfDue(events, states, answers, levelOf, j);
      forall k: nat | LastWritten(events, answers, message, k, j) ensures k == i {
        LastWrittenIsOne(events, answers, message, i, k, j);
      }
    } else {
      assert Step(states[j], events[j], states[j + 1], answers[j]);
    }
  }

  // ---------- Intervals ----------

  ghost predicate Within(part: string, s: string) {
    exists before, after :: s == before + part + after
  }

  lemma ContainsIff(s: string, part: string)
    requires part != ""
    ensures Contains(s, part) <==> Within(part, s)
  {
    if Contains(s, part) {
      var i :| 0 <= i <= |s| && OccursAt(s, part, i);
      assert s == s[..i] + part + s[i + |part|..];
    } else if before, after :| s == before + part + after {
      assert OccursAt(s, part, |before|);
      assert false;
    }
  }

  // The interval that keeps a message from being written again, in nanoseconds.
  lemma IntervalIs(level: Level, message: string)
    ensures SamplingInterval(level, message) ==
      if Within("存储目录创建成功", message) then 10_000_000_000
      else if Within("监控数据", message) then 30_000_000_000
      else if Within("流量数据", message) then 60_000_000_000
      else if Within("Task", message) || Within("分配端口", message) || Within("端口映射", message)
              || Within("iptables port mapping", message) || Within("agent monitor", message)
              || Within("pmacct监控", message) then 5_000_000_000
      else match level
        case Debug => 5_000_000_000
        case Info => 2_000_000_000
        case Other => 1_000_000_000
  {
    ContainsIff(message, "存储目录创建成功");
    ContainsIff(message, "监控数据");
    ContainsIff(message, "流量数据");
    ContainsIff(message, "Task");
    ContainsIff(message, "分配端口");
    ContainsIff(message, "端口映射");
    ContainsIff(message, "防火墙端口映射");
    ContainsIff(message, "iptables port mapping");
    ContainsIff(message, "agent monitor");
    ContainsIff(message, "pmacct监控");
    FirewallIsMapping(message);
  }

  // A longer text that is found has the shorter one in it.
  lemma FirewallIsMapping(message: string)
    ensures Within("防火墙端口映射", message) ==> Within("端口映射", message)
  {
    if before, after :| message == before + "防火墙端口映射" + after {
      assert "防火墙端口映射" == "防火墙" + "端口映射";
      assert message == (before + "防火墙") + "端口映射" + after;
    }
  }
}
