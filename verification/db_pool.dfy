// The database manager's connection pool: reconnect loops, adoptions of pools opened
// elsewhere, heartbeats and shutdown, in every interleaving of their locked sections.

module DatabasePool {
  import opened Text

  const MAX_RECONNECT_RETRY: nat := 5

  datatype Call = Reconnect | Adopt | StartHeartbeat | Shutdown

  // Where a call stands between two of its atomic actions.
  datatype Phase =
    | Idle
    | Trying(attempt: nat)
    | Connecting(attempt: nat)
    | Connected(pool: nat)
    | Retiring(previous: Option<nat>, replacement: nat)
    | Releasing
    | Cancelled
    | Stopped
    | Done

  type Phases = map<nat, Phase>

  function PhaseOf(phases: Phases, i: nat): Phase {
    if i in phases then phases[i] else Idle
  }

  // Pools are numbered in the order they are opened; created is how many there are. Installed are those that have been
  // the manager's current pool.
  datatype Pools = Pools(current: Option<nat>, created: nat, installed: set<nat>, closes: multiset<nat>)

  // Stop channels are numbered in the order they are made; a running heartbeat is known by
  // the channel it listens to. A signal is the closing of a channel.
  datatype Heart = Heart(ticking: bool, stop: nat, signals: multiset<nat>, heartbeats: seq<nat>)

  datatype State = State(reconnecting: bool, cancelled: bool, pools: Pools, heart: Heart, phases: Phases)

  const START := State(false, false, Pools(None, 0, {}, multiset{}), Heart(false, 0, multiset{}, []), map[])

  // ---------- Atomic actions ----------

  datatype Action =
    | Stay
    | Goto(next: Phase)
    | TakeFlag
    | DropFlag
    | Open
    | Install(pool: nat)
    | Retire(previous: Option<nat>, replacement: nat, next: Phase)
    | Tick
    | Cancel
    | Untick
    | CloseCurrent

  // What a call does next; ok says whether an attempt to connect succeeds. The pool to
  // adopt has been opened and validated by the caller.
  function NextAction(call: Call, phase: Phase, reconnecting: bool, cancelled: bool, ok: bool): Action {
    match call
    case Reconnect => (
      match phase
      case Idle => if reconnecting then Goto(Done) else TakeFlag
      case Trying(attempt) => Goto(if cancelled then Releasing else Connecting(attempt))
      case Connecting(attempt) =>
        if ok then Open
        else Goto(if attempt + 1 < MAX_RECONNECT_RETRY then Trying(attempt + 1) else Releasing)
      case Connected(pool) => Install(pool)
      case Retiring(previous, pool) => Retire(previous, pool, Releasing)
      case Releasing => DropFlag
      case _ => Stay)
    case Adopt => (
      match phase
      case Idle => Open
      case Connected(pool) => Install(pool)
      case Retiring(previous, pool) => Retire(previous, pool, Done)
      case _ => Stay)
    case StartHeartbeat => if phase.Idle? then Tick else Stay
    case Shutdown => (
      match phase
      case Idle => Cancel
      case Cancelled => Untick
      case Stopped => CloseCurrent
      case _ => Stay)
  }

  function InstallPool(p: Pools, pool: nat): Pools {
    p.(current := Some(pool), installed := p.installed + {pool})
  }

  // closeDatabasePool
  function RetirePool(p: Pools, previous: Option<nat>, replacement: nat): Pools {
    if previous.None? || previous.value == replacement then p
    else p.(closes := p.closes + multiset{previous.value})
  }

  function CloseCurrentPool(p: Pools): Pools {
    if p.current.None? then p else p.(current := None, closes := p.closes + multiset{p.current.value})
  }

  function StopTicker(h: Heart): Heart {
    if h.ticking then Heart(false, h.stop + 1, h.signals + multiset{h.stop}, h.heartbeats) else h
  }

  function StartTicker(h: Heart): Heart {
    var t := StopTicker(h);
    t.(ticking := true, heartbeats := t.heartbeats + [t.stop])
  }

  function Apply(s: State, i: nat, action: Action): State {
    match action
    case Stay => s
    case Goto(next) => s.(phases := s.phases[i := next])
    case TakeFlag => s.(reconnecting := true, phases := s.phases[i := Trying(0)])
    case DropFlag => s.(reconnecting := false, phases := s.phases[i := Done])
    case Open => s.(pools := s.pools.(created := s.pools.created + 1), phases := s.phases[i := Connected(s.pools.created)])
    case Install(pool) => s.(pools := InstallPool(s.pools, pool), phases := s.phases[i := Retiring(s.pools.current, pool)])
    case Retire(previous, replacement, next) =>
      s.(pools := RetirePool(s.pools, previous, replacement), phases := s.phases[i := next])
    case Tick => s.(heart := StartTicker(s.heart), phases := s.phases[i := Done])
    case Cancel => s.(cancelled := true, phases := s.phases[i := Cancelled])
    case Untick => s.(heart := StopTicker(s.heart), phases := s.phases[i := Stopped])
    case CloseCurrent => s.(pools := CloseCurrentPool(s.pools), phases := s.phases[i := Done])
  }

  datatype Event = Event(call: nat, ok: bool)

  function ActionOf(calls: nat -> Call, s: State, e: Event): Action {
    NextAction(calls(e.call), PhaseOf(s.phases, e.call), s.reconnecting, s.cancelled, e.ok)
  }

  function Act(calls: nat -> Call, s: State, e: Event): State {
    Apply(s, e.call, ActionOf(calls, s, e))
  }

  // A schedule says which call acts next, so all schedules are all interleavings.
  function RunFrom(calls: nat -> Call, s: State, schedule: seq<Event>): State {
    if schedule == [] then s
    else Act(calls, RunFrom(calls, s, schedule[..|schedule| - 1]), schedule[|schedule| - 1])
  }

  function Run(calls: nat -> Call, schedule: seq<Event>): State {
    RunFrom(calls, START, schedule)
  }

  // ---------- Phases fit their calls ----------

  ghost predicate PhaseFits(call: Call, phase: Phase) {
    match phase
    case Trying(attempt) => call.Reconnect? && attempt < MAX_RECONNECT_RETRY
    case Connecting(attempt) => call.Reconnect? && attempt < MAX_RECONNECT_RETRY
    case Connected(_) => call.Reconnect? || call.Adopt?
    case Retiring(_, _) => call.Reconnect? || call.Adopt?
    case Releasing => call.Reconnect?
    case Cancelled => call.Shutdown?
    case Stopped => call.Shutdown?
    case _ => true
  }

  ghost predicate PhasesFit(calls: nat -> Call, phases: Phases) {
    forall i :: i in phases ==> PhaseFits(calls(i), phases[i])
  }

  lemma ActKeepsPhases(calls: nat -> Call, s: State, e: Event)
    requires PhasesFit(calls, s.phases)
    ensures PhasesFit(calls, Act(calls, s, e).phases)
  {
    assert PhaseFits(calls(e.call), PhaseOf(s.phases, e.call));
    assert PhaseFits(calls(e.call), PhaseOf(Act(calls, s, e).phases, e.call));
  }

  // ---------- One reconnect loop ----------

  predicate InLoop(calls: nat -> Call, phases: Phases, i: nat) {
    calls(i).Reconnect? && !PhaseOf(phases, i).Idle? && !PhaseOf(phases, i).Done?
  }

  // The flag is up exactly while some call is in its loop, and one call at most is.
  ghost predicate FlagOk(calls: nat -> Call, s: State) {
    && (forall i: nat, j: nat :: InLoop(calls, s.phases, i) && InLoop(calls, s.phases, j) ==> i == j)
    && (s.reconnecting <==> exists i: nat :: InLoop(calls, s.phases, i))
  }

  // An action that is neither entering nor leaving the loop.
  lemma LoopUnchanged(calls: nat -> Call, s: State, e: Event)
    requires PhasesFit(calls, s.phases) && !ActionOf(calls, s, e).TakeFlag? && !ActionOf(calls, s, e).DropFlag?
    ensures Act(calls, s, e).reconnecting == s.reconnecting
    ensures forall j: nat :: InLoop(calls, Act(calls, s, e).phases, j) == InLoop(calls, s.phases, j)
  {
    assert PhaseFits(calls(e.call), PhaseOf(s.phases, e.call));
  }

  lemma ActKeepsFlag(calls: nat -> Call, s: State, e: Event)
    requires PhasesFit(calls, s.phases) && FlagOk(calls, s)
    ensures FlagOk(calls, Act(calls, s, e))
  {
    var t, i := Act(calls, s, e), e.call;
    assert PhaseFits(calls(i), PhaseOf(s.phases, i));
    if ActionOf(calls, s, e).TakeFlag? {
      assert InLoop(calls, t.phases, i);
      forall j: nat | j != i ensures !InLoop(calls, t.phases, j) {
        assert !InLoop(calls, s.phases, j);
      }
    } else if ActionOf(calls, s, e).DropFlag? {
      assert InLoop(calls, s.phases, i);
      forall j: nat ensures !InLoop(calls, t.phases, j) {
        assert j != i ==> !InLoop(calls, s.phases, j);
      }
    } else {
      LoopUnchanged(calls, s, e);
    }
  }

  // ---------- Cancelling ----------

  // A shutdown that has begun has cancelled the rest, for good.
  ghost predicate CancelOk(calls: nat -> Call, s: State) {
    forall i :: i in s.phases && calls(i).Shutdown? && !s.phases[i].Idle? ==> s.cancelled
  }

  lemma ActKeepsCancel(calls: nat -> Call, s: State, e: Event)
    requires PhasesFit(calls, s.phases) && CancelOk(calls, s)
    ensures CancelOk(calls, Act(calls, s, e)) && (s.cancelled ==> Act(calls, s, e).cancelled)
  {
    assert PhaseFits(calls(e.call), PhaseOf(s.phases, e.call));
    assert e.call in s.phases || PhaseOf(s.phases, e.call) == Idle;
  }

  // ---------- Heartbeats ----------

  // Only the newest heartbeat can still be unsignalled, and it is while the ticker runs.
  ghost predicate HeartOk(h: Heart) {
    && (forall c: nat :: h.signals[c] <= 1 && (h.signals[c] > 0 ==> c < h.stop))
    && (forall k :: 0 <= k < |h.heartbeats| ==>
          h.signals[h.heartbeats[k]] == 1 || (h.ticking && k == |h.heartbeats| - 1))
    && (h.ticking ==> h.heartbeats != [] && h.heartbeats[|h.heartbeats| - 1] == h.stop)
  }

  lemma StopTickerKeeps(h: Heart)
    requires HeartOk(h)
    ensures HeartOk(StopTicker(h)) && HeartOk(StartTicker(h))
  {
    var t := StopTicker(h);
    assert HeartOk(t);
  }

  // ---------- Pools ----------

  // A pool is waiting to be installed, current, waiting to be closed, or closed once: at
  // most one of these, and at most one call is responsible for it.
  ghost predicate PoolsOk(s: Pools, phases: Phases) {
    && (forall i, j :: i in phases && j in phases && i != j && phases[i].Connected? && phases[j].Connected? ==>
          phases[i].pool != phases[j].pool)
    && (forall i, j :: i in phases && j in phases && i != j && phases[i].Retiring? && phases[j].Retiring? ==>
          phases[i].previous == None || phases[i].previous != phases[j].previous)
    && (forall i :: i in phases && phases[i].Connected? ==> phases[i].pool < s.created && phases[i].pool !in s.installed)
    && (forall i :: i in phases && phases[i].Retiring? ==> RetiringOk(s, phases[i].previous, phases[i].replacement))
    && (s.current.Some? ==> s.current.value in s.installed && s.closes[s.current.value] == 0)
    && (forall p: nat :: s.closes[p] <= 1 && (s.closes[p] > 0 ==> p in s.installed))
    && (forall p :: p in s.installed ==> p < s.created)
  }

  ghost predicate RetiringOk(s: Pools, previous: Option<nat>, replacement: nat) {
    && previous != Some(replacement)
    && (previous.Some? ==> previous.value in s.installed && s.closes[previous.value] == 0 && s.current != previous)
  }

  // The call has the pool to install, or to close.
  predicate Holds(phases: Phases, i: nat, p: nat) {
    i in phases && (phases[i] == Connected(p) || (phases[i].Retiring? && phases[i].previous == Some(p)))
  }

  // And always one of them: no pool is forgotten.
  ghost predicate Accounted(s: Pools, phases: Phases, p: nat) {
    s.closes[p] > 0 || s.current == Some(p) || exists i: nat :: Holds(phases, i, p)
  }

  ghost predicate NoneForgotten(s: Pools, phases: Phases) {
    forall p: nat :: p < s.created ==> Accounted(s, phases, p)
  }

  ghost predicate PoolInv(s: Pools, phases: Phases) {
    PoolsOk(s, phases) && NoneForgotten(s, phases)
  }

  predicate Holding(phase: Phase) {
    phase.Connected? || phase.Retiring?
  }

  // A pool held by another call is still held by it.
  lemma OthersHold(s: Pools, phases: Phases, i: nat, next: Phase, t: Pools, p: nat)
    requires Accounted(s, phases, p) && s.closes[p] == 0 && s.current != Some(p) && !Holds(phases, i, p)
    ensures Accounted(t, phases[i := next], p)
  {
    var j: nat :| Holds(phases, j, p);
    assert Holds(phases[i := next], j, p);
  }

  lemma QuietKeepsPools(s: Pools, phases: Phases, i: nat, next: Phase)
    requires PoolInv(s, phases) && !Holding(PhaseOf(phases, i)) && !Holding(next)
    ensures PoolInv(s, phases[i := next])
  {
    var after := phases[i := next];
    forall p: nat | p < s.created ensures Accounted(s, after, p) {
      assert Accounted(s, phases, p);
      if s.closes[p] == 0 && s.current != Some(p) { OthersHold(s, phases, i, next, s, p); }
    }
  }

  lemma OpenKeepsPools(s: Pools, phases: Phases, i: nat)
    requires PoolInv(s, phases) && !Holding(PhaseOf(phases, i))
    ensures PoolInv(s.(created := s.created + 1), phases[i := Connected(s.created)])
  {
    var t, next := s.(created := s.created + 1), Connected(s.created);
    var after := phases[i := next];
    forall p: nat | p < t.created ensures Accounted(t, after, p) {
      if p == s.created {
        assert Holds(after, i, p);
      } else {
        assert Accounted(s, phases, p);
        if s.closes[p] == 0 && s.current != Some(p) { OthersHold(s, phases, i, next, t, p); }
      }
    }
  }

  lemma InstallKeepsPools(s: Pools, phases: Phases, i: nat, pool: nat)
    requires PoolInv(s, phases) && PhaseOf(phases, i) == Connected(pool)
    ensures PoolInv(InstallPool(s, pool), phases[i := Retiring(s.current, pool)])
  {
    var t, next := InstallPool(s, pool), Retiring(s.current, pool);
    var after := phases[i := next];
    forall p: nat | p < t.created ensures Accounted(t, after, p) {
      assert Accounted(s, phases, p);
      if s.current == Some(p) {
        assert Holds(after, i, p);
      } else if s.closes[p] == 0 && p != pool {
        OthersHold(s, phases, i, next, t, p);
      }
    }
  }

  lemma RetireKeepsPools(s: Pools, phases: Phases, i: nat, next: Phase)
    requires PoolInv(s, phases) && PhaseOf(phases, i).Retiring? && !Holding(next)
    ensures PoolInv(RetirePool(s, PhaseOf(phases, i).previous, PhaseOf(phases, i).replacement), phases[i := next])
  {
    var previous := PhaseOf(phases, i).previous;
    var t := RetirePool(s, previous, PhaseOf(phases, i).replacement);
    var after := phases[i := next];
    forall p: nat | p < t.created ensures Accounted(t, after, p) {
      assert Accounted(s, phases, p);
      if s.closes[p] == 0 && s.current != Some(p) && previous != Some(p) {
        OthersHold(s, phases, i, next, t, p);
      }
    }
  }

  lemma CloseCurrentKeepsPools(s: Pools, phases: Phases, i: nat)
    requires PoolInv(s, phases) && !Holding(PhaseOf(phases, i))
    ensures PoolInv(CloseCurrentPool(s), phases[i := Done])
  {
    var t, after := CloseCurrentPool(s), phases[i := Done];
    forall p: nat | p < t.created ensures Accounted(t, after, p) {
      assert Accounted(s, phases, p);
      if s.closes[p] == 0 && s.current != Some(p) { OthersHold(s, phases, i, Done, t, p); }
    }
  }

  // What an action finds its call at, as far as pools are concerned.
  predicate Ready(phase: Phase, action: Action) {
    match action
    case Stay => true
    case Install(pool) => phase == Connected(pool)
    case Retire(previous, replacement, next) => phase == Retiring(previous, replacement) && !Holding(next)
    case Goto(next) => !Holding(phase) && !Holding(next)
    case _ => !Holding(phase)
  }

  lemma NextActionIsReady(call: Call, phase: Phase, reconnecting: bool, cancelled: bool, ok: bool)
    requires PhaseFits(call, phase)
    ensures Ready(phase, NextAction(call, phase, reconnecting, cancelled, ok))
  {}

  lemma ApplyKeepsPools(s: State, i: nat, action: Action)
    requires PoolInv(s.pools, s.phases) && Ready(PhaseOf(s.phases, i), action)
    ensures PoolInv(Apply(s, i, action).pools, Apply(s, i, action).phases)
  {
    match action {
      case Stay =>
      case Open => OpenKeepsPools(s.pools, s.phases, i);
      case Install(pool) => InstallKeepsPools(s.pools, s.phases, i, pool);
      case Retire(_, _, next) => RetireKeepsPools(s.pools, s.phases, i, next);
      case CloseCurrent => CloseCurrentKeepsPools(s.pools, s.phases, i);
      case Goto(next) => QuietKeepsPools(s.pools, s.phases, i, next);
      case TakeFlag => QuietKeepsPools(s.pools, s.phases, i, Trying(0));
      case Cancel => QuietKeepsPools(s.pools, s.phases, i, Cancelled);
      case Untick => QuietKeepsPools(s.pools, s.phases, i, Stopped);
      case _ => QuietKeepsPools(s.pools, s.phases, i, Done);
    }
  }

  // ---------- Every run ----------

  ghost predicate Inv(calls: nat -> Call, s: State) {
    && PhasesFit(calls, s.phases) && FlagOk(calls, s) && CancelOk(calls, s)
    && HeartOk(s.heart) && PoolInv(s.pools, s.phases)
  }

  lemma ActKeepsPools(calls: nat -> Call, s: State, e: Event)
    requires PhasesFit(calls, s.phases) && PoolInv(s.pools, s.phases)
    ensures PoolInv(Act(calls, s, e).pools, Act(calls, s, e).phases)
  {
    var phase := PhaseOf(s.phases, e.call);
    assert PhaseFits(calls(e.call), phase);
    NextActionIsReady(calls(e.call), phase, s.reconnecting, s.cancelled, e.ok);
    ApplyKeepsPools(s, e.call, ActionOf(calls, s, e));
  }

  lemma ActKeepsHeart(calls: nat -> Call, s: State, e: Event)
    requires HeartOk(s.heart)
    ensures HeartOk(Act(calls, s, e).heart)
  {
    StopTickerKeeps(s.heart);
  }

  lemma StartIsFine(calls: nat -> Call)
    ensures Inv(calls, START)
  {}

  lemma ActKeepsInv(calls: nat -> Call, s: State, e: Event)
    requires Inv(calls, s)
    ensures Inv(calls, Act(calls, s, e))
  {
    ActKeepsPhases(calls, s, e);
    ActKeepsFlag(calls, s, e);
    ActKeepsCancel(calls, s, e);
    ActKeepsHeart(calls, s, e);
    ActKeepsPools(calls, s, e);
  }

  lemma {:induction false} RunFromKeepsInv(calls: nat -> Call, s: State, schedule: seq<Event>)
    requires Inv(calls, s)
    ensures Inv(calls, RunFrom(calls, s, schedule))
  {
    if schedule != [] {
      var front := schedule[..|schedule| - 1];
      RunFromKeepsInv(calls, s, front);
      ActKeepsInv(calls, RunFrom(calls, s, front), schedule[|schedule| - 1]);
    }
  }

  lemma RunKeepsInv(calls: nat -> Call, schedule: seq<Event>)
    ensures Inv(calls, Run(calls, schedule))
  {
    StartIsFine(calls);
    RunFromKeepsInv(calls, START, schedule);
  }

  lemma OneReconnectLoop(calls: nat -> Call, schedule: seq<Event>, i: nat, j: nat)
    ensures var s := Run(calls, schedule);
      && (InLoop(calls, s.phases, i) && InLoop(calls, s.phases, j) ==> i == j)
      && (InLoop(calls, s.phases, i) ==> s.reconnecting)
  {
    RunKeepsInv(calls, schedule);
  }

  // The current pool is open, and so is the one a reconnect or an adoption is about to
  // install.
  lemma CurrentPoolIsOpen(calls: nat -> Call, schedule: seq<Event>)
    ensures var s := Run(calls, schedule);
      && (s.pools.current.Some? ==> s.pools.closes[s.pools.current.value] == 0)
      && forall i :: i in s.phases && s.phases[i].Connected? ==> s.pools.closes[s.phases[i].pool] == 0
  {
    RunKeepsInv(calls, schedule);
  }

  // A pool that has been current and no longer is has been closed exactly once, unless
  // the one call that took its place is just about to close it.
  lemma SupersededPoolIsClosedOnce(calls: nat -> Call, schedule: seq<Event>, p: nat)
    requires var s := Run(calls, schedule); p in s.pools.installed && s.pools.current != Some(p)
    ensures var s := Run(calls, schedule);
      && s.pools.closes[p] <= 1
      && (s.pools.closes[p] == 0 <==> exists i: nat :: Holds(s.phases, i, p))
      && forall i: nat, j: nat :: Holds(s.phases, i, p) && Holds(s.phases, j, p) ==> i == j
  {
    RunKeepsInv(calls, schedule);
    var s := Run(calls, schedule);
    assert Accounted(s.pools, s.phases, p);
  }

  ghost predicate AllOver(phases: Phases) {
    forall i: nat :: PhaseOf(phases, i).Idle? || PhaseOf(phases, i).Done?
  }

  // When no call is under way, every pool ever opened is either current or closed, once.
  lemma NoPoolLeaks(calls: nat -> Call, schedule: seq<Event>, p: nat)
    requires var s := Run(calls, schedule); p < s.pools.created && AllOver(s.phases)
    ensures var s := Run(calls, schedule);
      (s.pools.current == Some(p) && s.pools.closes[p] == 0) || (s.pools.current != Some(p) && s.pools.closes[p] == 1)
  {
    RunKeepsInv(calls, schedule);
    NothingHeld(calls, Run(calls, schedule), p);
  }

  lemma NothingHeld(calls: nat -> Call, s: State, p: nat)
    requires Inv(calls, s) && AllOver(s.phases) && p < s.pools.created
    ensures if s.pools.current == Some(p) then s.pools.closes[p] == 0 else s.pools.closes[p] == 1
  {
    assert Accounted(s.pools, s.phases, p);
    forall i: nat ensures !Holds(s.phases, i, p) {
      assert PhaseOf(s.phases, i).Idle? || PhaseOf(s.phases, i).Done?;
    }
  }

  lemma HeartbeatsAreStopped(calls: nat -> Call, schedule: seq<Event>)
    ensures var h := Run(calls, schedule).heart;
      && (forall c: nat :: h.signals[c] <= 1)
      && (forall k :: 0 <= k < |h.heartbeats| - 1 ==> h.signals[h.heartbeats[k]] == 1)
      && (h.ticking <==> h.heartbeats != [] && h.signals[h.heartbeats[|h.heartbeats| - 1]] == 0)
  {
    RunKeepsInv(calls, schedule);
  }

  // A shutdown that stops the heartbeat leaves none running unsignalled.
  lemma ShutdownStopsHeartbeats(calls: nat -> Call, first: seq<Event>, i: nat, ok: bool)
    requires calls(i).Shutdown? && PhaseOf(Run(calls, first).phases, i).Cancelled?
    ensures var h := Run(calls, first + [Event(i, ok)]).heart;
      !h.ticking && forall k :: 0 <= k < |h.heartbeats| ==> h.signals[h.heartbeats[k]] == 1
  {
    RunSnoc(calls, first, Event(i, ok));
    HeartbeatsAreStopped(calls, first + [Event(i, ok)]);
  }

  // A start gives the manager a heartbeat of its own, the only one not told to stop.
  lemma StartRunsHeartbeat(calls: nat -> Call, first: seq<Event>, i: nat, ok: bool)
    requires calls(i).StartHeartbeat? && PhaseOf(Run(calls, first).phases, i).Idle?
    ensures var g, h := Run(calls, first).heart, Run(calls, first + [Event(i, ok)]).heart;
      && |h.heartbeats| == |g.heartbeats| + 1 && h.ticking
      && h.signals[h.heartbeats[|h.heartbeats| - 1]] == 0
      && forall k :: 0 <= k < |g.heartbeats| ==> h.signals[h.heartbeats[k]] == 1
  {
    RunSnoc(calls, first, Event(i, ok));
    HeartbeatsAreStopped(calls, first + [Event(i, ok)]);
  }

  // ---------- Every call ends ----------

  // An upper bound on the actions a call still has to do.
  function ActionsLeft(call: Call, phase: Phase): int {
    match phase
    case Idle => if call.Reconnect? then 2 * MAX_RECONNECT_RETRY + 4 else 3
    case Trying(attempt) => 2 * (MAX_RECONNECT_RETRY - attempt) + 3
    case Connecting(attempt) => 2 * (MAX_RECONNECT_RETRY - attempt) + 2
    case Connected(_) => if call.Reconnect? then 3 else 2
    case Retiring(_, _) => if call.Reconnect? then 2 else 1
    case Cancelled => 2
    case Done => 0
    case _ => 1
  }

  lemma OthersStay(calls: nat -> Call, s: State, e: Event, i: nat)
    requires e.call != i
    ensures PhaseOf(Act(calls, s, e).phases, i) == PhaseOf(s.phases, i)
  {}

  lemma ActionIsProgress(calls: nat -> Call, s: State, e: Event)
    requires PhasesFit(calls, s.phases)
    ensures var before, after := PhaseOf(s.phases, e.call), PhaseOf(Act(calls, s, e).phases, e.call);
      ActionsLeft(calls(e.call), after) <= (if before.Done? then 0 else ActionsLeft(calls(e.call), before) - 1)
  {
    assert PhaseFits(calls(e.call), PhaseOf(s.phases, e.call));
  }

  function ActionsBy(schedule: seq<Event>, i: nat): nat {
    if schedule == [] then 0
    else ActionsBy(schedule[..|schedule| - 1], i) + if schedule[|schedule| - 1].call == i then 1 else 0
  }

  // Whatever the others do, a reconnect is over after 14 actions of its own, and the flag
  // with it; any other call after 3.
  lemma {:induction false} CallsEnd(calls: nat -> Call, schedule: seq<Event>, i: nat)
    ensures var left := ActionsLeft(calls(i), Idle) - ActionsBy(schedule, i);
      var phase := PhaseOf(Run(calls, schedule).phases, i);
      ActionsLeft(calls(i), phase) <= (if left > 0 then left else 0) && (left <= 0 ==> phase.Done?)
  {
    if schedule != [] {
      var s := Run(calls, schedule[..|schedule| - 1]);
      CallsEnd(calls, schedule[..|schedule| - 1], i);
      RunKeepsInv(calls, schedule[..|schedule| - 1]);
      var e := schedule[|schedule| - 1];
      if e.call == i { ActionIsProgress(calls, s, e); } else { OthersStay(calls, s, e, i); }
      ActKeepsPhases(calls, s, e);
      NothingLeftIsDone(calls, Act(calls, s, e).phases, i);
    }
  }

  lemma NothingLeftIsDone(calls: nat -> Call, phases: Phases, i: nat)
    requires PhasesFit(calls, phases)
    ensures ActionsLeft(calls(i), PhaseOf(phases, i)) <= 0 <==> PhaseOf(phases, i).Done?
  {
    assert PhaseFits(calls(i), PhaseOf(phases, i));
  }

  // ---------- After a shutdown ----------

  lemma {:induction false} RunAppend(calls: nat -> Call, s: State, first: seq<Event>, second: seq<Event>)
    ensures RunFrom(calls, s, first + second) == RunFrom(calls, RunFrom(calls, s, first), second)
  {
    if second == [] {
      assert first + second == first;
    } else {
      var n := |second| - 1;
      RunAppend(calls, s, first, second[..n]);
      assert (first + second)[..|first + second| - 1] == first + second[..n];
    }
  }

  // The call can still install a pool although everything is cancelled: a reconnect past
  // its check, or an adoption, which makes none.
  predicate CanInstall(call: Call, phase: Phase) {
    match call
    case Reconnect => phase.Connecting? || phase.Connected?
    case Adopt => phase.Idle? || phase.Connected?
    case _ => false
  }

  ghost predicate SomeCanInstall(calls: nat -> Call, phases: Phases) {
    exists i: nat :: CanInstall(calls(i), PhaseOf(phases, i))
  }

  ghost predicate AllClosed(p: Pools) {
    forall k: nat :: k < p.created ==> p.closes[k] == 1
  }

  lemma AllClosedIff(calls: nat -> Call, s: State)
    requires Inv(calls, s) && AllOver(s.phases)
    ensures AllClosed(s.pools) <==> s.pools.current == None
  {
    if s.pools.current == None {
      forall p: nat | p < s.pools.created ensures s.pools.closes[p] == 1 { NothingHeld(calls, s, p); }
    }
  }

  // Cancelled, without a pool, and with nobody to install one.
  ghost predicate Settled(calls: nat -> Call, s: State) {
    s.cancelled && s.pools.current == None && !SomeCanInstall(calls, s.phases)
  }

  lemma ActKeepsSettled(calls: nat -> Call, s: State, e: Event)
    requires Inv(calls, s) && Settled(calls, s)
    ensures Settled(calls, Act(calls, s, e)) && Act(calls, s, e).pools.installed == s.pools.installed
  {
    var t := Act(calls, s, e);
    ActKeepsCancel(calls, s, e);
    assert PhaseFits(calls(e.call), PhaseOf(s.phases, e.call)) && !CanInstall(calls(e.call), PhaseOf(s.phases, e.call));
    forall i: nat ensures !CanInstall(calls(i), PhaseOf(t.phases, i)) {
      assert !CanInstall(calls(i), PhaseOf(s.phases, i));
      if i != e.call { OthersStay(calls, s, e, i); }
    }
  }

  lemma {:induction false} SettledForGood(calls: nat -> Call, s: State, schedule: seq<Event>)
    requires Inv(calls, s) && Settled(calls, s)
    ensures var t := RunFrom(calls, s, schedule);
      Inv(calls, t) && Settled(calls, t) && t.pools.installed == s.pools.installed
  {
    if schedule != [] {
      var front := schedule[..|schedule| - 1];
      SettledForGood(calls, s, front);
      ActKeepsInv(calls, RunFrom(calls, s, front), schedule[|schedule| - 1]);
      ActKeepsSettled(calls, RunFrom(calls, s, front), schedule[|schedule| - 1]);
    }
  }

  // The call will have installed a pool that is still current, if it alone acts from here
  // on and connects.
  predicate WillInstall(call: Call, s: State, i: nat) {
    var phase := PhaseOf(s.phases, i);
    CanInstall(call, phase) || ((phase.Retiring? || phase.Releasing? || phase.Done?) && s.pools.current.Some?)
  }

  lemma StillWillInstall(calls: nat -> Call, s: State, i: nat)
    requires PhasesFit(calls, s.phases) && WillInstall(calls(i), s, i)
    ensures WillInstall(calls(i), Act(calls, s, Event(i, true)), i)
  {
    assert PhaseFits(calls(i), PhaseOf(s.phases, i));
  }

  lemma OnlyOneMoves(calls: nat -> Call, s: State, e: Event)
    ensures forall j: nat :: j != e.call ==> PhaseOf(Act(calls, s, e).phases, j) == PhaseOf(s.phases, j)
  {
    forall j: nat | j != e.call ensures PhaseOf(Act(calls, s, e).phases, j) == PhaseOf(s.phases, j) {
      OthersStay(calls, s, e, j);
    }
  }

  lemma RunCons(calls: nat -> Call, s: State, e: Event, rest: seq<Event>)
    ensures RunFrom(calls, s, [e] + rest) == RunFrom(calls, Act(calls, s, e), rest)
  {
    RunAppend(calls, s, [e], rest);
    assert [e][..0] == [] && RunFrom(calls, s, []) == s;
  }

  // A call that acts alone ends.
  lemma {:induction false} FinishCall(calls: nat -> Call, s: State, i: nat) returns (schedule: seq<Event>)
    requires Inv(calls, s)
    ensures var t := RunFrom(calls, s, schedule);
      && Inv(calls, t) && PhaseOf(t.phases, i).Done?
      && (forall j: nat :: j != i ==> PhaseOf(t.phases, j) == PhaseOf(s.phases, j))
      && (WillInstall(calls(i), s, i) ==> WillInstall(calls(i), t, i))
    decreases ActionsLeft(calls(i), PhaseOf(s.phases, i))
  {
    NothingLeftIsDone(calls, s.phases, i);
    schedule := [];
    if !PhaseOf(s.phases, i).Done? {
      var e := Event(i, true);
      var next := Act(calls, s, e);
      ActKeepsInv(calls, s, e);
      ActionIsProgress(calls, s, e);
      OnlyOneMoves(calls, s, e);
      if WillInstall(calls(i), s, i) { StillWillInstall(calls, s, i); }
      var rest := FinishCall(calls, next, i);
      schedule := [e] + rest;
      RunCons(calls, s, e, rest);
    }
  }

  // All calls under way but one end, one after the other.
  lemma {:induction false} FinishOthers(calls: nat -> Call, s: State, i: nat, busy: set<nat>) returns (schedule: seq<Event>)
    requires Inv(calls, s) && i !in busy
    requires forall j: nat :: j != i && !PhaseOf(s.phases, j).Idle? && !PhaseOf(s.phases, j).Done? ==> j in busy
    ensures var t := RunFrom(calls, s, schedule);
      && Inv(calls, t) && PhaseOf(t.phases, i) == PhaseOf(s.phases, i)
      && forall j: nat :: j != i ==> PhaseOf(t.phases, j).Idle? || PhaseOf(t.phases, j).Done?
    decreases |busy|
  {
    schedule := [];
    if j :| j in busy {
      var first := FinishCall(calls, s, j);
      var t := RunFrom(calls, s, first);
      var rest := FinishOthers(calls, t, i, busy - {j});
      schedule := first + rest;
      RunAppend(calls, s, first, rest);
    }
  }

  // A call that can install a pool may do so last of all, and then nobody closes it.
  lemma LeftOpen(calls: nat -> Call, s: State, i: nat) returns (schedule: seq<Event>)
    requires Inv(calls, s) && CanInstall(calls(i), PhaseOf(s.phases, i))
    ensures var t := RunFrom(calls, s, schedule);
      && AllOver(t.phases) && t.pools.current.Some? && t.pools.closes[t.pools.current.value] == 0
      && !AllClosed(t.pools)
  {
    var first := FinishOthers(calls, s, i, s.phases.Keys - {i});
    var t := RunFrom(calls, s, first);
    var second := FinishCall(calls, t, i);
    schedule := first + second;
    RunAppend(calls, s, first, second);
    AllClosedIff(calls, RunFrom(calls, s, schedule));
  }

  // Once a shutdown has closed the pool, every pool will be closed when all calls are
  // over, whatever happens until then, exactly if no call under way or still to come can
  // install one: cancelling stops a reconnect's next attempt, not the present one.
  lemma ShutdownClosesAllIff(calls: nat -> Call, first: seq<Event>, i: nat, ok: bool)
    requires calls(i).Shutdown? && PhaseOf(Run(calls, first).phases, i).Stopped?
    ensures var s := Run(calls, first + [Event(i, ok)]);
      (forall second :: AllOver(RunFrom(calls, s, second).phases) ==> AllClosed(RunFrom(calls, s, second).pools))
      <==> !SomeCanInstall(calls, s.phases)
    ensures var s := Run(calls, first + [Event(i, ok)]);
      !SomeCanInstall(calls, s.phases) ==>
        forall second :: RunFrom(calls, s, second).pools.installed == s.pools.installed
  {
    var s := Run(calls, first + [Event(i, ok)]);
    RunSnoc(calls, first, Event(i, ok));
    RunKeepsInv(calls, first);
    ActKeepsInv(calls, Run(calls, first), Event(i, ok));
    if !SomeCanInstall(calls, s.phases) {
      forall second
        ensures RunFrom(calls, s, second).pools.installed == s.pools.installed
        ensures AllOver(RunFrom(calls, s, second).phases) ==> AllClosed(RunFrom(calls, s, second).pools)
      {
        SettledForGood(calls, s, second);
        if AllOver(RunFrom(calls, s, second).phases) { AllClosedIff(calls, RunFrom(calls, s, second)); }
      }
    } else {
      var j: nat :| CanInstall(calls(j), PhaseOf(s.phases, j));
      var second := LeftOpen(calls, s, j);
    }
  }

  lemma RunSnoc(calls: nat -> Call, schedule: seq<Event>, e: Event)
    ensures Run(calls, schedule + [e]) == Act(calls, Run(calls, schedule), e)
  {
    assert (schedule + [e])[..|schedule|] == schedule;
  }

  // A reconnect passes its check.
  lemma RaceBegins(calls: nat -> Call, i: nat) returns (schedule: seq<Event>)
    requires calls(i).Reconnect?
    ensures Run(calls, schedule) == START.(reconnecting := true, phases := map[i := Connecting(0)])
  {
    var r := Event(i, true);
    var first: seq<Event> := [];
    RunSnoc(calls, first, r);
    var second := first + [r];
    assert Run(calls, second).phases == map[i := Trying(0)];
    RunSnoc(calls, second, r);
    schedule := second + [r];
    assert Run(calls, schedule).phases == map[i := Connecting(0)];
  }

  // Then a shutdown runs.
  lemma ShutdownRuns(calls: nat -> Call, before: seq<Event>, i: nat, j: nat) returns (schedule: seq<Event>)
    requires calls(j).Shutdown? && i != j
    requires Run(calls, before) == START.(reconnecting := true, phases := map[i := Connecting(0)])
    ensures var s := Run(calls, schedule);
      && s.reconnecting && s.pools == START.pools && s.phases == map[i := Connecting(0), j := Done]
  {
    var d := Event(j, true);
    RunSnoc(calls, before, d);
    var first := before + [d];
    assert Run(calls, first).phases == map[i := Connecting(0), j := Cancelled];
    RunSnoc(calls, first, d);
    var second := first + [d];
    assert Run(calls, second).phases == map[i := Connecting(0), j := Stopped];
    RunSnoc(calls, second, d);
    schedule := second + [d];
    assert Run(calls, schedule).phases == map[i := Connecting(0), j := Done];
  }

  // It does happen: the reconnect goes on to install a pool that nobody will close.
  lemma PoolMayOutliveShutdown(calls: nat -> Call, i: nat, j: nat) returns (schedule: seq<Event>)
    requires calls(i).Reconnect? && calls(j).Shutdown?
    ensures var s := Run(calls, schedule);
      && PhaseOf(s.phases, j) == Done && AllOver(s.phases)
      && s.pools.current.Some? && s.pools.closes[s.pools.current.value] == 0
  {
    var passed := RaceBegins(calls, i);
    var first := ShutdownRuns(calls, passed, i, j);
    var s := Run(calls, first);
    RunKeepsInv(calls, first);
    assert PhaseOf(s.phases, i) == Connecting(0) && PhaseOf(s.phases, j) == Done;
    var second := LeftOpen(calls, s, i);
    schedule := first + second;
    RunAppend(calls, START, first, second);
    DoneStays(calls, s, second, j);
  }

  lemma {:induction false} DoneStays(calls: nat -> Call, s: State, schedule: seq<Event>, i: nat)
    requires PhaseOf(s.phases, i).Done?
    ensures PhaseOf(RunFrom(calls, s, schedule).phases, i).Done?
  {
    if schedule != [] {
      var t, e := RunFrom(calls, s, schedule[..|schedule| - 1]), schedule[|schedule| - 1];
      DoneStays(calls, s, schedule[..|schedule| - 1], i);
      if e.call == i {
        assert ActionOf(calls, t, e).Stay?;
      } else {
        OthersStay(calls, t, e, i);
      }
    }
  }

  // ---------- The methods among other calls ----------

  // Call i takes n actions, the others those of during(k) between its kth and its next; its
  // kth action connects, if it is an attempt to, when connects(k) says so.
  function Turns(i: nat, connects: nat -> bool, during: nat -> seq<Event>, n: nat): seq<Event> {
    if n == 0 then during(0)
    else Turns(i, connects, during, n - 1) + [Event(i, connects(n - 1))] + during(n)
  }

  ghost predicate OthersOnly(during: nat -> seq<Event>, i: nat) {
    forall k: nat, e :: e in during(k) ==> e.call != i
  }

  lemma TurnsStep(calls: nat -> Call, s: State, i: nat, connects: nat -> bool, during: nat -> seq<Event>, n: nat)
    ensures RunFrom(calls, s, Turns(i, connects, during, n + 1)) ==
      RunFrom(calls, Act(calls, RunFrom(calls, s, Turns(i, connects, during, n)), Event(i, connects(n))), during(n + 1))
  {
    var before, own := Turns(i, connects, during, n), [Event(i, connects(n))];
    RunAppend(calls, s, before + own, during(n + 1));
    RunAppend(calls, s, before, own);
    assert own[..0] == [] && RunFrom(calls, RunFrom(calls, s, before), []) == RunFrom(calls, s, before);
  }

  lemma {:induction false} OthersLeave(calls: nat -> Call, s: State, schedule: seq<Event>, i: nat)
    requires forall e :: e in schedule ==> e.call != i
    ensures PhaseOf(RunFrom(calls, s, schedule).phases, i) == PhaseOf(s.phases, i)
  {
    if schedule != [] {
      var front := schedule[..|schedule| - 1];
      OthersLeave(calls, s, front, i);
      OthersStay(calls, RunFrom(calls, s, front), schedule[|schedule| - 1], i);
    }
  }

  // ---------- A reconnect goes on until it connects ----------

  // Other calls have acted: the call stands where it stood, what was cancelled stays
  // cancelled, and pools that were opened or installed stay so.
  ghost predicate OthersActed(i: nat, a: State, b: State) {
    && PhaseOf(b.phases, i) == PhaseOf(a.phases, i) && (a.cancelled ==> b.cancelled)
    && a.pools.installed <= b.pools.installed && a.pools.created <= b.pools.created
  }

  lemma OneOtherActs(calls: nat -> Call, s: State, e: Event, i: nat)
    requires e.call != i
    ensures OthersActed(i, s, Act(calls, s, e))
  {
    OthersStay(calls, s, e, i);
  }

  lemma {:induction false} OthersAct(calls: nat -> Call, s: State, schedule: seq<Event>, i: nat)
    requires forall e :: e in schedule ==> e.call != i
    ensures OthersActed(i, s, RunFrom(calls, s, schedule))
  {
    if schedule != [] {
      var front := schedule[..|schedule| - 1];
      OthersAct(calls, s, front, i);
      OneOtherActs(calls, RunFrom(calls, s, front), schedule[|schedule| - 1], i);
    }
  }

  // found(k) is the state that the call finds for its kth action.
  ghost predicate ActsAt(calls: nat -> Call, i: nat, connects: nat -> bool, found: nat -> State, k: nat) {
    OthersActed(i, Act(calls, found(k), Event(i, connects(k))), found(k + 1))
  }

  // Where the call stands before its kth action while it tries: nobody cancels, and none of
  // its attempts so far has connected.
  function TryingPhase(k: nat): Phase {
    if k == 0 then Idle
    else if k > 10 then Releasing
    else if k % 2 == 1 then Trying(k / 2)
    else Connecting(k / 2 - 1)
  }

  lemma TriesOnce(calls: nat -> Call, i: nat, ok: bool, a: State, b: State, k: nat)
    requires calls(i).Reconnect? && k < 11 && PhaseOf(a.phases, i) == TryingPhase(k) && !a.cancelled
    requires (k == 0 ==> !a.reconnecting) && (k >= 2 && k % 2 == 0 ==> !ok)
    requires OthersActed(i, Act(calls, a, Event(i, ok)), b)
    ensures PhaseOf(b.phases, i) == TryingPhase(k + 1)
  {}

  lemma {:induction false} KeepsTrying(calls: nat -> Call, i: nat, connects: nat -> bool, found: nat -> State, k: nat)
    requires calls(i).Reconnect? && k <= 11 && PhaseOf(found(0).phases, i).Idle? && !found(0).reconnecting
    requires forall m: nat {:trigger ActsAt(calls, i, connects, found, m)} :: m < k ==> ActsAt(calls, i, connects, found, m)
    requires forall m: nat :: m < k ==> !found(m).cancelled
    requires forall a: nat :: a < 5 && 2 * a + 2 < k ==> !connects(2 * a + 2)
    ensures PhaseOf(found(k).phases, i) == TryingPhase(k)
  {
    if k > 0 {
      var m := k - 1;
      KeepsTrying(calls, i, connects, found, m);
      assert m >= 2 && m % 2 == 0 ==> !connects(2 * (m / 2 - 1) + 2);
      assert ActsAt(calls, i, connects, found, m);
      TriesOnce(calls, i, connects(m), found(m), found(k), m);
    }
  }

  // Connected, the call makes its new pool the current one, closes the old one and lowers
  // the flag, whatever is cancelled meanwhile.
  lemma ConnectedGoesOn(calls: nat -> Call, i: nat, connects: nat -> bool, found: nat -> State, k: nat)
    requires calls(i).Reconnect? && PhaseOf(found(k).phases, i).Connecting? && connects(k)
    requires ActsAt(calls, i, connects, found, k) && ActsAt(calls, i, connects, found, k + 1)
    requires ActsAt(calls, i, connects, found, k + 2) && ActsAt(calls, i, connects, found, k + 3)
    ensures PhaseOf(found(k + 4).phases, i).Done? && found(k).pools.created in found(k + 4).pools.installed
  {
    var pool := found(k).pools.created;
    assert PhaseOf(found(k + 1).phases, i) == Connected(pool);
    InstallsIt(calls, i, connects(k + 1), found(k + 1), found(k + 2), pool);
    RetiresAndReleases(calls, i, connects, found, k + 2);
  }

  lemma InstallsIt(calls: nat -> Call, i: nat, ok: bool, a: State, b: State, pool: nat)
    requires calls(i).Reconnect? && PhaseOf(a.phases, i) == Connected(pool)
    requires OthersActed(i, Act(calls, a, Event(i, ok)), b)
    ensures PhaseOf(b.phases, i).Retiring? && pool in b.pools.installed
  {}

  lemma RetiresAndReleases(calls: nat -> Call, i: nat, connects: nat -> bool, found: nat -> State, k: nat)
    requires calls(i).Reconnect? && PhaseOf(found(k).phases, i).Retiring?
    requires ActsAt(calls, i, connects, found, k) && ActsAt(calls, i, connects, found, k + 1)
    ensures PhaseOf(found(k + 2).phases, i).Done? && found(k).pools.installed <= found(k + 2).pools.installed
  {
    assert PhaseOf(found(k + 1).phases, i) == Releasing && found(k).pools.installed <= found(k + 1).pools.installed;
  }

  lemma ConnectsAtLast(calls: nat -> Call, i: nat, connects: nat -> bool, found: nat -> State, n: nat)
    requires calls(i).Reconnect? && PhaseOf(found(0).phases, i).Idle? && !found(0).reconnecting
    requires forall m: nat :: m < 2 * n + 2 ==> !found(m).cancelled
    requires forall m: nat {:trigger ActsAt(calls, i, connects, found, m)} ::
      m < 2 * n + 6 ==> ActsAt(calls, i, connects, found, m)
    requires n < 5 && connects(2 * n + 2) && forall a: nat :: a < n ==> !connects(2 * a + 2)
    ensures PhaseOf(found(2 * n + 6).phases, i).Done?
    ensures found(2 * n + 2).pools.created in found(2 * n + 6).pools.installed
  {
    KeepsTrying(calls, i, connects, found, 2 * n + 2);
    assert TryingPhase(2 * n + 2).Connecting?;
    ConnectedGoesOn(calls, i, connects, found, 2 * n + 2);
  }

  // The state that call i finds for its kth action.
  ghost function Found(calls: nat -> Call, s: State, i: nat, connects: nat -> bool, during: nat -> seq<Event>): nat -> State {
    (k: nat) => RunFrom(calls, s, Turns(i, connects, during, k))
  }

  lemma FoundActs(calls: nat -> Call, s: State, i: nat, connects: nat -> bool, during: nat -> seq<Event>, k: nat)
    requires OthersOnly(during, i)
    ensures ActsAt(calls, i, connects, Found(calls, s, i, connects, during), k)
  {
    TurnsStep(calls, s, i, connects, during, k);
    OthersAct(calls, Act(calls, RunFrom(calls, s, Turns(i, connects, during, k)), Event(i, connects(k))), during(k + 1), i);
  }

  // A reconnect that finds the flag down, and is not cancelled while it tries, tries up to
  // five times. If the nth attempt is the first to connect, then, whatever others do, the
  // pool it opens is installed, and the call is done four actions later.
  lemma ReconnectConnects(calls: nat -> Call, s: State, i: nat, connects: nat -> bool, during: nat -> seq<Event>, n: nat)
    requires calls(i).Reconnect? && OthersOnly(during, i) && PhaseOf(s.phases, i).Idle?
    requires n < 5 && connects(2 * n + 2) && forall a: nat :: a < n ==> !connects(2 * a + 2)
    requires var found := Found(calls, s, i, connects, during);
      !found(0).reconnecting && forall m: nat :: m < 2 * n + 2 ==> !found(m).cancelled
    ensures var found := Found(calls, s, i, connects, during);
      && PhaseOf(found(2 * n + 6).phases, i).Done?
      && found(2 * n + 2).pools.created in found(2 * n + 6).pools.installed
  {
    var found := Found(calls, s, i, connects, during);
    forall m: nat ensures ActsAt(calls, i, connects, found, m) {
      FoundActs(calls, s, i, connects, during, m);
    }
    OthersAct(calls, s, during(0), i);
    ConnectsAtLast(calls, i, connects, found, n);
  }

  lemma {:induction false} RunKeepsHeart(calls: nat -> Call, s: State, schedule: seq<Event>)
    requires HeartOk(s.heart)
    ensures HeartOk(RunFrom(calls, s, schedule).heart)
  {
    if schedule != [] {
      var front := schedule[..|schedule| - 1];
      RunKeepsHeart(calls, s, front);
      ActKeepsHeart(calls, RunFrom(calls, s, front), schedule[|schedule| - 1]);
    }
  }

  // What has become of pools, stop channels and heartbeats, and where every call stands.
  datatype World = World(created: nat, installed: set<nat>, closes: multiset<nat>, signals: multiset<nat>,
                         heartbeats: seq<nat>, phases: Phases)

  class DatabaseManager {
    var db: Option<nat>
    var heartbeatTicker: bool
    var heartbeatStop: nat
    var reconnecting: bool
    var cancelled: bool
    var world: World

    constructor ()
      ensures View() == START
    {
      db, heartbeatTicker, heartbeatStop, reconnecting, cancelled := None, false, 0, false, false;
      world := World(0, {}, multiset{}, multiset{}, [], map[]);
    }

    function View(): State
      reads this
    {
      State(reconnecting, cancelled, Pools(db, world.created, world.installed, world.closes),
            Heart(heartbeatTicker, heartbeatStop, world.signals, world.heartbeats), world.phases)
    }

    function At(i: nat): Phase
      reads this
    {
      PhaseOf(world.phases, i)
    }

    // Other calls act.
    method Others(calls: nat -> Call, schedule: seq<Event>)
      modifies this
      ensures View() == RunFrom(calls, old(View()), schedule)
    {
      var s := RunFrom(calls, View(), schedule);
      db, heartbeatTicker, heartbeatStop := s.pools.current, s.heart.ticking, s.heart.stop;
      reconnecting, cancelled := s.reconnecting, s.cancelled;
      world := World(s.pools.created, s.pools.installed, s.pools.closes, s.heart.signals, s.heart.heartbeats, s.phases);
    }

    // Before the first action of call i the others take their turn.
    method Begin(calls: nat -> Call, i: nat, connects: nat -> bool, during: nat -> seq<Event>)
      requires OthersOnly(during, i)
      modifies this
      ensures View() == RunFrom(calls, old(View()), Turns(i, connects, during, 0)) && At(i) == old(At(i))
    {
      OthersLeave(calls, View(), during(0), i);
      Others(calls, during(0));
    }

    // Call i has just taken its nth action since state s, and the others take their turn.
    method Yield(calls: nat -> Call, i: nat, connects: nat -> bool, during: nat -> seq<Event>, n: nat, ghost s: State)
      requires OthersOnly(during, i)
      requires View() == Act(calls, RunFrom(calls, s, Turns(i, connects, during, n)), Event(i, connects(n)))
      modifies this
      ensures View() == RunFrom(calls, s, Turns(i, connects, during, n + 1)) && At(i) == old(At(i))
    {
      TurnsStep(calls, s, i, connects, during, n);
      OthersLeave(calls, View(), during(n + 1), i);
      Others(calls, during(n + 1));
    }

    method MoveTo(i: nat, next: Phase)
      modifies this`world
      ensures View() == old(View()).(phases := old(View()).phases[i := next])
    {
      world := world.(phases := world.phases[i := next]);
    }

    // Closing a channel twice would end the program.
    method CloseStop()
      requires world.signals[heartbeatStop] == 0
      modifies this`world
      ensures world == old(world).(signals := old(world).signals + multiset{heartbeatStop})
    {
      world := world.(signals := world.signals + multiset{heartbeatStop});
    }

    // The mutex is held.
    method StopHeartbeat()
      requires HeartOk(View().heart)
      modifies this`heartbeatTicker, this`heartbeatStop, this`world
      ensures View() == old(View()).(heart := StopTicker(old(View()).heart))
    {
      if heartbeatTicker {
        heartbeatTicker := false;
        CloseStop();
        heartbeatStop := heartbeatStop + 1;
      }
    }

    method ClosePool(previous: Option<nat>, replacement: nat)
      modifies this`world
      ensures View() == old(View()).(pools := RetirePool(old(View()).pools, previous, replacement))
    {
      if previous.None? || previous.value == replacement {
        return;
      }
      world := world.(closes := world.closes + multiset{previous.value});
    }

    // ---------- What is atomic ----------

    method StartLocked(calls: nat -> Call, i: nat, ok: bool)
      requires HeartOk(View().heart) && calls(i).StartHeartbeat? && At(i).Idle?
      modifies this
      ensures View() == Act(calls, old(View()), Event(i, ok)) && At(i).Done?
    {
      StopHeartbeat();
      heartbeatTicker := true;
      var stopChan := heartbeatStop;
      world := world.(heartbeats := world.heartbeats + [stopChan]);
      MoveTo(i, Done);
    }

    method Exchange(newDB: nat, calls: nat -> Call, i: nat, ok: bool) returns (oldDB: Option<nat>)
      requires (calls(i).Adopt? || calls(i).Reconnect?) && At(i) == Connected(newDB)
      modifies this
      ensures oldDB == old(db) && View() == Act(calls, old(View()), Event(i, ok)) && At(i) == Retiring(oldDB, newDB)
    {
      oldDB := db;
      db := Some(newDB);
      world := world.(installed := world.installed + {newDB});
      MoveTo(i, Retiring(oldDB, newDB));
    }

    method CloseOld(oldDB: Option<nat>, newDB: nat, calls: nat -> Call, i: nat, ok: bool)
      requires (calls(i).Adopt? || calls(i).Reconnect?) && At(i) == Retiring(oldDB, newDB)
      modifies this
      ensures View() == Act(calls, old(View()), Event(i, ok)) && At(i) == if calls(i).Adopt? then Done else Releasing
    {
      ClosePool(oldDB, newDB);
      MoveTo(i, if calls(i).Adopt? then Done else Releasing);
    }

    method Cancel(calls: nat -> Call, i: nat, ok: bool)
      requires calls(i).Shutdown? && At(i).Idle?
      modifies this
      ensures View() == Act(calls, old(View()), Event(i, ok)) && At(i).Cancelled?
    {
      cancelled := true;
      MoveTo(i, Cancelled);
    }

    method StopLocked(calls: nat -> Call, i: nat, ok: bool)
      requires HeartOk(View().heart) && calls(i).Shutdown? && At(i).Cancelled?
      modifies this
      ensures View() == Act(calls, old(View()), Event(i, ok)) && At(i).Stopped?
    {
      StopHeartbeat();
      MoveTo(i, Stopped);
    }

    method CloseLocked(calls: nat -> Call, i: nat, ok: bool)
      requires calls(i).Shutdown? && At(i).Stopped?
      modifies this
      ensures View() == Act(calls, old(View()), Event(i, ok)) && At(i).Done?
    {
      if db.Some? {
        world := world.(closes := world.closes + multiset{db.value});
        db := None;
      }
      MoveTo(i, Done);
    }

    method RaiseFlag(calls: nat -> Call, i: nat, ok: bool) returns (raised: bool)
      requires calls(i).Reconnect? && At(i).Idle?
      modifies this
      ensures View() == Act(calls, old(View()), Event(i, ok)) && At(i) == if raised then Trying(0) else Done
    {
      if reconnecting {
        MoveTo(i, Done);
        return false;
      }
      reconnecting := true;
      MoveTo(i, Trying(0));
      return true;
    }

    method LowerFlag(calls: nat -> Call, i: nat, ok: bool)
      requires calls(i).Reconnect? && At(i).Releasing?
      modifies this
      ensures View() == Act(calls, old(View()), Event(i, ok)) && At(i).Done?
    {
      reconnecting := false;
      MoveTo(i, Done);
    }

    method IsCancelled(attempt: nat, calls: nat -> Call, i: nat, ok: bool) returns (stop: bool)
      requires calls(i).Reconnect? && At(i) == Trying(attempt)
      modifies this
      ensures View() == Act(calls, old(View()), Event(i, ok)) && At(i) == if stop then Releasing else Connecting(attempt)
    {
      stop := cancelled;
      MoveTo(i, if stop then Releasing else Connecting(attempt));
    }

    method Connect(attempt: nat, calls: nat -> Call, i: nat, ok: bool) returns (newDB: Option<nat>)
      requires calls(i).Reconnect? && At(i) == Connecting(attempt)
      modifies this
      ensures View() == Act(calls, old(View()), Event(i, ok))
      ensures newDB.Some? ==> At(i) == Connected(newDB.value)
      ensures newDB.None? ==> At(i) == if attempt + 1 < MAX_RECONNECT_RETRY then Trying(attempt + 1) else Releasing
    {
      if !ok {
        MoveTo(i, if attempt + 1 < MAX_RECONNECT_RETRY then Trying(attempt + 1) else Releasing);
        return None;
      }
      newDB := Some(world.created);
      world := world.(created := world.created + 1);
      MoveTo(i, Connected(newDB.value));
    }

    // ---------- The methods ----------

    // Every execution of a method among other calls is a run in which it is call i.
    method StartHeartbeat(calls: nat -> Call, i: nat, connects: nat -> bool, during: nat -> seq<Event>) returns (n: nat)
      requires HeartOk(View().heart) && OthersOnly(during, i) && calls(i).StartHeartbeat? && At(i).Idle?
      modifies this
      ensures View() == RunFrom(calls, old(View()), Turns(i, connects, during, n)) && At(i).Done?
    {
      ghost var s := View();
      Begin(calls, i, connects, during);
      RunKeepsHeart(calls, s, Turns(i, connects, during, 0));
      StartLocked(calls, i, connects(0));
      Yield(calls, i, connects, during, 0, s);
      n := 1;
    }

    // A new pool becomes current, and then the one it replaces is closed.
    method HandOver(newDB: nat, calls: nat -> Call, i: nat, connects: nat -> bool, during: nat -> seq<Event>, taken: nat,
                    ghost s: State)
      returns (oldDB: Option<nat>, n: nat)
      requires OthersOnly(during, i) && (calls(i).Adopt? || calls(i).Reconnect?) && At(i) == Connected(newDB)
      requires View() == RunFrom(calls, s, Turns(i, connects, during, taken))
      modifies this
      ensures oldDB == old(db) && At(i) == if calls(i).Adopt? then Done else Releasing
      ensures View() == RunFrom(calls, s, Turns(i, connects, during, n))
    {
      n := taken;
      oldDB := Exchange(newDB, calls, i, connects(n));
      Yield(calls, i, connects, during, n, s);
      n := n + 1;
      CloseOld(oldDB, newDB, calls, i, connects(n));
      Yield(calls, i, connects, during, n, s);
      n := n + 1;
    }

    // The pool to adopt has been opened by the caller.
    method AdoptConnection(newDB: Option<nat>, calls: nat -> Call, i: nat, connects: nat -> bool, during: nat -> seq<Event>)
      returns (oldDB: Option<nat>, n: nat)
      requires OthersOnly(during, i) && calls(i).Adopt?
      requires newDB.Some? ==> At(i) == Connected(newDB.value)
      modifies this
      ensures newDB.None? ==> oldDB.None? && View() == old(View())
      ensures newDB.Some? ==> oldDB == RunFrom(calls, old(View()), during(0)).pools.current
      ensures newDB.Some? ==> View() == RunFrom(calls, old(View()), Turns(i, connects, during, n)) && At(i).Done?
    {
      if newDB.None? {
        return None, 0;
      }
      ghost var s := View();
      Begin(calls, i, connects, during);
      oldDB, n := HandOver(newDB.value, calls, i, connects, during, 0, s);
    }

    method Shutdown(calls: nat -> Call, i: nat, connects: nat -> bool, during: nat -> seq<Event>) returns (n: nat)
      requires HeartOk(View().heart) && OthersOnly(during, i) && calls(i).Shutdown? && At(i).Idle?
      modifies this
      ensures View() == RunFrom(calls, old(View()), Turns(i, connects, during, n)) && At(i).Done?
    {
      ghost var s := View();
      Begin(calls, i, connects, during);
      Cancel(calls, i, connects(0));
      Yield(calls, i, connects, during, 0, s);
      RunKeepsHeart(calls, s, Turns(i, connects, during, 1));
      StopLocked(calls, i, connects(1));
      Yield(calls, i, connects, during, 1, s);
      CloseLocked(calls, i, connects(2));
      Yield(calls, i, connects, during, 2, s);
      n := 3;
    }

    method Reconnect(calls: nat -> Call, i: nat, connects: nat -> bool, during: nat -> seq<Event>) returns (n: nat)
      requires OthersOnly(during, i) && calls(i).Reconnect? && At(i).Idle?
      modifies this
      ensures View() == RunFrom(calls, old(View()), Turns(i, connects, during, n)) && At(i).Done?
    {
      ghost var s := View();
      Begin(calls, i, connects, during);
      var raised := RaiseFlag(calls, i, connects(0));
      Yield(calls, i, connects, during, 0, s);
      n := 1;
      if raised {
        n := Attempts(calls, i, connects, during, n, s);
        LowerFlag(calls, i, connects(n));
        Yield(calls, i, connects, during, n, s);
        n := n + 1;
      }
    }

    // The loop, up to the deferred lowering of the flag.
    method Attempts(calls: nat -> Call, i: nat, connects: nat -> bool, during: nat -> seq<Event>, taken: nat, ghost s: State)
      returns (n: nat)
      requires OthersOnly(during, i) && calls(i).Reconnect? && At(i) == Trying(0)
      requires View() == RunFrom(calls, s, Turns(i, connects, during, taken))
      modifies this
      ensures View() == RunFrom(calls, s, Turns(i, connects, during, n)) && At(i) == Releasing
    {
      n := taken;
      var attempt := 0;
      var over := false;
      while attempt < MAX_RECONNECT_RETRY && !over
        invariant attempt <= MAX_RECONNECT_RETRY
        invariant View() == RunFrom(calls, s, Turns(i, connects, during, n))
        invariant At(i) == if attempt < MAX_RECONNECT_RETRY && !over then Trying(attempt) else Releasing
        decreases MAX_RECONNECT_RETRY - attempt
      {
        over, n := Attempt(attempt, calls, i, connects, during, n, s);
        attempt := attempt + 1;
      }
    }

    method Attempt(attempt: nat, calls: nat -> Call, i: nat, connects: nat -> bool, during: nat -> seq<Event>, taken: nat,
                   ghost s: State)
      returns (over: bool, n: nat)
      requires OthersOnly(during, i) && calls(i).Reconnect? && At(i) == Trying(attempt)
      requires View() == RunFrom(calls, s, Turns(i, connects, during, taken))
      modifies this
      ensures View() == RunFrom(calls, s, Turns(i, connects, during, n))
      ensures At(i) == if attempt + 1 < MAX_RECONNECT_RETRY && !over then Trying(attempt + 1) else Releasing
    {
      n := taken;
      var stop := IsCancelled(attempt, calls, i, connects(n));
      Yield(calls, i, connects, during, n, s);
      n := n + 1;
      if stop {
        return true, n;
      }
      var newDB;
      newDB, n := TryConnect(attempt, calls, i, connects, during, n, s);
      if newDB.None? {
        return false, n;
      }
      var oldDB;
      oldDB, n := HandOver(newDB.value, calls, i, connects, during, n, s);
      over := true;
    }

    method TryConnect(attempt: nat, calls: nat -> Call, i: nat, connects: nat -> bool, during: nat -> seq<Event>, taken: nat,
                      ghost s: State)
      returns (newDB: Option<nat>, n: nat)
      requires OthersOnly(during, i) && calls(i).Reconnect? && At(i) == Connecting(attempt)
      requires View() == RunFrom(calls, s, Turns(i, connects, during, taken))
      modifies this
      ensures View() == RunFrom(calls, s, Turns(i, connects, during, n))
      ensures newDB.Some? ==> At(i) == Connected(newDB.value)
      ensures newDB.None? ==> At(i) == if attempt + 1 < MAX_RECONNECT_RETRY then Trying(attempt + 1) else Releasing
    {
      newDB := Connect(attempt, calls, i, connects(taken));
      Yield(calls, i, connects, during, taken, s);
      n := taken + 1;
    }
  }
}
