// The application configuration behind one atomic pointer: copy-on-write updates that
// retry a compare-and-swap, database probes that publish what they detected, and plain
// stores, in every interleaving.

module AppConfig {
  import opened Collections
  import opened Text

  datatype MySQL = MySQL(path: string, port: string, config: string, dbname: string, username: string,
                         password: string, other: map<string, string>)

  datatype Server = Server(dbType: string, mysql: MySQL, other: map<string, string>)

  const ZERO := Server("", MySQL("", "", "", "", "", "", map[]), map[])

  predicate SameEndpoint(m: MySQL, source: MySQL) {
    && TrimSpace(m.path) == TrimSpace(source.path) && TrimSpace(m.port) == TrimSpace(source.port)
    && m.dbname == source.dbname && m.username == source.username && m.password == source.password
    && m.config == source.config
  }

  function Detected(c: Server, engine: string, params: string): Server {
    c.(dbType := engine, mysql := c.mysql.(config := params))
  }

  // ---------- The pointer and the calls that use it ----------

  // Every publication stores a pointer to a new copy, so the pointer is the number of
  // publications: two loads of it are equal exactly when none came between them. No
  // publication at all is the nil pointer.
  function Current(history: seq<Server>): Server {
    if history == [] then ZERO else history[|history| - 1]
  }

  datatype Writer =
    | Update(update: Server -> Server)
    | Reconcile(source: MySQL, engine: string, params: string)
    | Store(cfg: Server)

  // What a call wants to publish, given what it has loaded.
  function Proposal(writer: Writer, history: seq<Server>): Option<Server> {
    match writer
    case Update(update) => Some(update(Current(history)))
    case Reconcile(source, engine, params) =>
      if history == [] || !SameEndpoint(Current(history).mysql, source) then None
      else Some(Detected(Current(history), engine, params))
    case Store(cfg) => Some(cfg)
  }

  // Between its load and its swap a call holds the pointer it saw and its own copy.
  datatype Phase = Ready | Holding(seen: nat, next: Server) | Finished | Declined

  // Calls are numbered; log has the numbers of those that have published, in order.
  datatype State = State(history: seq<Server>, phases: map<nat, Phase>, retries: map<nat, nat>, log: seq<nat>)

  function PhaseOf(s: State, i: nat): Phase {
    if i in s.phases then s.phases[i] else Ready
  }

  function RetriesOf(s: State, i: nat): nat {
    if i in s.retries then s.retries[i] else 0
  }

  function Enter(s: State, i: nat, phase: Phase): State {
    s.(phases := s.phases[i := phase])
  }

  function Publish(s: State, i: nat, next: Server): State {
    Enter(s, i, Finished).(history := s.history + [next], log := s.log + [i])
  }

  // The next atomic action of call i: its load, its swap, or its store.
  function Act(writers: nat -> Writer, s: State, i: nat): State {
    match PhaseOf(s, i)
    case Ready =>
      var next := Proposal(writers(i), s.history);
      if next.None? then Enter(s, i, Declined)
      else if writers(i).Store? then Publish(s, i, next.value)
      else Enter(s, i, Holding(|s.history|, next.value))
    case Holding(seen, next) =>
      if seen == |s.history| then Publish(s, i, next)
      else Enter(s, i, Ready).(retries := s.retries[i := RetriesOf(s, i) + 1])
    case _ => s
  }

  // A schedule says whose action comes next, so all schedules are all interleavings.
  function Run(writers: nat -> Writer, initial: seq<Server>, schedule: seq<nat>): State {
    if schedule == [] then State(initial, map[], map[], [])
    else Act(writers, Run(writers, initial, schedule[..|schedule| - 1]), schedule[|schedule| - 1])
  }

  // ---------- What holds at every point of every run ----------

  // Each publication is what its call proposes for exactly the snapshot it replaces.
  ghost predicate EachOverItsPredecessor(writers: nat -> Writer, base: nat, s: State) {
    && |s.history| == base + |s.log|
    && forall k :: 0 <= k < |s.log| ==> Proposal(writers(s.log[k]), s.history[..base + k]) == Some(s.history[base + k])
  }

  ghost predicate PhaseOk(writers: nat -> Writer, base: nat, s: State, i: nat) {
    && (PhaseOf(s, i).Finished? <==> i in s.log)
    && base + RetriesOf(s, i) <= |s.history|
    && (i in s.log ==> RetriesOf(s, i) < |s.log|)
    && match PhaseOf(s, i)
       case Holding(seen, next) =>
         && base + RetriesOf(s, i) <= seen <= |s.history|
         && Proposal(writers(i), s.history[..seen]) == Some(next)
       case _ => true
  }

  ghost predicate Inv(writers: nat -> Writer, initial: seq<Server>, s: State) {
    && initial <= s.history
    && NoDuplicates(s.log)
    && EachOverItsPredecessor(writers, |initial|, s)
    && forall i :: PhaseOk(writers, |initial|, s, i)
  }

  lemma PublishKeepsInv(writers: nat -> Writer, initial: seq<Server>, s: State, i: nat, next: Server)
    requires Inv(writers, initial, s) && i !in s.log && Proposal(writers(i), s.history) == Some(next)
    ensures Inv(writers, initial, Publish(s, i, next))
  {
    var t, base := Publish(s, i, next), |initial|;
    assert PhaseOk(writers, base, s, i);
    forall k | 0 <= k < |t.log| ensures Proposal(writers(t.log[k]), t.history[..base + k]) == Some(t.history[base + k]) {
      if k < |s.log| {
        assert t.history[..base + k] == s.history[..base + k];
      } else {
        assert t.history[..base + k] == s.history;
      }
    }
    forall j ensures PhaseOk(writers, base, t, j) {
      assert PhaseOk(writers, base, s, j);
      if PhaseOf(t, j).Holding? {
        assert t.history[..PhaseOf(t, j).seen] == s.history[..PhaseOf(t, j).seen];
      }
    }
  }

  lemma ActKeepsInv(writers: nat -> Writer, initial: seq<Server>, s: State, i: nat)
    requires Inv(writers, initial, s)
    ensures Inv(writers, initial, Act(writers, s, i))
  {
    var t, base := Act(writers, s, i), |initial|;
    assert PhaseOk(writers, base, s, i);
    assert s.history[..|s.history|] == s.history;
    if |t.log| > |s.log| {
      PublishKeepsInv(writers, initial, s, i, t.history[|s.history|]);
    } else {
      forall j ensures PhaseOk(writers, base, t, j) {
        assert PhaseOk(writers, base, s, j);
      }
    }
  }

  lemma {:induction false} RunKeepsInv(writers: nat -> Writer, initial: seq<Server>, schedule: seq<nat>)
    ensures Inv(writers, initial, Run(writers, initial, schedule))
  {
    if schedule == [] {
      forall i ensures PhaseOk(writers, |initial|, Run(writers, initial, []), i) {}
    } else {
      RunKeepsInv(writers, initial, schedule[..|schedule| - 1]);
      ActKeepsInv(writers, initial, Run(writers, initial, schedule[..|schedule| - 1]), schedule[|schedule| - 1]);
    }
  }

  // ---------- Nothing is lost ----------

  // What a published call does to the configuration.
  function Effect(writer: Writer, c: Server): Server {
    match writer
    case Update(update) => update(c)
    case Reconcile(_, engine, params) => Detected(c, engine, params)
    case Store(cfg) => cfg
  }

  function Fold(writers: nat -> Writer, initial: Server, log: seq<nat>): Server {
    if log == [] then initial
    else Effect(writers(log[|log| - 1]), Fold(writers, initial, log[..|log| - 1]))
  }

  lemma ProposalIsEffect(writer: Writer, history: seq<Server>)
    ensures Proposal(writer, history).Some? ==> Proposal(writer, history).value == Effect(writer, Current(history))
  {}

  lemma {:induction false} FoldOfHistory(writers: nat -> Writer, initial: seq<Server>, s: State, n: nat)
    requires Inv(writers, initial, s) && n <= |s.log|
    ensures Current(s.history[..|initial| + n]) == Fold(writers, Current(initial), s.log[..n])
  {
    var base := |initial|;
    if n == 0 {
      assert s.history[..base] == initial;
    } else {
      var k := n - 1;
      FoldOfHistory(writers, initial, s, k);
      ProposalIsEffect(writers(s.log[k]), s.history[..base + k]);
      assert s.log[..n][..k] == s.log[..k] && s.log[..n][k] == s.log[k];
      assert Current(s.history[..base + n]) == s.history[base + k];
    }
  }

  // In every interleaving, the published configuration is the initial one with the effects
  // of the finished calls, each exactly once, in the order of their publications.
  lemma NothingIsLost(writers: nat -> Writer, initial: seq<Server>, schedule: seq<nat>)
    ensures var s := Run(writers, initial, schedule);
      && Current(s.history) == Fold(writers, Current(initial), s.log)
      && NoDuplicates(s.log)
      && forall i :: i in s.log <==> PhaseOf(s, i).Finished?
  {
    var s := Run(writers, initial, schedule);
    RunKeepsInv(writers, initial, schedule);
    FoldOfHistory(writers, initial, s, |s.log|);
    assert s.log[..|s.log|] == s.log && s.history[..|initial| + |s.log|] == s.history;
    forall i ensures i in s.log <==> PhaseOf(s, i).Finished? {
      assert PhaseOk(writers, |initial|, s, i);
    }
  }

  lemma {:induction false} FoldCounts(writers: nat -> Writer, initial: Server, log: seq<nat>, count: Server -> int)
    requires forall i, c :: i in log ==> count(Effect(writers(i), c)) == count(c) + 1
    ensures count(Fold(writers, initial, log)) == count(initial) + |log|
  {
    if log != [] {
      FoldCounts(writers, initial, log[..|log| - 1], count);
    }
  }

  // When the finished calls are increments, the published count is the initial one and the
  // number of them: no interleaving loses one or counts it twice.
  lemma CountersAddUp(writers: nat -> Writer, initial: seq<Server>, schedule: seq<nat>, count: Server -> int, finished: set<nat>)
    requires forall i, c :: i in finished ==> count(Effect(writers(i), c)) == count(c) + 1
    requires forall i: nat :: i in finished <==> PhaseOf(Run(writers, initial, schedule), i).Finished?
    ensures count(Current(Run(writers, initial, schedule).history)) == count(Current(initial)) + |finished|
  {
    var s := Run(writers, initial, schedule);
    NothingIsLost(writers, initial, schedule);
    FoldCounts(writers, Current(initial), s.log, count);
    ElementsCount(s.log);
    assert finished == Elements(s.log);
  }

  // ---------- A stale probe never publishes ----------

  ghost predicate OnlyDetectionChanged(before: Server, after: Server, engine: string, params: string) {
    && after.dbType == engine && after.mysql.config == params && after.other == before.other
    && after.mysql.path == before.mysql.path && after.mysql.port == before.mysql.port
    && after.mysql.dbname == before.mysql.dbname && after.mysql.username == before.mysql.username
    && after.mysql.password == before.mysql.password && after.mysql.other == before.mysql.other
  }

  // In every interleaving, plain stores included: what a probe publishes replaces a
  // configuration that still has the endpoint and options the probe connected with.
  lemma StaleProbeNeverPublishes(writers: nat -> Writer, initial: seq<Server>, schedule: seq<nat>, k: nat)
    requires var s := Run(writers, initial, schedule); k < |s.log| && writers(s.log[k]).Reconcile?
    ensures var s := Run(writers, initial, schedule);
      var writer := writers(s.log[k]);
      && 0 < |initial| + k < |s.history|
      && var m, source := s.history[|initial| + k - 1].mysql, writer.source;
      && TrimSpace(m.path) == TrimSpace(source.path) && TrimSpace(m.port) == TrimSpace(source.port)
      && m.dbname == source.dbname && m.username == source.username && m.password == source.password
      && m.config == source.config
      && OnlyDetectionChanged(s.history[|initial| + k - 1], s.history[|initial| + k], writer.engine, writer.params)
  {
    var s := Run(writers, initial, schedule);
    RunKeepsInv(writers, initial, schedule);
    var before := s.history[..|initial| + k];
    assert Proposal(writers(s.log[k]), before) == Some(s.history[|initial| + k]);
    assert Current(before) == s.history[|initial| + k - 1];
  }

  // ---------- Retries ----------

  // A call goes round its loop again only because another call has published: it never
  // retries more often than that.
  lemma RetriesAreOthersPublications(writers: nat -> Writer, initial: seq<Server>, schedule: seq<nat>, i: nat)
    ensures var s := Run(writers, initial, schedule);
      RetriesOf(s, i) <= if i in s.log then |s.log| - 1 else |s.log|
  {
    RunKeepsInv(writers, initial, schedule);
    assert PhaseOk(writers, |initial|, Run(writers, initial, schedule), i);
  }

  predicate Over(writer: Writer, phase: Phase) {
    phase.Finished? || (phase.Declined? && writer.Reconcile?)
  }

  lemma RunSnoc(writers: nat -> Writer, initial: seq<Server>, schedule: seq<nat>, i: nat)
    ensures Run(writers, initial, schedule + [i]) == Act(writers, Run(writers, initial, schedule), i)
  {
    assert (schedule + [i])[..|schedule|] == schedule;
  }

  lemma TwoActionsFromReady(writers: nat -> Writer, s: State, i: nat)
    requires PhaseOf(s, i).Ready?
    ensures Over(writers(i), PhaseOf(Act(writers, Act(writers, s, i), i), i))
  {}

  // A call left to itself publishes, or declines: within two actions from the top of its
  // loop, and within three from anywhere, its copy being of a configuration since replaced.
  lemma AloneItFinishes(writers: nat -> Writer, initial: seq<Server>, schedule: seq<nat>, i: nat)
    requires var phase := PhaseOf(Run(writers, initial, schedule), i); phase.Ready? || phase.Holding?
    ensures PhaseOf(Run(writers, initial, schedule), i).Ready? ==>
      Over(writers(i), PhaseOf(Run(writers, initial, schedule + [i, i]), i))
    ensures Over(writers(i), PhaseOf(Run(writers, initial, schedule + [i, i, i]), i))
  {
    var s := Run(writers, initial, schedule);
    var one := schedule + [i];
    var two := one + [i];
    RunSnoc(writers, initial, schedule, i);
    RunSnoc(writers, initial, one, i);
    RunSnoc(writers, initial, two, i);
    assert schedule + [i, i] == two && schedule + [i, i, i] == two + [i];
    if PhaseOf(s, i).Ready? {
      TwoActionsFromReady(writers, s, i);
    } else if PhaseOf(Act(writers, s, i), i).Ready? {
      TwoActionsFromReady(writers, Act(writers, s, i), i);
    }
  }

  // ---------- The loops themselves ----------

  // What has been published during the attempts so far.
  function Flat(published: seq<seq<Server>>): seq<Server> {
    if published == [] then []
    else Flat(published[..|published| - 1]) + published[|published| - 1]
  }

  lemma FlatSnoc(published: seq<seq<Server>>, n: nat)
    requires n < |published|
    ensures Flat(published[..n + 1]) == Flat(published[..n]) + published[n]
  {
    assert published[..n + 1][..n] == published[..n];
  }

  class ConfigPointer {
    var history: seq<Server>

    method CompareAndSwap(seen: nat, next: Server) returns (swapped: bool)
      modifies this
      ensures swapped <==> seen == |old(history)|
      ensures history == if swapped then old(history) + [next] else old(history)
    {
      swapped := seen == |history|;
      if swapped {
        history := history + [next];
      }
    }

    // One attempt: others publish between the load of the pointer and the swap.
    method Attempt(next: Server, others: seq<Server>) returns (swapped: bool)
      modifies this
      ensures swapped <==> others == []
      ensures history == old(history) + if swapped then [next] else others
    {
      var previous := |history|;
      history := history + others;
      swapped := CompareAndSwap(previous, next);
    }

    // Other goroutines publish during[n] between the load and the swap of attempt n, and
    // nothing once that runs out. The update that is published is of what it replaces.
    method UpdateAppConfig(update: Server -> Server, during: seq<seq<Server>>) returns (retries: nat)
      modifies this
      ensures retries <= |during|
      ensures var replaced := old(history) + Flat(during[..retries]);
        history == replaced + [update(Current(replaced))]
      ensures forall n :: 0 <= n < retries ==> during[n] != []
    {
      retries := 0;
      while true
        invariant retries <= |during| && history == old(history) + Flat(during[..retries])
        invariant forall n :: 0 <= n < retries ==> during[n] != []
        decreases |during| - retries
      {
        var swapped := Attempt(update(Current(history)), if retries < |during| then during[retries] else []);
        if swapped {
          return;
        }
        FlatSnoc(during, retries);
        retries := retries + 1;
      }
    }

    // Gives up at the first look that finds another endpoint, or none.
    method ReconcileDatabaseConfig(source: MySQL, engine: string, params: string, during: seq<seq<Server>>)
        returns (published: bool, retries: nat)
      modifies this
      ensures retries <= |during|
      ensures var replaced := old(history) + Flat(during[..retries]);
        && (published <==> replaced != [] && var m := Current(replaced).mysql;
            && TrimSpace(m.path) == TrimSpace(source.path) && TrimSpace(m.port) == TrimSpace(source.port)
            && m.dbname == source.dbname && m.username == source.username && m.password == source.password
            && m.config == source.config)
        && history == replaced + if published then [Detected(Current(replaced), engine, params)] else []
    {
      retries := 0;
      while true
        invariant retries <= |during| && history == old(history) + Flat(during[..retries])
        decreases |during| - retries
      {
        if history == [] || !SameEndpoint(Current(history).mysql, source) {
          return false, retries;
        }
        var next := Detected(Current(history), engine, params);
        var swapped := Attempt(next, if retries < |during| then during[retries] else []);
        if swapped {
          return true, retries;
        }
        FlatSnoc(during, retries);
        retries := retries + 1;
      }
    }
  }
}
