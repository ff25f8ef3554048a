// The statements the configuration manager issues on a transaction, and the
// batched writer built from them. Any statement may fail.

module ConfigStore {
  import opened ConfigRows

  // What SELECT id, category, key returns for a row.
  datatype RowRef = RowRef(id: nat, identity: Identity)

  function RefOf(r: Row): RowRef {
    RowRef(r.id, IdOf(r.config))
  }

  // CASE id WHEN id0 THEN v0 WHEN id1 THEN v1 ... ELSE otherwise END
  function CaseOf<T>(arms: seq<(nat, T)>, id: nat, otherwise: T): T {
    if arms == [] then otherwise
    else if arms[0].0 == id then arms[0].1
    else CaseOf(arms[1..], id, otherwise)
  }

  function UpdateByCase(r: Row, ids: seq<nat>, values: seq<(nat, string)>, publics: seq<(nat, bool)>): Row {
    if r.id in ids then
      r.(config := r.config.(value := CaseOf(values, r.id, r.config.value),
                             isPublic := CaseOf(publics, r.id, r.config.isPublic)))
    else r
  }

  lemma {:induction false} CaseOfUniform<T>(arms: seq<(nat, T)>, id: nat, otherwise: T, v: T)
    requires exists i :: 0 <= i < |arms| && arms[i].0 == id
    requires forall i :: 0 <= i < |arms| && arms[i].0 == id ==> arms[i].1 == v
    ensures CaseOf(arms, id, otherwise) == v
  {
    if arms[0].0 != id {
      var i :| 0 <= i < |arms| && arms[i].0 == id;
      assert arms[1..][i - 1].0 == id;
      CaseOfUniform(arms[1..], id, otherwise, v);
    }
  }

  class Transaction {
    var rows: seq<Row>
    var nextId: nat
    var selects: nat   // SELECT statements issued
    var inserts: nat   // INSERT statements issued

    ghost predicate Valid()
      reads this
    {
      WellKeyed(State())
    }

    ghost function State(): Table
      reads this
    {
      Table(rows, nextId)
    }

    // SELECT id, category, key WHERE (category = c AND key IN keys[c]) OR ...
    // The order of the answer is not part of the contract.
    method Find(keys: map<string, set<string>>) returns (ok: bool, existing: seq<RowRef>)
      modifies this`selects
      ensures selects == old(selects) + 1
      ensures ok ==> forall ref :: ref in existing <==>
        && ref.identity.category in keys && ref.identity.key in keys[ref.identity.category]
        && exists r :: r in rows && RefOf(r) == ref
    {
      selects := selects + 1;
      ok := *;
      existing := [];
      for i := 0 to |rows|
        invariant selects == old(selects) + 1
        invariant forall ref :: ref in existing <==>
          && ref.identity.category in keys && ref.identity.key in keys[ref.identity.category]
          && exists r :: r in rows[..i] && RefOf(r) == ref
      {
        var ref := RefOf(rows[i]);
        assert rows[..i + 1] == rows[..i] + [rows[i]];
        if ref.identity.category in keys && ref.identity.key in keys[ref.identity.category] {
          existing := existing + [ref];
        }
      }
      assert rows[..|rows|] == rows;
    }

    // UPDATE SET value = CASE ..., is_public = CASE ... WHERE id IN ids
    method Update(ids: seq<nat>, values: seq<(nat, string)>, publics: seq<(nat, bool)>) returns (ok: bool)
      requires Valid()
      modifies this`rows
      ensures Valid()
      ensures ok ==> |rows| == |old(rows)| && forall i :: 0 <= i < |rows| ==>
        rows[i] == UpdateByCase(old(rows)[i], ids, values, publics)
      ensures !ok ==> rows == old(rows)
    {
      ok := *;
      if ok {
        rows := seq(|rows|, i requires 0 <= i < |rows| reads this => UpdateByCase(rows[i], ids, values, publics));
      }
    }

    // INSERT of a list of rows, which get consecutive new primary keys.
    method Create(configs: seq<SystemConfig>) returns (ok: bool)
      requires Valid()
      modifies this`rows, this`nextId, this`inserts
      ensures Valid() && inserts == old(inserts) + 1
      ensures State() == if ok then AppendAll(old(State()), configs) else old(State())
    {
      inserts := inserts + 1;
      ok := *;
      if ok {
        AppendAllRows(State(), configs);
        rows := rows + seq(|configs|, i requires 0 <= i < |configs| reads this => Row(nextId + i, configs[i]));
        nextId := nextId + |configs|;
      }
    }

    method Count(identity: Identity) returns (ok: bool, present: bool)
      ensures ok ==> present == (identity in Identities(rows))
    {
      ok := *;
      present := exists i :: 0 <= i < |rows| && IdOf(rows[i].config) == identity;
      if present {
        var i :| 0 <= i < |rows| && IdOf(rows[i].config) == identity;
        assert rows[i] in rows;
      }
    }

    method UpdateWhere(c: SystemConfig) returns (ok: bool)
      requires Valid()
      modifies this`rows
      ensures Valid()
      ensures rows == if ok then SetMatching(old(rows), c) else old(rows)
    {
      ok := *;
      if ok {
        rows := SetMatching(rows, c);
      }
    }
  }

  method UpsertSystemConfig(tx: Transaction, config: SystemConfig) returns (ok: bool)
    requires tx.Valid()
    modifies tx
    ensures tx.Valid()
    ensures tx.State() == if ok then Save(old(tx.State()), config, false) else old(tx.State())
  {
    var present;
    ok, present := tx.Count(IdOf(config));
    if !ok {
      return false;
    }
    if !present {
      AppendOne(tx.State(), config);
      ok := tx.Create([config]);
      return;
    }
    ok := tx.UpdateWhere(config);
  }

  method InsertMissingSystemConfig(tx: Transaction, config: SystemConfig) returns (ok: bool)
    requires tx.Valid()
    modifies tx
    ensures tx.Valid()
    ensures tx.State() == if ok then Save(old(tx.State()), config, true) else old(tx.State())
  {
    var present;
    ok, present := tx.Count(IdOf(config));
    if !ok {
      return false;
    }
    if !present {
      AppendOne(tx.State(), config);
      ok := tx.Create([config]);
    }
  }

  lemma AppendOne(t: Table, c: SystemConfig)
    ensures AppendAll(t, [c]) == Append(t, c)
  {
    assert [c][..0] == [];
  }

  // keysByCategory lists exactly the identities of the chunk.
  ghost predicate Covers(keys: map<string, set<string>>, ids: set<Identity>) {
    forall i: Identity :: (i.category in keys && i.key in keys[i.category]) <==> i in ids
  }

  lemma IdsOfSnoc(chunk: seq<SystemConfig>, c: SystemConfig)
    ensures IdsOf(chunk + [c]) == IdsOf(chunk) + {IdOf(c)}
  {
    forall d | d in chunk ensures d in chunk + [c] {}
    assert c in chunk + [c];
  }

  lemma CoversOneMore(keys: map<string, set<string>>, ids: set<Identity>, i: Identity)
    requires Covers(keys, ids)
    ensures var known := if i.category in keys then keys[i.category] else {};
      Covers(keys[i.category := known + {i.key}], ids + {i})
  {}

  lemma ByIdentitySnoc(chunk: seq<SystemConfig>, c: SystemConfig)
    ensures ByIdentity(chunk + [c]) == ByIdentity(chunk)[IdOf(c) := c]
  {
    assert (chunk + [c])[..|chunk|] == chunk;
  }

  method IndexChunk(chunk: seq<SystemConfig>)
    returns (keysByCategory: map<string, set<string>>, configByIdentity: map<Identity, SystemConfig>)
    ensures Covers(keysByCategory, IdsOf(chunk))
    ensures configByIdentity == ByIdentity(chunk)
  {
    keysByCategory, configByIdentity := map[], map[];
    for i := 0 to |chunk|
      invariant Covers(keysByCategory, IdsOf(chunk[..i]))
      invariant configByIdentity == ByIdentity(chunk[..i])
    {
      var config := chunk[i];
      assert chunk[..i + 1] == chunk[..i] + [config];
      IdsOfSnoc(chunk[..i], config);
      CoversOneMore(keysByCategory, IdsOf(chunk[..i]), IdOf(config));
      ByIdentitySnoc(chunk[..i], config);
      configByIdentity := configByIdentity[IdOf(config) := config];
      if config.category !in keysByCategory {
        keysByCategory := keysByCategory[config.category := {}];
      }
      keysByCategory := keysByCategory[config.category := keysByCategory[config.category] + {config.key}];
    }
    assert chunk[..|chunk|] == chunk;
  }

  method SplitChunk(chunk: seq<SystemConfig>, configByIdentity: map<Identity, SystemConfig>, existing: seq<RowRef>,
                    ghost present: set<Identity>)
    returns (updates: seq<RowRef>, missing: seq<SystemConfig>)
    requires configByIdentity.Keys == IdsOf(chunk)
    requires forall i :: i in IdsOf(chunk) ==> (i in present <==> exists ref :: ref in existing && ref.identity == i)
    ensures forall ref :: ref in updates <==> ref in existing && ref.identity in configByIdentity
    ensures missing == Missing(chunk, present)
  {
    updates, missing := [], [];
    var found: set<Identity> := {};
    for i := 0 to |existing|
      invariant forall ref :: ref in updates <==> ref in existing[..i] && ref.identity in configByIdentity
      invariant forall id :: id in found <==> exists ref :: ref in updates && ref.identity == id
    {
      var row := existing[i];
      assert existing[..i + 1] == existing[..i] + [row];
      if row.identity !in configByIdentity {
        continue;
      }
      found := found + {row.identity};
      updates := updates + [row];
    }
    assert existing[..|existing|] == existing;
    for i := 0 to |chunk|
      invariant missing == Missing(chunk[..i], present)
    {
      assert chunk[..i + 1][..i] == chunk[..i];
      assert IdOf(chunk[i]) in IdsOf(chunk);
      if IdOf(chunk[i]) !in found {
        missing := missing + [chunk[i]];
      }
    }
    assert chunk[..|chunk|] == chunk;
  }

  // Rows whose key was in the updates done so far carry their new value, the others their old one.
  ghost predicate UpdatedSoFar(before: seq<Row>, now: seq<Row>, done: seq<RowRef>, values: map<Identity, SystemConfig>) {
    && |now| == |before|
    && forall i :: 0 <= i < |now| ==> now[i] == if RefOf(before[i]) in done then Reassign(before[i], values) else before[i]
  }

  method BuildCase(rows: seq<RowRef>, configByIdentity: map<Identity, SystemConfig>)
    returns (ids: seq<nat>, values: seq<(nat, string)>, publics: seq<(nat, bool)>)
    requires forall ref :: ref in rows ==> ref.identity in configByIdentity
    ensures |ids| == |values| == |publics| == |rows|
    ensures forall i :: 0 <= i < |rows| ==>
      && ids[i] == rows[i].id
      && values[i] == (rows[i].id, configByIdentity[rows[i].identity].value)
      && publics[i] == (rows[i].id, configByIdentity[rows[i].identity].isPublic)
  {
    ids, values, publics := [], [], [];
    for i := 0 to |rows|
      invariant |ids| == |values| == |publics| == i
      invariant forall j :: 0 <= j < i ==>
        && ids[j] == rows[j].id
        && values[j] == (rows[j].id, configByIdentity[rows[j].identity].value)
        && publics[j] == (rows[j].id, configByIdentity[rows[j].identity].isPublic)
    {
      var row := rows[i];
      assert row in rows;
      var config := configByIdentity[row.identity];
      values := values + [(row.id, config.value)];
      publics := publics + [(row.id, config.isPublic)];
      ids := ids + [row.id];
    }
  }

  // One CASE statement gives every row it names the value of the row's own identity.
  lemma CaseIsReassign(r: Row, refs: seq<RowRef>, values: map<Identity, SystemConfig>,
                       ids: seq<nat>, valueArms: seq<(nat, string)>, publicArms: seq<(nat, bool)>)
    requires |ids| == |valueArms| == |publicArms| == |refs|
    requires forall i :: 0 <= i < |refs| ==>
      && refs[i].identity in values
      && ids[i] == refs[i].id
      && valueArms[i] == (refs[i].id, values[refs[i].identity].value)
      && publicArms[i] == (refs[i].id, values[refs[i].identity].isPublic)
    requires forall ref :: ref in refs && ref.id == r.id ==> ref == RefOf(r)
    ensures UpdateByCase(r, ids, valueArms, publicArms) == if RefOf(r) in refs then Reassign(r, values) else r
  {
    if RefOf(r) in refs {
      var i :| 0 <= i < |refs| && refs[i] == RefOf(r);
      assert ids[i] == r.id;
      var c := values[IdOf(r.config)];
      forall j | 0 <= j < |refs| && refs[j].id == r.id ensures refs[j] == RefOf(r) { assert refs[j] in refs; }
      assert valueArms[i].0 == r.id && publicArms[i].0 == r.id;
      CaseOfUniform(valueArms, r.id, r.config.value, c.value);
      CaseOfUniform(publicArms, r.id, r.config.isPublic, c.isPublic);
    }
  }

  ghost predicate RefersTo(updates: seq<RowRef>, rows: seq<Row>, values: map<Identity, SystemConfig>) {
    forall ref :: ref in updates ==> ref.identity in values && exists r :: r in rows && RefOf(r) == ref
  }

  lemma SameIdSameRow(refs: seq<RowRef>, rows: seq<Row>, values: map<Identity, SystemConfig>, i: nat)
    requires RefersTo(refs, rows, values) && i < |rows|
    requires forall j, k :: 0 <= j < k < |rows| ==> rows[j].id != rows[k].id
    ensures forall ref :: ref in refs && ref.id == rows[i].id ==> ref == RefOf(rows[i])
  {
    forall ref | ref in refs && ref.id == rows[i].id ensures ref == RefOf(rows[i]) {
      var r :| r in rows && RefOf(r) == ref;
    }
  }

  method UpdateSlice(tx: Transaction, rows: seq<RowRef>, configByIdentity: map<Identity, SystemConfig>)
    returns (ok: bool)
    requires tx.Valid()
    requires RefersTo(rows, tx.rows, configByIdentity)
    modifies tx`rows
    ensures tx.Valid()
    ensures ok ==> UpdatedSoFar(old(tx.rows), tx.rows, rows, configByIdentity)
  {
    var ids, values, publics := BuildCase(rows, configByIdentity);
    ghost var before := tx.rows;
    ok := tx.Update(ids, values, publics);
    if ok {
      forall i | 0 <= i < |before|
        ensures tx.rows[i] == if RefOf(before[i]) in rows then Reassign(before[i], configByIdentity) else before[i]
      {
        SameIdSameRow(rows, before, configByIdentity, i);
        CaseIsReassign(before[i], rows, configByIdentity, ids, values, publics);
      }
    }
  }

  lemma UpdatedThenUpdated(before: seq<Row>, middle: seq<Row>, now: seq<Row>, done: seq<RowRef>, more: seq<RowRef>,
                           values: map<Identity, SystemConfig>)
    requires UpdatedSoFar(before, middle, done, values) && UpdatedSoFar(middle, now, more, values)
    ensures UpdatedSoFar(before, now, done + more, values)
  {}

  lemma RefersToUpdated(updates: seq<RowRef>, before: seq<Row>, now: seq<Row>, done: seq<RowRef>, values: map<Identity, SystemConfig>)
    requires RefersTo(updates, before, values) && UpdatedSoFar(before, now, done, values)
    ensures RefersTo(updates, now, values)
  {
    forall ref | ref in updates ensures exists r :: r in now && RefOf(r) == ref {
      var r :| r in before && RefOf(r) == ref;
      var i :| 0 <= i < |before| && before[i] == r;
      assert now[i] in now && RefOf(now[i]) == ref;
    }
  }

  // The inner loop: the rows found are updated at most WRITE_BATCH_SIZE at a time.
  method UpdateInBatches(tx: Transaction, updates: seq<RowRef>, configByIdentity: map<Identity, SystemConfig>)
    returns (ok: bool)
    requires tx.Valid()
    requires RefersTo(updates, tx.rows, configByIdentity)
    modifies tx`rows
    ensures tx.Valid()
    ensures ok ==> UpdatedSoFar(old(tx.rows), tx.rows, updates, configByIdentity)
  {
    ghost var before := tx.rows;
    var start := 0;
    while start < |updates|
      invariant 0 <= start <= |updates|
      invariant tx.Valid()
      invariant UpdatedSoFar(before, tx.rows, updates[..start], configByIdentity)
    {
      var updateEnd := start + WRITE_BATCH_SIZE;
      if updateEnd > |updates| {
        updateEnd := |updates|;
      }
      ghost var middle := tx.rows;
      RefersToUpdated(updates, before, middle, updates[..start], configByIdentity);
      ok := UpdateSlice(tx, updates[start..updateEnd], configByIdentity);
      if !ok {
        return false;
      }
      UpdatedThenUpdated(before, middle, tx.rows, updates[..start], updates[start..updateEnd], configByIdentity);
      assert updates[..updateEnd] == updates[..start] + updates[start..updateEnd];
      start := updateEnd;
    }
    assert updates[..|updates|] == updates;
    ok := true;
  }

  lemma AllUpdated(t: Table, now: seq<Row>, updates: seq<RowRef>, values: map<Identity, SystemConfig>)
    requires UpdatedSoFar(t.rows, now, updates, values)
    requires forall r :: r in t.rows && IdOf(r.config) in values ==> RefOf(r) in updates
    ensures now == Assign(t.rows, values)
  {
    forall i | 0 <= i < |now| ensures now[i] == Reassign(t.rows[i], values) {
      assert t.rows[i] in t.rows;
    }
  }

  method PersistOneChunk(tx: Transaction, chunk: seq<SystemConfig>, insertOnly: bool) returns (ok: bool)
    requires tx.Valid()
    modifies tx
    ensures tx.Valid()
    ensures tx.selects == old(tx.selects) + 1 && tx.inserts <= old(tx.inserts) + 1
    ensures ok ==> tx.State() == PersistChunk(old(tx.State()), chunk, insertOnly)
  {
    ghost var t := tx.State();
    var keysByCategory, configByIdentity := IndexChunk(chunk);
    ByIdentityKeys(chunk);
    var existing;
    ok, existing := tx.Find(keysByCategory);
    if !ok {
      return false;
    }
    ghost var present := Identities(t.rows);
    forall i | i in IdsOf(chunk)
      ensures i in present <==> exists ref :: ref in existing && ref.identity == i
    {
      if i in present {
        var r :| r in t.rows && IdOf(r.config) == i;
        assert RefOf(r) in existing;
      }
    }
    var updates, missing := SplitChunk(chunk, configByIdentity, existing, present);
    if !insertOnly {
      ok := UpdateInBatches(tx, updates, configByIdentity);
      if !ok {
        return false;
      }
      AllUpdated(t, tx.rows, updates, configByIdentity);
    }
    if |missing| > 0 {
      ok := tx.Create(missing);
    }
  }

  function Chunks(n: nat): nat {
    (n + WRITE_BATCH_SIZE - 1) / WRITE_BATCH_SIZE
  }

  lemma NextChunk(t: Table, configs: seq<SystemConfig>, start: nat, end: nat, insertOnly: bool)
    requires start < |configs|
    requires end == if start + WRITE_BATCH_SIZE > |configs| then |configs| else start + WRITE_BATCH_SIZE
    ensures PersistAll(t, configs[start..], insertOnly) ==
      PersistAll(PersistChunk(t, configs[start..end], insertOnly), configs[end..], insertOnly)
  {
    var rest := configs[start..];
    assert ChunkSize(rest) == end - start;
    assert rest[..end - start] == configs[start..end] && rest[end - start..] == configs[end..];
  }

  lemma OneMoreChunk(start: nat, end: nat, n: nat)
    requires start < n && start % WRITE_BATCH_SIZE == 0
    requires end == if start + WRITE_BATCH_SIZE > n then n else start + WRITE_BATCH_SIZE
    ensures Chunks(end) == Chunks(start) + 1 && Chunks(end) <= Chunks(n)
    ensures end < n ==> end % WRITE_BATCH_SIZE == 0
  {}

  // On success the table is the one the chunk-by-chunk specification names, and the
  // list cost one read and at most one insert for each hundred settings.
  method PersistSystemConfigBatch(tx: Transaction, configs: seq<SystemConfig>, insertOnly: bool) returns (ok: bool)
    requires tx.Valid()
    modifies tx
    ensures tx.Valid()
    ensures ok ==> tx.State() == PersistAll(old(tx.State()), configs, insertOnly)
    ensures ok ==> tx.selects == old(tx.selects) + (|configs| + 99) / 100
    ensures tx.selects <= old(tx.selects) + (|configs| + 99) / 100
    ensures tx.inserts <= old(tx.inserts) + (|configs| + 99) / 100
  {
    var start := 0;
    assert configs[0..] == configs;
    while start < |configs|
      invariant 0 <= start <= |configs|
      invariant start < |configs| ==> start % WRITE_BATCH_SIZE == 0
      invariant tx.Valid()
      invariant PersistAll(tx.State(), configs[start..], insertOnly) == PersistAll(old(tx.State()), configs, insertOnly)
      invariant tx.selects == old(tx.selects) + Chunks(start)
      invariant tx.inserts <= old(tx.inserts) + Chunks(start)
    {
      var end := start + WRITE_BATCH_SIZE;
      if end > |configs| {
        end := |configs|;
      }
      NextChunk(tx.State(), configs, start, end, insertOnly);
      OneMoreChunk(start, end, |configs|);
      ok := PersistOneChunk(tx, configs[start..end], insertOnly);
      if !ok {
        return false;
      }
      start := end;
    }
    ok := true;
  }

  // Fold of the one-row writers inside one transaction, the form the batch replaced.
  method SaveOneByOne(tx: Transaction, configs: seq<SystemConfig>, insertOnly: bool) returns (ok: bool)
    requires tx.Valid()
    modifies tx
    ensures tx.Valid()
    ensures ok ==> tx.State() == SaveAll(old(tx.State()), configs, insertOnly)
  {
    for i := 0 to |configs|
      invariant tx.Valid()
      invariant tx.State() == SaveAll(old(tx.State()), configs[..i], insertOnly)
    {
      assert configs[..i + 1][..i] == configs[..i];
      if insertOnly {
        ok := InsertMissingSystemConfig(tx, configs[i]);
      } else {
        ok := UpsertSystemConfig(tx, configs[i]);
      }
      if !ok {
        return false;
      }
    }
    assert configs[..|configs|] == configs;
    ok := true;
  }

  // The part of the configuration manager that saves defaults to the database and
  // keeps its cache in step.
  class ConfigDatabase<Value> {
    const tx: Transaction
    var configCache: map<string, Value>

    constructor (tx: Transaction, cache: map<string, Value>)
      ensures this.tx == tx && configCache == cache
    {
      this.tx := tx;
      configCache := cache;
    }

    // batchSaveConfigsToDBOnly: the map is saved in some iteration order, all or
    // nothing; the cache changes only after the database did.
    method BatchSaveConfigsToDBOnly(flatConfigs: map<string, Value>, prepare: (string, Value) -> SaveResult)
      returns (ok: bool, ghost order: seq<SystemConfig>)
      requires tx.Valid()
      requires forall k, v :: prepare(k, v).Prepared? ==> IdOf(prepare(k, v).config) == Identity("", k)
      modifies this, tx
      ensures tx.Valid()
      ensures !ok ==> tx.State() == old(tx.State()) && configCache == old(configCache)
      ensures ok ==> configCache == old(configCache) + flatConfigs
      ensures ok ==>
        && DistinctIdentities(order)
        && (forall c :: c in order <==> exists k :: k in flatConfigs && prepare(k, flatConfigs[k]) == Prepared(c))
        && (forall k :: k in flatConfigs ==> prepare(k, flatConfigs[k]).Prepared?)
        && tx.State() == SaveAll(old(tx.State()), order, false)
    {
      order := [];
      if |flatConfigs| == 0 {
        assert flatConfigs == map[];
        return true, [];
      }
      var toSave: seq<SystemConfig> := [];
      var remaining := flatConfigs.Keys;
      while remaining != {}
        invariant remaining <= flatConfigs.Keys
        invariant DistinctIdentities(toSave)
        invariant forall k :: k in flatConfigs && k !in remaining ==> prepare(k, flatConfigs[k]).Prepared?
        invariant forall c :: c in toSave <==>
          exists k :: k in flatConfigs && k !in remaining && prepare(k, flatConfigs[k]) == Prepared(c)
      {
        var key :| key in remaining;
        var prepared := prepare(key, flatConfigs[key]);
        if prepared.Refused? {
          return false, [];
        }
        forall i | 0 <= i < |toSave| ensures IdOf(toSave[i]) != IdOf(prepared.config) {
          assert toSave[i] in toSave;
        }
        toSave := toSave + [prepared.config];
        remaining := remaining - {key};
      }
      var snapshot := (tx.rows, tx.nextId);
      ok := PersistSystemConfigBatch(tx, toSave, false);
      if !ok {
        tx.rows, tx.nextId := snapshot.0, snapshot.1;   // rollback
        return false, [];
      }
      DistinctHasNoFreshDuplicates(toSave, Identities(old(tx.rows)));
      BatchEqualsFold(old(tx.State()), toSave, false);
      configCache := configCache + flatConfigs;
      order := toSave;
    }
  }

  datatype SaveResult = Prepared(config: SystemConfig) | Refused
}
