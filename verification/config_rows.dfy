// The system_configs table and the two ways of saving a list of settings to it:
// one row at a time (SaveAll) and chunk by chunk (PersistAll).

module ConfigRows {
  datatype SystemConfig = SystemConfig(category: string, key: string, value: string, isPublic: bool, description: string)
  datatype Identity = Identity(category: string, key: string)
  datatype Row = Row(id: nat, config: SystemConfig)
  datatype Table = Table(rows: seq<Row>, nextId: nat)

  const WRITE_BATCH_SIZE := 100

  function IdOf(c: SystemConfig): Identity {
    Identity(c.category, c.key)
  }

  ghost function Identities(rows: seq<Row>): set<Identity> {
    set r | r in rows :: IdOf(r.config)
  }

  ghost function IdsOf(configs: seq<SystemConfig>): set<Identity> {
    set c | c in configs :: IdOf(c)
  }

  // Primary keys are unique, and the next one to be handed out is larger than all of them.
  ghost predicate WellKeyed(t: Table) {
    && (forall i :: 0 <= i < |t.rows| ==> t.rows[i].id < t.nextId)
    && forall i, j :: 0 <= i < j < |t.rows| ==> t.rows[i].id != t.rows[j].id
  }

  // ---------- One row at a time ----------

  // The columns an UPDATE statement of this file writes: the description stays as it was.
  function Overwrite(r: Row, c: SystemConfig): Row {
    r.(config := r.config.(value := c.value, isPublic := c.isPublic))
  }

  function SetMatching(rows: seq<Row>, c: SystemConfig): seq<Row> {
    seq(|rows|, i requires 0 <= i < |rows| => if IdOf(rows[i].config) == IdOf(c) then Overwrite(rows[i], c) else rows[i])
  }

  function Append(t: Table, c: SystemConfig): Table {
    Table(t.rows + [Row(t.nextId, c)], t.nextId + 1)
  }

  // One call of upsertSystemConfig (or, when insertOnly, of insertMissingSystemConfig).
  ghost function Save(t: Table, c: SystemConfig, insertOnly: bool): Table {
    if IdOf(c) !in Identities(t.rows) then Append(t, c)
    else if insertOnly then t
    else t.(rows := SetMatching(t.rows, c))
  }

  ghost function SaveAll(t: Table, configs: seq<SystemConfig>, insertOnly: bool): Table {
    if configs == [] then t
    else Save(SaveAll(t, configs[..|configs| - 1], insertOnly), configs[|configs| - 1], insertOnly)
  }

  // ---------- Chunk by chunk ----------

  // configByIdentity: a later entry of the chunk replaces an earlier one.
  function ByIdentity(chunk: seq<SystemConfig>): map<Identity, SystemConfig> {
    if chunk == [] then map[]
    else ByIdentity(chunk[..|chunk| - 1])[IdOf(chunk[|chunk| - 1]) := chunk[|chunk| - 1]]
  }

  function Reassign(r: Row, values: map<Identity, SystemConfig>): Row {
    if IdOf(r.config) in values then Overwrite(r, values[IdOf(r.config)]) else r
  }

  function Assign(rows: seq<Row>, values: map<Identity, SystemConfig>): seq<Row> {
    seq(|rows|, i requires 0 <= i < |rows| => Reassign(rows[i], values))
  }

  function Missing(chunk: seq<SystemConfig>, present: set<Identity>): seq<SystemConfig> {
    if chunk == [] then []
    else
      Missing(chunk[..|chunk| - 1], present)
      + if IdOf(chunk[|chunk| - 1]) in present then [] else [chunk[|chunk| - 1]]
  }

  function AppendAll(t: Table, configs: seq<SystemConfig>): Table {
    if configs == [] then t
    else Append(AppendAll(t, configs[..|configs| - 1]), configs[|configs| - 1])
  }

  ghost function PersistChunk(t: Table, chunk: seq<SystemConfig>, insertOnly: bool): Table {
    var updated := if insertOnly then t else t.(rows := Assign(t.rows, ByIdentity(chunk)));
    AppendAll(updated, Missing(chunk, Identities(t.rows)))
  }

  function ChunkSize(configs: seq<SystemConfig>): nat {
    if |configs| < WRITE_BATCH_SIZE then |configs| else WRITE_BATCH_SIZE
  }

  ghost function PersistAll(t: Table, configs: seq<SystemConfig>, insertOnly: bool): Table
    decreases |configs|
  {
    if configs == [] then t
    else
      var k := ChunkSize(configs);
      PersistAll(PersistChunk(t, configs[..k], insertOnly), configs[k..], insertOnly)
  }

  // ---------- When the two agree ----------

  // A chunk may repeat an identity only if the table already has a row for it.
  ghost predicate NoFreshDuplicate(chunk: seq<SystemConfig>, present: set<Identity>) {
    forall i, j :: 0 <= i < j < |chunk| && IdOf(chunk[i]) == IdOf(chunk[j]) ==> IdOf(chunk[i]) in present
  }

  // The same for every chunk of the list, counting what the earlier chunks will have inserted.
  ghost predicate NoFreshDuplicates(configs: seq<SystemConfig>, present: set<Identity>)
    decreases |configs|
  {
    configs == [] ||
    var k := ChunkSize(configs);
    NoFreshDuplicate(configs[..k], present) && NoFreshDuplicates(configs[k..], present + IdsOf(configs[..k]))
  }

  ghost predicate DistinctIdentities(configs: seq<SystemConfig>) {
    forall i, j :: 0 <= i < j < |configs| ==> IdOf(configs[i]) != IdOf(configs[j])
  }

  lemma SaveIdentities(t: Table, c: SystemConfig, insertOnly: bool)
    ensures Identities(Save(t, c, insertOnly).rows) == Identities(t.rows) + {IdOf(c)}
  {
    var rows := Save(t, c, insertOnly).rows;
    if IdOf(c) !in Identities(t.rows) {
      assert rows[|t.rows|] == Row(t.nextId, c);
      forall r | r in t.rows ensures r in rows {}
    } else {
      assert |rows| == |t.rows|;
      forall i | 0 <= i < |rows| ensures IdOf(rows[i].config) == IdOf(t.rows[i].config) {}
      SameIdentities(t.rows, rows);
    }
  }

  lemma SameIdentities(a: seq<Row>, b: seq<Row>)
    requires |a| == |b| && forall i :: 0 <= i < |a| ==> IdOf(a[i].config) == IdOf(b[i].config)
    ensures Identities(a) == Identities(b)
  {
    forall r | r in a ensures IdOf(r.config) in Identities(b) {
      var i :| 0 <= i < |a| && a[i] == r;
      assert b[i] in b;
    }
    forall r | r in b ensures IdOf(r.config) in Identities(a) {
      var i :| 0 <= i < |b| && b[i] == r;
      assert a[i] in a;
    }
  }

  lemma {:induction false} SaveAllIdentities(t: Table, configs: seq<SystemConfig>, insertOnly: bool)
    ensures Identities(SaveAll(t, configs, insertOnly).rows) == Identities(t.rows) + IdsOf(configs)
  {
    if configs != [] {
      var front, last := configs[..|configs| - 1], configs[|configs| - 1];
      SaveAllIdentities(t, front, insertOnly);
      SaveIdentities(SaveAll(t, front, insertOnly), last, insertOnly);
      assert configs == front + [last];
    }
  }

  lemma {:induction false} ByIdentityKeys(chunk: seq<SystemConfig>)
    ensures ByIdentity(chunk).Keys == IdsOf(chunk)
    ensures forall i :: i in ByIdentity(chunk) ==> IdOf(ByIdentity(chunk)[i]) == i
  {
    if chunk != [] {
      var front, last := chunk[..|chunk| - 1], chunk[|chunk| - 1];
      ByIdentityKeys(front);
      assert chunk == front + [last];
    }
  }

  // The shape of a run of inserts: the old rows come first, the new ones follow in order.
  lemma {:induction false} AppendAllRows(t: Table, configs: seq<SystemConfig>)
    ensures var r := AppendAll(t, configs);
      && r.nextId == t.nextId + |configs|
      && r.rows == t.rows + seq(|configs|, i requires 0 <= i < |configs| => Row(t.nextId + i, configs[i]))
  {
    if configs != [] {
      AppendAllRows(t, configs[..|configs| - 1]);
    }
  }

  lemma {:induction false} MissingSound(chunk: seq<SystemConfig>, present: set<Identity>)
    ensures forall c :: c in Missing(chunk, present) <==> c in chunk && IdOf(c) !in present
  {
    if chunk != [] {
      var front, last := chunk[..|chunk| - 1], chunk[|chunk| - 1];
      MissingSound(front, present);
      assert chunk == front + [last];
    }
  }

  lemma PersistChunkIdentities(t: Table, chunk: seq<SystemConfig>, insertOnly: bool)
    ensures Identities(PersistChunk(t, chunk, insertOnly).rows) == Identities(t.rows) + IdsOf(chunk)
  {
    var updated := if insertOnly then t else t.(rows := Assign(t.rows, ByIdentity(chunk)));
    SameIdentities(t.rows, updated.rows);
    var missing := Missing(chunk, Identities(t.rows));
    AppendAllRows(updated, missing);
    MissingSound(chunk, Identities(t.rows));
    var rows := PersistChunk(t, chunk, insertOnly).rows;
    forall r | r in updated.rows ensures r in rows {}
    forall c | c in missing ensures IdOf(c) in Identities(rows) {
      var i :| 0 <= i < |missing| && missing[i] == c;
      assert rows[|updated.rows| + i] == Row(updated.nextId + i, c);
    }
  }

  // Updating after inserting: fresh rows never match an identity the table already had.
  lemma UpdateBeforeInsert(t: Table, missing: seq<SystemConfig>, c: SystemConfig)
    requires forall m :: m in missing ==> IdOf(m) != IdOf(c)
    ensures AppendAll(t, missing).(rows := SetMatching(AppendAll(t, missing).rows, c))
         == AppendAll(t.(rows := SetMatching(t.rows, c)), missing)
  {
    AppendAllRows(t, missing);
    AppendAllRows(t.(rows := SetMatching(t.rows, c)), missing);
    var a := SetMatching(AppendAll(t, missing).rows, c);
    var b := AppendAll(t.(rows := SetMatching(t.rows, c)), missing).rows;
    forall i | 0 <= i < |a| ensures a[i] == b[i] {
      if i >= |t.rows| { assert missing[i - |t.rows|] in missing; }
    }
    assert a == b;
  }

  lemma AssignOneMore(rows: seq<Row>, values: map<Identity, SystemConfig>, c: SystemConfig)
    ensures SetMatching(Assign(rows, values), c) == Assign(rows, values[IdOf(c) := c])
  {}

  lemma AssignAbsent(rows: seq<Row>, values: map<Identity, SystemConfig>, c: SystemConfig)
    requires IdOf(c) !in Identities(rows)
    ensures Assign(rows, values) == Assign(rows, values[IdOf(c) := c])
  {
    forall i | 0 <= i < |rows| ensures IdOf(rows[i].config) != IdOf(c) {
      assert rows[i] in rows;
    }
  }

  // Within one chunk that has no fresh duplicate, the batch is the fold.
  lemma {:induction false} ChunkEqualsFold(t: Table, chunk: seq<SystemConfig>, insertOnly: bool)
    requires NoFreshDuplicate(chunk, Identities(t.rows))
    ensures PersistChunk(t, chunk, insertOnly) == SaveAll(t, chunk, insertOnly)
  {
    var present := Identities(t.rows);
    if chunk == [] {
      assert Assign(t.rows, map[]) == t.rows;
    } else {
      var front, last := chunk[..|chunk| - 1], chunk[|chunk| - 1];
      ChunkEqualsFold(t, front, insertOnly);
      SaveAllIdentities(t, front, insertOnly);
      MissingSound(front, present);
      if IdOf(last) in present {
        UpdateBeforeInsert(t.(rows := Assign(t.rows, ByIdentity(front))), Missing(front, present), last);
        AssignOneMore(t.rows, ByIdentity(front), last);
        assert Missing(chunk, present) == Missing(front, present);
      } else {
        AssignAbsent(t.rows, ByIdentity(front), last);
        assert IdOf(last) !in IdsOf(front);
        assert Missing(chunk, present) == Missing(front, present) + [last];
        assert Missing(chunk, present)[..|Missing(front, present)|] == Missing(front, present);
      }
    }
  }

  // A fold appends at most one row per identity that was absent, and so strictly
  // fewer rows than the batch when the chunk repeats an absent identity.
  lemma {:induction false} FoldGrowth(t: Table, chunk: seq<SystemConfig>, insertOnly: bool)
    ensures |SaveAll(t, chunk, insertOnly).rows| <= |t.rows| + |Missing(chunk, Identities(t.rows))|
    ensures !NoFreshDuplicate(chunk, Identities(t.rows)) ==>
      |SaveAll(t, chunk, insertOnly).rows| < |t.rows| + |Missing(chunk, Identities(t.rows))|
  {
    if chunk != [] {
      var front, last := chunk[..|chunk| - 1], chunk[|chunk| - 1];
      FoldGrowth(t, front, insertOnly);
      SaveAllIdentities(t, front, insertOnly);
      if !NoFreshDuplicate(chunk, Identities(t.rows)) && NoFreshDuplicate(front, Identities(t.rows)) {
        var i, j :| 0 <= i < j < |chunk| && IdOf(chunk[i]) == IdOf(chunk[j]) && IdOf(chunk[i]) !in Identities(t.rows);
        assert j == |front| && front[i] in front;
      }
    }
  }

  lemma ChunkGrowth(t: Table, chunk: seq<SystemConfig>, insertOnly: bool)
    ensures |PersistChunk(t, chunk, insertOnly).rows| == |t.rows| + |Missing(chunk, Identities(t.rows))|
  {
    var updated := if insertOnly then t else t.(rows := Assign(t.rows, ByIdentity(chunk)));
    AppendAllRows(updated, Missing(chunk, Identities(t.rows)));
  }

  lemma {:induction false} SaveAllConcat(t: Table, a: seq<SystemConfig>, b: seq<SystemConfig>, insertOnly: bool)
    ensures SaveAll(t, a + b, insertOnly) == SaveAll(SaveAll(t, a, insertOnly), b, insertOnly)
  {
    if b == [] {
      assert a + b == a;
    } else {
      var front := b[..|b| - 1];
      SaveAllConcat(t, a, front, insertOnly);
      assert (a + b)[..|a + b| - 1] == a + front;
    }
  }

  // Once the batch has more rows than the fold, it keeps them: both know the same identities.
  lemma {:induction false} BatchStaysAhead(a: Table, b: Table, configs: seq<SystemConfig>, insertOnly: bool)
    requires Identities(a.rows) == Identities(b.rows) && |a.rows| > |b.rows|
    ensures |PersistAll(a, configs, insertOnly).rows| > |SaveAll(b, configs, insertOnly).rows|
    decreases |configs|
  {
    if configs != [] {
      var k := ChunkSize(configs);
      var chunk, rest := configs[..k], configs[k..];
      ChunkGrowth(a, chunk, insertOnly);
      FoldGrowth(b, chunk, insertOnly);
      PersistChunkIdentities(a, chunk, insertOnly);
      SaveAllIdentities(b, chunk, insertOnly);
      BatchStaysAhead(PersistChunk(a, chunk, insertOnly), SaveAll(b, chunk, insertOnly), rest, insertOnly);
      SaveAllConcat(b, chunk, rest, insertOnly);
      assert configs == chunk + rest;
    }
  }

  // The chunked writer leaves exactly the table the one-row writer leaves, for any
  // table (also one with duplicate rows) and any list, if and only if no chunk
  // repeats an identity that has no row when that chunk begins.
  lemma {:induction false} BatchEqualsFold(t: Table, configs: seq<SystemConfig>, insertOnly: bool)
    ensures PersistAll(t, configs, insertOnly) == SaveAll(t, configs, insertOnly)
       <==> NoFreshDuplicates(configs, Identities(t.rows))
    decreases |configs|
  {
    if configs != [] {
      var k := ChunkSize(configs);
      var chunk, rest := configs[..k], configs[k..];
      var next := PersistChunk(t, chunk, insertOnly);
      assert configs == chunk + rest;
      SaveAllConcat(t, chunk, rest, insertOnly);
      PersistChunkIdentities(t, chunk, insertOnly);
      if NoFreshDuplicate(chunk, Identities(t.rows)) {
        ChunkEqualsFold(t, chunk, insertOnly);
        BatchEqualsFold(next, rest, insertOnly);
      } else {
        ChunkGrowth(t, chunk, insertOnly);
        FoldGrowth(t, chunk, insertOnly);
        SaveAllIdentities(t, chunk, insertOnly);
        BatchStaysAhead(next, SaveAll(t, chunk, insertOnly), rest, insertOnly);
      }
    }
  }

  // The lists the configuration manager builds come from a map, so their identities are distinct.
  lemma {:induction false} DistinctHasNoFreshDuplicates(configs: seq<SystemConfig>, present: set<Identity>)
    requires DistinctIdentities(configs)
    ensures NoFreshDuplicates(configs, present)
    decreases |configs|
  {
    if configs != [] {
      var k := ChunkSize(configs);
      DistinctHasNoFreshDuplicates(configs[k..], present + IdsOf(configs[..k]));
    }
  }

  // The condition is needed: two equal fresh settings in one chunk end up as two rows.
  lemma FreshDuplicateInsertsTwice(c: SystemConfig)
    ensures |PersistAll(Table([], 1), [c, c], false).rows| == 2
    ensures |SaveAll(Table([], 1), [c, c], false).rows| == 1
  {
    var t, cs := Table([], 1), [c, c];
    assert cs[..2] == cs && cs[..1] == [c] && [c][..0] == [] && cs[2..] == [];
    assert Missing([c], {}) == [c] && Missing(cs, {}) == [c, c];
    ChunkGrowth(t, cs, false);
    assert Identities(t.rows) == {};
    assert SaveAll(t, [c], false) == Append(t, c);
    assert t.rows + [Row(1, c)] == [Row(1, c)];
    assert Row(1, c) in Append(t, c).rows;
  }

  // ---------- What a save means for a reader ----------

  // The last setting of the list that has this identity.
  ghost function LastFor(configs: seq<SystemConfig>, id: Identity): SystemConfig
    requires id in IdsOf(configs)
  {
    var last := configs[|configs| - 1];
    if IdOf(last) == id then last
    else
      assert configs == configs[..|configs| - 1] + [last];
      LastFor(configs[..|configs| - 1], id)
  }

  // And the first one.
  ghost function FirstFor(configs: seq<SystemConfig>, id: Identity): SystemConfig
    requires id in IdsOf(configs)
  {
    var front, last := configs[..|configs| - 1], configs[|configs| - 1];
    assert configs == front + [last];
    if id in IdsOf(front) then FirstFor(front, id) else last
  }

  // Which of the settings with this identity these are.
  lemma {:induction false} LastForIs(configs: seq<SystemConfig>, k: nat)
    requires k < |configs| && forall m :: k < m < |configs| ==> IdOf(configs[m]) != IdOf(configs[k])
    ensures IdOf(configs[k]) in IdsOf(configs) && LastFor(configs, IdOf(configs[k])) == configs[k]
  {
    assert configs[k] in configs;
    if k < |configs| - 1 {
      LastForIs(configs[..|configs| - 1], k);
    }
  }

  lemma {:induction false} FirstForIs(configs: seq<SystemConfig>, k: nat)
    requires k < |configs| && forall m :: 0 <= m < k ==> IdOf(configs[m]) != IdOf(configs[k])
    ensures IdOf(configs[k]) in IdsOf(configs) && FirstFor(configs, IdOf(configs[k])) == configs[k]
  {
    var front := configs[..|configs| - 1];
    assert configs[k] in configs;
    if k < |configs| - 1 {
      FirstForIs(front, k);
    } else {
      forall c | c in front ensures IdOf(c) != IdOf(configs[k]) {}
    }
  }

  // The row has not changed but for its value and its visibility.
  ghost predicate SameButValue(before: Row, after: Row) {
    && after.id == before.id && after.config.category == before.config.category
    && after.config.key == before.config.key && after.config.description == before.config.description
  }

  ghost predicate HasValueOf(r: Row, c: SystemConfig) {
    r.config.value == c.value && r.config.isPublic == c.isPublic
  }

  // Every row that existed keeps its place, id, identity and description. With upserts it
  // carries the last value given for its identity; with insert-only it is untouched.
  lemma {:induction false} ExistingRowsAfterSave(t: Table, configs: seq<SystemConfig>, insertOnly: bool, i: nat)
    requires i < |t.rows|
    ensures var rows, id := SaveAll(t, configs, insertOnly).rows, IdOf(t.rows[i].config);
      && i < |rows| && SameButValue(t.rows[i], rows[i])
      && HasValueOf(rows[i], if insertOnly || id !in IdsOf(configs) then t.rows[i].config else LastFor(configs, id))
  {
    if configs != [] {
      var front, last := configs[..|configs| - 1], configs[|configs| - 1];
      ExistingRowsAfterSave(t, front, insertOnly, i);
      SaveAllIdentities(t, front, insertOnly);
      assert configs == front + [last];
      assert t.rows[i] in t.rows;
    }
  }

  // A row that is new has the next id, an identity that was absent, and the fields of the
  // first setting given for it; with upserts the value and visibility of the last.
  lemma {:induction false} FreshRowsAfterSave(t: Table, configs: seq<SystemConfig>, insertOnly: bool, i: nat)
    requires |t.rows| <= i < |SaveAll(t, configs, insertOnly).rows|
    ensures |t.rows| + SaveAll(t, configs, insertOnly).nextId == |SaveAll(t, configs, insertOnly).rows| + t.nextId
    ensures var r := SaveAll(t, configs, insertOnly).rows[i];
      var id := Identity(r.config.category, r.config.key);
      && r.id == t.nextId + (i - |t.rows|)
      && id in IdsOf(configs) && id !in Identities(t.rows)
      && r.config.description == FirstFor(configs, id).description
      && HasValueOf(r, if insertOnly then FirstFor(configs, id) else LastFor(configs, id))
  {
    var front, last := configs[..|configs| - 1], configs[|configs| - 1];
    var before := SaveAll(t, front, insertOnly);
    SaveAllIdentities(t, front, insertOnly);
    SaveAllGrows(t, front, insertOnly);
    assert configs == front + [last];
    if i < |before.rows| {
      FreshRowsAfterSave(t, front, insertOnly, i);
      assert before.rows[i] in before.rows;
    }
  }

  lemma {:induction false} SaveAllGrows(t: Table, configs: seq<SystemConfig>, insertOnly: bool)
    ensures var r := SaveAll(t, configs, insertOnly);
      |t.rows| <= |r.rows| && r.nextId - t.nextId == |r.rows| - |t.rows|
  {
    if configs != [] {
      SaveAllGrows(t, configs[..|configs| - 1], insertOnly);
    }
  }

  lemma {:induction false} ByIdentityIsLast(chunk: seq<SystemConfig>, id: Identity)
    requires id in IdsOf(chunk)
    ensures id in ByIdentity(chunk) && ByIdentity(chunk)[id] == LastFor(chunk, id)
  {
    var front, last := chunk[..|chunk| - 1], chunk[|chunk| - 1];
    assert chunk == front + [last];
    if IdOf(last) != id { ByIdentityIsLast(front, id); }
  }

  lemma {:induction false} LastForConcat(a: seq<SystemConfig>, b: seq<SystemConfig>, id: Identity)
    requires id in IdsOf(a + b)
    ensures id in IdsOf(b) ==> LastFor(a + b, id) == LastFor(b, id)
    ensures id !in IdsOf(b) ==> id in IdsOf(a) && LastFor(a + b, id) == LastFor(a, id)
  {
    if b == [] {
      assert a + b == a;
    } else {
      var front, last := b[..|b| - 1], b[|b| - 1];
      assert b == front + [last] && (a + b)[..|a + b| - 1] == a + front && a + b == (a + front) + [last];
      if IdOf(last) != id { LastForConcat(a, front, id); }
    }
  }

  lemma ExistingRowsAfterChunk(t: Table, chunk: seq<SystemConfig>, insertOnly: bool, i: nat)
    requires i < |t.rows|
    ensures var rows, id := PersistChunk(t, chunk, insertOnly).rows, IdOf(t.rows[i].config);
      && i < |rows| && SameButValue(t.rows[i], rows[i])
      && HasValueOf(rows[i], if insertOnly || id !in IdsOf(chunk) then t.rows[i].config else LastFor(chunk, id))
  {
    var id := IdOf(t.rows[i].config);
    var updated := if insertOnly then t else t.(rows := Assign(t.rows, ByIdentity(chunk)));
    AppendAllRows(updated, Missing(chunk, Identities(t.rows)));
    ByIdentityKeys(chunk);
    if id in IdsOf(chunk) { ByIdentityIsLast(chunk, id); }
  }

  // The chunked writer does the same to the rows that existed, also where it inserts too
  // many new ones.
  lemma {:induction false} ExistingRowsAfterBatch(t: Table, configs: seq<SystemConfig>, insertOnly: bool, i: nat)
    requires i < |t.rows|
    ensures var rows, id := PersistAll(t, configs, insertOnly).rows, IdOf(t.rows[i].config);
      && i < |rows| && SameButValue(t.rows[i], rows[i])
      && HasValueOf(rows[i], if insertOnly || id !in IdsOf(configs) then t.rows[i].config else LastFor(configs, id))
    decreases |configs|
  {
    if configs != [] {
      var k, id := ChunkSize(configs), IdOf(t.rows[i].config);
      var chunk, rest := configs[..k], configs[k..];
      ExistingRowsAfterChunk(t, chunk, insertOnly, i);
      ExistingRowsAfterBatch(PersistChunk(t, chunk, insertOnly), rest, insertOnly, i);
      assert configs == chunk + rest;
      if id in IdsOf(configs) { LastForConcat(chunk, rest, id); }
    }
  }

  // Every requested identity has a row afterwards; after upserts each of its rows,
  // old duplicates included, reads the last value that was asked for.
  lemma {:induction false} RequestedRowsAfterSave(t: Table, configs: seq<SystemConfig>, insertOnly: bool, id: Identity)
    requires id in IdsOf(configs)
    ensures id in Identities(SaveAll(t, configs, insertOnly).rows)
    ensures !insertOnly ==> forall r :: r in SaveAll(t, configs, insertOnly).rows && IdOf(r.config) == id ==>
      r.config.value == LastFor(configs, id).value && r.config.isPublic == LastFor(configs, id).isPublic
  {
    SaveAllIdentities(t, configs, insertOnly);
    var front, last := configs[..|configs| - 1], configs[|configs| - 1];
    assert configs == front + [last];
    if !insertOnly {
      var before := SaveAll(t, front, false);
      if IdOf(last) == id {
        forall r | r in SaveAll(t, configs, false).rows && IdOf(r.config) == id
          ensures r.config.value == last.value && r.config.isPublic == last.isPublic
        {
          if id !in Identities(before.rows) {
            forall q | q in before.rows ensures IdOf(q.config) != id {}
          }
        }
      } else {
        RequestedRowsAfterSave(t, front, false, id);
        SaveAllIdentities(t, front, false);
        forall r | r in SaveAll(t, configs, false).rows && IdOf(r.config) == id ensures r in before.rows {}
      }
    }
  }

  lemma {:induction false} SaveAllAllPresent(t: Table, configs: seq<SystemConfig>)
    requires IdsOf(configs) <= Identities(t.rows)
    ensures SaveAll(t, configs, true) == t
  {
    if configs != [] {
      var front, last := configs[..|configs| - 1], configs[|configs| - 1];
      assert configs == front + [last];
      SaveAllAllPresent(t, front);
      assert last in configs;
    }
  }

  lemma {:induction false} PersistAllGrows(t: Table, configs: seq<SystemConfig>)
    ensures var after := PersistAll(t, configs, true);
      t.rows <= after.rows && IdsOf(configs) <= Identities(after.rows) && Identities(t.rows) <= Identities(after.rows)
    decreases |configs|
  {
    if configs != [] {
      var k := ChunkSize(configs);
      var next := PersistChunk(t, configs[..k], true);
      AppendAllRows(t, Missing(configs[..k], Identities(t.rows)));
      PersistChunkIdentities(t, configs[..k], true);
      PersistAllGrows(next, configs[k..]);
      assert configs == configs[..k] + configs[k..];
    }
  }

  // A list of settings that all have a row repeats none that is fresh.
  lemma {:induction false} PresentAreNotFresh(configs: seq<SystemConfig>, present: set<Identity>)
    requires IdsOf(configs) <= present
    ensures NoFreshDuplicates(configs, present)
    decreases |configs|
  {
    if configs != [] {
      var k := ChunkSize(configs);
      forall c | c in configs ensures IdOf(c) in present {}
      forall c | c in configs[k..] ensures c in configs {}
      assert NoFreshDuplicate(configs[..k], present);
      PresentAreNotFresh(configs[k..], present + IdsOf(configs[..k]));
    }
  }

  // Insert-only, for any table and any list, also one that repeats a fresh identity: no
  // existing row changes, every identity is present, and a second identical call changes
  // nothing.
  lemma InsertOnlyBatchIsIdempotent(t: Table, configs: seq<SystemConfig>)
    ensures var after := PersistAll(t, configs, true);
      && t.rows <= after.rows
      && IdsOf(configs) <= Identities(after.rows)
      && PersistAll(after, configs, true) == after
  {
    var after := PersistAll(t, configs, true);
    PersistAllGrows(t, configs);
    PresentAreNotFresh(configs, Identities(after.rows));
    BatchEqualsFold(after, configs, true);
    SaveAllAllPresent(after, configs);
  }

  // Saving never breaks the primary key.
  lemma {:induction false} SaveAllWellKeyed(t: Table, configs: seq<SystemConfig>, insertOnly: bool)
    requires WellKeyed(t)
    ensures WellKeyed(SaveAll(t, configs, insertOnly))
  {
    if configs != [] {
      SaveAllWellKeyed(t, configs[..|configs| - 1], insertOnly);
    }
  }
}
