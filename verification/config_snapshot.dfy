// The nested configuration that readers get: built from the cached settings, whose keys
// are split at their dots, in whatever order the cache yields them.

module ConfigSnapshot {
  import opened Collections
  import opened Text
  import opened ConfigTree
  import opened ConfigMaps
  import opened QuotaLevels
  import opened ConfigManagement

  // System-level entries are left out.
  ghost function Shown(cache: Config): Config {
    map k | k in cache && !IsSystemLevel(k) :: cache[k]
  }

  ghost predicate SnapshotOrder(order: seq<string>, cache: Config) {
    OrderOf(order, Shown(cache))
  }

  ghost function Snapshot(cache: Config, order: seq<string>): Config {
    Rebuild(Shown(cache), order)
  }

  method BuildNestedConfigSnapshot(cache: Config) returns (nested: ConfigMap, ghost order: seq<string>)
    ensures fresh(nested.Repr) && nested.Valid()
    ensures SnapshotOrder(order, cache) && nested.tree == Snapshot(cache, order)
  {
    nested := new ConfigMap(map[]);
    order := [];
    var remaining := cache.Keys;
    ghost var done: set<string> := {};
    while remaining != {}
      invariant remaining <= cache.Keys && done == Shown(cache).Keys - remaining
      invariant fresh(nested.Repr) && nested.Valid()
      invariant Visited(order, done) && nested.tree == Snapshot(cache, order)
    {
      var key :| key in remaining;
      remaining := remaining - {key};
      if IsSystemLevel(key) {
        continue;
      }
      VisitOne(order, done, key);
      RebuildSnoc(Shown(cache), order, key);
      order, done := order + [key], done + {key};
      nested.SetKey(key, cache[key]);
    }
  }

  // ---------- What one entry does at a path ----------

  // What a value holds at the rest of a path.
  ghost function ReadIn(v: Value, path: seq<string>): Option<Value> {
    if path == [] then Some(v) else if v.Tree? then Get(v.kids, path) else None
  }

  ghost function KidsAt(c: Config, path: seq<string>): Config
    requires path != []
  {
    var v := Get(c, path);
    if v.Some? && v.value.Tree? then v.value.kids else map[]
  }

  // An entry on the way to the path, or on it.
  lemma {:induction false} GetBelowPut(c: Config, s: seq<string>, v: Value, p: seq<string>)
    requires s != [] && s <= p
    ensures Get(Put(c, s, v), p) == ReadIn(v, p[|s|..])
    decreases |s|
  {
    if |s| > 1 {
      GetBelowPut(Below(c, s[0]), s[1..], v, p[1..]);
      assert p[1..][|s| - 1..] == p[|s|..];
    }
  }

  // An entry beyond the path.
  lemma {:induction false} GetAbovePut(c: Config, s: seq<string>, v: Value, p: seq<string>)
    requires p != [] && p < s
    ensures Get(Put(c, s, v), p) == Some(Tree(Put(KidsAt(c, p), s[|p|..], v)))
    decreases |p|
  {
    if |p| > 1 {
      GetAbovePut(Below(c, s[0]), s[1..], v, p[1..]);
      assert s[1..][|p| - 1..] == s[|p|..];
    }
  }

  // The entry puts something at the path: it is there or beyond, or a map on the way holds it.
  ghost predicate Reaches(s: seq<string>, v: Value, p: seq<string>) {
    p <= s || (s <= p && ReadIn(v, p[|s|..]).Some?)
  }

  lemma SetIff(c: Config, s: seq<string>, v: Value, p: seq<string>)
    requires s != [] && p != []
    ensures Get(Put(c, s, v), p).Some? ==> Get(c, p).Some? || Reaches(s, v, p)
    ensures Reaches(s, v, p) ==> Get(Put(c, s, v), p).Some?
  {
    ApartIff(s, p);
    if s <= p {
      GetBelowPut(c, s, v, p);
    } else if p <= s {
      GetAbovePut(c, s, v, p);
    } else {
      PutFrame(c, s, v, p);
    }
  }

  // The entry leaves w at the path: it is elsewhere, a map on the way holds w there, or what
  // it puts beyond the path is in w already.
  ghost predicate Agrees(s: seq<string>, v: Value, p: seq<string>, w: Value) {
    if s <= p then ReadIn(v, p[|s|..]) == Some(w)
    else if p <= s then w.Tree? && Put(w.kids, s[|p|..], v) == w.kids
    else true
  }

  lemma AgreesIff(c: Config, s: seq<string>, v: Value, p: seq<string>, w: Value)
    requires s != [] && p != [] && Get(c, p) == Some(w)
    ensures Get(Put(c, s, v), p) == Some(w) <==> Agrees(s, v, p, w)
  {
    ApartIff(s, p);
    if s <= p {
      GetBelowPut(c, s, v, p);
    } else if p <= s {
      GetAbovePut(c, s, v, p);
    } else {
      PutFrame(c, s, v, p);
    }
  }

  // ---------- Orders ----------

  lemma {:induction false} SomeOrder(keys: set<string>) returns (order: seq<string>)
    ensures Visited(order, keys)
    decreases |keys|
  {
    order := [];
    if k :| k in keys {
      var front := SomeOrder(keys - {k});
      VisitOne(front, keys - {k}, k);
      assert keys - {k} + {k} == keys;
      order := front + [k];
    }
  }

  // The entries of a flat map can be gone over so that a given one is last.
  lemma LastInOrder(flat: Config, k: string) returns (front: seq<string>)
    requires k in flat
    ensures OrderOf(front + [k], flat)
  {
    front := SomeOrder(flat.Keys - {k});
    VisitOne(front, flat.Keys - {k}, k);
    assert flat.Keys - {k} + {k} == flat.Keys;
  }

  lemma LastTwoInOrder(flat: Config, j: string, k: string) returns (front: seq<string>)
    requires j in flat && k in flat && j != k
    ensures OrderOf(front + [j] + [k], flat)
  {
    front := SomeOrder(flat.Keys - {j, k});
    VisitOne(front, flat.Keys - {j, k}, j);
    VisitOne(front + [j], flat.Keys - {j, k} + {j}, k);
    assert flat.Keys - {j, k} + {j} + {k} == flat.Keys;
  }

  // ---------- Paths nobody sets ----------

  ghost predicate NoneReaches(flat: Config, p: seq<string>) {
    forall k :: k in flat && Segments(k) != [] ==> !Reaches(Segments(k), flat[k], p)
  }

  lemma {:induction false} StaysUnset(flat: Config, order: seq<string>, p: seq<string>)
    requires NoneReaches(flat, p) && p != []
    ensures Get(Rebuild(flat, order), p) == None
  {
    if order != [] {
      var k := order[|order| - 1];
      StaysUnset(flat, order[..|order| - 1], p);
      if k in flat && Segments(k) != [] {
        SetIff(Rebuild(flat, order[..|order| - 1]), Segments(k), flat[k], p);
      }
    }
  }

  // A path is unset in the snapshot, in whatever order it is built, if and only if no entry
  // that is shown reaches it.
  lemma PathUnsetIff(cache: Config, p: seq<string>)
    requires p != []
    ensures (forall order :: SnapshotOrder(order, cache) ==> Get(Snapshot(cache, order), p) == None)
      <==> NoneReaches(Shown(cache), p)
  {
    var flat := Shown(cache);
    if NoneReaches(flat, p) {
      forall order | SnapshotOrder(order, cache) ensures Get(Snapshot(cache, order), p) == None {
        StaysUnset(flat, order, p);
      }
    } else {
      var k :| k in flat && Segments(k) != [] && Reaches(Segments(k), flat[k], p);
      var front := LastInOrder(flat, k);
      RebuildSnoc(flat, front, k);
      SetIff(Rebuild(flat, front), Segments(k), flat[k], p);
      assert SnapshotOrder(front + [k], cache) && Get(Snapshot(cache, front + [k]), p) != None;
    }
  }

  // ---------- Entries that readers see as they are cached ----------

  ghost predicate OthersAgree(flat: Config, key: string)
    requires key in flat
  {
    forall k :: k in flat && k != key && Segments(k) != [] ==> Agrees(Segments(k), flat[k], Segments(key), flat[key])
  }

  lemma {:induction false} StaysAsCached(flat: Config, order: seq<string>, key: string)
    requires key in flat && key in order && Segments(key) != [] && OthersAgree(flat, key)
    ensures Get(Rebuild(flat, order), Segments(key)) == Some(flat[key])
  {
    var front, k := order[..|order| - 1], order[|order| - 1];
    assert order == front + [k];
    if k == key {
      GetPut(Rebuild(flat, front), Segments(key), flat[key]);
    } else {
      StaysAsCached(flat, front, key);
      if k in flat && Segments(k) != [] {
        AgreesIff(Rebuild(flat, front), Segments(k), flat[k], Segments(key), flat[key]);
      }
    }
  }

  // An entry that does not agree is seen when it comes right after the other.
  lemma DisagreementShows(flat: Config, key: string, k: string) returns (order: seq<string>)
    requires key in flat && k in flat && k != key && Segments(key) != [] && Segments(k) != []
    requires !Agrees(Segments(k), flat[k], Segments(key), flat[key])
    ensures OrderOf(order, flat) && Get(Rebuild(flat, order), Segments(key)) != Some(flat[key])
  {
    var front := LastTwoInOrder(flat, key, k);
    order := front + [key] + [k];
    RebuildSnoc(flat, front, key);
    RebuildSnoc(flat, front + [key], k);
    GetPut(Rebuild(flat, front), Segments(key), flat[key]);
    AgreesIff(Rebuild(flat, front + [key]), Segments(k), flat[k], Segments(key), flat[key]);
  }

  // The snapshot has the cached value at the path of its key, in whatever order it is built,
  // if and only if every other entry that is shown agrees.
  lemma ReadAsCachedIff(cache: Config, key: string)
    requires key in cache && !IsSystemLevel(key) && Segments(key) != []
    ensures (forall order :: SnapshotOrder(order, cache) ==> Get(Snapshot(cache, order), Segments(key)) == Some(cache[key]))
      <==> OthersAgree(Shown(cache), key)
  {
    var flat := Shown(cache);
    if OthersAgree(flat, key) {
      forall order | SnapshotOrder(order, cache) ensures Get(Snapshot(cache, order), Segments(key)) == Some(cache[key]) {
        StaysAsCached(flat, order, key);
      }
    } else {
      var k :| k in flat && k != key && Segments(k) != [] && !Agrees(Segments(k), flat[k], Segments(key), flat[key]);
      var order := DisagreementShows(flat, key, k);
      assert SnapshotOrder(order, cache);
    }
  }

  // ---------- Over whole runs ----------

  // A saved call keeps a path unset exactly if none of the entries it saves reaches it.
  lemma UnsetAfterSavedIff(before: Config, call: Call, after: Config, p: seq<string>)
    requires CallEffect(before, call, after) && call.outcome.Saved? && NoneReaches(Shown(before), p)
    ensures NoneReaches(Shown(after), p) <==> NoneReaches(Shown(CompletedAll(call.flat)), p)
  {
    var saved := CompletedAll(call.flat);
    if NoneReaches(Shown(saved), p) {
      forall k | k in Shown(after) && Segments(k) != [] ensures !Reaches(Segments(k), after[k], p) {
        assert if k in saved then k in Shown(saved) && after[k] == saved[k] else k in Shown(before) && after[k] == before[k];
      }
    } else {
      var k :| k in Shown(saved) && Segments(k) != [] && Reaches(Segments(k), saved[k], p);
      assert k in Shown(after) && after[k] == saved[k];
    }
  }

  // A failed call may leave nulls under its own keys.
  lemma UnsetAfterFailed(before: Config, call: Call, after: Config, p: seq<string>)
    requires CallEffect(before, call, after) && call.outcome.Faulted? && NoneReaches(Shown(before), p)
    requires NoneReaches(Shown(CompletedAll(call.flat)), p)
    ensures NoneReaches(Shown(after), p)
  {
    var saved := CompletedAll(call.flat);
    forall k | k in Shown(after) && Segments(k) != [] ensures !Reaches(Segments(k), after[k], p) {
      assert Read(before, k) == Read(after, k);
      if k in before {
        assert k in Shown(before);
      } else {
        assert k in Shown(saved) && after[k] == Nil;
      }
    }
  }

  // The entries of the call stay away from the path, if it gets as far as the cache.
  ghost predicate StaysAway(call: Call, p: seq<string>) {
    !call.outcome.Refused? && ValuesOk(call.flat) ==> NoneReaches(Shown(CompletedAll(call.flat)), p)
  }

  lemma {:induction false} NoneReachesAfter(caches: seq<Config>, calls: seq<Call>, p: seq<string>)
    requires Run(caches, calls) && NoneReaches(Shown(caches[0]), p)
    requires forall i :: 0 <= i < |calls| ==> StaysAway(calls[i], p)
    ensures NoneReaches(Shown(caches[|calls|]), p)
    decreases |calls|
  {
    if calls != [] {
      var n := |calls| - 1;
      RunPrefix(caches, calls);
      NoneReachesAfter(caches[..n + 1], calls[..n], p);
      assert StaysAway(calls[n], p);
      match calls[n].outcome {
        case Saved => UnsetAfterSavedIff(caches[n], calls[n], caches[n + 1], p);
        case Faulted => UnsetAfterFailed(caches[n], calls[n], caches[n + 1], p);
        case Refused =>
      }
    }
  }

  // A path that no entry reaches at the start, the one of a system-level key in particular,
  // stays unset in every snapshot, as long as no call has an entry that reaches it.
  lemma PathStaysUnset(caches: seq<Config>, calls: seq<Call>, p: seq<string>, order: seq<string>)
    requires Run(caches, calls) && p != [] && NoneReaches(Shown(caches[0]), p)
    requires forall i :: 0 <= i < |calls| ==> StaysAway(calls[i], p)
    requires SnapshotOrder(order, caches[|calls|])
    ensures Get(Snapshot(caches[|calls|], order), p) == None
  {
    NoneReachesAfter(caches, calls, p);
    PathUnsetIff(caches[|calls|], p);
  }

  lemma LevelLimitsPath()
    ensures Segments(LEVEL_LIMITS) == ["quota", "level-limits"]
  {
    var path := ["quota", "level-limits"];
    assert path[1..] == ["level-limits"];
    assert Join(path, '.') == "quota" + ['.'] + "level-limits" == LEVEL_LIMITS;
    SegmentsOfJoin(path);
  }

  // The limits that readers get are the cached ones, and so complete, in every snapshot
  // after every run, if every other entry agrees with them; and only then are they the
  // cached ones in every snapshot.
  lemma LevelsReadAsCached(caches: seq<Config>, calls: seq<Call>)
    requires Run(caches, calls) && LevelsComplete(caches[0]) && LEVEL_LIMITS in caches[|calls|]
    ensures var last := caches[|calls|];
      && !IsSystemLevel(LEVEL_LIMITS) && LevelsComplete(last)
      && ((forall order :: SnapshotOrder(order, last) ==>
            Get(Snapshot(last, order), ["quota", "level-limits"]) == Some(last[LEVEL_LIMITS]))
          <==> OthersAgree(Shown(last), LEVEL_LIMITS))
  {
    QuotaIsNotSystemLevel(LEVEL_LIMITS);
    LevelsStayComplete(caches, calls);
    LevelLimitsPath();
    ReadAsCachedIff(caches[|calls|], LEVEL_LIMITS);
  }

  // ---------- A key with an empty segment ----------

  lemma OddKeyIsNoMySQLKey(key: string)
    requires |key| > 6 && key[6] == '.'
    ensures key !in MYSQL_KEYS
  {}

  lemma OddKeyIsNoSystemKey(key: string)
    requires |key| > 6 && key[0] == 'm' && key[1] == 'y' && key[6] == '.'
    ensures !IsSystemLevel(key)
  {
    assert "mariadb."[1] == 'a';
    StartsNoSystemKey(key);
    OddKeyIsNoMySQLKey(key);
    StartsNoRedisKey(key);
    StartsNoZapKey(key);
  }

  lemma OddKeyHasNoRule(key: string)
    requires key != "" && key[0] == 'm'
    ensures RuleFor(key).None? && key != DEFAULT_LEVEL && key != LEVEL_LIMITS
  {}

  lemma JoinThree(a: string, b: string, c: string)
    ensures Join([a, b, c], '.') == a + "." + (b + "." + c)
  {
    assert [a, b, c][1..] == [b, c] && [b, c][1..] == [c];
    assert Join([c], '.') == c;
    assert Join([b, c], '.') == b + "." + c;
    assert a + "." + (b + "." + c) == a + ['.'] + Join([b, c], '.');
  }

  lemma DroppedSegment(a: string, b: string)
    requires GoodKey(a) && GoodKey(b)
    ensures Segments(a + ".." + b) == [a, b]
  {
    var parts := [a, "", b];
    JoinThree(a, "", b);
    assert a + "." + ("" + "." + b) == a + ".." + b;
    SplitJoin(parts, '.');
    assert parts[..2] == [a, ""] && [a, ""][..1] == [a] && [a][..0] == [];
    assert NonEmpty([a]) == [a];
    assert NonEmpty([a, ""]) == [a];
  }

  lemma OneEntrySnapshot(key: string, v: Value)
    requires !IsSystemLevel(key) && Segments(key) != []
    ensures SnapshotOrder([key], map[key := v])
    ensures Get(Snapshot(map[key := v], [key]), Segments(key)) == Some(v)
  {
    var cache := map[key := v];
    assert Shown(cache) == cache;
    RebuildSnoc(cache, [], key);
    assert [] + [key] == [key];
    GetPut(map[], Segments(key), v);
  }

  lemma PlainEntryIsAcceptable(cache: Config, key: string, v: Value, users: Option<set<int>>)
    requires !IsSystemLevel(key) && RuleFor(key).None? && key != DEFAULT_LEVEL && key != LEVEL_LIMITS
    ensures Acceptable(cache, map[key := v], users)
  {
    var flat := map[key := v];
    assert forall k :: k in flat ==> k == key;
  }

  lemma OddKey(section: string, name: string)
    requires section == "mysql"
    ensures var key := section + ".." + name; |key| > 6 && key[0] == 'm' && key[1] == 'y' && key[6] == '.'
  {}

  // The rule for system-level keys looks at the whole key, the snapshot at its segments: an
  // entry with an empty segment is accepted, and read where a system-level key would be.
  lemma EmptySegmentsAreDropped(cache: Config, section: string, name: string, v: Value, users: Option<set<int>>)
    requires section == "mysql" && GoodKey(name)
    ensures var key := section + ".." + name;
      && Acceptable(cache, map[key := v], users)
      && SnapshotOrder([key], map[key := v])
      && Get(Snapshot(map[key := v], [key]), [section, name]) == Some(v)
  {
    var key := section + ".." + name;
    OddKey(section, name);
    assert GoodKey(section);
    DroppedSegment(section, name);
    OddKeyIsNoSystemKey(key);
    OddKeyHasNoRule(key);
    OneEntrySnapshot(key, v);
    PlainEntryIsAcceptable(cache, key, v, users);
  }
}
