// Batch updates of the configuration cache: what is refused, what a failure restores,
// and what holds over every run of updates.

module ConfigManagement {
  import opened Text
  import opened ConfigTree
  import opened QuotaLevels

  const DEFAULT_LEVEL := "quota.default-level"
  const LEVEL_LIMITS := "quota.level-limits"

  // Needed to start, so they come from the configuration file only.
  const SYSTEM_KEYS := {
    "system.addr", "system.db-type", "system.env", "system.frontend-url", "system.iplimit-count",
    "system.iplimit-time", "system.oauth2-state-token-minutes", "system.oss-type",
    "system.provider-inactive-hours", "system.enable-instance-recovery", "system.instance-recovery-interval",
    "system.instance-recovery-offline-minutes", "system.use-multipoint", "system.use-redis"
  }

  const MYSQL_KEYS := {
    "mysql.path", "mysql.port", "mysql.config", "mysql.db-name", "mysql.username", "mysql.password",
    "mysql.prefix", "mysql.singular", "mysql.engine", "mysql.max-idle-conns", "mysql.max-open-conns",
    "mysql.max-lifetime", "mysql.log-mode", "mysql.log-zap", "mysql.auto-create"
  }

  const REDIS_KEYS := {
    "redis.addr", "redis.password", "redis.db"
  }

  const ZAP_KEYS := {
    "zap.level", "zap.format", "zap.prefix", "zap.director", "zap.encode-level", "zap.stacktrace-key",
    "zap.max-file-size", "zap.max-backups", "zap.max-log-length", "zap.retention-day", "zap.show-line",
    "zap.log-in-console", "zap.max-string-length", "zap.max-array-elements"
  }

  const SYSTEM_LEVEL_KEYS := SYSTEM_KEYS + MYSQL_KEYS + REDIS_KEYS + ZAP_KEYS

  predicate IsSystemLevel(key: string) {
    var name := if "mariadb." <= key then "mysql." + key[|"mariadb."|..] else key;
    name in SYSTEM_LEVEL_KEYS
  }

  // A missing entry reads as null.
  function Read(c: Config, key: string): Value {
    if key in c then c[key] else Nil
  }

  ghost predicate ReadsAlike(c: Config, d: Config) {
    forall k :: Read(c, k) == Read(d, k)
  }

  // ---------- Rules for single values ----------

  datatype Rule = BoolRule(required: bool) | IntRule(required: bool, min: int, max: int) | LimitsRule

  function RuleFor(key: string): Option<Rule> {
    if key == "auth.enable-email" then Some(BoolRule(true))
    else if key == "auth.enable-oauth2" then Some(BoolRule(false))
    else if key == "auth.email-smtp-port" then Some(IntRule(false, 1, 65535))
    else if key == DEFAULT_LEVEL then Some(IntRule(true, 1, 99))
    else if key == LEVEL_LIMITS then Some(LimitsRule)
    else None
  }

  ghost predicate ValueOk(key: string, v: Value) {
    match RuleFor(key)
    case None => true
    case Some(LimitsRule) => v.Tree? && AllFill(v.kids)
    case Some(BoolRule(_)) => v.Bool?
    case Some(IntRule(_, min, max)) => RoundedInt(v).Some? && min <= RoundedInt(v).value <= max
  }

  // The value as it will be saved: level limits get their missing fields.
  ghost function Completed(key: string, v: Value): Value
    requires ValueOk(key, v)
  {
    if key == LEVEL_LIMITS then Tree(Filled(v.kids)) else v
  }

  // The values that the rules let pass, setting by setting.
  lemma RulesAre(v: Value)
    ensures ValueOk("auth.enable-email", v) <==> v.Bool?
    ensures ValueOk("auth.enable-oauth2", v) <==> v.Bool?
    ensures ValueOk("auth.email-smtp-port", v) <==> match v
      case Int(i) => 1 <= i <= 65535
      case Int64(i) => 1 <= i <= 65535
      case Float(r) => 1.0 <= r < 65536.0
      case _ => false
    ensures ValueOk("quota.default-level", v) <==> match v
      case Int(i) => 1 <= i <= 99
      case Int64(i) => 1 <= i <= 99
      case Float(r) => 1.0 <= r < 100.0
      case _ => false
    ensures ValueOk("quota.level-limits", v) <==> v.Tree? && AllFill(v.kids)
  {
    EmailRules(v);
    QuotaRules(v);
  }

  lemma EmailRules(v: Value)
    ensures ValueOk("auth.enable-email", v) <==> v.Bool?
    ensures ValueOk("auth.enable-oauth2", v) <==> v.Bool?
    ensures ValueOk("auth.email-smtp-port", v) <==> RoundedInt(v).Some? && 1 <= RoundedInt(v).value <= 65535
  {}

  lemma QuotaRules(v: Value)
    ensures ValueOk("quota.default-level", v) <==> RoundedInt(v).Some? && 1 <= RoundedInt(v).value <= 99
    ensures ValueOk("quota.level-limits", v) <==> v.Tree? && AllFill(v.kids)
  {}

  method ValidateConfig(key: string, value: Value) returns (ok: bool, completed: Value)
    ensures ok <==> ValueOk(key, value)
    ensures ok ==> completed == Completed(key, value)
  {
    completed := value;
    var rule := RuleFor(key);
    if rule.None? {
      return true, completed;
    }
    if rule.value.LimitsRule? {
      ok, completed := ValidateLevelLimits(value);
      return;
    }
    if rule.value.required && value == Nil {
      return false, completed;
    }
    match rule.value {
      case IntRule(_, min, max) =>
        var intVal := RoundedInt(value);
        ok := intVal.Some? && intVal.value >= min && intVal.value <= max;
      case BoolRule(_) =>
        ok := value.Bool?;
    }
  }

  // ---------- What an update must satisfy ----------

  // The default level names a configured level limit.
  ghost predicate DefaultLevelConfigured(c: Config) {
    var level, limits := ToInt(Read(c, DEFAULT_LEVEL)), Read(c, LEVEL_LIMITS);
    level.Some? && limits.Tree? && FormatInt(level.value) in limits.kids
  }

  // Every level some user has is the number of a configured level.
  ghost predicate CoversUsers(limits: Config, users: set<int>) {
    forall u :: u in users ==> exists k :: k in limits && Atoi(k) == Some(u)
  }

  ghost predicate ValuesOk(flat: Config) {
    forall k :: k in flat ==> ValueOk(k, flat[k])
  }

  ghost function CompletedAll(flat: Config): Config
    requires ValuesOk(flat)
  {
    map k | k in flat :: Completed(k, flat[k])
  }

  ghost predicate TouchesLevels(flat: Config) {
    DEFAULT_LEVEL in flat || LEVEL_LIMITS in flat
  }

  // What makes an update acceptable: users is the set of levels of the existing users,
  // or None if they could not be read.
  ghost predicate Acceptable(cache: Config, flat: Config, users: Option<set<int>>) {
    && (forall k :: k in flat ==> !IsSystemLevel(k))
    && ValuesOk(flat)
    && (TouchesLevels(flat) ==> DefaultLevelConfigured(cache + flat))
    && (LEVEL_LIMITS in flat ==>
        flat[LEVEL_LIMITS].kids != map[] && users.Some? && CoversUsers(flat[LEVEL_LIMITS].kids, users.value))
  }

  datatype Outcome = Saved | Refused | Faulted
  datatype Call = Call(flat: Config, users: Option<set<int>>, outcome: Outcome)

  // One call of UpdateConfig, as its caller and later readers see it.
  ghost predicate CallEffect(before: Config, call: Call, after: Config) {
    && (call.outcome.Refused? <==> !Acceptable(before, call.flat, call.users))
    && (call.outcome.Saved? ==> after == before + CompletedAll(call.flat))
    && (!call.outcome.Saved? ==> ReadsAlike(before, after))
    && (call.outcome.Refused? ==> after == before)
    && after.Keys <= before.Keys + call.flat.Keys
  }

  // ---------- The checks ----------

  method HasSystemLevelKey(flat: Config) returns (found: bool)
    ensures found <==> exists k :: k in flat && IsSystemLevel(k)
  {
    var remaining := flat.Keys;
    while remaining != {}
      invariant remaining <= flat.Keys
      invariant forall k :: k in flat && k !in remaining ==> !IsSystemLevel(k)
    {
      var key :| key in remaining;
      if IsSystemLevel(key) {
        return true;
      }
      remaining := remaining - {key};
    }
    return false;
  }

  // Filling happens in the update itself, before the checks that follow.
  method ValidateAll(flat: Config) returns (ok: bool, completed: Config)
    ensures ok <==> ValuesOk(flat)
    ensures ok ==> completed == CompletedAll(flat)
  {
    completed := map[];
    var remaining := flat.Keys;
    while remaining != {}
      invariant remaining <= flat.Keys && completed.Keys == flat.Keys - remaining
      invariant forall k :: k in completed ==> ValueOk(k, flat[k]) && completed[k] == Completed(k, flat[k])
    {
      var key :| key in remaining;
      var valid, value := ValidateConfig(key, flat[key]);
      if !valid {
        return false, completed;
      }
      completed := completed[key := value];
      remaining := remaining - {key};
    }
    return true, completed;
  }

  method ValidateQuotaDefaultLevelReference(cache: Config, flat: Config) returns (ok: bool)
    ensures ok <==> (TouchesLevels(flat) ==> DefaultLevelConfigured(cache + flat))
  {
    if DEFAULT_LEVEL !in flat && LEVEL_LIMITS !in flat {
      return true;
    }
    var defaultLevelValue := if DEFAULT_LEVEL in flat then flat[DEFAULT_LEVEL] else Read(cache, DEFAULT_LEVEL);
    var defaultLevel := ToInt(defaultLevelValue);
    if defaultLevel.None? {
      return false;
    }
    var levelLimits := if LEVEL_LIMITS in flat then flat[LEVEL_LIMITS] else Read(cache, LEVEL_LIMITS);
    if !levelLimits.Tree? {
      return false;
    }
    return FormatInt(defaultLevel.value) in levelLimits.kids;
  }

  // Every level in use is among the numbers of the configured ones.
  method LevelsCover(levelLimits: Config, users: set<int>) returns (ok: bool)
    requires forall k :: k in levelLimits ==> Atoi(k).Some?
    ensures ok <==> CoversUsers(levelLimits, users)
  {
    var configuredLevels: set<int> := {};
    var remaining := levelLimits.Keys;
    while remaining != {}
      invariant remaining <= levelLimits.Keys
      invariant forall k :: k in levelLimits && k !in remaining ==> Atoi(k).value in configuredLevels
      invariant forall n :: n in configuredLevels ==> exists k :: k in levelLimits && Atoi(k) == Some(n)
    {
      var levelStr :| levelStr in remaining;
      configuredLevels := configuredLevels + {Atoi(levelStr).value};
      remaining := remaining - {levelStr};
    }
    ok := users <= configuredLevels;
    if CoversUsers(levelLimits, users) {
      forall u | u in users ensures u in configuredLevels {
        var k :| k in levelLimits && Atoi(k) == Some(u);
      }
    }
  }

  method ValidateQuotaLevelsInUse(flat: Config, users: Option<set<int>>) returns (ok: bool)
    requires LEVEL_LIMITS in flat ==> flat[LEVEL_LIMITS].Tree? && forall k :: k in flat[LEVEL_LIMITS].kids ==> Atoi(k).Some?
    ensures ok <==> (LEVEL_LIMITS in flat ==>
      flat[LEVEL_LIMITS].kids != map[] && users.Some? && CoversUsers(flat[LEVEL_LIMITS].kids, users.value))
  {
    if LEVEL_LIMITS !in flat {
      return true;
    }
    var levelLimits := flat[LEVEL_LIMITS].kids;
    if levelLimits == map[] || users.None? {
      return false;
    }
    ok := LevelsCover(levelLimits, users.value);
  }

  // Filling leaves the levels and the default level as they are, so the checks may come
  // before or after it.
  lemma CompletingKeepsLevels(cache: Config, flat: Config)
    requires ValuesOk(flat)
    ensures var completed := CompletedAll(flat);
      && TouchesLevels(completed) == TouchesLevels(flat)
      && DefaultLevelConfigured(cache + completed) == DefaultLevelConfigured(cache + flat)
      && (LEVEL_LIMITS in flat ==>
          LEVEL_LIMITS in completed && completed[LEVEL_LIMITS].Tree? &&
          completed[LEVEL_LIMITS].kids.Keys == flat[LEVEL_LIMITS].kids.Keys)
  {
    var completed := CompletedAll(flat);
    assert DEFAULT_LEVEL != LEVEL_LIMITS;
    assert Read(cache + completed, DEFAULT_LEVEL) == Read(cache + flat, DEFAULT_LEVEL);
    if LEVEL_LIMITS in flat {
      assert ValueOk(LEVEL_LIMITS, flat[LEVEL_LIMITS]);
      assert Read(cache + completed, LEVEL_LIMITS) == Tree(Filled(flat[LEVEL_LIMITS].kids));
    } else {
      assert Read(cache + completed, LEVEL_LIMITS) == Read(cache + flat, LEVEL_LIMITS);
    }
  }

  lemma SameCover(limits: Config, other: Config, users: set<int>)
    requires limits.Keys == other.Keys
    ensures CoversUsers(limits, users) == CoversUsers(other, users) && (limits == map[] <==> other == map[])
  {
    assert forall k :: k in limits <==> k in other;
  }

  method Check(cache: Config, flat: Config, users: Option<set<int>>) returns (ok: bool, completed: Config)
    ensures ok <==> Acceptable(cache, flat, users)
    ensures ok ==> completed == CompletedAll(flat)
  {
    completed := flat;
    var forbidden := HasSystemLevelKey(flat);
    if forbidden {
      return false, completed;
    }
    ok, completed := ValidateAll(flat);
    if !ok {
      return;
    }
    CompletingKeepsLevels(cache, flat);
    ok := ValidateQuotaDefaultLevelReference(cache, completed);
    if !ok {
      return;
    }
    if LEVEL_LIMITS in flat {
      SameCover(flat[LEVEL_LIMITS].kids, completed[LEVEL_LIMITS].kids, if users.Some? then users.value else {});
      assert ValueOk(LEVEL_LIMITS, flat[LEVEL_LIMITS]);
      forall k | k in completed[LEVEL_LIMITS].kids ensures Atoi(k).Some? {
        assert FillLevel(k, flat[LEVEL_LIMITS].kids[k]).Some?;
      }
    }
    ok := ValidateQuotaLevelsInUse(completed, users);
  }

  // ---------- The manager ----------

  class ConfigManager {
    var configCache: Config

    constructor (initial: Config)
      ensures configCache == initial
    {
      configCache := initial;
    }

    // Writes the values into the cache and remembers what was there, until a value
    // cannot be prepared for saving.
    method CacheAll(values: Config) returns (prepared: bool, oldValues: Config)
      modifies this
      ensures prepared ==> configCache == old(configCache) + values
      ensures forall k :: k in oldValues ==> oldValues[k] == Read(old(configCache), k)
      ensures forall k :: k !in oldValues ==> Read(configCache, k) == Read(old(configCache), k)
      ensures oldValues.Keys <= values.Keys && configCache.Keys <= old(configCache).Keys + values.Keys
    {
      oldValues := map[];
      var remaining := values.Keys;
      while remaining != {}
        invariant remaining <= values.Keys && oldValues.Keys == values.Keys - remaining
        invariant configCache == old(configCache) + Part(values, oldValues.Keys)
        invariant forall k :: k in oldValues ==> oldValues[k] == Read(old(configCache), k)
      {
        var key :| key in remaining;
        oldValues := oldValues[key := Read(configCache, key)];
        configCache := configCache[key := values[key]];
        remaining := remaining - {key};
        var ok := *;
        if !ok {
          return false, oldValues;
        }
      }
      return true, oldValues;
    }

    method Restore(oldValues: Config)
      modifies this
      ensures configCache == old(configCache) + oldValues
    {
      var remaining := oldValues.Keys;
      while remaining != {}
        invariant remaining <= oldValues.Keys
        invariant configCache == old(configCache) + Part(oldValues, oldValues.Keys - remaining)
      {
        var k :| k in remaining;
        configCache := configCache[k := oldValues[k]];
        remaining := remaining - {k};
      }
    }

    // Saving and writing the flag file may fail at any point; the cache is then put back.
    method UpdateConfig(kebabConfig: Value, users: Option<set<int>>) returns (outcome: Outcome, ghost flat: Config)
      requires kebabConfig.Tree?
      modifies this
      ensures WellKeyed(kebabConfig) ==> FlatFormOf(kebabConfig.kids, "", flat)
      ensures CallEffect(old(configCache), Call(flat, users, outcome), configCache)
    {
      var flatConfig := FlattenConfig(kebabConfig, "");
      flat := flatConfig;
      var ok, completed := Check(configCache, flatConfig, users);
      if !ok {
        return Refused, flat;
      }
      var prepared, oldValues := CacheAll(completed);
      if !prepared {
        Restore(oldValues);
        return Faulted, flat;
      }
      var committed := *;
      if !committed {
        Restore(oldValues);
        return Faulted, flat;
      }
      var marked := *;
      if !marked {
        Restore(oldValues);
        return Faulted, flat;
      }
      return Saved, flat;
    }
  }

  // ---------- Whole runs ----------

  ghost predicate Run(caches: seq<Config>, calls: seq<Call>) {
    && |caches| == |calls| + 1
    && forall i :: 0 <= i < |calls| ==> CallEffect(caches[i], calls[i], caches[i + 1])
  }

  lemma RunPrefix(caches: seq<Config>, calls: seq<Call>)
    requires Run(caches, calls) && calls != []
    ensures Run(caches[..|calls|], calls[..|calls| - 1])
    ensures CallEffect(caches[|calls| - 1], calls[|calls| - 1], caches[|calls|])
  {
    var front, earlier := caches[..|calls|], calls[..|calls| - 1];
    forall i | 0 <= i < |earlier| ensures CallEffect(front[i], earlier[i], front[i + 1]) {
      assert CallEffect(caches[i], calls[i], caches[i + 1]);
    }
  }

  // What a reader sees after the calls: the value of the last saved call that has the key.
  ghost function ReadAfter(initial: Config, calls: seq<Call>, key: string): Value {
    if calls == [] then Read(initial, key)
    else
      var last := calls[|calls| - 1];
      if last.outcome.Saved? && ValuesOk(last.flat) && key in last.flat then Completed(key, last.flat[key])
      else ReadAfter(initial, calls[..|calls| - 1], key)
  }

  // The cache is exactly what the saved calls made of it: failed calls leave no trace.
  lemma {:induction false} RunIsFold(caches: seq<Config>, calls: seq<Call>, key: string)
    requires Run(caches, calls)
    ensures Read(caches[|calls|], key) == ReadAfter(caches[0], calls, key)
    decreases |calls|
  {
    if calls != [] {
      RunPrefix(caches, calls);
      RunIsFold(caches[..|calls|], calls[..|calls| - 1], key);
    }
  }

  lemma {:induction false} SystemLevelKeysNeverChange(caches: seq<Config>, calls: seq<Call>, key: string)
    requires Run(caches, calls) && IsSystemLevel(key)
    ensures Read(caches[|calls|], key) == Read(caches[0], key)
    decreases |calls|
  {
    if calls != [] {
      RunPrefix(caches, calls);
      SystemLevelKeysNeverChange(caches[..|calls|], calls[..|calls| - 1], key);
    }
  }

  lemma MariaDBIsNoMySQLKey(key: string)
    requires |key| > 1 && key[1] == 'a'
    ensures key !in MYSQL_KEYS
  {}

  lemma SystemLevelIsRefused(cache: Config, flat: Config, users: Option<set<int>>, key: string)
    requires key in flat && key in SYSTEM_LEVEL_KEYS
    ensures !Acceptable(cache, flat, users)
  {
    if "mariadb." <= key {
      assert key[0] == "mariadb."[0] && key[1] == "mariadb."[1];
      StartsNoSystemKey(key);
      MariaDBIsNoMySQLKey(key);
      StartsNoRedisKey(key);
      StartsNoZapKey(key);
      assert false;
    }
  }

  // An update that names one of these keys is refused, whatever else is in it.
  lemma ServerKeysAreProtected(cache: Config, flat: Config, users: Option<set<int>>, key: string)
    requires key in flat && key in {
      "system.addr", "system.db-type", "system.env", "system.frontend-url", "system.iplimit-count",
      "system.iplimit-time", "system.oauth2-state-token-minutes", "system.oss-type",
      "system.provider-inactive-hours", "system.enable-instance-recovery", "system.instance-recovery-interval",
      "system.instance-recovery-offline-minutes", "system.use-multipoint", "system.use-redis"
    }
    ensures !Acceptable(cache, flat, users)
  {
    assert key in SYSTEM_KEYS;
    SystemLevelIsRefused(cache, flat, users, key);
  }

  lemma DatabaseKeysAreProtected(cache: Config, flat: Config, users: Option<set<int>>, key: string)
    requires key in flat && key in {
      "mysql.path", "mysql.port", "mysql.config", "mysql.db-name", "mysql.username", "mysql.password",
      "mysql.prefix", "mysql.singular", "mysql.engine", "mysql.max-idle-conns", "mysql.max-open-conns",
      "mysql.max-lifetime", "mysql.log-mode", "mysql.log-zap", "mysql.auto-create"
    }
    ensures !Acceptable(cache, flat, users)
  {
    assert key in MYSQL_KEYS;
    SystemLevelIsRefused(cache, flat, users, key);
  }

  lemma RedisKeysAreProtected(cache: Config, flat: Config, users: Option<set<int>>, key: string)
    requires key in flat && key in {
      "redis.addr", "redis.password", "redis.db"
    }
    ensures !Acceptable(cache, flat, users)
  {
    assert key in REDIS_KEYS;
    SystemLevelIsRefused(cache, flat, users, key);
  }

  lemma LogKeysAreProtected(cache: Config, flat: Config, users: Option<set<int>>, key: string)
    requires key in flat && key in {
      "zap.level", "zap.format", "zap.prefix", "zap.director", "zap.encode-level", "zap.stacktrace-key",
      "zap.max-file-size", "zap.max-backups", "zap.max-log-length", "zap.retention-day", "zap.show-line",
      "zap.log-in-console", "zap.max-string-length", "zap.max-array-elements"
    }
    ensures !Acceptable(cache, flat, users)
  {
    assert key in ZAP_KEYS;
    SystemLevelIsRefused(cache, flat, users, key);
  }

  // Both spellings of the database section are protected alike.
  lemma MariaDBKeysAreMySQLKeys(rest: string)
    ensures IsSystemLevel("mariadb." + rest) <==> IsSystemLevel("mysql." + rest)
  {
    assert ("mariadb." + rest)[|"mariadb."|..] == rest;
    assert ("mysql." + rest)[1] != "mariadb."[1];
  }

  lemma CallKeepsDefaultLevel(before: Config, call: Call, after: Config)
    requires CallEffect(before, call, after)
    ensures DefaultLevelConfigured(before) ==> DefaultLevelConfigured(after)
    ensures call.outcome.Saved? && TouchesLevels(call.flat) ==> DefaultLevelConfigured(after)
  {
    if call.outcome.Saved? {
      CompletingKeepsLevels(before, call.flat);
    } else {
      assert Read(before, DEFAULT_LEVEL) == Read(after, DEFAULT_LEVEL);
      assert Read(before, LEVEL_LIMITS) == Read(after, LEVEL_LIMITS);
    }
  }

  // Once the default level names a configured limit, be it through one saved update of
  // either, it does so for ever.
  lemma {:induction false} DefaultLevelStaysConfigured(caches: seq<Config>, calls: seq<Call>, i: nat)
    requires Run(caches, calls) && i <= |calls|
    requires DefaultLevelConfigured(caches[i]) || (i < |calls| && calls[i].outcome.Saved? && TouchesLevels(calls[i].flat))
    ensures DefaultLevelConfigured(caches[|calls|])
    decreases |calls| - i
  {
    if i < |calls| {
      CallKeepsDefaultLevel(caches[i], calls[i], caches[i + 1]);
      DefaultLevelStaysConfigured(caches, calls, i + 1);
    }
  }

  // A default level that is accepted is a whole number from 1 to 99.
  lemma AcceptedDefaultLevel(before: Config, call: Call, after: Config)
    requires CallEffect(before, call, after)
    ensures call.outcome.Saved? && DEFAULT_LEVEL in call.flat ==>
      ToInt(Read(after, DEFAULT_LEVEL)).Some? && 1 <= ToInt(Read(after, DEFAULT_LEVEL)).value <= 99
  {
    if call.outcome.Saved? && DEFAULT_LEVEL in call.flat {
      CallKeepsDefaultLevel(before, call, after);
      assert ValueOk(DEFAULT_LEVEL, call.flat[DEFAULT_LEVEL]);
      assert Read(after, DEFAULT_LEVEL) == call.flat[DEFAULT_LEVEL];
      RoundedIsInt(call.flat[DEFAULT_LEVEL]);
    }
  }

  // The check of the range alone lets exactly those floats pass whose fraction is dropped.
  lemma RangeCheckAcceptsFractions(v: Value)
    ensures ValueOk(DEFAULT_LEVEL, v) && ToInt(v).None? <==>
      v.Float? && 1.0 < v.r < 100.0 && v.r != v.r.Floor as real
  {}

  lemma RoundedIsInt(v: Value)
    ensures ToInt(v).Some? ==> RoundedInt(v).Some? && RoundedInt(v).value == ToInt(v).value
  {}

  lemma StartsNoSystemKey(key: string)
    requires key != "" && key[0] != 's'
    ensures key !in SYSTEM_KEYS
  {}

  lemma StartsNoMySQLKey(key: string)
    requires key != "" && key[0] != 'm'
    ensures key !in MYSQL_KEYS
  {}

  lemma StartsNoRedisKey(key: string)
    requires key != "" && key[0] != 'r'
    ensures key !in REDIS_KEYS
  {}

  lemma StartsNoZapKey(key: string)
    requires key != "" && key[0] != 'z'
    ensures key !in ZAP_KEYS
  {}

  lemma QuotaIsNotSystemLevel(key: string)
    requires key != "" && key[0] == 'q'
    ensures !IsSystemLevel(key)
  {
    assert "mariadb."[0] == 'm';
    StartsNoSystemKey(key);
    StartsNoMySQLKey(key);
    StartsNoRedisKey(key);
    StartsNoZapKey(key);
  }

  // An update of the default level alone is accepted exactly if it is a whole number from 1
  // to 99 that names a configured level: what is cached decides.
  lemma DefaultLevelUpdateIff(cache: Config, v: Value, users: Option<set<int>>)
    ensures Acceptable(cache, map[DEFAULT_LEVEL := v], users) <==>
      && ToInt(v).Some? && 1 <= ToInt(v).value <= 99
      && Read(cache, LEVEL_LIMITS).Tree? && FormatInt(ToInt(v).value) in Read(cache, LEVEL_LIMITS).kids
  {
    assert DEFAULT_LEVEL[6] != LEVEL_LIMITS[6];
    QuotaIsNotSystemLevel(DEFAULT_LEVEL);
    OneEntry(cache, DEFAULT_LEVEL, LEVEL_LIMITS, v);
    RoundedIsInt(v);
    DefaultLevelRule(v);
  }

  lemma DefaultLevelRule(v: Value)
    ensures ValueOk(DEFAULT_LEVEL, v) <==> RoundedInt(v).Some? && 1 <= RoundedInt(v).value <= 99
  {}

  lemma OneEntry(cache: Config, key: string, other: string, v: Value)
    requires key != other
    ensures var flat := map[key := v];
      && flat.Keys == {key} && (ValuesOk(flat) <==> ValueOk(key, v))
      && Read(cache + flat, key) == v && Read(cache + flat, other) == Read(cache, other)
  {}

  // The two checks of the levels agree: a default level that names a configured limit is
  // among the levels that the limits cover.
  lemma DefaultLevelIsCovered(c: Config)
    requires DefaultLevelConfigured(c)
    ensures CoversUsers(Read(c, LEVEL_LIMITS).kids, {ToInt(Read(c, DEFAULT_LEVEL)).value})
  {
    AtoiOfFormatInt(ToInt(Read(c, DEFAULT_LEVEL)).value);
  }

  // So after a saved update of either setting, and whatever update follows, a user who gets
  // the default level has limits.
  lemma NewUsersAreCovered(caches: seq<Config>, calls: seq<Call>, i: nat)
    requires Run(caches, calls) && i < |calls| && calls[i].outcome.Saved? && TouchesLevels(calls[i].flat)
    ensures var last := caches[|calls|];
      && ToInt(Read(last, DEFAULT_LEVEL)).Some? && Read(last, LEVEL_LIMITS).Tree?
      && CoversUsers(Read(last, LEVEL_LIMITS).kids, {ToInt(Read(last, DEFAULT_LEVEL)).value})
  {
    DefaultLevelStaysConfigured(caches, calls, i);
    DefaultLevelIsCovered(caches[|calls|]);
  }

  // Every configured level is complete, and stays so.
  ghost predicate LevelsComplete(c: Config) {
    var limits := Read(c, LEVEL_LIMITS);
    limits.Tree? ==> forall k :: k in limits.kids ==> IsLevel(k) && limits.kids[k].Tree? && Complete(limits.kids[k].kids)
  }

  lemma FilledIsComplete(levels: Config)
    requires AllFill(levels)
    ensures forall k :: k in levels ==> IsLevel(k) && Filled(levels)[k].Tree? && Complete(Filled(levels)[k].kids)
  {
    forall k | k in levels ensures IsLevel(k) && Filled(levels)[k].Tree? && Complete(Filled(levels)[k].kids) {
      AcceptedIsComplete(k, levels[k]);
    }
  }

  lemma CallKeepsLevelsComplete(before: Config, call: Call, after: Config)
    requires CallEffect(before, call, after) && LevelsComplete(before)
    ensures LevelsComplete(after)
  {
    if call.outcome.Saved? && LEVEL_LIMITS in call.flat {
      var given := call.flat[LEVEL_LIMITS];
      assert ValueOk(LEVEL_LIMITS, given);
      FilledIsComplete(given.kids);
      assert Read(after, LEVEL_LIMITS) == Tree(Filled(given.kids));
    } else {
      assert Read(after, LEVEL_LIMITS) == Read(before, LEVEL_LIMITS);
    }
  }

  lemma {:induction false} LevelsStayComplete(caches: seq<Config>, calls: seq<Call>)
    requires Run(caches, calls) && LevelsComplete(caches[0])
    ensures LevelsComplete(caches[|calls|])
    decreases |calls|
  {
    if calls != [] {
      var n := |calls| - 1;
      RunPrefix(caches, calls);
      LevelsStayComplete(caches[..n + 1], calls[..n]);
      CallKeepsLevelsComplete(caches[n], calls[n], caches[n + 1]);
    }
  }

  // A saved update of the limits leaves no existing user without a level.
  lemma SavedLimitsCoverUsers(before: Config, call: Call, after: Config)
    requires CallEffect(before, call, after)
    ensures call.outcome.Saved? && LEVEL_LIMITS in call.flat ==>
      && call.users.Some? && Read(after, LEVEL_LIMITS).Tree?
      && forall u :: u in call.users.value ==> exists k :: k in Read(after, LEVEL_LIMITS).kids && Atoi(k) == Some(u)
  {
    if call.outcome.Saved? && LEVEL_LIMITS in call.flat {
      CompletingKeepsLevels(before, call.flat);
      SameCover(call.flat[LEVEL_LIMITS].kids, Read(after, LEVEL_LIMITS).kids, call.users.value);
    }
  }
}
