// The resource limits of user levels: which values an update may set, and what is
// filled in from the built-in defaults.

module QuotaLevels {
  import opened Text
  import opened ConfigTree

  const RESOURCES := ["cpu", "memory", "disk", "bandwidth"]

  type PositiveWord = i: Word | i > 0 witness 1

  type FullResources = m: Config | forall x :: x in RESOURCES ==> Positive(m, x) witness Resources(1, 1, 1, 1)

  datatype Defaults =
    Defaults(maxInstances: PositiveWord, maxResources: FullResources, maxTraffic: PositiveWord, maxSnapshots: PositiveWord)

  function Resources(cpu: Word, memory: Word, disk: Word, bandwidth: Word): Config {
    map["cpu" := Int(cpu), "memory" := Int(memory), "disk" := Int(disk), "bandwidth" := Int(bandwidth)]
  }

  // The built-in levels.
  function DefaultLevelLimit(level: int): (r: Option<Defaults>)
    ensures r.Some? <==> 1 <= level <= 5
  {
    if level == 1 then Some(Defaults(1, Resources(1, 350, 1024, 100), 102400, 1))
    else if level == 2 then Some(Defaults(3, Resources(2, 1024, 20480, 200), 204800, 3))
    else if level == 3 then Some(Defaults(5, Resources(4, 2048, 40960, 500), 307200, 5))
    else if level == 4 then Some(Defaults(10, Resources(8, 4096, 81920, 1000), 409600, 10))
    else if level == 5 then Some(Defaults(20, Resources(16, 8192, 163840, 2000), 512000, 20))
    else None
  }

  // ---------- Numbers ----------

  // int(v) for a float: the fraction is dropped.
  function Truncate(r: real): int {
    if r >= 0.0 then r.Floor else -((-r).Floor)
  }

  predicate IsWord(i: int) {
    -MAX_INT - 1 <= i <= MAX_INT
  }

  // toInt: a float only when it is integral, and a 64-bit integer.
  function ToInt(v: Value): Option<Word> {
    match v
    case Int(i) => Some(i)
    case Int64(i) => Some(i)
    case Float(r) => if IsWord(Truncate(r)) && r == Truncate(r) as real then Some(Truncate(r)) else None
    case _ => None
  }

  // The conversion in the check of a bounded number: a fraction is dropped, not refused.
  function RoundedInt(v: Value): Option<int> {
    match v
    case Int(i) => Some(i)
    case Int64(i) => Some(i)
    case Float(r) => Some(Truncate(r))
    case _ => None
  }

  predicate IsPositive(v: Value) {
    match v
    case Int(i) => i > 0
    case Int64(i) => i > 0
    case Float(r) => r > 0.0
    case _ => false
  }

  predicate Positive(m: Config, field: string) {
    field in m && IsPositive(m[field])
  }

  predicate IsNonNegative(v: Value) {
    match v
    case Int(i) => i >= 0
    case Int64(i) => i >= 0
    case Float(r) => r >= 0.0
    case _ => false
  }

  // ---------- One level ----------

  // Missing, null, or the integer 0; a zero of another kind is not unset.
  predicate Unset(m: Config, field: string) {
    field !in m || m[field] == Nil || m[field] == Int(0)
  }

  function FillNumber(m: Config, field: string, byDefault: Option<Value>): Option<Config> {
    if Unset(m, field) then
      if byDefault.Some? then Some(m[field := byDefault.value]) else None
    else if IsPositive(m[field]) then Some(m) else None
  }

  function FillSnapshots(m: Config, byDefault: Option<Value>): Option<Config> {
    if "max-snapshots" !in m || m["max-snapshots"] == Nil then
      Some(if byDefault.Some? then m["max-snapshots" := byDefault.value] else m)
    else if IsNonNegative(m["max-snapshots"]) then Some(m) else None
  }

  function FillEach(resources: Config, names: seq<string>, defaults: Option<Defaults>): Option<Config>
    requires forall x :: x in names ==> x in RESOURCES
  {
    if names == [] then Some(resources)
    else
      var front :- FillEach(resources, names[..|names| - 1], defaults);
      var name := names[|names| - 1];
      FillNumber(front, name, if defaults.Some? then Some(defaults.value.maxResources[name]) else None)
  }

  function FillResources(m: Config, defaults: Option<Defaults>): Option<Config> {
    if "max-resources" !in m || m["max-resources"] == Nil then
      if defaults.Some? then Some(m["max-resources" := Tree(defaults.value.maxResources)]) else None
    else if !m["max-resources"].Tree? then None
    else
      var resources :- FillEach(m["max-resources"].kids, RESOURCES, defaults);
      Some(m["max-resources" := Tree(resources)])
  }

  predicate IsLevel(levelStr: string) {
    var n := Atoi(levelStr);
    n.Some? && 1 <= n.value <= 99
  }

  // All but the resources.
  function FillNumbers(limit: Config, defaults: Option<Defaults>): Option<Config> {
    var a :- FillNumber(limit, "max-instances", if defaults.Some? then Some(Int(defaults.value.maxInstances)) else None);
    var b :- FillNumber(a, "max-traffic", if defaults.Some? then Some(Int64(defaults.value.maxTraffic)) else None);
    FillSnapshots(b, if defaults.Some? then Some(Int(defaults.value.maxSnapshots)) else None)
  }

  // The limits of one level as they will be saved, or None if they are refused.
  function Fill(limit: Config, defaults: Option<Defaults>): Option<Config> {
    var numbers :- FillNumbers(limit, defaults);
    FillResources(numbers, defaults)
  }

  function FillLevel(levelStr: string, v: Value): Option<Value> {
    if !v.Tree? || !IsLevel(levelStr) then None
    else
      var limit :- Fill(v.kids, DefaultLevelLimit(Atoi(levelStr).value));
      Some(Tree(limit))
  }

  method FillResourceFields(resources: Config, defaults: Option<Defaults>) returns (ok: bool, filled: Config)
    ensures FillEach(resources, RESOURCES, defaults) == if ok then Some(filled) else None
  {
    ok, filled := true, resources;
    for i := 0 to |RESOURCES|
      invariant FillEach(resources, RESOURCES[..i], defaults) == if ok then Some(filled) else None
    {
      var name := RESOURCES[i];
      assert RESOURCES[..i + 1][..i] == RESOURCES[..i];
      if ok {
        if Unset(filled, name) {
          if defaults.None? {
            ok := false;
          } else {
            filled := filled[name := defaults.value.maxResources[name]];
          }
        } else {
          ok := IsPositive(filled[name]);
        }
      }
    }
    assert RESOURCES[..|RESOURCES|] == RESOURCES;
  }

  // Fills the fields of one level's map one after the other.
  method ValidateLevel(levelStr: string, limitValue: Value) returns (ok: bool, filled: Value)
    ensures FillLevel(levelStr, limitValue) == if ok then Some(filled) else None
  {
    filled := limitValue;
    if !limitValue.Tree? || !IsLevel(levelStr) {
      return false, filled;
    }
    var defaults := DefaultLevelLimit(Atoi(levelStr).value);
    var limit := limitValue.kids;
    if Unset(limit, "max-instances") {
      if defaults.None? {
        return false, filled;
      }
      limit := limit["max-instances" := Int(defaults.value.maxInstances)];
    } else if !IsPositive(limit["max-instances"]) {
      return false, filled;
    }
    if Unset(limit, "max-traffic") {
      if defaults.None? {
        return false, filled;
      }
      limit := limit["max-traffic" := Int64(defaults.value.maxTraffic)];
    } else if !IsPositive(limit["max-traffic"]) {
      return false, filled;
    }
    if "max-snapshots" !in limit || limit["max-snapshots"] == Nil {
      if defaults.Some? {
        limit := limit["max-snapshots" := Int(defaults.value.maxSnapshots)];
      }
    } else if !IsNonNegative(limit["max-snapshots"]) {
      return false, filled;
    }
    if "max-resources" !in limit || limit["max-resources"] == Nil {
      if defaults.None? {
        return false, filled;
      }
      limit := limit["max-resources" := Tree(defaults.value.maxResources)];
    } else {
      if !limit["max-resources"].Tree? {
        return false, filled;
      }
      var resources;
      ok, resources := FillResourceFields(limit["max-resources"].kids, defaults);
      if !ok {
        return false, filled;
      }
      limit := limit["max-resources" := Tree(resources)];
    }
    return true, Tree(limit);
  }

  // ---------- All levels ----------

  ghost predicate AllFill(levels: Config) {
    forall k :: k in levels ==> FillLevel(k, levels[k]).Some?
  }

  ghost function Filled(levels: Config): Config
    requires AllFill(levels)
  {
    map k | k in levels :: FillLevel(k, levels[k]).value
  }

  // Goes over the levels in whatever order the map yields them.
  method ValidateLevelLimits(value: Value) returns (ok: bool, filled: Value)
    ensures ok <==> value.Tree? && AllFill(value.kids)
    ensures ok ==> filled == Tree(Filled(value.kids))
  {
    if !value.Tree? {
      return false, value;
    }
    var levels := value.kids;
    var done := map[];
    var remaining := levels.Keys;
    while remaining != {}
      invariant remaining <= levels.Keys && done.Keys == levels.Keys - remaining
      invariant forall k :: k in done ==> FillLevel(k, levels[k]) == Some(done[k])
    {
      var levelStr :| levelStr in remaining;
      var accepted, limit := ValidateLevel(levelStr, levels[levelStr]);
      if !accepted {
        return false, value;
      }
      done := done[levelStr := limit];
      remaining := remaining - {levelStr};
    }
    assert done == Filled(levels);
    return true, Tree(done);
  }

  // ---------- What an accepted level looks like ----------

  ghost predicate Complete(m: Config) {
    && Positive(m, "max-instances") && Positive(m, "max-traffic")
    && ("max-snapshots" in m && m["max-snapshots"] != Nil ==> IsNonNegative(m["max-snapshots"]))
    && "max-resources" in m && m["max-resources"].Tree?
    && forall x :: x in RESOURCES ==> Positive(m["max-resources"].kids, x)
  }

  // Where there is a default, the number of snapshots is set as well.
  ghost predicate SnapshotsSettled(m: Config, defaults: Option<Defaults>) {
    defaults.Some? ==> "max-snapshots" in m && m["max-snapshots"] != Nil
  }

  lemma {:induction false} FillEachGives(m: Config, names: seq<string>, defaults: Option<Defaults>)
    requires forall x :: x in names ==> x in RESOURCES
    requires FillEach(m, names, defaults).Some?
    ensures var r := FillEach(m, names, defaults).value;
      && (forall x :: x in names ==> Positive(r, x))
      && (forall x :: x in m && !(x in names && Unset(m, x)) ==> x in r && r[x] == m[x])
  {
    if names != [] {
      var front, name := names[..|names| - 1], names[|names| - 1];
      assert names == front + [name];
      FillEachGives(m, front, defaults);
    }
  }

  // Names whose fields are positive already need nothing.
  lemma {:induction false} FillEachOfPositive(m: Config, names: seq<string>, defaults: Option<Defaults>)
    requires forall x :: x in names ==> x in RESOURCES && Positive(m, x)
    ensures FillEach(m, names, defaults) == Some(m)
  {
    if names != [] {
      var front, name := names[..|names| - 1], names[|names| - 1];
      assert names == front + [name];
      FillEachOfPositive(m, front, defaults);
      assert Positive(m, name);
    }
  }

  lemma FillResourcesGives(m: Config, defaults: Option<Defaults>)
    requires FillResources(m, defaults).Some?
    ensures var r := FillResources(m, defaults).value;
      && "max-resources" in r && r["max-resources"].Tree? && r == m["max-resources" := r["max-resources"]]
      && forall x :: x in RESOURCES ==> Positive(r["max-resources"].kids, x)
  {
    if "max-resources" in m && m["max-resources"] != Nil {
      FillEachGives(m["max-resources"].kids, RESOURCES, defaults);
    }
  }

  lemma FillNumbersGives(limit: Config, defaults: Option<Defaults>)
    requires FillNumbers(limit, defaults).Some?
    ensures var r := FillNumbers(limit, defaults).value;
      && Positive(r, "max-instances") && Positive(r, "max-traffic")
      && ("max-snapshots" in r && r["max-snapshots"] != Nil ==> IsNonNegative(r["max-snapshots"]))
      && SnapshotsSettled(r, defaults)
  {}

  lemma FillIsComplete(limit: Config, defaults: Option<Defaults>)
    requires Fill(limit, defaults).Some?
    ensures var r := Fill(limit, defaults).value; Complete(r) && SnapshotsSettled(r, defaults)
  {
    FillNumbersGives(limit, defaults);
    FillResourcesGives(FillNumbers(limit, defaults).value, defaults);
  }

  lemma CompleteNeedsNothing(m: Config, defaults: Option<Defaults>)
    requires Complete(m) && SnapshotsSettled(m, defaults)
    ensures Fill(m, defaults) == Some(m)
  {
    FillEachOfPositive(m["max-resources"].kids, RESOURCES, defaults);
    assert m["max-resources" := Tree(m["max-resources"].kids)] == m;
  }

  // What validation accepts is complete, and validating it again changes nothing.
  lemma AcceptedIsComplete(levelStr: string, v: Value)
    requires FillLevel(levelStr, v).Some?
    ensures var r := FillLevel(levelStr, v).value;
      r.Tree? && Complete(r.kids) && FillLevel(levelStr, r) == Some(r)
  {
    var defaults := DefaultLevelLimit(Atoi(levelStr).value);
    FillIsComplete(v.kids, defaults);
    CompleteNeedsNothing(Fill(v.kids, defaults).value, defaults);
  }

  // The fields that defaults may be written to.
  predicate Open(m: Config, field: string) {
    || ((field == "max-instances" || field == "max-traffic") && Unset(m, field))
    || ((field == "max-snapshots" || field == "max-resources") && (field !in m || m[field] == Nil))
  }

  ghost predicate KeepsGiven(before: Config, after: Config) {
    && (forall f :: f in before && f != "max-resources" && !Open(before, f) ==> f in after && after[f] == before[f])
    && ("max-resources" in before && before["max-resources"].Tree? ==>
        && "max-resources" in after && after["max-resources"].Tree?
        && ResourcesKept(before["max-resources"].kids, after["max-resources"].kids))
  }

  ghost predicate ResourcesKept(before: Config, after: Config) {
    forall x :: x in before && !(x in RESOURCES && Unset(before, x)) ==> x in after && after[x] == before[x]
  }

  ghost predicate FieldsKept(before: Config, after: Config) {
    forall f :: f in before && !Open(before, f) ==> f in after && after[f] == before[f]
  }

  lemma FillNumberKeeps(m: Config, field: string, byDefault: Option<Value>)
    requires field == "max-instances" || field == "max-traffic"
    requires FillNumber(m, field, byDefault).Some?
    ensures FieldsKept(m, FillNumber(m, field, byDefault).value)
  {}

  lemma FieldsKeptTrans(a: Config, b: Config, c: Config)
    requires FieldsKept(a, b) && FieldsKept(b, c)
    ensures FieldsKept(a, c)
  {
    forall f | f in a && !Open(a, f) ensures f in b && !Open(b, f) {
      assert b[f] == a[f];
    }
  }

  lemma FillResourcesKeeps(limit: Config, c: Config, defaults: Option<Defaults>)
    requires FieldsKept(limit, c) && FillResources(c, defaults).Some?
    ensures KeepsGiven(limit, FillResources(c, defaults).value)
  {
    FillResourcesGives(c, defaults);
    if "max-resources" in limit && limit["max-resources"].Tree? {
      assert !Open(limit, "max-resources");
      FillEachGives(c["max-resources"].kids, RESOURCES, defaults);
    }
  }

  // Every field given a value keeps it; only open ones are filled.
  lemma AcceptedKeepsGiven(levelStr: string, v: Value)
    requires FillLevel(levelStr, v).Some?
    ensures KeepsGiven(v.kids, FillLevel(levelStr, v).value.kids)
  {
    var limit, defaults := v.kids, DefaultLevelLimit(Atoi(levelStr).value);
    var instances := if defaults.Some? then Some(Int(defaults.value.maxInstances)) else None;
    var traffic := if defaults.Some? then Some(Int64(defaults.value.maxTraffic)) else None;
    var a := FillNumber(limit, "max-instances", instances).value;
    FillNumberKeeps(limit, "max-instances", instances);
    var b := FillNumber(a, "max-traffic", traffic).value;
    FillNumberKeeps(a, "max-traffic", traffic);
    var c := FillNumbers(limit, defaults).value;
    assert FieldsKept(b, c);
    FieldsKeptTrans(limit, a, b);
    FieldsKeptTrans(limit, b, c);
    FillResourcesKeeps(limit, c, defaults);
  }

  // ---------- What is filled in ----------

  lemma {:induction false} FillEachAddsNames(m: Config, names: seq<string>, defaults: Option<Defaults>)
    requires forall x :: x in names ==> x in RESOURCES
    requires FillEach(m, names, defaults).Some?
    ensures forall x :: x in FillEach(m, names, defaults).value ==> x in m || x in names
  {
    if names != [] {
      var front, name := names[..|names| - 1], names[|names| - 1];
      assert names == front + [name];
      FillEachAddsNames(m, front, defaults);
    }
  }

  lemma {:induction false} FillEachTakesDefaults(m: Config, names: seq<string>, defaults: Option<Defaults>, name: string)
    requires (forall x :: x in names ==> x in RESOURCES) && FillEach(m, names, defaults).Some?
    requires name in names && Unset(m, name)
    ensures defaults.Some? && name in FillEach(m, names, defaults).value
    ensures FillEach(m, names, defaults).value[name] == defaults.value.maxResources[name]
  {
    var front, last := names[..|names| - 1], names[|names| - 1];
    assert names == front + [last];
    FillEachGives(m, front, defaults);
    FillEachAddsNames(m, front, defaults);
    if name in front {
      FillEachTakesDefaults(m, front, defaults, name);
    }
  }

  lemma NumbersTakeDefaults(limit: Config, defaults: Option<Defaults>)
    requires FillNumbers(limit, defaults).Some? && defaults.Some?
    ensures var r, d := FillNumbers(limit, defaults).value, defaults.value;
      && (Unset(limit, "max-instances") ==> "max-instances" in r && r["max-instances"] == Int(d.maxInstances))
      && (Unset(limit, "max-traffic") ==> "max-traffic" in r && r["max-traffic"] == Int64(d.maxTraffic))
      && (("max-snapshots" !in limit || limit["max-snapshots"] == Nil) ==>
          "max-snapshots" in r && r["max-snapshots"] == Int(d.maxSnapshots))
      && (("max-resources" in r) == ("max-resources" in limit))
      && ("max-resources" in limit ==> r["max-resources"] == limit["max-resources"])
  {}

  lemma ResourcesTakeDefaults(m: Config, defaults: Option<Defaults>, name: string)
    requires FillResources(m, defaults).Some? && defaults.Some? && name in RESOURCES
    requires "max-resources" !in m || !m["max-resources"].Tree? || Unset(m["max-resources"].kids, name)
    ensures var r := FillResources(m, defaults).value;
      && "max-resources" in r && r["max-resources"].Tree? && name in r["max-resources"].kids
      && r["max-resources"].kids[name] == defaults.value.maxResources[name]
  {
    if "max-resources" in m && m["max-resources"].Tree? {
      FillEachTakesDefaults(m["max-resources"].kids, RESOURCES, defaults, name);
    }
  }

  // Nothing given: absent, null, or the integer 0.
  ghost predicate NotGiven(m: Config, field: string) {
    field !in m || m[field] == Nil || m[field] == Int(0)
  }

  ghost predicate Holds(m: Config, field: string, v: Value) {
    field in m && m[field] == v
  }

  ghost predicate ResourceNotGiven(limit: Config, field: string) {
    "max-resources" !in limit || !limit["max-resources"].Tree? || NotGiven(limit["max-resources"].kids, field)
  }

  ghost predicate ResourceHolds(limit: Config, field: string, v: Value) {
    "max-resources" in limit && limit["max-resources"].Tree? && Holds(limit["max-resources"].kids, field, v)
  }

  // A limit is as it should be: left to a default there is, or a positive number.
  ghost predicate LimitOk(m: Config, field: string, hasDefault: bool) {
    if NotGiven(m, field) then hasDefault
    else match m[field]
      case Int(i) => i > 0
      case Int64(i) => i > 0
      case Float(r) => r > 0.0
      case _ => false
  }

  lemma {:induction false} FillEachIff(m: Config, names: seq<string>, defaults: Option<Defaults>)
    requires forall x :: x in names ==> x in RESOURCES
    ensures FillEach(m, names, defaults).Some? <==> forall x :: x in names ==> LimitOk(m, x, defaults.Some?)
  {
    if names != [] {
      var front, last := names[..|names| - 1], names[|names| - 1];
      assert names == front + [last];
      FillEachIff(m, front, defaults);
      assert (forall x :: x in names ==> LimitOk(m, x, defaults.Some?)) <==>
        (forall x :: x in front ==> LimitOk(m, x, defaults.Some?)) && LimitOk(m, last, defaults.Some?);
      if FillEach(m, front, defaults).Some? {
        FillEachGives(m, front, defaults);
        FillEachAddsNames(m, front, defaults);
        var r := FillEach(m, front, defaults).value;
        if last in front {
          assert Positive(r, last);
        } else {
          assert (last in r <==> last in m) && (last in m ==> r[last] == m[last]);
        }
      }
    }
  }

  lemma FillNumbersIff(limit: Config, defaults: Option<Defaults>)
    ensures FillNumbers(limit, defaults).Some? <==>
      && LimitOk(limit, "max-instances", defaults.Some?) && LimitOk(limit, "max-traffic", defaults.Some?)
      && ("max-snapshots" !in limit || limit["max-snapshots"] == Nil || IsNonNegative(limit["max-snapshots"]))
    ensures FillNumbers(limit, defaults).Some? ==>
      var r := FillNumbers(limit, defaults).value;
      && (("max-resources" in r) == ("max-resources" in limit))
      && ("max-resources" in limit ==> r["max-resources"] == limit["max-resources"])
  {}

  ghost predicate ResourcesOk(limit: Config, hasDefault: bool) {
    if "max-resources" !in limit || limit["max-resources"] == Nil then hasDefault
    else
      && limit["max-resources"].Tree?
      && var resources := limit["max-resources"].kids;
      && LimitOk(resources, "cpu", hasDefault) && LimitOk(resources, "memory", hasDefault)
      && LimitOk(resources, "disk", hasDefault) && LimitOk(resources, "bandwidth", hasDefault)
  }

  lemma FillResourcesIff(m: Config, defaults: Option<Defaults>)
    ensures FillResources(m, defaults).Some? <==> ResourcesOk(m, defaults.Some?)
  {
    if "max-resources" in m && m["max-resources"].Tree? {
      FillEachIff(m["max-resources"].kids, RESOURCES, defaults);
      assert forall x :: x in RESOURCES <==> x == "cpu" || x == "memory" || x == "disk" || x == "bandwidth";
    }
  }

  // Which limits are accepted for which levels: defaults there are for the first five.
  lemma AcceptedIff(levelStr: string, v: Value)
    ensures FillLevel(levelStr, v).Some? <==>
      && v.Tree? && Atoi(levelStr).Some? && 1 <= Atoi(levelStr).value <= 99
      && var hasDefault := Atoi(levelStr).value <= 5;
      && LimitOk(v.kids, "max-instances", hasDefault) && LimitOk(v.kids, "max-traffic", hasDefault)
      && ("max-snapshots" !in v.kids || v.kids["max-snapshots"] == Nil || IsNonNegative(v.kids["max-snapshots"]))
      && ResourcesOk(v.kids, hasDefault)
  {
    if v.Tree? && IsLevel(levelStr) {
      var defaults := DefaultLevelLimit(Atoi(levelStr).value);
      FillNumbersIff(v.kids, defaults);
      if FillNumbers(v.kids, defaults).Some? {
        FillResourcesIff(FillNumbers(v.kids, defaults).value, defaults);
      }
    }
  }

  lemma NumbersFilled(limit: Config, defaults: Option<Defaults>)
    requires Fill(limit, defaults).Some? && defaults.Some?
    ensures var r, d := Fill(limit, defaults).value, defaults.value;
      && (NotGiven(limit, "max-instances") ==> Holds(r, "max-instances", Int(d.maxInstances)))
      && (NotGiven(limit, "max-traffic") ==> Holds(r, "max-traffic", Int64(d.maxTraffic)))
      && ("max-snapshots" !in limit || limit["max-snapshots"] == Nil ==> Holds(r, "max-snapshots", Int(d.maxSnapshots)))
  {
    NumbersTakeDefaults(limit, defaults);
    FillResourcesGives(FillNumbers(limit, defaults).value, defaults);
  }

  lemma ResourceFilled(limit: Config, defaults: Option<Defaults>, name: string)
    requires Fill(limit, defaults).Some? && defaults.Some? && name in RESOURCES
    ensures ResourceNotGiven(limit, name) ==>
      ResourceHolds(Fill(limit, defaults).value, name, defaults.value.maxResources[name])
  {
    NumbersTakeDefaults(limit, defaults);
    if ResourceNotGiven(limit, name) {
      ResourcesTakeDefaults(FillNumbers(limit, defaults).value, defaults, name);
    }
  }

  lemma DefaultsAre(level: int)
    requires 1 <= level <= 5
    ensures var d, i := DefaultLevelLimit(level).value, level - 1;
      && d.maxInstances == [1, 3, 5, 10, 20][i] && d.maxSnapshots == [1, 3, 5, 10, 20][i]
      && d.maxTraffic == [102400, 204800, 307200, 409600, 512000][i]
      && d.maxResources["cpu"] == Int([1, 2, 4, 8, 16][i])
      && d.maxResources["memory"] == Int([350, 1024, 2048, 4096, 8192][i])
      && d.maxResources["disk"] == Int([1024, 20480, 40960, 81920, 163840][i])
      && d.maxResources["bandwidth"] == Int([100, 200, 500, 1000, 2000][i])
  {
    var d := DefaultLevelLimit(level).value;
    assert forall x :: x in RESOURCES ==> Positive(d.maxResources, x);
  }

  // What an accepted level gets for the fields that are not given.
  lemma DefaultsFilledIn(levelStr: string, limit: Config)
    requires FillLevel(levelStr, Tree(limit)).Some? && 1 <= Atoi(levelStr).value <= 5
    ensures var r, level := FillLevel(levelStr, Tree(limit)).value.kids, Atoi(levelStr).value - 1;
      && (NotGiven(limit, "max-instances") ==> Holds(r, "max-instances", Int([1, 3, 5, 10, 20][level])))
      && (NotGiven(limit, "max-traffic") ==>
          Holds(r, "max-traffic", Int64([102400, 204800, 307200, 409600, 512000][level])))
      && ("max-snapshots" !in limit || limit["max-snapshots"] == Nil ==>
          Holds(r, "max-snapshots", Int([1, 3, 5, 10, 20][level])))
      && (ResourceNotGiven(limit, "cpu") ==> ResourceHolds(r, "cpu", Int([1, 2, 4, 8, 16][level])))
      && (ResourceNotGiven(limit, "memory") ==> ResourceHolds(r, "memory", Int([350, 1024, 2048, 4096, 8192][level])))
      && (ResourceNotGiven(limit, "disk") ==> ResourceHolds(r, "disk", Int([1024, 20480, 40960, 81920, 163840][level])))
      && (ResourceNotGiven(limit, "bandwidth") ==> ResourceHolds(r, "bandwidth", Int([100, 200, 500, 1000, 2000][level])))
  {
    var level := Atoi(levelStr).value;
    var defaults := DefaultLevelLimit(level);
    DefaultsAre(level);
    NumbersFilled(limit, defaults);
    ResourceFilled(limit, defaults, "cpu");
    ResourceFilled(limit, defaults, "memory");
    ResourceFilled(limit, defaults, "disk");
    ResourceFilled(limit, defaults, "bandwidth");
  }

  // ---------- Zeros ----------

  predicate IsZero(v: Value) {
    v == Int(0) || v == Int64(0) || v == Float(0.0)
  }

  // The limits with one field, of theirs or of their resources, set to a value.
  function WithField(limit: Config, field: string, v: Value): Config {
    if field in RESOURCES then
      var resources := if "max-resources" in limit && limit["max-resources"].Tree? then limit["max-resources"].kids else map[];
      limit["max-resources" := Tree(resources[field := v])]
    else limit[field := v]
  }

  ghost predicate CountsAsUnset(field: string, v: Value) {
    forall levelStr, limit ::
      FillLevel(levelStr, Tree(WithField(limit, field, v))) == FillLevel(levelStr, Tree(WithField(limit, field, Nil)))
  }

  ghost predicate RefusedAlways(field: string, v: Value) {
    forall levelStr, limit :: FillLevel(levelStr, Tree(WithField(limit, field, v))) == None
  }

  lemma UpdateTwice(m: Config, field: string, v: Value, w: Value)
    ensures m[field := v][field := w] == m[field := w]
  {}

  // A field counts as unset alike whichever way it is.
  lemma FillNumberOfUnset(m: Config, field: string, v: Value, byDefault: Option<Value>)
    requires v == Int(0) || v == Nil
    ensures FillNumber(m[field := v], field, byDefault) ==
      if byDefault.Some? then Some(m[field := byDefault.value]) else None
  {
    if byDefault.Some? { UpdateTwice(m, field, v, byDefault.value); }
  }

  // Filling one field does not look at another.
  lemma FillNumberPast(m: Config, field: string, other: string, v: Value, byDefault: Option<Value>)
    requires field != other
    ensures var r := FillNumber(m, field, byDefault);
      FillNumber(m[other := v], field, byDefault) == if r.Some? then Some(r.value[other := v]) else None
  {
    if Unset(m, field) && byDefault.Some? {
      assert m[other := v][field := byDefault.value] == m[field := byDefault.value][other := v];
    }
  }

  lemma FillSnapshotsPast(m: Config, other: string, v: Value, byDefault: Option<Value>)
    requires other != "max-snapshots"
    ensures var r := FillSnapshots(m, byDefault);
      FillSnapshots(m[other := v], byDefault) == if r.Some? then Some(r.value[other := v]) else None
  {
    if ("max-snapshots" !in m || m["max-snapshots"] == Nil) && byDefault.Some? {
      var d := byDefault.value;
      assert m[other := v]["max-snapshots" := d] == m["max-snapshots" := d][other := v];
    }
  }

  lemma {:induction false} FillEachPast(m: Config, names: seq<string>, other: string, v: Value, defaults: Option<Defaults>)
    requires (forall x :: x in names ==> x in RESOURCES) && other !in names
    ensures var r := FillEach(m, names, defaults);
      FillEach(m[other := v], names, defaults) == if r.Some? then Some(r.value[other := v]) else None
  {
    if names != [] {
      var front, name := names[..|names| - 1], names[|names| - 1];
      assert names == front + [name];
      FillEachPast(m, front, other, v, defaults);
      var r := FillEach(m, front, defaults);
      if r.Some? {
        FillNumberPast(r.value, name, other, v,
                       if defaults.Some? then Some(defaults.value.maxResources[name]) else None);
      }
    }
  }

  lemma {:induction false} FillEachOfZero(m: Config, names: seq<string>, field: string, v: Value, defaults: Option<Defaults>)
    requires (forall x :: x in names ==> x in RESOURCES) && field in names && IsZero(v)
    ensures FillEach(m[field := v], names, defaults) ==
      if v == Int(0) then FillEach(m[field := Nil], names, defaults) else None
  {
    var front, name := names[..|names| - 1], names[|names| - 1];
    assert names == front + [name];
    if field in front {
      FillEachOfZero(m, front, field, v, defaults);
    } else {
      FillEachPast(m, front, field, v, defaults);
      FillEachPast(m, front, field, Nil, defaults);
      var r := FillEach(m, front, defaults);
      if r.Some? {
        var byDefault := if defaults.Some? then Some(defaults.value.maxResources[name]) else None;
        if v == Int(0) { FillNumberOfUnset(r.value, name, v, byDefault); }
        FillNumberOfUnset(r.value, name, Nil, byDefault);
      }
    }
  }

  lemma FillNumbersPast(m: Config, v: Value, defaults: Option<Defaults>)
    ensures var r := FillNumbers(m, defaults);
      FillNumbers(m["max-resources" := v], defaults) == if r.Some? then Some(r.value["max-resources" := v]) else None
  {
    var instances := if defaults.Some? then Some(Int(defaults.value.maxInstances)) else None;
    var traffic := if defaults.Some? then Some(Int64(defaults.value.maxTraffic)) else None;
    FillNumberPast(m, "max-instances", "max-resources", v, instances);
    var a := FillNumber(m, "max-instances", instances);
    if a.Some? {
      FillNumberPast(a.value, "max-traffic", "max-resources", v, traffic);
      var b := FillNumber(a.value, "max-traffic", traffic);
      if b.Some? {
        FillSnapshotsPast(b.value, "max-resources", v, if defaults.Some? then Some(Int(defaults.value.maxSnapshots)) else None);
      }
    }
  }

  lemma FillResourcesOf(m: Config, resources: Config, defaults: Option<Defaults>)
    ensures var numbers, r := FillNumbers(m, defaults), FillEach(resources, RESOURCES, defaults);
      Fill(m["max-resources" := Tree(resources)], defaults) ==
        if numbers.Some? && r.Some? then Some(numbers.value["max-resources" := Tree(r.value)]) else None
  {
    FillNumbersPast(m, Tree(resources), defaults);
    var numbers, r := FillNumbers(m, defaults), FillEach(resources, RESOURCES, defaults);
    if numbers.Some? && r.Some? { UpdateTwice(numbers.value, "max-resources", Tree(resources), Tree(r.value)); }
  }

  lemma FillOfZero(limit: Config, field: string, v: Value, defaults: Option<Defaults>)
    requires (field == "max-instances" || field == "max-traffic" || field in RESOURCES) && IsZero(v)
    ensures Fill(WithField(limit, field, v), defaults) ==
      if v == Int(0) then Fill(WithField(limit, field, Nil), defaults) else None
  {
    var instances := if defaults.Some? then Some(Int(defaults.value.maxInstances)) else None;
    var traffic := if defaults.Some? then Some(Int64(defaults.value.maxTraffic)) else None;
    if field in RESOURCES {
      var resources := if "max-resources" in limit && limit["max-resources"].Tree? then limit["max-resources"].kids else map[];
      FillEachOfZero(resources, RESOURCES, field, v, defaults);
      FillResourcesOf(limit, resources[field := v], defaults);
      FillResourcesOf(limit, resources[field := Nil], defaults);
    } else if field == "max-instances" {
      FillNumberOfUnset(limit, field, Nil, instances);
      if v == Int(0) { FillNumberOfUnset(limit, field, v, instances); }
    } else {
      FillNumberPast(limit, "max-instances", field, v, instances);
      FillNumberPast(limit, "max-instances", field, Nil, instances);
      var a := FillNumber(limit, "max-instances", instances);
      if a.Some? {
        FillNumberOfUnset(a.value, field, Nil, traffic);
        if v == Int(0) { FillNumberOfUnset(a.value, field, v, traffic); }
      }
    }
  }

  lemma {:induction false} FillEachOfNothing(m: Config, names: seq<string>, defaults: Option<Defaults>)
    requires defaults.Some? && forall x :: x in names ==> x in RESOURCES
    requires forall x :: x in m ==> m[x] == Nil
    ensures FillEach(m, names, defaults).Some?
  {
    if names != [] {
      var front, name := names[..|names| - 1], names[|names| - 1];
      assert names == front + [name];
      FillEachOfNothing(m, front, defaults);
      FillEachGives(m, front, defaults);
      FillEachAddsNames(m, front, defaults);
    }
  }

  lemma NumbersOfNothing(field: string, defaults: Option<Defaults>)
    requires defaults.Some? && field != "max-resources"
    ensures Fill(map[field := Nil], defaults).Some? && FillNumbers(map[], defaults).Some?
  {}

  // The first level takes all its limits from the defaults.
  lemma NothingIsFilled(field: string, levelStr: string)
    requires field == "max-instances" || field == "max-traffic" || field in RESOURCES
    requires IsLevel(levelStr) && Atoi(levelStr) == Some(1)
    ensures FillLevel(levelStr, Tree(WithField(map[], field, Nil))).Some?
  {
    var defaults := DefaultLevelLimit(1);
    NumbersOfNothing(field, defaults);
    assert WithField(map[], field, Nil) ==
      if field in RESOURCES then map["max-resources" := Tree(map[field := Nil])] else map[field := Nil];
    if field in RESOURCES {
      FillEachOfNothing(map[field := Nil], RESOURCES, defaults);
      FillResourcesOf(map[], map[field := Nil], defaults);
    }
  }

  // Each of the six positive limits: a zero stands for a limit that is not set exactly if
  // it is the integer 0. Any other zero, as the one decoded from JSON, a float, has the
  // level refused, whatever else is in it.
  lemma ZeroFromJsonIsRefused(field: string, v: Value)
    requires (field == "max-instances" || field == "max-traffic" || field in RESOURCES) && IsZero(v)
    ensures CountsAsUnset(field, v) <==> v == Int(0)
    ensures RefusedAlways(field, v) <==> v != Int(0)
  {
    forall levelStr, limit
      ensures FillLevel(levelStr, Tree(WithField(limit, field, v))) ==
        if v == Int(0) then FillLevel(levelStr, Tree(WithField(limit, field, Nil))) else None
    {
      if IsLevel(levelStr) { FillOfZero(limit, field, v, DefaultLevelLimit(Atoi(levelStr).value)); }
    }
    AtoiOfFormatInt(1);
    NothingIsFilled(field, FormatInt(1));
    assert v != Int(0) ==> FillLevel(FormatInt(1), Tree(WithField(map[], field, v))) == None;
  }
}
