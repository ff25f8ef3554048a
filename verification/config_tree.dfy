// Nested configuration maps, their flat form with dotted keys, and the way back.

module ConfigTree {
  import opened Collections
  import opened Text

  // A configuration value as decoded from JSON or YAML.
  datatype Value =
    | Nil
    | Bool(b: bool)
    | Int(i: Word)
    | Int64(i: Word)
    | Float(r: real)
    | Str(s: string)
    | List(items: seq<Value>)
    | Tree(kids: map<string, Value>)

  type Config = map<string, Value>

  // Maps under these keys are saved as one value.
  predicate IsWhole(key: string) {
    key == "level-limits" || key == "levelLimits"
  }

  predicate Descends(key: string, v: Value) {
    v.Tree? && !IsWhole(key)
  }

  // ---------- Keys ----------

  predicate GoodKey(key: string) {
    key != "" && '.' !in key
  }

  ghost predicate WellKeyed(t: Value)
    requires t.Tree?
    decreases t
  {
    forall k :: k in t.kids ==> GoodKey(k) && (Descends(k, t.kids[k]) ==> WellKeyed(t.kids[k]))
  }

  // No empty map below the top, except inside a value that is kept whole.
  ghost predicate NoEmptyMaps(t: Value)
    requires t.Tree?
    decreases t
  {
    forall k :: k in t.kids && Descends(k, t.kids[k]) ==> t.kids[k].kids != map[] && NoEmptyMaps(t.kids[k])
  }

  function NonEmpty(parts: seq<string>): seq<string> {
    if parts == [] then []
    else NonEmpty(parts[..|parts| - 1]) + if parts[|parts| - 1] == "" then [] else [parts[|parts| - 1]]
  }

  // The segments between the dots, empty ones dropped.
  function Segments(key: string): seq<string> {
    NonEmpty(Split(key, '.'))
  }

  lemma {:induction false} NonEmptyKeeps(parts: seq<string>)
    ensures (forall p :: p in parts ==> p != "") ==> NonEmpty(parts) == parts
    ensures forall p :: p in NonEmpty(parts) <==> p in parts && p != ""
  {
    if parts != [] {
      var front, last := parts[..|parts| - 1], parts[|parts| - 1];
      NonEmptyKeeps(front);
      assert parts == front + [last];
      assert last in parts && forall p :: p in front ==> p in parts;
    }
  }

  lemma SegmentsOfJoin(path: seq<string>)
    requires path != [] && forall k :: k in path ==> GoodKey(k)
    ensures Segments(Join(path, '.')) == path
  {
    SplitJoin(path, '.');
    NonEmptyKeeps(path);
  }

  lemma NonEmptySnoc(parts: seq<string>, p: string)
    ensures NonEmpty(parts + [p]) == if p == "" then NonEmpty(parts) else NonEmpty(parts) + [p]
  {
    assert (parts + [p])[..|parts|] == parts;
  }

  // At position i of the key: the parts that have ended, and the one being read.
  ghost predicate Reading(key: string, i: nat, parts: seq<string>, current: string) {
    i <= |key| && Free(current, '.') && parts + Split(current + key[i..], '.') == Split(key, '.')
  }

  lemma ReadingStarts(key: string)
    ensures Reading(key, 0, [], "")
  {
    assert "" + key[0..] == key;
  }

  // A dot ends the segment being read.
  lemma ReadDot(key: string, i: nat, parts: seq<string>, current: string)
    requires i < |key| && key[i] == '.' && Reading(key, i, parts, current)
    ensures Reading(key, i + 1, parts + [current], "")
  {
    var rest := key[i + 1..];
    assert current + key[i..] == current + ['.'] + rest;
    SplitFirst(current, '.', rest);
    assert "" + rest == rest;
    assert parts + ([current] + Split(rest, '.')) == (parts + [current]) + Split(rest, '.');
  }

  lemma ReadOn(key: string, i: nat, parts: seq<string>, current: string)
    requires i < |key| && key[i] != '.' && Reading(key, i, parts, current)
    ensures Reading(key, i + 1, parts, current + [key[i]])
  {
    assert current + key[i..] == current + [key[i]] + key[i + 1..];
  }

  lemma ReadingEnds(key: string, parts: seq<string>, current: string)
    requires Reading(key, |key|, parts, current)
    ensures Split(key, '.') == parts + [current]
  {
    assert current + key[|key|..] == current;
    SplitFree(current, '.');
  }

  // Reading a key from left to right: the segments so far and the one being read.
  method SplitKey(key: string) returns (result: seq<string>)
    ensures result == Segments(key)
  {
    result := [];
    var current := "";
    ghost var parts: seq<string> := [];
    ReadingStarts(key);
    for i := 0 to |key|
      invariant Reading(key, i, parts, current) && result == NonEmpty(parts)
    {
      var ch := key[i];
      if ch == '.' {
        ReadDot(key, i, parts, current);
        NonEmptySnoc(parts, current);
        parts := parts + [current];
        if current != "" {
          result := result + [current];
          current := "";
        }
      } else {
        ReadOn(key, i, parts, current);
        current := current + [ch];
      }
    }
    ReadingEnds(key, parts, current);
    NonEmptySnoc(parts, current);
    if current != "" {
      result := result + [current];
    }
  }

  // ---------- Leaves ----------

  // What the flat form stores for a path: the value there, if the walk ends on it.
  ghost function LeafAt(c: Config, path: seq<string>): Option<Value>
    decreases |path|
  {
    if path == [] || path[0] !in c then None
    else
      var v := c[path[0]];
      if Descends(path[0], v) then LeafAt(v.kids, path[1..])
      else if |path| == 1 then Some(v) else None
  }

  ghost predicate IsLeaf(c: Config, path: seq<string>, v: Value) {
    LeafAt(c, path) == Some(v)
  }

  // Leaf paths consist of good keys, descend through ordinary maps only, and end on a
  // value that is not an ordinary map.
  ghost predicate LeafShape(path: seq<string>, v: Value) {
    && path != []
    && (forall i :: 0 <= i < |path| ==> GoodKey(path[i]))
    && (forall i :: 0 <= i < |path| - 1 ==> !IsWhole(path[i]))
    && !Descends(path[|path| - 1], v)
  }

  lemma {:induction false} LeavesHaveShape(c: Config, path: seq<string>, v: Value)
    requires WellKeyed(Tree(c)) && IsLeaf(c, path, v)
    ensures LeafShape(path, v)
    decreases |path|
  {
    assert path[0] in Tree(c).kids;
    if Descends(path[0], c[path[0]]) {
      LeavesHaveShape(c[path[0]].kids, path[1..], v);
      forall i | 0 <= i < |path| ensures GoodKey(path[i]) ensures i < |path| - 1 ==> !IsWhole(path[i]) {
        if i > 0 { assert path[i] == path[1..][i - 1]; }
      }
    }
  }

  // No leaf path is a prefix of another.
  lemma {:induction false} LeavesPrefixFree(c: Config, p: seq<string>, q: seq<string>)
    requires LeafAt(c, p).Some? && LeafAt(c, q).Some? && p <= q
    ensures p == q
    decreases |p|
  {
    assert p[0] == q[0];
    if Descends(p[0], c[p[0]]) {
      LeavesPrefixFree(c[p[0]].kids, p[1..], q[1..]);
      assert p == [p[0]] + p[1..] && q == [q[0]] + q[1..];
    }
  }

  // A map that is not empty, and holds no empty map, has a leaf.
  lemma {:induction false} SomeLeaf(t: Value) returns (path: seq<string>)
    requires t.Tree? && t.kids != map[] && NoEmptyMaps(t)
    ensures LeafAt(t.kids, path).Some?
    decreases t
  {
    var k :| k in t.kids;
    if Descends(k, t.kids[k]) {
      var rest := SomeLeaf(t.kids[k]);
      path := [k] + rest;
      assert path[1..] == rest;
    } else {
      path := [k];
    }
  }

  lemma LeafBelow(c: Config, k: string, rest: seq<string>)
    requires k in c && Descends(k, c[k])
    ensures LeafAt(c, [k] + rest) == LeafAt(c[k].kids, rest)
  {
    assert ([k] + rest)[1..] == rest;
  }

  // Trees without empty maps are determined by their leaves.
  lemma {:induction false} SameLeavesSameTree(s: Value, t: Value)
    requires s.Tree? && t.Tree? && NoEmptyMaps(s) && NoEmptyMaps(t)
    requires forall path :: LeafAt(s.kids, path) == LeafAt(t.kids, path)
    ensures s == t
    decreases s
  {
    var c, d := s.kids, t.kids;
    SameKeys(c, d);
    SameKeys(d, c);
    forall k | k in c ensures k in d && c[k] == d[k] {
      assert LeafAt(c, [k]) == LeafAt(d, [k]);
      if Descends(k, c[k]) {
        forall rest ensures LeafAt(c[k].kids, rest) == LeafAt(d[k].kids, rest) {
          LeafBelow(c, k, rest);
          LeafBelow(d, k, rest);
        }
        SameLeavesSameTree(c[k], d[k]);
      }
    }
    assert c == d;
  }

  // A key of one tree is a key of the other, of the same kind.
  lemma SameKeys(c: Config, d: Config)
    requires NoEmptyMaps(Tree(c)) && forall path :: LeafAt(c, path) == LeafAt(d, path)
    ensures forall k :: k in c ==> k in d && (Descends(k, c[k]) ==> Descends(k, d[k]))
    ensures forall k :: k in c && !Descends(k, c[k]) ==> k in d && c[k] == d[k]
  {
    forall k | k in c
      ensures k in d && (Descends(k, c[k]) ==> Descends(k, d[k])) && (!Descends(k, c[k]) ==> c[k] == d[k])
    {
      assert k in Tree(c).kids;
      if Descends(k, c[k]) {
        var rest := SomeLeaf(c[k]);
        LeafBelow(c, k, rest);
        assert LeafAt(d, [k] + rest).Some? && rest != [];
      } else {
        LeafOfOne(c, k);
        LeafOfOne(d, k);
      }
    }
  }

  lemma LeafOfOne(c: Config, k: string)
    ensures LeafAt(c, [k]) == if k in c && !Descends(k, c[k]) then Some(c[k]) else None
  {
    assert [k][1..] == [];
  }

  // ---------- Flattening ----------

  function FlatKey(prefix: string, path: seq<string>): string {
    if prefix == "" then Join(path, '.') else prefix + "." + Join(path, '.')
  }

  ghost predicate GoodPath(path: seq<string>) {
    path != [] && forall k :: k in path ==> GoodKey(k)
  }

  function Lookup(flat: Config, key: string): Option<Value> {
    if key in flat then Some(flat[key]) else None
  }

  // The flat map holds exactly the leaves, under their joined paths.
  ghost predicate FlatFormOf(c: Config, prefix: string, flat: Config) {
    && (forall path :: GoodPath(path) ==> Lookup(flat, FlatKey(prefix, path)) == LeafAt(c, path))
    && forall x :: x in flat ==> exists path :: GoodPath(path) && x == FlatKey(prefix, path)
  }

  lemma FlatKeyBelow(prefix: string, k: string, rest: seq<string>)
    requires GoodKey(k) && GoodPath(rest)
    ensures FlatKey(FlatKey(prefix, [k]), rest) == FlatKey(prefix, [k] + rest) && GoodPath([k] + rest)
  {
    assert ([k] + rest)[1..] == rest;
    assert FlatKey(prefix, [k]) != "";
  }

  lemma FlatKeyInjective(prefix: string, p: seq<string>, q: seq<string>)
    requires GoodPath(p) && GoodPath(q) && FlatKey(prefix, p) == FlatKey(prefix, q)
    ensures p == q
  {
    if prefix != "" {
      var n := |prefix| + 1;
      assert FlatKey(prefix, p)[n..] == Join(p, '.') && FlatKey(prefix, q)[n..] == Join(q, '.');
    }
    SegmentsOfJoin(p);
    SegmentsOfJoin(q);
  }

  // The part of a map under some of its keys.
  ghost function Part(c: Config, keys: set<string>): Config {
    map k | k in c && k in keys :: c[k]
  }

  lemma LeafOfPart(c: Config, keys: set<string>, path: seq<string>)
    ensures LeafAt(Part(c, keys), path) == if path != [] && path[0] in keys then LeafAt(c, path) else None
  {}

  // One more key whose value is a leaf.
  lemma FlatStepLeaf(c: Config, keys: set<string>, k: string, prefix: string, flat: Config)
    requires GoodKey(k) && k in c && k !in keys && !Descends(k, c[k])
    requires FlatFormOf(Part(c, keys), prefix, flat)
    ensures FlatFormOf(Part(c, keys + {k}), prefix, flat[FlatKey(prefix, [k]) := c[k]])
  {
    var next := flat[FlatKey(prefix, [k]) := c[k]];
    assert GoodPath([k]);
    forall path | GoodPath(path) ensures Lookup(next, FlatKey(prefix, path)) == LeafAt(Part(c, keys + {k}), path) {
      LeafOfPart(c, keys + {k}, path);
      LeafOfPart(c, keys, path);
      if FlatKey(prefix, path) == FlatKey(prefix, [k]) {
        FlatKeyInjective(prefix, path, [k]);
      } else if path[0] == k {
        assert path != [k];
      }
    }
  }

  // Where a nested flat form has entries: below its key only.
  lemma NestedLookup(prefix: string, k: string, kids: Config, nested: Config, path: seq<string>)
    requires GoodKey(k) && GoodPath(path) && FlatFormOf(kids, FlatKey(prefix, [k]), nested)
    ensures Lookup(nested, FlatKey(prefix, path)) == if path[0] == k && |path| > 1 then LeafAt(kids, path[1..]) else None
  {
    if path[0] == k && |path| > 1 {
      var rest := path[1..];
      assert path == [k] + rest && GoodPath(rest);
      FlatKeyBelow(prefix, k, rest);
    } else if FlatKey(prefix, path) in nested {
      var rest :| GoodPath(rest) && FlatKey(prefix, path) == FlatKey(FlatKey(prefix, [k]), rest);
      FlatKeyBelow(prefix, k, rest);
      FlatKeyInjective(prefix, path, [k] + rest);
      assert false;
    }
  }

  // One more key whose value is a map, already flattened under the longer prefix.
  lemma FlatStepTree(c: Config, keys: set<string>, k: string, prefix: string, flat: Config, nested: Config)
    requires GoodKey(k) && k in c && k !in keys && Descends(k, c[k])
    requires FlatFormOf(Part(c, keys), prefix, flat)
    requires FlatFormOf(c[k].kids, FlatKey(prefix, [k]), nested)
    ensures FlatFormOf(Part(c, keys + {k}), prefix, flat + nested)
  {
    forall path | GoodPath(path) ensures Lookup(flat + nested, FlatKey(prefix, path)) == LeafAt(Part(c, keys + {k}), path) {
      LeafOfPart(c, keys + {k}, path);
      LeafOfPart(c, keys, path);
      NestedLookup(prefix, k, c[k].kids, nested, path);
    }
    forall x | x in nested ensures exists path :: GoodPath(path) && x == FlatKey(prefix, path) {
      var rest :| GoodPath(rest) && x == FlatKey(FlatKey(prefix, [k]), rest);
      FlatKeyBelow(prefix, k, rest);
    }
  }

  // Goes over the map in whatever order it yields its keys.
  method FlattenConfig(t: Value, prefix: string) returns (result: Config)
    requires t.Tree?
    ensures WellKeyed(t) ==> FlatFormOf(t.kids, prefix, result)
    decreases t
  {
    var c := t.kids;
    result := map[];
    var remaining := c.Keys;
    ghost var done: set<string> := {};
    assert Part(c, {}) == map[];
    while remaining != {}
      invariant remaining <= c.Keys && done == c.Keys - remaining
      invariant WellKeyed(t) ==> FlatFormOf(Part(c, done), prefix, result)
    {
      var key :| key in remaining;
      var value := c[key];
      var fullKey := if prefix != "" then prefix + "." + key else key;
      assert fullKey == FlatKey(prefix, [key]);
      if value.Tree? && !IsWhole(key) {
        var nested := FlattenConfig(value, fullKey);
        if WellKeyed(t) { FlatStepTree(c, done, key, prefix, result, nested); }
        result := result + nested;
      } else {
        if WellKeyed(t) { FlatStepLeaf(c, done, key, prefix, result); }
        result := result[fullKey := value];
      }
      remaining := remaining - {key};
      done := done + {key};
    }
    assert Part(c, done) == c;
  }

  // ---------- Setting a value at a path ----------

  // setNestedValue: walks down, replacing what is missing or not a map by a new map.
  function Put(c: Config, path: seq<string>, v: Value): (r: Config)
    requires path != []
    ensures r.Keys == c.Keys + {path[0]}
    decreases |path|
  {
    if |path| == 1 then c[path[0] := v]
    else
      var next := if path[0] in c && c[path[0]].Tree? then c[path[0]].kids else map[];
      c[path[0] := Tree(Put(next, path[1..], v))]
  }

  function Get(c: Config, path: seq<string>): Option<Value>
    requires path != []
    decreases |path|
  {
    if path[0] !in c then None
    else if |path| == 1 then Some(c[path[0]])
    else if c[path[0]].Tree? then Get(c[path[0]].kids, path[1..]) else None
  }

  lemma {:induction false} GetPut(c: Config, path: seq<string>, v: Value)
    requires path != []
    ensures Get(Put(c, path, v), path) == Some(v)
    decreases |path|
  {
    if |path| > 1 {
      GetPut(if path[0] in c && c[path[0]].Tree? then c[path[0]].kids else map[], path[1..], v);
    }
  }

  // Neither path is a prefix of the other: they part somewhere.
  ghost predicate Apart(p: seq<string>, q: seq<string>) {
    p != [] && q != [] && (p[0] != q[0] || Apart(p[1..], q[1..]))
  }

  lemma {:induction false} ApartIff(p: seq<string>, q: seq<string>)
    ensures Apart(p, q) <==> !(p <= q) && !(q <= p)
  {
    if p != [] && q != [] && p[0] == q[0] {
      ApartIff(p[1..], q[1..]);
      assert p == [p[0]] + p[1..] && q == [q[0]] + q[1..];
      assert p <= q <==> p[1..] <= q[1..];
      assert q <= p <==> q[1..] <= p[1..];
    }
  }

  // Maps under these two keys are entries of their own; no other map is, whatever its place.
  ghost predicate KeptWhole(key: string, v: Value) {
    !v.Tree? || key == "level-limits" || key == "levelLimits"
  }

  lemma {:induction false} LeafAtGet(c: Config, path: seq<string>)
    requires path != [] && forall i :: 0 <= i < |path| - 1 ==> path[i] != "level-limits" && path[i] != "levelLimits"
    ensures var v := Get(c, path);
      LeafAt(c, path) == if v.Some? && KeptWhole(path[|path| - 1], v.value) then v else None
    decreases |path|
  {
    if |path| > 1 && path[0] in c && c[path[0]].Tree? {
      LeafAtGet(c[path[0]].kids, path[1..]);
    }
  }

  lemma {:induction false} NoLeafBelowWhole(c: Config, path: seq<string>, i: nat)
    requires i < |path| - 1 && (path[i] == "level-limits" || path[i] == "levelLimits")
    ensures LeafAt(c, path) == None
    decreases |path|
  {
    if i > 0 && path[0] in c && Descends(path[0], c[path[0]]) {
      NoLeafBelowWhole(c[path[0]].kids, path[1..], i - 1);
    }
  }

  // What the flat form has for a path: nothing below the two keys, and elsewhere what the
  // tree has there, unless that is a map to descend into.
  lemma FlatEntryIs(c: Config, flat: Config, path: seq<string>)
    requires FlatFormOf(c, "", flat) && GoodPath(path)
    ensures var v := Get(c, path);
      Lookup(flat, Join(path, '.')) ==
        if v.Some? && KeptWhole(path[|path| - 1], v.value)
           && (forall i :: 0 <= i < |path| - 1 ==> path[i] != "level-limits" && path[i] != "levelLimits")
        then v else None
  {
    assert Lookup(flat, FlatKey("", path)) == LeafAt(c, path);
    if i :| 0 <= i < |path| - 1 && (path[i] == "level-limits" || path[i] == "levelLimits") {
      NoLeafBelowWhole(c, path, i);
    } else {
      LeafAtGet(c, path);
    }
  }

  function Below(c: Config, key: string): Config {
    if key in c && c[key].Tree? then c[key].kids else map[]
  }

  // What a Put stores under the first key of its path.
  function PutHead(c: Config, path: seq<string>, v: Value): (x: Value)
    requires path != []
    ensures Put(c, path, v) == c[path[0] := x]
  {
    if |path| == 1 then v else Tree(Put(Below(c, path[0]), path[1..], v))
  }

  // Paths that part do not see each other's values.
  lemma {:induction false} PutFrame(c: Config, p: seq<string>, v: Value, q: seq<string>)
    requires Apart(p, q)
    ensures Get(Put(c, p, v), q) == Get(c, q)
    decreases |p|
  {
    if p[0] == q[0] {
      PutFrame(Below(c, p[0]), p[1..], v, q[1..]);
    }
  }

  // Puts on paths that part can be done in either order.
  lemma {:induction false} PutCommutes(c: Config, p: seq<string>, v: Value, q: seq<string>, w: Value)
    requires Apart(p, q)
    ensures Put(Put(c, p, v), q, w) == Put(Put(c, q, w), p, v)
    decreases |p|
  {
    if p[0] == q[0] {
      PutCommutes(Below(c, p[0]), p[1..], v, q[1..], w);
      PutTwiceBelow(c, p, v, q, w);
      PutTwiceBelow(c, q, w, p, v);
    } else {
      var x, y := PutHead(c, p, v), PutHead(c, q, w);
      assert c[p[0] := x][q[0] := y] == c[q[0] := y][p[0] := x];
    }
  }

  lemma PutTwiceBelow(c: Config, p: seq<string>, v: Value, q: seq<string>, w: Value)
    requires |p| > 1 && |q| > 1 && p[0] == q[0]
    ensures Put(Put(c, p, v), q, w) == c[p[0] := Tree(Put(Put(Below(c, p[0]), p[1..], v), q[1..], w))]
  {
    var h, x := p[0], PutHead(c, p, v);
    BelowUpdated(c, h, x.kids);
    var y := PutHead(c[h := x], q, w);
    assert c[h := x][h := y] == c[h := y];
  }

  lemma BelowUpdated(c: Config, h: string, kids: Config)
    ensures Below(c[h := Tree(kids)], h) == kids
  {}

  // ---------- Rebuilding ----------

  // unflattenConfig for one order of the flat map's keys.
  ghost function Rebuild(flat: Config, order: seq<string>): Config {
    if order == [] then map[]
    else
      var k := order[|order| - 1];
      var front := Rebuild(flat, order[..|order| - 1]);
      if k !in flat || Segments(k) == [] then front else Put(front, Segments(k), flat[k])
  }

  ghost predicate OrderOf(order: seq<string>, flat: Config) {
    && NoDuplicates(order)
    && forall k :: k in order <==> k in flat
  }

  lemma RebuildSnoc(flat: Config, order: seq<string>, key: string)
    requires key in flat
    ensures Rebuild(flat, order + [key]) ==
      if Segments(key) == [] then Rebuild(flat, order) else Put(Rebuild(flat, order), Segments(key), flat[key])
  {
    assert (order + [key])[..|order|] == order;
  }

  // The keys gone over so far, each once.
  ghost predicate Visited(order: seq<string>, keys: set<string>) {
    NoDuplicates(order) && forall k :: k in order <==> k in keys
  }

  lemma VisitOne(order: seq<string>, keys: set<string>, key: string)
    requires Visited(order, keys) && key !in keys
    ensures Visited(order + [key], keys + {key})
  {
    assert forall i :: 0 <= i < |order| ==> order[i] in order;
  }

  lemma LeafAtUpdate(c: Config, h: string, x: Value, q: seq<string>)
    ensures LeafAt(c[h := x], q) ==
      if q == [] || q[0] != h then LeafAt(c, q)
      else if Descends(h, x) then LeafAt(x.kids, q[1..])
      else if |q| == 1 then Some(x) else None
  {}

  lemma NoEmptyMapsUpdate(c: Config, h: string, x: Value)
    requires NoEmptyMaps(Tree(c)) && (Descends(h, x) ==> x.kids != map[] && NoEmptyMaps(x))
    ensures NoEmptyMaps(Tree(c[h := x]))
  {}

  // A new leaf on a path that parts from every leaf of the tree adds that leaf only.
  lemma {:induction false} PutLeaf(c: Config, p: seq<string>, v: Value)
    requires NoEmptyMaps(Tree(c)) && LeafShape(p, v)
    requires forall q :: LeafAt(c, q).Some? ==> Apart(p, q)
    ensures NoEmptyMaps(Tree(Put(c, p, v)))
    ensures forall q :: LeafAt(Put(c, p, v), q) == if q == p then Some(v) else LeafAt(c, q)
    decreases |p|
  {
    var h, x := p[0], PutHead(c, p, v);
    OnlyMapsOnTheWay(c, p, v);
    if |p| > 1 {
      PutLeafBelow(c, p);
      LeafShapeTail(p, v);
      PutLeaf(Below(c, h), p[1..], v);
      assert p[1] in x.kids;
    }
    NoEmptyMapsUpdate(c, h, x);
    forall q ensures LeafAt(Put(c, p, v), q) == if q == p then Some(v) else LeafAt(c, q) {
      LeafAtUpdate(c, h, x, q);
      HeadAndTail(p);
      if q != [] && q[0] == h { HeadAndTail(q); }
    }
  }

  lemma HeadAndTail(p: seq<string>)
    requires p != []
    ensures p == [p[0]] + p[1..]
  {}

  // The map to descend into satisfies the same conditions for the rest of the path.
  lemma PutLeafBelow(c: Config, p: seq<string>)
    requires |p| > 1 && NoEmptyMaps(Tree(c)) && (p[0] in c ==> Descends(p[0], c[p[0]]))
    requires forall q :: LeafAt(c, q).Some? ==> Apart(p, q)
    ensures NoEmptyMaps(Tree(Below(c, p[0])))
    ensures forall q :: LeafAt(Below(c, p[0]), q).Some? ==> Apart(p[1..], q)
  {
    var h := p[0];
    assert h in c ==> h in Tree(c).kids;
    forall q | LeafAt(Below(c, h), q).Some? ensures Apart(p[1..], q) {
      LeafBelow(c, h, q);
      assert ([h] + q)[1..] == q;
      assert Apart(p, [h] + q);
    }
  }

  lemma LeafShapeTail(p: seq<string>, v: Value)
    requires LeafShape(p, v) && |p| > 1
    ensures LeafShape(p[1..], v) && !IsWhole(p[0])
  {
    var rest := p[1..];
    forall i | 0 <= i < |rest| ensures GoodKey(rest[i]) && (i < |rest| - 1 ==> !IsWhole(rest[i])) {
      assert rest[i] == p[i + 1];
    }
  }

  // If every leaf parts from p, the first key of p is free or holds an ordinary map to descend into.
  lemma OnlyMapsOnTheWay(c: Config, p: seq<string>, v: Value)
    requires NoEmptyMaps(Tree(c)) && LeafShape(p, v)
    requires forall q :: LeafAt(c, q).Some? ==> Apart(p, q)
    ensures p[0] in c ==> |p| > 1 && Descends(p[0], c[p[0]])
  {
    var h := p[0];
    if h in c {
      assert h in Tree(c).kids;
      if !Descends(h, c[h]) {
        LeafOfOne(c, h);
        ApartIff(p, [h]);
        assert false;
      }
      if |p| == 1 {
        assert p == [h];
        var rest := SomeLeaf(c[h]);
        LeafBelow(c, h, rest);
        ApartIff(p, [h] + rest);
        assert false;
      }
    }
  }

  // The keys of a flat form, as paths: shaped like leaves, and apart from one another.
  lemma FlatKeysApart(c: Config, flat: Config, k: string) returns (path: seq<string>)
    requires WellKeyed(Tree(c)) && FlatFormOf(c, "", flat) && k in flat
    ensures path == Segments(k) && IsLeaf(c, path, flat[k]) && LeafShape(path, flat[k])
    ensures k == Join(path, '.')
  {
    path :| GoodPath(path) && k == FlatKey("", path);
    SegmentsOfJoin(path);
    LeavesHaveShape(c, path, flat[k]);
  }

  lemma LeavesApart(c: Config, p: seq<string>, q: seq<string>)
    requires LeafAt(c, p).Some? && LeafAt(c, q).Some? && p != q
    ensures Apart(p, q)
  {
    ApartIff(p, q);
    if p <= q { LeavesPrefixFree(c, p, q); }
    if q <= p { LeavesPrefixFree(c, q, p); }
  }

  // After any part of the flat keys, the tree holds exactly the leaves they stand for.
  lemma {:induction false} RebuildHoldsLeaves(c: Config, flat: Config, order: seq<string>)
    requires WellKeyed(Tree(c)) && FlatFormOf(c, "", flat)
    requires forall k :: k in order ==> k in flat
    requires NoDuplicates(order)
    ensures NoEmptyMaps(Tree(Rebuild(flat, order)))
    ensures forall q :: LeafAt(Rebuild(flat, order), q) == (if GoodPath(q) && Join(q, '.') in order then LeafAt(c, q) else None)
  {
    if order != [] {
      var front, k := order[..|order| - 1], order[|order| - 1];
      assert order == front + [k];
      assert k !in front;
      RebuildHoldsLeaves(c, flat, front);
      var path := FlatKeysApart(c, flat, k);
      var built := Rebuild(flat, front);
      forall q | LeafAt(built, q).Some? ensures Apart(path, q) {
        LeavesApart(c, path, q);
      }
      PutLeaf(built, path, flat[k]);
      forall q ensures LeafAt(Rebuild(flat, order), q) == (if GoodPath(q) && Join(q, '.') in order then LeafAt(c, q) else None) {
        if q != path && GoodPath(q) && Join(q, '.') == k {
          SegmentsOfJoin(q);
        }
      }
    }
  }

  // ---------- What the round trip gives ----------

  // The tree without its maps that hold nothing, or nothing but such maps.
  ghost function Pruned(t: Value): Value
    requires t.Tree?
    ensures Pruned(t).Tree?
    decreases t
  {
    Tree(map k | k in t.kids && Remains(t, k) :: if Descends(k, t.kids[k]) then Pruned(t.kids[k]) else t.kids[k])
  }

  ghost predicate Remains(t: Value, k: string)
    requires t.Tree? && k in t.kids
    decreases t, 0
  {
    Descends(k, t.kids[k]) ==> Pruned(t.kids[k]).kids != map[]
  }

  lemma {:induction false} PrunedHasNoEmptyMaps(t: Value)
    requires t.Tree?
    ensures NoEmptyMaps(Pruned(t))
    decreases t
  {
    forall k | k in t.kids && Descends(k, t.kids[k]) ensures NoEmptyMaps(Pruned(t.kids[k])) {
      PrunedHasNoEmptyMaps(t.kids[k]);
    }
  }

  lemma {:induction false} PrunedKeepsLeaves(t: Value, path: seq<string>)
    requires t.Tree?
    ensures LeafAt(Pruned(t).kids, path) == LeafAt(t.kids, path)
    decreases t
  {
    if path != [] && path[0] in t.kids && Descends(path[0], t.kids[path[0]]) {
      var below := t.kids[path[0]];
      PrunedKeepsLeaves(below, path[1..]);
      if !Remains(t, path[0]) { assert LeafAt(map[], path[1..]) == None; }
    }
  }

  lemma {:induction false} PrunedIff(t: Value)
    requires t.Tree?
    ensures Pruned(t) == t <==> NoEmptyMaps(t)
    decreases t
  {
    PrunedHasNoEmptyMaps(t);
    if NoEmptyMaps(t) {
      forall path ensures LeafAt(Pruned(t).kids, path) == LeafAt(t.kids, path) {
        PrunedKeepsLeaves(t, path);
      }
      SameLeavesSameTree(Pruned(t), t);
    }
  }

  // Rebuilding gives the pruned tree, in whatever order either step goes over its maps: the
  // order of the keys never matters.
  lemma RebuildIsPruned(c: Config, flat: Config, order: seq<string>)
    requires WellKeyed(Tree(c)) && FlatFormOf(c, "", flat) && OrderOf(order, flat)
    ensures Rebuild(flat, order) == Pruned(Tree(c)).kids
  {
    var built := Rebuild(flat, order);
    RebuildHoldsLeaves(c, flat, order);
    PrunedHasNoEmptyMaps(Tree(c));
    forall q ensures LeafAt(built, q) == LeafAt(Pruned(Tree(c)).kids, q) {
      PrunedKeepsLeaves(Tree(c), q);
      if LeafAt(c, q).Some? {
        LeavesHaveShape(c, q, LeafAt(c, q).value);
        assert GoodPath(q);
        assert Lookup(flat, FlatKey("", q)) == LeafAt(c, q);
      }
    }
    SameLeavesSameTree(Tree(built), Pruned(Tree(c)));
  }

  // So flattening and rebuilding gives the configuration back exactly when it has no empty
  // map below the top,
  lemma RoundTripIff(c: Config, flat: Config, order: seq<string>)
    requires WellKeyed(Tree(c)) && FlatFormOf(c, "", flat) && OrderOf(order, flat)
    ensures Rebuild(flat, order) == c <==> NoEmptyMaps(Tree(c))
  {
    RebuildIsPruned(c, flat, order);
    PrunedIff(Tree(c));
  }

  // and an empty map is lost with its key.
  lemma EmptyMapIsLost(c: Config, flat: Config, order: seq<string>, key: string)
    requires WellKeyed(Tree(c)) && FlatFormOf(c, "", flat) && OrderOf(order, flat)
    requires key in c && c[key] == Tree(map[]) && !IsWhole(key)
    ensures key !in Rebuild(flat, order)
  {
    RebuildIsPruned(c, flat, order);
    assert Pruned(c[key]).kids == map[];
    assert !Remains(Tree(c), key);
  }
}
