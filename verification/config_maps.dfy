// Nested configuration maps changed in place: setting a value at a path, and rebuilding
// a tree from its flat form.

module ConfigMaps {
  import opened Collections
  import opened Text
  import opened ConfigTree

  // What a map holds under a key: a value, or a map of its own.
  datatype Slot = Leaf(value: Value) | Sub(below: ConfigMap)

  // The maps below, each with all of its own, none of them shared.
  ghost predicate ValidEntries(entries: map<string, Slot>, repr: set<ConfigMap>)
    reads repr
    decreases repr, 1
  {
    && (forall k :: k in entries && entries[k].Sub? ==>
          entries[k].below in repr && entries[k].below.Repr <= repr && entries[k].below.Valid())
    && forall j, k :: j in entries && k in entries && j != k && entries[j].Sub? && entries[k].Sub? ==>
         entries[j].below.Repr !! entries[k].below.Repr
  }

  ghost function ValueOf(slot: Slot): Value
    reads if slot.Sub? then {slot.below} else {}
  {
    match slot
    case Leaf(value) => value
    case Sub(below) => Tree(below.tree)
  }

  ghost predicate Mirrors(tree: Config, entries: map<string, Slot>)
    reads set k | k in entries && entries[k].Sub? :: entries[k].below
  {
    tree.Keys == entries.Keys && forall k :: k in entries ==> tree[k] == ValueOf(entries[k])
  }

  lemma OthersApart(entries: map<string, Slot>, repr: set<ConfigMap>, key: string)
    requires ValidEntries(entries, repr) && key in entries && entries[key].Sub?
    ensures forall k :: k in entries && k != key && entries[k].Sub? ==>
      && entries[k].below in entries[k].below.Repr && entries[k].below.Repr !! entries[key].below.Repr
      && entries[k].below.Valid()
  {
    forall k | k in entries && k != key && entries[k].Sub? ensures entries[k].below in entries[k].below.Repr {
      entries[k].below.IsItsOwn();
    }
  }

  lemma EntriesWithLeaf(entries: map<string, Slot>, repr: set<ConfigMap>, tree: Config, key: string, value: Value)
    requires ValidEntries(entries, repr) && Mirrors(tree, entries)
    ensures ValidEntries(entries[key := Leaf(value)], repr) && Mirrors(tree[key := value], entries[key := Leaf(value)])
  {}

  lemma EntriesWithNew(entries: map<string, Slot>, repr: set<ConfigMap>, tree: Config, key: string, below: ConfigMap)
    requires ValidEntries(entries, repr) && Mirrors(tree, entries)
    requires below.Valid() && below in below.Repr && below.Repr !! repr
    ensures ValidEntries(entries[key := Sub(below)], repr + below.Repr)
    ensures Mirrors(tree[key := Tree(below.tree)], entries[key := Sub(below)])
  {}

  // A map under a key that has changed; the others share nothing with it.
  lemma EntriesWithSub(entries: map<string, Slot>, repr: set<ConfigMap>, tree: Config, key: string, below: ConfigMap)
    requires tree.Keys == entries.Keys && below.Valid()
    requires forall k :: k in entries && k != key ==> tree[k] == ValueOf(entries[k])
    requires forall k :: k in entries && k != key && entries[k].Sub? ==>
      && entries[k].below in repr && entries[k].below.Repr <= repr && entries[k].below.Valid()
      && entries[k].below.Repr !! below.Repr
    requires forall j, k :: j in entries && k in entries && j != k && j != key && k != key && entries[j].Sub? && entries[k].Sub? ==>
      entries[j].below.Repr !! entries[k].below.Repr
    requires below in below.Repr
    ensures ValidEntries(entries[key := Sub(below)], repr + below.Repr)
    ensures Mirrors(tree[key := Tree(below.tree)], entries[key := Sub(below)])
  {}

  lemma SameEntries(entries: map<string, Slot>, key: string)
    requires key in entries
    ensures entries[key := entries[key]] == entries
  {}

  lemma PutIs(before: Config, middle: Config, keys: seq<string>, value: Value)
    requires |keys| > 1 && middle == before[keys[0] := Tree(Below(before, keys[0]))]
    ensures middle[keys[0] := Tree(Put(Below(before, keys[0]), keys[1..], value))] == Put(before, keys, value)
  {}

  class ConfigMap {
    var entries: map<string, Slot>
    ghost var tree: Config
    ghost var Repr: set<ConfigMap>

    ghost predicate Valid()
      reads this, Repr
      decreases Repr, 0
    {
      this in Repr && ValidEntries(entries, Repr - {this}) && Mirrors(tree, entries)
    }

    // A map of values, or none.
    constructor (values: Config)
      ensures Valid() && fresh(Repr) && tree == values
    {
      entries, tree, Repr := map k | k in values :: Leaf(values[k]), values, {this};
    }

    lemma IsItsOwn()
      requires Valid()
      ensures this in Repr
    {}

    // The map to go on in: what is there, or a new one in the place of anything else.
    method MapBelow(key: string) returns (below: ConfigMap)
      requires Valid()
      modifies this
      ensures Valid() && fresh(Repr - old(Repr)) && key in entries && entries[key] == Sub(below)
      ensures tree == old(tree)[key := Tree(Below(old(tree), key))] && below.tree == Below(old(tree), key)
    {
      if key in entries && entries[key].Sub? {
        below := entries[key].below;
        assert tree[key] == Tree(below.tree) && tree[key := tree[key]] == tree;
      } else {
        below := NewMapBelow(key);
      }
    }

    method NewMapBelow(key: string) returns (below: ConfigMap)
      requires Valid() && (key in entries ==> entries[key].Leaf?)
      modifies this
      ensures Valid() && fresh(Repr - old(Repr)) && key in entries && entries[key] == Sub(below)
      ensures tree == old(tree)[key := Tree(Below(old(tree), key))] && below.tree == Below(old(tree), key)
    {
      below := new ConfigMap(if key in entries && entries[key].value.Tree? then entries[key].value.kids else map[]);
      ghost var repr := Repr - {this};
      EntriesWithNew(entries, repr, tree, key, below);
      entries := entries[key := Sub(below)];
      NoteChange(tree[key := Tree(below.tree)], repr + below.Repr);
    }

    method SetLeaf(key: string, value: Value)
      requires Valid()
      modifies this
      ensures Valid() && Repr == old(Repr) && tree == old(tree)[key := value]
    {
      EntriesWithLeaf(entries, Repr - {this}, tree, key, value);
      entries := entries[key := Leaf(value)];
      tree := tree[key := value];
    }

    // setNestedValue, the walk written as a recursion.
    method SetNestedValue(keys: seq<string>, value: Value)
      requires Valid() && |keys| > 0
      modifies Repr
      ensures Valid() && fresh(Repr - old(Repr)) && tree == Put(old(tree), keys, value)
      decreases |keys|, 0
    {
      if |keys| == 1 {
        SetLeaf(keys[0], value);
        return;
      }
      ghost var before := tree;
      var below := MapBelow(keys[0]);
      ghost var middle := tree;
      PutBelow(keys[0], below, keys[1..], value);
      PutIs(before, middle, keys, value);
    }

    // A key without segments is passed over.
    method SetKey(key: string, value: Value)
      requires Valid()
      modifies Repr
      ensures Valid() && fresh(Repr - old(Repr))
      ensures tree == if Segments(key) == [] then old(tree) else Put(old(tree), Segments(key), value)
    {
      var keys := SplitKey(key);
      if |keys| == 0 {
        return;
      }
      SetNestedValue(keys, value);
    }

    method PutBelow(key: string, below: ConfigMap, keys: seq<string>, value: Value)
      requires Valid() && key in entries && entries[key] == Sub(below) && |keys| > 0
      modifies Repr
      ensures Valid() && fresh(Repr - old(Repr))
      ensures tree == old(tree)[key := Tree(Put(old(below.tree), keys, value))]
      decreases |keys|, 1
    {
      ghost var repr := Repr - {this};
      OthersApart(entries, repr, key);
      below.SetNestedValue(keys, value);
      below.IsItsOwn();
      forall k | k in entries && k != key && entries[k].Sub?
        ensures entries[k].below.Valid() && entries[k].below.tree == old(entries[k].below.tree)
        ensures entries[k].below.Repr == old(entries[k].below.Repr) && entries[k].below.Repr !! below.Repr
      {}
      EntriesWithSub(entries, repr, tree, key, below);
      SameEntries(entries, key);
      NoteChange(tree[key := Tree(below.tree)], repr + below.Repr);
    }

    // Brings tree and Repr up to date with the entries.
    ghost method NoteChange(tree: Config, repr: set<ConfigMap>)
      requires this !in repr && ValidEntries(entries, repr) && Mirrors(tree, entries)
      modifies this`tree, this`Repr
      ensures Valid() && this.tree == tree && Repr == repr + {this}
    {
      this.tree, Repr := tree, repr + {this};
      assert Repr - {this} == repr;
    }
  }

  // Goes over the flat map in whatever order it yields its keys.
  method UnflattenConfig(flat: Config) returns (result: ConfigMap, ghost order: seq<string>)
    ensures fresh(result.Repr) && result.Valid()
    ensures OrderOf(order, flat) && result.tree == Rebuild(flat, order)
  {
    result := new ConfigMap(map[]);
    order := [];
    var remaining := flat.Keys;
    ghost var done: set<string> := {};
    while remaining != {}
      invariant remaining <= flat.Keys && done == flat.Keys - remaining
      invariant fresh(result.Repr) && result.Valid()
      invariant Visited(order, done) && result.tree == Rebuild(flat, order)
    {
      var key :| key in remaining;
      remaining := remaining - {key};
      VisitOne(order, done, key);
      RebuildSnoc(flat, order, key);
      order, done := order + [key], done + {key};
      result.SetKey(key, flat[key]);
    }
  }

  method FlattenThenUnflatten(t: Value) returns (back: ConfigMap)
    requires t.Tree?
    ensures fresh(back.Repr) && back.Valid()
    ensures WellKeyed(t) ==> (Tree(back.tree) == t <==> NoEmptyMaps(t))
  {
    var flat := FlattenConfig(t, "");
    ghost var order;
    back, order := UnflattenConfig(flat);
    if WellKeyed(t) {
      assert Tree(t.kids) == t;
      RoundTripIff(t.kids, flat, order);
    }
  }
}
