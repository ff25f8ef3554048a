// The YAML document as an ordered tree, and the update that changes one path of it
// while leaving the rest, and the order of keys, alone.

module YAMLTree {
  import opened Text
  import opened ConfigTree

  // A node is a mapping with its entries in document order, or anything else, which
  // an update can only replace.
  datatype Node = Plain(value: Value) | Mapping(entries: seq<Entry>)
  datatype Entry = Entry(key: string, node: Node)

  ghost predicate UniqueKeys(entries: seq<Entry>) {
    forall i, j :: 0 <= i < j < |entries| ==> entries[i].key != entries[j].key
  }

  ghost predicate WellFormed(n: Node)
    decreases n
  {
    match n
    case Plain(v) => !v.Tree?
    case Mapping(entries) => UniqueKeys(entries) && forall i :: 0 <= i < |entries| ==> WellFormed(entries[i].node)
  }

  // ---------- What a node means, order forgotten ----------

  ghost function Meaning(n: Node): Value
    decreases n, 1
  {
    match n
    case Plain(v) => v
    case Mapping(entries) => Tree(Kids(entries))
  }

  ghost function Kids(entries: seq<Entry>): Config
    decreases entries, 0
  {
    if entries == [] then map[]
    else Kids(entries[..|entries| - 1])[entries[|entries| - 1].key := Meaning(entries[|entries| - 1].node)]
  }

  lemma {:induction false} KidsAt(entries: seq<Entry>, i: nat)
    requires UniqueKeys(entries) && i < |entries|
    ensures entries[i].key in Kids(entries) && Kids(entries)[entries[i].key] == Meaning(entries[i].node)
  {
    if i < |entries| - 1 { KidsAt(entries[..|entries| - 1], i); }
  }

  lemma {:induction false} KidsKeys(entries: seq<Entry>)
    ensures forall k :: k in Kids(entries) <==> exists i :: 0 <= i < |entries| && entries[i].key == k
  {
    if entries != [] {
      KidsKeys(entries[..|entries| - 1]);
      assert entries[|entries| - 1].key in Kids(entries);
    }
  }

  // Replacing the node of one entry changes the meaning under its key only.
  lemma {:induction false} KidsUpdate(entries: seq<Entry>, i: nat, node: Node)
    requires UniqueKeys(entries) && i < |entries|
    ensures var r := entries[i := Entry(entries[i].key, node)];
      UniqueKeys(r) && Kids(r) == Kids(entries)[entries[i].key := Meaning(node)]
  {
    var n := |entries| - 1;
    var front, r := entries[..n], entries[i := Entry(entries[i].key, node)];
    if i < n {
      KidsUpdate(front, i, node);
      assert r[..n] == front[i := Entry(entries[i].key, node)];
      assert entries[i].key != entries[n].key;
    } else {
      assert r[..n] == front;
    }
  }

  lemma KidsAppend(entries: seq<Entry>, key: string, node: Node)
    ensures Kids(entries + [Entry(key, node)]) == Kids(entries)[key := Meaning(node)]
  {
    assert (entries + [Entry(key, node)])[..|entries|] == entries;
  }

  // Whether the key was found is whether the meaning has it.
  lemma Found(entries: seq<Entry>, key: string, i: nat)
    requires UniqueKeys(entries) && i <= |entries| && (i < |entries| ==> entries[i].key == key)
    requires forall j :: 0 <= j < i ==> entries[j].key != key
    ensures i < |entries| <==> key in Kids(entries)
    ensures i < |entries| ==> Kids(entries)[key] == Meaning(entries[i].node)
  {
    KidsKeys(entries);
    if i < |entries| { KidsAt(entries, i); }
  }

  // ---------- Merging ----------

  // Keys of the update win, maps on both sides are merged, everything else stays.
  ghost function Merge(base: Value, update: Value): Value
    requires base.Tree? && update.Tree?
    decreases update, 0
  {
    Tree(map k | k in base.kids.Keys + update.kids.Keys ::
      if k !in update.kids then base.kids[k] else MergeValue(if k in base.kids then base.kids[k] else Nil, update.kids[k]))
  }

  ghost function MergeValue(base: Value, update: Value): Value
    decreases update, 1
  {
    if base.Tree? && update.Tree? then Merge(base, update) else update
  }

  ghost function GetTree(t: Value, path: seq<string>): Option<Value>
    requires path != []
  {
    if t.Tree? then Get(t.kids, path) else None
  }

  // A path the update says nothing about: it leaves the update's maps at an absent key.
  ghost predicate Untouched(update: Value, path: seq<string>) {
    && update.Tree? && path != []
    && (path[0] !in update.kids || (|path| > 1 && Untouched(update.kids[path[0]], path[1..])))
  }

  lemma {:induction false} UntouchedReadsNone(update: Value, path: seq<string>)
    requires Untouched(update, path)
    ensures GetTree(update, path) == None
    decreases |path|
  {
    if path[0] in update.kids { UntouchedReadsNone(update.kids[path[0]], path[1..]); }
  }

  // What the update does not mention keeps its value.
  lemma {:induction false} MergeKeeps(base: Value, update: Value, path: seq<string>)
    requires base.Tree? && Untouched(update, path)
    ensures GetTree(Merge(base, update), path) == GetTree(base, path)
    decreases |path|
  {
    var k := path[0];
    if k in update.kids {
      UntouchedReadsNone(update.kids[k], path[1..]);
      if k in base.kids && base.kids[k].Tree? {
        MergeKeeps(base.kids[k], update.kids[k], path[1..]);
      }
    }
  }

  // What it sets reads as it says.
  lemma {:induction false} MergeGives(base: Value, update: Value, path: seq<string>)
    requires base.Tree? && update.Tree? && path != []
    requires GetTree(update, path).Some? && !GetTree(update, path).value.Tree?
    ensures GetTree(Merge(base, update), path) == GetTree(update, path)
    decreases |path|
  {
    var k := path[0];
    if |path| > 1 && k in base.kids && base.kids[k].Tree? {
      MergeGives(base.kids[k], update.kids[k], path[1..]);
    }
  }

  lemma {:induction false} MergeTwice(base: Value, update: Value)
    requires base.Tree? && update.Tree?
    ensures Merge(Merge(base, update), update) == Merge(base, update)
    decreases update
  {
    var once := Merge(base, update);
    forall k | k in update.kids ensures MergeValue(once.kids[k], update.kids[k]) == once.kids[k] {
      assert once.kids[k] == MergeValue(if k in base.kids then base.kids[k] else Nil, update.kids[k]);
      if update.kids[k].Tree? {
        if k in base.kids && base.kids[k].Tree? {
          MergeTwice(base.kids[k], update.kids[k]);
        } else {
          MergeSelf(update.kids[k]);
        }
      }
    }
    assert Merge(once, update).kids == once.kids;
  }

  lemma {:induction false} MergeSelf(t: Value)
    requires t.Tree?
    ensures Merge(t, t) == t
    decreases t
  {
    forall k | k in t.kids ensures MergeValue(t.kids[k], t.kids[k]) == t.kids[k] {
      if t.kids[k].Tree? { MergeSelf(t.kids[k]); }
    }
    assert Merge(t, t).kids == t.kids;
  }

  // ---------- Order ----------

  // Keys stay where they are, in every mapping that is still one; new ones come after.
  ghost predicate KeysKept(before: Node, after: Node)
    decreases before
  {
    before.Mapping? && after.Mapping? ==>
      && |before.entries| <= |after.entries|
      && forall i :: 0 <= i < |before.entries| ==>
           before.entries[i].key == after.entries[i].key && KeysKept(before.entries[i].node, after.entries[i].node)
  }

  lemma {:induction false} KeysKeptSelf(n: Node)
    ensures KeysKept(n, n)
    decreases n
  {
    if n.Mapping? {
      forall i | 0 <= i < |n.entries| ensures KeysKept(n.entries[i].node, n.entries[i].node) {
        KeysKeptSelf(n.entries[i].node);
      }
    }
  }

  // A node with its keys kept and its meaning unchanged is unchanged, order and all.
  lemma {:induction false} SameMeaningSameNode(before: Node, after: Node)
    requires WellFormed(before) && WellFormed(after) && KeysKept(before, after) && Meaning(before) == Meaning(after)
    ensures before == after
    decreases before
  {
    if before.Mapping? {
      var a, b := before.entries, after.entries;
      KidsKeys(a);
      if |a| < |b| {
        KidsAt(b, |a|);
        assert false;
      }
      forall i | 0 <= i < |a| ensures a[i] == b[i] {
        KidsAt(a, i);
        KidsAt(b, i);
        SameMeaningSameNode(a[i].node, b[i].node);
      }
      assert a == b;
    }
  }

  // Entries stay in place, and are as they were under keys not among those touched.
  ghost predicate KeptExcept(before: seq<Entry>, after: seq<Entry>, touched: set<string>) {
    && |before| <= |after|
    && forall i :: 0 <= i < |before| ==>
         && before[i].key == after[i].key && KeysKept(before[i].node, after[i].node)
         && (before[i].key !in touched ==> after[i] == before[i])
  }

  lemma KeptSelf(entries: seq<Entry>)
    ensures KeptExcept(entries, entries, {})
  {
    forall j | 0 <= j < |entries| ensures KeysKept(entries[j].node, entries[j].node) {
      KeysKeptSelf(entries[j].node);
    }
  }

  lemma KeptStep(a: seq<Entry>, b: seq<Entry>, c: seq<Entry>, touched: set<string>, key: string)
    requires KeptExcept(a, b, touched) && KeptExcept(b, c, {key}) && key !in touched
    ensures KeptExcept(a, c, touched + {key})
  {
    forall i | 0 <= i < |a| ensures KeysKept(a[i].node, c[i].node) {
      assert b[i].key == key || c[i] == b[i];
    }
  }

  // Putting another node under the key of an entry.
  lemma Replaced(entries: seq<Entry>, i: nat, child: Node)
    requires WellFormed(Mapping(entries)) && WellFormed(child)
    requires i < |entries| && KeysKept(entries[i].node, child)
    ensures var r := entries[i := Entry(entries[i].key, child)];
      && WellFormed(Mapping(r)) && KeptExcept(entries, r, {entries[i].key})
      && Kids(r) == Kids(entries)[entries[i].key := Meaning(child)]
  {
    KidsUpdate(entries, i, child);
    KeptSelf(entries);
  }

  lemma NotThere(entries: seq<Entry>, key: string)
    requires key !in Kids(entries)
    ensures forall j :: 0 <= j < |entries| ==> entries[j].key != key
  {
    KidsKeys(entries);
  }

  // A new entry after the others.
  lemma Appended(entries: seq<Entry>, key: string, child: Node)
    requires WellFormed(Mapping(entries)) && WellFormed(child) && key !in Kids(entries)
    ensures var r := entries + [Entry(key, child)];
      && WellFormed(Mapping(r)) && KeptExcept(entries, r, {key})
      && Kids(r) == Kids(entries)[key := Meaning(child)]
  {
    KidsAppend(entries, key, child);
    NotThere(entries, key);
    KeptSelf(entries);
  }

  // ---------- The update ----------

  // The part of an update under the keys gone over so far.
  ghost function Done(updates: Config, keys: set<string>): Value {
    Tree(map k | k in updates && k in keys :: updates[k])
  }

  lemma MergeNothing(base: Value)
    requires base.Tree?
    ensures Merge(base, Tree(map[])) == base
  {
    assert Merge(base, Tree(map[])).kids == base.kids;
  }

  lemma MergeOneMore(base: Value, updates: Config, keys: set<string>, k: string)
    requires base.Tree? && k in updates && k !in keys
    ensures var before := Merge(base, Done(updates, keys)).kids;
      && (k in before <==> k in base.kids) && (k in before ==> before[k] == base.kids[k])
      && Merge(base, Done(updates, keys + {k})).kids ==
           before[k := MergeValue(if k in base.kids then base.kids[k] else Nil, updates[k])]
  {}

  // What the update does to the meaning: sets or merges at the end of the path, makes
  // maps on the way, and refuses to go through anything that is not a map.
  ghost function PutMerge(t: Value, path: seq<string>, v: Value): Option<Value>
    decreases |path|
  {
    if path == [] then Some(t)
    else if !t.Tree? then None
    else
      var k, kids := path[0], t.kids;
      if |path| == 1 then Some(Tree(kids[k := MergeValue(if k in kids then kids[k] else Nil, v)]))
      else
        match PutMerge(if k in kids then kids[k] else Tree(map[]), path[1..], v)
        case None => None
        case Some(child) => Some(Tree(kids[k := child]))
  }

  // Below a map that was just made, nothing can be in the way.
  lemma {:induction false} NewPathAlwaysFits(path: seq<string>, v: Value)
    ensures PutMerge(Tree(map[]), path, v).Some?
    decreases |path|
  {
    if |path| > 1 { NewPathAlwaysFits(path[1..], v); }
  }

  // ---------- Laws of the update ----------

  // The path reads as the value, or as the merge when both sides are maps.
  lemma {:induction false} UpdatedPathReads(t: Value, path: seq<string>, v: Value)
    requires path != [] && PutMerge(t, path, v).Some?
    ensures GetTree(PutMerge(t, path, v).value, path)
         == Some(MergeValue(if GetTree(t, path).Some? then GetTree(t, path).value else Nil, v))
    decreases |path|
  {
    if |path| > 1 {
      var next := if path[0] in t.kids then t.kids[path[0]] else Tree(map[]);
      UpdatedPathReads(next, path[1..], v);
    }
  }

  // Every path that parts from the updated one reads as before.
  lemma {:induction false} OtherPathsRead(t: Value, path: seq<string>, v: Value, other: seq<string>)
    requires Apart(path, other) && PutMerge(t, path, v).Some?
    ensures GetTree(PutMerge(t, path, v).value, other) == GetTree(t, other)
    decreases |path|
  {
    if path[0] == other[0] {
      var next := if path[0] in t.kids then t.kids[path[0]] else Tree(map[]);
      OtherPathsRead(next, path[1..], v, other[1..]);
    }
  }

  // An update is refused exactly when some proper prefix of the path, or the root, is not a map.
  lemma {:induction false} RefusedIff(t: Value, path: seq<string>, v: Value)
    requires path != []
    ensures PutMerge(t, path, v) == None <==>
      !t.Tree? || exists n :: 1 <= n < |path| && GetTree(t, path[..n]).Some? && !GetTree(t, path[..n]).value.Tree?
    decreases |path|
  {
    if t.Tree? && |path| > 1 {
      var k, rest := path[0], path[1..];
      assert path[..1] == [k] && [k][1..] == [];
      if k in t.kids {
        RefusedIff(t.kids[k], rest, v);
        forall n | 1 <= n < |rest| ensures GetTree(t, path[..n + 1]) == GetTree(t.kids[k], rest[..n]) {
          assert path[..n + 1][1..] == rest[..n];
        }
        if PutMerge(t, path, v) == None && t.kids[k].Tree? {
          var n :| 1 <= n < |rest| && GetTree(t.kids[k], rest[..n]).Some? && !GetTree(t.kids[k], rest[..n]).value.Tree?;
          assert GetTree(t, path[..n + 1]) == GetTree(t.kids[k], rest[..n]);
        }
        if PutMerge(t, path, v).Some? {
          forall n | 1 <= n < |path| ensures !(GetTree(t, path[..n]).Some? && !GetTree(t, path[..n]).value.Tree?) {
            if n > 1 { assert GetTree(t, path[..n - 1 + 1]) == GetTree(t.kids[k], rest[..n - 1]); }
          }
        }
      } else {
        NewPathAlwaysFits(rest, v);
      }
    }
  }

  // ---------- Off the path nothing moves ----------

  // The node at a path, order and all.
  ghost function NodeAt(n: Node, path: seq<string>): Option<Node>
    requires path != []
    decreases |path|
  {
    if n.Mapping? && exists i :: 0 <= i < |n.entries| && n.entries[i].key == path[0] then
      var i :| 0 <= i < |n.entries| && n.entries[i].key == path[0];
      if |path| == 1 then Some(n.entries[i].node) else NodeAt(n.entries[i].node, path[1..])
    else None
  }

  lemma {:induction false} NodeAtMeans(n: Node, path: seq<string>)
    requires path != [] && WellFormed(n)
    ensures match NodeAt(n, path)
      case None => GetTree(Meaning(n), path) == None
      case Some(m) => WellFormed(m) && GetTree(Meaning(n), path) == Some(Meaning(m))
    decreases |path|
  {
    if n.Mapping? {
      KidsKeys(n.entries);
      if i :| 0 <= i < |n.entries| && n.entries[i].key == path[0] {
        KidsAt(n.entries, i);
        if |path| > 1 { NodeAtMeans(n.entries[i].node, path[1..]); }
      }
    }
  }

  lemma {:induction false} KeysKeptAt(before: Node, after: Node, path: seq<string>)
    requires path != [] && WellFormed(before) && WellFormed(after) && KeysKept(before, after)
    requires NodeAt(before, path).Some? && NodeAt(after, path).Some?
    ensures KeysKept(NodeAt(before, path).value, NodeAt(after, path).value)
    decreases |path|
  {
    var i :| 0 <= i < |before.entries| && before.entries[i].key == path[0];
    assert after.entries[i].key == path[0];
    if |path| > 1 {
      KeysKeptAt(before.entries[i].node, after.entries[i].node, path[1..]);
    }
  }

  // What an update leaves at every path that parts from its own: the very same node, with
  // its keys in the same order; and where there was none there is none.
  lemma OtherNodesStay(before: Node, after: Node, path: seq<string>, v: Value, other: seq<string>)
    requires WellFormed(before) && WellFormed(after) && KeysKept(before, after)
    requires PutMerge(Meaning(before), path, v) == Some(Meaning(after)) && Apart(path, other)
    ensures NodeAt(after, other) == NodeAt(before, other)
  {
    OtherPathsRead(Meaning(before), path, v, other);
    NodeAtMeans(before, other);
    NodeAtMeans(after, other);
    if NodeAt(before, other).Some? {
      KeysKeptAt(before, after, other);
      SameMeaningSameNode(NodeAt(before, other).value, NodeAt(after, other).value);
    }
  }
}
