// YAML nodes as the library has them: objects that an update changes in place. Each
// knows the tree of values it and the nodes below it stand for.

module YAMLNodes {
  import opened Text
  import opened ConfigTree
  import opened YAMLTree

  // ---------- What the steps do to the trees ----------

  ghost predicate Means(n: Node, v: Value) {
    WellFormed(n) && Meaning(n) == v
  }

  // At the end of the path, or further down.
  ghost function MergeBelow(t: Value, keys: seq<string>, v: Value): Option<Value> {
    if keys == [] then Some(MergeValue(t, v)) else PutMerge(t, keys, v)
  }

  ghost predicate Changed(before: Node, keys: seq<string>, v: Value, ok: bool, after: Node) {
    && WellFormed(after) && KeysKept(before, after)
    && MergeBelow(Meaning(before), keys, v) == (if ok then Some(Meaning(after)) else None)
    && (!ok ==> after == before)
  }

  // One key of a mapping has been given a value.
  ghost predicate Merged(before: seq<Entry>, key: string, v: Value, after: seq<Entry>) {
    && WellFormed(Mapping(after)) && KeptExcept(before, after, {key})
    && Kids(after) == Kids(before)[key := MergeValue(if key in Kids(before) then Kids(before)[key] else Nil, v)]
  }

  ghost predicate NoKey(entries: seq<Entry>, key: string) {
    forall j :: 0 <= j < |entries| ==> entries[j].key != key
  }

  lemma KeyAppended(before: seq<Entry>, key: string, v: Value, n: Node)
    requires WellFormed(Mapping(before)) && NoKey(before, key) && Means(n, v)
    ensures Merged(before, key, v, before + [Entry(key, n)])
  {
    Found(before, key, |before|);
    Appended(before, key, n);
  }

  lemma KeyChanged(before: seq<Entry>, i: nat, v: Value, changed: Node)
    requires WellFormed(Mapping(before)) && i < |before| && Changed(before[i].node, [], v, true, changed)
    ensures Merged(before, before[i].key, v, before[i := Entry(before[i].key, changed)])
  {
    KidsAt(before, i);
    Replaced(before, i, changed);
  }

  lemma LastKey(before: seq<Entry>, key: string, v: Value, after: seq<Entry>)
    requires Merged(before, key, v, after)
    ensures Changed(Mapping(before), [key], v, true, Mapping(after))
  {}

  // The mapping with an entry for the key, empty if it is new.
  ghost function WithKey(entries: seq<Entry>, key: string): seq<Entry> {
    if NoKey(entries, key) then entries + [Entry(key, Mapping([]))] else entries
  }

  lemma WithKeyIs(before: seq<Entry>, key: string)
    requires WellFormed(Mapping(before))
    ensures var middle := WithKey(before, key);
      && WellFormed(Mapping(middle)) && KeptExcept(before, middle, {})
      && Kids(middle) == if key in Kids(before) then Kids(before) else Kids(before)[key := Tree(map[])]
    ensures key in Kids(before) <==> !NoKey(before, key)
  {
    KeptSelf(before);
    KidsKeys(before);
    if NoKey(before, key) {
      assert Kids([]) == map[];
      Appended(before, key, Mapping([]));
    }
  }

  // Where the key was missing nothing below it can be in the way.
  lemma NewKeyFits(before: seq<Entry>, i: nat, keys: seq<string>, v: Value, ok: bool, changed: Node)
    requires WellFormed(Mapping(before)) && |keys| > 1
    requires i < |WithKey(before, keys[0])| && WithKey(before, keys[0])[i].key == keys[0]
    requires Changed(WithKey(before, keys[0])[i].node, keys[1..], v, ok, changed)
    ensures !ok ==> WithKey(before, keys[0]) == before
  {
    WithKeyIs(before, keys[0]);
    KidsAt(WithKey(before, keys[0]), i);
    if keys[0] !in Kids(before) { NewPathAlwaysFits(keys[1..], v); }
  }

  lemma StepDown(before: seq<Entry>, i: nat, keys: seq<string>, v: Value, ok: bool, changed: Node)
    requires WellFormed(Mapping(before)) && |keys| > 1
    requires i < |WithKey(before, keys[0])| && WithKey(before, keys[0])[i].key == keys[0]
    requires Changed(WithKey(before, keys[0])[i].node, keys[1..], v, ok, changed)
    ensures Changed(Mapping(before), keys, v, ok, Mapping(WithKey(before, keys[0])[i := Entry(keys[0], changed)]))
  {
    var key, middle := keys[0], WithKey(before, keys[0]);
    var after := middle[i := Entry(key, changed)];
    WithKeyIs(before, key);
    KidsAt(middle, i);
    NewKeyFits(before, i, keys, v, ok, changed);
    Replaced(middle, i, changed);
    KeptStep(before, middle, after, {}, key);
    if ok {
      assert Kids(after) == Kids(before)[key := Meaning(changed)];
    } else {
      assert after == before;
    }
  }

  // The update's keys gone over so far have been merged into the target.
  ghost predicate MergedSoFar(target: Node, updates: Config, done: set<string>, now: Node) {
    && target.Mapping? && now.Mapping? && WellFormed(now)
    && Meaning(now) == Merge(Meaning(target), Done(updates, done))
    && KeptExcept(target.entries, now.entries, done)
  }

  lemma MergeStarts(target: Node, updates: Config)
    requires target.Mapping? && WellFormed(target)
    ensures MergedSoFar(target, updates, {}, target)
  {
    MergeNothing(Meaning(target));
    assert Done(updates, {}) == Tree(map[]);
    KeptSelf(target.entries);
  }

  lemma MergeStep(target: Node, updates: Config, done: set<string>, key: string, now: Node, next: seq<Entry>)
    requires MergedSoFar(target, updates, done, now) && key in updates && key !in done
    requires Merged(now.entries, key, updates[key], next)
    ensures MergedSoFar(target, updates, done + {key}, Mapping(next))
  {
    MergeOneMore(Meaning(target), updates, done, key);
    KeptStep(target.entries, now.entries, next, done, key);
  }

  lemma MergeEnds(target: Node, updates: Value, now: Node)
    requires updates.Tree? && MergedSoFar(target, updates.kids, updates.kids.Keys, now)
    ensures Changed(target, [], updates, true, now)
  {
    assert Done(updates.kids, updates.kids.Keys) == updates;
  }

  // ---------- Nodes ----------

  datatype Kind = ScalarNode | MappingNode
  datatype Item = Item(key: string, node: YAMLNode)

  // The nodes of a mapping's content, each with all of its own, none of them shared.
  ghost predicate ValidContent(content: seq<Item>, repr: set<YAMLNode>)
    reads repr
    decreases repr, 1
  {
    && (forall i :: 0 <= i < |content| ==>
          content[i].node in repr && content[i].node.Repr <= repr && content[i].node.Valid())
    && forall i, j :: 0 <= i < j < |content| ==> content[i].node.Repr !! content[j].node.Repr
  }

  ghost predicate Mirrors(entries: seq<Entry>, content: seq<Item>)
    reads set item | item in content :: item.node
  {
    && |entries| == |content|
    && forall i :: 0 <= i < |content| ==> entries[i] == Entry(content[i].key, content[i].node.tree)
  }

  lemma ContentWithNew(content: seq<Item>, repr: set<YAMLNode>, entries: seq<Entry>, key: string, node: YAMLNode)
    requires ValidContent(content, repr) && Mirrors(entries, content) && node.Valid() && node.Repr !! repr
    ensures ValidContent(content + [Item(key, node)], repr + node.Repr)
    ensures Mirrors(entries + [Entry(key, node.tree)], content + [Item(key, node)])
  {}

  lemma ContentWithChanged(content: seq<Item>, repr: set<YAMLNode>, entries: seq<Entry>, i: nat)
    requires i < |content| == |entries| && content[i].node.Valid()
    requires forall j :: 0 <= j < |content| && j != i ==>
      && content[j].node in repr && content[j].node.Repr <= repr && content[j].node.Repr !! content[i].node.Repr
      && content[j].node.Valid() && entries[j] == Entry(content[j].key, content[j].node.tree)
    requires forall j, k :: 0 <= j < k < |content| && j != i && k != i ==> content[j].node.Repr !! content[k].node.Repr
    ensures ValidContent(content, repr + content[i].node.Repr)
    ensures Mirrors(entries[i := Entry(content[i].key, content[i].node.tree)], content)
  {}

  lemma ItemsApart(content: seq<Item>, repr: set<YAMLNode>, i: nat)
    requires ValidContent(content, repr) && i < |content|
    ensures forall j :: 0 <= j < |content| && j != i ==>
      && content[j].node in content[j].node.Repr && content[j].node.Repr !! content[i].node.Repr
      && content[j].node.Valid()
  {
    forall j | 0 <= j < |content| && j != i
      ensures content[j].node in content[j].node.Repr && content[j].node.Repr !! content[i].node.Repr
    {
      content[j].node.IsItsOwn();
      assert if j < i then content[j].node.Repr !! content[i].node.Repr else content[i].node.Repr !! content[j].node.Repr;
    }
  }

  class YAMLNode {
    var kind: Kind
    var scalar: Value
    var content: seq<Item>
    ghost var tree: Node
    ghost var Repr: set<YAMLNode>

    // A scalar may keep the content it had as a mapping; it no longer means anything.
    ghost predicate Valid()
      reads this, Repr
      decreases Repr, 0
    {
      && this in Repr
      && ValidContent(content, Repr - {this})
      && match kind
         case ScalarNode => tree == Plain(scalar)
         case MappingNode => tree.Mapping? && Mirrors(tree.entries, content)
    }

    lemma IsItsOwn()
      requires Valid()
      ensures this in Repr
    {}

    constructor ()
      ensures Valid() && fresh(Repr) && kind.MappingNode? && tree == Mapping([])
    {
      kind, scalar, content := MappingNode, Nil, [];
      tree, Repr := Mapping([]), {this};
    }

    // Overwrites the node: a scalar keeps its place in memory, a map gets new nodes below.
    method SetNodeValue(value: Value)
      requires Valid()
      modifies this
      ensures Valid() && fresh(Repr - old(Repr)) && Means(tree, value)
      decreases value, 1
    {
      if !value.Tree? {
        kind, scalar, tree := ScalarNode, value, Plain(value);
        return;
      }
      var items;
      ghost var entries, nodes;
      items, entries, nodes := NewContent(value);
      kind, content := MappingNode, items;
      tree, Repr := Mapping(entries), {this} + nodes;
      assert Repr - {this} == nodes;
    }

    // A key the mapping does not have yet, at the end.
    method AppendItem(key: string, node: YAMLNode)
      requires Valid() && kind.MappingNode? && node.Valid() && node.Repr !! Repr
      modifies this
      ensures Valid() && Repr == old(Repr) + node.Repr && kind.MappingNode?
      ensures content == old(content) + [Item(key, node)]
      ensures tree == Mapping(old(tree.entries) + [Entry(key, node.tree)])
    {
      ghost var repr := Repr - {this};
      ContentWithNew(content, repr, tree.entries, key, node);
      content := content + [Item(key, node)];
      tree, Repr := Mapping(tree.entries + [Entry(key, node.tree)]), Repr + node.Repr;
      assert Repr - {this} == repr + node.Repr;
    }

    // The item of a key, or the number of items if there is none.
    method IndexOfKey(key: string) returns (i: nat)
      requires Valid() && kind.MappingNode?
      ensures i <= |content| == |tree.entries|
      ensures i < |content| ==> content[i].key == key == tree.entries[i].key
      ensures forall j :: 0 <= j < i ==> tree.entries[j].key != key
    {
      i := 0;
      while i < |content| && content[i].key != key
        invariant i <= |content| && forall j :: 0 <= j < i ==> tree.entries[j].key != key
      {
        i := i + 1;
      }
    }

    // Goes on at the node of item i: down the path, or at its end with a merge. The other
    // items share nothing with it, so they stay as they are.
    method ChangeItem(i: nat, keys: seq<string>, value: Value) returns (ok: bool, ghost changed: Node)
      requires Valid() && kind.MappingNode? && i < |content| && WellFormed(content[i].node.tree)
      modifies Repr
      ensures Valid() && fresh(Repr - old(Repr)) && kind.MappingNode?
      ensures tree == Mapping(old(tree.entries)[i := Entry(old(content[i].key), changed)])
      ensures Changed(old(content[i].node.tree), keys, value, ok, changed)
      decreases |keys|, value, 3
    {
      ghost var repr := Repr - {this};
      var child := content[i].node;
      ItemsApart(content, repr, i);
      ok := true;
      if |keys| == 0 {
        child.MergeOrSet(value);
      } else {
        ok := child.UpdateNode(keys, value);
      }
      forall j | 0 <= j < |content| && j != i
        ensures content[j].node.Valid() && content[j].node.tree == old(content[j].node.tree)
        ensures content[j].node.Repr == old(content[j].node.Repr) && content[j].node.Repr !! child.Repr
      {}
      ContentWithChanged(content, repr, tree.entries, i);
      changed := child.tree;
      NoteEntries(tree.entries[i := Entry(content[i].key, changed)], repr + child.Repr);
    }

    // Brings tree and Repr up to date with the content.
    ghost method NoteEntries(entries: seq<Entry>, repr: set<YAMLNode>)
      requires this !in repr && kind.MappingNode? && ValidContent(content, repr) && Mirrors(entries, content)
      modifies this`tree, this`Repr
      ensures Valid() && tree == Mapping(entries) && Repr == repr + {this}
    {
      tree, Repr := Mapping(entries), repr + {this};
      assert Repr - {this} == repr;
    }

    // A map is merged into a mapping; any other value overwrites the node.
    method MergeOrSet(updateValue: Value)
      requires Valid() && WellFormed(tree)
      modifies Repr
      ensures Valid() && fresh(Repr - old(Repr)) && Changed(old(tree), [], updateValue, true, tree)
      decreases 0, updateValue, 2
    {
      if updateValue.Tree? && kind.MappingNode? {
        MergeMappingNode(updateValue);
      } else {
        SetNodeValue(updateValue);
      }
    }

    // Gives the key a value: its node is merged into or overwritten, or there is a new one.
    method MergeKey(key: string, updateValue: Value)
      requires Valid() && kind.MappingNode? && WellFormed(tree)
      modifies Repr
      ensures Valid() && fresh(Repr - old(Repr)) && kind.MappingNode?
      ensures Merged(old(tree.entries), key, updateValue, tree.entries)
      decreases 0, updateValue, 4
    {
      ghost var before := tree.entries;
      var i := IndexOfKey(key);
      if i == |content| {
        var newValueNode := NewNode(updateValue);
        KeyAppended(before, key, updateValue, newValueNode.tree);
        AppendItem(key, newValueNode);
      } else {
        var _, changed := ChangeItem(i, [], updateValue);
        KeyChanged(before, i, updateValue, changed);
      }
    }

    // Goes over the update's keys in whatever order its map yields them.
    method MergeMappingNode(updates: Value)
      requires Valid() && kind.MappingNode? && WellFormed(tree) && updates.Tree?
      modifies Repr
      ensures Valid() && fresh(Repr - old(Repr)) && Changed(old(tree), [], updates, true, tree)
      decreases 0, updates, 0
    {
      ghost var target, done: set<string> := tree, {};
      var remaining := updates.kids.Keys;
      MergeStarts(tree, updates.kids);
      while remaining != {}
        invariant remaining <= updates.kids.Keys && done == updates.kids.Keys - remaining
        invariant Valid() && fresh(Repr - old(Repr)) && kind.MappingNode?
        invariant MergedSoFar(target, updates.kids, done, tree)
      {
        var key :| key in remaining;
        ghost var now := tree;
        MergeKey(key, updates.kids[key]);
        MergeStep(target, updates.kids, done, key, now, tree.entries);
        remaining := remaining - {key};
        done := done + {key};
      }
      assert done == updates.kids.Keys;
      MergeEnds(target, updates, tree);
    }

    // Walks down the path, making mappings where there is nothing, and stops at the first
    // node that is not a mapping.
    method UpdateNode(keys: seq<string>, value: Value) returns (ok: bool)
      requires Valid() && WellFormed(tree) && |keys| > 0
      modifies Repr
      ensures Valid() && fresh(Repr - old(Repr)) && Changed(old(tree), keys, value, ok, tree)
      decreases |keys|, value, 1
    {
      ghost var before := tree;
      if kind != MappingNode {
        KeysKeptSelf(tree);
        return false;
      }
      if |keys| == 1 {
        MergeKey(keys[0], value);
        LastKey(before.entries, keys[0], value, tree.entries);
        assert keys == [keys[0]];
        return true;
      }
      WithKeyIs(before.entries, keys[0]);
      var i := ItemFor(keys[0]);
      ghost var changed;
      ok, changed := ChangeItem(i, keys[1..], value);
      StepDown(before.entries, i, keys, value, ok, changed);
    }

    // The item of a key, made with an empty mapping if there is none.
    method ItemFor(key: string) returns (i: nat)
      requires Valid() && kind.MappingNode?
      modifies this
      ensures Valid() && fresh(Repr - old(Repr)) && kind.MappingNode?
      ensures tree == Mapping(WithKey(old(tree.entries), key))
      ensures i < |content| == |tree.entries| && content[i].key == key == tree.entries[i].key
      ensures content[i].node.tree == tree.entries[i].node
    {
      i := IndexOfKey(key);
      if i == |content| {
        var newMapNode := new YAMLNode();
        AppendItem(key, newMapNode);
      }
    }
  }

  method NewNode(value: Value) returns (node: YAMLNode)
    ensures fresh(node.Repr) && node.Valid() && Means(node.tree, value)
    decreases value, 2
  {
    node := new YAMLNode();
    node.SetNodeValue(value);
  }

  lemma AppendedPart(entries: seq<Entry>, kids: Config, done: set<string>, key: string, n: Node)
    requires WellFormed(Mapping(entries)) && Kids(entries) == Part(kids, done)
    requires key in kids && key !in done && Means(n, kids[key])
    ensures WellFormed(Mapping(entries + [Entry(key, n)])) && Kids(entries + [Entry(key, n)]) == Part(kids, done + {key})
  {
    Appended(entries, key, n);
    assert Part(kids, done)[key := kids[key]] == Part(kids, done + {key});
  }

  // The nodes of a map, in whatever order it yields its keys.
  method NewContent(tree: Value) returns (content: seq<Item>, ghost entries: seq<Entry>, ghost repr: set<YAMLNode>)
    requires tree.Tree?
    ensures fresh(repr) && ValidContent(content, repr) && Mirrors(entries, content)
    ensures Means(Mapping(entries), tree)
    decreases tree, 0
  {
    content, entries, repr := [], [], {};
    var kids, remaining := tree.kids, tree.kids.Keys;
    ghost var done: set<string> := {};
    assert Kids([]) == Part(kids, {});
    while remaining != {}
      invariant remaining <= kids.Keys && done == kids.Keys - remaining
      invariant fresh(repr) && ValidContent(content, repr) && Mirrors(entries, content)
      invariant WellFormed(Mapping(entries)) && Kids(entries) == Part(kids, done)
    {
      var key :| key in remaining;
      var child := NewNode(kids[key]);
      AppendedPart(entries, kids, done, key, child.tree);
      ContentWithNew(content, repr, entries, key, child);
      content, entries, repr := content + [Item(key, child)], entries + [Entry(key, child.tree)], repr + child.Repr;
      remaining, done := remaining - {key}, done + {key};
    }
    assert Part(kids, done) == kids;
  }

  // ---------- The document ----------

  // A document node: its root, or nothing in an empty document.
  class Document {
    var root: YAMLNode?

    constructor (root: YAMLNode?)
      ensures this.root == root
    {
      this.root := root;
    }

    method UpdateYAMLNode(path: string, value: Value) returns (ok: bool)
      requires root != null ==> root.Valid() && WellFormed(root.tree)
      modifies if root == null then {} else root.Repr
      ensures root == old(root) && (root == null ==> !ok)
      ensures root != null ==> root.Valid() && WellFormed(root.tree) && KeysKept(old(root.tree), root.tree)
      ensures root != null ==> (ok <==> PutMerge(Meaning(old(root.tree)), Segments(path), value).Some?)
      ensures root != null && ok ==> Meaning(root.tree) == PutMerge(Meaning(old(root.tree)), Segments(path), value).value
      ensures root != null && !ok ==> root.tree == old(root.tree)
    {
      var keys := SplitKey(path);
      if root == null {
        return false;
      }
      if |keys| == 0 {
        KeysKeptSelf(root.tree);
        return true;
      }
      ok := root.UpdateNode(keys, value);
    }
  }
}
