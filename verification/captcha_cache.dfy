// The LRU captcha cache: a map from ids to list elements beside a list that keeps
// them in order of use. Elements are updated in place.

module CaptchaCache {
  import opened CaptchaSpec

  class Element {
    const key: string
    var value: string
    var expiration: Instant

    constructor (key: string, value: string, expiration: Instant)
      ensures this.key == key && this.value == value && this.expiration == expiration
    {
      this.key, this.value, this.expiration := key, value, expiration;
    }
  }

  // The map and the list are in bijection: the same elements, each filed under its own key.
  ghost predicate Filed(items: map<string, Element>, list: seq<Element>) {
    && (forall i, j :: 0 <= i < j < |list| ==> list[i].key != list[j].key)
    && (forall i :: 0 <= i < |list| ==> list[i].key in items && items[list[i].key] == list[i])
    && forall k :: k in items ==> items[k] in list && items[k].key == k
  }

  lemma FiledWithout(items: map<string, Element>, list: seq<Element>, i: nat)
    requires Filed(items, list) && i < |list|
    ensures Filed(items - {list[i].key}, list[..i] + list[i + 1..])
  {
    var rest, left := list[..i] + list[i + 1..], items - {list[i].key};
    assert forall j :: 0 <= j < |rest| ==> rest[j] == list[if j < i then j else j + 1];
    forall k | k in left ensures left[k] in rest {
      var j :| 0 <= j < |list| && list[j] == items[k];
      assert rest[if j < i then j else j - 1] == left[k];
    }
  }

  lemma FiledInFront(items: map<string, Element>, list: seq<Element>, e: Element)
    requires Filed(items, list) && e.key !in items
    ensures Filed(items[e.key := e], [e] + list)
  {
    var more, front := items[e.key := e], [e] + list;
    assert forall j :: 0 < j < |front| ==> front[j] == list[j - 1];
    forall k | k in more ensures more[k] in front {
      if k != e.key {
        var j :| 0 <= j < |list| && list[j] == items[k];
        assert front[j + 1] == more[k];
      }
    }
  }

  lemma FiledMoved(items: map<string, Element>, list: seq<Element>, i: nat)
    requires Filed(items, list) && i < |list|
    ensures Filed(items, [list[i]] + (list[..i] + list[i + 1..]))
  {
    FiledWithout(items, list, i);
    FiledInFront(items - {list[i].key}, list[..i] + list[i + 1..], list[i]);
    assert (items - {list[i].key})[list[i].key := list[i]] == items;
  }

  ghost function EntryOf(e: Element): Entry
    reads e
  {
    Entry(e.key, e.value, e.expiration)
  }

  ghost function EntriesOf(list: seq<Element>): seq<Entry>
    reads list
  {
    seq(|list|, i requires 0 <= i < |list| reads list => EntryOf(list[i]))
  }

  lemma EntriesInFront(e: Element, list: seq<Element>)
    ensures EntriesOf([e] + list) == [EntryOf(e)] + EntriesOf(list)
  {}

  lemma EntriesDistinct(items: map<string, Element>, list: seq<Element>)
    requires Filed(items, list)
    ensures Distinct(EntriesOf(list))
  {}

  lemma EntryTakenOut(list: seq<Element>, i: nat)
    requires Distinct(EntriesOf(list)) && i < |list|
    ensures Has(EntriesOf(list), list[i].key) && Find(EntriesOf(list), list[i].key) == i
    ensures Without(EntriesOf(list), list[i].key) == EntriesOf(list[..i] + list[i + 1..])
  {
    var s := EntriesOf(list);
    FindUnique(s, i);
    assert EntriesOf(list[..i] + list[i + 1..]) == s[..i] + s[i + 1..];
  }

  // Presence in the map is presence in the list, and the element is where the list has the id.
  lemma Located(items: map<string, Element>, list: seq<Element>, id: string) returns (i: nat)
    requires Filed(items, list)
    ensures Distinct(EntriesOf(list))
    ensures id in items <==> Has(EntriesOf(list), id)
    ensures id in items ==>
      && i < |list| && list[i] == items[id] && i == Find(EntriesOf(list), id)
      && Without(EntriesOf(list), id) == EntriesOf(list[..i] + list[i + 1..])
  {
    EntriesDistinct(items, list);
    if id in items {
      i :| 0 <= i < |list| && list[i] == items[id];
      EntryTakenOut(list, i);
    } else {
      i := 0;
      var s := EntriesOf(list);
      assert forall j :: 0 <= j < |s| ==> s[j].key == list[j].key;
    }
  }

  class LRUCaptchaCache {
    const capacity: nat
    var items: map<string, Element>
    var lruList: seq<Element>

    ghost predicate Valid()
      reads this
    {
      0 < capacity && |lruList| <= capacity && Filed(items, lruList)
    }

    ghost function Contents(): seq<Entry>
      reads this, lruList
    {
      EntriesOf(lruList)
    }

    constructor (capacity: int)
      ensures Valid() && Contents() == []
      ensures this.capacity == if capacity <= 0 then 3000 else capacity
    {
      this.capacity := if capacity <= 0 then MAX_CAPTCHA_ITEMS else capacity;
      items, lruList := map[], [];
    }

    // container/list: the position of an element that is in the list.
    method IndexOf(elem: Element) returns (i: nat)
      requires elem in lruList
      ensures i < |lruList| && lruList[i] == elem
    {
      i :| 0 <= i < |lruList| && lruList[i] == elem;
    }

    method MoveToFront(elem: Element) returns (ghost rest: seq<Element>)
      requires Valid() && elem in lruList
      modifies this`lruList
      ensures Valid() && lruList == [elem] + rest && elem !in rest
      ensures Has(old(Contents()), elem.key) && EntriesOf(rest) == Without(old(Contents()), elem.key)
      ensures Contents() == [EntryOf(elem)] + Without(old(Contents()), elem.key)
      ensures forall e :: e in lruList ==> e in old(lruList)
    {
      var i := IndexOf(elem);
      var others := lruList[..i] + lruList[i + 1..];
      EntriesDistinct(items, lruList);
      EntryTakenOut(lruList, i);
      FiledMoved(items, lruList, i);
      EntriesInFront(elem, others);
      lruList, rest := [elem] + others, others;
      assert forall j :: 0 <= j < |rest| ==> rest[j] == lruList[j + 1];
    }

    method RemoveElement(elem: Element)
      requires Valid() && elem in lruList
      modifies this`lruList, this`items
      ensures Valid() && items == old(items) - {elem.key}
      ensures Has(old(Contents()), elem.key)
      ensures Contents() == Without(old(Contents()), elem.key)
      ensures forall e :: e in lruList ==> e in old(lruList)
    {
      var i := IndexOf(elem);
      EntriesDistinct(items, lruList);
      EntryTakenOut(lruList, i);
      FiledWithout(items, lruList, i);
      lruList := lruList[..i] + lruList[i + 1..];
      items := items - {elem.key};
    }

    // Removing the element at the back drops the last entry.
    lemma BackIsLast()
      requires Valid() && lruList != []
      ensures var s := Contents();
        Has(s, lruList[|lruList| - 1].key) && Without(s, lruList[|lruList| - 1].key) == s[..|s| - 1]
    {
      ghost var i := Located(items, lruList, lruList[|lruList| - 1].key);
      FindUnique(Contents(), |lruList| - 1);
    }

    method EvictOldest()
      requires Valid()
      modifies this`lruList, this`items
      ensures Valid() && Contents() == CaptchaSpec.EvictOldest(old(Contents()))
      ensures forall e :: e in lruList ==> e in old(lruList)
      ensures forall k :: k in items ==> k in old(items)
    {
      if |lruList| > 0 {
        BackIsLast();
        RemoveElement(lruList[|lruList| - 1]);
      }
    }

    method Set(id: string, value: string, now: Instant)
      requires Valid()
      modifies this, lruList
      ensures Valid()
      ensures Contents() == CaptchaSpec.Set(old(Contents()), capacity, id, value, now)
      ensures forall e :: e in lruList ==> e in old(lruList) || fresh(e)
    {
      ghost var p := Located(items, lruList, id);
      if id in items {
        Refresh(items[id], value, now);
        return;
      }
      if |lruList| >= capacity {
        EvictOldest();
      }
      var item := new Element(id, value, now + TTL);
      FiledInFront(items, lruList, item);
      EntriesInFront(item, lruList);
      lruList := [item] + lruList;
      items := items[id := item];
    }

    // The branch of Set for an id that is present: its element moves and is overwritten.
    method Refresh(elem: Element, value: string, now: Instant)
      requires Valid() && elem in lruList
      modifies this`lruList, elem
      ensures Valid() && Has(old(Contents()), elem.key)
      ensures Contents() == [Entry(elem.key, value, now + TTL)] + Without(old(Contents()), elem.key)
      ensures forall e :: e in lruList ==> e in old(lruList)
    {
      ghost var rest := MoveToFront(elem);
      ghost var others := EntriesOf(rest);
      elem.value := value;
      elem.expiration := now + TTL;
      assert EntriesOf(rest) == others;
      EntriesInFront(elem, rest);
    }

    method Get(id: string, clear: bool, now: Instant) returns (value: string)
      requires Valid()
      modifies this`lruList, this`items
      ensures Valid()
      ensures (Contents(), value) == CaptchaSpec.Get(old(Contents()), id, clear, now)
      ensures forall e :: e in lruList ==> e in old(lruList)
    {
      ghost var p := Located(items, lruList, id);
      if id !in items {
        return "";
      }
      var elem := items[id];
      if now > elem.expiration {
        RemoveElement(elem);
        return "";
      }
      ghost var rest := MoveToFront(elem);
      value := elem.value;
      if clear {
        ghost var moved := Contents();
        ghost var q := Located(items, lruList, id);
        FindUnique(moved, 0);
        RemoveElement(elem);
        assert moved[..0] + moved[1..] == moved[1..];
      }
    }

    method Verify(id: string, answer: string, clear: bool, now: Instant) returns (ok: bool)
      requires Valid()
      modifies this`lruList, this`items
      ensures Valid()
      ensures (Contents(), Verdict(ok)) == Step(old(Contents()), capacity, Event(VerifyOp(id, answer, clear), now))
      ensures forall e :: e in lruList ==> e in old(lruList)
    {
      var value := Get(id, clear, now);
      if value == "" {
        return false;
      }
      return value == answer;
    }

    // The entry at the back, and what a cleanup does with it.
    lemma CleanupOneMore(now: Instant, budget: nat)
      requires Valid() && lruList != [] && budget > 0 && now > lruList[|lruList| - 1].expiration
      ensures var s, key := Contents(), lruList[|lruList| - 1].key;
        Has(s, key) && Cleanup(s, now, budget) == Cleanup(Without(s, key), now, budget - 1)
    {
      BackIsLast();
      assert Contents()[|lruList| - 1].expiration == lruList[|lruList| - 1].expiration;
    }

    // Walks the list from the back, deleting as it goes: the element before a
    // removed one is the new back.
    method CleanupExpired(now: Instant)
      requires Valid()
      modifies this`lruList, this`items
      ensures Valid()
      ensures Contents() == Cleanup(old(Contents()), now, MAX_CLEANUP)
      ensures forall e :: e in lruList ==> e in old(lruList)
    {
      var cleanedCount := 0;
      while |lruList| > 0 && cleanedCount < MAX_CLEANUP
        invariant Valid() && 0 <= cleanedCount <= MAX_CLEANUP
        invariant Cleanup(Contents(), now, MAX_CLEANUP - cleanedCount) == Cleanup(old(Contents()), now, MAX_CLEANUP)
        invariant forall e :: e in lruList ==> e in old(lruList)
        decreases MAX_CLEANUP - cleanedCount
      {
        var elem := lruList[|lruList| - 1];
        if now > elem.expiration {
          CleanupOneMore(now, MAX_CLEANUP - cleanedCount);
          RemoveElement(elem);
          cleanedCount := cleanedCount + 1;
        } else {
          break;
        }
      }
    }
  }
}
