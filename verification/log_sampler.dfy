// The sampling core: a map from messages to samplers that each call updates in place.

module LogSampler {
  import opened Collections
  import opened LogSamplerSpec

  class MessageSampler {
    var interval: Instant
    var lastLog: Instant
    var skipCount: nat
    var maxSkipLogs: nat

    constructor (interval: Instant, lastLog: Instant, maxSkipLogs: nat)
      ensures Value() == Sampler(interval, lastLog, 0, maxSkipLogs)
    {
      this.interval, this.lastLog, skipCount, this.maxSkipLogs := interval, lastLog, 0, maxSkipLogs;
    }

    ghost function Value(): Sampler
      reads this
    {
      Sampler(interval, lastLog, skipCount, maxSkipLogs)
    }

    // The call's part that looks at one sampler.
    method Count(now: Instant) returns (written: bool)
      modifies this
      ensures (Value(), written) == LogSamplerSpec.Count(old(Value()), now)
    {
      if now - lastLog >= interval {
        lastLog := now;
        if skipCount > 0 {
          skipCount := 0;
        }
        return true;
      }
      skipCount := skipCount + 1;
      if skipCount >= maxSkipLogs {
        lastLog, skipCount := now, 0;
        return true;
      }
      return false;
    }
  }

  // ---------- The oldest samplers ----------

  datatype Aged = Aged(message: string, lastLog: Instant)

  ghost predicate Sorted(s: seq<Aged>) {
    forall i, j :: 0 <= i < j < |s| ==> s[i].lastLog <= s[j].lastLog
  }

  function Insert(s: seq<Aged>, x: Aged): seq<Aged> {
    if s == [] || x.lastLog <= s[0].lastLog then [x] + s else [s[0]] + Insert(s[1..], x)
  }

  lemma {:induction false} InsertIs(s: seq<Aged>, x: Aged)
    ensures Elements(Insert(s, x)) == Elements(s) + {x} && |Insert(s, x)| == |s| + 1
    ensures Sorted(s) ==> Sorted(Insert(s, x))
  {
    if s != [] && x.lastLog > s[0].lastLog {
      InsertIs(s[1..], x);
      assert s == [s[0]] + s[1..];
      ElementsCons(s[0], s[1..]);
      ElementsCons(s[0], Insert(s[1..], x));
      if Sorted(s) {
        forall y | y in Insert(s[1..], x) ensures s[0].lastLog <= y.lastLog {
          assert y in Elements(s[1..]) + {x};
        }
      }
    }
  }

  method SortByAge(entries: seq<Aged>) returns (sorted: seq<Aged>)
    ensures Sorted(sorted) && |sorted| == |entries| && Elements(sorted) == Elements(entries)
  {
    sorted := [];
    for i := 0 to |entries|
      invariant Sorted(sorted) && |sorted| == i && Elements(sorted) == Elements(entries[..i])
    {
      InsertIs(sorted, entries[i]);
      ElementsSnoc(entries[..i], entries[i]);
      assert entries[..i + 1] == entries[..i] + [entries[i]];
      sorted := Insert(sorted, entries[i]);
    }
    assert entries[..|entries|] == entries;
  }

  // The list has one entry for every sampler.
  ghost predicate Lists(entries: seq<Aged>, s: Samplers) {
    && |entries| == |s|
    && (forall i :: 0 <= i < |entries| ==> entries[i].message in s && entries[i].lastLog == s[entries[i].message].lastLog)
    && forall k :: k in s ==> Aged(k, s[k].lastLog) in entries
  }

  function Messages(entries: seq<Aged>): (r: seq<string>)
    ensures |r| == |entries|
  {
    seq(|entries|, i requires 0 <= i < |entries| => entries[i].message)
  }

  lemma ListedOnce(entries: seq<Aged>, s: Samplers)
    requires Lists(entries, s)
    ensures Elements(Messages(entries)) == s.Keys && NoDuplicates(Messages(entries))
  {
    var names := Messages(entries);
    forall k | k in s ensures k in names {
      var i :| 0 <= i < |entries| && entries[i] == Aged(k, s[k].lastLog);
      assert names[i] == k;
    }
    assert Elements(names) == s.Keys;
    KeysCount(s);
    CountedNoDuplicates(names);
  }

  lemma ListsSorted(entries: seq<Aged>, sorted: seq<Aged>, s: Samplers)
    requires Lists(entries, s) && |sorted| == |entries| && Elements(sorted) == Elements(entries)
    ensures Lists(sorted, s)
  {
    forall x: Aged ensures x in sorted <==> x in entries {
      assert x in Elements(sorted) <==> x in Elements(entries);
    }
    forall i | 0 <= i < |sorted|
      ensures sorted[i].message in s && sorted[i].lastLog == s[sorted[i].message].lastLog
    {
      assert sorted[i] in sorted;
      var j :| 0 <= j < |entries| && entries[j] == sorted[i];
    }
  }

  lemma SplitOnce<T>(names: seq<T>, n: nat)
    requires NoDuplicates(names) && n <= |names|
    ensures NoDuplicates(names[n..]) && forall k :: k in names[n..] <==> k in names && k !in names[..n]
  {
    assert names == names[..n] + names[n..];
    forall k | k in names[n..] ensures k !in names[..n] {
      var j :| 0 <= j < |names[n..]| && names[n..][j] == k;
      assert names[n + j] == k;
    }
  }

  ghost predicate IsWithout(t: Samplers, s: Samplers, gone: seq<string>) {
    && (forall k :: k in t <==> k in s && k !in gone)
    && forall k :: k in t ==> t[k] == s[k]
  }

  lemma CountWithoutFirst(s: Samplers, names: seq<string>, n: nat, t: Samplers)
    requires NoDuplicates(names) && Elements(names) == s.Keys && n <= |names| && IsWithout(t, s, names[..n])
    ensures |s.Keys| - |t.Keys| == n
  {
    SplitOnce(names, n);
    forall k ensures k in t <==> k in names[n..] {
      assert k in s <==> k in Elements(names);
    }
    assert t.Keys == Elements(names[n..]);
    ElementsCount(names[n..]);
    ElementsCount(names);
  }

  lemma FirstIsOlder(s: Samplers, sorted: seq<Aged>, n: nat, d: string, k: string)
    requires Lists(sorted, s) && Sorted(sorted) && n <= |sorted|
    requires d in Messages(sorted)[..n] && k in Messages(sorted)[n..]
    ensures d in s && k in s && s[d].lastLog <= s[k].lastLog
  {
    var names := Messages(sorted);
    var i :| 0 <= i < |names[..n]| && names[..n][i] == d;
    var j :| 0 <= j < |names[n..]| && names[n..][j] == k;
    assert sorted[i].message == d && sorted[n + j].message == k;
  }

  // Without the first of the list, as many as are to go, the oldest have gone.
  lemma OldestGo(s: Samplers, sorted: seq<Aged>, n: nat, t: Samplers)
    requires Lists(sorted, s) && Sorted(sorted) && n <= |sorted| && IsWithout(t, s, Messages(sorted)[..n])
    ensures Oldest(s, t)
  {
    ListedOnce(sorted, s);
    SplitOnce(Messages(sorted), n);
    forall d, k | d in s && d !in t && k in t ensures s[d].lastLog <= s[k].lastLog {
      assert k in Elements(Messages(sorted));
      FirstIsOlder(s, sorted, n, d, k);
    }
  }

  lemma DroppedOldest(s: Samplers, entries: seq<Aged>, sorted: seq<Aged>, n: nat, t: Samplers)
    requires Lists(entries, s) && |sorted| == |entries| && Elements(sorted) == Elements(entries)
    requires Sorted(sorted) && n <= |sorted| && IsWithout(t, s, Messages(sorted)[..n])
    ensures |s.Keys| - |t.Keys| == n && Oldest(s, t)
  {
    ListsSorted(entries, sorted, s);
    ListedOnce(sorted, s);
    CountWithoutFirst(s, Messages(sorted), n, t);
    OldestGo(s, sorted, n, t);
  }

  // ---------- The core ----------

  class SamplingCore {
    var samplers: map<string, MessageSampler>

    ghost predicate Valid()
      reads this
    {
      forall j, k :: j in samplers && k in samplers && j != k ==> samplers[j] != samplers[k]
    }

    ghost function Contents(): Samplers
      reads this, samplers.Values
    {
      map k | k in samplers :: samplers[k].Value()
    }

    constructor ()
      ensures Valid() && Contents() == map[]
    {
      samplers := map[];
    }

    method ShouldSample(message: string, level: Level, now: Instant) returns (written: bool)
      requires Valid()
      modifies this, samplers.Values
      ensures Valid() && (Contents(), written) == Sample(old(Contents()), message, level, now)
      ensures forall k :: k in samplers ==> samplers[k] in old(samplers.Values) || fresh(samplers[k])
    {
      if message !in samplers {
        var created := new MessageSampler(SamplingInterval(level, message), now, MaxSkipLogs(level));
        samplers := samplers[message := created];
        assert Contents() == old(Contents())[message := created.Value()];
        return true;
      }
      var samp := samplers[message];
      written := samp.Count(now);
      assert Contents() == old(Contents())[message := samp.Value()];
    }

    // Deletes stale samplers while going over the map, in whatever order it yields them.
    method DropStale(now: Instant)
      requires Valid()
      modifies this
      ensures Valid() && Contents() == Fresh(old(Contents()), now)
      ensures forall k :: k in samplers ==> k in old(samplers) && samplers[k] == old(samplers)[k]
    {
      var before := samplers;
      var remaining := before.Keys;
      while remaining != {}
        invariant remaining <= before.Keys
        invariant forall k :: k in samplers ==> k in before && samplers[k] == before[k]
        invariant forall k :: k in before ==> (k in samplers <==> k in remaining || !Stale(before[k].Value(), now))
      {
        var message :| message in remaining;
        if now - before[message].lastLog > CLEAN_THRESHOLD {
          samplers := samplers - {message};
        }
        remaining := remaining - {message};
      }
    }

    method Entries() returns (entries: seq<Aged>)
      requires Valid()
      ensures Lists(entries, Contents()) && |entries| == |samplers.Keys|
    {
      entries := [];
      var remaining := samplers.Keys;
      while remaining != {}
        invariant remaining <= samplers.Keys && |entries| + |remaining| == |samplers.Keys|
        invariant forall i :: 0 <= i < |entries| ==>
          entries[i].message in samplers && entries[i].lastLog == samplers[entries[i].message].lastLog
        invariant forall k :: k in samplers && k !in remaining ==> Aged(k, samplers[k].lastLog) in entries
      {
        var msg :| msg in remaining;
        entries := entries + [Aged(msg, samplers[msg].lastLog)];
        remaining := remaining - {msg};
      }
      assert Contents().Keys == samplers.Keys;
      KeysCount(Contents());
    }

    method DropFirst(sorted: seq<Aged>, deleteCount: nat)
      requires Valid() && deleteCount <= |sorted|
      modifies this
      ensures Valid() && IsWithout(Contents(), old(Contents()), Messages(sorted)[..deleteCount])
      ensures forall k :: k in samplers ==> k in old(samplers) && samplers[k] == old(samplers)[k]
    {
      for i := 0 to deleteCount
        invariant forall k :: k in samplers <==> k in old(samplers) && k !in Messages(sorted)[..i]
        invariant forall k :: k in samplers ==> samplers[k] == old(samplers)[k]
      {
        assert Messages(sorted)[..i + 1] == Messages(sorted)[..i] + [sorted[i].message];
        samplers := samplers - {sorted[i].message};
      }
    }

    // The second half of a cleanup, when too many are in use.
    method DropOldest()
      requires Valid() && |samplers.Keys| > MAX_SAMPLERS
      modifies this
      ensures Valid()
      ensures forall k :: k in samplers ==> k in old(samplers) && samplers[k] == old(samplers)[k]
      ensures |old(Contents()).Keys| - |Contents().Keys| == DeleteCount(|old(samplers).Keys|)
      ensures Oldest(old(Contents()), Contents())
    {
      ghost var inUse := Contents();
      var entries := Entries();
      var sorted := SortByAge(entries);
      var deleteCount := |entries| - MAX_SAMPLERS;
      if deleteCount < |entries| / 2 {
        deleteCount := |entries| / 2;
      }
      DropFirst(sorted, deleteCount);
      DroppedOldest(inUse, entries, sorted, deleteCount, Contents());
    }

    method CleanupOldSamplers(now: Instant)
      requires Valid()
      modifies this
      ensures Valid() && CleanedTo(old(Contents()), Contents(), now)
      ensures forall k :: k in samplers ==> k in old(samplers) && samplers[k] == old(samplers)[k]
    {
      DropStale(now);
      ghost var inUse := Contents();
      assert inUse.Keys == samplers.Keys;
      KeysCount(inUse);
      if |samplers.Keys| > MAX_SAMPLERS {
        DropOldest();
      }
    }
  }
}
