// The allocator: the first free address in scan order from a starting suffix.

module IPv6Allocator {
  import opened Bits
  import opened Collections
  import opened IPv6Networks

  // An entry of the occupancy snapshot after parsing: not an address, or one.
  datatype Snapshot = Unparsable | Parsed(address: Address)

  // ::ffff:0:0/96, which the snapshot reader does not take for IPv6.
  predicate MappedIPv4(a: Address) {
    (forall i :: 0 <= i < 10 ==> a[i] == 0) && a[10] == 255 && a[11] == 255
  }

  lemma {:induction false} ZeroBytes(b: seq<Byte>)
    ensures Value(b) == 0 <==> forall i :: 0 <= i < |b| ==> b[i] == 0
  {
    if b != [] {
      ZeroBytes(b[..|b| - 1]);
      assert forall i :: 0 <= i < |b| - 1 ==> b[i] == b[..|b| - 1][i];
    }
  }

  // The top twelve bytes.
  lemma TopOfValue(a: Address)
    ensures Value(a) / 0x1_0000_0000 == Value(a[..12])
  {
    Pow2Byte();
    Pow2Twice(8, 0x100);
    Pow2Twice(16, 0x1_0000);
    assert a[..12] + a[12..] == a;
    ValueConcat(a[..12], a[12..]);
    ValueBound(a[12..]);
    DivModUnique(Value(a), 0x1_0000_0000, Value(a[..12]), Value(a[12..]));
  }

  lemma LastTwoBytes(b: seq<Byte>)
    requires |b| >= 2
    ensures Value(b) == Value(b[..|b| - 2]) * 0x1_0000 + (b[|b| - 2] as int * 256 + b[|b| - 1])
  {
    var front := b[..|b| - 1];
    assert front[..|front| - 1] == b[..|b| - 2];
  }

  lemma HighPart(q: nat, r: nat)
    requires r < 0x1_0000
    ensures q * 0x1_0000 + r == 0xffff <==> q == 0 && r == 0xffff
  {}

  // Bytes and numbers agree on which addresses these are.
  lemma MappedIs(a: Address)
    ensures MappedIPv4(a) <==> Value(a) / 0x1_0000_0000 == 0xffff
  {
    TopOfValue(a);
    var top := a[..12];
    LastTwoBytes(top);
    assert top[..10] == a[..10] && top[10] == a[10] && top[11] == a[11];
    ZeroBytes(a[..10]);
    assert (forall i :: 0 <= i < 10 ==> a[i] == 0) <==> forall i :: 0 <= i < 10 ==> a[..10][i] == 0;
    HighPart(Value(a[..10]), a[10] as int * 256 + a[11]);
  }

  // The numbers that entries of the snapshot hold.
  ghost predicate Usable(s: Snapshot) {
    s.Parsed? && Value(s.address) / 0x1_0000_0000 != 0xffff
  }

  ghost function Used(occupied: seq<Snapshot>): set<Address> {
    set s | s in occupied && Usable(s) :: s.address
  }

  ghost predicate Taken(occupied: seq<Snapshot>, number: int) {
    exists a :: a in Used(occupied) && Value(a) == number
  }

  // The number tried at an attempt: the uint64 sum wraps around before it is masked.
  ghost function Candidate(n: IPv6Network, start: nat, attempt: nat): int
    requires Valid(n)
  {
    Named(n, (start + attempt) % TWO64)
  }

  ghost predicate Contains(n: IPv6Network, a: Address)
    requires Valid(n)
  {
    Base(n) <= Value(a) < Base(n) + Pow2(HostBits(n))
  }

  // How many different candidates there are.
  ghost function Period(n: IPv6Network): (m: nat)
    requires Valid(n)
    ensures m > 0
  {
    Pow2(if HostBits(n) < 64 then HostBits(n) else 64)
  }

  // Wrapping at 2^64 and masking to the host bits is one remainder.
  lemma CandidateIs(n: IPv6Network, start: nat, attempt: nat)
    requires Valid(n)
    ensures Candidate(n, start, attempt) == Base(n) + (start + attempt) % Period(n)
  {
    var hb, x := HostBits(n), start + attempt;
    Pow2Of64();
    if hb < 64 {
      Pow2Add(hb, 64 - hb);
      ModOfMod(x, Pow2(hb), Pow2(64 - hb));
    } else {
      Pow2Monotone(64, hb);
      DivModUnique(x % TWO64, Pow2(hb), 0, x % TWO64);
    }
  }

  lemma RepeatsAreFar(x: nat, y: nat, m: nat)
    requires m > 0 && x < y && x % m == y % m
    ensures y >= x + m
  {
    if y < x + m {
      assert (y - x) % m == 0 by { RemainderOfDifference(x, y, m); }
      DivModUnique(y - x, m, 0, y - x);
      assert false;
    }
  }

  lemma RemainderOfDifference(x: nat, y: nat, m: nat)
    requires m > 0 && x <= y && x % m == y % m
    ensures (y - x) % m == 0
  {
    MulDistribute(y / m, x / m, m);
    DivModUnique(y - x, m, y / m - x / m, 0);
  }

  // Candidates repeat exactly at a distance of a whole period.
  lemma CandidatesRepeat(n: IPv6Network, start: nat, i: nat, j: nat)
    requires Valid(n) && i < j && Candidate(n, start, i) == Candidate(n, start, j)
    ensures j >= i + Period(n)
  {
    CandidateIs(n, start, i);
    CandidateIs(n, start, j);
    RepeatsAreFar(start + i, start + j, Period(n));
  }

  lemma CandidateWraps(n: IPv6Network, start: nat, j: nat)
    requires Valid(n)
    ensures Candidate(n, start, j) == Candidate(n, start, j % Period(n))
  {
    CandidateIs(n, start, j);
    CandidateIs(n, start, j % Period(n));
    ModShift(start, j, Period(n));
  }

  lemma ModShift(s: nat, j: nat, m: nat)
    requires m > 0
    ensures (s + j) % m == (s + j % m) % m
  {
    ModAddMultiple(s + j % m, j / m, m);
    assert s + j == s + j % m + j / m * m;
  }

  // After a whole period of taken candidates, every candidate is taken.
  lemma PeriodCoversAll(n: IPv6Network, occupied: seq<Snapshot>, start: nat, attempt: nat, i: nat)
    requires Valid(n) && i < attempt && Candidate(n, start, i) == Candidate(n, start, attempt)
    requires forall k :: 0 <= k < attempt ==> Taken(occupied, Candidate(n, start, k))
    ensures forall k: nat :: Taken(occupied, Candidate(n, start, k))
  {
    CandidatesRepeat(n, start, i, attempt);
    forall k: nat ensures Taken(occupied, Candidate(n, start, k)) {
      CandidateWraps(n, start, k);
      assert k % Period(n) < attempt;
    }
  }

  // From any start, some step below m reaches any remainder by m.
  lemma ReachRemainder(start: nat, x: nat, m: nat) returns (k: nat)
    requires x < m
    ensures k < m && (start + k) % m == x
  {
    var q, s := start / m, start % m;
    k := if x >= s then x - s else x + m - s;
    MulDistribute(q, 1, m);
    DivModUnique(start + k, m, if x >= s then q else q + 1, x);
  }

  // Every address of the network is a candidate within the first period.
  lemma EveryAddressIsTried(n: IPv6Network, start: nat, a: Address) returns (k: nat)
    requires Valid(n) && HostBits(n) <= 64 && Contains(n, a)
    ensures k < Pow2(HostBits(n)) && Candidate(n, start, k) == Value(a)
  {
    k := ReachRemainder(start, Value(a) - Base(n), Period(n));
    CandidateIs(n, start, k);
  }

  // If attempts cover the network, all of them are taken exactly when every address is.
  lemma AllTakenIff(n: IPv6Network, occupied: seq<Snapshot>, start: nat, attempts: nat)
    requires Valid(n) && HostBits(n) <= 64 && attempts >= Pow2(HostBits(n))
    ensures (forall k :: 0 <= k < attempts ==> Taken(occupied, Candidate(n, start, k)))
       <==> forall a: Address :: Contains(n, a) ==> a in Used(occupied)
  {
    if forall k :: 0 <= k < attempts ==> Taken(occupied, Candidate(n, start, k)) {
      forall a: Address | Contains(n, a) ensures a in Used(occupied) {
        var k := EveryAddressIsTried(n, start, a);
        assert Taken(occupied, Candidate(n, start, k));
        var b :| b in Used(occupied) && Value(b) == Value(a);
        ValueInjective(a, b);
      }
    }
    if forall a: Address :: Contains(n, a) ==> a in Used(occupied) {
      forall k | 0 <= k < attempts ensures Taken(occupied, Candidate(n, start, k)) {
        var a := CandidateAddress(n, start, k);
        assert a in Used(occupied);
      }
    }
  }

  // Every candidate is the number of an address in the network.
  lemma CandidateAddress(n: IPv6Network, start: nat, k: nat) returns (a: Address)
    requires Valid(n)
    ensures Value(a) == Candidate(n, start, k) && Contains(n, a)
  {
    var number := Candidate(n, start, k);
    NetworkValue(n);
    NetworkEnd(n);
    a := AddressOf(number);
  }

  lemma RoundDownEnd(v: nat, size: nat, count: nat)
    requires size > 0 && v < count * size
    ensures 0 <= RoundDown(v, size) && RoundDown(v, size) + size <= count * size
  {
    var q := v / size;
    MulNotNegative(q, size);
    SmallerFactor(q, count, size);
    MulDistribute(count - q - 1, q + 1, size);
    MulDistribute(q, 1, size);
    MulNotNegative(count - q - 1, size);
  }

  lemma NetworkEnd(n: IPv6Network)
    requires Valid(n)
    ensures Base(n) >= 0 && Base(n) + Pow2(HostBits(n)) <= Pow2(128)
  {
    ValueBound(n.address);
    Pow2Add(n.prefixLen, HostBits(n));
    RoundDownEnd(Value(n.address), Pow2(HostBits(n)), Pow2(n.prefixLen));
  }

  lemma {:induction false} BytesOf(number: nat, k: nat) returns (b: seq<Byte>)
    requires number < Pow2(8 * k)
    ensures |b| == k && Value(b) == number
  {
    if k == 0 {
      assert Pow2(0) == 1;
      b := [];
    } else {
      Pow2Byte();
      Pow2Add(8 * (k - 1), 8);
      var front := BytesOf(number / 256, k - 1);
      var last: Byte := number % 256;
      b := front + [last];
    }
  }

  lemma AddressOf(number: nat) returns (a: Address)
    requires number < Pow2(128)
    ensures Value(a) == number
  {
    a := BytesOf(number, 16);
  }

  // With more attempts and more addresses than snapshot entries, one of them is free.
  lemma SomeCandidateIsFree(n: IPv6Network, occupied: seq<Snapshot>, start: nat)
    requires Valid(n) && |Used(occupied)| < Period(n)
    ensures exists k :: 0 <= k <= |Used(occupied)| && !Taken(occupied, Candidate(n, start, k))
  {
    if forall k :: 0 <= k <= |Used(occupied)| ==> Taken(occupied, Candidate(n, start, k)) {
      var s := DistinctTaken(n, occupied, start, |Used(occupied)| + 1);
      SubsetCount(s, Used(occupied));
      assert false;
    }
  }

  // Within one period no candidate comes twice.
  lemma NotTriedBefore(n: IPv6Network, start: nat, count: nat, a: Address)
    requires Valid(n) && count < Period(n) && Value(a) == Candidate(n, start, count)
    ensures forall k :: 0 <= k < count ==> Value(a) != Candidate(n, start, k)
  {
    forall k | 0 <= k < count ensures Value(a) != Candidate(n, start, k) {
      if Value(a) == Candidate(n, start, k) { CandidatesRepeat(n, start, k, count); }
    }
  }

  lemma {:induction false} DistinctTaken(n: IPv6Network, occupied: seq<Snapshot>, start: nat, count: nat) returns (s: set<Address>)
    requires Valid(n) && count <= Period(n)
    requires forall k :: 0 <= k < count ==> Taken(occupied, Candidate(n, start, k))
    ensures s <= Used(occupied) && |s| == count
    ensures forall a :: a in s ==> exists k :: 0 <= k < count && Value(a) == Candidate(n, start, k)
  {
    if count == 0 {
      s := {};
    } else {
      var t := DistinctTaken(n, occupied, start, count - 1);
      assert Taken(occupied, Candidate(n, start, count - 1));
      var a :| a in Used(occupied) && Value(a) == Candidate(n, start, count - 1);
      NotTriedBefore(n, start, count - 1, a);
      s := t + {a};
    }
  }

  // All of used answers to the snapshot, entry by entry.
  method CollectUsed(occupied: seq<Snapshot>) returns (used: set<Address>)
    ensures used == Used(occupied)
    ensures forall a: Address :: a in used <==> Parsed(a) in occupied && Value(a) / 0x1_0000_0000 != 0xffff
  {
    used := {};
    for i := 0 to |occupied|
      invariant used == Used(occupied[..i])
    {
      assert occupied[..i + 1] == occupied[..i] + [occupied[i]];
      if occupied[i].Parsed? {
        MappedIs(occupied[i].address);
        if !MappedIPv4(occupied[i].address) {
          used := used + {occupied[i].address};
        }
      }
    }
    assert occupied[..|occupied|] == occupied;
  }

  lemma FreeIsNotTaken(occupied: seq<Snapshot>, candidate: Address)
    ensures Taken(occupied, Value(candidate)) <==> candidate in Used(occupied)
  {
    if Taken(occupied, Value(candidate)) {
      var a :| a in Used(occupied) && Value(a) == Value(candidate);
      ValueInjective(a, candidate);
    }
  }

  lemma SingleCandidate(n: IPv6Network, start: nat, attempt: nat)
    requires Valid(n)
    ensures HostBits(n) == 0 ==> Candidate(n, start, attempt) == Base(n)
  {
    if HostBits(n) == 0 {
      CandidateIs(n, start, attempt);
      assert Period(n) == 1;
    }
  }

  // Scans from start, wrapping; stops at the first free address, at maxAttempts, or
  // when the candidates begin to repeat.
  method FirstAvailableIPv6(n: IPv6Network, occupied: seq<Snapshot>, start: nat, maxAttempts: nat) returns (r: Outcome)
    requires start < TWO64 && maxAttempts < TWO64
    ensures !Valid(n) ==> r == if maxAttempts == 0 then Exhausted else InvalidNetwork
    ensures Valid(n) ==> r != InvalidNetwork
    ensures Valid(n) && r == NoHostBits ==> HostBits(n) == 0 && (start != 0 || Taken(occupied, Base(n)))
    // The first free candidate:
    ensures Valid(n) && r.Available? && Parsed(r.address) in occupied ==> Value(r.address) / 0x1_0000_0000 == 0xffff
    ensures Valid(n) && r.Available? ==>
      && r.address !in Used(occupied)
      && exists k :: 0 <= k < maxAttempts && Value(r.address) == Candidate(n, start, k)
           && forall i :: 0 <= i < k ==> Taken(occupied, Candidate(n, start, i))
    // No candidate is free:
    ensures Valid(n) && r == Exhausted ==> forall i :: 0 <= i < maxAttempts ==> Taken(occupied, Candidate(n, start, i))
    // With enough attempts, failure means that every address of the network is taken:
    ensures Valid(n) && 0 < HostBits(n) < 64 && maxAttempts >= Pow2(HostBits(n)) ==>
      (r == Exhausted <==> forall a: Address :: Contains(n, a) ==> a in Used(occupied))
    // More attempts than occupied addresses, and more addresses, always find one:
    ensures Valid(n) && 0 < HostBits(n) && |Used(occupied)| < maxAttempts && |Used(occupied)| < Period(n) ==> r.Available?
  {
    r := Scan(n, occupied, start, maxAttempts);
    if Valid(n) && HostBits(n) > 0 {
      if HostBits(n) < 64 && maxAttempts >= Pow2(HostBits(n)) {
        AllTakenIff(n, occupied, start, maxAttempts);
      }
      if |Used(occupied)| < Period(n) {
        SomeCandidateIsFree(n, occupied, start);
      }
    }
  }

  method Scan(n: IPv6Network, occupied: seq<Snapshot>, start: nat, maxAttempts: nat) returns (r: Outcome)
    requires start < TWO64 && maxAttempts < TWO64
    ensures !Valid(n) ==> r == if maxAttempts == 0 then Exhausted else InvalidNetwork
    ensures Valid(n) ==> r != InvalidNetwork
    ensures Valid(n) && r == NoHostBits ==> HostBits(n) == 0 && (start != 0 || Taken(occupied, Base(n)))
    ensures Valid(n) && r.Available? ==>
      && r.address !in Used(occupied)
      && exists k :: 0 <= k < maxAttempts && Value(r.address) == Candidate(n, start, k)
           && forall i :: 0 <= i < k ==> Taken(occupied, Candidate(n, start, i))
    ensures Valid(n) && r.Available? ==> !Taken(occupied, Value(r.address))
    ensures Valid(n) && r == Exhausted ==> forall i :: 0 <= i < maxAttempts ==> Taken(occupied, Candidate(n, start, i))
  {
    var used := CollectUsed(occupied);
    var tried: set<Address> := {};
    for attempt := 0 to maxAttempts
      invariant !Valid(n) ==> attempt == 0
      invariant Valid(n) ==> forall i :: 0 <= i < attempt ==> Taken(occupied, Candidate(n, start, i))
      invariant Valid(n) ==> forall a :: a in tried ==> exists i :: 0 <= i < attempt && Value(a) == Candidate(n, start, i)
      invariant Valid(n) && HostBits(n) == 0 && attempt > 0 ==> start != 0 || Taken(occupied, Base(n))
    {
      r := IPv6AddressWithSuffix(n, (start + attempt) % TWO64);
      if !r.Available? {
        return;
      }
      var candidate := r.address;
      assert Value(candidate) == Candidate(n, start, attempt);
      if candidate in tried {
        ghost var i :| 0 <= i < attempt && Value(candidate) == Candidate(n, start, i);
        PeriodCoversAll(n, occupied, start, attempt, i);
        return Exhausted;
      }
      tried := tried + {candidate};
      if candidate !in used {
        FreeIsNotTaken(occupied, candidate);
        return;
      }
      SingleCandidate(n, start, attempt);
    }
    r := Exhausted;
  }
}
