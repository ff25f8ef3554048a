// IPv6 networks as sixteen bytes and a prefix length: the byte loop that puts a
// host suffix into a network, against addition on 128-bit numbers.

module IPv6Networks {
  import opened Bits

  type Byte = x: int | 0 <= x < 256
  type Address = a: seq<Byte> | |a| == 16 witness seq(16, _ => 0)

  datatype IPv6Network = Unset(prefixLen: int) | Network(address: Address, prefixLen: int)
  datatype Outcome = Available(address: Address) | InvalidNetwork | NoHostBits | Exhausted

  // Big-endian value of a run of bytes.
  ghost function Value(b: seq<Byte>): nat {
    if b == [] then 0 else Value(b[..|b| - 1]) * 256 + b[|b| - 1]
  }

  predicate Valid(n: IPv6Network) {
    n.Network? && 0 <= n.prefixLen <= 128
  }

  function HostBits(n: IPv6Network): nat
    requires Valid(n)
  {
    128 - n.prefixLen
  }

  function RoundDown(x: nat, d: nat): int
    requires d > 0
  {
    x - x % d
  }

  // The number of the first address of the network: the address without its host bits.
  ghost function Base(n: IPv6Network): int
    requires Valid(n)
  {
    RoundDown(Value(n.address), Pow2(HostBits(n)))
  }

  // ---------- Values of bytes ----------

  lemma {:induction false} ValueConcat(a: seq<Byte>, b: seq<Byte>)
    ensures Value(a + b) == Value(a) * Pow2(8 * |b|) + Value(b)
  {
    if b == [] {
      assert a + b == a;
    } else {
      var front := b[..|b| - 1];
      ValueConcat(a, front);
      assert (a + b)[..|a + b| - 1] == a + front;
      Pow2Byte();
      Pow2Add(8 * |front|, 8);
      MulDistribute(Value(a) * Pow2(8 * |front|), Value(front), 256);
      MulAssoc(Value(a), Pow2(8 * |front|), 256);
    }
  }

  lemma {:induction false} ValueBound(b: seq<Byte>)
    ensures Value(b) < Pow2(8 * |b|)
  {
    if b != [] {
      ValueBound(b[..|b| - 1]);
      Pow2Byte();
      Pow2Add(8 * (|b| - 1), 8);
    }
  }

  lemma ValueFirst(b: seq<Byte>)
    requires b != []
    ensures Value(b) == b[0] * Pow2(8 * (|b| - 1)) + Value(b[1..])
  {
    ValueConcat([b[0]], b[1..]);
    assert [b[0]] + b[1..] == b;
    assert [b[0]][..0] == [];
    assert Value([b[0]]) == b[0];
  }

  lemma {:induction false} ValueZeros(b: seq<Byte>)
    requires forall i :: 0 <= i < |b| ==> b[i] == 0
    ensures Value(b) == 0
  {
    if b != [] { ValueZeros(b[..|b| - 1]); }
  }

  lemma {:induction false} ValueInjective(a: seq<Byte>, b: seq<Byte>)
    requires |a| == |b| && Value(a) == Value(b)
    ensures a == b
  {
    if a != [] {
      var x, y := a[..|a| - 1], b[..|b| - 1];
      DivModUnique(Value(a), 256, Value(x), a[|a| - 1]);
      DivModUnique(Value(b), 256, Value(y), b[|b| - 1]);
      ValueInjective(x, y);
      assert a == x + [a[|a| - 1]] && b == y + [b[|b| - 1]];
    }
  }

  // ---------- NetworkAddress ----------

  // Byte i of net.CIDRMask(prefixLen, 128).
  function MaskByte(prefixLen: nat, i: nat): Byte
    requires i < 16
  {
    var n := prefixLen - 8 * i;
    if n >= 8 then 255
    else if n <= 0 then 0
    else 255 - Shift(n)
  }

  // 0xff >> n
  function Shift(n: nat): (r: nat)
    ensures r < 256
  {
    255 / Pow2(n)
  }

  lemma ShiftIsLowMask(n: nat)
    requires 0 < n < 8
    ensures Shift(n) == Pow2(8 - n) - 1
  {
    Pow2Byte();
    Pow2Add(8 - n, n);
    MulDistribute(Pow2(8 - n), 1, Pow2(n));
    DivModUnique(255, Pow2(n), Pow2(8 - n) - 1, Pow2(n) - 1);
  }

  lemma {:induction false} AndBound(x: nat, y: nat, n: nat)
    requires x < Pow2(n)
    ensures And(x, y, n) <= x
  {
    if n > 0 { AndBound(x / 2, y / 2, n - 1); }
  }

  const BYTE_BITS: nat := 8

  function MaskedByte(b: Byte, m: Byte): Byte {
    Pow2Byte(); AndBound(b, m, BYTE_BITS); And(b, m, BYTE_BITS)
  }

  // The address with every bit after the prefix cleared.
  function NetworkAddress(n: IPv6Network): Address
    requires Valid(n)
  {
    seq(16, i requires 0 <= i < 16 => MaskedByte(n.address[i], MaskByte(n.prefixLen, i)))
  }

  lemma MaskKeeps(b: Byte)
    ensures MaskedByte(b, 255) == b
  {
    Pow2Byte();
    AndLowMask(b, BYTE_BITS, BYTE_BITS);
    DivModUnique(b, 256, 0, b);
  }

  lemma MaskClears(b: Byte)
    ensures MaskedByte(b, 0) == 0
  {
    AndZero(b, BYTE_BITS);
  }

  lemma MaskMixes(b: Byte, bits: nat)
    requires 0 < bits < 8
    ensures MaskedByte(b, 255 - Shift(bits)) == b - b % Pow2(8 - bits)
  {
    Pow2Byte();
    ShiftIsLowMask(bits);
    Pow2Monotone(8 - bits, BYTE_BITS);
    AndIsAndNot(b, Pow2(8 - bits) - 1, BYTE_BITS);
    AndNotLowMask(b, 8 - bits, BYTE_BITS);
  }

  // What the mask does to each byte: keep it, clear its low bits, or clear it.
  lemma MaskedByteIs(n: IPv6Network, i: nat)
    requires Valid(n) && i < 16
    ensures var net, bits := NetworkAddress(n), n.prefixLen - 8 * i;
      && (bits >= 8 ==> net[i] == n.address[i])
      && (bits <= 0 ==> net[i] == 0)
      && (0 < bits < 8 ==> net[i] == n.address[i] - n.address[i] % Pow2(8 - bits))
  {
    var b, bits := n.address[i], n.prefixLen - 8 * i;
    if bits >= 8 {
      MaskKeeps(b);
    } else if bits <= 0 {
      MaskClears(b);
    } else {
      MaskMixes(b, bits);
    }
  }

  // The bytes that hold host bits, and the host bits in the first of them.
  function HostBytes(n: IPv6Network): (h: nat)
    requires Valid(n)
    ensures h <= 16 && 8 * h - 8 < HostBits(n) <= 8 * h
  {
    (HostBits(n) + 7) / 8
  }

  // The network address splits into whole prefix bytes, one mixed byte and zeros.
  lemma NetworkShape(n: IPv6Network)
    requires Valid(n)
    ensures var net, h := NetworkAddress(n), HostBytes(n);
      && net[..16 - h] == n.address[..16 - h]
      && (h > 0 ==>
        && (forall i :: 16 - h < i < 16 ==> net[i] == 0)
        && net[16 - h] == n.address[16 - h] - n.address[16 - h] % Pow2(HostBits(n) - 8 * (h - 1)))
  {
    var net, h := NetworkAddress(n), HostBytes(n);
    var f := 16 - h;
    forall i | 0 <= i < 16 ensures i < f ==> net[i] == n.address[i] ensures i > f ==> net[i] == 0 {
      MaskedByteIs(n, i);
    }
    assert net[..f] == n.address[..f];
    if h > 0 {
      MaskedByteIs(n, f);
      var bits := HostBits(n) - 8 * (h - 1);
      if bits == 8 {
        Pow2Byte();
        DivModUnique(n.address[f], 256, 0, n.address[f]);
      }
    }
  }

  lemma OneByteMore(k: nat)
    ensures Pow2(8 * (k + 1)) == 256 * Pow2(8 * k)
  {
    Pow2Byte();
    Pow2Add(8, 8 * k);
  }

  lemma SplitAt(b: Address, f: nat)
    requires f < 16
    ensures var q := Pow2(8 * (15 - f));
      Value(b) == Value(b[..f]) * (256 * q) + (b[f] * q + Value(b[f + 1..])) && Value(b[f + 1..]) < q
  {
    var tail := b[f..];
    assert Value(b) == Value(b[..f]) * Pow2(8 * |tail|) + Value(tail) by {
      ValueConcat(b[..f], tail);
      assert b[..f] + tail == b;
    }
    assert tail[1..] == b[f + 1..];
    ValueFirst(tail);
    ValueBound(b[f + 1..]);
    OneByteMore(15 - f);
  }

  // The arithmetic of clearing: top bytes, a mixed byte of e * d values, and a tail below q.
  lemma RoundDownMixed(v: nat, net: int, top: nat, mixed: nat, tail: nat, d: nat, e: nat, q: nat, size: nat)
    requires d > 0 && e * d == 256 && tail < q && d * q == size
    requires v == top * (256 * q) + (mixed * q + tail)
    requires net == top * (256 * q) + ((mixed - mixed % d) * q + 0)
    ensures size > 0 && net == RoundDown(v, size) && net <= v < net + size
  {
    var k, r := mixed / d, mixed % d;
    MulAtLeast(d, q);
    TwoDigits(r, tail, q, d);
    assert q * d == d * q;
    assert mixed * q == (k * d) * q + r * q by { MulDistribute(k * d, r, q); }
    assert (k * d) * q == k * (d * q) by { MulAssoc(k, d, q); }
    assert top * (256 * q) == (top * e) * (d * q) by {
      MulAssoc(e, d, q);
      MulAssoc(top, e, d * q);
    }
    MulDistribute(top * e, k, d * q);
    DivModUnique(v, size, top * e + k, r * q + tail);
  }

  // Clearing the host bits rounds the number down to a multiple of 2^hostBits.
  lemma NetworkValue(n: IPv6Network)
    requires Valid(n)
    ensures Value(NetworkAddress(n)) == Base(n)
    ensures Base(n) <= Value(n.address) < Base(n) + Pow2(HostBits(n))
  {
    var a, net := n.address, NetworkAddress(n);
    NetworkShape(n);
    if HostBytes(n) == 0 {
      assert net == net[..16] && a == a[..16];
      assert Pow2(0) == 1;
    } else {
      NetworkValueMixed(n);
    }
  }

  lemma NetworkValueMixed(n: IPv6Network)
    requires Valid(n) && HostBytes(n) > 0
    ensures Value(NetworkAddress(n)) == Base(n)
    ensures Base(n) <= Value(n.address) < Base(n) + Pow2(HostBits(n))
  {
    var a, net, h := n.address, NetworkAddress(n), HostBytes(n);
    var f, bits := 16 - h, HostBits(n) - 8 * (h - 1);
    NetworkShape(n);
    SplitAt(a, f);
    SplitAt(net, f);
    ValueZeros(net[f + 1..]);
    SplitBits(bits, 8 * (h - 1));
    RoundDownMixed(Value(a), Value(net), Value(a[..f]), a[f], Value(a[f + 1..]),
                   Pow2(bits), Pow2(8 - bits), Pow2(8 * (15 - f)), Pow2(HostBits(n)));
  }

  lemma SplitBits(bits: nat, rest: nat)
    requires bits <= 8
    ensures Pow2(8 - bits) * Pow2(bits) == 256 && Pow2(bits + rest) == Pow2(bits) * Pow2(rest)
  {
    Pow2Byte();
    Pow2Add(8 - bits, bits);
    Pow2Add(bits, rest);
  }

  // ---------- IPv6AddressWithSuffix ----------

  const TWO64: nat := 0x1_0000_0000_0000_0000

  lemma Pow2Of64()
    ensures Pow2(64) == TWO64
  {
    Pow2Byte();
    Pow2Twice(8, 256);
    Pow2Twice(16, 0x1_0000);
    Pow2Twice(32, 0x1_0000_0000);
  }

  // suffix &= (1 << hostBits) - 1, needed below 64 host bits only
  function MaskSuffix(suffix: nat, hostBits: nat): nat {
    if hostBits < 64 then And(suffix, Pow2(hostBits) - 1, 64) else suffix
  }

  lemma MaskSuffixIsMod(suffix: nat, hostBits: nat)
    requires suffix < TWO64
    ensures MaskSuffix(suffix, hostBits) == suffix % Pow2(hostBits)
  {
    if hostBits < 64 {
      AndLowMask(suffix, hostBits, 64);
    } else {
      Pow2Of64();
      Pow2Monotone(64, hostBits);
      DivModUnique(suffix, Pow2(hostBits), 0, suffix);
    }
  }

  // One step of the byte loop: the next byte of s goes in front of its low bytes.
  lemma NextByte(s: nat, idx: nat, low: seq<Byte>)
    requires |low| == idx && Value(low) == s % Pow2(8 * idx)
    ensures var b: Byte := s / Pow2(8 * idx) % 256;
      Value([b] + low) == s % Pow2(8 * (idx + 1)) && s / Pow2(8 * (idx + 1)) == s / Pow2(8 * idx) / 256
  {
    var b: Byte := s / Pow2(8 * idx) % 256;
    ValueFirst([b] + low);
    assert ([b] + low)[1..] == low;
    Pow2Byte();
    Pow2Add(8 * idx, 8);
    ModByProduct(s, Pow2(8 * idx), 256);
  }

  lemma NoCarry(x: nat, y: Byte, bits: nat)
    requires bits < 8 && x < Pow2(bits) && y % Pow2(bits) == 0
    ensures x + y < 256
  {
    SplitBits(bits, 0);
    SumBelow(x, y, Pow2(bits), Pow2(8 - bits));
  }

  lemma SumBelow(x: nat, y: nat, d: nat, e: nat)
    requires x < d && y < e * d && y % d == 0
    ensures x + y < e * d
  {
    SmallerFactor(y / d, e, d);
    TwoDigits(y / d, x, d, e);
    assert e * d == d * e;
  }

  // The first host byte keeps its prefix bits and takes the suffix bits below them.
  lemma MixedByte(suffixByte: Byte, networkByte: Byte, bits: nat)
    requires bits < 8 && suffixByte < Pow2(bits) && networkByte % Pow2(bits) == 0
    ensures var mask := Pow2(bits) - 1;
      Or(And(suffixByte, mask, BYTE_BITS), AndNot(networkByte, mask, BYTE_BITS), BYTE_BITS) == suffixByte + networkByte < 256
  {
    Pow2Byte();
    AndLowMask(suffixByte, bits, BYTE_BITS);
    DivModUnique(suffixByte, Pow2(bits), 0, suffixByte);
    AndNotLowMask(networkByte, bits, BYTE_BITS);
    OrDisjoint(suffixByte, networkByte, bits, BYTE_BITS);
    NoCarry(suffixByte, networkByte, bits);
  }

  lemma SmallerFactor(a: int, d: int, q: int)
    requires q > 0 && a * q < d * q
    ensures a < d
  {
    if a >= d {
      MulDistribute(a, d, q);
      MulNotNegative(a - d, q);
    }
  }

  lemma TopByteFits(b: seq<Byte>, hostBits: nat)
    requires |b| > 0 && 8 * (|b| - 1) <= hostBits && Value(b) < Pow2(hostBits)
    ensures b[0] < Pow2(hostBits - 8 * (|b| - 1))
  {
    var q, d := Pow2(8 * (|b| - 1)), Pow2(hostBits - 8 * (|b| - 1));
    ValueFirst(b);
    assert Pow2(hostBits) == d * q by { Pow2Add(hostBits - 8 * (|b| - 1), 8 * (|b| - 1)); }
    SmallerFactor(b[0], d, q);
  }

  lemma AlignedDown(b: nat, d: nat)
    requires d > 0
    ensures 0 <= b - b % d && (b - b % d) % d == 0
  {
    MulNotNegative(b / d, d);
    DivModUnique(b - b % d, d, b / d, 0);
  }

  // Byte-wise sums that never carry are sums of the numbers.
  lemma {:induction false} ValueSum(a: seq<Byte>, b: seq<Byte>, c: seq<Byte>)
    requires |a| == |b| == |c| && forall i :: 0 <= i < |a| ==> c[i] as int == a[i] as int + b[i] as int
    ensures Value(c) == Value(a) + Value(b)
  {
    if a != [] {
      ValueSum(a[..|a| - 1], b[..|b| - 1], c[..|c| - 1]);
    }
  }

  lemma {:induction false} LeadingZeros(k: nat, b: seq<Byte>)
    ensures Value(seq(k, _ => 0) + b) == Value(b)
  {
    var zeros: seq<Byte> := seq(k, _ => 0);
    if b == [] {
      assert zeros + b == zeros;
      ValueZeros(zeros);
    } else {
      LeadingZeros(k, b[..|b| - 1]);
      assert (zeros + b)[..k + |b| - 1] == zeros + b[..|b| - 1];
    }
  }

  // The suffix bytes in the host bytes, with the prefix bits added back to the first,
  // make the network address plus the suffix.
  lemma SuffixAdds(net: Address, result: Address, f: nat, written: seq<Byte>)
    requires f < 16 && |written| == 16 - f && (forall i :: f < i < 16 ==> net[i] == 0)
    requires result[..f] == net[..f] && result[f + 1..] == written[1..]
    requires result[f] as int == written[0] as int + net[f] as int
    ensures Value(result) == Value(net) + Value(written)
  {
    var zeros: seq<Byte> := seq(f, _ => 0);
    var padded := zeros + written;
    LeadingZeros(f, written);
    forall i | 0 <= i < 16 ensures result[i] as int == net[i] as int + padded[i] as int {
      if i < f {
        assert result[i] == result[..f][i] && net[i] == net[..f][i];
      } else if i > f {
        assert result[i] == result[f + 1..][i - f - 1] && padded[i] == written[1..][i - f - 1];
      }
    }
    ValueSum(net, padded, result);
  }

  // How many bytes hold host bits, and how many host bits the first of them has if it is mixed.
  ghost predicate Layout(hostBits: nat, hostBytes: nat, remainder: nat) {
    && 0 < hostBytes <= 16 && remainder < 8
    && hostBits == if remainder == 0 then 8 * hostBytes else 8 * (hostBytes - 1) + remainder
  }

  // The host bits of the network address are zero.
  ghost predicate HostBitsClear(net: Address, hostBytes: nat, remainder: nat)
    requires 0 < hostBytes <= 16
  {
    && (forall i :: 16 - hostBytes < i < 16 ==> net[i] == 0)
    && if remainder == 0 then net[16 - hostBytes] == 0 else net[16 - hostBytes] % Pow2(remainder) == 0
  }

  lemma NetworkBitsClear(n: IPv6Network, hostBytes: nat, remainder: nat)
    requires Valid(n) && Layout(HostBits(n), hostBytes, remainder)
    ensures HostBitsClear(NetworkAddress(n), hostBytes, remainder)
  {
    assert hostBytes == HostBytes(n);
    NetworkShape(n);
    var f := 16 - hostBytes;
    AlignedDown(n.address[f], Pow2(remainder));
    Pow2Byte();
  }

  lemma LayoutHolds(hostBits: nat)
    requires 0 < hostBits <= 128
    ensures Layout(hostBits, (hostBits + 7) / 8, hostBits % 8)
  {}

  // The number a suffix names: the base plus the suffix modulo the size of the network.
  ghost function Named(n: IPv6Network, suffix: nat): int
    requires Valid(n)
  {
    Base(n) + suffix % Pow2(HostBits(n))
  }

  // The suffix is added to the network, whatever the prefix length; its bits above
  // the host bits are dropped. A /128 network takes the suffix zero only.
  method IPv6AddressWithSuffix(n: IPv6Network, suffix: nat) returns (r: Outcome)
    requires suffix < TWO64
    ensures r == InvalidNetwork <==> n.Unset? || n.prefixLen < 0 || n.prefixLen > 128
    ensures r == NoHostBits <==> n.Network? && n.prefixLen == 128 && suffix != 0
    ensures r == InvalidNetwork || r == NoHostBits || r.Available?
    ensures r.Available? ==> Value(r.address) == Named(n, suffix)
    ensures r.Available? ==> var size := Pow2(128 - n.prefixLen);
      Value(r.address) == Value(n.address) - Value(n.address) % size + suffix % size
  {
    if n.Unset? || n.prefixLen < 0 || n.prefixLen > 128 {
      return InvalidNetwork;
    }
    var network := NetworkAddress(n);
    NetworkValue(n);
    var hostBits := 128 - n.prefixLen;
    if hostBits == 0 && suffix != 0 {
      return NoHostBits;
    }
    MaskSuffixIsMod(suffix, hostBits);
    if hostBits == 0 {
      assert suffix % Pow2(0) == 0;
      return Available(network);
    }
    LayoutHolds(hostBits);
    var address := Fill(n, network, MaskSuffix(suffix, hostBits), hostBits);
    return Available(address);
  }

  // Writes the bytes of the suffix from the end of a copy of the network address,
  // then restores the prefix bits of a byte that holds both kinds.
  method Fill(n: IPv6Network, network: Address, masked: nat, hostBits: nat) returns (address: Address)
    requires Valid(n) && network == NetworkAddress(n) && hostBits == HostBits(n) > 0 && masked < Pow2(hostBits)
    ensures Value(address) == Value(network) + masked
  {
    var hostBytes, remainder := (hostBits + 7) / 8, hostBits % 8;
    LayoutHolds(hostBits);
    NetworkBitsClear(n, hostBytes, remainder);
    address := WriteSuffix(network, hostBits, hostBytes, remainder, masked);
  }

  method WriteSuffix(network: Address, hostBits: nat, hostBytes: nat, remainder: nat, masked: nat) returns (address: Address)
    requires Layout(hostBits, hostBytes, remainder)
    requires HostBitsClear(network, hostBytes, remainder) && masked < Pow2(hostBits)
    ensures Value(address) == Value(network) + masked
  {
    var result := new Byte[16](i requires 0 <= i < 16 => network[i]);
    assert result[..] == network;
    WriteBytes(result, masked, hostBytes);
    var f := 16 - hostBytes;
    ghost var written := result[f..];
    assert result[..f] == network[..f];
    WrittenFits(hostBits, hostBytes, remainder, masked, written);
    RestorePrefixBits(result, network[f], f, remainder);
    address := result[..];
    assert address[..f] == network[..f] && address[f + 1..] == written[1..];
    SuffixAdds(network, address, f, written);
  }

  // The byte loop: the low bytes of the suffix, the last one at the end of the buffer.
  method WriteBytes(result: array<Byte>, masked: nat, hostBytes: nat)
    requires result.Length == 16 && hostBytes <= 16
    modifies result
    ensures result[..16 - hostBytes] == old(result[..16 - hostBytes])
    ensures Value(result[16 - hostBytes..]) == masked % Pow2(8 * hostBytes)
  {
    var suffix := masked;
    assert Pow2(0) == 1;
    for idx := 0 to hostBytes
      invariant suffix == masked / Pow2(8 * idx)
      invariant result[..16 - idx] == old(result[..16 - idx])
      invariant Value(result[16 - idx..]) == masked % Pow2(8 * idx)
    {
      ghost var low := result[16 - idx..];
      NextByte(masked, idx, low);
      result[15 - idx] := suffix % 256;
      suffix := suffix / 256;
      assert result[15 - idx..] == [result[15 - idx]] + low;
      assert result[..15 - idx] == old(result[..16 - idx])[..15 - idx];
    }
  }

  lemma WrittenFits(hostBits: nat, hostBytes: nat, remainder: nat, masked: nat, written: seq<Byte>)
    requires Layout(hostBits, hostBytes, remainder) && masked < Pow2(hostBits) && |written| == hostBytes
    requires Value(written) == masked % Pow2(8 * hostBytes)
    ensures Value(written) == masked && (remainder != 0 ==> written[0] < Pow2(remainder))
  {
    Pow2Monotone(hostBits, 8 * hostBytes);
    DivModUnique(masked, Pow2(8 * hostBytes), 0, masked);
    TopByteFits(written, hostBits);
  }

  // Puts the prefix bits back into the first byte that holds host bits, unless it holds nothing else.
  method RestorePrefixBits(result: array<Byte>, networkByte: Byte, firstHostByte: nat, remainder: nat)
    requires result.Length == 16 && firstHostByte < 16 && remainder < 8
    requires remainder == 0 ==> networkByte == 0
    requires remainder != 0 ==> networkByte % Pow2(remainder) == 0 && result[firstHostByte] < Pow2(remainder)
    modifies result
    ensures result[..firstHostByte] == old(result[..firstHostByte])
    ensures result[firstHostByte] as int == old(result[firstHostByte]) as int + networkByte as int
    ensures result[firstHostByte + 1..] == old(result[firstHostByte + 1..])
  {
    if remainder != 0 {
      var hostMask := Pow2(remainder) - 1;
      MixedByte(result[firstHostByte], networkByte, remainder);
      result[firstHostByte] :=
        Or(And(result[firstHostByte], hostMask, BYTE_BITS), AndNot(networkByte, hostMask, BYTE_BITS), BYTE_BITS);
    }
  }
}
