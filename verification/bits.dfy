// Powers of two, Euclidean division by them, and bitwise operations on natural numbers.

module Bits {
  function Pow2(n: nat): (p: nat)
    ensures p > 0
  {
    if n == 0 then 1 else 2 * Pow2(n - 1)
  }

  lemma {:induction false} Pow2Add(a: nat, b: nat)
    ensures Pow2(a + b) == Pow2(a) * Pow2(b)
  {
    if a > 0 {
      Pow2Add(a - 1, b);
      MulAssoc(2, Pow2(a - 1), Pow2(b));
    }
  }

  lemma {:induction false} Pow2Monotone(a: nat, b: nat)
    requires a <= b
    ensures Pow2(a) <= Pow2(b)
  {
    if a < b { Pow2Monotone(a, b - 1); }
  }

  lemma Pow2Twice(n: nat, v: nat)
    requires Pow2(n) == v
    ensures Pow2(n + n) == v * v
  {
    Pow2Add(n, n);
  }

  lemma Pow2Byte()
    ensures Pow2(8) == 256
  {
    assert Pow2(4) == 16;
    Pow2Add(4, 4);
  }

  lemma MulAssoc(a: int, b: int, c: int)
    ensures (a * b) * c == a * (b * c)
  {}

  lemma MulDistribute(a: int, b: int, d: int)
    ensures (a + b) * d == a * d + b * d
    ensures (a - b) * d == a * d - b * d
  {}

  lemma MulNotNegative(a: int, b: int)
    requires a >= 0 && b >= 0
    ensures a * b >= 0
  {}

  lemma MulAtLeast(q: int, d: int)
    requires q >= 1 && d >= 0
    ensures q * d >= d
  {
    MulDistribute(q - 1, 1, d);
    assert (q - 1) * d >= 0;
  }

  // Quotient and remainder are the only pair that fits.
  lemma DivModUnique(x: int, d: int, q: int, r: int)
    requires d > 0 && x == q * d + r && 0 <= r < d
    ensures x / d == q && x % d == r
  {
    var q', r' := x / d, x % d;
    assert x == q' * d + r';
    MulDistribute(q, q', d);
    assert (q - q') * d == r' - r;
    if q > q' { MulAtLeast(q - q', d); }
    if q < q' { MulDistribute(q', q, d); MulAtLeast(q' - q, d); }
  }

  lemma ModAddMultiple(x: int, k: int, d: int)
    requires d > 0
    ensures (x + k * d) % d == x % d
  {
    MulDistribute(x / d, k, d);
    DivModUnique(x + k * d, d, x / d + k, x % d);
  }

  // Below a multiple of a size there is room for a whole one above every smaller multiple.
  lemma NextMultiple(x: int, d: int, n: int)
    requires d > 0 && x % d == 0 && x < n * d
    ensures x + d <= n * d
  {
    var q := x / d;
    assert x == q * d;
    if q >= n {
      MulDistribute(q, n, d);
      MulNotNegative(q - n, d);
      assert false;
    }
    MulDistribute(n, q, d);
    MulAtLeast(n - q, d);
  }

  // A remainder by a multiple keeps the remainder by the divisor.
  lemma ModOfMod(x: int, d: int, k: int)
    requires d > 0 && k > 0
    ensures d * k > 0 && (x % (d * k)) % d == x % d
  {
    MulAtLeast(k, d);
    assert d * k == k * d;
    var q := x / (d * k);
    assert x == q * (d * k) + x % (d * k);
    assert q * (d * k) == (q * k) * d by { MulAssoc(q, k, d); }
    ModAddMultiple(x % (d * k), q * k, d);
  }

  lemma TwoDigits(r: int, s: int, d: int, e: int)
    requires 0 <= r < e && 0 <= s < d
    ensures 0 <= r * d + s < d * e
  {
    MulDistribute(e, r, d);
    MulAtLeast(e - r, d);
    assert r * d >= 0;
    assert e * d == d * e;
  }

  lemma ThreeDigits(q: int, r: int, s: int, d: int, e: int)
    ensures (q * e + r) * d + s == q * (d * e) + (r * d + s)
  {
    MulDistribute(q * e, r, d);
    MulAssoc(q, e, d);
    assert e * d == d * e;
  }

  // Dividing by a product is dividing twice.
  lemma ModByProduct(x: nat, d: nat, e: nat)
    requires d > 0 && e > 0
    ensures d * e > 0 && x % (d * e) == (x / d % e) * d + x % d
    ensures x / (d * e) == x / d / e
  {
    var y := x / d;
    MulAtLeast(e, d);
    TwoDigits(y % e, x % d, d, e);
    ThreeDigits(y / e, y % e, x % d, d, e);
    DivModUnique(x, d * e, y / e, (y % e) * d + x % d);
  }

  // ---------- Bitwise operations on the low n bits ----------

  function And(x: nat, y: nat, n: nat): nat {
    if n == 0 then 0 else 2 * And(x / 2, y / 2, n - 1) + if x % 2 == 1 && y % 2 == 1 then 1 else 0
  }

  function Or(x: nat, y: nat, n: nat): nat {
    if n == 0 then 0 else 2 * Or(x / 2, y / 2, n - 1) + if x % 2 == 1 || y % 2 == 1 then 1 else 0
  }

  // Go's &^
  function AndNot(x: nat, y: nat, n: nat): nat {
    if n == 0 then 0 else 2 * AndNot(x / 2, y / 2, n - 1) + if x % 2 == 1 && y % 2 == 0 then 1 else 0
  }

  // The low r bits of a number, which are its remainder by 2^r.
  function Low(x: nat, r: nat): nat {
    if r == 0 then 0 else 2 * Low(x / 2, r - 1) + x % 2
  }

  lemma {:induction false} LowIsMod(x: nat, r: nat)
    ensures Low(x, r) == x % Pow2(r)
  {
    if r > 0 {
      LowIsMod(x / 2, r - 1);
      ModByProduct(x, 2, Pow2(r - 1));
    }
  }

  // Masking with r ones keeps the low r bits.
  lemma {:induction false} AndLow(x: nat, r: nat, n: nat)
    requires r <= n
    ensures And(x, Pow2(r) - 1, n) == Low(x, r)
  {
    if r == 0 {
      AndZero(x, n);
    } else {
      AndLow(x / 2, r - 1, n - 1);
      assert (Pow2(r) - 1) / 2 == Pow2(r - 1) - 1;
    }
  }

  lemma AndLowMask(x: nat, r: nat, n: nat)
    requires r <= n
    ensures And(x, Pow2(r) - 1, n) == x % Pow2(r)
  {
    AndLow(x, r, n);
    LowIsMod(x, r);
  }

  lemma {:induction false} AndZero(x: nat, n: nat)
    ensures And(x, 0, n) == 0
  {
    if n > 0 { AndZero(x / 2, n - 1); }
  }

  lemma {:induction false} AndNotZero(x: nat, n: nat)
    requires x < Pow2(n)
    ensures AndNot(x, 0, n) == x
  {
    if n > 0 { AndNotZero(x / 2, n - 1); }
  }

  // Clearing r ones takes the low r bits away.
  lemma {:induction false} AndNotLow(x: nat, r: nat, n: nat)
    requires r <= n && x < Pow2(n)
    ensures AndNot(x, Pow2(r) - 1, n) == x - Low(x, r)
  {
    if r == 0 {
      AndNotZero(x, n);
    } else {
      AndNotLow(x / 2, r - 1, n - 1);
      assert (Pow2(r) - 1) / 2 == Pow2(r - 1) - 1;
    }
  }

  lemma AndNotLowMask(x: nat, r: nat, n: nat)
    requires r <= n && x < Pow2(n)
    ensures AndNot(x, Pow2(r) - 1, n) == x - x % Pow2(r)
  {
    AndNotLow(x, r, n);
    LowIsMod(x, r);
  }

  // Keeping what a mask covers is clearing what it does not.
  lemma {:induction false} AndIsAndNot(x: nat, m: nat, n: nat)
    requires m < Pow2(n)
    ensures And(x, Pow2(n) - 1 - m, n) == AndNot(x, m, n)
  {
    if n > 0 {
      HalfComplement(Pow2(n - 1), m);
      AndIsAndNot(x / 2, m / 2, n - 1);
    }
  }

  lemma HalfComplement(p: nat, m: nat)
    requires m < 2 * p
    ensures (2 * p - 1 - m) / 2 == p - 1 - m / 2 && (2 * p - 1 - m) % 2 == 1 - m % 2
  {}

  // Bits that do not overlap add up.
  lemma {:induction false} OrLow(x: nat, y: nat, r: nat, n: nat)
    requires r <= n && x < Pow2(r) && y < Pow2(n) && Low(y, r) == 0
    ensures Or(x, y, n) == x + y
  {
    if n > 0 {
      OrLow(x / 2, y / 2, if r == 0 then 0 else r - 1, n - 1);
    }
  }

  lemma OrDisjoint(x: nat, y: nat, r: nat, n: nat)
    requires r <= n && x < Pow2(r) && y < Pow2(n) && y % Pow2(r) == 0
    ensures Or(x, y, n) == x + y
  {
    LowIsMod(y, r);
    OrLow(x, y, r, n);
  }
}
