// Division, modulus and powers of two, as the addressing arithmetic needs them.

module Arithmetic {

  function Pow2(n: nat): (p: nat)
    ensures p > 0
  {
    if n == 0 then 1 else 2 * Pow2(n - 1)
  }

  // Division by d > 0 is the unique way to write a number as q * d + r with r < d.
  lemma DivModUnique(q: int, d: int, r: int)
    requires 0 <= r < d
    ensures (q * d + r) / d == q && (q * d + r) % d == r
  {
    var a := q * d + r;
    assert a == (a / d) * d + a % d;
    if a / d > q {
      MulMonotone(q + 1, a / d, d);
    } else if a / d < q {
      MulMonotone(a / d + 1, q, d);
    }
  }

  lemma MulMonotone(x: int, y: int, k: int)
    requires x <= y && 0 <= k
    ensures x * k <= y * k
  {
    assert 0 <= (y - x) * k;
  }

  lemma Distribute(x: int, y: int, z: int)
    ensures x * (y + z) == x * y + x * z && (y + z) * x == y * x + z * x
  {
  }

  lemma MulAssoc(x: int, y: int, z: int)
    ensures x * (y * z) == (x * y) * z
  {
  }

  // Congruent numbers differ by a multiple of the modulus.
  lemma ModOffset(x: int, y: int, m: int) returns (k: int)
    requires m > 0 && x % m == y % m
    ensures x == y + k * m
  {
    k := x / m - y / m;
    assert x == (x / m) * m + x % m;
    assert y == (y / m) * m + y % m;
  }

  lemma ModAddMultiple(x: int, k: int, m: int)
    requires m > 0
    ensures (x + k * m) % m == x % m && (x + k * m) / m == x / m + k
  {
    assert x == (x / m) * m + x % m;
    assert x + k * m == (x / m + k) * m + x % m;
    DivModUnique(x / m + k, m, x % m);
  }

  // Reducing an operand first does not change a sum or a product modulo m.
  lemma ModAddReduceLeft(x: int, y: int, m: int)
    requires m > 0
    ensures (x % m + y) % m == (x + y) % m
  {
    assert x % m + y + (x / m) * m == x + y;
    ModAddMultiple(x % m + y, x / m, m);
  }

  lemma ModAddReduce(x: int, y: int, m: int)
    requires m > 0
    ensures (x % m + y % m) % m == (x + y) % m
  {
    ModAddReduceLeft(x, y % m, m);
    ModAddReduceLeft(y, x, m);
    assert x + y % m == y % m + x;
  }

  lemma ModMulReduce(x: int, y: int, m: int)
    requires m > 0
    ensures (x * (y % m)) % m == (x * y) % m
  {
    var q, r := y / m, y % m;
    assert y == q * m + r;
    Distribute(x, q * m, r);
    MulAssoc(x, q, m);
    assert x * y == x * r + (x * q) * m;
    ModAddMultiple(x * r, x * q, m);
  }

  // A congruence modulo a multiple of m is a congruence modulo m.
  lemma ModDivides(x: int, y: int, k: nat, m: nat)
    requires k > 0 && m > 0 && k * m > 0 && x % (k * m) == y % (k * m)
    ensures x % m == y % m
  {
    var d := ModOffset(x, y, k * m);
    MulAssoc(d, k, m);
    ModAddMultiple(y, d * k, m);
  }

  lemma Pow2Double(n: nat)
    ensures Pow2(n + 1) == 2 * Pow2(n)
  {
  }

  lemma {:induction false} Pow2Add(a: nat, b: nat)
    ensures Pow2(a + b) == Pow2(a) * Pow2(b)
  {
    if a > 0 {
      Pow2Add(a - 1, b);
      MulAssoc(2, Pow2(a - 1), Pow2(b));
      assert Pow2(a + b) == 2 * Pow2(a - 1 + b);
    }
  }

  lemma Pow2Values()
    ensures Pow2(12) == 0x1000 && Pow2(64) == 0x1_0000_0000_0000_0000
  {
    assert Pow2(4) == 16 && Pow2(8) == 256 && Pow2(12) == 4096;
    Pow2Add(4, 12);
    assert Pow2(16) == 0x1_0000;
    Pow2Add(16, 16);
    Pow2Add(32, 32);
  }

  // q whole groups of d and r more.
  function Compose(q: nat, d: nat, r: nat): nat { q * d + r }

  lemma ComposeDigits(q: nat, d: nat, r: nat)
    requires r < d
    ensures Compose(q, d, r) / d == q && Compose(q, d, r) % d == r
  {
    DivModUnique(q, d, r);
  }

  lemma DigitsCompose(x: nat, d: nat)
    requires d > 0
    ensures Compose(x / d, d, x % d) == x
  {
  }

  lemma QuotientBelow(x: nat, z: nat, k: nat)
    requires z > 0 && x < k * z
    ensures x / z < k
  {
    assert x == (x / z) * z + x % z;
    if x / z >= k {
      MulMonotone(k, x / z, z);
    }
  }

  lemma QuotientAtLeast(x: nat, z: nat, n: nat)
    requires z > 0 && n * z <= x
    ensures n <= x / z
  {
    if x / z < n {
      MulMonotone(x / z + 1, n, z);
      Distribute(z, x / z, 1);
    }
  }

  // A number below q * d, times z, plus less than z, is below q * d * z: an item's bytes are inside
  // its group's.
  lemma ItemInGroup(x: nat, n: nat, z: nat, t: nat)
    requires x < n && t < z
    ensures x <= x * z + t < n * z
  {
    MulMonotone(x + 1, n, z);
    Distribute(z, x, 1);
    MulMonotone(1, z, x);
  }
}
