/** Facts about products, quotients and remainders that several modules share. */
module Arithmetic {

  /** The largest uintmax_t. */
  const MAX64: nat := 0xffff_ffff_ffff_ffff

  const TWO64: nat := 0x1_0000_0000_0000_0000

  /** x - 1 on uintmax_t. */
  function Pred64(x: nat): nat {
    if x == 0 then MAX64 else x - 1
  }

  lemma ModUnique(n: int, m: int, d: int, r: int)
    requires 0 <= r < m && n == d * m + r
    ensures n % m == r
  {
    var k := n / m - d;
    assert k * m == r - n % m by {
      assert n == (n / m) * m + n % m;
      assert (n / m - d) * m == (n / m) * m - d * m;
    }
    assert k == 0;
  }

  lemma ModSmall(x: nat, m: nat)
    requires x < m
    ensures x % m == x
  {
  }

  lemma ProductMono(j: nat, k: nat, a: nat)
    requires j <= k
    ensures j * a <= k * a
  {
  }

  lemma ProductNonNegative(j: nat, a: nat)
    ensures j * a >= 0
  {
  }

  lemma MultipleMod(k: int, a: nat)
    requires a > 0
    ensures (k * a) % a == 0
  {
    ModUnique(k * a, a, k, 0);
  }

  lemma MultipleBelow(j: int, k: int, a: nat)
    requires j * a < k * a
    ensures j < k
  {
  }

  /** s units of l start a unit of g * l exactly when s is a multiple of g. */
  lemma OnBoundary(s: nat, l: nat, g: nat)
    requires l > 0 && g > 0
    ensures g * l > 0 && (s * l % (g * l) == 0 <==> s % g == 0)
  {
    var q, r := s / g, s % g;
    assert s * l == q * (g * l) + r * l by {
      assert s == q * g + r;
      assert (q * g + r) * l == q * g * l + r * l;
      assert q * g * l == q * (g * l);
    }
    ProductMono(r, g - 1, l);
    assert (g - 1) * l == g * l - l;
    ModUnique(s * l, g * l, q, r * l);
    ProductZero(r, l);
  }

  lemma ProductZero(r: nat, l: nat)
    requires l > 0
    ensures r * l == 0 <==> r == 0
  {
  }

  lemma QuotientPositive(n: nat, m: nat)
    requires 0 < m <= n
    ensures n / m >= 1
  {
  }
}
