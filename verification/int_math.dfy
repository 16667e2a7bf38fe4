/**
 Integer helpers shared by the quadtree, the mip-map layout and the fills:
 powers of two (the sources write them as shifts `1<<n`), the
 truncating division C++ applies to `int`, and a handful of facts about
 division by a power of two that the bounds proofs lean on.
 */
module IntMath {

  /** `1 << n` on non-negative shift counts. */
  function Pow2(n: nat): (r: nat)
    ensures r >= 1
  {
    if n == 0 then 1 else 2 * Pow2(n - 1)
  }

  /** `(1<<n)*(1<<n)`, the number of cells of an n-th mip level. */
  function Pow4(n: nat): (r: nat)
    ensures r >= 1
  {
    if n == 0 then 1 else 4 * Pow4(n - 1)
  }

  /** C++ `/ 2` on `int`: rounds toward zero, unlike Dafny's Euclidean `/`. */
  function TruncHalf(v: int): (r: int)
    ensures v >= 0 ==> r == v / 2
    ensures v < 0 ==> r == -((-v) / 2)
  {
    if v >= 0 then v / 2 else -((-v) / 2)
  }

  lemma {:induction false} Pow2Add(a: nat, b: nat)
    ensures Pow2(a + b) == Pow2(a) * Pow2(b)
    decreases a
  {
    if a > 0 {
      Pow2Add(a - 1, b);
      assert Pow2(a + b) == 2 * Pow2(a - 1 + b);
    }
  }

  lemma {:induction false} Pow4IsSquare(n: nat)
    ensures Pow4(n) == Pow2(n) * Pow2(n)
  {
    if n > 0 {
      Pow4IsSquare(n - 1);
      var p := Pow2(n - 1);
      assert Pow2(n) * Pow2(n) == (2 * p) * (2 * p);
      assert (2 * p) * (2 * p) == 4 * (p * p);
    }
  }

  /** Multiplying both sides of `a <= b` by a non-negative factor. */
  lemma MulLe(a: int, b: int, d: int)
    requires a <= b && d >= 0
    ensures a * d <= b * d
  {
    var k := b - a;
    assert b * d == a * d + k * d;
    assert k * d >= 0;
  }

  lemma MulSucc(q: int, p: int)
    ensures (q + 1) * p == q * p + p
  {
  }

  lemma MulAssoc(a: int, b: int, c: int)
    ensures (a * b) * c == a * (b * c)
  {
  }

  /** Distributing a factor over `q == 2*q2 + b`. */
  lemma MulSplit(q: int, q2: int, b: int, d: int)
    requires q == 2 * q2 + b
    ensures q * d == q2 * (2 * d) + b * d
  {
  }

  /** With `q == 2*q2 + q%2`, scaling by `d` splits off the low bit of `q`. */
  lemma OriginStep(q: int, q2: int, d: int)
    requires q == 2 * q2 + q % 2
    ensures q * d == q2 * (2 * d) + (q % 2) * d
    ensures q % 2 == 0 ==> q * d == q2 * (2 * d)
    ensures q % 2 == 1 ==> q * d == q2 * (2 * d) + d
  {
    MulSplit(q, q2, q % 2, d);
  }

  /** Quotient and remainder put the dividend back together. */
  lemma DivModSplit(n: int, d: int)
    requires d > 0
    ensures (n / d) * d + n % d == n
  {
  }

  /** Division is determined by any quotient/remainder pair. */
  lemma DivUnique(x: int, d: int, q: int, r: int)
    requires d > 0 && 0 <= r < d && x == q * d + r
    ensures x / d == q && x % d == r
  {
    var q' := x / d;
    var r' := x % d;
    assert x == q' * d + r';
    if q' > q {
      MulLe(q + 1, q', d);
      assert false;
    } else if q' < q {
      MulLe(q' + 1, q, d);
      assert false;
    }
  }

  /** Dividing by `2^(s+1)` is dividing by `2^s` and then by 2. */
  lemma HalveQuotient(x: nat, s: nat)
    ensures x / Pow2(s + 1) == (x / Pow2(s)) / 2
    ensures x / Pow2(s) == 2 * (x / Pow2(s + 1)) + (x / Pow2(s)) % 2
  {
    var p := Pow2(s);
    var q := x / p;
    var r := x % p;
    assert Pow2(s + 1) == 2 * p;
    assert x == q * p + r;
    assert q == 2 * (q / 2) + q % 2;
    assert q * p == (q / 2) * (2 * p) + (q % 2) * p;
    DivUnique(x, 2 * p, q / 2, (q % 2) * p + r);
  }

  /** A quotient of a number below `2^n` by `2^s` stays below `2^(n-s)`. */
  lemma QuotientBelow(x: nat, n: nat, s: nat)
    requires s <= n && x < Pow2(n)
    ensures x / Pow2(s) < Pow2(n - s)
    ensures (x / Pow2(s) + 1) * Pow2(s) <= Pow2(n)
  {
    var p := Pow2(s);
    var q := x / p;
    var m := Pow2(n - s);
    Pow2Add(n - s, s);
    assert Pow2(n) == m * p;
    assert q * p + x % p == x;
    if q >= m {
      MulLe(m, q, p);
      assert false;
    }
    MulLe(q + 1, m, p);
  }

  /** Block `q` of size `p * d` starts at a multiple of the size and, when `(q + 1) * p <= m`, ends by `m * d`. */
  lemma BlockWithin(q: nat, p: nat, d: nat, m: nat)
    requires p > 0 && d > 0 && (q + 1) * p <= m
    ensures (q * (p * d)) % (p * d) == 0
    ensures q * (p * d) + p * d <= m * d
  {
    MulAssoc(q, p, d);
    MulSucc(q, p);
    MulLe((q + 1) * p, m, d);
    assert (q * p + p) * d == (q * p) * d + p * d;
    DivUnique(q * (p * d), p * d, q, 0);
  }

  /** Scaling by `d` keeps `x` inside the block of `p` numbers its quotient names. */
  lemma ScaledQuotient(x: nat, p: nat, d: nat)
    requires p > 0 && d > 0
    ensures (x / p) * (p * d) <= x * d < (x / p) * (p * d) + p * d
  {
    var q := x / p;
    assert q * p <= x < q * p + p;
    MulLe(q * p, x, d);
    MulLe(x + 1, q * p + p, d);
    assert (x + 1) * d == x * d + d;
    assert (q * p + p) * d == (q * p) * d + p * d;
    MulAssoc(q, p, d);
  }

  /** `a*d + b` with `a < m` and `b < d` lies below `m*d`. */
  lemma RowMajorBelow(a: nat, b: nat, d: nat, m: nat)
    requires a < m && b < d
    ensures a * d + b < m * d
  {
    MulLe(a, m - 1, d);
    assert (m - 1) * d == m * d - d;
  }
}
