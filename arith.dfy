/** Powers of two and ten, and the facts about Euclidean division and
    remainder that the word-level and decimal models rely on. */
module Arith {

  function Pow2(n: nat): (r: nat)
    ensures r >= 1
  {
    if n == 0 then 1 else 2 * Pow2(n - 1)
  }

  function Pow10(n: nat): (r: nat)
    ensures r >= 1
  {
    if n == 0 then 1 else 10 * Pow10(n - 1)
  }

  lemma {:induction false} Pow2Add(a: nat, b: nat)
    ensures Pow2(a + b) == Pow2(a) * Pow2(b)
  {
    if a > 0 {
      Pow2Add(a - 1, b);
      assert Pow2(a + b) == 2 * Pow2(a - 1 + b);
    }
  }

  lemma {:induction false} Pow2Le(a: nat, b: nat)
    requires a <= b
    ensures Pow2(a) <= Pow2(b)
  {
    if a < b {
      Pow2Le(a, b - 1);
    }
  }

  /** Squaring a known power of two. */
  lemma {:induction false} Pow2Square(k: nat, v: nat)
    requires Pow2(k) == v
    ensures Pow2(k + k) == v * v
  {
    Pow2Add(k, k);
  }

  lemma {:induction false} Pow2Lt(a: nat, b: nat)
    requires a < b
    ensures Pow2(a) < Pow2(b)
  {
    Pow2Le(a, b - 1);
  }

  /** 2^(3m) < 10^m for m >= 1: eight is less than ten. */
  lemma {:induction false} Pow2BelowPow10(m: nat)
    requires m >= 1
    ensures Pow2(3 * m) < Pow10(m)
  {
    Pow2Add(3 * (m - 1), 3);
    assert Pow2(3) == 8;
    if m > 1 {
      Pow2BelowPow10(m - 1);
    }
    assert Pow2(3 * m) == Pow2(3 * (m - 1)) * 8;
  }

  /** The quotient and remainder are determined by any decomposition
      x == q * m + r with 0 <= r < m. */
  lemma {:induction false} DivModUnique(x: int, m: int, q: int, r: int)
    requires m > 0 && 0 <= r < m && x == q * m + r
    ensures x / m == q && x % m == r
  {
    var q0, r0 := x / m, x % m;
    assert (q - q0) * m == r0 - r;
    if q > q0 {
      MulAtLeast(q - q0, m);
    } else if q < q0 {
      MulAtLeast(q0 - q, m);
    }
  }

  lemma {:induction false} MulAtLeast(k: int, m: int)
    requires k >= 1 && m > 0
    ensures k * m >= m
  {
  }

  lemma {:induction false} ModAddMod(x: int, y: int, m: int)
    requires m > 0
    ensures (x % m + y) % m == (x + y) % m
  {
    var q, q2 := x / m, (x % m + y) / m;
    DivModUnique(x + y, m, q + q2, (x % m + y) % m);
  }

  lemma {:induction false} ModMulMod(x: int, y: int, m: int)
    requires m > 0
    ensures ((x % m) * y) % m == (x * y) % m
  {
    var q := x / m;
    assert x * y == (x % m) * y + (q * y) * m;
    var q2 := ((x % m) * y) / m;
    DivModUnique(x * y, m, q * y + q2, ((x % m) * y) % m);
  }

  lemma {:induction false} ModMultipleAdd(x: int, k: int, m: int)
    requires m > 0
    ensures (x + k * m) % m == x % m
  {
    DivModUnique(x + k * m, m, x / m + k, x % m);
  }

  lemma {:induction false} DivDiv(x: int, a: int, b: int)
    requires x >= 0 && a > 0 && b > 0
    ensures x / a / b == x / (a * b)
  {
    var q1, r1 := x / a, x % a;
    var q2, r2 := q1 / b, q1 % b;
    DivDivAlgebra(x, a, b, q1, r1, q2, r2);
    DivModUnique(x, a * b, q2, r2 * a + r1);
  }

  /** x == q1 a + r1 and q1 == q2 b + r2 combine into x == q2 (a b) + (r2 a + r1). */
  lemma {:induction false} DivDivAlgebra(x: int, a: int, b: int, q1: int, r1: int, q2: int, r2: int)
    requires x == q1 * a + r1 && q1 == q2 * b + r2 && 0 <= r1 < a && 0 <= r2 < b
    ensures x == q2 * (a * b) + (r2 * a + r1) && 0 <= r2 * a + r1 < a * b
  {
    assert q1 * a == q2 * (a * b) + r2 * a;
    MulLe(r2, b - 1, a);
    assert (b - 1) * a == a * b - a;
  }

  /** Reducing modulo a multiple of m first does not change the remainder modulo m. */
  lemma {:induction false} ModOfMod(x: int, m: int, c: int)
    requires m > 0 && c > 0
    ensures (x % (m * c)) % m == x % m
  {
    var q := x / (m * c);
    assert x == x % (m * c) + (q * c) * m;
    ModMultipleAdd(x % (m * c), q * c, m);
  }

  lemma {:induction false} MulDivExact(q: int, d: int)
    requires d > 0
    ensures (q * d) / d == q && (q * d) % d == 0
  {
    DivModUnique(q * d, d, q, 0);
  }

  /** The remainder modulo m*c splits into a remainder modulo m and a
      remainder of the quotient modulo c. */
  lemma {:induction false} ModSplit(x: int, m: int, c: int)
    requires x >= 0 && m > 0 && c > 0
    ensures x % (m * c) == x % m + m * ((x / m) % c)
  {
    var q1, r1 := x / m, x % m;
    var q2, r2 := q1 / c, q1 % c;
    DivDivAlgebra(x, m, c, q1, r1, q2, r2);
    DivModUnique(x, m * c, q2, r2 * m + r1);
    assert r2 * m == m * r2;
  }

  /** Scaling by p moves the remainder modulo q to a remainder modulo q * p. */
  lemma {:induction false} ScaledMod(w: int, p: int, q: int)
    requires w >= 0 && p > 0 && q > 0
    ensures (w * p) % (q * p) == (w % q) * p
    ensures (w * p) / (q * p) == w / q
  {
    var hi, lo := w / q, w % q;
    assert w * p == hi * (q * p) + lo * p by {
      assert w == hi * q + lo;
      assert (hi * q + lo) * p == hi * q * p + lo * p;
    }
    assert lo * p < q * p by {
      assert lo <= q - 1;
      assert lo * p <= (q - 1) * p;
    }
    DivModUnique(w * p, q * p, hi, lo * p);
  }

  /** A value below q placed under a value below p: the two fields do not
      overlap, the whole is below p * q and each field can be read back. */
  lemma {:induction false} JoinFields(y: int, x: int, p: int, q: int)
    requires 0 <= x < q && 0 <= y < p
    ensures y * q + x < p * q
    ensures (y * q + x) % q == x && (y * q + x) / q == y
  {
    assert y * q <= (p - 1) * q;
    DivModUnique(y * q + x, q, y, x);
  }

  lemma {:induction false} DivLe(a: int, b: int, d: int)
    requires 0 <= a <= b && d > 0
    ensures a / d <= b / d
  {
    var qa, qb := a / d, b / d;
    assert qa * d <= a && b < (qb + 1) * d;
    if qa > qb {
      MulLe(qb + 1, qa, d);
    }
  }

  /** The quotient brackets x between two multiples of d and is at most x. */
  lemma {:induction false} DivBounds(x: int, d: int)
    requires x >= 0 && d > 0
    ensures (x / d) * d <= x < (x / d + 1) * d
    ensures 0 <= x / d <= x
  {
    var q, r := x / d, x % d;
    assert x == q * d + r;
    assert (q + 1) * d == q * d + d;
    if q > 0 {
      MulLe(1, d, q);
    }
  }

  lemma {:induction false} MulLe(x: int, y: int, d: int)
    requires x <= y && d > 0
    ensures x * d <= y * d
  {
  }

  /** Bit k of x, for x = y mod 2h: the remainder modulo 2h divided by h. */
  lemma {:induction false} BitOfMod(x: int, h: int)
    requires x >= 0 && h > 0
    ensures (x % (h * 2)) / h == (x / h) % 2
  {
    ModSplit(x, h, 2);
    DivModUnique(x % (h * 2), h, (x / h) % 2, x % h);
  }

  /** Dividing a positive number by at least two makes it smaller. */
  lemma {:induction false} DivShrinks(x: int, d: int)
    requires x > 0 && d >= 2
    ensures x / d < x
  {
    DivBounds(x, d);
    if x / d >= x {
      MulLe(2, d, x / d);
    }
  }

  /** Reducing one factor of a product modulo m does not change the sum
      modulo m. */
  lemma {:induction false} ReduceFactor(r: int, a: int, q: int, m: int)
    requires m > 0
    ensures (r + (a % m) * q) % m == (r + a * q) % m
  {
    ModMulMod(a, q, m);
    ModAddMod((a % m) * q, r, m);
    ModAddMod(a * q, r, m);
  }

  /** Bit b of v * 2^i, reduced modulo 2^B with b < B, is bit b - i of v. */
  lemma {:induction false} BitOfShifted(v: nat, i: nat, b: nat, B: nat)
    requires i <= b < B
    ensures (((v * Pow2(i)) % Pow2(B)) / Pow2(b)) % 2 == (v / Pow2(b - i)) % 2
  {
    var x := v * Pow2(i);
    Pow2Add(b + 1, B - b - 1);
    ModOfMod(x, Pow2(b + 1), Pow2(B - b - 1));
    assert Pow2(b + 1) == Pow2(b) * 2;
    BitOfMod(x % Pow2(B), Pow2(b));
    BitOfMod(x, Pow2(b));
    Pow2Add(b - i, i);
    ScaledMod(v, Pow2(i), Pow2(b - i));
  }

  /** The bits of v from bit m up are twice those from bit m + 1 up, plus bit m. */
  lemma {:induction false} HalvingStep(v: nat, m: nat)
    ensures v / Pow2(m) == 2 * (v / Pow2(m + 1)) + (v / Pow2(m)) % 2
  {
    DivDiv(v, Pow2(m), 2);
    assert Pow2(m + 1) == Pow2(m) * 2;
  }
}
