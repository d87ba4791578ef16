/** The three Fibonacci algorithms of fibdrv.c (lines 33-135), built on the
    bn.h numbers, and the read handler's cross-check of their results.  The
    reference definition is the recurrence F(0) = 0, F(1) = 1,
    F(n) = F(n - 1) + F(n - 2). */
module Fibonacci {
  import opened Arith
  import opened Multiword
  import opened Decimal
  import opened BigNum

  function Fib(n: nat): nat
  {
    if n < 2 then n else Fib(n - 1) + Fib(n - 2)
  }

  /** The addition law F(m + n + 1) = F(m + 1) F(n + 1) + F(m) F(n), from
      which both the matrix and the doubling identities follow. */
  lemma {:induction false} FibAdd(m: nat, n: nat)
    ensures Fib(m + n + 1) == Fib(m + 1) * Fib(n + 1) + Fib(m) * Fib(n)
  {
    if m >= 2 {
      var a: nat := m - 2;
      var f1: int, f0: int, g1: int, g0: int := Fib(a + 3), Fib(a + 2), Fib(a + 1), Fib(a);
      var x: int, y: int := Fib(n + 1), Fib(n);
      var s1: int, s0: int := Fib(a + n + 2), Fib(a + n + 1);
      assert s1 == f0 * x + g1 * y by {
        FibAdd(a + 1, n);
      }
      assert s0 == g1 * x + g0 * y by {
        FibAdd(a, n);
      }
      assert Fib(m + n + 1) == s1 + s0 && Fib(m + 1) == f1 && Fib(m) == f0 by {
        assert m + n + 1 == a + n + 3 && m + 1 == a + 3 && m == a + 2;
      }
      FibAddAlgebra(f1, f0, g1, g0, x, y, s1, s0);
    } else if m == 1 {
      assert Fib(2) == 1 && Fib(n + 2) == Fib(n + 1) + Fib(n);
    } else {
      assert Fib(1) == 1;
    }
  }

  lemma {:induction false} FibAddAlgebra(f1: int, f0: int, g1: int, g0: int, x: int, y: int, s1: int, s0: int)
    requires f1 == f0 + g1 && f0 == g1 + g0
    requires s1 == f0 * x + g1 * y && s0 == g1 * x + g0 * y
    ensures s1 + s0 == f1 * x + f0 * y
  {
  }

  /** F is nondecreasing. */
  lemma {:induction false} FibMono(a: nat, b: nat)
    requires a <= b
    ensures Fib(a) <= Fib(b)
    decreases b
  {
    if a < b {
      FibMono(a, b - 1);
    }
  }

  /** F(n) >= 1 for n >= 1. */
  lemma {:induction false} FibPos(n: nat)
    requires n >= 1
    ensures Fib(n) >= 1
  {
    FibMono(1, n);
  }

  /** F(n) < 2^n: n bits hold F(n). */
  lemma {:induction false} FibBelowPow2(n: nat)
    ensures Fib(n) < Pow2(n)
  {
    if n >= 2 {
      FibBelowPow2(n - 1);
      FibBelowPow2(n - 2);
      assert Pow2(n) == 2 * Pow2(n - 1) && Pow2(n - 1) == 2 * Pow2(n - 2);
    }
  }

  /** The doubling identities of fast doubling: F(2j) = F(j) (2 F(j + 1) - F(j))
      with 2 F(j + 1) >= F(j), and F(2j + 1) = F(j + 1)^2 + F(j)^2. */
  lemma {:induction false} FibDouble(j: nat)
    ensures 2 * Fib(j + 1) >= Fib(j)
    ensures Fib(2 * j) == Fib(j) * (2 * Fib(j + 1) - Fib(j))
    ensures Fib(2 * j + 1) == Fib(j + 1) * Fib(j + 1) + Fib(j) * Fib(j)
  {
    FibMono(j, j + 1);
    FibAdd(j, j);
    if j >= 1 {
      FibAdd(j - 1, j);
      assert Fib(j + 1) == Fib(j) + Fib(j - 1);
      FibDoubleAlgebra(Fib(2 * j), Fib(j + 1), Fib(j), Fib(j - 1));
    }
  }

  lemma {:induction false} FibDoubleAlgebra(e: int, f1: int, f0: int, g: int)
    requires e == f0 * f1 + g * f0 && f1 == f0 + g
    ensures e == f0 * (2 * f1 - f0)
  {
  }

  /** Sums reduced modulo w add up like the numbers they reduce. */
  lemma {:induction false} ModSum(x: nat, y: nat, w: nat)
    requires w > 0
    ensures (x % w + y % w) % w == (x + y) % w
  {
    ModAddMod(x, y % w, w);
    ModAddMod(y, x, w);
  }

  /** One step of fib_sequence on residues: F(i - 2) and F(i - 1) reduced
      modulo the width w of a number add up, reduced again, to F(i)
      reduced. */
  lemma {:induction false} SequenceStep(i: nat, w: nat, va: nat, vb: nat, vc: nat)
    requires i >= 2 && w > 0 && va == Fib(i - 2) % w && vb == Fib(i - 1) % w
    requires vc == (va + vb) % w
    ensures vc == Fib(i) % w
  {
    ModSum(Fib(i - 2), Fib(i - 1), w);
  }

  /** 0 and 1 are their own residues modulo the width of a number of n >= 1
      words. */
  lemma {:induction false} SmallResidues(n: nat, w: nat)
    requires n >= 1 && w == WPow(n)
    ensures 0 % w == 0 && 1 % w == 1
  {
    WPowLe(1, n);
    DivModUnique(0, w, 0, 0);
    DivModUnique(1, w, 0, 1);
  }

  /** One pass of fib_sequence's loop (fibdrv.c:46-49): c = a + b, then two
      swaps rotate (a, b, c) to (b, c, a).  The sum wraps modulo
      2^(64 BN_LENGTH); c, which holds no more words than b, is overwritten. */
  method SequencePass(a: Bn, b: Bn, c: Bn)
    requires a.Valid() && b.Valid() && c.Valid() && c.size <= b.size
    requires a != b && b != c && a != c && a.val != b.val && b.val != c.val && a.val != c.val
    modifies a, a.val, b, b.val, c, c.val
    ensures a.Valid() && b.Valid() && c.Valid() && c.size <= b.size
    ensures a.Value() == old(b.Value()) && b.Value() == (old(a.Value()) + old(b.Value())) % WPow(N)
  {
    Add(a, b, c);
    Swap(a, b);
    Swap(b, c);
  }

  /** fib_sequence (fibdrv.c:33-53): F(k) by k - 1 additions.  k = 0 returns
      the zeroed a at once; otherwise b starts at 1 and each pass computes
      c = a + b and rotates (a, b, c) to (b, c, a) with two swaps.  A negative
      k skips the loop and returns 1.  The sum wraps modulo 2^(64 BN_LENGTH). */
  method FibSequence(k: int) returns (r: Bn)
    ensures r.Valid()
    ensures r.Value() == if k < 0 then 1 else Fib(k) % WPow(N)
  {
    var a := new Bn();
    var b := new Bn();
    SmallResidues(N, WPow(N));
    if k == 0 {
      return a;
    }
    SetWithPos(b, 1, 0);
    assert a.Value() == 0 && b.Value() == 1;
    var c := new Bn();
    var i := 2;
    while i <= k
      invariant i == 2 || 2 < i <= k + 1
      invariant a != b && b != c && a != c && a.val != b.val && b.val != c.val && a.val != c.val
      invariant a.Valid() && b.Valid() && c.Valid() && c.size <= b.size
      invariant a.Value() == Fib(i - 2) % WPow(N) && b.Value() == Fib(i - 1) % WPow(N)
    {
      ghost var va, vb := a.Value(), b.Value();
      SequencePass(a, b, c);
      SequenceStep(i, WPow(N), va, vb, b.Value());
      i := i + 1;
    }
    return b;
  }

  /** Two numbers that are different objects with different word arrays, as
      two `bn_t` variables are. */
  ghost predicate Apart(x: Bn, y: Bn)
  {
    x != y && x.val != y.val
  }

  /** x is valid, holds v and its size is exact. */
  ghost predicate Holds(x: Bn, v: nat)
    reads x, x.val
  {
    x.Valid() && x.Exact() && x.Value() == v
  }

  /** An exact number below 2^(64 m) uses at most m words. */
  lemma {:induction false} ExactSizeBound(x: Bn, m: nat)
    requires x.Valid() && x.Exact() && x.Value() < WPow(m)
    ensures x.size <= m
  {
    if x.size > m {
      ExactIff(x);
      WPowLe(m, x.size - 1);
    }
  }

  /** Two valid numbers sum to less than the weight of the word above the
      words bn_add adds. */
  lemma {:induction false} SumBelow(x: Bn, y: Bn)
    requires x.Valid() && y.Valid()
    ensures x.Value() + y.Value() < WPow(AddTop(x.size, y.size) + 1)
  {
    ValueBelowSize(x);
    ValueBelowSize(y);
    var s := AddTop(x.size, y.size);
    WPowLe(x.size, s);
    WPowLe(y.size, s);
    assert WPow(s + 1) == 0x1_0000_0000_0000_0000 * WPow(s);
  }

  /** The summands of a sum below w are below w and are their own residues. */
  lemma {:induction false} PartsFit(p1: nat, p2: nat, w: nat)
    requires p1 + p2 < w
    ensures p1 % w == p1 && p2 % w == p2 && (p1 + p2) % w == p1 + p2
  {
    DivModUnique(p1, w, 0, p1);
    DivModUnique(p2, w, 0, p2);
    DivModUnique(p1 + p2, w, 0, p1 + p2);
  }

  /** a b as repeated addition.  The matrix entries are stated with Prod so
      that the methods passing them along do not carry nonlinear terms;
      ProdIsMul connects it to `*`. */
  ghost function Prod(a: nat, b: nat): nat
  {
    if b == 0 then 0 else Prod(a, b - 1) + a
  }

  lemma {:induction false} ProdIsMul(a: nat, b: nat)
    ensures Prod(a, b) == a * b
  {
    if b > 0 {
      ProdIsMul(a, b - 1);
    }
  }

  /** s is a b + c d: one entry of a product of 2x2 matrices. */
  ghost predicate DotIs(a: nat, b: nat, c: nat, d: nat, s: nat)
  {
    Prod(a, b) + Prod(c, d) == s
  }

  /** One entry of fibdrv.c's vector and matrix updates: t1 = x1 y1 and
      t2 = x2 y2 by bn_mul into two temporaries, then dst = t1 + t2 by
      bn_add.  With exact first factors and a sum s that fits, dst holds s
      with an exact size.  dst's old value must not exceed s, which keeps its
      old size within the words bn_add writes. */
  method AddProducts(x1: Bn, y1: Bn, x2: Bn, y2: Bn, dst: Bn, ghost s: nat)
    requires x1.Valid() && y1.Valid() && x2.Valid() && y2.Valid() && dst.Valid()
    requires x1.Exact() && x2.Exact() && dst.Exact()
    requires Apart(dst, x1) && Apart(dst, y1) && Apart(dst, x2) && Apart(dst, y2)
    requires DotIs(x1.Value(), y1.Value(), x2.Value(), y2.Value(), s)
    requires s < WPow(N) && dst.Value() <= s
    modifies dst, dst.val
    ensures Holds(dst, s)
  {
    ghost var p1, p2 := Prod(x1.Value(), y1.Value()), Prod(x2.Value(), y2.Value());
    var t1 := ProductOf(x1, y1, p1);
    var t2 := ProductOf(x2, y2, p2);
    SumInto(t1, t2, dst, p1, p2);
  }

  /** `bn_add(&t1, &t2, dst)` for exact t1 and t2 whose sum fits: dst holds
      the sum exactly.  dst's old value must not exceed the sum, which keeps
      its old size within the words bn_add writes. */
  method SumInto(t1: Bn, t2: Bn, dst: Bn, ghost p1: nat, ghost p2: nat)
    requires Holds(t1, p1) && Holds(t2, p2) && Apart(t1, t2) && Apart(dst, t1) && Apart(dst, t2)
    requires dst.Valid() && dst.Exact() && dst.Value() <= p1 + p2 < WPow(N)
    modifies dst, dst.val
    ensures Holds(dst, p1 + p2)
  {
    SumBelow(t1, t2);
    ExactSizeBound(dst, AddTop(t1.size, t2.size) + 1);
    PartsFit(p1, p2, WPow(N));
    Add(t1, t2, dst);
  }

  /** `bn_t t; bn_mul(x, y, &t)` for an exact x and a product p that fits:
      t holds p exactly. */
  method ProductOf(x: Bn, y: Bn, ghost p: nat) returns (t: Bn)
    requires x.Valid() && y.Valid() && x.Exact()
    requires Prod(x.Value(), y.Value()) == p && p < WPow(N)
    ensures fresh(t) && fresh(t.val) && Holds(t, p)
  {
    ProdIsMul(x.Value(), y.Value());
    DivModUnique(p, WPow(N), 0, p);
    t := new Bn();
    Mul(x, y, t);
  }

  /** Two `bn_t` copies taken at once, as an array initialiser such as
      `bn_t t[] = {f[0], f[1]}` takes them. */
  method CopyPair(x: Bn, y: Bn, ghost vx: nat, ghost vy: nat) returns (cx: Bn, cy: Bn)
    requires Holds(x, vx) && Holds(y, vy)
    ensures fresh(cx) && fresh(cx.val) && fresh(cy) && fresh(cy.val) && Apart(cx, cy)
    ensures Holds(cx, vx) && Holds(cy, vy)
  {
    cx := Copy(x);
    cy := Copy(y);
  }

  /** x <= y x for y >= 1. */
  lemma {:induction false} LeScaled(x: nat, y: nat)
    requires y >= 1
    ensures x <= y * x
  {
    MulLe(1, y, x + 1);
  }

  /** The arithmetic behind VecStep: M f for M = [[F(e + 1), F(e)], [F(e),
      F(e - 1)]] and f = (F(j + 1), F(j)) is (F(e + j + 1), F(e + j)), and
      neither entry of f decreases. */
  lemma {:induction false} VecFacts(e: nat, j: nat)
    requires e >= 1
    ensures DotIs(Fib(e + 1), Fib(j + 1), Fib(e), Fib(j), Fib(e + j + 1))
    ensures DotIs(Fib(e), Fib(j + 1), Fib(e - 1), Fib(j), Fib(e + j))
    ensures Fib(j + 1) <= Fib(e + j + 1) && Fib(j) <= Fib(e + j) <= Fib(e + j + 1)
  {
    assert DotIs(Fib(e + 1), Fib(j + 1), Fib(e), Fib(j), Fib(e + j + 1)) by {
      FibAdd(e, j);
      DotOf(Fib(e + 1), Fib(j + 1), Fib(e), Fib(j), Fib(e + j + 1));
    }
    assert DotIs(Fib(e), Fib(j + 1), Fib(e - 1), Fib(j), Fib(e + j)) by {
      var d := e - 1;
      FibAdd(d, j);
      assert Fib(d + j + 1) == Fib(e + j) && Fib(d + 1) == Fib(e);
      DotOf(Fib(d + 1), Fib(j + 1), Fib(d), Fib(j), Fib(d + j + 1));
    }
    FibMono(j + 1, e + j + 1);
    FibMono(j, e + j);
    FibMono(e + j, e + j + 1);
  }

  /** A sum of two products, as DotIs states it. */
  lemma {:induction false} DotOf(a: nat, b: nat, c: nat, d: nat, s: nat)
    requires a * b + c * d == s
    ensures DotIs(a, b, c, d, s)
  {
    ProdIsMul(a, b);
    ProdIsMul(c, d);
  }

  /** The bit step of fib_fast_exp (fibdrv.c:72-81), taken when `bit`, the
      low bit of k, is set: with the symmetric matrix M = [[x, y], [y, z]]
      and the vector f = (u, v), f becomes M f = (x u + y v, y u + z v).
      Copies t of f are taken before either entry is overwritten.  The new
      entries are given as u' and v'; each must fit and be at least the entry
      it replaces.  With the bit clear f is left as it is. */
  method VecStep(bit: bool, m00: Bn, m01: Bn, m10: Bn, m11: Bn, f0: Bn, f1: Bn,
                 ghost x: nat, ghost y: nat, ghost z: nat, ghost u: nat, ghost v: nat,
                 ghost u': nat, ghost v': nat)
    requires Holds(m00, x) && Holds(m01, y) && Holds(m10, y) && Holds(m11, z)
    requires Holds(f0, u) && Holds(f1, v)
    requires bit ==> DotIs(x, u, y, v, u') && DotIs(y, u, z, v, v')
    requires bit ==> u <= u' && v <= v' && u' < WPow(N) && v' < WPow(N)
    requires !bit ==> u' == u && v' == v
    requires Apart(f0, f1)
    requires Apart(m00, f0) && Apart(m01, f0) && Apart(m10, f0) && Apart(m11, f0)
    requires Apart(m00, f1) && Apart(m01, f1) && Apart(m10, f1) && Apart(m11, f1)
    modifies f0, f0.val, f1, f1.val
    ensures Holds(f0, u') && Holds(f1, v')
  {
    if bit {
      // bn_t t[] = {f[0], f[1]}
      var t0, t1 := CopyPair(f0, f1, u, v);
      AddProducts(m00, t0, m01, t1, f0, u');
      AddProducts(m10, t0, m11, t1, f1, v');
    }
  }

  /** The addition law with m + 1 = e and n = e: F(2 e) = F(e) F(e + 1) +
      F(e - 1) F(e). */
  lemma {:induction false} FibEven(e: nat)
    requires e >= 1
    ensures Fib(2 * e) == Fib(e) * Fib(e + 1) + Fib(e - 1) * Fib(e)
  {
    var d := e - 1;
    FibAdd(d, e);
    assert d + e + 1 == 2 * e && d + 1 == e;
  }

  /** The addition law with m + 1 = e and n + 1 = e: F(2 e - 1) = F(e)^2 +
      F(e - 1)^2. */
  lemma {:induction false} FibOddBelow(e: nat)
    requires e >= 1
    ensures Fib(2 * e - 1) == Fib(e) * Fib(e) + Fib(e - 1) * Fib(e - 1)
  {
    var d := e - 1;
    FibAdd(d, d);
    assert d + d + 1 == 2 * e - 1 && d + 1 == e;
  }

  /** The arithmetic behind SquareStep: each entry of M M is the Fibonacci
      number for 2 e, no entry decreases, and all are below F(2 e + 1). */
  lemma {:induction false} SquareFacts(e: nat)
    requires e >= 1
    ensures DotIs(Fib(e + 1), Fib(e + 1), Fib(e), Fib(e), Fib(2 * e + 1))
    ensures DotIs(Fib(e + 1), Fib(e), Fib(e), Fib(e - 1), Fib(2 * e))
    ensures DotIs(Fib(e), Fib(e + 1), Fib(e - 1), Fib(e), Fib(2 * e))
    ensures DotIs(Fib(e), Fib(e), Fib(e - 1), Fib(e - 1), Fib(2 * e - 1))
    ensures Fib(e + 1) <= Fib(2 * e + 1) && Fib(e) <= Fib(2 * e) && Fib(e - 1) <= Fib(2 * e - 1)
    ensures Fib(2 * e - 1) <= Fib(2 * e) <= Fib(2 * e + 1)
  {
    var f1, f0, g := Fib(e + 1), Fib(e), Fib(e - 1);
    assert DotIs(f1, f1, f0, f0, Fib(2 * e + 1)) by {
      FibAdd(e, e);
      assert e + e + 1 == 2 * e + 1;
      DotOf(f1, f1, f0, f0, Fib(2 * e + 1));
    }
    assert DotIs(f0, f1, g, f0, Fib(2 * e)) && DotIs(f1, f0, f0, g, Fib(2 * e)) by {
      FibEven(e);
      DotOf(f0, f1, g, f0, Fib(2 * e));
      DotOf(f1, f0, f0, g, Fib(2 * e));
    }
    assert DotIs(f0, f0, g, g, Fib(2 * e - 1)) by {
      FibOddBelow(e);
      DotOf(f0, f0, g, g, Fib(2 * e - 1));
    }
    FibMono(e + 1, 2 * e + 1);
    FibMono(e, 2 * e);
    FibMono(e - 1, 2 * e - 1);
    FibMono(2 * e - 1, 2 * e);
    FibMono(2 * e, 2 * e + 1);
  }

  /** One row of a 2x2 matrix product: (d0, d1) = (a0 b00 + a1 b10,
      a0 b01 + a1 b11), computed entry by entry as fibdrv.c:87-95 does, with
      the new entries given as s0 and s1. */
  method RowStep(a0: Bn, a1: Bn, b00: Bn, b01: Bn, b10: Bn, b11: Bn, d0: Bn, d1: Bn,
                 ghost va0: nat, ghost va1: nat, ghost vb00: nat, ghost vb01: nat,
                 ghost vb10: nat, ghost vb11: nat, ghost s0: nat, ghost s1: nat)
    requires Holds(a0, va0) && Holds(a1, va1)
    requires Holds(b00, vb00) && Holds(b01, vb01) && Holds(b10, vb10) && Holds(b11, vb11)
    requires d0.Valid() && d0.Exact() && d1.Valid() && d1.Exact()
    requires DotIs(va0, vb00, va1, vb10, s0) && DotIs(va0, vb01, va1, vb11, s1)
    requires d0.Value() <= s0 < WPow(N) && d1.Value() <= s1 < WPow(N)
    requires Apart(d0, d1)
    requires Apart(d0, a0) && Apart(d0, a1) && Apart(d0, b00) && Apart(d0, b01) && Apart(d0, b10) && Apart(d0, b11)
    requires Apart(d1, a0) && Apart(d1, a1) && Apart(d1, b00) && Apart(d1, b01) && Apart(d1, b10) && Apart(d1, b11)
    modifies d0, d0.val, d1, d1.val
    ensures Holds(d0, s0) && Holds(d1, s1)
  {
    AddProducts(a0, b00, a1, b10, d0, s0);
    AddProducts(a0, b01, a1, b11, d1, s1);
  }

  /** The squaring step of fib_fast_exp (fibdrv.c:83-96): the symmetric
      matrix M = [[x, y], [y, z]] becomes M M = [[x x + y y, x y + y z],
      [y x + z y, y y + z z]] entry by entry, given as x', y', z'.  Copies p of
      all four entries are taken first.  Each new entry must fit and be at
      least the entry it replaces. */
  method SquareStep(m00: Bn, m01: Bn, m10: Bn, m11: Bn,
                    ghost x: nat, ghost y: nat, ghost z: nat,
                    ghost x': nat, ghost y': nat, ghost z': nat)
    requires Holds(m00, x) && Holds(m01, y) && Holds(m10, y) && Holds(m11, z)
    requires DotIs(x, x, y, y, x') && DotIs(x, y, y, z, y') && DotIs(y, x, z, y, y')
    requires DotIs(y, y, z, z, z')
    requires x <= x' && y <= y' && z <= z' && x' < WPow(N) && y' < WPow(N) && z' < WPow(N)
    requires Apart(m00, m01) && Apart(m00, m10) && Apart(m00, m11)
    requires Apart(m01, m10) && Apart(m01, m11) && Apart(m10, m11)
    modifies m00, m00.val, m01, m01.val, m10, m10.val, m11, m11.val
    ensures Holds(m00, x') && Holds(m01, y') && Holds(m10, y') && Holds(m11, z')
  {
    // bn_t p[][2] = {{M[0][0], M[0][1]}, {M[1][0], M[1][1]}}
    var p00, p01 := CopyPair(m00, m01, x, y);
    var p10, p11 := CopyPair(m10, m11, y, z);
    SquareRows(p00, p01, p10, p11, m00, m01, m10, m11, x, y, z, x', y', z');
  }

  /** The two rows of the squaring step, reading the copies p and writing M. */
  method SquareRows(p00: Bn, p01: Bn, p10: Bn, p11: Bn, m00: Bn, m01: Bn, m10: Bn, m11: Bn,
                    ghost x: nat, ghost y: nat, ghost z: nat,
                    ghost x': nat, ghost y': nat, ghost z': nat)
    requires Holds(p00, x) && Holds(p01, y) && Holds(p10, y) && Holds(p11, z)
    requires Holds(m00, x) && Holds(m01, y) && Holds(m10, y) && Holds(m11, z)
    requires DotIs(x, x, y, y, x') && DotIs(x, y, y, z, y') && DotIs(y, x, z, y, y')
    requires DotIs(y, y, z, z, z')
    requires x <= x' && y <= y' && z <= z' && x' < WPow(N) && y' < WPow(N) && z' < WPow(N)
    requires Apart(m00, m01) && Apart(m00, m10) && Apart(m00, m11)
    requires Apart(m01, m10) && Apart(m01, m11) && Apart(m10, m11)
    requires Apart(p00, m00) && Apart(p00, m01) && Apart(p00, m10) && Apart(p00, m11)
    requires Apart(p01, m00) && Apart(p01, m01) && Apart(p01, m10) && Apart(p01, m11)
    requires Apart(p10, m00) && Apart(p10, m01) && Apart(p10, m10) && Apart(p10, m11)
    requires Apart(p11, m00) && Apart(p11, m01) && Apart(p11, m10) && Apart(p11, m11)
    modifies m00, m00.val, m01, m01.val, m10, m10.val, m11, m11.val
    ensures Holds(m00, x') && Holds(m01, y') && Holds(m10, y') && Holds(m11, z')
  {
    RowStep(p00, p01, p00, p01, p10, p11, m00, m01, x, y, x, y, y, z, x', y');
    RowStep(p10, p11, p00, p01, p10, p11, m10, m11, y, z, x, y, y, z, y', z');
  }

  /** Inside fib_fast_exp's loop, with k = n e + j and n >= 1, the vector
      step and the squaring step stay below F(2 k + 1). */
  lemma {:induction false} ExpBounds(k: nat, n: nat, e: nat, j: nat)
    requires n >= 1 && e >= 1 && k == n * e + j
    requires Fib(2 * k + 1) < WPow(N)
    ensures Fib(e + j + 1) < WPow(N) && Fib(2 * e + 1) < WPow(N)
  {
    LeScaled(e, n);
    FibMono(e + j + 1, 2 * k + 1);
    FibMono(2 * e + 1, 2 * k + 1);
  }

  /** Halving n and doubling e keeps k = n e + j with j < e, j taking in the
      low bit of n. */
  lemma {:induction false} ExpIndex(k: nat, n: nat, e: nat, j: nat, e': nat, j': nat)
    requires e >= 1 && k == n * e + j && j < e
    requires e' == 2 * e && j' == if n % 2 == 1 then j + e else j
    ensures k == (n / 2) * e' + j' && j' < e'
  {
    var h, b := n / 2, n % 2;
    assert n * e == (2 * h + b) * e == h * (2 * e) + b * e;
  }

  /** The numbers of one pass of fib_fast_exp's loop (fibdrv.c:71-99): the
      vector (u, v) is multiplied by [[x, y], [y, z]] when `bit` is set,
      giving (u', v'), and then the matrix is squared, giving [[x', y'],
      [y', z']]. */
  method ExpPass(bit: bool, m00: Bn, m01: Bn, m10: Bn, m11: Bn, f0: Bn, f1: Bn,
                 ghost x: nat, ghost y: nat, ghost z: nat, ghost u: nat, ghost v: nat,
                 ghost x': nat, ghost y': nat, ghost z': nat, ghost u': nat, ghost v': nat)
    requires Holds(m00, x) && Holds(m01, y) && Holds(m10, y) && Holds(m11, z)
    requires Holds(f0, u) && Holds(f1, v)
    requires bit ==> DotIs(x, u, y, v, u') && DotIs(y, u, z, v, v')
    requires bit ==> u <= u' && v <= v' && u' < WPow(N) && v' < WPow(N)
    requires !bit ==> u' == u && v' == v
    requires DotIs(x, x, y, y, x') && DotIs(x, y, y, z, y') && DotIs(y, x, z, y, y')
    requires DotIs(y, y, z, z, z')
    requires x <= x' && y <= y' && z <= z' && x' < WPow(N) && y' < WPow(N) && z' < WPow(N)
    requires Apart(m00, m01) && Apart(m00, m10) && Apart(m00, m11)
    requires Apart(m01, m10) && Apart(m01, m11) && Apart(m10, m11) && Apart(f0, f1)
    requires Apart(m00, f0) && Apart(m01, f0) && Apart(m10, f0) && Apart(m11, f0)
    requires Apart(m00, f1) && Apart(m01, f1) && Apart(m10, f1) && Apart(m11, f1)
    modifies m00, m00.val, m01, m01.val, m10, m10.val, m11, m11.val, f0, f0.val, f1, f1.val
    ensures Holds(m00, x') && Holds(m01, y') && Holds(m10, y') && Holds(m11, z')
    ensures Holds(f0, u') && Holds(f1, v')
  {
    VecStep(bit, m00, m01, m10, m11, f0, f1, x, y, z, u, v, u', v');
    SquareStep(m00, m01, m10, m11, x, y, z, x', y', z');
  }

  /** The state of fib_fast_exp's loop after the bits of k below e: k = n e + j
      with j < e, the matrix is [[x, y], [y, z]] = [[F(e + 1), F(e)], [F(e),
      F(e - 1)]] and the vector (u, v) = (F(j + 1), F(j)). */
  ghost predicate ExpState(k: nat, n: nat, e: nat, j: nat, x: nat, y: nat, z: nat, u: nat, v: nat)
  {
    e >= 1 && k == n * e + j && j < e &&
    x == Fib(e + 1) && y == Fib(e) && z == Fib(e - 1) && u == Fib(j + 1) && v == Fib(j)
  }

  /** One pass of fib_fast_exp's loop on values: for an odd n the vector
      becomes (u', v') = M (u, v), then the matrix becomes [[x', y'], [y', z']]
      = M M, and the state holds again for n / 2.  Every new entry fits and
      none is smaller than the entry it replaces. */
  lemma {:induction false} ExpPassFacts(k: nat, n: nat, e: nat, j: nat, x: nat, y: nat, z: nat, u: nat, v: nat)
    returns (e': nat, j': nat, x': nat, y': nat, z': nat, u': nat, v': nat)
    requires ExpState(k, n, e, j, x, y, z, u, v) && n >= 1
    requires Fib(2 * k + 1) < WPow(N)
    ensures n % 2 == 1 ==> DotIs(x, u, y, v, u') && DotIs(y, u, z, v, v')
    ensures n % 2 == 1 ==> u <= u' && v <= v' && u' < WPow(N) && v' < WPow(N)
    ensures n % 2 != 1 ==> u' == u && v' == v
    ensures DotIs(x, x, y, y, x') && DotIs(x, y, y, z, y') && DotIs(y, x, z, y, y')
    ensures DotIs(y, y, z, z, z')
    ensures x <= x' && y <= y' && z <= z' && x' < WPow(N) && y' < WPow(N) && z' < WPow(N)
    ensures ExpState(k, n / 2, e', j', x', y', z', u', v')
  {
    ExpBounds(k, n, e, j);
    j', u', v' := VecPassFacts(n % 2 == 1, e, j);
    e', x', y', z' := MatrixPassFacts(e);
    ExpIndex(k, n, e, j, e', j');
  }

  /** The matrix half of ExpPassFacts: squaring [[F(e + 1), F(e)], [F(e),
      F(e - 1)]] gives the matrix for e' = 2 e, whose entries are no smaller. */
  lemma {:induction false} MatrixPassFacts(e: nat) returns (e': nat, x': nat, y': nat, z': nat)
    requires e >= 1 && Fib(2 * e + 1) < WPow(N)
    ensures e' == 2 * e && x' == Fib(e' + 1) && y' == Fib(e') && z' == Fib(e' - 1)
    ensures z' <= y' <= x' < WPow(N)
    ensures DotIs(Fib(e + 1), Fib(e + 1), Fib(e), Fib(e), x')
    ensures DotIs(Fib(e + 1), Fib(e), Fib(e), Fib(e - 1), y') && DotIs(Fib(e), Fib(e + 1), Fib(e - 1), Fib(e), y')
    ensures DotIs(Fib(e), Fib(e), Fib(e - 1), Fib(e - 1), z')
    ensures Fib(e + 1) <= x' && Fib(e) <= y' && Fib(e - 1) <= z'
  {
    SquareFacts(e);
    e', x', y', z' := 2 * e, Fib(2 * e + 1), Fib(2 * e), Fib(2 * e - 1);
    assert e' + 1 == 2 * e + 1 && e' - 1 == 2 * e - 1;
  }

  /** The vector half of ExpPassFacts: with the bit set, (F(j + 1), F(j))
      becomes (F(e + j + 1), F(e + j)); without it the vector stays. */
  lemma {:induction false} VecPassFacts(bit: bool, e: nat, j: nat) returns (j': nat, u': nat, v': nat)
    requires e >= 1 && Fib(e + j + 1) < WPow(N)
    ensures j' == (if bit then j + e else j) && u' == Fib(j' + 1) && v' == Fib(j')
    ensures bit ==> DotIs(Fib(e + 1), Fib(j + 1), Fib(e), Fib(j), u')
    ensures bit ==> DotIs(Fib(e), Fib(j + 1), Fib(e - 1), Fib(j), v')
    ensures bit ==> Fib(j + 1) <= u' && Fib(j) <= v' <= u' < WPow(N)
    ensures !bit ==> u' == Fib(j + 1) && v' == Fib(j)
  {
    if bit {
      VecFacts(e, j);
      j', u', v' := j + e, Fib(e + j + 1), Fib(e + j);
      assert u' == Fib(j' + 1) && v' == Fib(j');
    } else {
      j', u', v' := j, Fib(j + 1), Fib(j);
    }
  }

  /** A local `bn_t` after bn_init and bn_set_with_pos(&x, 1, 0): the
      number 1. */
  method NewOne() returns (r: Bn)
    ensures fresh(r) && fresh(r.val) && Holds(r, 1)
  {
    r := new Bn();
    SetWithPos(r, 1, 0);
  }

  /** fib_fast_exp (fibdrv.c:55-102): M = [[1, 1], [1, 0]] is squared once per
      bit of k, from the lowest, and f = (1, 0) is multiplied by M when the
      bit is set; f[1] is F(k).  Every entry and product is kept exact, which
      bn_add's size handling needs, so k is limited to F(2 k + 1) below
      2^(64 BN_LENGTH): the last squaring computes F(2^t + 1) with 2^t <= 2 k. */
  method FibFastExp(k: nat) returns (r: Bn)
    requires Fib(2 * k + 1) < WPow(N)
    ensures Holds(r, Fib(k))
  {
    var m00, m01, m10, m11, f0, f1 := ExpStart();
    var n := k;
    ghost var e: nat, j: nat, x: nat, y: nat, z: nat, u: nat, v: nat := 1, 0, 1, 1, 0, 1, 0;
    assert Fib(2) == 1;
    while n != 0
      invariant ExpState(k, n, e, j, x, y, z, u, v)
      invariant Holds(m00, x) && Holds(m01, y) && Holds(m10, y) && Holds(m11, z)
      invariant Holds(f0, u) && Holds(f1, v)
      invariant Apart(m00, m01) && Apart(m00, m10) && Apart(m00, m11)
      invariant Apart(m01, m10) && Apart(m01, m11) && Apart(m10, m11) && Apart(f0, f1)
      invariant Apart(m00, f0) && Apart(m01, f0) && Apart(m10, f0) && Apart(m11, f0)
      invariant Apart(m00, f1) && Apart(m01, f1) && Apart(m10, f1) && Apart(m11, f1)
      decreases n
    {
      var e', j', x', y', z', u', v' := ExpPassFacts(k, n, e, j, x, y, z, u, v);
      ExpPass(n % 2 == 1, m00, m01, m10, m11, f0, f1, x, y, z, u, v, x', y', z', u', v');
      n := n / 2;
      e, j, x, y, z, u, v := e', j', x', y', z', u', v';
    }
    return f1;
  }

  /** The locals of fib_fast_exp after its initialisation (fibdrv.c:57-69):
      M = [[1, 1], [1, 0]] and f = (1, 0), six separate numbers. */
  method ExpStart() returns (m00: Bn, m01: Bn, m10: Bn, m11: Bn, f0: Bn, f1: Bn)
    ensures fresh(m00) && fresh(m00.val) && fresh(m01) && fresh(m01.val)
    ensures fresh(m10) && fresh(m10.val) && fresh(m11) && fresh(m11.val)
    ensures fresh(f0) && fresh(f0.val) && fresh(f1) && fresh(f1.val)
    ensures Holds(m00, 1) && Holds(m01, 1) && Holds(m10, 1) && Holds(m11, 0)
    ensures Holds(f0, 1) && Holds(f1, 0)
    ensures Apart(m00, m01) && Apart(m00, m10) && Apart(m00, m11)
    ensures Apart(m01, m10) && Apart(m01, m11) && Apart(m10, m11) && Apart(f0, f1)
    ensures Apart(m00, f0) && Apart(m01, f0) && Apart(m10, f0) && Apart(m11, f0)
    ensures Apart(m00, f1) && Apart(m01, f1) && Apart(m10, f1) && Apart(m11, f1)
  {
    m00 := NewOne();
    m01 := NewOne();
    m10 := NewOne();
    m11 := new Bn();
    f0 := NewOne();
    f1 := new Bn();
  }

  /** floor(log2 n): the index of the highest set bit of n >= 1. */
  function Log2(n: nat): (b: nat)
    requires n >= 1
    ensures Pow2(b) <= n < 2 * Pow2(b)
  {
    if n == 1 then 0 else Log2(n / 2) + 1
  }

  /** The mask fast doubling starts from: the largest power of two not above n. */
  function StartMask(n: nat): (m: nat)
    requires n >= 1
    ensures m <= n < 2 * m && m == Pow2(Log2(n))
  {
    Pow2(Log2(n))
  }

  /** `__builtin_clz(n)` for a 32-bit n >= 1: the number of zero bits above
      the highest set bit. */
  function Clz32(n: nat): (z: nat)
    requires 1 <= n < Pow2(32)
    ensures z < 32 && Pow2(31 - z) <= n < Pow2(32 - z)
  {
    assert Log2(n) < 32 by {
      if Log2(n) >= 32 {
        Pow2Le(32, Log2(n));
      }
    }
    31 - Log2(n)
  }

  /** The shift count of fibdrv.c:115, 63 - __builtin_clz(n), for a positive
      `int` n: 32 more than the index of n's highest bit, so never below the
      32-bit width of the `1` it shifts, which makes the shift undefined in C.
      n = 1 already gives 32. */
  lemma {:induction false} StartShiftTooWide(n: nat)
    requires 1 <= n < Pow2(31)
    ensures 63 - Clz32(n) == Log2(n) + 32 >= 32
  {
    Pow2Lt(31, 32);
  }

  /** The quotient by m splits into twice the quotient by 2 m and the bit
      n & m. */
  lemma {:induction false} HalfIndex(n: nat, m: nat, j: nat, k: nat)
    requires m >= 1 && k == n / m && j == n / (2 * m)
    ensures k == 2 * j + k % 2
  {
    DivDiv(n, m, 2);
    assert m * 2 == 2 * m;
  }

  /** F(2 j + 1) below w > 2 keeps 2 F(j + 1) below w: either F(j + 1) <= 1,
      or 2 F(j + 1) <= F(j + 1)^2 <= F(2 j + 1). */
  lemma {:induction false} TwiceBelow(j: nat, w: nat)
    requires w > 2 && Fib(2 * j + 1) < w
    ensures 2 * Fib(j + 1) < w
  {
    FibDouble(j);
    if Fib(j + 1) >= 2 {
      MulLe(2, Fib(j + 1), Fib(j + 1));
    }
  }

  /** The sizes in one fast-doubling pass whose largest value F(top + 1)
      fits below 2^(64 BN_LENGTH): 2 F(j + 1) fits and is at least F(j), so
      tmp1 = 2 b - a does not wrap; F(2 j) <= F(2 j + 1) fit; and for a set
      bit F(2 j + 2) = F(2 j) + F(2 j + 1) fits. */
  lemma {:induction false} DoublingBounds(j: nat, top: nat)
    requires top == 2 * j || top == 2 * j + 1
    requires Fib(top + 1) < WPow(N)
    ensures 2 * Fib(j + 1) < WPow(N) && Fib(j) <= 2 * Fib(j + 1)
    ensures Fib(2 * j) <= Fib(2 * j + 1) < WPow(N)
    ensures top == 2 * j + 1 ==> Fib(2 * j + 2) == Fib(2 * j) + Fib(2 * j + 1) < WPow(N)
  {
    var w: nat := WPow(N);
    assert 2 * Fib(j + 1) >= Fib(j) by {
      FibDouble(j);
    }
    FibMono(2 * j + 1, top + 1);
    FibMono(2 * j, 2 * j + 1);
    assert 2 * Fib(j + 1) < w by {
      WPowLe(1, N);
      TwiceBelow(j, w);
    }
    assert Fib(2 * j + 2) == Fib(2 * j) + Fib(2 * j + 1);
  }

  /** The word-size side of DoubledValues: none of the pass's products and
      sums reaches the modulus w. */
  lemma {:induction false} DoublingAlgebra(a: nat, b: nat, d: nat, e: nat, w: nat)
    requires a <= 2 * b < w && d <= e < w
    requires d == a * (2 * b - a) && e == b * b + a * a
    ensures (a * (2 * b - a)) % w == d
    ensures ((b * b) % w + (a * a) % w) % w == e
  {
    PartsFit(b * b, a * a, w);
    PartsFit(d, 0, w);
  }

  /** tmp1 = 2 b - a for a fast-doubling pass (fibdrv.c:119-120): b shifted
      left by one bit, then a subtracted in place.  The value is stated when
      2 b fits and a <= 2 b, so that neither step wraps. */
  method TwiceMinus(a: Bn, b: Bn) returns (tmp1: Bn)
    requires a.Valid() && b.Valid()
    ensures fresh(tmp1) && fresh(tmp1.val) && tmp1.Valid()
    ensures 2 * b.Value() < WPow(N) && a.Value() <= 2 * b.Value() ==>
      tmp1.Value() == 2 * b.Value() - a.Value()
  {
    ghost var vb := b.Value();
    tmp1 := new Bn();
    assert Pow2(1) == 2;
    Sll(b, tmp1, 1);
    if 2 * vb < WPow(N) {
      DivModUnique(2 * vb, WPow(N), 0, 2 * vb);
    }
    Sub(tmp1, a, tmp1);
  }

  /** t2 = b^2 + a^2 for a fast-doubling pass (fibdrv.c:122-124), each square
      and the sum reduced modulo 2^(64 BN_LENGTH). */
  method SquareSum(a: Bn, b: Bn) returns (t2: Bn)
    requires a.Valid() && b.Valid()
    ensures fresh(t2) && fresh(t2.val) && t2.Valid()
    ensures t2.Value() == ((b.Value() * b.Value()) % WPow(N) + (a.Value() * a.Value()) % WPow(N)) % WPow(N)
  {
    var tmp1 := Square(b);
    var tmp2 := Square(a);
    t2 := new Bn();
    Add(tmp1, tmp2, t2);
  }

  /** `bn_mul(x, x, &t)` into a fresh local (fibdrv.c:122-123): the square
      modulo 2^(64 BN_LENGTH). */
  method Square(x: Bn) returns (t: Bn)
    requires x.Valid()
    ensures fresh(t) && fresh(t.val) && t.Valid()
    ensures t.Value() == (x.Value() * x.Value()) % WPow(N)
  {
    t := new Bn();
    Mul(x, x, t);
  }

  /** The products of a fast-doubling pass (fibdrv.c:117-124), written into
      fresh locals: t1 = a (2 b - a) and t2 = b^2 + a^2, each product and the
      sum reduced modulo 2^(64 BN_LENGTH).  The values are stated when 2 b
      fits and a <= 2 b, so that neither the shift nor the subtraction
      wraps. */
  method DoubleTerms(a: Bn, b: Bn) returns (t1: Bn, t2: Bn)
    requires a.Valid() && b.Valid()
    ensures fresh(t1) && fresh(t1.val) && fresh(t2) && fresh(t2.val) && Apart(t1, t2)
    ensures t1.Valid() && t2.Valid()
    ensures 2 * b.Value() < WPow(N) && a.Value() <= 2 * b.Value() ==>
      t1.Value() == (a.Value() * (2 * b.Value() - a.Value())) % WPow(N)
    ensures t2.Value() == ((b.Value() * b.Value()) % WPow(N) + (a.Value() * a.Value()) % WPow(N)) % WPow(N)
  {
    var tmp1 := TwiceMinus(a, b);
    t1 := new Bn();
    Mul(a, tmp1, t1);
    t2 := SquareSum(a, b);
  }

  /** The doubling half of a fast-doubling pass (fibdrv.c:117-126): the terms
      t1 and t2 are computed and copied into a and b; t1 is returned as the
      loop's local, equal to the new a. */
  method DoubleStep(a: Bn, b: Bn, ghost j: nat, ghost top: nat, ghost fits: bool) returns (t1: Bn)
    requires a.Valid() && b.Valid() && Apart(a, b)
    requires fits ==> (top == 2 * j || top == 2 * j + 1) && Fib(top + 1) < WPow(N)
    requires fits ==> a.Value() == Fib(j) && b.Value() == Fib(j + 1)
    modifies a, a.val, b, b.val
    ensures a.Valid() && b.Valid()
    ensures fresh(t1) && fresh(t1.val) && t1.Valid() && t1.size == a.size
    ensures 2 * old(b.Value()) < WPow(N) && old(a.Value()) <= 2 * old(b.Value()) ==>
      a.Value() == (old(a.Value()) * (2 * old(b.Value()) - old(a.Value()))) % WPow(N) &&
      b.Value() == ((old(b.Value()) * old(b.Value())) % WPow(N) +
                    (old(a.Value()) * old(a.Value())) % WPow(N)) % WPow(N)
    ensures fits ==> a.Value() == Fib(2 * j) && b.Value() == Fib(2 * j + 1)
  {
    var t2;
    t1, t2 := DoubleTerms(a, b);
    if fits {
      DoubledValues(j, top, a.Value(), b.Value(), t1.Value(), t2.Value());
    }
    Assign(a, t1);
    Assign(b, t2);
  }

  /** The set-bit half of a fast-doubling pass (fibdrv.c:127-131):
      t1 = a + b, then a = b and b = t1, so (a, b) becomes (b, a + b) with
      the sum reduced modulo 2^(64 BN_LENGTH).  t1 comes in holding no more
      words than a. */
  method AdvanceStep(a: Bn, b: Bn, t1: Bn)
    requires a.Valid() && b.Valid() && t1.Valid() && t1.size <= a.size
    requires Apart(a, b) && Apart(a, t1) && Apart(b, t1)
    modifies a, a.val, b, b.val, t1, t1.val
    ensures a.Valid() && b.Valid()
    ensures a.Value() == old(b.Value()) && b.Value() == (old(a.Value()) + old(b.Value())) % WPow(N)
  {
    Add(a, b, t1);
    Assign(a, b);
    Assign(b, t1);
  }

  /** One pass of fib_fast_doubling's loop (fibdrv.c:117-132), with
      k = n / m and j = n / (2 m): from (a, b) = (F(j), F(j + 1)) the pass
      computes (F(2 j), F(2 j + 1)) as a (2 b - a) and b^2 + a^2, and when
      bit m of n is set moves on to (F(2 j + 1), F(2 j + 2)); either way the
      pair is then (F(k), F(k + 1)).  The statement is made under `fits`,
      which promises that F(k + 1) is below 2^(64 BN_LENGTH); without it only
      validity is kept. */
  method DoublingPass(a: Bn, b: Bn, n: nat, m: nat, ghost j: nat, ghost k: nat, ghost fits: bool)
    requires m >= 1 && k == n / m && j == n / (2 * m)
    requires a.Valid() && b.Valid() && Apart(a, b)
    requires fits ==> Fib(k + 1) < WPow(N)
    requires fits ==> a.Value() == Fib(j) && b.Value() == Fib(j + 1)
    modifies a, a.val, b, b.val
    ensures a.Valid() && b.Valid()
    ensures fits ==> a.Value() == Fib(k) && b.Value() == Fib(k + 1)
  {
    HalfIndex(n, m, j, k);
    var t1 := DoubleStep(a, b, j, k, fits);
    if (n / m) % 2 == 1 {
      // `n & m`: m is a power of two, so this is bit m of n
      ghost var da, db := a.Value(), b.Value();
      AdvanceStep(a, b, t1);
      if fits {
        AdvancedValue(j, k, da, db, b.Value());
      }
    } else {
      assert k == 2 * j && k + 1 == 2 * j + 1;
    }
  }

  /** DoubleStep's results, for (F(j), F(j + 1)) in a pass whose largest
      value F(top + 1) fits, are (F(2 j), F(2 j + 1)). */
  lemma {:induction false} DoubledValues(j: nat, top: nat, va: nat, vb: nat, da: nat, db: nat)
    requires top == 2 * j || top == 2 * j + 1
    requires Fib(top + 1) < WPow(N) && va == Fib(j) && vb == Fib(j + 1)
    requires 2 * vb < WPow(N) && va <= 2 * vb ==>
      da == (va * (2 * vb - va)) % WPow(N) &&
      db == ((vb * vb) % WPow(N) + (va * va) % WPow(N)) % WPow(N)
    ensures da == Fib(2 * j) && db == Fib(2 * j + 1)
  {
    DoublingBounds(j, top);
    FibDouble(j);
    DoublingAlgebra(va, vb, Fib(2 * j), Fib(2 * j + 1), WPow(N));
  }

  /** AdvanceStep's new b, from (F(2 j), F(2 j + 1)) with F(2 j + 2) in range,
      is F(2 j + 2). */
  lemma {:induction false} AdvancedValue(j: nat, top: nat, da: nat, db: nat, sum: nat)
    requires top == 2 * j + 1
    requires Fib(top + 1) < WPow(N) && da == Fib(2 * j) && db == Fib(2 * j + 1)
    requires sum == (da + db) % WPow(N)
    ensures sum == Fib(top + 1)
  {
    DoublingBounds(j, top);
    PartsFit(da, db, WPow(N));
  }

  /** The mask of fast doubling's loop after all but q of its passes:
      2^(q - 1), and 0 once every bit is done. */
  ghost predicate MaskAt(m: nat, q: nat)
  {
    if q == 0 then m == 0 else m == Pow2(q - 1)
  }

  /** A live mask doubled is 2^q and halved is the next mask, and the
      quotient by it is at most n. */
  lemma {:induction false} MaskStep(n: nat, q: nat, m: nat) returns (k: nat)
    requires MaskAt(m, q) && m != 0
    ensures q >= 1 && m >= 1 && 2 * m == Pow2(q) && k == n / m && k <= n
    ensures MaskAt(m / 2, q - 1)
  {
    DivBounds(n, m);
    k := n / m;
    if q >= 2 {
      assert m == 2 * Pow2(q - 2);
    }
  }

  /** fib_fast_doubling (fibdrv.c:104-135): n = 0 returns zero; otherwise
      (a, b) = (F(0), F(1)) and one pass per bit of n, from the highest set
      bit down, leaves a = F(n).  The result is F(n) whenever F(n + 1), the
      largest value computed, fits in 2^(64 BN_LENGTH). */
  method FibFastDoubling(n: nat) returns (r: Bn)
    ensures r.Valid()
    ensures Fib(n + 1) < WPow(N) ==> r.Value() == Fib(n)
  {
    if n == 0 {
      r := new Bn();
      return;
    }
    var a, b := DoublingStart();
    DoublingLoop(a, b, n);
    return a;
  }

  /** The locals of fib_fast_doubling after its initialisation
      (fibdrv.c:111-114): (a, b) = (0, 1) = (F(0), F(1)), two separate
      numbers. */
  method DoublingStart() returns (a: Bn, b: Bn)
    ensures fresh(a) && fresh(a.val) && fresh(b) && fresh(b.val)
    ensures a.Valid() && b.Valid() && Apart(a, b)
    ensures a.Value() == Fib(0) && b.Value() == Fib(1)
  {
    a := new Bn();
    b := new Bn();
    SetWithPos(b, 1, 0);
  }

  /** The loop of fib_fast_doubling (fibdrv.c:115-133) from (F(0), F(1)):
      one pass per bit of n, from the highest set bit down, leaves a = F(n)
      whenever F(n + 1) fits. */
  method DoublingLoop(a: Bn, b: Bn, n: nat)
    requires n >= 1 && a.Valid() && b.Valid() && Apart(a, b)
    requires a.Value() == Fib(0) && b.Value() == Fib(1)
    modifies a, a.val, b, b.val
    ensures a.Valid() && b.Valid()
    ensures Fib(n + 1) < WPow(N) ==> a.Value() == Fib(n)
  {
    var m := StartMask(n);
    ghost var q: nat := Log2(n) + 1;
    ghost var fits := Fib(n + 1) < WPow(N);
    ghost var j: nat := 0;
    DivModUnique(n, Pow2(q), 0, n);
    while m != 0
      invariant q <= Log2(n) + 1 && MaskAt(m, q)
      invariant j == n / Pow2(q)
      invariant a.Valid() && b.Valid() && Apart(a, b)
      invariant fits ==> a.Value() == Fib(j) && b.Value() == Fib(j + 1)
      decreases q
    {
      ghost var k := MaskStep(n, q, m);
      if fits {
        FibMono(k + 1, n + 1);
      }
      DoublingPass(a, b, n, m, j, k, fits);
      m := m / 2;
      q, j := q - 1, k;
    }
    DivModUnique(n, 1, n, 0);
  }

  /** MAX_LENGTH (fibdrv.c:25): the largest offset the device's seek lets a
      read reach (fibdrv.c:213-216). */
  const MAX_LENGTH: nat := 100

  /** For every offset a read can reach, F(2 offset + 1), and so every
      value the three algorithms compute, is below 2^(64 BN_LENGTH). */
  lemma {:induction false} ReadDomain(offset: nat)
    requires offset <= MAX_LENGTH
    ensures Fib(offset) <= Fib(offset + 1) <= Fib(2 * offset + 1) < WPow(N)
    ensures Fib(offset) % WPow(N) == Fib(offset)
  {
    FibBelowPow2(2 * offset + 1);
    Pow2Le(2 * offset + 1, 64 * N);
    WPowIsPow2(N);
    FibMono(offset, offset + 1);
    FibMono(offset + 1, 2 * offset + 1);
    DivModUnique(Fib(offset), WPow(N), 0, Fib(offset));
  }

  /** The computation of fib_read (fibdrv.c:153-178): F(offset) by all three
      algorithms, each rendered in decimal; the caller receives the first
      string, and the result is 1 exactly when the three strings are equal.
      For every reachable offset the string is F(offset) in decimal and the
      three agree. */
  method Read(offset: nat) returns (s: string, agree: bool)
    requires offset <= MAX_LENGTH
    ensures s == DecimalString(Fib(offset)) && agree
  {
    ReadDomain(offset);
    var res1 := FibSequence(offset);
    var res2 := FibFastExp(offset);
    var res3 := FibFastDoubling(offset);
    var s1 := ToString(res1);
    var s2 := ToString(res2);
    var s3 := ToString(res3);
    s := s1;
    agree := s1 == s2 && s2 == s3;
  }
}
