/** One 64-bit machine word (`unsigned long` / `uint64_t`) and the word
    operations both big-number headers use: logical shifts, the two halves of a
    shift across a word boundary, the overflow-reporting add and subtract
    builtins, and count-trailing-zeros. */
module Words {
  import opened Arith

  /** A word holds values below 2^64 = 0x1_0000_0000_0000_0000.  The bound is
      written as a literal throughout, so that products with it stay linear
      for the solver. */
  type u64 = x: int | 0 <= x < 0x1_0000_0000_0000_0000

  /** A carry or borrow flag. */
  type Bit = x: nat | x < 2

  lemma {:induction false} Pow2Word()
    ensures Pow2(64) == 0x1_0000_0000_0000_0000
  {
    Pow2Square(1, 2);
    Pow2Square(2, 4);
    Pow2Square(4, 16);
    Pow2Square(8, 256);
    Pow2Square(16, 0x1_0000);
    Pow2Square(32, 0x1_0000_0000);
  }

  /** Pow2(n) * Pow2(64 - n) is one word's range, for n <= 64. */
  lemma {:induction false} Pow2Complement(n: nat)
    requires n <= 64
    ensures Pow2(n) * Pow2(64 - n) == 0x1_0000_0000_0000_0000
  {
    Pow2Add(n, 64 - n);
    Pow2Word();
  }

  /** `w >> n` for 0 <= n < 64. */
  function Shr(w: u64, n: nat): (r: u64)
    requires n < 64
    ensures r * Pow2(n) <= w < (r + 1) * Pow2(n)
  {
    DivBounds(w, Pow2(n));
    w / Pow2(n)
  }

  /** `w << n` for 0 <= n < 64: the bits pushed above bit 63 are lost. */
  function Shl(w: u64, n: nat): (r: u64)
    requires n < 64
    ensures r == (w % Pow2(64 - n)) * Pow2(n)
  {
    ShlKeepsLowBits(w, n);
    (w * Pow2(n)) % 0x1_0000_0000_0000_0000
  }

  lemma {:induction false} ShlKeepsLowBits(w: u64, n: nat)
    requires n < 64
    ensures (w * Pow2(n)) % 0x1_0000_0000_0000_0000 == (w % Pow2(64 - n)) * Pow2(n)
  {
    var p: int, q: int := Pow2(n), Pow2(64 - n);
    Pow2Complement(n);
    ScaledModOf(w, p, q, 0x1_0000_0000_0000_0000);
  }

  /** ScaledMod, with the modulus q * p named b. */
  lemma {:induction false} ScaledModOf(w: int, p: int, q: int, b: int)
    requires w >= 0 && p > 0 && q > 0 && b == q * p
    ensures (w * p) % b == (w % q) * p
  {
    ScaledMod(w, p, q);
  }

  /** A word shifted right by m fits in 64 - m bits. */
  lemma {:induction false} ShrBelow(w: u64, m: nat)
    requires m < 64
    ensures Shr(w, m) < Pow2(64 - m)
  {
    var r, p, q := Shr(w, m), Pow2(m), Pow2(64 - m);
    Pow2Complement(m);
    if r >= q {
      MulLe(q, r, p);
      assert false;
    }
  }

  /** `lo >> n | hi << (64 - n)` for 0 < n < 64, the word bn_srl builds.
      The operands of `|` occupy disjoint bits, so the or is their sum: the low
      64 - n bits are `lo >> n` and the top n bits are the low n bits of hi. */
  function FunnelRight(lo: u64, hi: u64, n: nat): (r: u64)
    requires 0 < n < 64
    ensures r % Pow2(64 - n) == lo / Pow2(n)
    ensures r / Pow2(64 - n) == hi % Pow2(n)
  {
    var p, q := Pow2(n), Pow2(64 - n);
    Pow2Complement(n);
    assert Shl(hi, 64 - n) == (hi % p) * q by {
      assert 64 - (64 - n) == n;
    }
    ShrBelow(lo, n);
    JoinFields(hi % p, Shr(lo, n), p, q);
    Shr(lo, n) + Shl(hi, 64 - n)
  }

  /** `hi << n | lo >> (64 - n)` for 0 < n < 64, the word bn_sll builds:
      the low n bits are the top n bits of lo and the other bits are the low
      64 - n bits of hi. */
  function FunnelLeft(hi: u64, lo: u64, n: nat): (r: u64)
    requires 0 < n < 64
    ensures r % Pow2(n) == lo / Pow2(64 - n)
    ensures r / Pow2(n) == hi % Pow2(64 - n)
  {
    var p, q := Pow2(n), Pow2(64 - n);
    Pow2Complement(n);
    assert Shr(lo, 64 - n) < p by {
      ShrBelow(lo, 64 - n);
      assert 64 - (64 - n) == n;
    }
    JoinWord(Shl(hi, n), Shr(lo, 64 - n), hi % q, p, q);
    Shl(hi, n) + Shr(lo, 64 - n)
  }

  /** A field y shifted up by p's bits and a field b below p make one word. */
  lemma {:induction false} JoinWord(a: int, b: int, y: int, p: int, q: int)
    requires a == y * p && 0 <= y < q && 0 <= b < p && p * q == 0x1_0000_0000_0000_0000
    ensures 0 <= a + b < 0x1_0000_0000_0000_0000
    ensures (a + b) % p == b && (a + b) / p == y
  {
    JoinFields(y, b, q, p);
  }

  /** `__builtin_uaddl_overflow(x, y, &r)`: the wrapped sum and the overflow flag. */
  function AddOverflow(x: u64, y: u64): (r: (u64, Bit))
    ensures r.0 + r.1 * 0x1_0000_0000_0000_0000 == x + y
  {
    ((x + y) % 0x1_0000_0000_0000_0000, if x + y >= 0x1_0000_0000_0000_0000 then 1 else 0)
  }

  /** `__builtin_usubl_overflow(x, y, &r)`: the wrapped difference and the borrow flag. */
  function SubOverflow(x: u64, y: u64): (r: (u64, Bit))
    ensures r.0 - r.1 * 0x1_0000_0000_0000_0000 == x - y
  {
    ((x - y) % 0x1_0000_0000_0000_0000, if x < y then 1 else 0)
  }

  /** One step of bn_add's carry chain: c1 from x + y, c2 from adding the
      incoming carry, and the outgoing carry c1 | c2. */
  function AddWithCarry(x: u64, y: u64, c: Bit): (r: (u64, Bit))
    ensures r.0 + r.1 * 0x1_0000_0000_0000_0000 == x + y + c
  {
    var (t, c1) := AddOverflow(x, y);
    var (w, c2) := AddOverflow(t, c);
    (w, if c1 == 1 || c2 == 1 then 1 else 0)
  }

  /** One step of bn_sub's borrow chain: c1 from x - y, c2 from subtracting
      the incoming borrow, and the outgoing borrow c1 | c2. */
  function SubWithBorrow(x: u64, y: u64, c: Bit): (r: (u64, Bit))
    ensures r.0 - r.1 * 0x1_0000_0000_0000_0000 == x - y - c
  {
    var (t, c1) := SubOverflow(x, y);
    var (w, c2) := SubOverflow(t, c);
    (w, if c1 == 1 || c2 == 1 then 1 else 0)
  }

  /** `__builtin_ctzl(w)` for w != 0: the number of trailing zero bits. */
  function Ctz(w: nat): (z: nat)
    requires w > 0
    ensures w % Pow2(z) == 0 && (w / Pow2(z)) % 2 == 1
    ensures Pow2(z) <= w
  {
    if w % 2 == 1 then
      0
    else
      var z' := Ctz(w / 2);
      ModSplit(w, 2, Pow2(z'));
      DivDiv(w, 2, Pow2(z'));
      assert Pow2(1 + z') == 2 * Pow2(z');
      1 + z'
  }

  lemma {:induction false} CtzOfWord(w: u64)
    requires w > 0
    ensures Ctz(w) < 64
  {
    if Ctz(w) >= 64 {
      Pow2Le(64, Ctz(w));
      Pow2Word();
    }
  }

  /** For a number v whose low word w = v mod 2^64 is nonzero, shifting v
      right by the trailing zeros of w leaves an odd number and loses no bits. */
  lemma {:induction false} CtzOfLowWord(v: nat, w: u64)
    requires w > 0 && w == v % 0x1_0000_0000_0000_0000
    ensures Ctz(w) < 64
    ensures v % Pow2(Ctz(w)) == 0 && (v / Pow2(Ctz(w))) % 2 == 1
  {
    CtzOfWord(w);
    var z := Ctz(w);
    var p, q := Pow2(z), Pow2(64 - z);
    Pow2Complement(z);
    ModOfMod(v, p, q);
    ModSplit(v, p, q);
    assert w == p * ((v / p) % q);
    MulDivExact((v / p) % q, p);
    assert q == Pow2(64 - z - 1) * 2;
    ModOfMod(v / p, 2, Pow2(64 - z - 1));
  }

  /** A number whose low word is zero is a multiple of 2^k for k <= 64. */
  lemma {:induction false} ZeroLowWord(v: nat, k: nat)
    requires k <= 64 && v % 0x1_0000_0000_0000_0000 == 0
    ensures v % Pow2(k) == 0
  {
    Pow2Complement(k);
    ModOfMod(v, Pow2(k), Pow2(64 - k));
  }

  /** Bit 0 of a number is bit 0 of its low word. */
  lemma {:induction false} LowWordParity(v: nat, w: u64)
    requires w == v % 0x1_0000_0000_0000_0000
    ensures w % 2 == v % 2
  {
    ModOfMod(v, 2, 0x8000_0000_0000_0000);
  }
}
