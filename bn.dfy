/** The fixed-width big numbers of bn.h: BN_LENGTH 64-bit words, least
    significant first, with a count `size` of the words in use.  Every
    operation writes through a destination pointer that may be one of its
    operands, so the operations are methods over `Bn` objects that may be the
    same object. */
module BigNum {
  import opened Arith
  import opened Words
  import opened Multiword
  import opened Decimal

  /** BN_LENGTH, eleven words.  It is written as the length of an
      eleven-element display rather than as a numeral so that the verifier
      keeps 2^(64 BN_LENGTH) symbolic instead of expanding it. */
  const N: nat := |[0, 0, 0, 0, 0, 0, 0, 0, 0, 0, 0]|

  /** `bn_t`: the word array and the significant-word count. */
  class Bn {
    const val: array<u64>
    var size: nat

    /** Every word at or above `size` is zero, which is what the operations
        rely on when they read `val[size]` or stop at `size`. */
    ghost predicate Valid()
      reads this, val
    {
      val.Length == N && size <= N && forall k :: size <= k < N ==> val[k] == 0
    }

    /** The number the words denote. */
    ghost function Value(): nat
      reads this, val
    {
      Val(val[..])
    }

    /** `size` is as small as it can be: the top word in use is nonzero. */
    ghost predicate Exact()
      reads this, val
      requires Valid()
    {
      size == 0 || val[size - 1] != 0
    }

    /** A local `bn_t` followed by `bn_init`: all words zero and size zero.
        Locals the source leaves uninitialised are modelled this way too. */
    constructor ()
      ensures Valid() && Exact() && size == 0 && val[..] == Zeros(N) && Value() == 0
      ensures fresh(val)
    {
      val := new u64[N](_ => 0);
      size := 0;
      new;
      ValZeros(val[..]);
    }
  }

  /** Two numbers are the same object or do not share storage. */
  ghost predicate Separate(x: Bn, y: Bn)
    reads x, y
  {
    x == y || x.val != y.val
  }

  /** For a valid number, `size` is exact exactly when the value reaches the
      weight of word size - 1. */
  lemma {:induction false} ExactIff(x: Bn)
    requires x.Valid()
    ensures x.Exact() <==> (x.size == 0 || x.Value() >= WPow(x.size - 1))
  {
    if x.size > 0 {
      TopWordNonzero(x.val[..], x.size);
    }
  }

  /** A valid number is below the weight of word `size`. */
  lemma {:induction false} ValueBelowSize(x: Bn)
    requires x.Valid()
    ensures x.Value() < WPow(x.size)
  {
    ValZeroTail(x.val[..], x.size);
    ValBound(x.val[..][..x.size]);
  }

  /** bn_init: every word and the size become zero. */
  method Init(a: Bn)
    requires a.val.Length == N
    modifies a, a.val
    ensures a.Valid() && a.Exact() && a.size == 0 && a.val[..] == Zeros(N)
    ensures a.Value() == 0
  {
    forall i | 0 <= i < N {
      a.val[i] := 0;
    }
    a.size := 0;
    ValZeros(a.val[..]);
  }

  /** The struct assignment `*dst = *src`. */
  method Assign(dst: Bn, src: Bn)
    requires dst.val.Length == N && src.val.Length == N && Separate(dst, src)
    modifies dst, dst.val
    ensures dst.val[..] == old(src.val[..]) && dst.size == old(src.size)
    ensures old(src.Valid()) ==> dst.Valid() && dst.Value() == old(src.Value())
    ensures old(src.Valid()) && old(src.Exact()) ==> dst.Exact()
  {
    forall i | 0 <= i < N {
      dst.val[i] := src.val[i];
    }
    dst.size := src.size;
  }

  /** A `bn_t` local initialised from another, `bn_t t = x`, and a `bn_t`
      passed or returned by value. */
  method Copy(src: Bn) returns (r: Bn)
    requires src.Valid()
    ensures fresh(r) && fresh(r.val)
    ensures r.Valid() && r.val[..] == src.val[..] && r.size == src.size
    ensures r.Value() == src.Value() && (src.Exact() ==> r.Exact())
  {
    r := new Bn();
    Assign(r, src);
  }

  /** bn_set_with_pos: word pos becomes num and no other word changes; size
      grows to pos + 1 if it was smaller, and drops to zero only when word 0
      of a one-word number is cleared. */
  method SetWithPos(a: Bn, num: u64, pos: nat)
    requires a.Valid() && pos < N
    modifies a, a.val
    ensures a.Valid()
    ensures a.val[..] == old(a.val[..])[pos := num]
    ensures a.size == if pos == 0 && num == 0 && old(a.size) == 1 then 0
                      else if pos + 1 > old(a.size) then pos + 1 else old(a.size)
    ensures a.Value() + Scaled(old(a.val[pos]), pos) == old(a.Value()) + Scaled(num, pos)
  {
    ValUpdate(a.val[..], pos, num);
    a.val[pos] := num;
    if pos == 0 && num == 0 && a.size == 1 {
      a.size := 0;
    } else if pos + 1 > a.size {
      a.size := pos + 1;
    }
  }

  /** bn_swap: the two numbers exchange their words and their sizes. */
  method Swap(a: Bn, b: Bn)
    requires a.val.Length == N && b.val.Length == N && Separate(a, b)
    modifies a, a.val, b, b.val
    ensures a.val[..] == old(b.val[..]) && a.size == old(b.size)
    ensures b.val[..] == old(a.val[..]) && b.size == old(a.size)
    ensures old(b.Valid()) ==> a.Valid() && a.Value() == old(b.Value())
    ensures old(a.Valid()) ==> b.Valid() && b.Value() == old(a.Value())
  {
    var tmp := new Bn();
    Assign(tmp, a);
    Assign(a, b);
    Assign(b, tmp);
  }

  /** bn_srl: res becomes a shifted right by n bits, 0 <= n < 64.  The value
      is divided by 2^n, the size drops by at most one word and stays exact
      if it was; res may be a itself.  A distinct res must not have words in
      use above a's. */
  method Srl(a: Bn, res: Bn, n: nat)
    requires a.Valid() && res.Valid() && Separate(a, res)
    requires n < 64
    requires res == a || res.size <= a.size
    modifies res, res.val
    ensures res.Valid()
    ensures res.Value() == old(a.Value()) / Pow2(n)
    ensures res.size <= old(a.size) && (old(a.size) > 0 && n > 0 ==> res.size >= old(a.size) - 1)
    ensures n == 0 ==> res.size == old(a.size)
    ensures old(a.size) > 0 && n > 0 && res.val[old(a.size) - 1] == 0 ==> res.size == old(a.size) - 1
    ensures old(a.Exact()) ==> res.Exact()
  {
    if a.size == 0 {
      ValZeroTail(a.val[..], 0);
      Init(res);
      DivModUnique(0, Pow2(n), 0, 0);
      return;
    }
    if n == 0 {
      Assign(res, a);
      return;
    }
    ghost var A, R := a.val[..], res.val[..];
    var sz := a.size;
    assert forall k :: sz <= k < N ==> R[k] == 0;
    SrlWords(a, res, n);
    res.size := if res.val[sz - 1] != 0 then sz else sz - 1;
    SrlFinish(res, A, R, sz, n);
  }

  /** The state bn_srl leaves: res is valid, holds the quotient, and is exact
      if a was. */
  lemma {:induction false} SrlFinish(res: Bn, A: seq<u64>, R: seq<u64>, sz: nat, n: nat)
    requires res.val.Length == N == |A| == |R| && 1 <= sz <= N && 0 < n < 64
    requires forall k :: sz <= k < N ==> A[k] == 0 && R[k] == 0 && res.val[k] == R[k]
    requires Val(res.val[..sz]) == Val(A[..sz]) / Pow2(n)
    requires sz >= 2 && A[sz - 1] != 0 && res.val[sz - 1] == 0 ==> res.val[sz - 2] != 0
    requires res.size == if res.val[sz - 1] != 0 then sz else sz - 1
    ensures res.Valid() && res.Value() == Val(A) / Pow2(n)
    ensures A[sz - 1] != 0 ==> res.Exact()
  {
    ZeroTailValid(res, sz);
    ghost var r := res.val[..];
    assert r[..sz] == res.val[..sz];
    ValZeroTail(r, sz);
    ValZeroTail(A, sz);
  }

  /** A number whose words from sz on are zero and whose size is sz, or
      sz - 1 when word sz - 1 is zero, is valid. */
  lemma {:induction false} ZeroTailValid(x: Bn, sz: nat)
    requires x.val.Length == N && 1 <= sz <= N
    requires forall k :: sz <= k < N ==> x.val[k] == 0
    requires x.size == if x.val[sz - 1] != 0 then sz else sz - 1
    ensures x.Valid()
  {
  }

  /** The word loop of bn_srl (bn.h:48-51): word i of res takes the low bits
      from word i of a and the top n bits from word i + 1; the top word is
      shifted in zeros.  The words in use then hold a's value divided by
      2^n, and words above a's size are untouched. */
  method SrlWords(a: Bn, res: Bn, n: nat)
    requires a.Valid() && res.val.Length == N && Separate(a, res)
    requires 0 < n < 64 && a.size > 0
    modifies res.val
    ensures Val(res.val[..old(a.size)]) == Val(old(a.val[..])[..old(a.size)]) / Pow2(n)
    ensures old(a.size) >= 2 && old(a.val[a.size - 1]) != 0 && res.val[old(a.size) - 1] == 0
            ==> res.val[old(a.size) - 2] != 0
    ensures forall j :: old(a.size) <= j < N ==> res.val[j] == old(res.val[j])
  {
    ghost var A, R := a.val[..], res.val[..];
    var sz := a.size;
    ghost var S := A[..sz];
    var i := 0;
    while i < sz - 1
      invariant 0 <= i <= sz - 1
      invariant forall j :: 0 <= j < i ==> res.val[j] == ShrWord(S, j, n)
      invariant forall j :: i <= j < N ==> res.val[j] == R[j] && a.val[j] == A[j]
    {
      res.val[i] := FunnelRight(a.val[i], a.val[i + 1], n);
      i := i + 1;
    }
    res.val[sz - 1] := Shr(a.val[sz - 1], n);
    ShrWordsPointwise(res.val[..], S, n);
    ShrWordsFacts(S, res.val[..sz], n);
  }

  /** The shifted words hold the quotient, and when the shift empties the
      top word of a number whose top word was nonzero, the word below is
      nonzero. */
  lemma {:induction false} ShrWordsFacts(S: seq<u64>, w: seq<u64>, n: nat)
    requires |S| >= 1 && 0 < n < 64 && w == ShrWords(S, n)
    ensures Val(w) == Val(S) / Pow2(n)
    ensures |S| >= 2 && S[|S| - 1] != 0 && w[|S| - 1] == 0 ==> w[|S| - 2] != 0
  {
    ShrWordsValue(S, n);
    if |S| >= 2 && S[|S| - 1] != 0 && w[|S| - 1] == 0 {
      SrlStaysExact(S, w, n);
    }
  }

  /** When the shift empties the top word of a number whose top word is
      nonzero, the word below it is nonzero. */
  lemma {:induction false} SrlStaysExact(S: seq<u64>, w: seq<u64>, n: nat)
    requires |S| == |w| >= 2 && 0 < n < 64
    requires Val(w) == Val(S) / Pow2(n)
    requires S[|S| - 1] != 0 && w[|S| - 1] == 0
    ensures w[|S| - 2] != 0
  {
    var sz := |S|;
    TopWordNonzero(S, sz);
    assert Val(S) >= WPow(sz - 2 + 1);
    ShrKeepsLowerWeight(Val(S), sz - 2, n);
    TopWordNonzero(w, sz - 1);
  }

  /** Dividing by 2^n, n < 64, loses less than one word of weight. */
  lemma {:induction false} ShrKeepsLowerWeight(v: nat, k: nat, n: nat)
    requires n < 64 && v >= WPow(k + 1)
    ensures v / Pow2(n) >= WPow(k)
  {
    var p, q := Pow2(n), Pow2(64 - n);
    Pow2Complement(n);
    assert WPow(k + 1) == (q * WPow(k)) * p;
    DivLe(WPow(k + 1), v, p);
    MulDivExact(q * WPow(k), p);
    MulAtLeast(q, WPow(k));
  }

  /** The highest word index bn_sll writes (bn.h:65): the size, but at most
      BN_LENGTH - 1. */
  function SllTop(size: nat): (t: nat)
    ensures t < N && t <= size && (size < N ==> t == size) && (size >= N ==> t == N - 1)
  {
    if size > N - 1 then N - 1 else size
  }

  /** bn_sll: res becomes a shifted left by n bits, 0 <= n < 64.  The value
      is multiplied by 2^n and reduced modulo 2^(64 BN_LENGTH); the size
      grows by at most one word and stays exact if a was exact and nothing
      was shifted out.  res may be a itself; a distinct res must not have
      words in use above the ones written. */
  method Sll(a: Bn, res: Bn, n: nat)
    requires a.Valid() && res.Valid() && Separate(a, res)
    requires n < 64
    requires res == a || res.size <= SllTop(a.size) + 1
    modifies res, res.val
    ensures res.Valid()
    ensures res.Value() == (old(a.Value()) * Pow2(n)) % WPow(N)
    ensures SllTop(old(a.size)) <= res.size <= old(a.size) + 1
    ensures n == 0 ==> res.size == old(a.size)
    ensures old(a.Exact()) && old(a.Value()) * Pow2(n) < WPow(N) ==> res.Exact()
  {
    ghost var v := a.Value();
    if a.size == 0 {
      ValZeroTail(a.val[..], 0);
      ScaleOf(v, Pow2(n), WPow(N));
      Init(res);
      return;
    }
    if n == 0 {
      ValueBelowWidth(a);
      ScaleOf(v, Pow2(n), WPow(N));
      Assign(res, a);
      return;
    }
    ghost var A, R, size := a.val[..], res.val[..], a.size;
    var sz := SllTop(a.size);
    SllWords(a, res, n, sz);
    res.size := if res.val[sz] != 0 then sz + 1 else sz;
    SllFinish(res, A, R, size, sz, n);
  }

  /** The state bn_sll leaves: res is valid and holds the shifted value, and
      when a was exact and nothing was shifted out, res is exact. */
  lemma {:induction false} SllFinish(res: Bn, A: seq<u64>, R: seq<u64>, size: nat, sz: nat, n: nat)
    requires res.val.Length == N == |A| == |R| && 1 <= size <= N && sz == SllTop(size) && 0 < n < 64
    requires forall k :: size <= k < N ==> A[k] == 0
    requires forall k :: sz < k < N ==> R[k] == 0 && res.val[k] == R[k]
    requires Val(res.val[..sz + 1]) == (Val(A[..sz + 1]) * Pow2(n)) % WPow(sz + 1)
    requires res.size == if res.val[sz] != 0 then sz + 1 else sz
    ensures res.Valid() && res.Value() == (Val(A) * Pow2(n)) % WPow(N)
    ensures A[size - 1] != 0 && Val(A) * Pow2(n) < WPow(N) ==> res.Exact()
  {
    ZeroTailValid(res, sz + 1);
    ghost var r := res.val[..];
    assert r[..sz + 1] == res.val[..sz + 1];
    SllValue(r, A, size, sz, n);
    if res.val[sz] == 0 {
      assert res.size == sz && r[sz] == 0 && res.val[sz - 1] == r[sz - 1];
    }
  }

  /** The words bn_sll leaves, as a sequence: the low sz + 1 words hold the
      shifted value modulo their width and the rest are zero.  They denote
      the shifted value modulo the full width, and when nothing was shifted
      out and word sz is zero, word sz - 1 is not. */
  lemma {:induction false} SllValue(r: seq<u64>, A: seq<u64>, size: nat, sz: nat, n: nat)
    requires |r| == |A| && 1 <= sz <= size <= |A| && sz < |A| && (sz == size || sz + 1 == |A|)
    requires 0 < n < 64
    requires forall k :: size <= k < |A| ==> A[k] == 0
    requires forall k :: sz < k < |r| ==> r[k] == 0
    requires Val(r[..sz + 1]) == (Val(A[..sz + 1]) * Pow2(n)) % WPow(sz + 1)
    ensures Val(r) == (Val(A) * Pow2(n)) % WPow(|A|)
    ensures A[size - 1] != 0 && Val(A) * Pow2(n) < WPow(|A|) && r[sz] == 0 ==> r[sz - 1] != 0
  {
    ValZeroTail(r, sz + 1);
    ValZeroTail(A, sz + 1);
    if sz + 1 < |A| {
      ValZeroTail(A, sz);
      ValBound(A[..sz]);
    }
    WPowLe(sz + 1, |A|);
    SllModWidth(Val(A), Pow2(n), Val(r), sz + 1, n, WPow(|A|));
    if A[size - 1] != 0 && Val(A) * Pow2(n) < WPow(|A|) && r[sz] == 0 {
      SllKeepsTopWord(r, A, size, sz);
    }
  }

  /** Scaling by 2^0 changes nothing, and zero scales to zero. */
  lemma {:induction false} ScaleOf(v: int, p: int, w: int)
    requires 0 <= v < w && p >= 1 && (p == 1 || v == 0)
    ensures (v * p) % w == v
  {
    DivModUnique(v * p, w, 0, v);
  }

  /** The shifted words of bn_sll, k = sz + 1 of them, reduced modulo
      2^(64 k), are the shifted value reduced modulo the full width: either
      k is the full width, or a's value fits in k - 1 words and nothing is
      lost.  Without loss, the result is at least a's value. */
  lemma {:induction false} SllModWidth(v: int, p: int, x: int, k: nat, n: nat, w: nat)
    requires v >= 0 && 0 < n < 64 && p == Pow2(n) && k >= 1
    requires x == (v * p) % WPow(k)
    requires WPow(k) <= w && (WPow(k) < w ==> v < WPow(k - 1))
    ensures x == (v * p) % w
    ensures v * p < w ==> x >= v
  {
    if WPow(k) < w {
      Pow2Lt(n, 64);
      Pow2Word();
      NoWrap(v, p, WPow(k - 1), WPow(k), w);
    }
    if v * p < w {
      ScaleAtLeast(v, p, v * p);
      DivModUnique(v * p, w, 0, v * p);
    }
  }

  lemma {:induction false} ScaleAtLeast(v: int, p: int, vp: int)
    requires v >= 0 && p >= 1 && vp == v * p
    ensures vp >= v
  {
    if v > 0 {
      MulLe(1, p, v);
    }
  }

  /** A product that fits in the width is not reduced. */
  lemma {:induction false} NoWrap(v: int, p: int, w: int, w1: int, wN: int)
    requires 0 <= v < w && 0 < p < 0x1_0000_0000_0000_0000 && w1 == 0x1_0000_0000_0000_0000 * w && w1 <= wN
    ensures (v * p) % w1 == v * p && (v * p) % wN == v * p
  {
    BelowNextWeight(v, p, w, 0x1_0000_0000_0000_0000);
    DivModUnique(v * p, w1, 0, v * p);
    DivModUnique(v * p, wN, 0, v * p);
  }

  /** If the shifted value equals the exact product and word sz is zero, the
      word below it is nonzero: the product is at least a's top weight. */
  lemma {:induction false} SllKeepsTopWord(r: seq<u64>, A: seq<u64>, size: nat, sz: nat)
    requires |r| == |A| && 1 <= sz <= size <= |A|
    requires forall k :: size <= k < |A| ==> A[k] == 0
    requires forall k :: sz <= k < |r| ==> r[k] == 0
    requires A[size - 1] != 0 && Val(r) >= Val(A)
    ensures r[sz - 1] != 0
  {
    TopWordNonzero(A, size);
    WPowLe(sz - 1, size - 1);
    TopWordNonzero(r, sz);
  }

  /** v below weight w, times less than one word more, stays below w words times more. */
  lemma {:induction false} BelowNextWeight(v: int, p: int, w: int, base: int)
    requires 0 <= v < w && 0 < p < base
    ensures v * p < w * base
  {
    MulLe(v, w - 1, p);
    MulLe(p, base, w);
  }

  /** A valid number is below 2^(64 BN_LENGTH). */
  lemma {:induction false} ValueBelowWidth(x: Bn)
    requires x.val.Length == N
    ensures x.Value() < WPow(N)
  {
    ValBound(x.val[..]);
  }

  /** The word loop of bn_sll (bn.h:66-69), from word sz down to word 1:
      word i keeps its low bits shifted up and takes the top n bits of word
      i - 1; word 0 is shifted in zeros.  Words sz + 1 and up are untouched. */
  method SllWords(a: Bn, res: Bn, n: nat, sz: nat)
    requires a.val.Length == N && res.val.Length == N && Separate(a, res)
    requires 0 < n < 64 && sz < N
    modifies res.val
    ensures Val(res.val[..sz + 1]) == (Val(old(a.val[..])[..sz + 1]) * Pow2(n)) % WPow(sz + 1)
    ensures forall j :: sz < j < N ==> res.val[j] == old(res.val[j])
  {
    ghost var A, R := a.val[..], res.val[..];
    ghost var S := A[..sz + 1];
    var i := sz;
    while i > 0
      invariant 0 <= i <= sz
      invariant forall j :: i < j <= sz ==> res.val[j] == ShlWord(S, j, n)
      invariant forall j :: 0 <= j <= i ==> a.val[j] == A[j]
      invariant forall j :: sz < j < N ==> res.val[j] == R[j]
    {
      res.val[i] := FunnelLeft(a.val[i], a.val[i - 1], n);
      i := i - 1;
    }
    res.val[0] := Shl(a.val[0], n);
    ShlWordsPointwise(res.val[..], S, n);
    ShlWordsValue(S, n);
  }

  /** The number of words bn_add adds (bn.h:76): the larger of the two sizes. */
  function AddTop(sa: nat, sb: nat): (sz: nat)
    ensures sz >= sa && sz >= sb && (sz == sa || sz == sb)
  {
    if sa > sb then sa else sb
  }

  /** bn_add: res becomes a + b modulo 2^(64 BN_LENGTH).  The carry out of
      the top word in use is stored in the next word when there is one and
      dropped otherwise; res may be a or b.  The size is the larger of the
      two sizes, or one more after a final carry, and stays exact when both
      operands were exact and the sum fits.  A distinct res must not have
      words in use above the ones written. */
  method Add(a: Bn, b: Bn, res: Bn)
    requires a.Valid() && b.Valid() && res.Valid()
    requires Separate(a, b) && Separate(a, res) && Separate(b, res)
    requires res == a || res == b || res.size <= AddTop(a.size, b.size) + 1
    modifies res, res.val
    ensures res.Valid()
    ensures res.Value() == (old(a.Value()) + old(b.Value())) % WPow(N)
    ensures AddTop(old(a.size), old(b.size)) <= res.size <= AddTop(old(a.size), old(b.size)) + 1
    ensures old(a.Exact()) && old(b.Exact()) && old(a.Value()) + old(b.Value()) < WPow(N) ==> res.Exact()
  {
    ghost var A, B, R, sa, sb := a.val[..], b.val[..], res.val[..], a.size, b.size;
    AddOperands(a, b, res);
    var sz := AddTop(a.size, b.size);
    var c := AddLoop(a, b, res, sz);
    AddCarryOut(res, sz, c, A, B, R, sa, sb);
  }

  /** The end of bn_add (bn.h:83-88): the carry goes to word sz when there
      is one and the size counts it when it is nonzero; at full width the
      carry is dropped and the size is BN_LENGTH.  Given the carry chain of
      the operands' words A and B in the words below sz, res is then valid,
      holds the sum modulo the width, and is exact when the operands were
      exact and the sum fits. */
  method AddCarryOut(res: Bn, sz: nat, c: Bit, ghost A: seq<u64>, ghost B: seq<u64>, ghost R: seq<u64>,
                     ghost sa: nat, ghost sb: nat)
    requires res.val.Length == |A| == |B| == |R| == N && sa <= N && sb <= N && sz == AddTop(sa, sb)
    requires ZeroFrom(A, sa) && ZeroFrom(B, sb) && ZeroFrom(R, sz + 1)
    requires res.val[..sz] == AddChain(A, B, sz).0 && c == AddChain(A, B, sz).1
    requires res.val[..][sz..] == R[sz..]
    modifies res, res.val
    ensures res.Valid() && res.Value() == (Val(A) + Val(B)) % WPow(N)
    ensures sz <= res.size <= sz + 1
    ensures TopNonzero(A, sa) && TopNonzero(B, sb) && Val(A) + Val(B) < WPow(N) ==> res.Exact()
  {
    ghost var done := res.val[..];
    if sz < N {
      res.val[sz] := c;
      res.size := if res.val[sz] != 0 then sz + 1 else sz;
    } else {
      res.size := N;
    }
    AddFinish(res, done, R, A, B, sa, sb, sz, c);
  }

  /** What bn_add relies on about its operands, read through their words
      as sequences: the words above each size are zero, and so are those of
      a distinct res above the words about to be written, and an exact
      operand has a nonzero top word. */
  lemma {:induction false} AddOperands(a: Bn, b: Bn, res: Bn)
    requires a.Valid() && b.Valid() && res.Valid()
    requires res == a || res == b || res.size <= AddTop(a.size, b.size) + 1
    ensures ZeroFrom(a.val[..], a.size) && ZeroFrom(b.val[..], b.size)
    ensures ZeroFrom(res.val[..], AddTop(a.size, b.size) + 1)
    ensures a.Value() == Val(a.val[..]) && b.Value() == Val(b.val[..])
    ensures a.Exact() ==> TopNonzero(a.val[..], a.size)
    ensures b.Exact() ==> TopNonzero(b.val[..], b.size)
  {
  }

  /** The state bn_add leaves (bn.h:83-88): the carry goes to word sz when
      there is one and the size counts it when it is nonzero; at full width
      the carry is dropped and the size is BN_LENGTH.  Then res is valid, holds
      the sum modulo the width, and is exact when the operands were exact and
      the sum fits. */
  lemma {:induction false} AddFinish(res: Bn, done: seq<u64>, R: seq<u64>, A: seq<u64>, B: seq<u64>,
                                     sa: nat, sb: nat, sz: nat, c: Bit)
    requires res.val.Length == |done| == |R| == |A| == |B| == N && sa <= N && sb <= N && sz == AddTop(sa, sb)
    requires ZeroFrom(A, sa) && ZeroFrom(B, sb) && ZeroFrom(R, sz + 1) && done[sz..] == R[sz..]
    requires done[..sz] == AddChain(A, B, sz).0 && c == AddChain(A, B, sz).1
    requires sz < N ==> res.val[..] == done[sz := c] && res.size == if c != 0 then sz + 1 else sz
    requires sz == N ==> res.val[..] == done && res.size == N
    ensures res.Valid() && res.Value() == (Val(A) + Val(B)) % WPow(N)
    ensures sz <= res.size <= sz + 1
    ensures TopNonzero(A, sa) && TopNonzero(B, sb) && Val(A) + Val(B) < WPow(N) ==> res.Exact()
  {
    var r := res.val[..];
    AddChainValue(A, B, sz);
    assert r[..sz] == done[..sz];
    assert forall k :: sz < k < N ==> r[k] == 0 by {
      assert forall k :: sz < k < N ==> r[k] == done[k] == done[sz..][k - sz] == R[k];
    }
    AddOutcome(r, A, B, sa, sb, sz, c, res.size);
  }

  /** The carry loop of bn_add (bn.h:77-82) over words 0 .. sz - 1: the
      words written and the final carry are the carry chain of the operands'
      words.  Words from sz on are untouched; res may be a or b. */
  method AddLoop(a: Bn, b: Bn, res: Bn, sz: nat) returns (c: Bit)
    requires a.val.Length == N && b.val.Length == N && res.val.Length == N && sz <= N
    modifies res.val
    ensures res.val[..sz] == AddChain(old(a.val[..]), old(b.val[..]), sz).0
    ensures c == AddChain(old(a.val[..]), old(b.val[..]), sz).1
    ensures res.val[..][sz..] == old(res.val[..])[sz..]
  {
    ghost var A, B, R := a.val[..], b.val[..], res.val[..];
    c := 0;
    var i := 0;
    while i < sz
      invariant 0 <= i <= sz
      invariant res.val[..i] == AddChain(A, B, i).0 && c == AddChain(A, B, i).1
      invariant forall j :: i <= j < N ==> a.val[j] == A[j] && b.val[j] == B[j] && res.val[j] == R[j]
    {
      var (w, carry) := AddWithCarry(a.val[i], b.val[i], c);
      ghost var before := res.val[..];
      res.val[i] := w;
      TakeUpdate(before, i, w);
      c := carry;
      i := i + 1;
    }
    assert res.val[..][sz..] == R[sz..];
  }

  /** The size bn_add sets (bn.h:83-88) leaves only zero words above it. */
  lemma {:induction false} AddTail(r: seq<u64>, sz: nat, size: nat, c: Bit)
    requires sz <= |r| && forall k :: sz < k < |r| ==> r[k] == 0
    requires sz < |r| ==> r[sz] == c && size == if c != 0 then sz + 1 else sz
    requires sz == |r| ==> size == |r|
    ensures sz <= size <= sz + 1 && size <= |r|
    ensures forall k :: size <= k < |r| ==> r[k] == 0
  {
  }

  /** The words and size bn_add leaves, as a sequence: only zero words
      above the size, the sum modulo the width, and an exact size when both
      operands were exact and the sum fits. */
  lemma {:induction false} AddOutcome(r: seq<u64>, A: seq<u64>, B: seq<u64>, sa: nat, sb: nat, sz: nat, c: Bit, size: nat)
    requires |r| == |A| == |B| && sa <= |A| && sb <= |A| && sz == AddTop(sa, sb)
    requires forall k :: sa <= k < |A| ==> A[k] == 0
    requires forall k :: sb <= k < |B| ==> B[k] == 0
    requires forall k :: sz < k < |r| ==> r[k] == 0
    requires Val(r[..sz]) + Scaled(c, sz) == Val(A[..sz]) + Val(B[..sz])
    requires sz < |r| ==> r[sz] == c && size == if c != 0 then sz + 1 else sz
    requires sz == |r| ==> size == |r|
    ensures sz <= size <= sz + 1 && size <= |r|
    ensures forall k :: size <= k < |r| ==> r[k] == 0
    ensures Val(r) == (Val(A) + Val(B)) % WPow(|r|)
    ensures (sa == 0 || A[sa - 1] != 0) && (sb == 0 || B[sb - 1] != 0) && Val(A) + Val(B) < WPow(|r|)
            ==> size == 0 || r[size - 1] != 0
  {
    AddTail(r, sz, size, c);
    assert Val(r) == (Val(A) + Val(B)) % WPow(|r|) by {
      AddSum(r, A, B, sa, sb, sz, c);
      WrapWords(r, A, B, if sz < |r| then 0 else c);
    }
    AddExact(r, A, B, sa, sb, sz, c, size);
  }

  /** Words whose value and the carry weighted by their width make the
      operands' sum hold that sum modulo their width. */
  lemma {:induction false} WrapWords(r: seq<u64>, A: seq<u64>, B: seq<u64>, q: nat)
    requires Val(r) + Scaled(q, |r|) == Val(A) + Val(B)
    ensures Val(r) == (Val(A) + Val(B)) % WPow(|r|)
  {
    ScaledIs(q, |r|);
    ValBound(r);
    DivModUnique(Val(A) + Val(B), WPow(|r|), q, Val(r));
  }

  /** The words bn_add leaves, as a sequence: with the carry when it was
      dropped they are the exact sum of the operands. */
  lemma {:induction false} AddSum(r: seq<u64>, A: seq<u64>, B: seq<u64>, sa: nat, sb: nat, sz: nat, c: Bit)
    requires |r| == |A| == |B| && sa <= |A| && sb <= |A| && sz == AddTop(sa, sb)
    requires forall k :: sa <= k < |A| ==> A[k] == 0
    requires forall k :: sb <= k < |B| ==> B[k] == 0
    requires forall k :: sz < k < |r| ==> r[k] == 0
    requires Val(r[..sz]) + Scaled(c, sz) == Val(A[..sz]) + Val(B[..sz])
    requires sz < |r| ==> r[sz] == c
    ensures Val(r) + Scaled(if sz < |r| then 0 else c, |r|) == Val(A) + Val(B)
  {
    OperandPrefixes(A, B, sa, sb, sz);
    AddValue(r, Val(A), Val(B), sz, c);
  }

  /** When both operands have a nonzero top word and the sum fits, the size
      bn_add sets is exact: either the carry word was added or word sz - 1 is
      nonzero, because the sum reaches the weight of that word. */
  lemma {:induction false} AddExact(r: seq<u64>, A: seq<u64>, B: seq<u64>, sa: nat, sb: nat, sz: nat, c: Bit, size: nat)
    requires |r| == |A| == |B| && sa <= |A| && sb <= |A| && sz == AddTop(sa, sb)
    requires forall k :: sa <= k < |A| ==> A[k] == 0
    requires forall k :: sb <= k < |B| ==> B[k] == 0
    requires forall k :: sz < k < |r| ==> r[k] == 0
    requires Val(r[..sz]) + Scaled(c, sz) == Val(A[..sz]) + Val(B[..sz])
    requires sz < |r| ==> r[sz] == c && size == if c != 0 then sz + 1 else sz
    requires sz == |r| ==> size == |r|
    ensures (sa == 0 || A[sa - 1] != 0) && (sb == 0 || B[sb - 1] != 0) && Val(A) + Val(B) < WPow(|r|)
            ==> size == 0 || r[size - 1] != 0
  {
    if (sa == 0 || A[sa - 1] != 0) && (sb == 0 || B[sb - 1] != 0) && Val(A) + Val(B) < WPow(|r|) && size > 0 {
      if sz < |r| && c != 0 {
        assert size - 1 == sz;
        assert r[size - 1] == c;
      } else {
        assert size == sz;
        AddTopWord(r, A, B, sa, sb, sz, c);
        assert r[size - 1] == r[sz - 1];
      }
    }
  }

  /** Without a stored carry, the top word bn_add wrote is nonzero when both
      operands have a nonzero top word and the sum fits: the sum reaches the
      weight of word sz - 1 and no carry was dropped. */
  lemma {:induction false} AddTopWord(r: seq<u64>, A: seq<u64>, B: seq<u64>, sa: nat, sb: nat, sz: nat, c: Bit)
    requires |r| == |A| == |B| && sa <= |A| && sb <= |A| && sz == AddTop(sa, sb) && sz > 0
    requires forall k :: sa <= k < |A| ==> A[k] == 0
    requires forall k :: sb <= k < |B| ==> B[k] == 0
    requires forall k :: sz < k < |r| ==> r[k] == 0
    requires Val(r[..sz]) + Scaled(c, sz) == Val(A[..sz]) + Val(B[..sz])
    requires sz < |r| ==> r[sz] == c && c == 0
    requires (sa == 0 || A[sa - 1] != 0) && (sb == 0 || B[sb - 1] != 0) && Val(A) + Val(B) < WPow(|r|)
    ensures r[sz - 1] != 0
  {
    OperandPrefixes(A, B, sa, sb, sz);
    OperandTop(A, B, sa, sb, sz);
    if sz == |r| {
      assert r[..sz] == r;
      NoCarry(Val(r), c, sz, Val(A) + Val(B));
    }
    ScaledIs(0, sz);
    ResultTop(r, sz, Val(A[..sz]) + Val(B[..sz]));
  }

  /** Operand words from the larger size on are zero and do not contribute. */
  lemma {:induction false} OperandPrefixes(A: seq<u64>, B: seq<u64>, sa: nat, sb: nat, sz: nat)
    requires |A| == |B| && sa <= |A| && sb <= |A| && sz == AddTop(sa, sb)
    requires forall k :: sa <= k < |A| ==> A[k] == 0
    requires forall k :: sb <= k < |B| ==> B[k] == 0
    ensures Val(A) == Val(A[..sz]) && Val(B) == Val(B[..sz])
  {
    ValZeroTail(A, sz);
    ValZeroTail(B, sz);
  }

  /** The operand with the larger size reaches the weight of word sz - 1. */
  lemma {:induction false} OperandTop(A: seq<u64>, B: seq<u64>, sa: nat, sb: nat, sz: nat)
    requires |A| == |B| && sa <= |A| && sb <= |A| && sz == AddTop(sa, sb) && sz > 0
    requires forall k :: sa <= k < |A| ==> A[k] == 0
    requires forall k :: sb <= k < |B| ==> B[k] == 0
    requires (sa == 0 || A[sa - 1] != 0) && (sb == 0 || B[sb - 1] != 0)
    ensures Val(A) + Val(B) >= WPow(sz - 1)
  {
    if sz == sa {
      TopWordNonzero(A, sa);
    } else {
      TopWordNonzero(B, sb);
    }
  }

  /** The words of bn_add's result, with the carry stored in word sz when
      there is one, denote the exact sum; without a word to hold it, the carry
      is dropped. */
  lemma {:induction false} AddValue(r: seq<u64>, va: int, vb: int, sz: nat, c: Bit)
    requires sz <= |r|
    requires forall k :: sz < k < |r| ==> r[k] == 0
    requires Val(r[..sz]) + Scaled(c, sz) == va + vb
    requires sz < |r| ==> r[sz] == c
    ensures Val(r) + Scaled(if sz < |r| then 0 else c, |r|) == va + vb
  {
    if sz < |r| {
      ValZeroTail(r, sz + 1);
      ValPrefix(r, sz);
      ScaledIs(0, |r|);
    } else {
      assert r[..sz] == r;
    }
  }

  /** Words that are zero from sz on and denote at least 2^(64 (sz - 1)):
      word sz - 1 is nonzero. */
  lemma {:induction false} ResultTop(r: seq<u64>, sz: nat, v: int)
    requires 1 <= sz <= |r| && forall k :: sz <= k < |r| ==> r[k] == 0
    requires Val(r[..sz]) == v && v >= WPow(sz - 1)
    ensures r[sz - 1] != 0
  {
    ValZeroTail(r, sz);
    TopWordNonzero(r, sz);
  }

  /** A carry weighted 2^(64 k) on top of a nonnegative part, summing below
      2^(64 k), is zero. */
  lemma {:induction false} NoCarry(v: int, c: Bit, k: nat, sum: int)
    requires v >= 0 && v + Scaled(c, k) == sum && sum < WPow(k)
    ensures c == 0
  {
    ScaledIs(c, k);
  }

  /** bn_sub: the low a.size words of res become a - b with the borrow
      chain over those words, and the size is then found by scanning down from
      word a.size - 1.  b's words from a.size on are not read and the final
      borrow is dropped, so the value is a - b modulo 2^(64 a.size), which is
      the exact difference when b <= a.  The size is always exact.  res may be
      a or b; a distinct res must not have words in use above a's. */
  method Sub(a: Bn, b: Bn, res: Bn)
    requires a.Valid() && b.Valid() && res.Valid()
    requires Separate(a, b) && Separate(a, res) && Separate(b, res)
    requires res == a || res.size <= a.size
    modifies res, res.val
    ensures res.Valid() && res.Exact() && res.size <= old(a.size)
    ensures res.Value() == (old(a.Value()) - old(b.Value())) % WPow(old(a.size))
    ensures old(b.Value()) <= old(a.Value()) ==> res.Value() == old(a.Value()) - old(b.Value())
  {
    ghost var A, B, R, sa := a.val[..], b.val[..], res.val[..], a.size;
    SubOperands(a, b, res);
    SubLoop(a, b, res);
    SubScan(res, a.size);
    SubFinish(res, A, B, R, sa);
  }

  /** What bn_sub relies on about its operands, read through their words
      as sequences: a's words from a.size on are zero, and so are those of
      res. */
  lemma {:induction false} SubOperands(a: Bn, b: Bn, res: Bn)
    requires a.Valid() && b.Valid() && res.Valid()
    requires res == a || res.size <= a.size
    ensures ZeroFrom(a.val[..], a.size) && ZeroFrom(res.val[..], a.size)
    ensures a.Value() == Val(a.val[..]) && b.Value() == Val(b.val[..])
  {
  }

  /** The borrow loop of bn_sub (bn.h:94-99) over words 0 .. a.size - 1:
      the words written are the borrow chain of the operands' words.  Words
      from a.size on are untouched; res may be a or b. */
  method SubLoop(a: Bn, b: Bn, res: Bn)
    requires a.val.Length == N && b.val.Length == N && res.val.Length == N && a.size <= N
    modifies res.val
    ensures res.val[..a.size] == SubChain(old(a.val[..]), old(b.val[..]), a.size).0
    ensures res.val[..][a.size..] == old(res.val[..])[a.size..]
  {
    ghost var A, B, R := a.val[..], b.val[..], res.val[..];
    var c: Bit := 0;
    var i := 0;
    while i < a.size
      invariant 0 <= i <= a.size
      invariant res.val[..i] == SubChain(A, B, i).0 && c == SubChain(A, B, i).1
      invariant forall j :: i <= j < N ==> a.val[j] == A[j] && b.val[j] == B[j] && res.val[j] == R[j]
    {
      var (w, borrow) := SubWithBorrow(a.val[i], b.val[i], c);
      ghost var before := res.val[..];
      res.val[i] := w;
      TakeUpdate(before, i, w);
      c := borrow;
      i := i + 1;
    }
    assert res.val[..][a.size..] == R[a.size..];
  }

  /** The size scan of bn_sub (bn.h:100-106): from word sz - 1 down, the size
      becomes one more than the index of the first nonzero word, or zero when
      there is none.  The words do not change. */
  method SubScan(res: Bn, sz: nat)
    requires res.val.Length == N && sz <= N
    modifies res
    ensures res.size <= sz && TopNonzero(res.val[..], res.size)
    ensures forall j :: res.size <= j < sz ==> res.val[j] == 0
  {
    var i: int := sz - 1;
    while i >= 0
      invariant -1 <= i < sz
      invariant forall j :: i < j < sz ==> res.val[j] == 0
    {
      if res.val[i] != 0 {
        res.size := i + 1;
        return;
      }
      i := i - 1;
    }
    res.size := 0;
  }

  /** The state bn_sub leaves: res is valid and exact, and holds a - b modulo
      the width of a's words in use, which is the exact difference when b <= a. */
  lemma {:induction false} SubFinish(res: Bn, A: seq<u64>, B: seq<u64>, R: seq<u64>, sa: nat)
    requires res.val.Length == |A| == |B| == |R| == N && sa <= N
    requires ZeroFrom(A, sa) && ZeroFrom(R, sa)
    requires res.val[..sa] == SubChain(A, B, sa).0 && res.val[..][sa..] == R[sa..]
    requires res.size <= sa && TopNonzero(res.val[..], res.size)
    requires forall j :: res.size <= j < sa ==> res.val[j] == 0
    ensures res.Valid() && res.Exact()
    ensures res.Value() == (Val(A) - Val(B)) % WPow(sa)
    ensures Val(B) <= Val(A) ==> res.Value() == Val(A) - Val(B)
  {
    var r := res.val[..];
    assert ZeroFrom(r, res.size) by {
      assert forall j :: sa <= j < N ==> r[j] == r[sa..][j - sa] == R[j];
    }
    var borrow := SubChain(A, B, sa).1;
    SubChainValue(A, B, sa);
    ScaledIs(borrow, sa);
    ValZeroTail(r, sa);
    ValZeroTail(A, sa);
    ValMod(B, sa);
    assert r[..sa] == res.val[..sa];
    ValBound(r[..sa]);
    ValBound(A[..sa]);
    SubWrap(Val(r), Val(A), Val(B), borrow, WPow(sa));
  }

  /** v = x - (y mod w) + c w with 0 <= v < w is x - y modulo w, and x - y
      itself when 0 <= x - y < w. */
  lemma {:induction false} SubWrap(v: int, x: int, y: int, c: int, w: int)
    requires w > 0 && 0 <= v < w && 0 <= x < w && y >= 0
    requires v - c * w == x - y % w
    ensures v == (x - y) % w
    ensures y <= x ==> v == x - y
  {
    DivModUnique(x - y % w, w, -c, v);
    ModMultipleAdd(x - y, y / w, w);
    assert x - y + (y / w) * w == x - y % w;
    if y <= x {
      DivModUnique(x - y, w, 0, x - y);
    }
  }

  /** What bn_mul's loop keeps: the partial product r plus the work still to
      do, x times y, is the product p modulo 2^(64 BN_LENGTH), and is p
      itself when p fits. */
  ghost predicate MulRemains(r: nat, x: nat, y: nat, p: nat)
  {
    (r + x * y) % WPow(N) == p % WPow(N) && (p < WPow(N) ==> r + x * y == p)
  }

  /** bn_mul: res becomes a * b modulo 2^(64 BN_LENGTH).  a and b are passed
      by value, so res may be either of them.  The loop strips b's set bits
      from the bottom: the trailing zeros of word 0 are moved from b to a by
      shifting, a is added in and bit 0 cleared; a zero word 0 moves 63 bits
      at once.  res is exact when a was and the product fits. */
  method Mul(a: Bn, b: Bn, res: Bn)
    requires a.Valid() && b.Valid() && res.val.Length == N
    modifies res, res.val
    ensures res.Valid()
    ensures res.Value() == (old(a.Value()) * old(b.Value())) % WPow(N)
    ensures old(a.Exact()) && old(a.Value()) * old(b.Value()) < WPow(N) ==> res.Exact()
  {
    ghost var va, vb, exact := a.Value(), b.Value(), a.Exact();
    ghost var p := va * vb;
    var x := Copy(a);
    var y := Copy(b);
    Init(res);
    assert x.Value() == va && y.Value() == vb && res.Value() == 0;
    MulStart(va, vb);
    while y.size > 0
      invariant fresh(x) && fresh(x.val) && fresh(y) && fresh(y.val) && x != y && x.val != y.val
      invariant x.Valid() && y.Valid() && res.Valid()
      invariant MulRemains(res.Value(), x.Value(), y.Value(), p)
      invariant exact && p < WPow(N) ==> res.Exact() && (y.Value() > 0 ==> x.Exact())
      decreases y.Value(), y.size
    {
      if y.val[0] != 0 {
        MulOddStep(x, y, res, p, exact);
      } else {
        MulZeroStep(x, y, res, 63, p, exact);
      }
    }
    ValZeroTail(y.val[..], 0);
    ValueBelowWidth(res);
    MulDone(res.Value(), x.Value(), p);
  }

  /** The branch of bn_mul's loop for a nonzero word 0 of b (bn.h:114-118):
      with z its trailing zeros, a is shifted left and b right by z, a is
      added into res and bit 0 of b, now set, is cleared.  The loop's
      invariant is kept and b decreases. */
  method MulOddStep(x: Bn, y: Bn, res: Bn, ghost p: nat, ghost exact: bool)
    requires x.Valid() && y.Valid() && res.Valid()
    requires x != y && x != res && y != res && x.val != y.val && x.val != res.val && y.val != res.val
    requires y.val[0] != 0
    requires MulRemains(res.Value(), x.Value(), y.Value(), p)
    requires exact && p < WPow(N) ==> res.Exact() && (y.Value() > 0 ==> x.Exact())
    modifies x, x.val, y, y.val, res, res.val
    ensures x.Valid() && y.Valid() && res.Valid()
    ensures MulRemains(res.Value(), x.Value(), y.Value(), p)
    ensures exact && p < WPow(N) ==> res.Exact() && (y.Value() > 0 ==> x.Exact())
    ensures y.Value() < old(y.Value())
  {
    ghost var r0, x0, y0 := res.Value(), x.Value(), y.Value();
    ValLowWord(y.val[..]);
    CtzOfLowWord(y0, y.val[0]);
    var z := Ctz(y.val[0]);
    ghost var P := Pow2(z);
    MulShift(r0, x0, y0, P, p);
    Sll(x, x, z);
    Srl(y, y, z);
    assert res.Value() == r0 && x.Value() == (x0 * P) % WPow(N) && y.Value() == y0 / P;
    MulAddBit(x, y, res, p, exact);
    DivBounds(y0, P);
  }

  /** The rest of that branch (bn.h:116-117), once b is odd: a is added into
      res and bit 0 of b is cleared, which keeps the loop's invariant and
      takes one off b. */
  method MulAddBit(x: Bn, y: Bn, res: Bn, ghost p: nat, ghost exact: bool)
    requires x.Valid() && y.Valid() && res.Valid()
    requires x != y && x != res && y != res && x.val != y.val && x.val != res.val && y.val != res.val
    requires y.Value() % 2 == 1
    requires MulRemains(res.Value(), x.Value(), y.Value(), p)
    requires exact && p < WPow(N) ==> res.Exact() && x.Exact()
    modifies y.val, res, res.val
    ensures y.Valid() && res.Valid()
    ensures MulRemains(res.Value(), x.Value(), y.Value(), p)
    ensures exact && p < WPow(N) ==> res.Exact() && x.Exact()
    ensures y.Value() == old(y.Value()) - 1
  {
    ghost var r0, x0, y0 := res.Value(), x.Value(), y.Value();
    MulAddIn(r0, x0, y0, p);
    Add(res, x, res);
    assert res.Value() == (r0 + x0) % WPow(N) && x.Value() == x0 && y.Value() == y0;
    ValLowWord(y.val[..]);
    LowWordParity(y0, y.val[0]);
    ClearLowBit(y);
  }

  /** `b.val[0] &= ~(1ul)` on a number whose bit 0 is set: the value drops
      by one and the size is kept. */
  method ClearLowBit(y: Bn)
    requires y.Valid() && y.val[0] % 2 == 1
    modifies y.val
    ensures y.Valid() && y.size == old(y.size)
    ensures y.Value() == old(y.Value()) - 1
  {
    ghost var before := y.val[..];
    y.val[0] := y.val[0] - y.val[0] % 2;
    ValUpdate(before, 0, y.val[0]);
  }

  /** The branch of bn_mul's loop for a zero word 0 of b (bn.h:119-122),
      which shifts by k = 63: b is a multiple of 2^k, so a is shifted left and
      b right by k.  res is untouched; b decreases, or is zero and loses its
      top word. */
  method MulZeroStep(x: Bn, y: Bn, res: Bn, k: nat, ghost p: nat, ghost exact: bool)
    requires 1 <= k < 64
    requires x.Valid() && y.Valid() && res.Valid()
    requires x != y && x != res && y != res && x.val != y.val && x.val != res.val && y.val != res.val
    requires y.size > 0 && y.val[0] == 0
    requires MulRemains(res.Value(), x.Value(), y.Value(), p)
    requires exact && p < WPow(N) ==> res.Exact() && (y.Value() > 0 ==> x.Exact())
    modifies x, x.val, y, y.val
    ensures x.Valid() && y.Valid()
    ensures MulRemains(res.Value(), x.Value(), y.Value(), p)
    ensures exact && p < WPow(N) ==> res.Exact() && (y.Value() > 0 ==> x.Exact())
    ensures y.Value() < old(y.Value()) || (y.Value() == old(y.Value()) && y.size < old(y.size))
  {
    ghost var r0, x0, y0, P := res.Value(), x.Value(), y.Value(), Pow2(k);
    ValLowWord(y.val[..]);
    ZeroLowWord(y0, k);
    MulShift(r0, x0, y0, P, p);
    Sll(x, x, k);
    Srl(y, y, k);
    assert res.Value() == r0 && x.Value() == (x0 * P) % WPow(N) && y.Value() == y0 / P;
    if y0 == 0 {
      assert y.Value() == 0;
      ValZeros(y.val[..]);
    } else {
      Pow2Le(1, k);
      DivShrinks(y0, P);
    }
  }

  /** Before the loop the partial product is zero and the work left is the
      whole product. */
  lemma {:induction false} MulStart(va: nat, vb: nat)
    ensures MulRemains(0, va, vb, va * vb)
  {
  }

  /** Moving a factor P that divides y from y to x keeps the loop's
      invariant, with x times P reduced modulo 2^(64 BN_LENGTH); nothing is
      reduced when the product fits and y is nonzero. */
  lemma {:induction false} MulShift(r: nat, x: nat, y: nat, P: nat, p: nat)
    requires P > 0 && y % P == 0
    requires MulRemains(r, x, y, p)
    ensures MulRemains(r, (x * P) % WPow(N), y / P, p)
    ensures p < WPow(N) && y > 0 ==> x * P < WPow(N)
  {
    var W, q := WPow(N), y / P;
    assert y == q * P;
    ShiftFactor(x, P, q, y);
    ReduceFactor(r, x * P, q, W);
    if p < W && y > 0 {
      if x > 0 {
        MulAtLeast(q, x * P);
      }
      DivModUnique(x * P, W, 0, x * P);
    }
  }

  lemma {:induction false} ShiftFactor(x: int, P: int, q: int, y: int)
    requires y == q * P
    ensures x * P * q == x * y
  {
  }

  /** Adding x into r and taking one off y keeps the loop's invariant, and
      the addition does not wrap when the product fits. */
  lemma {:induction false} MulAddIn(r: nat, x: nat, y: nat, p: nat)
    requires y >= 1 && MulRemains(r, x, y, p)
    ensures MulRemains((r + x) % WPow(N), x, y - 1, p)
    ensures p < WPow(N) ==> r + x < WPow(N)
  {
    var W := WPow(N);
    assert x + x * (y - 1) == x * y;
    ModAddMod(r + x, x * (y - 1), W);
    if p < W {
      if x > 0 {
        MulAtLeast(y, x);
      }
      DivModUnique(r + x, W, 0, r + x);
    }
  }

  /** With nothing left to do, a partial product below 2^(64 BN_LENGTH) is
      the product modulo 2^(64 BN_LENGTH). */
  lemma {:induction false} MulDone(r: nat, x: nat, p: nat)
    requires MulRemains(r, x, 0, p) && r < WPow(N)
    ensures r == p % WPow(N)
  {
    DivModUnique(r, WPow(N), 0, r);
  }

  /** bn2string: the decimal representation of a, without leading zeros.  a
      is passed by value.  A buffer of 64 BN_LENGTH / 3 + 2 characters holds
      a '0' in every slot but the last, which holds NUL.  For each of the
      64 size bits of a, from the top, the digits are doubled and the bit
      added, the bit being the top bit of word size - 1 of a, which is
      shifted left once per pass.  Leading '0's are then skipped, keeping at
      least the last digit. */
  method ToString(a: Bn) returns (s: string)
    requires a.Valid()
    ensures s == DecimalString(a.Value())
  {
    ghost var v := a.Value();
    var x := Copy(a);
    var str := NewDigits(N);
    FillDigits(x, str, v);
    var j := SkipZeros(str);
    s := str[j..str.Length - 1];
    StripLeadingZeros(str[..str.Length - 1], j);
    assert str[..str.Length - 1][j..] == s;
  }

  /** bn2string's buffer (bn.h:128-131) for numbers of n words: 64 n / 3 + 2
      characters, all '0' but the terminating NUL, which is room for the
      decimal digits of any value below 2^(64 n). */
  method NewDigits(n: nat) returns (str: array<char>)
    ensures fresh(str) && str.Length == 64 * n / 3 + 2
    ensures WPow(n) < Pow10(str.Length - 1)
    ensures AllDigits(str[..str.Length - 1]) && DVal(str[..str.Length - 1]) == 0
  {
    var len := 64 * n / 3 + 2;
    str := new char[len](k => if k < len - 1 then '0' else 0 as char);
    DValAllZeros(str[..len - 1]);
    DigitRoom(n, len);
  }

  /** A buffer of 64 n / 3 + 2 characters has room for the digits of any
      number of n words, and for the NUL. */
  lemma {:induction false} DigitRoom(n: nat, len: nat)
    requires len == 64 * n / 3 + 2
    ensures WPow(n) < Pow10(len - 1)
  {
    WPowIsPow2(n);
    DigitsSuffice(64 * n, len - 1);
  }

  /** bn2string's search for the first significant digit (bn.h:146-148):
      the index of the first digit other than '0', or of the last digit
      slot str[Length - 2] when all but that one are '0'. */
  method SkipZeros(str: array<char>) returns (j: nat)
    requires str.Length >= 2
    ensures j <= str.Length - 2
    ensures forall k :: 0 <= k < j ==> str[k] == '0'
    ensures j == str.Length - 2 || str[j] != '0'
  {
    j := 0;
    while j < str.Length - 2 && str[j] == '0'
      invariant 0 <= j <= str.Length - 2
      invariant forall k :: 0 <= k < j ==> str[k] == '0'
    {
      j := j + 1;
    }
  }

  /** bn2string's outer loop (bn.h:135-142): one pass per bit of the used
      words, most significant first.  The digit buffer, all zeros on entry
      and with room for any value, ends up holding v in decimal. */
  method FillDigits(x: Bn, str: array<char>, ghost v: nat)
    requires x.Valid() && x.Value() == v
    requires str.Length >= 1 && WPow(N) < Pow10(str.Length - 1)
    requires AllDigits(str[..str.Length - 1]) && DVal(str[..str.Length - 1]) == 0
    modifies x, x.val, str
    ensures AllDigits(str[..str.Length - 1]) && DVal(str[..str.Length - 1]) == v
  {
    ValueBelowSize(x);
    var sz := x.size;
    WPowLe(sz, N);
    TakeAllBits(x, str, sz, v);
  }

  /** The passes themselves, for a copy of v that uses sz words. */
  method TakeAllBits(x: Bn, str: array<char>, sz: nat, ghost v: nat)
    requires x.Valid() && x.Value() == v && sz <= N && v < WPow(sz) <= WPow(N)
    requires str.Length >= 1 && WPow(N) < Pow10(str.Length - 1)
    requires AllDigits(str[..str.Length - 1]) && DVal(str[..str.Length - 1]) == 0
    modifies x, x.val, str
    ensures AllDigits(str[..str.Length - 1]) && DVal(str[..str.Length - 1]) == v
  {
    var i := 0;
    NothingAbove(v, sz, i);
    NoShiftYet(v, WPow(N), i);
    while i < 64 * sz
      invariant 0 <= i <= 64 * sz
      invariant x.Valid() && x.Value() == (v * Pow2(i)) % WPow(N)
      invariant AllDigits(str[..str.Length - 1]) && DVal(str[..str.Length - 1]) == v / Pow2(64 * sz - i)
    {
      StringPass(x, str, sz, 63, v, i);
      i := i + 1;
    }
    AllBitsTaken(v, 64 * sz - i);
  }

  /** After the last pass no bit of v is left out of the digits. */
  lemma {:induction false} AllBitsTaken(v: nat, e: nat)
    requires e == 0
    ensures v / Pow2(e) == v
  {
  }

  /** One pass of bn2string's outer loop (bn.h:135-142): the digits take in
      the next bit of v, bit top = 63 of word size - 1, and the copy of a is
      shifted left once. */
  method StringPass(x: Bn, str: array<char>, sz: nat, top: nat, ghost v: nat, ghost i: nat)
    requires top + 1 == 64
    requires x.Valid() && 1 <= sz <= N && i < 64 * sz && str.Length >= 1 && WPow(N) < Pow10(str.Length - 1)
    requires v < WPow(N) && x.Value() == (v * Pow2(i)) % WPow(N)
    requires AllDigits(str[..str.Length - 1]) && DVal(str[..str.Length - 1]) == v / Pow2(64 * sz - i)
    modifies x, x.val, str
    ensures x.Valid() && x.Value() == (v * Pow2(i + 1)) % WPow(N)
    ensures AllDigits(str[..str.Length - 1]) && DVal(str[..str.Length - 1]) == v / Pow2(64 * sz - (i + 1))
  {
    var carry := Shr(x.val[sz - 1], top);
    ghost var d, bit := PassFacts(x.val[..], v, sz, i, top, str.Length - 1);
    ghost var x0 := x.Value();
    PassStep(x, str, carry, d);
    ShiftOnce(v, i, x0, x.Value(), WPow(N));
  }

  /** The rest of a pass (bn.h:136-142): the digits, which denote d, take in
      the bit just read, and the copy is shifted left once. */
  method PassStep(x: Bn, str: array<char>, bit: Bit, ghost d: nat)
    requires x.Valid() && str.Length >= 1
    requires AllDigits(str[..str.Length - 1]) && DVal(str[..str.Length - 1]) == d
    requires 2 * d + bit < Pow10(str.Length - 1)
    modifies x, x.val, str
    ensures x.Valid() && x.Value() == (old(x.Value()) * Pow2(1)) % WPow(N)
    ensures AllDigits(str[..str.Length - 1]) && DVal(str[..str.Length - 1]) == 2 * d + bit
  {
    TakeBit(str, bit, d);
    Sll(x, x, 1);
  }

  /** The inner loop of bn2string (bn.h:136-141): the digits, which denote
      d, are doubled and the bit added.  The carry out of the first digit is
      dropped; when 2 d + bit fits in the digits it is zero. */
  method TakeBit(str: array<char>, bit: Bit, ghost d: nat)
    requires str.Length >= 1
    requires AllDigits(str[..str.Length - 1]) && DVal(str[..str.Length - 1]) == d
    requires 2 * d + bit < Pow10(str.Length - 1)
    modifies str
    ensures AllDigits(str[..str.Length - 1]) && DVal(str[..str.Length - 1]) == 2 * d + bit
  {
    var overflow := DoubleDigits(str, str.Length - 1, bit);
    CarryOutZero(DVal(str[..str.Length - 1]), overflow, Pow10(str.Length - 1), 2 * d + bit);
  }

  lemma {:induction false} CarryOutZero(d: nat, overflow: Bit, p: nat, t: nat)
    requires d + overflow * p == t < p
    ensures overflow == 0 && d == t
  {
  }

  /** What one pass relies on, for a number of |w| words shifted left i
      times whose top word in use is sz - 1: the bit read is bit 64 sz - 1 - i
      of v, and the bits of v from there up, twice those above plus that bit,
      fit in the digits. */
  lemma {:induction false} PassFacts(w: seq<u64>, v: nat, sz: nat, i: nat, top: nat, digits: nat) returns (d: nat, bit: Bit)
    requires top + 1 == 64
    requires 1 <= sz <= |w| && i < 64 * sz && WPow(|w|) < Pow10(digits)
    requires v < WPow(|w|) && Val(w) == (v * Pow2(i)) % WPow(|w|)
    ensures d == v / Pow2(64 * sz - i) && bit == Shr(w[sz - 1], top)
    ensures bit == (v / Pow2(64 * sz - 1 - i)) % 2
    ensures v / Pow2(64 * sz - (i + 1)) == 2 * d + bit && 2 * d + bit < Pow10(digits)
  {
    d, bit := NextBit(v, 64 * sz - 1 - i, 64 * sz - i, 64 * sz - (i + 1), digits);
    TopBitRead(w, v, sz, i, 64 * sz - 1 - i, top);
  }

  /** The bits of v from bit m up are twice the bits from bit m + 1 up plus
      bit m; like v they fit in the buffer's digits. */
  lemma {:induction false} NextBit(v: nat, m: nat, above: nat, here: nat, digits: nat) returns (d: nat, bit: Bit)
    requires above == m + 1 && here == m
    requires v < Pow10(digits)
    ensures d == v / Pow2(above) && bit == (v / Pow2(m)) % 2
    ensures v / Pow2(here) == 2 * d + bit && 2 * d + bit < Pow10(digits)
  {
    HalvingStep(v, m);
    DivBounds(v, Pow2(m));
    DivBounds(v, Pow2(above));
    d, bit := v / Pow2(above), (v / Pow2(m)) % 2;
  }

  /** Before the first pass no bit of v has been read: v has none at or
      above bit 64 size. */
  lemma {:induction false} NothingAbove(v: nat, sz: nat, i: nat)
    requires v < WPow(sz) && i == 0
    ensures v / Pow2(64 * sz - i) == 0
  {
    WPowIsPow2(sz);
    DivModUnique(v, Pow2(64 * sz), 0, v);
  }

  /** Before the first pass the copy of a still holds v. */
  lemma {:induction false} NoShiftYet(v: nat, w: nat, i: nat)
    requires v < w && i == 0
    ensures (v * Pow2(i)) % w == v
  {
    DivModUnique(v, w, 0, v);
  }

  /** The bit bn2string reads in pass i: with a shifted left i times, bit 63
      of word size - 1 is bit 64 size - 1 - i of the original value. */
  lemma {:induction false} TopBitRead(w: seq<u64>, v: nat, sz: nat, i: nat, m: nat, top: nat)
    requires top + 1 == 64
    requires 1 <= sz <= |w| && m + i + 1 == 64 * sz
    requires Val(w) == (v * Pow2(i)) % WPow(|w|)
    ensures Shr(w[sz - 1], top) == (v / Pow2(m)) % 2
  {
    WordOfVal(w, sz - 1);
    TopBitOfWord(Val(w), sz - 1, top);
    assert 64 * (sz - 1) + top == m + i;
    WPowIsPow2(|w|);
    BitOfShifted(v, i, m + i, 64 * |w|);
  }

  /** Shifting the copy once more keeps it equal to v shifted i + 1 times. */
  lemma {:induction false} ShiftOnce(v: nat, i: nat, x0: nat, x1: nat, w: nat)
    requires w > 0 && x0 == (v * Pow2(i)) % w && x1 == (x0 * Pow2(1)) % w
    ensures x1 == (v * Pow2(i + 1)) % w
  {
    var t := v * Pow2(i);
    assert Pow2(1) == 2;
    ModMulMod(t, 2, w);
    assert Pow2(i + 1) == 2 * Pow2(i);
    ShiftFactor(v, Pow2(i), 2, 2 * Pow2(i));
  }
}
