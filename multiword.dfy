/** Word sequences, least significant word first, as the numbers they denote,
    and the word-by-word shift, add and subtract loops that both big-number
    headers run, as functions on those sequences.  bn.h runs them over the
    first `size` words of a number, test.c over all of its words. */
module Multiword {
  import opened Arith
  import opened Words

  /** 2^(64 k): the weight of word k. */
  function WPow(k: nat): (r: nat)
    ensures r >= 1
  {
    if k == 0 then 1 else 0x1_0000_0000_0000_0000 * WPow(k - 1)
  }

  lemma {:induction false} WPowAdd(a: nat, b: nat)
    ensures WPow(a + b) == WPow(a) * WPow(b)
  {
    if b > 0 {
      WPowAdd(a, b - 1);
      WPowAddStep(WPow(a + b), WPow(a + (b - 1)), WPow(a), WPow(b - 1), WPow(b));
    }
  }

  lemma {:induction false} WPowAddStep(ab: int, ab1: int, wa: int, wb1: int, wb: int)
    requires ab == 0x1_0000_0000_0000_0000 * ab1 && ab1 == wa * wb1 && wb == 0x1_0000_0000_0000_0000 * wb1
    ensures ab == wa * wb
  {
  }

  lemma {:induction false} WPowIsPow2(k: nat)
    ensures WPow(k) == Pow2(64 * k)
  {
    if k > 0 {
      WPowIsPow2(k - 1);
      Pow2Add(64 * (k - 1), 64);
      Pow2Word();
    }
  }

  lemma {:induction false} WPowLe(a: nat, b: nat)
    requires a <= b
    ensures WPow(a) <= WPow(b)
  {
    WPowIsPow2(a);
    WPowIsPow2(b);
    Pow2Le(64 * a, 64 * b);
  }

  function Zeros(n: nat): seq<u64>
  {
    seq(n, _ => 0)
  }

  /** x * 2^(64 k), as k multiplications by the word base.  Val is written
      with it rather than with x * WPow(k), so that the facts about Val are
      linear; ScaledIs turns it into the product where one is needed. */
  function Scaled(x: int, k: nat): int
  {
    if k == 0 then x else 0x1_0000_0000_0000_0000 * Scaled(x, k - 1)
  }

  lemma {:induction false} ScaledIs(x: int, k: nat)
    ensures Scaled(x, k) == x * WPow(k)
  {
    if k > 0 {
      ScaledIs(x, k - 1);
      ScaledStep(x, WPow(k - 1), Scaled(x, k - 1));
    }
  }

  lemma {:induction false} ScaledStep(x: int, w: int, sc: int)
    requires sc == x * w
    ensures 0x1_0000_0000_0000_0000 * sc == x * (0x1_0000_0000_0000_0000 * w)
  {
  }

  /** Scaling distributes over sums. */
  lemma {:induction false} ScaledAdd(x: int, y: int, k: nat)
    ensures Scaled(x + y, k) == Scaled(x, k) + Scaled(y, k)
  {
    if k > 0 {
      ScaledAdd(x, y, k - 1);
    }
  }

  /** Scaling by a words and then by b words is scaling by a + b words. */
  lemma {:induction false} ScaledTwice(x: int, a: nat, b: nat)
    ensures Scaled(Scaled(x, a), b) == Scaled(x, a + b)
  {
    if b > 0 {
      ScaledTwice(x, a, b - 1);
    }
  }

  /** One more word of weight is one more factor of the base. */
  lemma {:induction false} ScaledBase(x: int, k: nat)
    ensures Scaled(0x1_0000_0000_0000_0000 * x, k) == Scaled(x, k + 1)
  {
    if k > 0 {
      ScaledBase(x, k - 1);
    }
  }

  /** The number denoted by a word sequence: the sum of s[i] * 2^(64 i). */
  function Val(s: seq<u64>): nat
  {
    if |s| == 0 then
      0
    else
      var k := |s| - 1;
      ScaledNonneg(s[k], k);
      Val(s[..k]) + Scaled(s[k], k)
  }

  lemma {:induction false} ScaledNonneg(x: nat, k: nat)
    ensures Scaled(x, k) >= 0
  {
    if k > 0 {
      ScaledNonneg(x, k - 1);
    }
  }

  /** k words denote less than 2^(64 k). */
  lemma {:induction false} ValBound(s: seq<u64>)
    ensures Val(s) < WPow(|s|)
  {
    if |s| > 0 {
      var k := |s| - 1;
      ValBound(s[..k]);
      ScaledIs(s[k], k);
      JoinFields(s[k], Val(s[..k]), 0x1_0000_0000_0000_0000, WPow(k));
    }
  }

  lemma {:induction false} ValAppend(s: seq<u64>, x: u64)
    ensures Val(s + [x]) == Val(s) + Scaled(x, |s|)
  {
    assert (s + [x])[..|s|] == s;
  }

  lemma {:induction false} ValPrefix(s: seq<u64>, i: nat)
    requires i < |s|
    ensures Val(s[..i + 1]) == Val(s[..i]) + Scaled(s[i], i)
  {
    assert s[..i + 1][..i] == s[..i];
  }

  /** The low k words and the remaining words contribute independently. */
  lemma {:induction false} ValSplit(s: seq<u64>, k: nat)
    requires k <= |s|
    ensures Val(s) == Scaled(Val(s[k..]), k) + Val(s[..k])
    decreases |s|
  {
    if |s| == k {
      assert s[..k] == s;
      assert s[k..] == [];
      ScaledIs(0, k);
    } else {
      var m := |s| - 1;
      var front := s[..m];
      ValSplit(front, k);
      assert front[..k] == s[..k] && front[k..] == s[k..m];
      assert s[k..] == s[k..m] + [s[m]];
      ValAppend(s[k..m], s[m]);
      ScaledAdd(Val(s[k..m]), Scaled(s[m], m - k), k);
      ScaledTwice(s[m], m - k, k);
    }
  }

  lemma {:induction false} ValMod(s: seq<u64>, k: nat)
    requires k <= |s|
    ensures Val(s[..k]) == Val(s) % WPow(k)
    ensures Val(s[k..]) == Val(s) / WPow(k)
  {
    ValSplit(s, k);
    ValBound(s[..k]);
    ScaledIs(Val(s[k..]), k);
    DivModUnique(Val(s), WPow(k), Val(s[k..]), Val(s[..k]));
  }

  lemma {:induction false} ValZeros(s: seq<u64>)
    ensures Val(s) == 0 <==> forall j :: 0 <= j < |s| ==> s[j] == 0
  {
    if |s| > 0 {
      var m := |s| - 1;
      ValZeros(s[..m]);
      assert forall j :: 0 <= j < m ==> s[..m][j] == s[j];
      ScaledIs(s[m], m);
      if s[m] != 0 {
        MulAtLeast(s[m], WPow(m));
      }
    }
  }

  /** Every word from index k on is zero. */
  ghost predicate ZeroFrom(s: seq<u64>, k: nat)
  {
    forall j :: k <= j < |s| ==> s[j] == 0
  }

  /** Words that are zero from index k on do not contribute. */
  lemma {:induction false} ValZeroTail(s: seq<u64>, k: nat)
    requires k <= |s|
    requires forall j :: k <= j < |s| ==> s[j] == 0
    ensures Val(s) == Val(s[..k])
  {
    ValSplit(s, k);
    ValZeros(s[k..]);
    ScaledIs(0, k);
  }

  /** Overwriting word k changes the value by the difference times 2^(64 k). */
  lemma {:induction false} ValUpdate(s: seq<u64>, k: nat, x: u64)
    requires k < |s|
    ensures Val(s[k := x]) + Scaled(s[k], k) == Val(s) + Scaled(x, k)
  {
    var t := s[k := x];
    ValSplit(s, k + 1);
    ValSplit(t, k + 1);
    assert t[k + 1..] == s[k + 1..];
    assert t[..k + 1][..k] == s[..k + 1][..k];
    ValPrefix(t, k);
    ValPrefix(s, k);
  }

  /** The least significant word is the value modulo 2^64. */
  lemma {:induction false} ValLowWord(s: seq<u64>)
    requires |s| >= 1
    ensures Val(s) % 0x1_0000_0000_0000_0000 == s[0]
  {
    ValMod(s, 1);
    ValPrefix(s, 0);
  }

  /** No word is in use, or the top word in use, word size - 1, is nonzero. */
  ghost predicate TopNonzero(s: seq<u64>, size: nat)
  {
    size == 0 || (size <= |s| && s[size - 1] != 0)
  }

  /** For words that are zero from index `size` on, word size - 1 is nonzero
      exactly when the value reaches 2^(64 (size - 1)). */
  lemma {:induction false} TopWordNonzero(s: seq<u64>, size: nat)
    requires 1 <= size <= |s|
    requires forall j :: size <= j < |s| ==> s[j] == 0
    ensures s[size - 1] != 0 <==> Val(s) >= WPow(size - 1)
  {
    ValZeroTail(s, size);
    ValPrefix(s, size - 1);
    ValBound(s[..size - 1]);
    assert s[..size - 1 + 1] == s[..size];
    ScaledIs(s[size - 1], size - 1);
    TopAlgebra(Val(s), Val(s[..size - 1]), s[size - 1], WPow(size - 1));
  }

  /** A top digit above a lower part that is below its weight: the top digit
      is nonzero exactly when the whole reaches the weight. */
  lemma {:induction false} TopAlgebra(v: int, lo: int, top: int, w: int)
    requires v == lo + top * w && 0 <= lo < w && top >= 0
    ensures top != 0 <==> v >= w
  {
    if top != 0 {
      MulAtLeast(top, w);
    }
  }

  /** The last-word decomposition of Val, as a product. */
  lemma {:induction false} ValLast(s: seq<u64>)
    requires |s| >= 1
    ensures Val(s) == Val(s[..|s| - 1]) + s[|s| - 1] * WPow(|s| - 1)
    ensures WPow(|s|) == 0x1_0000_0000_0000_0000 * WPow(|s| - 1)
  {
    ScaledIs(s[|s| - 1], |s| - 1);
  }

  /** bn_srl's word loop for 0 < n < 64: word i takes its low bits from word
      i and its top n bits from word i + 1; the top word is shifted in zeros. */
  function ShrWords(s: seq<u64>, n: nat): (r: seq<u64>)
    requires 0 < n < 64
    ensures |r| == |s|
  {
    seq(|s|, i requires 0 <= i < |s| => ShrWord(s, i, n))
  }

  /** Word i of ShrWords(s, n). */
  function ShrWord(s: seq<u64>, i: nat, n: nat): u64
    requires i < |s| && 0 < n < 64
  {
    if i + 1 < |s| then FunnelRight(s[i], s[i + 1], n) else Shr(s[i], n)
  }

  /** Words that agree with ShrWord(s, ., n) one by one are ShrWords(s, n). */
  lemma {:induction false} ShrWordsPointwise(r: seq<u64>, s: seq<u64>, n: nat)
    requires |s| <= |r| && 0 < n < 64
    requires forall j :: 0 <= j < |s| ==> r[j] == ShrWord(s, j, n)
    ensures r[..|s|] == ShrWords(s, n)
  {
  }

  /** The words shifted right denote the value divided by 2^n. */
  lemma {:induction false} ShrWordsValue(s: seq<u64>, n: nat)
    requires 0 < n < 64
    ensures Val(ShrWords(s, n)) == Val(s) / Pow2(n)
  {
    var r := ShrWords(s, n);
    var p := Pow2(n);
    if |s| > 0 {
      var last := |s| - 1;
      ShrPrefix(s, n, last);
      ValLast(r);
      assert s[..last + 1] == s;
      var vr, vrTop, sh, w, low, vs := Val(r[..last]), Val(r), Shr(s[last], n), WPow(last), s[0] % p, Val(s);
      ShrLastAlgebra(vr, vrTop, sh, w, p, low, vs);
      DivModParts(s[0], p);
      DivModUnique(vs, p, vrTop, low);
    } else {
      DivModUnique(0, p, 0, 0);
    }
  }

  lemma {:induction false} ShrLastAlgebra(vr: int, vrTop: int, sh: int, w: int, p: int, low: int, vs: int)
    requires vr * p + sh * p * w + low == vs
    requires vrTop == vr + sh * w
    ensures vs == vrTop * p + low
  {
  }

  /** After i words, the shifted prefix times 2^n, the bits of word i that
      stay in word i, and the bits shifted out of the bottom make up the
      first i + 1 words. */
  lemma {:induction false} ShrPrefix(s: seq<u64>, n: nat, i: nat)
    requires 0 < n < 64 && i < |s|
    ensures var r := ShrWords(s, n);
      Val(r[..i]) * Pow2(n) + Shr(s[i], n) * Pow2(n) * WPow(i) + s[0] % Pow2(n) == Val(s[..i + 1])
  {
    var r := ShrWords(s, n);
    var p, q := Pow2(n), Pow2(64 - n);
    if i == 0 {
      assert s[..1] == [] + [s[0]];
      ValAppend([], s[0]);
      ScaledIs(s[0], 0);
      DivModParts(s[0], p);
      ShrFirstAlgebra(s[0], Shr(s[0], n), s[0] % p, p, WPow(0), Val(r[..0]));
    } else {
      var j := i - 1;
      var w: int, wi: int := WPow(j), WPow(i);
      var rj: int, x: int := r[j], s[i];
      var vr: int, vrNext: int, vs: int, vsNext: int := Val(r[..j]), Val(r[..i]), Val(s[..j + 1]), Val(s[..i + 1]);
      var lo: int, hi: int, sh: int, low: int := Shr(s[j], n), s[i] % p, Shr(s[i], n), s[0] % p;
      assert vr * p + lo * p * w + low == vs by {
        ShrPrefix(s, n, j);
      }
      assert p * q == 0x1_0000_0000_0000_0000 by {
        Pow2Complement(n);
      }
      assert rj == hi * q + lo by {
        DivModParts(rj, q);
      }
      assert x == sh * p + hi by {
        DivModParts(x, p);
      }
      assert vrNext == vr + rj * w by {
        assert r[..i][..j] == r[..j] && r[..i][j] == rj;
        ValLast(r[..i]);
      }
      assert vsNext == vs + x * wi by {
        assert s[..i + 1][..i] == s[..j + 1] && s[..i + 1][i] == s[i];
        ValLast(s[..i + 1]);
      }
      assert wi == 0x1_0000_0000_0000_0000 * w;
      ShrStepAlgebra(vr, rj, vrNext, lo, hi, q, p, w, wi, 0x1_0000_0000_0000_0000,
                     low, vs, vsNext, sh, x);
    }
  }

  lemma {:induction false} DivModParts(x: int, m: int)
    requires m > 0
    ensures x == (x / m) * m + x % m
  {
  }

  lemma {:induction false} ShrFirstAlgebra(x: int, sh: int, low: int, p: int, w0: int, v0: int)
    requires x == sh * p + low && w0 == 1 && v0 == 0
    ensures v0 * p + sh * p * w0 + low == 0 + x * w0
  {
  }

  lemma {:induction false} ShrStepAlgebra(vr: int, rj: int, vrNext: int, lo: int, hi: int, q: int, p: int, w: int, wi: int, base: int,
                       low: int, vs: int, vsNext: int, sh: int, next: int)
    requires vr * p + lo * p * w + low == vs
    requires rj == hi * q + lo
    requires vrNext == vr + rj * w
    requires base == p * q && wi == base * w
    requires vsNext == vs + next * wi
    requires next == sh * p + hi
    ensures vrNext * p + sh * p * wi + low == vsNext
  {
    assert rj * w * p == hi * (p * q * w) + lo * p * w;
    assert next * wi == sh * p * wi + hi * (p * q * w);
  }

  /** bn_sll's word loop for 0 < n < 64: word i keeps its low 64 - n bits
      shifted up and takes the top n bits of word i - 1; word 0 is shifted in
      zeros and the top n bits of the last word are lost. */
  function ShlWords(s: seq<u64>, n: nat): (r: seq<u64>)
    requires 0 < n < 64
    ensures |r| == |s|
  {
    seq(|s|, i requires 0 <= i < |s| => ShlWord(s, i, n))
  }

  /** Word i of ShlWords(s, n). */
  function ShlWord(s: seq<u64>, i: nat, n: nat): u64
    requires i < |s| && 0 < n < 64
  {
    if i == 0 then Shl(s[0], n) else FunnelLeft(s[i], s[i - 1], n)
  }

  /** Words that agree with ShlWord(s, ., n) one by one are ShlWords(s, n). */
  lemma {:induction false} ShlWordsPointwise(r: seq<u64>, s: seq<u64>, n: nat)
    requires |s| <= |r| && 0 < n < 64
    requires forall j :: 0 <= j < |s| ==> r[j] == ShlWord(s, j, n)
    ensures r[..|s|] == ShlWords(s, n)
  {
  }

  /** The words shifted left denote the value times 2^n, reduced modulo the
      width of the sequence. */
  lemma {:induction false} ShlWordsValue(s: seq<u64>, n: nat)
    requires 0 < n < 64
    ensures Val(ShlWords(s, n)) == (Val(s) * Pow2(n)) % WPow(|s|)
  {
    var r := ShlWords(s, n);
    if |s| > 0 {
      ShlPrefix(s, n, |s|);
      assert r[..|s|] == r && s[..|s|] == s;
      var vr, out, w, x := Val(r), s[|s| - 1] / Pow2(64 - n), WPow(|s|), Val(s) * Pow2(n);
      assert x == out * w + vr;
      ValBound(r);
      DivModUnique(x, w, out, vr);
    }
  }

  lemma {:induction false} ShlPrefix(s: seq<u64>, n: nat, i: nat)
    requires 0 < n < 64 && 1 <= i <= |s|
    ensures ShlClaim(s, n, i)
  {
    if i == 1 {
      ShlPrefixFirst(s, n);
    } else {
      ShlPrefix(s, n, i - 1);
      ShlPrefixStep(s, n, i - 1);
    }
  }

  /** After i words, the shifted prefix plus the bits pushed out of word
      i - 1 make up the first i words times 2^n. */
  ghost predicate ShlClaim(s: seq<u64>, n: nat, i: nat)
    requires 0 < n < 64 && 1 <= i <= |s|
  {
    var r := ShlWords(s, n);
    Val(r[..i]) + (s[i - 1] / Pow2(64 - n)) * WPow(i) == Val(s[..i]) * Pow2(n)
  }

  lemma {:induction false} ShlPrefixStep(s: seq<u64>, n: nat, j: nat)
    requires 0 < n < 64 && 1 <= j < |s|
    requires ShlClaim(s, n, j)
    ensures ShlClaim(s, n, j + 1)
  {
    var i := j + 1;
    var r := ShlWords(s, n);
    var p, q := Pow2(n), Pow2(64 - n);
    var rj, x := r[j], s[j];
    var w, wi := WPow(j), WPow(i);
    var vr, vrNext, vs, vsNext := Val(r[..j]), Val(r[..i]), Val(s[..j]), Val(s[..i]);
    assert p * q == 0x1_0000_0000_0000_0000 by {
      Pow2Complement(n);
    }
    assert x == (x / q) * q + x % q by {
      DivModParts(x, q);
    }
    assert rj == (x % q) * p + s[j - 1] / q;
    assert vrNext == vr + rj * w && wi == 0x1_0000_0000_0000_0000 * w by {
      assert r[..i][..j] == r[..j] && r[..i][j] == rj;
      ValLast(r[..i]);
    }
    assert vsNext == vs + x * w by {
      assert s[..i][..j] == s[..j] && s[..i][j] == x;
      ValLast(s[..i]);
    }
    ShlStepAlgebra(vr, rj, vrNext, s[j - 1] / q, x % q, x / q, x, p, q, 0x1_0000_0000_0000_0000,
                   w, wi, vs, vsNext);
  }

  lemma {:induction false} ShlPrefixFirst(s: seq<u64>, n: nat)
    requires 0 < n < 64 && 1 <= |s|
    ensures ShlClaim(s, n, 1)
  {
    var r := ShlWords(s, n);
    var p, q := Pow2(n), Pow2(64 - n);
    var x := s[0];
    var vr, vs := Val(r[..1]), Val(s[..1]);
    assert p * q == 0x1_0000_0000_0000_0000 by {
      Pow2Complement(n);
    }
    assert x == (x / q) * q + x % q by {
      DivModParts(x, q);
    }
    assert vr == r[0] by {
      assert r[..1] == [] + [r[0]];
      ValAppend([], r[0]);
      ScaledIs(r[0], 0);
    }
    assert vs == x by {
      assert s[..1] == [] + [x];
      ValAppend([], x);
      ScaledIs(x, 0);
    }
    assert r[0] == (x % q) * p;
    assert WPow(1) == 0x1_0000_0000_0000_0000 by {
      assert WPow(1) == 0x1_0000_0000_0000_0000 * WPow(0);
    }
    ShlFirstAlgebra(x, x / q, x % q, p, q, 0x1_0000_0000_0000_0000, WPow(1), r[0], vr, vs);
  }

  lemma {:induction false} ShlFirstAlgebra(x: int, hi: int, lo: int, p: int, q: int, base: int, w1: int, r0: int, vr: int, vs: int)
    requires x == hi * q + lo && base == p * q && w1 == base
    requires r0 == lo * p && vr == r0 && vs == x
    ensures vr + hi * w1 == vs * p
  {
  }

  lemma {:induction false} ShlStepAlgebra(vr: int, rj: int, vrNext: int, out: int, keep: int, up: int, x: int, p: int, q: int, base: int,
                       w: int, wi: int, vs: int, vsNext: int)
    requires vr + out * w == vs * p
    requires rj == keep * p + out
    requires vrNext == vr + rj * w
    requires x == up * q + keep
    requires base == p * q && wi == base * w
    requires vsNext == vs + x * w
    ensures vrNext + up * wi == vsNext * p
  {
    assert x * w * p == up * (p * q * w) + keep * p * w;
  }

  /** Writing word i of s extends the prefix s[..i] by that word. */
  lemma {:induction false} TakeUpdate(s: seq<u64>, i: nat, w: u64)
    requires i < |s|
    ensures s[i := w][..i + 1] == s[..i] + [w]
  {
  }

  /** The carry chain of an add loop over words 0 .. k - 1: the words
      written and the carry out of word k - 1, starting with no carry. */
  function AddChain(A: seq<u64>, B: seq<u64>, k: nat): (r: (seq<u64>, Bit))
    requires k <= |A| && k <= |B|
    ensures |r.0| == k
  {
    if k == 0 then ([], 0)
    else
      var prev := AddChain(A, B, k - 1);
      var step := AddWithCarry(A[k - 1], B[k - 1], prev.1);
      (prev.0 + [step.0], step.1)
  }

  /** The words of the carry chain with its final carry weighted 2^(64 k)
      are the exact sum of the operands' first k words. */
  lemma {:induction false} AddChainValue(A: seq<u64>, B: seq<u64>, k: nat)
    requires k <= |A| && k <= |B|
    ensures Val(AddChain(A, B, k).0) + Scaled(AddChain(A, B, k).1, k) == Val(A[..k]) + Val(B[..k])
  {
    if k > 0 {
      var i := k - 1;
      AddChainValue(A, B, i);
      var prev := AddChain(A, B, i);
      var step := AddWithCarry(A[i], B[i], prev.1);
      ValAppend(prev.0, step.0);
      ValPrefix(A, i);
      ValPrefix(B, i);
      ScaledBase(step.1, i);
      ScaledLinear(step.0, 0x1_0000_0000_0000_0000 * (step.1 as int), A[i], B[i], prev.1, i);
    }
  }

  /** Scaling by the same weight keeps a linear relation among five numbers. */
  lemma {:induction false} ScaledLinear(p: int, q: int, x: int, y: int, z: int, i: nat)
    requires p + q == x + y + z
    ensures Scaled(p, i) + Scaled(q, i) == Scaled(x, i) + Scaled(y, i) + Scaled(z, i)
  {
    ScaledIs(p, i);
    ScaledIs(q, i);
    ScaledIs(x, i);
    ScaledIs(y, i);
    ScaledIs(z, i);
    var w := WPow(i);
    assert p * w + q * w == (p + q) * w;
    assert x * w + y * w + z * w == (x + y + z) * w;
  }

  /** The borrow chain of a subtract loop over words 0 .. k - 1: the words
      written and the borrow out of word k - 1, starting with no borrow. */
  function SubChain(A: seq<u64>, B: seq<u64>, k: nat): (r: (seq<u64>, Bit))
    requires k <= |A| && k <= |B|
    ensures |r.0| == k
  {
    if k == 0 then ([], 0)
    else
      var prev := SubChain(A, B, k - 1);
      var step := SubWithBorrow(A[k - 1], B[k - 1], prev.1);
      (prev.0 + [step.0], step.1)
  }

  /** The words of the borrow chain less its final borrow weighted
      2^(64 k) are the exact difference of the operands' first k words. */
  lemma {:induction false} SubChainValue(A: seq<u64>, B: seq<u64>, k: nat)
    requires k <= |A| && k <= |B|
    ensures Val(SubChain(A, B, k).0) - Scaled(SubChain(A, B, k).1, k) == Val(A[..k]) - Val(B[..k])
  {
    if k > 0 {
      var i := k - 1;
      SubChainValue(A, B, i);
      var prev := SubChain(A, B, i);
      var step := SubWithBorrow(A[i], B[i], prev.1);
      ValAppend(prev.0, step.0);
      ValPrefix(A, i);
      ValPrefix(B, i);
      ScaledBase(step.1, i);
      ScaledLinear(step.0, B[i], A[i], 0x1_0000_0000_0000_0000 * (step.1 as int), -(prev.1 as int), i);
      ScaledNeg(prev.1 as int, i);
    }
  }

  lemma {:induction false} ScaledNeg(x: int, k: nat)
    ensures Scaled(-x, k) == -Scaled(x, k)
  {
    if k > 0 {
      ScaledNeg(x, k - 1);
    }
  }

  /** Word k is the value divided by the weight of word k, modulo 2^64. */
  lemma {:induction false} WordOfVal(s: seq<u64>, k: nat)
    requires k < |s|
    ensures s[k] == (Val(s) / WPow(k)) % 0x1_0000_0000_0000_0000
  {
    ValMod(s, k);
    ValLowWord(s[k..]);
  }

  /** Bit 63 of word k of X is bit 64 k + 63 of X. */
  lemma {:induction false} TopBitOfWord(X: nat, k: nat, top: nat)
    requires top + 1 == 64
    ensures ((X / WPow(k)) % 0x1_0000_0000_0000_0000) / Pow2(top) == (X / Pow2(64 * k + top)) % 2
  {
    Pow2Complement(top);
    assert Pow2(1) == 2;
    BitOfMod(X / WPow(k), Pow2(top));
    DivDiv(X, WPow(k), Pow2(top));
    WPowIsPow2(k);
    Pow2Add(64 * k, top);
  }
}
