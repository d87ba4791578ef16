/** The always-full-width numbers of test.c: a `bn_t` is BN_LENGTH = 1000
    64-bit words, least significant first, with no count of the words in
    use, and every operation runs over all of them.  A number is modelled as
    its word array; the operations write through `res` arrays that may be
    their operands. */
module FullWidth {
  import opened Arith
  import opened Words
  import opened Multiword
  import opened Decimal
  import BigNum
  import Fibonacci

  /** BN_LENGTH, a thousand words.  It is written as a multiple of the
      length of a display rather than as a numeral so that the verifier
      keeps 2^(64 BN_LENGTH) symbolic instead of expanding it. */
  const L: nat := 100 * |[0, 0, 0, 0, 0, 0, 0, 0, 0, 0]|

  /** bn_init: every word becomes zero. */
  method Init(a: array<u64>)
    requires a.Length == L
    modifies a
    ensures a[..] == Zeros(L) && Val(a[..]) == 0
  {
    forall i | 0 <= i < L {
      a[i] := 0;
    }
    ValZeros(a[..]);
  }

  /** bn_set_with_pos: word pos becomes num and no other word changes, so
      the value moves by the difference of the two words at weight pos. */
  method SetWithPos(a: array<u64>, num: u64, pos: nat)
    requires a.Length == L && pos < L
    modifies a
    ensures a[..] == old(a[..])[pos := num]
    ensures Val(a[..]) + Scaled(old(a[pos]), pos) == old(Val(a[..])) + Scaled(num, pos)
  {
    ValUpdate(a[..], pos, num);
    a[pos] := num;
  }

  /** bn_swap: the two numbers exchange their words, through a temporary
      copy of a.  Swapping a number with itself leaves it as it is. */
  method Swap(a: array<u64>, b: array<u64>)
    requires a.Length == L && b.Length == L
    modifies a, b
    ensures a[..] == old(b[..]) && b[..] == old(a[..])
  {
    var tmp := new u64[L];
    forall i | 0 <= i < L {
      tmp[i] := a[i];
    }
    forall i | 0 <= i < L {
      a[i] := b[i];
    }
    forall i | 0 <= i < L {
      b[i] := tmp[i];
    }
  }

  /** bn_srl for 0 < n < 64 (a shift by 0 would shift word i + 1 by 64):
      word i of res takes its low bits from word i of a and its top n bits
      from word i + 1, and the top word is shifted in zeros.  The value is
      divided by 2^n.  res may be a itself, since word i + 1 is read before
      it is written. */
  method Srl(a: array<u64>, res: array<u64>, n: nat)
    requires a.Length == L && res.Length == L && 0 < n < 64
    modifies res
    ensures res[..] == ShrWords(old(a[..]), n)
    ensures Val(res[..]) == Val(old(a[..])) / Pow2(n)
  {
    ghost var A := a[..];
    var i := 0;
    while i < L - 1
      invariant 0 <= i <= L - 1
      invariant forall j :: 0 <= j < i ==> res[j] == ShrWord(A, j, n)
      invariant forall j :: i <= j < L ==> a[j] == A[j]
    {
      res[i] := FunnelRight(a[i], a[i + 1], n);
      i := i + 1;
    }
    res[L - 1] := Shr(a[L - 1], n);
    ShrWordsPointwise(res[..], A, n);
    assert res[..][..L] == res[..];
    ShrWordsValue(A, n);
  }

  /** bn_sll for 0 < n < 64, from the top word down: word i keeps its low
      bits shifted up and takes the top n bits of word i - 1; word 0 is
      shifted in zeros and the top n bits of the top word are lost.  The
      value is multiplied by 2^n modulo 2^(64 BN_LENGTH).  res may be a
      itself, since word i - 1 is read before it is written. */
  method Sll(a: array<u64>, res: array<u64>, n: nat)
    requires a.Length == L && res.Length == L && 0 < n < 64
    modifies res
    ensures res[..] == ShlWords(old(a[..]), n)
    ensures Val(res[..]) == (Val(old(a[..])) * Pow2(n)) % WPow(L)
  {
    ghost var A := a[..];
    var i := L - 1;
    while i > 0
      invariant 0 <= i <= L - 1
      invariant forall j :: i < j < L ==> res[j] == ShlWord(A, j, n)
      invariant forall j :: 0 <= j <= i ==> a[j] == A[j]
    {
      res[i] := FunnelLeft(a[i], a[i - 1], n);
      i := i - 1;
    }
    res[0] := Shl(a[0], n);
    ShlWordsPointwise(res[..], A, n);
    assert res[..][..L] == res[..];
    ShlWordsValue(A, n);
  }

  /** bn_add: a carry chain over all BN_LENGTH words, each step adding the
      two words and then the incoming carry, the carry out being c1 | c2.
      The carry out of the top word is dropped, so res holds the sum modulo
      2^(64 BN_LENGTH).  res may be a or b, since word i of each operand is
      read before word i of res is written. */
  method Add(a: array<u64>, b: array<u64>, res: array<u64>)
    requires a.Length == L && b.Length == L && res.Length == L
    modifies res
    ensures res[..] == AddChain(old(a[..]), old(b[..]), L).0
    ensures Val(res[..]) == (Val(old(a[..])) + Val(old(b[..]))) % WPow(L)
  {
    ghost var A, B := a[..], b[..];
    var c: Bit := 0;
    var i := 0;
    while i < L
      invariant 0 <= i <= L
      invariant res[..i] == AddChain(A, B, i).0 && c == AddChain(A, B, i).1
      invariant forall j :: i <= j < L ==> a[j] == A[j] && b[j] == B[j]
    {
      var (w, carry) := AddWithCarry(a[i], b[i], c);
      ghost var before := res[..];
      res[i] := w;
      TakeUpdate(before, i, w);
      c := carry;
      i := i + 1;
    }
    assert res[..L] == res[..];
    AddWraps(A, B);
  }

  /** The carry chain over every word of two numbers of the same length
      denotes their sum modulo the width. */
  lemma {:induction false} AddWraps(A: seq<u64>, B: seq<u64>)
    requires |A| == |B|
    ensures Val(AddChain(A, B, |A|).0) == (Val(A) + Val(B)) % WPow(|A|)
  {
    var k := |A|;
    AddChainValue(A, B, k);
    assert A[..k] == A && B[..k] == B;
    var r := AddChain(A, B, k);
    ValBound(r.0);
    ScaledIs(r.1, k);
    DivModUnique(Val(A) + Val(B), WPow(k), r.1, Val(r.0));
  }

  /** bn2string: the decimal digits of a, without leading zeros, "0" for
      zero.  A buffer of 64 BN_LENGTH / 3 + 2 characters holds a '0' in every
      slot but the last, which holds NUL; for each of the 64 BN_LENGTH bits
      of a, from the top, the digits are doubled and the bit added, the bit
      being the top bit of the top word, and a is shifted left once in
      place.  Leading '0's are then skipped, keeping at least the last
      digit.  The caller's number is left all zero. */
  method ToString(a: array<u64>) returns (s: string)
    requires a.Length == L
    modifies a
    ensures s == DecimalString(old(Val(a[..])))
    ensures a[..] == Zeros(L)
  {
    ghost var v := Val(a[..]);
    var str := BigNum.NewDigits(L);
    TakeAllBits(a, str, v);
    var j := BigNum.SkipZeros(str);
    s := str[j..str.Length - 1];
    StripLeadingZeros(str[..str.Length - 1], j);
    assert str[..str.Length - 1][j..] == s;
  }

  /** bn2string's outer loop: one pass per bit of the whole number, most
      significant first.  The digit buffer, all zeros on entry and with room
      for any value, ends up holding v in decimal, and every bit of a has
      been shifted out. */
  method TakeAllBits(a: array<u64>, str: array<char>, ghost v: nat)
    requires a.Length == L && Val(a[..]) == v
    requires str.Length >= 1 && WPow(L) < Pow10(str.Length - 1)
    requires AllDigits(str[..str.Length - 1]) && DVal(str[..str.Length - 1]) == 0
    modifies a, str
    ensures AllDigits(str[..str.Length - 1]) && DVal(str[..str.Length - 1]) == v
    ensures a[..] == Zeros(L)
  {
    ValBound(a[..]);
    var i := 0;
    BigNum.NothingAbove(v, L, i);
    BigNum.NoShiftYet(v, WPow(L), i);
    while i < 64 * L
      invariant 0 <= i <= 64 * L
      invariant Val(a[..]) == (v * Pow2(i)) % WPow(L)
      invariant AllDigits(str[..str.Length - 1]) && DVal(str[..str.Length - 1]) == v / Pow2(64 * L - i)
    {
      StringPass(a, str, 63, v, i);
      i := i + 1;
    }
    BigNum.AllBitsTaken(v, 64 * L - i);
    AllShiftedOut(v, L, Val(a[..]));
    ValZeros(a[..]);
    assert a[..] == Zeros(L);
  }

  /** Shifting a number of n words left 64 n times leaves nothing. */
  lemma {:induction false} AllShiftedOut(v: nat, n: nat, x: nat)
    requires x == (v * Pow2(64 * n)) % WPow(n)
    ensures x == 0
  {
    WPowIsPow2(n);
    DivModUnique(v * Pow2(64 * n), WPow(n), v, 0);
  }

  /** One pass of bn2string's outer loop: the digits take in bit top = 63
      of the top word, which is bit 64 BN_LENGTH - 1 - i of v, and a is
      shifted left once in place. */
  method StringPass(a: array<u64>, str: array<char>, top: nat, ghost v: nat, ghost i: nat)
    requires top + 1 == 64
    requires a.Length == L && i < 64 * L && str.Length >= 1 && WPow(L) < Pow10(str.Length - 1)
    requires v < WPow(L) && Val(a[..]) == (v * Pow2(i)) % WPow(L)
    requires AllDigits(str[..str.Length - 1]) && DVal(str[..str.Length - 1]) == v / Pow2(64 * L - i)
    modifies a, str
    ensures Val(a[..]) == (v * Pow2(i + 1)) % WPow(L)
    ensures AllDigits(str[..str.Length - 1]) && DVal(str[..str.Length - 1]) == v / Pow2(64 * L - (i + 1))
  {
    var carry := Shr(a[L - 1], top);
    ghost var d, bit := BigNum.PassFacts(a[..], v, L, i, top, str.Length - 1);
    ghost var x0 := Val(a[..]);
    BigNum.TakeBit(str, carry, d);
    Sll(a, a, 1);
    BigNum.ShiftOnce(v, i, x0, Val(a[..]), WPow(L));
  }

  /** One pass of fib_sequence's loop: c = a + b, then two swaps rotate the
      contents of (a, b, c) to (b, c, a).  The sum wraps modulo
      2^(64 BN_LENGTH); whatever c held is overwritten. */
  method SequencePass(a: array<u64>, b: array<u64>, c: array<u64>)
    requires a.Length == L && b.Length == L && c.Length == L
    requires a != b && b != c && a != c
    modifies a, b, c
    ensures Val(a[..]) == old(Val(b[..])) && Val(b[..]) == (old(Val(a[..])) + old(Val(b[..]))) % WPow(L)
  {
    Add(a, b, c);
    Swap(a, b);
    Swap(b, c);
  }

  /** fib_sequence: b starts at 1 and a at 0, and each pass for i = 2 .. k
      computes c = a + b and rotates (a, b, c) to (b, c, a); c starts
      uninitialised.  The result is F(k) modulo 2^(64 BN_LENGTH) for k >= 1,
      and 1 for every k <= 0, since there is no early return for k = 0.  Up
      to k = 64 BN_LENGTH nothing wraps. */
  method FibSequence(k: int) returns (r: array<u64>)
    ensures fresh(r) && r.Length == L
    ensures Val(r[..]) == if k < 1 then 1 else Fibonacci.Fib(k) % WPow(L)
    ensures 1 <= k <= 64 * L ==> Val(r[..]) == Fibonacci.Fib(k)
  {
    var a := new u64[L];
    var b := new u64[L];
    var c := new u64[L];
    Init(a);
    Init(b);
    SetWithPos(b, 1, 0);
    Fibonacci.SmallResidues(L, WPow(L));
    assert Val(b[..]) == 1 by {
      ScaledIs(0, 0);
      ScaledIs(1, 0);
    }
    var i := 2;
    while i <= k
      invariant i == 2 || 2 < i <= k + 1
      invariant a.Length == L && b.Length == L && c.Length == L
      invariant a != b && b != c && a != c && fresh(a) && fresh(b) && fresh(c)
      invariant Val(a[..]) == Fibonacci.Fib(i - 2) % WPow(L) && Val(b[..]) == Fibonacci.Fib(i - 1) % WPow(L)
    {
      ghost var va, vb := Val(a[..]), Val(b[..]);
      SequencePass(a, b, c);
      Fibonacci.SequenceStep(i, WPow(L), va, vb, Val(b[..]));
      i := i + 1;
    }
    r := b;
    if 1 <= k <= 64 * L {
      FitsWidth(k);
    }
  }

  /** F(k) for k <= 64 BN_LENGTH is below 2^(64 BN_LENGTH), so it is its
      own residue. */
  lemma {:induction false} FitsWidth(k: nat)
    requires k <= 64 * L
    ensures Fibonacci.Fib(k) % WPow(L) == Fibonacci.Fib(k)
  {
    Fibonacci.FibBelowPow2(k);
    Pow2Le(k, 64 * L);
    WPowIsPow2(L);
    DivModUnique(Fibonacci.Fib(k), WPow(L), 0, Fibonacci.Fib(k));
  }
}
