# fibdrv: fixed-width big numbers and three Fibonacci algorithms

This project models the computational core of fibdrv, a Linux character
device. Reading it at offset k returns F(k) in decimal. The driver computes
F(k) three ways and reports whether the three results agree:

- by repeated addition;
- by 2x2 matrix fast exponentiation;
- by fast doubling.

The numbers come from `bn.h`: `bn_t` holds BN_LENGTH = 11 unsigned 64-bit
words, least significant first, plus `size`, the count of words in use.
`test.c` is a user-space variant. Its `bn_t` holds 1000 words and has no
size field, so every operation runs over all the words.

The Dafny modules:

- `Arith` (arith.dfy): powers of two and ten, and division and modulus facts.
- `Words` (words.dfy): one 64-bit word.
  - `>>` and `<<` with their overflow behaviour.
  - The two-word funnel shifts used by `bn_srl`/`bn_sll`.
  - `__builtin_uaddl_overflow`/`__builtin_usubl_overflow` and the carry and
    borrow steps built from them.
  - `__builtin_ctzl`.
- `Multiword` (multiword.dfy): the value of a word sequence,
  Val(s) = Σ s[i]·2^(64 i). It also holds the word loops of shifting, adding
  and subtracting as functions on sequences, each with a lemma about the value
  it produces.
- `Decimal` (decimal.dfy): digit strings, the shortest decimal representation
  `DecimalString`, and bn2string's double-and-add pass over a digit buffer.
- `BigNum` (bn.dfy): `bn.h`. A `bn_t` is a class `Bn` with its word array and
  its size. Every operation is a method that writes through a destination
  that may be one of its operands. Two invariants matter:
  - `Valid`: no nonzero word at or above `size`.
  - `Exact`: the top word in use is nonzero.
- `Fibonacci` (fibdrv.dfy): `fib_sequence`, `fib_fast_exp`,
  `fib_fast_doubling` and the computation part of `fib_read`. The reference
  definition is F(0) = 0, F(1) = 1, F(n) = F(n-1) + F(n-2).
- `FullWidth` (fullwidth.dfy): `test.c`. A `bn_t` is an `array<u64>` of 1000
  words.

In bn.h and test.c, sums and left shifts wrap modulo 2^(64·BN_LENGTH), and so
do bn.h's products. bn.h's bn_sub wraps modulo 2^(64·a.size). The
contracts say so, and they also give the exact result whenever nothing wraps.

The model follows the code as written:

- The code does not reject an index whose Fibonacci number is too wide; it
  computes a wrapped result. A read positioned by the seek handler asks for an
  offset in 0..100, because that handler clamps it (`Fibonacci.ReadDomain`).
- fibdrv.c's `fib_sequence(0)` returns 0. test.c's `fib_sequence` has no such
  early return, so it returns 1 for every k <= 0.

## Model

| member | source | states |
|---|---|---|
| Words.Shr | bn.h:51 | `w >> n` is the quotient by 2^n: r·2^n <= w < (r+1)·2^n |
| Words.Shl | bn.h:69 | `w << n` keeps the low 64-n bits of w, moved up by n bits; the bits above bit 63 are lost |
| Words.FunnelRight | bn.h:49 | `lo >> n \| hi << (64-n)` has `lo >> n` in its low 64-n bits and the low n bits of hi above them |
| Words.FunnelLeft | bn.h:67 | `hi << n \| lo >> (64-n)` has the top n bits of lo in its low n bits and the low 64-n bits of hi above them |
| Words.AddOverflow | bn.h:79 | the wrapped sum and the overflow flag of `__builtin_uaddl_overflow` make up the exact sum |
| Words.SubOverflow | bn.h:96 | the wrapped difference and the borrow flag of `__builtin_usubl_overflow` make up the exact difference |
| Words.AddWithCarry | bn.h:78-81 | one carry step, `c = c1 \| c2`: the word plus the carry out times 2^64 is x + y + c |
| Words.SubWithBorrow | bn.h:95-98 | one borrow step: the word minus the borrow out times 2^64 is x - y - c |
| Words.Ctz | bn.h:114 | `__builtin_ctzl(w)`: 2^z divides w, w / 2^z is odd, and 2^z <= w |
| Words.CtzOfLowWord | bn.h:113-116 | shifting a number right by the trailing zeros of its nonzero low word drops no set bit and leaves it odd |
| Multiword.ShrWordsValue | bn.h:48-51 | the words of bn_srl's loop denote the value divided by 2^n |
| Multiword.ShlWordsValue | bn.h:66-69 | the words of bn_sll's loop denote the value times 2^n, modulo the width of the words |
| Multiword.AddChainValue | bn.h:77-82 | the words of the carry chain plus the final carry at weight 2^(64k) are the exact sum of the operands' first k words |
| Multiword.SubChainValue | bn.h:94-99 | the words of the borrow chain minus the final borrow at weight 2^(64k) are the exact difference of the first k words |
| Decimal.DoubleDigits | bn.h:136-141 | the digit loop doubles the digits and adds the bit; the digits then hold 2·old + bit minus the carry out of the first digit times 10^m, and nothing after the digits moves |
| Decimal.StripLeadingZeros | bn.h:145-148 | skipping the leading '0's, but never the last digit, leaves the shortest decimal representation of the value |
| Decimal.DigitsSuffice | bn.h:128 | bits/3 + 1 decimal digits hold any number below 2^bits, the sizing rule of bn2string's buffer |
| BigNum.Bn.constructor | bn.h:15-19 | a local `bn_t` after bn_init: all words zero, size zero, value zero |
| BigNum.Init | bn.h:15-19 | bn_init: every word and the size become zero; the number is valid and exact with value 0 |
| BigNum.Assign | bn.h:45 | `*dst = *src` copies words and size, so value, validity and exactness carry over |
| BigNum.Copy | bn.h:33 | `bn_t t = x` gives a fresh number with the same words, size and value |
| BigNum.SetWithPos | bn.h:21-29 | only word pos changes; the value moves by (num - old word)·2^(64 pos); the size follows the source's three cases |
| BigNum.Swap | bn.h:31-36 | the two numbers exchange words, sizes and values |
| BigNum.Srl | bn.h:38-53 | the value is divided by 2^n; the size drops by at most one word and stays exact; the paths for size 0 and n = 0 are included; in-place use is allowed |
| BigNum.SrlWords | bn.h:48-51 | the words in use hold a's value divided by 2^n, and no word above them changes |
| BigNum.SrlStaysExact | bn.h:52 | if the shift empties a nonzero top word, the word below it is nonzero, so the new size is exact |
| BigNum.SllTop | bn.h:65 | the top index bn_sll writes: the size when it is below BN_LENGTH, and BN_LENGTH - 1 otherwise; never above the size |
| BigNum.Sll | bn.h:55-71 | the value is multiplied by 2^n modulo 2^(64·BN_LENGTH); the size grows by at most one word and stays exact when nothing is lost |
| BigNum.SllWords | bn.h:65-69 | the words 0..sz hold the shifted words modulo their width, and no word above sz changes |
| BigNum.AddTop | bn.h:76 | the number of words added is the larger of the two sizes |
| BigNum.Add | bn.h:73-89 | res is (a + b) mod 2^(64·BN_LENGTH); its size is the larger size or one more; it is exact when both operands were exact and the sum fits; res may be an operand |
| BigNum.AddLoop | bn.h:77-82 | the words written and the final carry are the carry chain of the operands, and no word from sz on changes |
| BigNum.AddCarryOut | bn.h:83-88 | storing the carry, or dropping it at full width, leaves a valid number holding the sum modulo the width |
| BigNum.AddOutcome | bn.h:83-88 | on sequences: no nonzero word above the size, the sum modulo the width, and an exact size when the sum fits |
| BigNum.Sub | bn.h:91-107 | res is (a - b) mod 2^(64·a.size), which is a - b when b <= a; the size is always exact and at most a's |
| BigNum.SubLoop | bn.h:94-99 | the words written are the borrow chain over a's words in use, and no word above them changes |
| BigNum.SubScan | bn.h:100-106 | the size becomes one more than the index of the highest nonzero word below sz, or 0 |
| BigNum.SubFinish | bn.h:91-107 | after the loop and the scan, res is valid, exact, and holds the difference modulo 2^(64·a.size) |
| BigNum.Mul | bn.h:109-124 | res is (a·b) mod 2^(64·BN_LENGTH), and exact when a was exact and the product fits; a and b are passed by value |
| BigNum.MulOddStep | bn.h:113-118 | the nonzero-low-word branch keeps "res + a·b ≡ product" and makes b smaller |
| BigNum.MulAddBit | bn.h:117-118 | adding a into res and clearing bit 0 of b keeps the invariant and takes one off b |
| BigNum.ClearLowBit | bn.h:118 | `b.val[0] &= ~1ul` on an odd number takes one off its value and keeps its size |
| BigNum.MulZeroStep | bn.h:119-122 | the zero-low-word branch moves a factor 2^63 from b to a, keeps the invariant, and makes b smaller or shorter |
| BigNum.MulShift | bn.h:115-116 | moving a factor 2^z from b to a keeps the invariant, and nothing wraps when the product fits |
| BigNum.MulAddIn | bn.h:117 | adding a into res keeps the invariant, and the addition does not wrap when the product fits |
| BigNum.MulDone | bn.h:112 | when b reaches zero, res is the product modulo the width |
| BigNum.ToString | bn.h:126-155 | bn2string returns DecimalString(value): no leading zeros, and "0" for zero |
| BigNum.NewDigits | bn.h:128-131 | the buffer has 64·n/3 + 2 slots, all '0' but the NUL, and has room for any value below 2^(64 n) |
| BigNum.DigitRoom | bn.h:128 | 64·n/3 + 2 characters hold the digits of any n-word value plus the NUL |
| BigNum.SkipZeros | bn.h:145-148 | the index of the first digit other than '0', or of the last digit when all the others are '0' |
| BigNum.FillDigits | bn.h:133-142 | after 64·size passes the digits hold the value of a |
| BigNum.TakeAllBits | bn.h:134-142 | after 64·sz passes over a number below 2^(64 sz), the digits hold its value |
| BigNum.PassStep | bn.h:136-142 | the digits become 2·d + bit and the copy is shifted left by one bit modulo the width |
| BigNum.StringPass | bn.h:135-142 | one pass reads bit 63 of word size-1, takes it into the digits and shifts the copy left by one |
| BigNum.TakeBit | bn.h:136-141 | the digits become 2·d + bit, with no carry out of the first digit when that fits |
| BigNum.PassFacts | bn.h:135 | the bit a pass reads is bit 64·sz-1-i of the original value, and the new digits fit in the buffer |
| BigNum.TopBitRead | bn.h:135 | after i shifts, bit 63 of word sz-1 is bit 64·sz-1-i of the original value |
| BigNum.ShiftOnce | bn.h:142 | one more `bn_sll(&a, &a, 1)` turns v·2^i mod width into v·2^(i+1) mod width |
| Fibonacci.FibAdd | fibdrv.c:83-96 | F(m+n+1) = F(m+1)·F(n+1) + F(m)·F(n), the law behind the matrix and doubling steps |
| Fibonacci.FibDouble | fibdrv.c:119-124 | F(2j) = F(j)·(2F(j+1) - F(j)) with 2F(j+1) >= F(j), and F(2j+1) = F(j+1)² + F(j)² |
| Fibonacci.SequenceStep | fibdrv.c:46-50 | F(i-2) and F(i-1), each reduced mod the width, add up mod the width to F(i) reduced |
| Fibonacci.SequencePass | fibdrv.c:46-50 | add and two swaps turn (a, b) into (b, (a + b) mod 2^(64·BN_LENGTH)) |
| Fibonacci.FibSequence | fibdrv.c:33-53 | the result is F(k) mod 2^(64·BN_LENGTH) for k >= 0 (0 for k = 0), and 1 for a negative k |
| Fibonacci.AddProducts | fibdrv.c:75-77 | `t1 = x1·y1; t2 = x2·y2; dst = t1 + t2` leaves dst holding x1·y1 + x2·y2 exactly when it fits |
| Fibonacci.SumInto | fibdrv.c:77 | `bn_add(&t1, &t2, dst)` on exact products whose sum fits leaves dst holding the sum, with an exact size |
| Fibonacci.ProductOf | fibdrv.c:75 | a `bn_mul` into a fresh local holds the product exactly when it fits |
| Fibonacci.CopyPair | fibdrv.c:73 | `bn_t t[] = {f[0], f[1]}` gives two separate copies with the same values |
| Fibonacci.VecFacts | fibdrv.c:72-81 | M·f with M = [[F(e+1), F(e)], [F(e), F(e-1)]] and f = (F(j+1), F(j)) is (F(e+j+1), F(e+j)) |
| Fibonacci.VecStep | fibdrv.c:72-81 | with the bit set, f becomes M·f computed from copies; with it clear, f is unchanged |
| Fibonacci.SquareFacts | fibdrv.c:83-96 | M·M for M = [[F(e+1), F(e)], [F(e), F(e-1)]] is [[F(2e+1), F(2e)], [F(2e), F(2e-1)]] |
| Fibonacci.RowStep | fibdrv.c:85-90 | one row of the matrix product, entry by entry, holds the two dot products |
| Fibonacci.SquareRows | fibdrv.c:85-96 | with copies p of M that are apart from M, the four entries become the dot products of M·M |
| Fibonacci.SquareStep | fibdrv.c:83-96 | M becomes M·M, computed from copies p taken before any entry is overwritten |
| Fibonacci.ExpBounds | fibdrv.c:71-99 | with k = n·e + j and n >= 1, the entries after the pass, up to F(e+j+1) and F(2e+1), are below 2^(64·BN_LENGTH) |
| Fibonacci.ExpIndex | fibdrv.c:98 | `k >>= 1` with e doubled keeps k = n·e + j with j < e |
| Fibonacci.ExpPass | fibdrv.c:71-99 | one pass: the bit step on f, then the squaring step on M |
| Fibonacci.MatrixPassFacts | fibdrv.c:83-96 | squaring the matrix for e gives the matrix for 2e, entry by entry as dot products, and no entry shrinks |
| Fibonacci.ExpPassFacts | fibdrv.c:71-99 | one pass keeps M = [[F(e+1), F(e)], [F(e), F(e-1)]] and f = (F(j+1), F(j)) with e doubled and j taking in the bit |
| Fibonacci.VecPassFacts | fibdrv.c:72-81 | with the bit set, (F(j+1), F(j)) becomes (F(e+j+1), F(e+j)); otherwise it stays |
| Fibonacci.NewOne | fibdrv.c:66-69 | bn_init followed by `bn_set_with_pos(&x, 1, 0)` holds 1 exactly |
| Fibonacci.ExpStart | fibdrv.c:57-69 | the six locals start as M = [[1, 1], [1, 0]] = [[F(2), F(1)], [F(1), F(0)]] and f = (1, 0), all separate and exact |
| Fibonacci.FibFastExp | fibdrv.c:55-102 | f[1] is F(k) for every k with F(2k+1) below 2^(64·BN_LENGTH); F(0) = 0 |
| Fibonacci.Log2 | fibdrv.c:115 | the index b of the highest set bit: 2^b <= n < 2^(b+1) |
| Fibonacci.StartMask | fibdrv.c:115 | the intended start mask: the largest power of two m with m <= n < 2m |
| Fibonacci.Clz32 | fibdrv.c:115 | `__builtin_clz(n)` on 32 bits: 2^(31-z) <= n < 2^(32-z) |
| Fibonacci.StartShiftTooWide | fibdrv.c:115 | the shift count 63 - clz(n) is floor(log2 n) + 32, which is always >= 32 |
| Fibonacci.HalfIndex | fibdrv.c:127 | n / m = 2·(n / 2m) + bit m of n |
| Fibonacci.TwiceBelow | fibdrv.c:119 | 2F(j+1) fits whenever F(2j+1) fits, so `bn_sll(&b, &tmp1, 1)` does not wrap |
| Fibonacci.DoublingBounds | fibdrv.c:119-131 | within one pass: 2F(j+1) fits and is >= F(j); F(2j) <= F(2j+1) fit; with the bit set, F(2j+2) fits |
| Fibonacci.TwiceMinus | fibdrv.c:119-120 | tmp1 = 2b - a exactly when 2b fits and a <= 2b |
| Fibonacci.Square | fibdrv.c:122-123 | `bn_mul(x, x, &t)` leaves t holding x² mod 2^(64·BN_LENGTH) |
| Fibonacci.SquareSum | fibdrv.c:122-124 | t2 = (b² mod W + a² mod W) mod W, with W = 2^(64·BN_LENGTH) |
| Fibonacci.DoubleTerms | fibdrv.c:117-124 | t1 = a·(2b - a) mod W and t2 = b² + a² mod W |
| Fibonacci.DoubleStep | fibdrv.c:117-126 | `a = t1; b = t2` takes (F(j), F(j+1)) to (F(2j), F(2j+1)) when they fit |
| Fibonacci.AdvanceStep | fibdrv.c:127-131 | (a, b) becomes (b, (a + b) mod W) |
| Fibonacci.DoublingPass | fibdrv.c:117-132 | one pass takes (F(j), F(j+1)) to (F(k), F(k+1)), with k = n / m and j = n / 2m |
| Fibonacci.DoubledValues | fibdrv.c:119-126 | the terms computed from (F(j), F(j+1)) are F(2j) and F(2j+1) |
| Fibonacci.AdvancedValue | fibdrv.c:128-130 | the advanced b is F(2j+2) |
| Fibonacci.MaskStep | fibdrv.c:132 | a live mask m = 2^(q-1) gives n / m <= n, and `m >>= 1` gives the mask for q-1 passes left: 2^(q-2), or 0 after bit 0 |
| Fibonacci.DoublingStart | fibdrv.c:111-114 | a and b start as F(0) = 0 and F(1) = 1, two separate valid numbers |
| Fibonacci.DoublingLoop | fibdrv.c:115-133 | from (F(0), F(1)), one pass per bit of n from the highest down leaves a = F(n) whenever F(n+1) fits |
| Fibonacci.FibFastDoubling | fibdrv.c:104-135 | a is F(n) whenever F(n+1) fits in 2^(64·BN_LENGTH); n = 0 gives 0 |
| Fibonacci.ReadDomain | fibdrv.c:213-216 | for every offset the seek allows (0..100), F(2·offset+1) fits, so no algorithm wraps |
| Fibonacci.Read | fibdrv.c:153-178 | the string handed to the caller is F(offset) in decimal, and the three strings agree |
| FullWidth.Init | test.c:12-15 | every one of the 1000 words becomes zero; the value is 0 |
| FullWidth.SetWithPos | test.c:17-20 | only word pos changes; the value moves by (num - old word)·2^(64 pos) |
| FullWidth.Swap | test.c:22-27 | the two numbers exchange all their words |
| FullWidth.Srl | test.c:29-35 | for 0 < n < 64 the words are the funnel-shifted words; the value is divided by 2^n; in-place use is allowed |
| FullWidth.Sll | test.c:37-43 | for 0 < n < 64 the value is multiplied by 2^n modulo 2^(64·1000); in-place use is allowed |
| FullWidth.Add | test.c:45-54 | the carry chain over all words gives (a + b) mod 2^(64·1000); the last carry is dropped |
| FullWidth.AddWraps | test.c:48-53 | the carry chain over every word denotes the sum modulo the width |
| FullWidth.ToString | test.c:56-84 | the result is DecimalString(old value), and the caller's number is left all zero |
| FullWidth.TakeAllBits | test.c:63-72 | after 64·1000 passes the digits hold the value and every bit has been shifted out |
| FullWidth.AllShiftedOut | test.c:63-72 | shifting an n-word number left 64·n times leaves 0 |
| FullWidth.StringPass | test.c:64-71 | one pass reads bit 63 of the top word, takes it into the digits and shifts the number left by one |
| FullWidth.SequencePass | test.c:96-98 | add and two swaps turn (a, b) into (b, (a + b) mod 2^(64·1000)) |
| FullWidth.FibSequence | test.c:86-102 | the result is F(k) mod 2^(64·1000) for k >= 1 and 1 for k <= 0; for k <= 64000 it is F(k) itself |
| FullWidth.FitsWidth | test.c:86-102 | F(k) for k <= 64·1000 is below 2^(64·1000), so fib_sequence does not wrap there |

## Left out

- Device plumbing in fibdrv.c is not modelled. That covers `fib_open`/`fib_release` (a mutex), `fib_write` (timings and a pid), the `fib_device_lseek` state update, module registration, `copy_to_user` and `ktime` timing. These are I/O, concurrency and clock state. Only the seek's clamping of the offset to 0..100 is kept, as the precondition of `Fibonacci.Read`.
- client.c and test.c's `main` are not modelled; they only do I/O and printing.
- `kmalloc`/`malloc` in bn2string, and the unchecked NULL, are not modelled. The result is returned as a string, without its terminating NUL.
- Fibonacci.Read: its `offset <= MAX_LENGTH` holds for reads positioned by `fib_device_lseek` (fibdrv.c:213-216). The device does not call `nonseekable_open`, so pread(2) can hand `fib_read` any position, unclamped. Such reads are not modelled. Beyond offset 507 they leave fast exponentiation's proved domain.
- Fibonacci.Read: fibdrv.c:170-172 pass `&res1` to a bn2string that takes its `bn_t` by value. The model passes the number itself.
- Fibonacci.FibFastExp: proved only for k with F(2k+1) < 2^(64·BN_LENGTH), that is k <= 507 (F(1015) < 2^704 <= F(1016)). The limit comes from the proof, not from the program. The proof keeps every matrix entry exact, including those of the squaring on the last pass, and that matrix holds F(2^(b+1)+1), where 2^b is the top bit of k. In the C, `f[1]` is F(k) for every k up to 1014 (F(1015) < 2^704). From k = 512 on, only that last squaring wraps, and its matrix is never read again. The model does not prove those k. Every offset a read positioned by the seek handler can reach is inside the domain. A negative `long long` k is not modelled; with it, `k >>= 1` never reaches 0.
- Fibonacci.FibFastDoubling: the result is stated only when F(n+1) fits, that is n <= 1014; otherwise only validity is promised. n is a `nat`, so a negative `int` n is not modelled.
- Fibonacci.FibFastDoubling: the start mask is the corrected `StartMask`, not the undefined `1 << (63 - __builtin_clz(n))` (see Findings).
- FullWidth.Srl, FullWidth.Sll: n = 0 and n >= 64 are excluded, because the C shifts a word by 64 - n or by n, which is undefined for those values.
- BigNum.Srl, BigNum.Sll: n >= 64 is excluded for the same reason.
- BigNum.Srl, BigNum.Sll, BigNum.Add, BigNum.Sub: the destination must be an operand, or use no more words than the result. The C never clears the destination's words above the ones it writes, so a longer destination would keep stale nonzero words above its new size. In the model every caller in fibdrv.c meets this.
- BigNum.Sub: the value is stated modulo 2^(64·a.size), because b's words from a.size up are not read. A negative difference is not modelled further.
- Fibonacci.FibSequence: the C `long long` k is an unbounded `int`. The loop counter `int i` would overflow only for k beyond 2^31, which is not modelled.
- Temporaries that the C allocates on the stack are fresh objects in the model.
- In fibdrv.c, the uninitialised locals (`c` in fib_sequence; `t1`, `t2`, `tmp1`, `tmp2` in the two fast algorithms) are modelled as zeroed numbers. In the C they hold whatever the stack held. bn_add and bn_sll leave the words above their result untouched. bn_sll also reads the word at index `size` when size < BN_LENGTH. So with leftover nonzero words on the stack, a C result could differ from the model's. Since this depends on stack contents, no specific input can be named for it.
- In test.c, fib_sequence's uninitialised `c` is modelled as arbitrary words. It is harmless there, because test.c's bn_add overwrites every word.

## Findings

| source | as written | input that shows it | evidently intended | confidence | as-written member | corrected member |
|---|---|---|---|---|---|---|
| fibdrv.c:115 | `long long m = 1 << (63 - __builtin_clz(n))` shifts the `int` constant 1 by floor(log2 n) + 32, at least 32 bits. That is undefined behaviour in C. On x86 the count is taken mod 32, which happens to give the intended mask | n = 1: clz(1) = 31, so the shift count is 32 | the highest set bit of n, `1LL << (31 - __builtin_clz(n))` | not executed | Fibonacci.StartShiftTooWide | Fibonacci.StartMask |
