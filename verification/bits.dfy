/**
  Whole-number bit arithmetic, as Ruby's unbounded Integer performs it.

  Ruby's `^`, `&`, `<<` and `>>` on non-negative integers never overflow, so
  they are modelled on `nat`, bit by bit: `Xor`, `And`, `Shl`, `Shr` and
  `Trunc` (the low k bits) each peel off the lowest bit and recurse. C's
  fixed-width words are the same numbers kept below 2^32 or 2^64 by an
  explicit reduction; the lemmas here say which results depend only on the
  low bits of their arguments, and connect the bitwise view with ordinary
  multiplication, division and remainder by powers of two.
 */
module Bits {

  const TWO32: nat := 0x1_0000_0000
  const TWO64: nat := 0x1_0000_0000_0000_0000
  const MASK32: nat := 0xffff_ffff

  /** An unsigned 32-bit word (C's `uint32_t`, ISAAC's `ub4`). */
  type Word32 = x: nat | x < TWO32
  /** An unsigned 64-bit word (C's `uint64_t`, `unsigned long` on LP64). */
  type Word64 = x: nat | x < TWO64
  /** An octet. */
  type Byte = x: nat | x < 256

  function Pow2(k: nat): (r: nat)
    ensures r >= 1
  {
    if k == 0 then 1 else 2 * Pow2(k - 1)
  }

  /** `a ^ b` */
  function Xor(a: nat, b: nat): nat
    decreases a + b
  {
    if a == 0 && b == 0 then 0 else 2 * Xor(a / 2, b / 2) + (a + b) % 2
  }

  /** `a & b`; it never exceeds either argument. */
  function And(a: nat, b: nat): (r: nat)
    ensures r <= a && r <= b
    decreases a + b
  {
    if a == 0 || b == 0 then 0
    else 2 * And(a / 2, b / 2) + (if a % 2 == 1 && b % 2 == 1 then 1 else 0)
  }

  /** `x << k` */
  function Shl(x: nat, k: nat): nat
  {
    if k == 0 then x else 2 * Shl(x, k - 1)
  }

  /** `x >> k` */
  function Shr(x: nat, k: nat): nat
  {
    if k == 0 then x else Shr(x / 2, k - 1)
  }

  /** The low k bits of x. */
  function Trunc(x: nat, k: nat): nat
  {
    if k == 0 then 0 else 2 * Trunc(x / 2, k - 1) + x % 2
  }

  /** The low 32 bits of an unbounded value (`x & 0xffffffff`). */
  function Low32(x: nat): Word32
  {
    x % TWO32
  }

  /** The low 64 bits of an unbounded value (`x % 2**64`). */
  function Low64(x: nat): Word64
  {
    x % TWO64
  }

  // ---------------------------------------------------------------------
  // Powers of two, division and remainder
  // ---------------------------------------------------------------------

  lemma Pow2Byte()
    ensures Pow2(8) == 256
  {
  }

  lemma Pow2Half()
    ensures Pow2(16) == 0x1_0000
  {
    Pow2Byte();
    Pow2Add(8, 8);
  }

  lemma Pow2Word()
    ensures Pow2(32) == TWO32
  {
    Pow2Half();
    Pow2Add(16, 16);
  }

  /** The word sizes as powers of two. */
  lemma Pow2Values()
    ensures Pow2(32) == TWO32 && Pow2(64) == TWO64
  {
    Pow2Word();
    Pow2Add(32, 32);
  }

  lemma Pow2Add(a: nat, b: nat)
    ensures Pow2(a + b) == Pow2(a) * Pow2(b)
  {
    if a > 0 {
      Pow2Add(a - 1, b);
    }
  }

  lemma Pow2Mono(a: nat, b: nat)
    requires a <= b
    ensures Pow2(a) <= Pow2(b)
  {
    if a < b {
      Pow2Mono(a, b - 1);
    }
  }

  lemma DivModUnique(a: int, d: int, q: int, r: int)
    requires d > 0 && 0 <= r < d && a == q * d + r
    ensures a / d == q && a % d == r
  {
    var q', r' := a / d, a % d;
    assert a == q' * d + r';
    if q > q' {
      assert (q - q') * d >= d by { MulAtLeast(q - q', d); }
      assert false;
    } else if q < q' {
      assert (q' - q) * d >= d by { MulAtLeast(q' - q, d); }
      assert false;
    }
  }

  lemma MulAtLeast(m: int, d: int)
    requires m >= 1 && d > 0
    ensures m * d >= d
  {
  }

  /** Dividing by 2^(k+1) is halving, then dividing by 2^k. */
  lemma DivPow2Succ(a: nat, k: nat)
    ensures a / Pow2(k + 1) == (a / 2) / Pow2(k)
    ensures a % Pow2(k + 1) == 2 * ((a / 2) % Pow2(k)) + a % 2
  {
    var p := Pow2(k);
    var q, r := (a / 2) / p, (a / 2) % p;
    assert a / 2 == q * p + r;
    assert a == q * (2 * p) + (2 * r + a % 2);
    DivModUnique(a, 2 * p, q, 2 * r + a % 2);
  }

  lemma ModOfMultiple(a: nat, t: nat, n: nat)
    requires n > 0
    ensures (a * n + t) % n == t % n
  {
    assert t == (t / n) * n + t % n;
    assert a * n + t == (a + t / n) * n + t % n;
    DivModUnique(a * n + t, n, a + t / n, t % n);
  }

  /** A product reduced modulo n depends only on the first factor modulo n. */
  lemma MulMod(x: nat, y: nat, n: nat)
    requires n > 0
    ensures (x * y) % n == ((x % n) * y) % n
  {
    var q, r := x / n, x % n;
    assert x == q * n + r;
    assert x * y == (q * y) * n + r * y;
    ModOfMultiple(q * y, r * y, n);
  }

  /** A sum reduced modulo n depends only on the summands modulo n. */
  lemma AddMod(x: nat, y: nat, n: nat)
    requires n > 0
    ensures (x + y) % n == (x % n + y % n) % n
  {
    assert x == (x / n) * n + x % n;
    assert y == (y / n) * n + y % n;
    assert x + y == (x / n + y / n) * n + (x % n + y % n);
    ModOfMultiple(x / n + y / n, x % n + y % n, n);
  }

  // ---------------------------------------------------------------------
  // The bitwise view and the arithmetic view agree
  // ---------------------------------------------------------------------

  lemma {:induction false} TruncIsMod(x: nat, k: nat)
    ensures Trunc(x, k) == x % Pow2(k)
    decreases k
  {
    if k > 0 {
      TruncIsMod(x / 2, k - 1);
      DivPow2Succ(x, k - 1);
    }
  }

  lemma {:induction false} ShrIsDiv(x: nat, k: nat)
    ensures Shr(x, k) == x / Pow2(k)
    decreases k
  {
    if k > 0 {
      ShrIsDiv(x / 2, k - 1);
      DivPow2Succ(x, k - 1);
    }
  }

  lemma {:induction false} ShlIsMul(x: nat, k: nat)
    ensures Shl(x, k) == x * Pow2(k)
    decreases k
  {
    if k > 0 {
      ShlIsMul(x, k - 1);
    }
  }

  /** The low 32 bits, bit by bit, are the remainder modulo 2^32. */
  lemma Trunc32(x: nat)
    ensures Trunc(x, 32) == x % TWO32
  {
    TruncIsMod(x, 32);
    Pow2Values();
  }

  lemma Trunc64(x: nat)
    ensures Trunc(x, 64) == x % TWO64
  {
    TruncIsMod(x, 64);
    Pow2Values();
  }

  lemma {:induction false} TruncTrunc(x: nat, w: nat, n: nat)
    requires w <= n
    ensures Trunc(Trunc(x, n), w) == Trunc(x, w)
    decreases w
  {
    if w > 0 {
      var y := Trunc(x, n);
      assert y / 2 == Trunc(x / 2, n - 1) && y % 2 == x % 2;
      TruncTrunc(x / 2, w - 1, n - 1);
    }
  }

  /** Whole value below 2^k iff shifting it right by k leaves nothing. */
  lemma BelowPow2(x: nat, k: nat)
    ensures x < Pow2(k) <==> Shr(x, k) == 0
  {
    ShrIsDiv(x, k);
    var p := Pow2(k);
    if x < p {
      DivModUnique(x, p, 0, x);
    } else {
      var q, r := x / p, x % p;
      assert x == q * p + r;
      if q == 0 {
        assert false;
      }
    }
  }

  // ---------------------------------------------------------------------
  // Xor
  // ---------------------------------------------------------------------

  lemma XorUnfold(a: nat, b: nat)
    ensures Xor(a, b) == 2 * Xor(a / 2, b / 2) + (a + b) % 2
  {
    if a == 0 && b == 0 {
      assert Xor(0, 0) == 0;
    }
  }

  lemma {:induction false} XorZero(a: nat)
    ensures Xor(a, 0) == a && Xor(0, a) == a
    decreases a
  {
    if a > 0 {
      XorZero(a / 2);
    }
  }

  /** The low bits of an exclusive or come from the low bits of its arguments. */
  lemma {:induction false} XorTrunc(a: nat, b: nat, k: nat)
    ensures Trunc(Xor(a, b), k) == Xor(Trunc(a, k), Trunc(b, k))
    decreases k
  {
    if k == 0 {
      assert Xor(0, 0) == 0;
    } else {
      XorTrunc(a / 2, b / 2, k - 1);
      TruncOfXorStep(a, b, k);
      XorOfTruncStep(a, b, k);
    }
  }

  lemma TruncOfXorStep(a: nat, b: nat, k: nat)
    requires k > 0
    ensures Trunc(Xor(a, b), k) == 2 * Trunc(Xor(a / 2, b / 2), k - 1) + (a + b) % 2
  {
    XorUnfold(a, b);
  }

  lemma XorOfTruncStep(a: nat, b: nat, k: nat)
    requires k > 0
    ensures Xor(Trunc(a, k), Trunc(b, k))
         == 2 * Xor(Trunc(a / 2, k - 1), Trunc(b / 2, k - 1)) + (a + b) % 2
  {
    var a', b' := Trunc(a, k), Trunc(b, k);
    TruncHalf(a, k);
    TruncHalf(b, k);
    XorUnfold(a', b');
    SumParity(a', b', a, b);
  }

  /** The parity of a sum depends only on the parities of its terms. */
  lemma SumParity(x: nat, y: nat, u: nat, v: nat)
    requires x % 2 == u % 2 && y % 2 == v % 2
    ensures (x + y) % 2 == (u + v) % 2
  {
  }

  /** Halving the low k bits gives the low k - 1 bits of the half; the lowest bit is kept. */
  lemma TruncHalf(a: nat, k: nat)
    requires k > 0
    ensures Trunc(a, k) / 2 == Trunc(a / 2, k - 1) && Trunc(a, k) % 2 == a % 2
  {
    var t := Trunc(a / 2, k - 1);
    assert Trunc(a, k) == 2 * t + a % 2;
  }

  /** The high bits of an exclusive or come from the high bits of its arguments. */
  lemma {:induction false} XorShr(a: nat, b: nat, k: nat)
    ensures Shr(Xor(a, b), k) == Xor(Shr(a, k), Shr(b, k))
    decreases k
  {
    if k > 0 {
      XorHalf(a, b);
      XorShr(a / 2, b / 2, k - 1);
      assert Shr(Xor(a, b), k) == Shr(Xor(a / 2, b / 2), k - 1);
    }
  }

  /** Halving an exclusive or halves its arguments; its lowest bit is the parity of their sum. */
  lemma XorHalf(a: nat, b: nat)
    ensures Xor(a, b) / 2 == Xor(a / 2, b / 2) && Xor(a, b) % 2 == (a + b) % 2
  {
    XorUnfold(a, b);
  }

  /** A number is its half and its lowest bit. */
  lemma HalvesEqual(y: nat, z: nat)
    requires y / 2 == z / 2 && y % 2 == z % 2
    ensures y == z
  {
  }

  /** Adding the same x keeps a difference in parity. */
  lemma ParityCancel(x: nat, y: nat, z: nat)
    requires (x + y) % 2 == (x + z) % 2
    ensures y % 2 == z % 2
  {
  }

  /** Exclusive or of two values below 2^k stays below 2^k. */
  lemma XorBound(a: nat, b: nat, k: nat)
    requires a < Pow2(k) && b < Pow2(k)
    ensures Xor(a, b) < Pow2(k)
  {
    BelowPow2(a, k);
    BelowPow2(b, k);
    XorShr(a, b, k);
    assert Xor(0, 0) == 0;
    BelowPow2(Xor(a, b), k);
  }

  /** `x ^ y == x ^ z` only when `y == z`. */
  lemma {:induction false} XorCancel(x: nat, y: nat, z: nat)
    requires Xor(x, y) == Xor(x, z)
    ensures y == z
    decreases x + y + z
  {
    XorHalf(x, y);
    XorHalf(x, z);
    ParityCancel(x, y, z);
    if y != 0 || z != 0 {
      XorCancel(x / 2, y / 2, z / 2);
      HalvesEqual(y, z);
    }
  }

  /** `x ^ x == 0`. */
  lemma {:induction false} XorSelf(x: nat)
    ensures Xor(x, x) == 0
    decreases x
  {
    if x > 0 {
      XorSelf(x / 2);
      XorUnfold(x, x);
    }
  }

  /** An exclusive or vanishes only on equal arguments. */
  lemma XorIsZero(a: nat, b: nat)
    ensures Xor(a, b) == 0 <==> a == b
  {
    XorSelf(a);
    if Xor(a, b) == 0 {
      XorCancel(a, b, a);
    }
  }

  /** Shifting right by k and then by m is shifting right by k + m. */
  lemma {:induction false} ShrShr(x: nat, k: nat, m: nat)
    ensures Shr(Shr(x, k), m) == Shr(x, k + m)
    decreases k
  {
    if k > 0 {
      ShrShr(x / 2, k - 1, m);
    }
  }

  /** A left shift by k undone by a right shift by k + m. */
  lemma {:induction false} ShrShl(x: nat, k: nat, m: nat)
    ensures Shr(Shl(x, k), k + m) == Shr(x, m)
    decreases k
  {
    if k > 0 {
      ShrShl(x, k - 1, m);
      assert (2 * Shl(x, k - 1)) / 2 == Shl(x, k - 1);
    }
  }

  lemma ShrZero(k: nat)
    ensures Shr(0, k) == 0
  {
    ShrIsDiv(0, k);
  }

  lemma ShlZero(k: nat)
    ensures Shl(0, k) == 0
  {
    ShlIsMul(0, k);
  }

  /** A right shift never increases a value, and strictly decreases a nonzero one. */
  lemma ShrLess(x: nat, k: nat)
    ensures Shr(x, k) <= x
    ensures x > 0 && k > 0 ==> Shr(x, k) < x
  {
    ShrIsDiv(x, k);
    if k > 0 {
      assert Pow2(k) == 2 * Pow2(k - 1);
      assert x / Pow2(k) <= x / 2 by {
        DivPow2Succ(x, k - 1);
      }
    }
  }

  /**
    The bits of `x ^ (x >> k)` at position m and above all vanish exactly
    when those of x do: a xorshift never clears the leading bit.
   */
  lemma XorShrVanishes(x: nat, k: nat, m: nat)
    requires k > 0
    ensures Shr(Xor(x, Shr(x, k)), m) == 0 <==> Shr(x, m) == 0
  {
    var y := Shr(x, m);
    XorShr(x, Shr(x, k), m);
    ShrShr(x, k, m);
    ShrShr(x, m, k);
    assert Shr(Shr(x, k), m) == Shr(y, k);
    ShrLess(y, k);
    XorIsZero(y, Shr(y, k));
  }

  /** A value below 2^k is its own low k bits. */
  lemma TruncSmall(x: nat, k: nat)
    requires x < Pow2(k)
    ensures Trunc(x, k) == x
  {
    TruncIsMod(x, k);
    DivModUnique(x, Pow2(k), 0, x);
  }

  /** A value is its low k bits plus 2^k times its bits from k up. */
  lemma TruncShrSplit(x: nat, k: nat)
    ensures x == Trunc(x, k) + Pow2(k) * Shr(x, k)
  {
    TruncIsMod(x, k);
    ShrIsDiv(x, k);
  }

  /** Shifting the low n bits right by s leaves the n - s bits above position s. */
  lemma {:induction false} ShrOfTrunc(x: nat, s: nat, n: nat)
    requires s <= n
    ensures Shr(Trunc(x, n), s) == Trunc(Shr(x, s), n - s)
    decreases s
  {
    if s > 0 {
      assert Trunc(x, n) / 2 == Trunc(x / 2, n - 1);
      ShrOfTrunc(x / 2, s - 1, n - 1);
    }
  }

  lemma Word32Xor(a: Word32, b: Word32)
    ensures Xor(a, b) < TWO32
  {
    Pow2Values();
    XorBound(a, b, 32);
  }

  lemma Word64Xor(a: Word64, b: Word64)
    ensures Xor(a, b) < TWO64
  {
    Pow2Values();
    XorBound(a, b, 64);
  }

  // ---------------------------------------------------------------------
  // And with a low mask
  // ---------------------------------------------------------------------

  /** `x & (2^k - 1)` and `(2^k - 1) & x` keep the low k bits of x. */
  lemma {:induction false} AndLowMask(x: nat, k: nat)
    ensures And(x, Pow2(k) - 1) == Trunc(x, k)
    ensures And(Pow2(k) - 1, x) == Trunc(x, k)
    decreases k
  {
    if k > 0 {
      AndLowMask(x / 2, k - 1);
      var m := Pow2(k) - 1;
      assert m / 2 == Pow2(k - 1) - 1 && m % 2 == 1;
      if x == 0 {
        TruncIsMod(0, k);
      }
    }
  }

  // ---------------------------------------------------------------------
  // Shifts and the low bits of a result
  // ---------------------------------------------------------------------

  /** The low n bits of `x << s` come from the low n bits of x. */
  lemma ShlTrunc(x: nat, s: nat, n: nat)
    ensures Trunc(Shl(x, s), n) == Trunc(Shl(Trunc(x, n), s), n)
  {
    ShlIsMul(x, s);
    ShlIsMul(Trunc(x, n), s);
    TruncIsMod(x, n);
    TruncIsMod(Shl(x, s), n);
    TruncIsMod(Shl(Trunc(x, n), s), n);
    MulMod(x, Pow2(s), Pow2(n));
  }

  /** When s + w <= n, the w bits of `x >> s` come from the low n bits of x. */
  lemma {:induction false} ShrTrunc(x: nat, s: nat, w: nat, n: nat)
    requires s + w <= n
    ensures Trunc(Shr(x, s), w) == Trunc(Shr(Trunc(x, n), s), w)
    decreases s
  {
    if s == 0 {
      TruncTrunc(x, w, n);
    } else {
      var y := Trunc(x, n);
      assert y / 2 == Trunc(x / 2, n - 1);
      ShrTrunc(x / 2, s - 1, w, n - 1);
    }
  }

  // ---------------------------------------------------------------------
  // Agreement modulo 2^32: an unbounded value and the 32-bit word it stands for
  // ---------------------------------------------------------------------

  /** The unbounded value x and the word w have the same low 32 bits. */
  predicate Agree(x: nat, w: nat)
  {
    x % TWO32 == w
  }

  lemma AgreeXor(x: nat, w: nat, y: nat, v: nat)
    requires Agree(x, w) && Agree(y, v)
    ensures Agree(Xor(x, y), Xor(w, v))
  {
    Trunc32(x);
    Trunc32(y);
    Trunc32(Xor(x, y));
    XorTrunc(x, y, 32);
    Word32Xor(w, v);
  }

  lemma AgreePlus(x: nat, w: nat, y: nat, v: nat)
    requires Agree(x, w) && Agree(y, v)
    ensures Agree(x + y, (w + v) % TWO32)
  {
    AddMod(x, y, TWO32);
  }

  lemma AgreeShl(x: nat, w: nat, k: nat)
    requires Agree(x, w)
    ensures Agree(Shl(x, k), Shl(w, k) % TWO32)
  {
    Trunc32(x);
    Trunc32(Shl(x, k));
    Trunc32(Shl(w, k));
    ShlTrunc(x, k, 32);
  }

  /** `(2^m - 1) & (x >> s)` with s + m <= 32 reads only the low 32 bits of x. */
  lemma AgreeMaskedShr(x: nat, w: nat, s: nat, m: nat)
    requires Agree(x, w) && s + m <= 32
    ensures And(Pow2(m) - 1, Shr(x, s)) == And(Pow2(m) - 1, Shr(w, s)) < TWO32
  {
    Trunc32(x);
    AndLowMask(Shr(x, s), m);
    AndLowMask(Shr(w, s), m);
    ShrTrunc(x, s, m, 32);
    TruncBelow(Shr(w, s), m);
    Pow2Values();
    Pow2Mono(m, 32);
  }

  /** The low k bits of x are below 2^k. */
  lemma TruncBelow(x: nat, k: nat)
    ensures Trunc(x, k) < Pow2(k)
  {
    TruncIsMod(x, k);
  }
}
