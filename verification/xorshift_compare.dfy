/**
  The two `Crypt::Xorshift64Star` implementations side by side: the pure
  Ruby one (lib/crypt/isaac/xorshift/pure.rb) keeps an unbounded state, the
  C one (ext/crypt/isaac/xorshift/xorshift.c) a `uint64_t`. Seeded alike,
  their first draws already differ whenever the seed is 2^39 or more.
 */
module XorshiftCompare {
  import opened Bits
  import XorshiftPure
  import XorshiftExt
  import RubyValues

  /** The multiplicative inverse of the multiplier modulo 2^64. */
  const INVERSE: nat := 6415128727920758069

  /** Multiplying by the (odd) multiplier modulo 2^64 loses nothing. */
  lemma ScrambleInjective(a: Word64, b: Word64)
    requires XorshiftExt.Scramble(a) == XorshiftExt.Scramble(b)
    ensures a == b
  {
    var m, n := XorshiftPure.MULTIPLIER, TWO64;
    var k := 934034299265436267;
    assert m * INVERSE == k * n + 1;
    forall x: Word64
      ensures ((x * m) % n * INVERSE) % n == x
    {
      MulMod(x * m, INVERSE, n);
      assert x * m * INVERSE == (x * k) * n + x;
      ModOfMultiple(x * k, x, n);
      DivModUnique(x, n, 0, x);
    }
  }

  /** The pure engine's output depends only on its state modulo 2^64. */
  lemma ScrambleLow(x: nat)
    ensures XorshiftPure.Scramble(x) == XorshiftExt.Scramble(x % TWO64)
  {
    MulMod(x, XorshiftPure.MULTIPLIER, TWO64);
  }

  /** The C state after its three steps is computed from the low 64 bits of `XorshiftPure.Two(s)`. */
  lemma ExtFromLow(s: Word64)
    ensures XorshiftExt.Shuffle(s) == Xor(XorshiftPure.Two(s) % TWO64, Shr(XorshiftPure.Two(s) % TWO64, 27))
  {
    Pow2Values();
    var t1 := Xor(s, Shr(s, 12));
    ShrLess(s, 12);
    XorBound(s, Shr(s, 12), 64);
    XorTrunc(t1, Shl(t1, 25), 64);
    TruncSmall(t1, 64);
    Trunc64(Shl(t1, 25));
    Trunc64(XorshiftPure.Two(s));
  }

  /**
    The low 64 bits of `x >> 27` are the 64-bit `(x % 2^64) >> 27` plus, from
    bit 37 up, the bits of x beyond the 64th.
   */
  lemma LowOfShifted(x: nat)
    requires Shr(x, 64) < Pow2(27)
    ensures Trunc(Shr(x, 27), 64) == Shr(x % TWO64, 27) + Shl(Shr(x, 64), 37)
  {
    LowOfShiftedAt(x, 27, 37, 64);
    Trunc64(x);
  }

  /** The same for any split a + b of a width w. */
  lemma LowOfShiftedAt(x: nat, a: nat, b: nat, w: nat)
    requires a + b == w && Shr(x, w) < Pow2(a)
    ensures Trunc(Shr(x, a), w) == Shr(Trunc(x, w), a) + Shl(Shr(x, w), b)
  {
    var y := Trunc(Shr(x, a), w);
    TruncShrSplit(y, b);
    TruncTrunc(Shr(x, a), b, w);
    ShrTrunc(x, a, b, w);
    var c := Trunc(x, w);
    assert Shr(c, a) < Pow2(b) by {
      TruncBelow(x, w);
      BelowPow2(c, w);
      ShrShr(c, a, b);
      BelowPow2(Shr(c, a), b);
    }
    TruncSmall(Shr(c, a), b);
    ShrOfTrunc(Shr(x, a), b, w);
    ShrShr(x, a, b);
    TruncSmall(Shr(x, w), a);
    var h, p := Shr(x, w), Pow2(b);
    assert Shr(y, b) == h;
    assert Trunc(y, b) == Shr(c, a);
    ShlIsMul(h, b);
    assert y == Shr(c, a) + p * h;
  }

  /**
    From the same 64-bit state, the first draw of the two implementations
    yields the same 64-bit value exactly when the state is below 2^39: above
    that, the bits the C code shifts out at `<< 25` come back in the pure
    code at `>> 27`.
   */
  lemma FirstDrawAgreesIff(s: Word64)
    ensures XorshiftPure.Scramble(XorshiftPure.Shuffle(s)) == XorshiftExt.Scramble(XorshiftExt.Shuffle(s))
            <==> s < Pow2(39)
  {
    var c2 := XorshiftPure.Two(s) % TWO64;
    var high := Shr(XorshiftPure.Two(s), 64);
    PureLow(s);
    ExtFromLow(s);
    XorDecide(XorshiftPure.Shuffle(s) % TWO64, XorshiftExt.Shuffle(s), c2, Shr(c2, 27), Shl(high, 37));
    assert Shl(high, 37) == 0 <==> s < Pow2(39) by {
      XorshiftPure.EscapedBits(s);
      ShlIsMul(high, 37);
      if high > 0 {
        MulAtLeast(high, Pow2(37));
      }
    }
    SameScrambleSameLow(XorshiftPure.Shuffle(s), XorshiftExt.Shuffle(s));
  }

  /** `c ^ (lo + hi)` equals `c ^ lo` exactly when hi is 0. */
  lemma XorDecide(p: nat, e: nat, c: nat, lo: nat, hi: nat)
    requires p == Xor(c, lo + hi) && e == Xor(c, lo)
    ensures p == e <==> hi == 0
  {
    if p == e {
      XorCancel(c, lo + hi, lo);
    }
  }

  /** The low 64 bits of the pure state after one draw. */
  lemma PureLow(s: Word64)
    ensures XorshiftPure.Shuffle(s) % TWO64
            == Xor(XorshiftPure.Two(s) % TWO64, Shr(XorshiftPure.Two(s) % TWO64, 27) + Shl(Shr(XorshiftPure.Two(s), 64), 37))
  {
    ShuffleByTwo(s);
    EscapedBelow27(s);
    ThirdStepLow(XorshiftPure.Two(s));
  }

  /** The pure three steps are the third step applied to `XorshiftPure.Two(s)`. */
  lemma ShuffleByTwo(s: nat)
    ensures XorshiftPure.Shuffle(s) == Xor(XorshiftPure.Two(s), Shr(XorshiftPure.Two(s), 27))
  {
  }

  lemma EscapedBelow27(s: Word64)
    ensures Shr(XorshiftPure.Two(s), 64) < Pow2(27)
  {
    XorshiftPure.EscapedBits(s);
    Pow2Mono(25, 27);
  }

  /** The low 64 bits after `x ^= x >> 27`, when x has fewer than 91 bits. */
  lemma ThirdStepLow(x: nat)
    requires Shr(x, 64) < Pow2(27)
    ensures Xor(x, Shr(x, 27)) % TWO64 == Xor(x % TWO64, Shr(x % TWO64, 27) + Shl(Shr(x, 64), 37))
  {
    ThirdStepLowAt(x, 27, 37, 64);
    Pow2Values();
  }

  /** The same for any split a + b of a width w. */
  lemma ThirdStepLowAt(x: nat, a: nat, b: nat, w: nat)
    requires a + b == w && Shr(x, w) < Pow2(a)
    ensures Xor(x, Shr(x, a)) % Pow2(w) == Xor(x % Pow2(w), Shr(x % Pow2(w), a) + Shl(Shr(x, w), b))
  {
    XorTrunc(x, Shr(x, a), w);
    LowOfShiftedAt(x, a, b, w);
    TruncIsMod(x, w);
    TruncIsMod(Xor(x, Shr(x, a)), w);
  }

  /** Equal scrambles mean equal states modulo 2^64. */
  lemma SameScrambleSameLow(x: nat, c: Word64)
    ensures XorshiftPure.Scramble(x) == XorshiftExt.Scramble(c) <==> x % TWO64 == c
  {
    ScrambleLow(x);
    if XorshiftPure.Scramble(x) == XorshiftExt.Scramble(c) {
      ScrambleInjective(x % TWO64, c);
    }
  }

  /**
    Seeded alike with a 64-bit seed, the first `rand` of the two
    implementations is computed from the same value exactly when the seed
    is below 2^39.
   */
  lemma FirstRandAgreesIff(seed: int)
    requires 0 <= seed < TWO64
    ensures XorshiftExt.New(seed).Ok?
    ensures XorshiftPure.Rand(XorshiftPure.New(seed), 0).1.raw
            == XorshiftExt.Rand(XorshiftExt.New(seed).value, RubyValues.None).value.1.raw
            <==> seed < Pow2(39)
  {
    XorshiftPure.NewReducesSeed(seed);
    DivModUnique(seed, TWO64, 0, seed);
    assert XorshiftExt.New(seed).value.state == seed;
    FirstDrawAgreesIff(seed);
  }
}
