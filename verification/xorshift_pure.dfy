/**
  The pure-Ruby `Crypt::Xorshift64Star` (lib/crypt/isaac/xorshift/pure.rb).

  Ruby Integers are unbounded and `rand` never reduces `@seed`: the left
  shift by 25 can carry the state past 2^64, and on later draws those high
  bits come back down through the right shifts. Only the value returned is
  reduced modulo 2^64. The state is therefore a `nat`, and the xorshift
  steps use the unbounded `Xor`/`Shl`/`Shr` of module Bits.
 */
module XorshiftPure {
  import opened Bits

  /** The Xorshift64* output multiplier. */
  const MULTIPLIER: nat := 2685821657736338717

  /** An instance: `@seed` (the running state) and `@old_seed` (what `seed` returns). */
  datatype Generator = Generator(state: nat, oldSeed: nat)

  /**
    One draw. An integer draw is a value in [0, n); a float draw is
    represented by the 64-bit value it is computed from.
   */
  datatype Draw = FloatDraw(raw: Word64) | IntDraw(v: nat)

  /** The instance variables before `initialize` assigns them (both are nil). */
  const Unassigned := Generator(0, 0)

  /** The three xorshift steps of `rand`, on the unbounded state. */
  function Shuffle(s: nat): nat
  {
    var t1 := Xor(s, Shr(s, 12));
    var t2 := Xor(t1, Shl(t1, 25));
    Xor(t2, Shr(t2, 27))
  }

  /** The 64-bit value a draw is computed from: `(state * MULTIPLIER) % 2^64`. */
  function Scramble(s: nat): Word64
  {
    (s * MULTIPLIER) % TWO64
  }

  /** `srand(seed)`: the old state moves to `@old_seed`; returns the new state. */
  function Srand(g: Generator, seed: int): (r: (Generator, Word64))
    ensures r.0.oldSeed == g.state
    ensures r.0.state == r.1
    ensures (seed - r.0.state) % TWO64 == 0
  {
    var s := seed % TWO64;
    (Generator(s, g.state), s)
  }

  /** `Xorshift64Star.new(seed)`: `srand(seed)`, then `@old_seed = @seed`. */
  function New(seed: int): (g: Generator)
    ensures g.state < TWO64
    ensures Seed(g) == g.state
  {
    var g := Srand(Unassigned, seed).0;
    g.(oldSeed := g.state)
  }

  /** `seed`. */
  function Seed(g: Generator): nat
  {
    g.oldSeed
  }

  /** `==` between two instances of this class. */
  predicate Eq(g: Generator, h: Generator)
  {
    g.oldSeed == Seed(h)
  }

  /**
    `rand(n)`. `n` below 1 asks for a Float; otherwise the result is reduced
    by `Integer(n)`, and a Float n such as 10.0 is given as its truncation
    (a Float is below 1 exactly when its truncation is).
   */
  function Rand(g: Generator, n: int): (r: (Generator, Draw))
    ensures r.0.oldSeed == g.oldSeed
    ensures r.1.IntDraw? <==> n >= 1
    ensures r.1.IntDraw? ==> r.1.v < n
    ensures r.1.FloatDraw? ==> r.1.raw == Scramble(r.0.state)
    ensures r.1.IntDraw? ==> r.1.v == Scramble(r.0.state) % n
  {
    var s := Shuffle(g.state);
    var raw := Scramble(s);
    (Generator(s, g.oldSeed), if n < 1 then FloatDraw(raw) else IntDraw(raw % n))
  }

  /** Successive `rand(ns[0])`, `rand(ns[1])`, ... on one instance. */
  function Draws(g: Generator, ns: seq<int>): (r: (Generator, seq<Draw>))
    ensures |r.1| == |ns|
    ensures r.0.oldSeed == g.oldSeed
    decreases |ns|
  {
    if |ns| == 0 then (g, [])
    else
      var (g', d) := Rand(g, ns[0]);
      var (g'', ds) := Draws(g', ns[1..]);
      (g'', [d] + ds)
  }

  /** The value a draw reports, whichever kind it is. */
  function DrawValue(d: Draw): nat
  {
    if d.FloatDraw? then d.raw else d.v
  }

  // ---------------------------------------------------------------------
  // Properties
  // ---------------------------------------------------------------------

  /** After `new`, the state and `seed` are both the seed reduced modulo 2^64. */
  lemma NewReducesSeed(seed: int)
    ensures New(seed).state == seed % TWO64
    ensures Seed(New(seed)) == seed % TWO64
  {
  }

  /** Two instances compare `==` exactly when their seeds agree modulo 2^64. */
  lemma EqNewIff(a: int, b: int)
    ensures Eq(New(a), New(b)) <==> a % TWO64 == b % TWO64
  {
  }

  /** Seeds 123 and 124 give unequal generators. */
  lemma DistinctSeedsUnequal()
    ensures !Eq(New(123), New(124))
  {
    EqNewIff(123, 124);
  }

  /** The draws depend on nothing but the seed modulo 2^64. */
  lemma SameSeedSameDraws(a: int, b: int, ns: seq<int>)
    requires a % TWO64 == b % TWO64
    ensures Draws(New(a), ns).1 == Draws(New(b), ns).1
  {
  }

  /** Every draw with a limit n >= 1 is an Integer below n. */
  lemma {:induction false} DrawsBelow(g: Generator, ns: seq<int>)
    ensures forall i :: 0 <= i < |ns| && ns[i] >= 1 ==>
              Draws(g, ns).1[i].IntDraw? && Draws(g, ns).1[i].v < ns[i]
    decreases |ns|
  {
    if |ns| > 0 {
      var (g', d) := Rand(g, ns[0]);
      DrawsBelow(g', ns[1..]);
      assert Draws(g, ns).1 == [d] + Draws(g', ns[1..]).1;
    }
  }

  /** The xorshift steps keep 0 at 0. */
  lemma ShuffleZero()
    ensures Shuffle(0) == 0
  {
    ShrZero(12);
    ShlZero(25);
    ShrZero(27);
    XorZero(0);
  }

  /** From state 0 every draw is 0 and the state stays 0. */
  lemma {:induction false} ZeroStateStaysZero(g: Generator, ns: seq<int>)
    requires g.state == 0
    ensures Draws(g, ns).0.state == 0
    ensures forall i :: 0 <= i < |ns| ==> DrawValue(Draws(g, ns).1[i]) == 0
    decreases |ns|
  {
    if |ns| > 0 {
      ShuffleZero();
      var (g', d) := Rand(g, ns[0]);
      assert g'.state == 0 && DrawValue(d) == 0;
      ZeroStateStaysZero(g', ns[1..]);
    }
  }

  /** A seed that is a multiple of 2^64 makes every draw 0. */
  lemma ZeroSeedAllZero(seed: int, ns: seq<int>)
    requires seed % TWO64 == 0
    ensures forall i :: 0 <= i < |ns| ==> DrawValue(Draws(New(seed), ns).1[i]) == 0
  {
    ZeroStateStaysZero(New(seed), ns);
  }

  /** The pure state after the first two xorshift steps. */
  function Two(s: nat): nat
  {
    var t1 := Xor(s, Shr(s, 12));
    Xor(t1, Shl(t1, 25))
  }

  /** The first xorshift step keeps a 64-bit state below 2^64. */
  lemma FirstStepBound(s: Word64)
    ensures Xor(s, Shr(s, 12)) < Pow2(64)
  {
    Pow2Values();
    ShrLess(s, 12);
    XorBound(s, Shr(s, 12), 64);
  }

  /** The bits of `Two(s)` from 64 up are those of the first step from 39 up. */
  lemma EscapedBitsAre(s: Word64)
    ensures Shr(Two(s), 64) == Shr(Xor(s, Shr(s, 12)), 39)
  {
    var t1 := Xor(s, Shr(s, 12));
    FirstStepBound(s);
    BelowPow2(t1, 64);
    XorShr(t1, Shl(t1, 25), 64);
    ShrShl(t1, 25, 39);
    XorZero(Shr(t1, 39));
  }

  /**
    The bits of `Two(s)` from 64 up are fewer than 25, and all zero exactly
    when s is below 2^39.
   */
  lemma EscapedBits(s: Word64)
    ensures Shr(Two(s), 64) < Pow2(25)
    ensures Shr(Two(s), 64) == 0 <==> s < Pow2(39)
  {
    var t1 := Xor(s, Shr(s, 12));
    EscapedBitsAre(s);
    assert Shr(t1, 39) < Pow2(25) by {
      FirstStepBound(s);
      BelowPow2(t1, 64);
      ShrShr(t1, 39, 25);
      BelowPow2(Shr(t1, 39), 25);
    }
    assert Shr(t1, 39) == 0 <==> s < Pow2(39) by {
      XorShrVanishes(s, 12, 39);
      BelowPow2(s, 39);
    }
  }

  /**
    The state is not kept to 64 bits: a draw from a 64-bit state leaves a
    state of 2^64 or more exactly when the state was at least 2^39.
   */
  lemma ShuffleEscapes(s: Word64)
    ensures Shuffle(s) >= TWO64 <==> s >= Pow2(39)
  {
    Pow2Values();
    var t2 := Two(s);
    assert Shuffle(s) == Xor(t2, Shr(t2, 27));
    EscapedBits(s);
    XorShrVanishes(t2, 27, 64);
    BelowPow2(Shuffle(s), 64);
  }

  /** So a second draw can see bits a 64-bit state would have dropped. */
  lemma StateGrowsPast64Bits(seed: int)
    requires Pow2(39) <= seed < TWO64
    ensures Rand(New(seed), 1).0.state >= TWO64
  {
    var g := New(seed);
    assert g.state == seed by {
      NewReducesSeed(seed);
      DivModUnique(seed, TWO64, 0, seed);
    }
    ShuffleEscapes(g.state);
    assert Rand(g, 1).0.state == Shuffle(g.state);
  }
}
