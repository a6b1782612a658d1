/**
  The C-extension `Crypt::Xorshift64Star` (ext/crypt/isaac/xorshift/xorshift.c).

  The state is a `uint64_t`: the left shift by 25 wraps, so the state never
  leaves [0, 2^64). Seeds and limits go through `NUM2ULL`, which raises on an
  Integer outside [-2^63, 2^64) and wraps a negative one. `@old_seed` is a
  Ruby value: `srand` stores the previous state there, and `initialize`
  finally stores the seed argument itself, unreduced.
 */
module XorshiftExt {
  import opened Bits
  import opened RubyValues
  import XorshiftPure

  /** The C struct (`*seed`) and the `@old_seed` instance variable. */
  datatype Generator = Generator(state: Word64, oldSeed: int)

  /** `Data_Make_Struct` zero-fills the struct; `@old_seed` is not yet set. */
  const Allocated := Generator(0, 0)

  /** One draw: a Float draw carries the 64-bit value it is computed from. */
  datatype Draw = FloatDraw(raw: Word64) | IntDraw(v: Word64)

  /** `s ^= s >> 12; s ^= s << 25; s ^= s >> 27` on a `uint64_t`. */
  function Shuffle(s: Word64): (r: Word64)
  {
    ShrLess(s, 12);
    Word64Xor(s, Shr(s, 12));
    var t1: Word64 := Xor(s, Shr(s, 12));
    Word64Xor(t1, Shl(t1, 25) % TWO64);
    var t2: Word64 := Xor(t1, Shl(t1, 25) % TWO64);
    ShrLess(t2, 27);
    Word64Xor(t2, Shr(t2, 27));
    Xor(t2, Shr(t2, 27))
  }

  /** `random = *seed * 2685821657736338717`, wrapping at 2^64. */
  function Scramble(s: Word64): Word64
  {
    (s * XorshiftPure.MULTIPLIER) % TWO64
  }

  /**
    `srand(seed)`: `@old_seed` receives the current state before the seed is
    converted, so it changes even when the conversion raises; on success the
    state is the seed's 64-bit pattern and the argument is returned as given.
    A missing seed (which falls back to a time-based one) is not modelled.
   */
  function Srand(g: Generator, seed: int): (r: (Generator, Result<int>))
    ensures r.0.oldSeed == g.state
    ensures r.1.Ok? <==> -0x8000_0000_0000_0000 <= seed < TWO64
    ensures r.1.Ok? ==> r.1.value == seed && r.0.state == seed % TWO64
    ensures r.1.Err? ==> r.0.state == g.state && r.1.error == RangeError
  {
    var g' := g.(oldSeed := g.state);
    match ToULong(seed)
    case Ok(v) => (g'.(state := v), Ok(seed))
    case Err(e) => (g', Err(e))
  }

  /**
    `Xorshift64Star.new(seed)`: `srand(seed)`, `srand` again with what the
    first call returned, then `@old_seed = seed`.
   */
  function New(seed: int): (r: Result<Generator>)
    ensures r.Ok? <==> -0x8000_0000_0000_0000 <= seed < TWO64
    ensures r.Err? ==> r.error == RangeError
  {
    var (g1, s1) := Srand(Allocated, seed);
    if s1.Err? then Err(s1.error)
    else
      // the second call converts the same Integer again, so it cannot raise
      // and returns that Integer once more
      var g2 := Srand(g1, s1.value).0;
      Ok(g2.(oldSeed := s1.value))
  }

  /** `seed`. */
  function Seed(g: Generator): int
  {
    g.oldSeed
  }

  /** `==` between two instances (Integer seeds compared by value). */
  predicate Eq(g: Generator, h: Generator)
  {
    g.oldSeed == Seed(h)
  }

  /**
    `rand` (limit None) or `rand(limit)`. The limit is converted first, so a
    conversion error leaves the generator as it was; a limit whose 64-bit
    pattern is 0 gives a Float draw.
   */
  function Rand(g: Generator, limit: Option<int>): (r: Result<(Generator, Draw)>)
    ensures limit.Some? && ToULong(limit.value).Err? <==> r.Err?
    ensures r.Ok? ==> r.value.0.oldSeed == g.oldSeed
    ensures r.Ok? && limit.Some? && limit.value % TWO64 != 0 ==>
              r.value.1.IntDraw? && r.value.1.v < limit.value % TWO64
    ensures r.Ok? && (limit.None? || limit.value % TWO64 == 0) ==> r.value.1.FloatDraw?
  {
    var l := if limit.None? then Ok(0) else ToULong(limit.value);
    if l.Err? then Err(l.error)
    else
      var s := Shuffle(g.state);
      var random := Scramble(s);
      Ok((Generator(s, g.oldSeed), if l.value == 0 then FloatDraw(random) else IntDraw(random % l.value)))
  }

  /** Successive draws with the given limits; None when one of them raises. */
  function Draws(g: Generator, limits: seq<Option<int>>): (r: Option<(Generator, seq<Draw>)>)
    ensures r.Some? ==> |r.value.1| == |limits|
    decreases |limits|
  {
    if |limits| == 0 then Some((g, []))
    else
      match Rand(g, limits[0])
      case Err(_) => None
      case Ok((g', d)) =>
        match Draws(g', limits[1..])
        case None => None
        case Some((g'', ds)) => Some((g'', [d] + ds))
  }

  // ---------------------------------------------------------------------
  // Properties
  // ---------------------------------------------------------------------

  /**
    After `new`, the state is the seed's 64-bit pattern and `seed` returns
    the argument itself, so a negative seed reads back negative.
   */
  lemma NewKeepsSeed(seed: int)
    requires New(seed).Ok?
    ensures New(seed).value.state == seed % TWO64
    ensures Seed(New(seed).value) == seed
  {
  }

  lemma NegativeSeedReadsBack()
    ensures New(-1).Ok? && New(-1).value.state == TWO64 - 1 && Seed(New(-1).value) == -1
  {
  }

  /** Two new instances compare `==` exactly when their seeds are equal. */
  lemma EqNewIff(a: int, b: int)
    requires New(a).Ok? && New(b).Ok?
    ensures Eq(New(a).value, New(b).value) <==> a == b
  {
  }

  /** The state never leaves 64 bits, and 0 is a fixed point. */
  lemma ShuffleZero()
    ensures Shuffle(0) == 0
  {
    ShrZero(12);
    ShlZero(25);
    ShrZero(27);
    XorZero(0);
  }

  /** From state 0 every draw that succeeds is 0. */
  lemma {:induction false} ZeroStateStaysZero(g: Generator, limits: seq<Option<int>>)
    requires g.state == 0
    ensures Draws(g, limits).Some? ==> Draws(g, limits).value.0.state == 0
    ensures Draws(g, limits).Some? ==>
              forall i :: 0 <= i < |limits| ==> DrawValue(Draws(g, limits).value.1[i]) == 0
    decreases |limits|
  {
    if |limits| > 0 {
      match Rand(g, limits[0])
      case Err(_) =>
      case Ok((g', d)) =>
        ShuffleZero();
        assert g'.state == 0 && DrawValue(d) == 0;
        ZeroStateStaysZero(g', limits[1..]);
    }
  }

  function DrawValue(d: Draw): Word64
  {
    if d.FloatDraw? then d.raw else d.v
  }

  /** Limits in [1, 2^64) never raise, and each draw is an Integer below its limit. */
  lemma {:induction false} DrawsWithin(g: Generator, limits: seq<Option<int>>)
    requires forall i :: 0 <= i < |limits| ==> limits[i].Some? && 1 <= limits[i].value < TWO64
    ensures Draws(g, limits).Some?
    ensures forall i :: 0 <= i < |limits| ==>
              Draws(g, limits).value.1[i].IntDraw? && Draws(g, limits).value.1[i].v < limits[i].value
    decreases |limits|
  {
    if |limits| > 0 {
      var (g', d) := Rand(g, limits[0]).value;
      DrawsWithin(g', limits[1..]);
      assert Draws(g, limits).value.1 == [d] + Draws(g', limits[1..]).value.1;
    }
  }

  /** The draws depend on nothing but the state when the sequence starts. */
  lemma {:induction false} DrawsDependOnState(g: Generator, h: Generator, limits: seq<Option<int>>)
    requires g.state == h.state
    ensures Draws(g, limits).Some? <==> Draws(h, limits).Some?
    ensures Draws(g, limits).Some? ==> Draws(g, limits).value.1 == Draws(h, limits).value.1
    decreases |limits|
  {
    if |limits| > 0 {
      match Rand(g, limits[0])
      case Err(_) =>
      case Ok((g', d)) =>
        var (h', e) := Rand(h, limits[0]).value;
        DrawsDependOnState(g', h', limits[1..]);
    }
  }
}
