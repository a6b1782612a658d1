/**
  The pure-Ruby engine `Crypt::ISAAC` (lib/crypt/isaac/pure.rb): building
  the seed array, `srand`, the read cursor of `rand`, its Float, Integer and
  Range extractions, `bytes`, `state`/`==` and `dup`.

  `@randcnt` counts down: `rand` refills the results with `isaac` when it
  finds 1 (not 0), resets it to 256, and then decrements, so the cursor
  reads `randrsl[255]` down to `randrsl[1]` and `randrsl[0]` is never used.
 */
module IsaacPure {
  import opened Bits
  import opened RubyValues
  import opened IsaacRound
  import opened IsaacMix
  import opened IsaacInit
  import XorshiftPure

  /** An instance: the ISAAC memory, `@randcnt`, and `@seed` (the seed array `srand` used). */
  datatype Engine = Engine(mem: Mem, randcnt: int, seed: seq<nat>)

  /** What `srand` establishes and every `rand` keeps. */
  predicate Valid(e: Engine)
  {
    Sized(e.mem) && Words(e.mem.rsl) && 1 <= e.randcnt <= SIZE
  }

  /**
    The seeds `new_seed` accepts. The `true`/`false` seeds that read an
    entropy device are not modelled.
   */
  datatype SeedSource =
    | SeedArray(entries: seq<nat>)   // anything that responds to `each`
    | SeedInteger(k: int)            // the seed of a `Crypt::Xorshift64Star`
    | SeedPrng(draws: seq<nat>)      // an object that responds to `rand`: its answers, in call order

  /** The limit of the seed draws, 2^32. */
  const SEED_LIMIT: nat := 4_294_967_296

  /** The divisor of a Float draw, 2^29. */
  const FLOAT_SCALE: nat := 536_870_912

  /** The limit `bytes` passes to `rand`, 2^32 - 1. */
  const BYTES_LIMIT: nat := 4_294_967_295

  /** The answers of `Xorshift64Star.new(k)` to 256 calls of `rand(2^32)`. */
  function XorshiftDraws(k: int): (d: seq<nat>)
    ensures |d| == SIZE && Words(d)
  {
    var limits := seq(SIZE, t => SEED_LIMIT);
    var draws := XorshiftPure.Draws(XorshiftPure.New(k), limits).1;
    XorshiftPure.DrawsBelow(XorshiftPure.New(k), limits);
    seq(SIZE, t requires 0 <= t < SIZE => XorshiftPure.DrawValue(draws[t]))
  }

  /**
    `new_seed(seed)`: 256 entries. An array gives its first min(len, 256)
    entries and zeros after them; a PRNG gives its answers to
    `rand(2^32)` with answer t at entry t.
   */
  function NewSeed(src: SeedSource): (s: seq<nat>)
    requires src.SeedPrng? ==> |src.draws| >= SIZE
    ensures |s| == SIZE
    ensures src.SeedArray? && |src.entries| <= SIZE ==> s[..|src.entries|] == src.entries
    ensures src.SeedArray? && |src.entries| >= SIZE ==> s == src.entries[..SIZE]
    ensures src.SeedArray? ==> forall j :: |src.entries| <= j < SIZE ==> s[j] == 0
    ensures src.SeedInteger? ==> Words(s)
  {
    match src
    case SeedArray(entries) =>
      seq(SIZE, j requires 0 <= j < SIZE => if j < |entries| then entries[j] else 0)
    case SeedInteger(k) => XorshiftDraws(k)
    case SeedPrng(draws) => draws[..SIZE]
  }

  /**
    `srand(seed)`: `@randrsl` is the new seed array, `@seed` a copy of it,
    then `randinit(true)`; returns `@seed`. Every field is rewritten, so the
    engine it is called on does not matter (the first pass of `randinit`
    overwrites all of `mm` without reading it, see
    `IsaacInit.FirstPassIgnoresMm`).
   */
  function Srand(src: SeedSource): (r: (Engine, seq<nat>))
    requires src.SeedPrng? ==> |src.draws| >= SIZE
    ensures Valid(r.0) && r.0.randcnt == SIZE
    ensures r.1 == r.0.seed == NewSeed(src)
    ensures r.0.mem.cc == 1
  {
    var rsl := NewSeed(src);
    var mem := RandInit(Unbounded, rsl, true);
    RandInitWords(Unbounded, rsl, true);
    (Engine(mem, SIZE, rsl), rsl)
  }

  /** `Crypt::ISAAC.new(seed)`: `srand(seed)` on a fresh instance. */
  function New(src: SeedSource): (e: Engine)
    requires src.SeedPrng? ==> |src.draws| >= SIZE
    ensures Valid(e)
  {
    Srand(src).0
  }

  /**
    The cursor step of `rand`: refill with `isaac` and reset to 256 when
    `@randcnt` is 1, then decrement.
   */
  function Advance(e: Engine): (r: Engine)
    requires Valid(e)
    ensures Valid(r) && r.randcnt < SIZE && r.seed == e.seed
    ensures e.randcnt > 1 ==> r.mem == e.mem && r.randcnt == e.randcnt - 1
    ensures e.randcnt == 1 ==> r.mem == Isaac(e.mem) && r.randcnt == SIZE - 1
  {
    if e.randcnt == 1 then
      IsaacWords(e.mem);
      e.(mem := Isaac(e.mem), randcnt := SIZE - 1)
    else
      e.(randcnt := e.randcnt - 1)
  }

  /** The word `rand` reads once the cursor has moved: `@randrsl[@randcnt]`. */
  function Read(e: Engine): (w: Word32)
    requires Valid(e) && e.randcnt < SIZE
  {
    e.mem.rsl[e.randcnt]
  }

  /** v is Ruby's `w % d`: it has the sign of d, lies below |d|, and d divides w - v. */
  predicate RubyMod(w: int, d: int, v: int)
    requires d != 0
  {
    (d > 0 ==> 0 <= v < d) && (d < 0 ==> d < v <= 0) && (w - v) % d == 0
  }

  /** `(w / 536870912.0) % 1`: exact, since w < 2^32 and the divisor is a power of 2. */
  function Fraction(w: Word32): (x: real)
    ensures 0.0 <= x < 1.0
    ensures ((w as real) / (FLOAT_SCALE as real) - x).Floor as real == (w as real) / (FLOAT_SCALE as real) - x
  {
    var q := w / FLOAT_SCALE;
    assert (w as real) == (q as real) * (FLOAT_SCALE as real) + ((w % FLOAT_SCALE) as real);
    ((w % FLOAT_SCALE) as real) / (FLOAT_SCALE as real)
  }

  /**
    `rand(arg)`. The cursor moves before the argument is looked at, so the
    state advances even when the extraction raises. A Float argument is
    used through `to_i`; a Range gives `min + w % (max - min)`, where an
    empty range makes `min`/`max` nil (NoMethodError) and a one-element
    range divides by zero.
   */
  function Rand(e: Engine, arg: Arg): (r: (Engine, Result<Value>))
    requires Valid(e)
    ensures Valid(r.0) && 1 <= r.0.randcnt < SIZE
    ensures r.0 == Advance(e) && r.1 == Extract(Read(r.0), arg)
  {
    var e' := Advance(e);
    (e', Extract(Read(e'), arg))
  }

  /** What `rand(arg)` makes of the word w it read. */
  function Extract(w: Word32, arg: Arg): (r: Result<Value>)
    ensures arg.NoArg? || arg.NilArg? ==> r.Ok? && r.value.FloatVal? && r.value.x == Fraction(w)
    ensures arg.IntArg? ==> (r.Ok? <==> arg.n != 0)
    ensures arg.IntArg? && arg.n != 0 ==> r.value.IntVal? && RubyMod(w, arg.n, r.value.v)
    ensures arg.FloatArg? ==> (r.Ok? <==> arg.truncated != 0)
    ensures arg.FloatArg? && arg.truncated != 0 ==> r.value.IntVal? && RubyMod(w, arg.truncated, r.value.v)
    ensures arg.RangeArg? ==>
              var lo, hi := RangeMin(arg.first, arg.last, arg.exclusive), RangeMax(arg.first, arg.last, arg.exclusive);
              (r.Ok? <==> lo.Some? && lo != hi) &&
              (r.Ok? ==> r.value.IntVal? && lo.value <= r.value.v < hi.value &&
                         RubyMod(w, hi.value - lo.value, r.value.v - lo.value))
    ensures r.Err? ==> r.error == (if arg.RangeArg? && RangeMin(arg.first, arg.last, arg.exclusive).None?
                                   then NoMethodError else ZeroDivisionError)
  {
    match arg
    case NoArg | NilArg => Ok(FloatVal(Fraction(w)))
    case IntArg(n) => if n == 0 then Err(ZeroDivisionError) else Ok(IntVal(FloorMod(w, n)))
    case FloatArg(t) => if t == 0 then Err(ZeroDivisionError) else Ok(IntVal(FloorMod(w, t)))
    case RangeArg(first, last, exclusive) =>
      var lo, hi := RangeMin(first, last, exclusive), RangeMax(first, last, exclusive);
      if lo.None? || hi.None? then Err(NoMethodError)
      else if hi.value == lo.value then Err(ZeroDivisionError)
      else Ok(IntVal(lo.value + FloorMod(w, hi.value - lo.value)))
  }

  /** n cursor steps. */
  function AdvanceN(e: Engine, n: nat): (r: Engine)
    requires Valid(e)
    ensures Valid(r) && (n > 0 ==> r.randcnt < SIZE)
    decreases n
  {
    if n == 0 then e else AdvanceN(Advance(e), n - 1)
  }

  /** Successive `rand(args[0])`, `rand(args[1])`, ... on one instance. */
  function Draws(e: Engine, args: seq<Arg>): (r: (Engine, seq<Result<Value>>))
    requires Valid(e)
    ensures |r.1| == |args|
    ensures r.0 == AdvanceN(e, |args|)
    decreases |args|
  {
    if |args| == 0 then (e, [])
    else
      var (e', v) := Rand(e, args[0]);
      var (e'', vs) := Draws(e', args[1..]);
      (e'', [v] + vs)
  }

  // ---------------------------------------------------------------------
  // bytes
  // ---------------------------------------------------------------------

  /** n calls of `rand(4294967295)`: the engine after them and the values. */
  function ByteWords(e: Engine, n: nat): (r: (Engine, seq<nat>))
    requires Valid(e)
    ensures r.0 == AdvanceN(e, n) && |r.1| == n
    ensures forall j :: 0 <= j < n ==> r.1[j] < BYTES_LIMIT
    decreases n
  {
    if n == 0 then (e, [])
    else
      var e' := Advance(e);
      var (e'', ws) := ByteWords(e', n - 1);
      (e'', [Read(e') % BYTES_LIMIT] + ws)
  }

  /**
    `bytes(size)`: `size / 4` full words, then, when `size % 4` is not 0,
    the first `size % 4` octets of one more word. Ruby's `/` and `%` floor,
    so a negative size makes no full word but `size % 4` octets of one.
   */
  function Bytes(e: Engine, size: int): (r: (Engine, seq<Byte>))
    requires Valid(e)
    ensures size >= 0 ==> |r.1| == size
    ensures size < 0 ==> |r.1| == size % 4
    ensures size >= 0 ==> r.0 == AdvanceN(e, (size + 3) / 4)
  {
    var full := if size >= 0 then size / 4 else 0;
    var (e1, ws) := ByteWords(e, full);
    if size % 4 == 0 then (e1, Pack(ws))
    else
      var e2 := Advance(e1);
      AdvanceSplit(e, full, 1);
      (e2, Pack(ws) + LeBytes(Read(e2) % BYTES_LIMIT)[..size % 4])
  }

  // ---------------------------------------------------------------------
  // state, ==, dup
  // ---------------------------------------------------------------------

  /** `state`: `@randrsl` followed by `@randcnt`. */
  function State(e: Engine): (s: seq<int>)
    requires Valid(e)
    ensures |s| == SIZE + 1
  {
    e.mem.rsl + [e.randcnt]
  }

  /** `==`: the states are equal. */
  predicate Eq(e: Engine, f: Engine)
    requires Valid(e) && Valid(f)
  {
    State(e) == State(f)
  }

  /**
    `dup`: `initialize_copy` copies `aa`, `bb`, `cc` and `randcnt`, and
    fresh copies of `mm` and `randrsl`; `@seed` is carried over by the
    shallow copy. An engine here is an immutable value, so the copy is the
    same value and no table can be shared in a way that matters.
   */
  function Copy(e: Engine): (c: Engine)
    requires Valid(e)
    ensures Valid(c)
  {
    Engine(Mem(e.mem.mm, e.mem.rsl, e.mem.aa, e.mem.bb, e.mem.cc), e.randcnt, e.seed)
  }

  // ---------------------------------------------------------------------
  // Properties
  // ---------------------------------------------------------------------

  /** n + m cursor steps are n steps, then m more. */
  lemma {:induction false} AdvanceSplit(e: Engine, n: nat, m: nat)
    requires Valid(e)
    ensures AdvanceN(e, n + m) == AdvanceN(AdvanceN(e, n), m)
    decreases n
  {
    if n > 0 {
      AdvanceSplit(Advance(e), n - 1, m);
    }
  }

  /**
    The cursor after n calls of `rand` from cursor c: it runs c - 1, ..., 1,
    then 255, ..., 1 again, a full batch being 255 words.
   */
  lemma {:induction false} CursorAfter(e: Engine, n: nat)
    requires Valid(e)
    ensures n > 0 ==> AdvanceN(e, n).randcnt == 1 + (e.randcnt - 1 - n) % 255
    decreases n
  {
    var e' := Advance(e);
    if n == 1 {
      assert AdvanceN(e, 1) == e';
      CursorFormula(e.randcnt, e'.randcnt, 1, e'.randcnt);
    } else if n > 1 {
      CursorAfter(e', n - 1);
      var r := AdvanceN(e', n - 1);
      assert AdvanceN(e, n) == r;
      CursorFormula(e.randcnt, e'.randcnt, n, r.randcnt);
    }
  }

  /**
    The arithmetic of `CursorAfter`: if r is the cursor after n - 1 more
    calls from c', the cursor one call after c, then r is the cursor n calls
    after c.
   */
  lemma CursorFormula(c: int, c': int, n: int, r: int)
    requires 1 <= c <= SIZE && n >= 1 && c' == (if c == 1 then SIZE - 1 else c - 1)
    requires n == 1 ==> r == c'
    requires n > 1 ==> r == 1 + (c' - 1 - (n - 1)) % 255
    ensures r == 1 + (c - 1 - n) % 255
  {
    if n == 1 {
      ModUnique(c - 2, 255, if c == 1 then -1 else 0, if c == 1 then 254 else c - 2);
    } else if c == 1 {
      var x := -n;
      ModUnique(x + 255, 255, x / 255 + 1, x % 255);
    }
  }

  /** No refill happens while fewer calls are made than the cursor's value minus 1... */
  lemma {:induction false} NoRefillBeforeOne(e: Engine, n: nat)
    requires Valid(e) && n < e.randcnt
    ensures AdvanceN(e, n).mem == e.mem && AdvanceN(e, n).randcnt == e.randcnt - n
    decreases n
  {
    if n > 0 {
      NoRefillBeforeOne(Advance(e), n - 1);
    }
  }

  /**
    ... so from a full cursor, as `srand` leaves it, the first 255 calls read
    `randrsl[255]` down to `randrsl[1]` of the same batch, and the 256th
    call refills.
   */
  lemma FirstBatch(e: Engine, n: nat)
    requires Valid(e) && e.randcnt == SIZE && n < SIZE - 1
    ensures Read(AdvanceN(e, n + 1)) == e.mem.rsl[SIZE - 1 - n]
    ensures AdvanceN(e, SIZE).mem == Isaac(e.mem)
  {
    NoRefillBeforeOne(e, n + 1);
    NoRefillBeforeOne(e, SIZE - 1);
    AdvanceSplit(e, SIZE - 1, 1);
  }

  /** The word `rand` reads is never `randrsl[0]`. */
  lemma NeverReadsFirst(e: Engine, arg: Arg)
    requires Valid(e)
    ensures Rand(e, arg).0.randcnt != 0
  {
  }

  /** `rand` moves the state the same way whatever its argument, even when it raises. */
  lemma StateIgnoresArgument(e: Engine, a: Arg, b: Arg)
    requires Valid(e)
    ensures Rand(e, a).0 == Rand(e, b).0
  {
  }

  /** `rand(n)` for n > 0 is in [0, n); `rand(3..12)` is in [3, 12). */
  lemma IntegerBound(e: Engine, n: int)
    requires Valid(e) && n > 0
    ensures Rand(e, IntArg(n)).1.Ok? && 0 <= Rand(e, IntArg(n)).1.value.v < n
  {
  }

  lemma RangeBound(e: Engine)
    requires Valid(e)
    ensures Rand(e, RangeArg(3, 12, false)).1.Ok?
    ensures 3 <= Rand(e, RangeArg(3, 12, false)).1.value.v < 12
  {
  }

  /** `bytes(size)` consists of the packed words, then a prefix of one more. */
  lemma BytesGroups(e: Engine, size: nat)
    requires Valid(e)
    ensures var ws := ByteWords(e, size / 4).1;
            forall j :: 0 <= j < size / 4 ==> Bytes(e, size).1[4 * j..4 * j + 4] == LeBytes(ws[j])
    ensures size % 4 != 0 ==>
              Bytes(e, size).1[4 * (size / 4)..]
              == LeBytes(Read(Advance(ByteWords(e, size / 4).0)) % BYTES_LIMIT)[..size % 4]
  {
  }

  /**
    Every full group of `bytes` is a word reduced modulo 2^32 - 1, so the
    four octets FF FF FF FF never occur as a group.
   */
  lemma BytesNeverAllOnes(e: Engine, size: nat, j: nat)
    requires Valid(e) && j < size / 4
    ensures Bytes(e, size).1[4 * j..4 * j + 4] != [255, 255, 255, 255]
  {
    var ws := ByteWords(e, size / 4).1;
    BytesGroups(e, size);
    assert LeBytes(MASK32) == [255, 255, 255, 255];
    if Bytes(e, size).1[4 * j..4 * j + 4] == [255, 255, 255, 255] {
      LeBytesInjective(ws[j], MASK32);
    }
  }

  /** `==` compares `randrsl` and `randcnt` and nothing else. */
  lemma EqIff(e: Engine, f: Engine)
    requires Valid(e) && Valid(f)
    ensures Eq(e, f) <==> e.mem.rsl == f.mem.rsl && e.randcnt == f.randcnt
  {
    if Eq(e, f) {
      assert e.mem.rsl == State(e)[..SIZE] && f.mem.rsl == State(f)[..SIZE];
      assert e.randcnt == State(e)[SIZE];
    }
  }

  /**
    Two engines that compare `==` answer the same until the first refill,
    whatever `mm`, `aa`, `bb` and `cc` hold.
   */
  lemma {:induction false} EqSameUntilRefill(e: Engine, f: Engine, args: seq<Arg>)
    requires Valid(e) && Valid(f) && Eq(e, f) && |args| < e.randcnt
    ensures Draws(e, args).1 == Draws(f, args).1
    ensures Eq(Draws(e, args).0, Draws(f, args).0)
    decreases |args|
  {
    EqIff(e, f);
    if |args| > 0 {
      var e', f' := Advance(e), Advance(f);
      EqIff(e', f');
      EqSameUntilRefill(e', f', args[1..]);
    }
  }

  /** `rand(nil)` is `rand()`: nil selects the Float branch. */
  lemma NilIsFloat(e: Engine)
    requires Valid(e)
    ensures Rand(e, NilArg) == Rand(e, NoArg)
    ensures Rand(e, NilArg).1.Ok? && Rand(e, NilArg).1.value.FloatVal?
  {
  }

  /** A copy is equal to its original, and answers call for call alike. */
  lemma CopyAnswersAlike(e: Engine, args: seq<Arg>)
    requires Valid(e)
    ensures Eq(Copy(e), e)
    ensures Draws(Copy(e), args).1 == Draws(e, args).1
  {
    assert Copy(e) == e;
  }

  /** Equal seed arrays give equal engines, hence `==` and equal answers forever. */
  lemma SameSeedSameEngine(a: SeedSource, b: SeedSource, args: seq<Arg>)
    requires a.SeedPrng? ==> |a.draws| >= SIZE
    requires b.SeedPrng? ==> |b.draws| >= SIZE
    requires NewSeed(a) == NewSeed(b)
    ensures Eq(New(a), New(b))
    ensures Draws(New(a), args).1 == Draws(New(b), args).1
  {
  }

  /** Integer seeds act through the xorshift64* state only, so they matter modulo 2^64. */
  lemma IntegerSeedModulo(a: int, b: int)
    requires a % TWO64 == b % TWO64
    ensures NewSeed(SeedInteger(a)) == NewSeed(SeedInteger(b))
  {
    XorshiftPure.SameSeedSameDraws(a, b, seq(SIZE, t => SEED_LIMIT));
  }

  /**
    The engine `srand` builds on unbounded Ruby Integers is the 32-bit ISAAC
    engine seeded with the low 32 bits of each seed entry.
   */
  lemma SrandOnWords(src: SeedSource)
    requires src.SeedPrng? ==> |src.draws| >= SIZE
    ensures New(src).mem == RandInit(Wrap32, LowWords(NewSeed(src)), true)
  {
    var rsl := NewSeed(src);
    RandInitOnWords(rsl, true);
  }
}
