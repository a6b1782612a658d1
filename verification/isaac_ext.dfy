/**
  The C-extension `Crypt::ISAAC` (ext/crypt/isaac/isaac.c): the glue around
  rand.h's `randctx`, `isaac()` and `randinit()`.

  rand.h is not part of this model. Its `isaac()` and `randinit()` are
  parameters: any functions that keep a context well-formed, and, for
  `randinit`, leave the cursor at most 256. The context is taken to have
  the standard rand.h layout: `randcnt`, `randrsl[256]`, `randmem[256]`,
  `randa`, `randb`, `randc`, all 32-bit words, 516 words in all.

  Unlike the pure engine, the cursor post-decrements and refills when it
  finds 0, resetting to 255, so all 256 words of a batch are used.
 */
module IsaacExt {
  import opened Bits
  import opened RubyValues
  import opened IsaacRound
  import XorshiftExt
  import IsaacPure

  /** `randctx`. */
  datatype Ctx = Ctx(randcnt: nat, rsl: seq<nat>, mem: seq<nat>, a: nat, b: nat, c: nat)

  /** Every field a 32-bit word, and both tables 256 words long. */
  predicate Shaped(x: Ctx)
  {
    x.randcnt < TWO32 && |x.rsl| == SIZE && |x.mem| == SIZE && Words(x.rsl) && Words(x.mem) &&
    x.a < TWO32 && x.b < TWO32 && x.c < TWO32
  }

  /** A context `rand` can read from: the cursor is at most 256. */
  predicate Ready(x: Ctx)
  {
    Shaped(x) && x.randcnt <= SIZE
  }

  /** What is assumed of rand.h's `isaac(ctx)`: it keeps the context well-formed. */
  ghost predicate Refiller(isaac: Ctx -> Ctx)
  {
    forall x :: Shaped(x) ==> Shaped(isaac(x))
  }

  /** What is assumed of rand.h's `randinit(ctx, 1)`: it leaves a readable context. */
  ghost predicate Initializer(randinit: Ctx -> Ctx)
  {
    forall x :: Shaped(x) ==> Ready(randinit(x))
  }

  /** The number of 32-bit words in `randctx`. */
  const CTX_WORDS: nat := 1 + 2 * SIZE + 3

  // ---------------------------------------------------------------------
  // The cursor and rand
  // ---------------------------------------------------------------------

  /**
    `if (!ctx->randcnt--) { isaac(ctx); ctx->randcnt = RANDSIZ - 1; }`: the
    unsigned cursor wraps to 2^32 - 1 before `isaac` runs.
   */
  function Advance(x: Ctx, isaac: Ctx -> Ctx): (r: Ctx)
    requires Ready(x) && Refiller(isaac)
    ensures Ready(r) && r.randcnt < SIZE
    ensures x.randcnt > 0 ==> r == x.(randcnt := x.randcnt - 1)
  {
    if x.randcnt == 0 then
      var refilled := isaac(x.(randcnt := MASK32));
      refilled.(randcnt := SIZE - 1)
    else
      x.(randcnt := x.randcnt - 1)
  }

  /** n cursor steps. */
  function AdvanceN(x: Ctx, n: nat, isaac: Ctx -> Ctx): (r: Ctx)
    requires Ready(x) && Refiller(isaac)
    ensures Ready(r) && (n > 0 ==> r.randcnt < SIZE)
    decreases n
  {
    if n == 0 then x else AdvanceN(Advance(x, isaac), n - 1, isaac)
  }

  /** `ctx->randrsl[ctx->randcnt]` once the cursor has moved. */
  function Read(x: Ctx): (w: Word32)
    requires Shaped(x) && x.randcnt < SIZE
  {
    x.rsl[x.randcnt]
  }

  /** The `uint32_t limit`, and for a Range the `min` it adds back. */
  datatype Limit = Limit(limit: Word32, rangeMin: Option<int>)

  /**
    The argument conversion of `rand`, done before the cursor moves: no
    argument gives limit 0; an explicit nil goes through `NUM2ULONG` and
    raises TypeError; an Integer or Float goes through `NUM2ULONG`
    and is truncated to 32 bits; a Range gives `NUM2ULONG(max) -
    NUM2ULONG(min)` truncated to 32 bits, and an empty one hands nil to
    `NUM2ULONG`.
   */
  function ToLimit(arg: Arg): (r: Result<Limit>)
    ensures arg.NoArg? ==> r == Ok(Limit(0, None))
    ensures arg.NilArg? ==> r == Err(TypeError)
    ensures arg.IntArg? ==> (r.Ok? <==> ToULong(arg.n).Ok?) &&
                            (r.Ok? ==> r.value == Limit(arg.n % TWO32, None))
    ensures arg.FloatArg? ==> (r.Ok? <==> ToULong(arg.truncated).Ok?) &&
                              (r.Ok? ==> r.value == Limit(arg.truncated % TWO32, None))
    ensures arg.RangeArg? && RangeMin(arg.first, arg.last, arg.exclusive).None? ==> r == Err(TypeError)
    ensures arg.RangeArg? && r.Ok? ==>
              var lo, hi := RangeMin(arg.first, arg.last, arg.exclusive).value, RangeMax(arg.first, arg.last, arg.exclusive).value;
              r.value == Limit((hi - lo) % TWO32, Some(lo))
    ensures r.Err? ==> r.error == TypeError || r.error == RangeError
  {
    match arg
    case NoArg => Ok(Limit(0, None))
    case NilArg => Err(TypeError)
    case IntArg(n) => Truncated(n)
    case FloatArg(t) => Truncated(t)
    case RangeArg(first, last, exclusive) =>
      var lo, hi := RangeMin(first, last, exclusive), RangeMax(first, last, exclusive);
      if lo.None? || hi.None? then Err(TypeError)
      else RangeLimit(lo.value, hi.value)
  }

  /** `NUM2ULONG(max) - NUM2ULONG(min)` in `unsigned long`, stored in a `uint32_t`. */
  function RangeLimit(lo: int, hi: int): (r: Result<Limit>)
    ensures r.Ok? <==> ToULong(lo).Ok? && ToULong(hi).Ok?
    ensures r.Ok? ==> r.value == Limit((hi - lo) % TWO32, Some(lo))
    ensures r.Err? ==> r.error == RangeError
  {
    var ulo, uhi := ToULong(lo), ToULong(hi);
    if uhi.Err? then Err(uhi.error)
    else if ulo.Err? then Err(ulo.error)
    else
      WrappedDifference(hi, lo, uhi.value, ulo.value);
      Ok(Limit(((uhi.value - ulo.value) % TWO64) % TWO32, Some(lo)))
  }

  /** `limit = NUM2ULONG(arg)`: the `unsigned long` stored in a `uint32_t`. */
  function Truncated(n: int): (r: Result<Limit>)
    ensures r.Ok? <==> ToULong(n).Ok?
    ensures r.Ok? ==> r.value == Limit(n % TWO32, None)
    ensures r.Err? ==> r.error == RangeError
  {
    match ToULong(n)
    case Err(e) => Err(e)
    case Ok(u) =>
      WrappedDifference(n, 0, u, 0);
      Ok(Limit(u % TWO32, None))
  }

  /** The 64-bit difference of two bit patterns, truncated to 32 bits, is the difference mod 2^32. */
  lemma WrappedDifference(hi: int, lo: int, uhi: Word64, ulo: Word64)
    requires uhi % TWO64 == hi % TWO64 && ulo % TWO64 == lo % TWO64
    ensures ((uhi - ulo) % TWO64) % TWO32 == (hi - lo) % TWO32
  {
    var d := uhi - ulo;
    assert (d - (hi - lo)) % TWO64 == 0 by {
      ModUnique(uhi - hi, TWO64, (uhi - hi) / TWO64, 0);
    }
    assert TWO64 == TWO32 * TWO32;
    var k := (d - (hi - lo)) / TWO64;
    assert d == (hi - lo) + k * TWO64;
    assert d % TWO64 == d - (d / TWO64) * TWO64;
    var m := d / TWO64;
    assert (d % TWO64) == (hi - lo) + (k - m) * TWO32 * TWO32;
    ModUnique((hi - lo) + (k - m) * TWO32 * TWO32, TWO32, (hi - lo) / TWO32 + (k - m) * TWO32, (hi - lo) % TWO32);
  }

  /**
    `min + w % limit` for a Range. The source adds in `unsigned long`
    (`NUM2ULONG(val_min) + ...`), see `RangeSumAsWritten`; the model uses
    the signed sum the method evidently intends.
   */
  function RangeSum(lo: int, k: nat): int
  {
    lo + k
  }

  /** The sum as the source computes it: wrapping `unsigned long` addition. */
  function RangeSumAsWritten(lo: int, k: Word32): (s: Result<Word64>)
    ensures s.Ok? <==> ToULong(lo).Ok?
  {
    match ToULong(lo)
    case Err(e) => Err(e)
    case Ok(u) => Ok((u + k) % TWO64)
  }

  /**
    `rand(arg)`: the argument is converted first, so a conversion error
    leaves the context as it was. Limit 0 gives the Float `w / 2^32`;
    otherwise `w % limit`, plus `min` for a Range.
   */
  function Rand(x: Ctx, arg: Arg, isaac: Ctx -> Ctx): (r: Result<(Ctx, Value)>)
    requires Ready(x) && Refiller(isaac)
    ensures r.Err? <==> ToLimit(arg).Err?
    ensures r.Err? ==> r.error == ToLimit(arg).error
    ensures r.Ok? ==> r.value.0 == Advance(x, isaac)
    ensures r.Ok? && ToLimit(arg).value.limit == 0 ==>
              r.value.1.FloatVal? && 0.0 <= r.value.1.x < 1.0 &&
              r.value.1.x * (TWO32 as real) == Read(r.value.0) as real
    ensures r.Ok? && ToLimit(arg).value.limit != 0 ==>
              var l := ToLimit(arg).value;
              var lo := if l.rangeMin.Some? then l.rangeMin.value else 0;
              r.value.1.IntVal? && lo <= r.value.1.v < lo + l.limit &&
              (Read(r.value.0) - (r.value.1.v - lo)) % l.limit == 0
  {
    match ToLimit(arg)
    case Err(e) => Err(e)
    case Ok(l) =>
      var x' := Advance(x, isaac);
      var w := Read(x');
      if l.limit == 0 then Ok((x', FloatVal((w as real) / (TWO32 as real))))
      else
        ModStep(w, l.limit);
        if l.rangeMin.Some? then Ok((x', IntVal(RangeSum(l.rangeMin.value, w % l.limit))))
        else Ok((x', IntVal(w % l.limit)))
  }

  lemma ModStep(w: nat, n: nat)
    requires n > 0
    ensures (w - w % n) % n == 0
  {
    assert w == (w / n) * n + w % n;
    ModUnique(w - w % n, n, w / n, 0);
  }

  // ---------------------------------------------------------------------
  // compare_ctx and ==
  // ---------------------------------------------------------------------

  /** `compare_ctx`: the result words, from index 255 down to 0. */
  method CompareCtx(x: Ctx, y: Ctx) returns (same: bool)
    requires |x.rsl| == SIZE && |y.rsl| == SIZE
    ensures same <==> x.rsl == y.rsl
  {
    var k: int := SIZE - 1;
    while k >= 0
      invariant -1 <= k < SIZE
      invariant forall j :: k < j < SIZE ==> x.rsl[j] == y.rsl[j]
    {
      if x.rsl[k] != y.rsl[k] {
        return false;
      }
      k := k - 1;
    }
    return true;
  }

  // ---------------------------------------------------------------------
  // marshal_dump and marshal_load
  // ---------------------------------------------------------------------

  /** `marshal_dump`: the context's words in memory order. */
  function Dump(x: Ctx): (d: seq<nat>)
    requires Shaped(x)
    ensures |d| == CTX_WORDS && Words(d)
    ensures d[0] == x.randcnt && d[1..SIZE + 1] == x.rsl && d[SIZE + 1..2 * SIZE + 1] == x.mem
    ensures d[2 * SIZE + 1..] == [x.a, x.b, x.c]
  {
    [x.randcnt] + x.rsl + x.mem + [x.a, x.b, x.c]
  }

  /** The context whose memory holds the words d. */
  function FromWords(d: seq<nat>): (x: Ctx)
    requires |d| == CTX_WORDS && Words(d)
    ensures Shaped(x)
  {
    Ctx(d[0], d[1..SIZE + 1], d[SIZE + 1..2 * SIZE + 1], d[2 * SIZE + 1], d[2 * SIZE + 2], d[2 * SIZE + 3])
  }

  /** `((ub4 *)ctx)[i] = NUM2ULONG(...)`: the converted value stored in 32 bits. */
  function Stored(v: int): (w: Result<Word32>)
    ensures w.Ok? <==> ToULong(v).Ok?
    ensures w.Ok? ==> w.value == v % TWO32
  {
    match ToULong(v)
    case Err(e) => Err(e)
    case Ok(u) =>
      assert (u - v) % TWO64 == 0 by { ModUnique(u - v, TWO64, (u - v) / TWO64, 0); }
      assert TWO64 == TWO32 * TWO32;
      ModUnique(u - v, TWO32, (u - v) / TWO64 * TWO32, 0);
      Ok(u % TWO32)
  }

  /** The first index from i on whose entry `NUM2ULONG` rejects, or |ary|. */
  function FirstBad(ary: seq<int>, i: nat): (j: nat)
    requires i <= |ary|
    ensures i <= j <= |ary|
    ensures forall k :: i <= k < j ==> ToULong(ary[k]).Ok?
    ensures j < |ary| ==> ToULong(ary[j]).Err?
    decreases |ary| - i
  {
    if i == |ary| || ToULong(ary[i]).Err? then i else FirstBad(ary, i + 1)
  }

  /** The words an array loads as, where it loads. */
  function LoadedWords(ary: seq<int>): (d: seq<nat>)
    ensures |d| == |ary| && Words(d)
  {
    seq(|ary|, i requires 0 <= i < |ary| => ary[i] % TWO32)
  }

  /**
    `marshal_load(ary)`: an array whose length is not the number of words
    in the context raises ArgumentError and changes nothing; otherwise the
    words are stored in order, and an entry `NUM2ULONG` rejects raises
    RangeError with the entries before it already stored.
   */
  method Load(x: Ctx, ary: seq<int>) returns (y: Ctx, err: Option<Error>)
    requires Shaped(x)
    ensures Shaped(y)
    ensures |ary| != CTX_WORDS ==> err == Some(ArgumentError) && y == x
    ensures |ary| == CTX_WORDS ==> (err.None? <==> FirstBad(ary, 0) == CTX_WORDS)
    ensures |ary| == CTX_WORDS && err.Some? ==> err.value == RangeError
    ensures |ary| == CTX_WORDS ==> Dump(y) == LoadedWords(ary)[..FirstBad(ary, 0)] + Dump(x)[FirstBad(ary, 0)..]
  {
    if |ary| != CTX_WORDS {
      return x, Some(ArgumentError);
    }
    var words, i := StoreWords(x, ary);
    FromWordsDump(words);
    y := FromWords(words);
    err := if i == CTX_WORDS then None else Some(RangeError);
  }

  /** The store loop of `marshal_load`: it stops at the first entry `NUM2ULONG` rejects. */
  method StoreWords(x: Ctx, ary: seq<int>) returns (words: seq<nat>, i: nat)
    requires Shaped(x) && |ary| == CTX_WORDS
    ensures i == FirstBad(ary, 0)
    ensures |words| == CTX_WORDS && Words(words)
    ensures words == LoadedWords(ary)[..i] + Dump(x)[i..]
  {
    words := Dump(x);
    i := 0;
    while i < CTX_WORDS && Stored(ary[i]).Ok?
      invariant i <= FirstBad(ary, 0) && |words| == CTX_WORDS && Words(words)
      invariant words == LoadedWords(ary)[..i] + Dump(x)[i..]
    {
      LoadStep(x, ary, words, i);
      words := words[i := Stored(ary[i]).value];
      i := i + 1;
    }
  }

  /** Storing entry i extends the loaded prefix by one word. */
  lemma LoadStep(x: Ctx, ary: seq<int>, words: seq<nat>, i: nat)
    requires Shaped(x) && |ary| == CTX_WORDS && i < CTX_WORDS
    requires words == LoadedWords(ary)[..i] + Dump(x)[i..]
    ensures words[i := ary[i] % TWO32] == LoadedWords(ary)[..i + 1] + Dump(x)[i + 1..]
    ensures Words(words[i := ary[i] % TWO32])
  {
    var loaded := LoadedWords(ary);
    assert loaded[..i + 1] == loaded[..i] + [ary[i] % TWO32];
  }

  /** Dumping a context and reading its words back gives the context again... */
  lemma DumpFromWords(x: Ctx)
    requires Shaped(x)
    ensures FromWords(Dump(x)) == x
  {
  }

  /** ... and reading words into a context and dumping it gives the words again. */
  lemma FromWordsDump(d: seq<nat>)
    requires |d| == CTX_WORDS && Words(d)
    ensures Dump(FromWords(d)) == d
  {
    assert d == [d[0]] + d[1..SIZE + 1] + d[SIZE + 1..2 * SIZE + 1] + [d[2 * SIZE + 1], d[2 * SIZE + 2], d[2 * SIZE + 3]];
  }

  /** `Marshal.load(Marshal.dump(g))`: the copy is the same context, so it compares `==` and answers alike. */
  method MarshalRoundTrip(x: Ctx, blank: Ctx) returns (y: Ctx)
    requires Shaped(x) && Shaped(blank)
    ensures y == x
  {
    var err;
    y, err := Load(blank, Dump(x));
    assert forall i :: 0 <= i < CTX_WORDS ==> Dump(x)[i] < TWO64;
    NoBadWords(Dump(x));
    assert LoadedWords(Dump(x)) == Dump(x);
    DumpFromWords(x);
    DumpFromWords(y);
  }

  /** An array of words has no entry `NUM2ULONG` rejects. */
  lemma NoBadWords(d: seq<nat>)
    requires Words(d)
    ensures FirstBad(d, 0) == |d|
  {
  }

  // ---------------------------------------------------------------------
  // bytes
  // ---------------------------------------------------------------------

  /** The raw words n cursor steps read. */
  function CWords(x: Ctx, n: nat, isaac: Ctx -> Ctx): (r: (Ctx, seq<nat>))
    requires Ready(x) && Refiller(isaac)
    ensures Ready(r.0) && |r.1| == n && Words(r.1)
    ensures r.0 == AdvanceN(x, n, isaac)
    decreases n
  {
    if n == 0 then (x, [])
    else
      var prev := CWords(x, n - 1, isaac);
      var y := Advance(prev.0, isaac);
      AdvanceSnoc(x, n - 1, isaac);
      (y, prev.1 + [Read(y)])
  }

  /** The four stores `buf[i + k] = w >> 8k` into `char`s. */
  function Store4(buf: seq<Byte>, i: nat, w: Word32): (r: seq<Byte>)
    requires i + 3 < |buf|
    ensures |r| == |buf| && r[..i] == buf[..i] && r[i..i + 4] == LeBytes(w) && r[i + 4..] == buf[i + 4..]
  {
    buf[i := w % 256][i + 1 := (w / 0x100) % 256][i + 2 := (w / 0x1_0000) % 256][i + 3 := w / 0x100_0000]
  }

  /**
    `bytes(count)`: a buffer of `count + 5` octets, four stores per word
    while `i < count`, then the first `count` octets. Every store is within
    the buffer (the highest index written is below count + 3). Negative
    counts, which `NUM2ULL` turns into huge ones, are not modelled.
   */
  method Bytes(x: Ctx, count: nat, isaac: Ctx -> Ctx) returns (y: Ctx, out: seq<Byte>)
    requires Ready(x) && Refiller(isaac) && count < TWO64
    ensures |out| == count
    ensures y == CWords(x, (count + 3) / 4, isaac).0
    ensures out == Pack(CWords(x, (count + 3) / 4, isaac).1)[..count]
  {
    var buf: seq<Byte> := seq(count + 5, _ => 0);
    var i := 0;
    var k := 0;
    y := x;
    while i < count
      invariant i == 4 * k && (k == 0 || i - 4 < count) && |buf| == count + 5
      invariant y == CWords(x, k, isaac).0
      invariant buf[..i] == Pack(CWords(x, k, isaac).1)
    {
      y, buf := StoreNext(x, k, isaac, y, buf);
      i := i + 4;
      k := k + 1;
    }
    assert k == (count + 3) / 4;
    out := buf[..count];
  }

  /** One turn of the loop of `bytes`: move the cursor, store word k at 4k. */
  method StoreNext(x: Ctx, k: nat, isaac: Ctx -> Ctx, y: Ctx, buf: seq<Byte>) returns (y': Ctx, buf': seq<Byte>)
    requires Ready(x) && Refiller(isaac) && 4 * k + 3 < |buf|
    requires y == CWords(x, k, isaac).0 && buf[..4 * k] == Pack(CWords(x, k, isaac).1)
    ensures y' == CWords(x, k + 1, isaac).0 && |buf'| == |buf|
    ensures buf'[..4 * (k + 1)] == Pack(CWords(x, k + 1, isaac).1)
  {
    y' := Advance(y, isaac);
    var w := Read(y');
    StoreStep(buf, 4 * k, CWords(x, k, isaac).1, w);
    buf' := Store4(buf, 4 * k, w);
  }

  /** The four stores of a word extend the packed prefix by that word. */
  lemma StoreStep(buf: seq<Byte>, i: nat, ws: seq<nat>, w: Word32)
    requires i + 3 < |buf| && Words(ws) && buf[..i] == Pack(ws)
    ensures Store4(buf, i, w)[..i + 4] == Pack(ws + [w])
  {
    var r := Store4(buf, i, w);
    PackSnoc(ws, w);
    assert r[..i + 4] == r[..i] + r[i..i + 4];
  }

  /** One more cursor step at the end. */
  lemma {:induction false} AdvanceSnoc(x: Ctx, n: nat, isaac: Ctx -> Ctx)
    requires Ready(x) && Refiller(isaac)
    ensures AdvanceN(x, n + 1, isaac) == Advance(AdvanceN(x, n, isaac), isaac)
    decreases n
  {
    if n > 0 {
      AdvanceSnoc(Advance(x, isaac), n - 1, isaac);
    }
  }

  // ---------------------------------------------------------------------
  // srand
  // ---------------------------------------------------------------------

  /**
    The fill of `ISAAC_srand` from a seed PRNG: its t-th answer to
    `rand(2^32)` goes to `randrsl[255 - t]`, stored in 32 bits.
   */
  function FillDownward(draws: seq<nat>): (rsl: seq<nat>)
    requires |draws| >= SIZE
    ensures |rsl| == SIZE && Words(rsl)
  {
    seq(SIZE, j requires 0 <= j < SIZE => draws[SIZE - 1 - j] % TWO32)
  }

  /**
    `srand(prng)`: `MEMZERO(ctx)`, the downward fill, then `randinit(ctx, 1)`.
    The entropy-device path is not modelled.
   */
  function Srand(draws: seq<nat>, randinit: Ctx -> Ctx): (x: Ctx)
    requires |draws| >= SIZE && Initializer(randinit)
    ensures Ready(x)
  {
    var zeroed := Ctx(0, FillDownward(draws), seq(SIZE, j => 0), 0, 0, 0);
    randinit(zeroed)
  }

  /**
    An Integer seed: `Xorshift64Star.new(seed)` (the C extension, which
    rejects seeds outside [-2^63, 2^64)) answering 256 calls of `rand(2^32)`.
   */
  function XorshiftDraws(seed: int): (r: Result<seq<nat>>)
    ensures r.Ok? <==> -0x8000_0000_0000_0000 <= seed < TWO64
    ensures r.Ok? ==> |r.value| == SIZE && Words(r.value)
  {
    match XorshiftExt.New(seed)
    case Err(e) => Err(e)
    case Ok(g) =>
      var limits := seq(SIZE, t => Some(IsaacPure.SEED_LIMIT as int));
      XorshiftExt.DrawsWithin(g, limits);
      var ds := XorshiftExt.Draws(g, limits).value.1;
      Ok(seq(SIZE, t requires 0 <= t < SIZE => XorshiftExt.DrawValue(ds[t])))
  }

  // ---------------------------------------------------------------------
  // Properties
  // ---------------------------------------------------------------------

  /**
    The cursor after n >= 1 calls from cursor c <= 256: it runs c - 1 down
    to 0, then 255 down to 0 again.
   */
  lemma {:induction false} CursorAfter(x: Ctx, n: nat, isaac: Ctx -> Ctx)
    requires Ready(x) && Refiller(isaac)
    ensures n > 0 ==> AdvanceN(x, n, isaac).randcnt == (x.randcnt - n) % SIZE
    decreases n
  {
    var x' := Advance(x, isaac);
    if n == 1 {
      assert AdvanceN(x, 1, isaac) == x';
      CursorFormula(x.randcnt, x'.randcnt, 1, x'.randcnt);
    } else if n > 1 {
      CursorAfter(x', n - 1, isaac);
      var r := AdvanceN(x', n - 1, isaac);
      assert AdvanceN(x, n, isaac) == r;
      CursorFormula(x.randcnt, x'.randcnt, n, r.randcnt);
    }
  }

  /**
    The arithmetic of `CursorAfter`: if r is the cursor after n - 1 more
    calls from c', the cursor one call after c, then r is the cursor n calls
    after c.
   */
  lemma CursorFormula(c: int, c': int, n: int, r: int)
    requires 0 <= c <= SIZE && n >= 1 && c' == (if c == 0 then SIZE - 1 else c - 1)
    requires n == 1 ==> r == c'
    requires n > 1 ==> r == (c' - (n - 1)) % SIZE
    ensures r == (c - n) % SIZE
  {
    if n == 1 {
      ModUnique(c - 1, SIZE, if c == 0 then -1 else 0, if c == 0 then SIZE - 1 else c - 1);
    } else if c == 0 {
      var d := -n;
      ModUnique(d + SIZE, SIZE, d / SIZE + 1, d % SIZE);
    }
  }

  /** A conversion error leaves the context alone; `rand(0)` gives a Float, not an error. */
  lemma ZeroLimitIsFloat(x: Ctx, isaac: Ctx -> Ctx)
    requires Ready(x) && Refiller(isaac)
    ensures Rand(x, IntArg(0), isaac).Ok? && Rand(x, IntArg(0), isaac).value.1.FloatVal?
  {
  }

  /** `rand(nil)` counts as one argument and hands nil to `NUM2ULONG`: TypeError, before the cursor moves. */
  lemma NilRaises(x: Ctx, isaac: Ctx -> Ctx)
    requires Ready(x) && Refiller(isaac)
    ensures Rand(x, NilArg, isaac) == Err(TypeError)
    ensures Rand(x, NoArg, isaac).Ok?
  {
  }

  /** The limit is truncated to 32 bits: `rand(2^32 + 5)` is `rand(5)`. */
  lemma LimitTruncated(x: Ctx, isaac: Ctx -> Ctx)
    requires Ready(x) && Refiller(isaac)
    ensures Rand(x, IntArg(TWO32 + 5), isaac) == Rand(x, IntArg(5), isaac)
  {
  }

  /** `rand(n)` for 1 <= n < 2^32 is in [0, n). */
  lemma IntegerBound(x: Ctx, n: int, isaac: Ctx -> Ctx)
    requires Ready(x) && Refiller(isaac) && 1 <= n < TWO32
    ensures Rand(x, IntArg(n), isaac).Ok?
    ensures 0 <= Rand(x, IntArg(n), isaac).value.1.v < n
  {
  }

  /** `rand(min..max)` with 0 < max - min < 2^32 is in [min, max), also for a negative min. */
  lemma RangeBound(x: Ctx, lo: int, hi: int, isaac: Ctx -> Ctx)
    requires Ready(x) && Refiller(isaac) && lo < hi < lo + TWO32
    requires -0x8000_0000_0000_0000 <= lo && hi < TWO64
    ensures Rand(x, RangeArg(lo, hi, false), isaac).Ok?
    ensures lo <= Rand(x, RangeArg(lo, hi, false), isaac).value.1.v < hi
  {
    assert ToLimit(RangeArg(lo, hi, false)).value.limit == hi - lo;
  }

  /** A one-element range gives limit 0 and so a Float. */
  lemma OneElementRangeIsFloat(x: Ctx, lo: int, isaac: Ctx -> Ctx)
    requires Ready(x) && Refiller(isaac) && -0x8000_0000_0000_0000 <= lo < TWO64
    ensures Rand(x, RangeArg(lo, lo, false), isaac).Ok?
    ensures Rand(x, RangeArg(lo, lo, false), isaac).value.1.FloatVal?
  {
  }

  /** The as-written unsigned sum agrees with `min + k` when min is not negative... */
  lemma RangeSumAgreesWhenNonNegative(lo: int, k: Word32)
    requires 0 <= lo && lo + k < TWO64
    ensures RangeSumAsWritten(lo, k) == Ok(RangeSum(lo, k))
  {
  }

  /** ... but `rand(-5..5)` drawing a word w with w % 10 == 0 returns 2^64 - 5, not -5. */
  lemma NegativeRangeWraps()
    ensures RangeSumAsWritten(-5, 0) == Ok(TWO64 - 5)
    ensures RangeSum(-5, 0) == -5
  {
  }

  /** The pure engine fills the seed array upward, the C extension downward. */
  lemma FillReversed(draws: seq<nat>)
    requires |draws| >= SIZE && Words(draws[..SIZE])
    ensures forall j :: 0 <= j < SIZE ==>
              FillDownward(draws)[j] == IsaacPure.NewSeed(IsaacPure.SeedPrng(draws))[SIZE - 1 - j]
  {
    forall j | 0 <= j < SIZE
      ensures FillDownward(draws)[j] == IsaacPure.NewSeed(IsaacPure.SeedPrng(draws))[SIZE - 1 - j]
    {
      assert draws[SIZE - 1 - j] == draws[..SIZE][SIZE - 1 - j];
    }
  }

  /** `bytes` packs raw words, so, unlike the pure engine's, it can yield FF FF FF FF. */
  lemma BytesOfAllOnes(x: Ctx, isaac: Ctx -> Ctx)
    requires Ready(x) && Refiller(isaac) && x.randcnt > 0 && Read(Advance(x, isaac)) == MASK32
    ensures Pack(CWords(x, 1, isaac).1)[..4] == [255, 255, 255, 255]
  {
    var ws := CWords(x, 1, isaac).1;
    assert ws == [MASK32];
    assert Pack(ws)[..4] == Pack(ws)[4 * 0..4 * 0 + 4] == LeBytes(MASK32);
    LeBytesOfMask();
  }
}
