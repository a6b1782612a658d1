/**
  The initialiser `randinit(flag)` of the pure-Ruby engine
  (lib/crypt/isaac/pure.rb).

  It zeroes `aa`, `bb`, `cc`, sets the eight accumulators a..h to the golden
  ratio and mixes them four times (the first line of that mix shifts by 1);
  a first pass over 32 blocks of 8 words adds the seed words `randrsl` into
  the accumulators when `flag` is set, mixes, and stores the accumulators
  into `mm`; when `flag` is set a second pass does the same with the words
  of `mm`. Then it runs `isaac` once. The accumulators are unbounded Ruby
  Integers, so `mm` holds unbounded values until `isaac` rewrites it.
 */
module IsaacInit {
  import opened Bits
  import opened IsaacMix
  import opened IsaacRound

  /** Where a pass takes the words it adds into the accumulators. */
  datatype Feed =
    | Plain     // nothing is added (`flag` false)
    | FromRsl   // `a += randrsl[i]; ...`
    | FromMm    // `a += mm[i]; ...`, the second pass

  /** The eight accumulators before the first mix. */
  const GoldenStart: seq<nat> := [GOLDEN, GOLDEN, GOLDEN, GOLDEN, GOLDEN, GOLDEN, GOLDEN, GOLDEN]

  /** n mixes of the golden-ratio accumulators, the first line shifting by 1. */
  function Scrambled(m: Arith, n: nat): (s: seq<nat>)
    ensures |s| == 8
  {
    if n == 0 then GoldenStart else Mix(m, Scrambled(m, n - 1), 1)
  }

  /** `a += w[0]; b += w[1]; ... h += w[7]`. */
  function AddWords(m: Arith, s: seq<nat>, w: seq<nat>): (r: seq<nat>)
    requires |s| == 8 && |w| == 8
    ensures |r| == 8
  {
    seq(8, k requires 0 <= k < 8 => Plus(m, s[k], w[k]))
  }

  /** `mm[i] = a; mm[i + 1] = b; ... mm[i + 7] = h`. */
  function WriteBlock(mm: seq<nat>, i: nat, s: seq<nat>): (r: seq<nat>)
    requires |mm| == SIZE && i + 8 <= SIZE && |s| == 8
    ensures |r| == SIZE
  {
    seq(SIZE, j requires 0 <= j < SIZE => if i <= j < i + 8 then s[j - i] else mm[j])
  }

  /**
    Blocks 0 .. n - 1 of a pass: for block b at i = 8b, add the fed words,
    mix (first shift 11) and store the accumulators at `mm[i .. i + 8]`.
    A second pass reads the block of `mm` it is about to overwrite.
   */
  function Pass(m: Arith, s: seq<nat>, mm: seq<nat>, rsl: seq<nat>, feed: Feed, n: nat): (r: (seq<nat>, seq<nat>))
    requires |s| == 8 && |mm| == SIZE && |rsl| == SIZE && n <= 32
    ensures |r.0| == 8 && |r.1| == SIZE
  {
    if n == 0 then (s, mm)
    else
      var prev := Pass(m, s, mm, rsl, feed, n - 1);
      var i := 8 * (n - 1);
      var s2 := Mix(m, Fed(m, prev.0, prev.1, rsl, feed, i), 11);
      (s2, WriteBlock(prev.1, i, s2))
  }

  /** The accumulators after the words of block i have been added, if any are. */
  function Fed(m: Arith, s: seq<nat>, mm: seq<nat>, rsl: seq<nat>, feed: Feed, i: nat): (t: seq<nat>)
    requires |s| == 8 && |mm| == SIZE && |rsl| == SIZE && i + 8 <= SIZE
    ensures |t| == 8
  {
    match feed
    case Plain => s
    case FromRsl => AddWords(m, s, rsl[i..i + 8])
    case FromMm => AddWords(m, s, mm[i..i + 8])
  }

  /** An `mm` that every first pass overwrites entirely. */
  function Zeros(): (z: seq<nat>)
    ensures |z| == SIZE && forall j :: 0 <= j < SIZE ==> z[j] == 0
  {
    seq(SIZE, j => 0)
  }

  /**
    `randinit(flag)` with the seed words `rsl`, ending with `isaac`. The
    result's `cc` is 1, and `randcnt` is then set to 256 by the caller.
   */
  function RandInit(m: Arith, rsl: seq<nat>, flag: bool): (r: Mem)
    requires |rsl| == SIZE
    ensures Sized(r) && r.cc == 1
  {
    Isaac(Mem(Seeded(m, rsl, flag), rsl, 0, 0, 0))
  }

  /** `mm` after the passes, before `isaac`. */
  function Seeded(m: Arith, rsl: seq<nat>, flag: bool): (mm: seq<nat>)
    requires |rsl| == SIZE
    ensures |mm| == SIZE
  {
    Passes(m, Scrambled(m, 4), rsl, flag)
  }

  /**
    The first pass from the scrambled accumulators `s`, then the second pass
    when `flag` is set.
   */
  function Passes(m: Arith, s: seq<nat>, rsl: seq<nat>, flag: bool): (mm: seq<nat>)
    requires |s| == 8 && |rsl| == SIZE
    ensures |mm| == SIZE
  {
    var first := Pass(m, s, Zeros(), rsl, if flag then FromRsl else Plain, 32);
    if flag then Pass(m, first.0, first.1, rsl, FromMm, 32).1 else first.1
  }

  // ---------------------------------------------------------------------
  // Properties
  // ---------------------------------------------------------------------

  /** After `randinit`, `mm`, `randrsl`, `aa` and `bb` are 32-bit words. */
  lemma RandInitWords(m: Arith, rsl: seq<nat>, flag: bool)
    requires |rsl| == SIZE
    ensures Words(RandInit(m, rsl, flag).mm) && Words(RandInit(m, rsl, flag).rsl)
    ensures RandInit(m, rsl, flag).aa < TWO32 && RandInit(m, rsl, flag).bb < TWO32
  {
    IsaacWords(Mem(Seeded(m, rsl, flag), rsl, 0, 0, 0));
  }

  /**
    A pass that does not read `mm` overwrites blocks 0 .. n - 1 whatever
    they held, and leaves the rest alone.
   */
  lemma {:induction false} PassOverwrites(m: Arith, s: seq<nat>, mm: seq<nat>, mm': seq<nat>,
                                          rsl: seq<nat>, feed: Feed, n: nat)
    requires |s| == 8 && |mm| == SIZE && |mm'| == SIZE && |rsl| == SIZE && n <= 32 && !feed.FromMm?
    ensures Pass(m, s, mm, rsl, feed, n).0 == Pass(m, s, mm', rsl, feed, n).0
    ensures forall j :: 0 <= j < 8 * n ==> Pass(m, s, mm, rsl, feed, n).1[j] == Pass(m, s, mm', rsl, feed, n).1[j]
    ensures forall j :: 8 * n <= j < SIZE ==> Pass(m, s, mm, rsl, feed, n).1[j] == mm[j]
    decreases n
  {
    if n > 0 {
      PassOverwrites(m, s, mm, mm', rsl, feed, n - 1);
    }
  }

  /** So the `mm` that a first pass starts from does not matter. */
  lemma FirstPassIgnoresMm(m: Arith, s: seq<nat>, mm: seq<nat>, mm': seq<nat>, rsl: seq<nat>, feed: Feed)
    requires |s| == 8 && |mm| == SIZE && |mm'| == SIZE && |rsl| == SIZE && !feed.FromMm?
    ensures Pass(m, s, mm, rsl, feed, 32) == Pass(m, s, mm', rsl, feed, 32)
  {
    PassOverwrites(m, s, mm, mm', rsl, feed, 32);
    assert Pass(m, s, mm, rsl, feed, 32).1 == Pass(m, s, mm', rsl, feed, 32).1;
  }

  // ---------------------------------------------------------------------
  // The unbounded accumulators agree with 32-bit ones
  // ---------------------------------------------------------------------

  lemma {:induction false} ScrambledAgree(n: nat)
    ensures AgreeAll(Scrambled(Unbounded, n), Scrambled(Wrap32, n))
    decreases n
  {
    if n > 0 {
      ScrambledAgree(n - 1);
      MixAgrees(Scrambled(Unbounded, n - 1), Scrambled(Wrap32, n - 1), 1);
    }
  }

  lemma AddWordsAgree(u: seq<nat>, w: seq<nat>, a: seq<nat>, b: seq<nat>)
    requires |u| == 8 && |a| == 8 && AgreeAll(u, w) && AgreeAll(a, b)
    ensures AgreeAll(AddWords(Unbounded, u, a), AddWords(Wrap32, w, b))
  {
    forall k | 0 <= k < 8
      ensures Agree(AddWords(Unbounded, u, a)[k], AddWords(Wrap32, w, b)[k])
    {
      AgreePlus(u[k], w[k], a[k], b[k]);
    }
  }

  lemma WriteBlockAgree(u: seq<nat>, w: seq<nat>, i: nat, a: seq<nat>, b: seq<nat>)
    requires |u| == SIZE && i + 8 <= SIZE && |a| == 8 && AgreeAll(u, w) && AgreeAll(a, b)
    ensures AgreeAll(WriteBlock(u, i, a), WriteBlock(w, i, b))
  {
  }

  /** Every value a pass computes on unbounded accumulators agrees with the 32-bit pass. */
  lemma {:induction false} PassAgree(su: seq<nat>, sw: seq<nat>, mu: seq<nat>, mw: seq<nat>,
                                     ru: seq<nat>, rw: seq<nat>, feed: Feed, n: nat)
    requires |su| == 8 && |mu| == SIZE && |ru| == SIZE && n <= 32
    requires AgreeAll(su, sw) && AgreeAll(mu, mw) && AgreeAll(ru, rw)
    ensures AgreeAll(Pass(Unbounded, su, mu, ru, feed, n).0, Pass(Wrap32, sw, mw, rw, feed, n).0)
    ensures AgreeAll(Pass(Unbounded, su, mu, ru, feed, n).1, Pass(Wrap32, sw, mw, rw, feed, n).1)
    decreases n
  {
    if n > 0 {
      PassAgree(su, sw, mu, mw, ru, rw, feed, n - 1);
      var (s1, m1) := Pass(Unbounded, su, mu, ru, feed, n - 1);
      var (t1, k1) := Pass(Wrap32, sw, mw, rw, feed, n - 1);
      var i := 8 * (n - 1);
      var a, b := Fed(Unbounded, s1, m1, ru, feed, i), Fed(Wrap32, t1, k1, rw, feed, i);
      if feed.FromRsl? {
        AddWordsAgree(s1, t1, ru[i..i + 8], rw[i..i + 8]);
      } else if feed.FromMm? {
        AddWordsAgree(s1, t1, m1[i..i + 8], k1[i..i + 8]);
      }
      assert AgreeAll(a, b);
      MixAgrees(a, b, 11);
      WriteBlockAgree(m1, k1, i, Mix(Unbounded, a, 11), Mix(Wrap32, b, 11));
    }
  }

  /** The low 32 bits of each seed word. */
  function LowWords(s: seq<nat>): (w: seq<nat>)
    ensures AgreeAll(s, w)
  {
    seq(|s|, j requires 0 <= j < |s| => s[j] % TWO32)
  }

  lemma ZerosAgree()
    ensures AgreeAll(Zeros(), Zeros())
  {
  }

  lemma AgreeCongruent(u: seq<nat>, w: seq<nat>)
    requires AgreeAll(u, w)
    ensures forall j :: 0 <= j < |u| ==> Congruent(u[j], w[j])
  {
  }

  /**
    `randinit` on unbounded Ruby Integers leaves the engine exactly as a
    32-bit ISAAC initialised with the low 32 bits of the seed words.
   */
  lemma RandInitOnWords(rsl: seq<nat>, flag: bool)
    requires |rsl| == SIZE
    ensures RandInit(Unbounded, rsl, flag).mm == RandInit(Wrap32, LowWords(rsl), flag).mm
    ensures RandInit(Unbounded, rsl, flag).rsl == RandInit(Wrap32, LowWords(rsl), flag).rsl
    ensures RandInit(Unbounded, rsl, flag).aa == RandInit(Wrap32, LowWords(rsl), flag).aa
    ensures RandInit(Unbounded, rsl, flag).bb == RandInit(Wrap32, LowWords(rsl), flag).bb
  {
    var low := LowWords(rsl);
    SeededAgree(rsl, flag);
    FinalRoundAgrees(Seeded(Unbounded, rsl, flag), Seeded(Wrap32, low, flag), rsl, low);
  }

  /** The closing `isaac` of `randinit`, from seeded tables that agree. */
  lemma FinalRoundAgrees(mu: seq<nat>, mw: seq<nat>, rsl: seq<nat>, low: seq<nat>)
    requires |mu| == SIZE && |rsl| == SIZE && AgreeAll(mu, mw) && AgreeAll(rsl, low)
    ensures Isaac(Mem(mu, rsl, 0, 0, 0)).mm == Isaac(Mem(mw, low, 0, 0, 0)).mm
    ensures Isaac(Mem(mu, rsl, 0, 0, 0)).rsl == Isaac(Mem(mw, low, 0, 0, 0)).rsl
    ensures Isaac(Mem(mu, rsl, 0, 0, 0)).aa == Isaac(Mem(mw, low, 0, 0, 0)).aa
    ensures Isaac(Mem(mu, rsl, 0, 0, 0)).bb == Isaac(Mem(mw, low, 0, 0, 0)).bb
  {
    AgreeCongruent(mu, mw);
    AgreeCongruent(rsl, low);
    var u, w := Mem(mu, rsl, 0, 0, 0), Mem(mw, low, 0, 0, 0);
    assert MemCongruent(u, w);
    IsaacCongruent(u, w);
  }

  /** The passes on unbounded accumulators agree with the 32-bit passes. */
  lemma SeededAgree(rsl: seq<nat>, flag: bool)
    requires |rsl| == SIZE
    ensures AgreeAll(Seeded(Unbounded, rsl, flag), Seeded(Wrap32, LowWords(rsl), flag))
  {
    ScrambledAgree(4);
    PassesAgree(Scrambled(Unbounded, 4), Scrambled(Wrap32, 4), rsl, LowWords(rsl), flag);
  }

  /** Both passes, from any accumulators that agree. */
  lemma PassesAgree(su: seq<nat>, sw: seq<nat>, rsl: seq<nat>, low: seq<nat>, flag: bool)
    requires |su| == 8 && |rsl| == SIZE && AgreeAll(su, sw) && AgreeAll(rsl, low)
    ensures AgreeAll(Passes(Unbounded, su, rsl, flag), Passes(Wrap32, sw, low, flag))
  {
    var feed := if flag then FromRsl else Plain;
    var z := Zeros();
    ZerosAgree();
    PassAgree(su, sw, z, z, rsl, low, feed, 32);
    var u1, w1 := Pass(Unbounded, su, z, rsl, feed, 32), Pass(Wrap32, sw, z, low, feed, 32);
    if flag {
      PassAgree(u1.0, w1.0, u1.1, w1.1, rsl, low, FromMm, 32);
    }
  }
}
