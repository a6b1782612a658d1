/**
  The mixing round `isaac` of the pure-Ruby engine (lib/crypt/isaac/pure.rb).

  The engine's memory `mm`, its results `randrsl` and the registers `aa`,
  `bb`, `cc` are Ruby Integers. `randinit` leaves unbounded values in `mm`,
  and `cc` is incremented without a mask; every value the round computes is
  masked with `& 0xffffffff` (written `% TWO32` here), and every index with
  `& 255`. So the round depends only on the low 32 bits of what it reads,
  and afterwards every word it wrote is a 32-bit word.
 */
module IsaacRound {
  import opened Bits
  import IsaacMix

  /** The number of words in `mm` and `randrsl` (RANDSIZ). */
  const SIZE: nat := 256

  /** What the round reads and writes. */
  datatype Mem = Mem(mm: seq<nat>, rsl: seq<nat>, aa: nat, bb: nat, cc: nat)

  predicate Sized(r: Mem)
  {
    |r.mm| == SIZE && |r.rsl| == SIZE
  }

  /** `(v >> s) & 255`: an index into `mm`. */
  function Index(v: nat, s: nat): (k: nat)
    ensures k < SIZE
  {
    AndLowMask(Shr(v, s), 8);
    TruncIsMod(Shr(v, s), 8);
    Pow2Byte();
    And(Shr(v, s), 255)
  }

  /**
    The value step i exclusive-ors into `aa`, in rotation: `aa << 13`,
    `0x03ffffff & (aa >> 6)`, `aa << 2`, `0x0000ffff & (aa >> 16)`.
   */
  function AaTwist(aa: nat, i: nat): nat
  {
    if i % 4 == 0 then Shl(aa, 13)
    else if i % 4 == 1 then IsaacMix.MaskedShr(aa, 6)
    else if i % 4 == 2 then Shl(aa, 2)
    else IsaacMix.MaskedShr(aa, 16)
  }

  /**
    Step i of the round: `x = mm[i]`; `aa = (mm[(i + 128) & 255] + (aa ^ twist)) & mask`;
    `mm[i] = y = (mm[(x >> 2) & 255] + aa + bb) & mask`;
    `randrsl[i] = bb = (mm[(y >> 10) & 255] + x) & mask`. The last lookup
    sees the new `mm[i]`. Only entry i of each array changes.
   */
  function Step(r: Mem, i: nat): (q: Mem)
    requires Sized(r) && i < SIZE
    ensures Sized(q) && q.cc == r.cc
    ensures q.aa < TWO32 && q.bb < TWO32 && q.mm[i] < TWO32 && q.rsl[i] == q.bb
    ensures forall j :: 0 <= j < SIZE && j != i ==> q.mm[j] == r.mm[j] && q.rsl[j] == r.rsl[j]
  {
    var x := r.mm[i];
    var aa := NewAa(r, i);
    var y := NewY(r, i, aa);
    var mm := r.mm[i := y];
    var bb := (mm[Index(y, 10)] + x) % TWO32;
    Mem(mm, r.rsl[i := bb], aa, bb, r.cc)
  }

  /** The new `aa` of step i. */
  function NewAa(r: Mem, i: nat): Word32
    requires Sized(r) && i < SIZE
  {
    (r.mm[(i + 128) % SIZE] + Xor(r.aa, AaTwist(r.aa, i))) % TWO32
  }

  /** The word y that step i stores in `mm[i]`, given the new `aa`. */
  function NewY(r: Mem, i: nat, aa: nat): Word32
    requires Sized(r) && i < SIZE
  {
    (r.mm[Index(r.mm[i], 2)] + aa + r.bb) % TWO32
  }

  /** Steps 0 .. n - 1, in ascending order. */
  function Steps(r: Mem, n: nat): (q: Mem)
    requires Sized(r) && n <= SIZE
    ensures Sized(q) && q.cc == r.cc
  {
    if n == 0 then r else Step(Steps(r, n - 1), n - 1)
  }

  lemma StepsNext(r: Mem, n: nat)
    requires Sized(r) && n < SIZE
    ensures Steps(r, n + 1) == Step(Steps(r, n), n)
  {
  }

  /** `isaac`: `cc += 1`, `bb = (bb + cc) & mask`, then the 256 steps. */
  function Isaac(r: Mem): (q: Mem)
    requires Sized(r)
    ensures Sized(q) && q.cc == r.cc + 1
  {
    Steps(Bump(r), SIZE)
  }

  /** The two statements before the loop of `isaac`. */
  function Bump(r: Mem): (q: Mem)
  {
    r.(cc := r.cc + 1, bb := (r.bb + r.cc + 1) % TWO32)
  }

  /**
    The loop of `isaac`, one step per iteration (the source unrolls it four
    times; step i uses the twist of i % 4 either way).
   */
  method IsaacLoop(r: Mem) returns (q: Mem)
    requires Sized(r)
    ensures q == Isaac(r)
  {
    var cc := r.cc + 1;
    var bb := (r.bb + cc) % TWO32;
    var start := r.(cc := cc, bb := bb);
    assert start == Bump(r);
    q := start;
    var i := 0;
    while i < SIZE
      invariant i <= SIZE && Sized(start)
      invariant q == Steps(start, i)
    {
      StepsNext(start, i);
      q := Step(q, i);
      i := i + 1;
    }
  }

  // ---------------------------------------------------------------------
  // Ranges and frames
  // ---------------------------------------------------------------------

  /** Each word is a 32-bit word. */
  predicate Words(s: seq<nat>)
  {
    forall j :: 0 <= j < |s| ==> s[j] < TWO32
  }

  /**
    After n steps the entries 0 .. n - 1 have been rewritten with 32-bit
    words and the entries from n on are untouched; once a step has run,
    `aa` and `bb` are words too.
   */
  lemma {:induction false} StepsFrame(r: Mem, n: nat)
    requires Sized(r) && n <= SIZE
    ensures forall j :: 0 <= j < n ==> Steps(r, n).mm[j] < TWO32 && Steps(r, n).rsl[j] < TWO32
    ensures forall j :: n <= j < SIZE ==> Steps(r, n).mm[j] == r.mm[j] && Steps(r, n).rsl[j] == r.rsl[j]
    ensures n > 0 ==> Steps(r, n).aa < TWO32 && Steps(r, n).bb < TWO32
    decreases n
  {
    if n > 0 {
      StepsFrame(r, n - 1);
    }
  }

  /** After `isaac`, `mm`, `randrsl`, `aa` and `bb` hold 32-bit words only; `cc` went up by one. */
  lemma IsaacWords(r: Mem)
    requires Sized(r)
    ensures Words(Isaac(r).mm) && Words(Isaac(r).rsl)
    ensures Isaac(r).aa < TWO32 && Isaac(r).bb < TWO32
  {
    StepsFrame(Bump(r), SIZE);
  }

  // ---------------------------------------------------------------------
  // Only the low 32 bits of what the round reads matter
  // ---------------------------------------------------------------------

  /** x and y have the same low 32 bits. */
  predicate Congruent(x: nat, y: nat)
  {
    x % TWO32 == y % TWO32
  }

  /** Two memories whose every value has the same low 32 bits. */
  predicate MemCongruent(r: Mem, q: Mem)
  {
    Sized(r) && Sized(q)
    && (forall j :: 0 <= j < SIZE ==> Congruent(r.mm[j], q.mm[j]))
    && (forall j :: 0 <= j < SIZE ==> Congruent(r.rsl[j], q.rsl[j]))
    && Congruent(r.aa, q.aa) && Congruent(r.bb, q.bb) && Congruent(r.cc, q.cc)
  }

  lemma CongruentXor(x: nat, y: nat, u: nat, v: nat)
    requires Congruent(x, y) && Congruent(u, v)
    ensures Congruent(Xor(x, u), Xor(y, v))
  {
    AgreeXor(x, x % TWO32, u, u % TWO32);
    AgreeXor(y, y % TWO32, v, v % TWO32);
  }

  lemma CongruentTwist(x: nat, y: nat, i: nat)
    requires Congruent(x, y)
    ensures Congruent(AaTwist(x, i), AaTwist(y, i))
  {
    if i % 4 == 0 {
      CongruentShl(x, y, 13);
    } else if i % 4 == 1 {
      CongruentMaskedShr(x, y, 6);
    } else if i % 4 == 2 {
      CongruentShl(x, y, 2);
    } else {
      CongruentMaskedShr(x, y, 16);
    }
  }

  lemma CongruentShl(x: nat, y: nat, k: nat)
    requires Congruent(x, y)
    ensures Congruent(Shl(x, k), Shl(y, k))
  {
    AgreeShl(x, x % TWO32, k);
    AgreeShl(y, y % TWO32, k);
  }

  lemma CongruentMaskedShr(x: nat, y: nat, s: nat)
    requires Congruent(x, y) && s <= 32
    ensures IsaacMix.MaskedShr(x, s) == IsaacMix.MaskedShr(y, s)
  {
    AgreeMaskedShr(x, x % TWO32, s, 32 - s);
    AgreeMaskedShr(y, y % TWO32, s, 32 - s);
  }

  lemma CongruentSum(x: nat, y: nat, u: nat, v: nat)
    requires Congruent(x, y) && Congruent(u, v)
    ensures Congruent(x + u, y + v)
  {
    AddMod(x, u, TWO32);
    AddMod(y, v, TWO32);
  }

  /** An index `(v >> s) & 255` with s <= 24 reads only the low 32 bits of v. */
  lemma CongruentIndex(x: nat, y: nat, s: nat)
    requires Congruent(x, y) && s <= 24
    ensures Index(x, s) == Index(y, s)
  {
    Pow2Byte();
    AgreeMaskedShr(x, x % TWO32, s, 8);
    AgreeMaskedShr(y, y % TWO32, s, 8);
    AndLowMask(Shr(x, s), 8);
    AndLowMask(Shr(y, s), 8);
  }

  /** The new `aa` of step i depends only on the low 32 bits of what it reads. */
  lemma StepAa(r: Mem, q: Mem, i: nat)
    requires MemCongruent(r, q) && i < SIZE
    ensures NewAa(r, i) == NewAa(q, i)
  {
    var k := (i + 128) % SIZE;
    assert Congruent(r.mm[k], q.mm[k]);
    CongruentTwist(r.aa, q.aa, i);
    CongruentXor(r.aa, q.aa, AaTwist(r.aa, i), AaTwist(q.aa, i));
    CongruentSum(r.mm[k], q.mm[k], Xor(r.aa, AaTwist(r.aa, i)), Xor(q.aa, AaTwist(q.aa, i)));
  }

  /** So does the word y it stores in `mm[i]`. */
  lemma StepY(r: Mem, q: Mem, i: nat, aa: nat)
    requires MemCongruent(r, q) && i < SIZE
    ensures NewY(r, i, aa) == NewY(q, i, aa)
  {
    var x, x' := r.mm[i], q.mm[i];
    assert Congruent(x, x');
    CongruentIndex(x, x', 2);
    var k := Index(x, 2);
    assert Congruent(r.mm[k], q.mm[k]);
    CongruentSum(r.mm[k], q.mm[k], aa, aa);
    CongruentSum(r.mm[k] + aa, q.mm[k] + aa, r.bb, q.bb);
  }

  /** And so does the new `bb`, read through the updated `mm`. */
  lemma StepBb(mm: seq<nat>, mm': seq<nat>, x: nat, x': nat, y: nat)
    requires |mm| == |mm'| == SIZE && Congruent(x, x')
    requires forall j :: 0 <= j < SIZE ==> Congruent(mm[j], mm'[j])
    ensures (mm[Index(y, 10)] + x) % TWO32 == (mm'[Index(y, 10)] + x') % TWO32
  {
    var m := Index(y, 10);
    assert Congruent(mm[m], mm'[m]);
    CongruentSum(mm[m], mm'[m], x, x');
  }

  /**
    One step maps congruent memories to congruent memories, and what it
    writes (`aa`, `bb`, `mm[i]`, `randrsl[i]`) is equal on both sides.
   */
  lemma StepCongruent(r: Mem, q: Mem, i: nat)
    requires MemCongruent(r, q) && i < SIZE
    ensures MemCongruent(Step(r, i), Step(q, i))
    ensures Step(r, i).aa == Step(q, i).aa && Step(r, i).bb == Step(q, i).bb
    ensures Step(r, i).mm[i] == Step(q, i).mm[i]
  {
    StepAa(r, q, i);
    var aa := NewAa(r, i);
    StepY(r, q, i, aa);
    var y := NewY(r, i, aa);
    var mm, mm' := r.mm[i := y], q.mm[i := y];
    assert forall j :: 0 <= j < SIZE ==> Congruent(mm[j], mm'[j]);
    assert Congruent(r.mm[i], q.mm[i]);
    StepBb(mm, mm', r.mm[i], q.mm[i], y);
    var a, b := Step(r, i), Step(q, i);
    assert a.aa == b.aa && a.bb == b.bb && a.mm[i] == b.mm[i] && a.rsl[i] == b.rsl[i];
    forall j | 0 <= j < SIZE
      ensures Congruent(a.mm[j], b.mm[j]) && Congruent(a.rsl[j], b.rsl[j])
    {
      if j != i {
        assert a.mm[j] == r.mm[j] && b.mm[j] == q.mm[j];
        assert a.rsl[j] == r.rsl[j] && b.rsl[j] == q.rsl[j];
      }
    }
  }

  /**
    Congruent memories whose entries 0 .. n - 1 are equal and, once a step
    has run, whose `aa` and `bb` are equal: what n steps leave behind.
   */
  predicate EqualBelow(a: Mem, b: Mem, n: nat)
  {
    MemCongruent(a, b) && n <= SIZE
    && (forall j :: 0 <= j < n ==> a.mm[j] == b.mm[j])
    && (forall j :: 0 <= j < n ==> a.rsl[j] == b.rsl[j])
    && (n > 0 ==> a.aa == b.aa && a.bb == b.bb)
  }

  /** Step n - 1 extends the equal prefix by one entry. */
  lemma StepExtends(a: Mem, b: Mem, n: nat)
    requires 0 < n <= SIZE && EqualBelow(a, b, n - 1)
    ensures EqualBelow(Step(a, n - 1), Step(b, n - 1), n)
  {
    var i := n - 1;
    StepCongruent(a, b, i);
    var a', b' := Step(a, i), Step(b, i);
    ExtendPrefix(a.mm, b.mm, a'.mm, b'.mm, i);
    ExtendPrefix(a.rsl, b.rsl, a'.rsl, b'.rsl, i);
  }

  /** Two tables equal below i, each changed at i alone, to the same value, are equal below i + 1. */
  lemma ExtendPrefix(u: seq<nat>, v: seq<nat>, u': seq<nat>, v': seq<nat>, i: nat)
    requires |u| == |v| == |u'| == |v'| == SIZE && i < SIZE
    requires forall j :: 0 <= j < i ==> u[j] == v[j]
    requires forall j :: 0 <= j < SIZE && j != i ==> u'[j] == u[j] && v'[j] == v[j]
    requires u'[i] == v'[i]
    ensures forall j :: 0 <= j < i + 1 ==> u'[j] == v'[j]
  {
  }

  /**
    After n steps on congruent memories, the entries 0 .. n - 1 and, once a
    step has run, `aa` and `bb` are equal on both sides.
   */
  lemma {:induction false} StepsCongruent(r: Mem, q: Mem, n: nat)
    requires MemCongruent(r, q) && n <= SIZE
    ensures EqualBelow(Steps(r, n), Steps(q, n), n)
    decreases n
  {
    if n > 0 {
      var a, b := Steps(r, n - 1), Steps(q, n - 1);
      StepsCongruent(r, q, n - 1);
      StepExtends(a, b, n);
      assert Steps(r, n) == Step(a, n - 1) && Steps(q, n) == Step(b, n - 1);
    }
  }

  /**
    `isaac` reads its memory only through masks: two memories with the same
    low 32 bits everywhere give the same `mm`, `randrsl`, `aa` and `bb`,
    and `cc` values that still agree modulo 2^32.
   */
  lemma IsaacCongruent(r: Mem, q: Mem)
    requires MemCongruent(r, q)
    ensures Isaac(r).mm == Isaac(q).mm && Isaac(r).rsl == Isaac(q).rsl
    ensures Isaac(r).aa == Isaac(q).aa && Isaac(r).bb == Isaac(q).bb
    ensures Congruent(Isaac(r).cc, Isaac(q).cc)
  {
    var r1, q1 := Bump(r), Bump(q);
    CongruentSum(r.cc, q.cc, 1, 1);
    CongruentSum(r.bb, q.bb, r.cc + 1, q.cc + 1);
    assert MemCongruent(r1, q1);
    StepsCongruent(r1, q1, SIZE);
    var a, b := Steps(r1, SIZE), Steps(q1, SIZE);
    assert EqualBelow(a, b, SIZE);
    assert a.mm == b.mm && a.rsl == b.rsl;
  }

  /** Every value reduced to its low 32 bits: the memory of a 32-bit ISAAC. */
  function Reduce(r: Mem): (w: Mem)
    requires Sized(r)
    ensures Sized(w) && Words(w.mm) && Words(w.rsl)
  {
    Mem(seq(SIZE, j requires 0 <= j < SIZE => r.mm[j] % TWO32),
        seq(SIZE, j requires 0 <= j < SIZE => r.rsl[j] % TWO32),
        r.aa % TWO32, r.bb % TWO32, r.cc % TWO32)
  }

  /** So the unbounded round computes what a 32-bit implementation computes. */
  lemma IsaacOnWords(r: Mem)
    requires Sized(r)
    ensures Isaac(r).mm == Isaac(Reduce(r)).mm && Isaac(r).rsl == Isaac(Reduce(r)).rsl
    ensures Isaac(r).aa == Isaac(Reduce(r)).aa && Isaac(r).bb == Isaac(Reduce(r)).bb
  {
    IsaacCongruent(r, Reduce(r));
  }
}
