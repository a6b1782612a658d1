/**
  The eight-line mix of ISAAC's initialiser (`randinit` in
  lib/crypt/isaac/pure.rb), over the accumulators a..h held as an
  8-element sequence.

  The Ruby code runs the mix on unbounded Integers: sums and left shifts are
  never masked, only the right shifts are. The same mix on 32-bit words is
  what ISAAC's reference code computes. Both are one function here,
  parameterised by `Arith`, and the two agree modulo 2^32.
 */
module IsaacMix {
  import opened Bits

  /** The golden ratio every accumulator starts from. */
  const GOLDEN: nat := 0x9e3779b9

  /** How sums and left shifts of the accumulators behave. */
  datatype Arith =
    | Unbounded   // Ruby Integers, as pure.rb computes
    | Wrap32      // 32-bit words

  /** `x + y`. */
  function Plus(m: Arith, x: nat, y: nat): nat
  {
    if m.Unbounded? then x + y else (x + y) % TWO32
  }

  /** `x << k`. */
  function LShift(m: Arith, x: nat, k: nat): nat
  {
    if m.Unbounded? then Shl(x, k) else Shl(x, k) % TWO32
  }

  /**
    `mask & (x >> s)` where the mask keeps the 32 - s bits a 32-bit shift
    leaves: 0x3fffffff for s = 2, 0x0000ffff for 16, 0x0fffffff for 4 and
    0x007fffff for 9.
   */
  function MaskedShr(x: nat, s: nat): nat
    requires s <= 32
  {
    And(Pow2(32 - s) - 1, Shr(x, s))
  }

  /** The shift of line i: lines 0, 2, 4, 6 shift left, lines 1, 3, 5, 7 right. */
  function LineShift(i: nat, first: nat): nat
    requires i < 8
  {
    [first, 2, 8, 16, 10, 4, 8, 9][i]
  }

  /** The value line i exclusive-ors into accumulator i. */
  function Twist(m: Arith, s: seq<nat>, i: nat, first: nat): nat
    requires |s| == 8 && i < 8
  {
    var next := s[(i + 1) % 8];
    if i % 2 == 0 then LShift(m, next, LineShift(i, first)) else MaskedShr(next, LineShift(i, first))
  }

  /**
    Line i of the mix: `s[i] ^= twist; s[i+3] += s[i]; s[i+1] += s[i+2]`,
    indices modulo 8 (line 0 is `a ^= b << 11; d += a; b += c`).
   */
  function Line(m: Arith, s: seq<nat>, i: nat, first: nat): (r: seq<nat>)
    requires |s| == 8 && i < 8
    ensures |r| == 8
  {
    var s1 := s[i := Xor(s[i], Twist(m, s, i, first))];
    var s2 := s1[(i + 3) % 8 := Plus(m, s1[(i + 3) % 8], s1[i])];
    s2[(i + 1) % 8 := Plus(m, s2[(i + 1) % 8], s2[(i + 2) % 8])]
  }

  /** Lines 0 .. n - 1 of the mix. */
  function Lines(m: Arith, s: seq<nat>, n: nat, first: nat): (r: seq<nat>)
    requires |s| == 8 && n <= 8
    ensures |r| == 8
  {
    if n == 0 then s else Line(m, Lines(m, s, n - 1, first), n - 1, first)
  }

  /** The whole mix; `first` is the shift of its first line (1 or 11 in the source). */
  function Mix(m: Arith, s: seq<nat>, first: nat): (r: seq<nat>)
    requires |s| == 8
    ensures |r| == 8
  {
    Lines(m, s, 8, first)
  }

  /**
    The mix as the source spells it, one statement per assignment: it
    computes exactly the table-driven `Mix`.
   */
  method MixSpelled(m: Arith, s: seq<nat>, first: nat) returns (r: seq<nat>)
    requires |s| == 8
    ensures r == Mix(m, s, first)
  {
    r := MixLines01(m, s, s, first);
    r := MixLines23(m, s, r, first);
    r := MixLines45(m, s, r, first);
    r := MixLines67(m, s, r, first);
  }

  /** Lines `a ^= b << first` and `b ^= 0x3fffffff & (c >> 2)` of the mix, after the first 0. */
  method MixLines01(m: Arith, s: seq<nat>, t: seq<nat>, first: nat) returns (r: seq<nat>)
    requires |s| == 8 && t == Lines(m, s, 0, first)
    ensures r == Lines(m, s, 2, first)
  {
    var a, b, c, d, e, f, g, h := t[0], t[1], t[2], t[3], t[4], t[5], t[6], t[7];
    a := Xor(a, LShift(m, b, first));  d := Plus(m, d, a);  b := Plus(m, b, c);
    ghost var done := [a, b, c, d, e, f, g, h];
    assert done == Line(m, t, 0, first);
    b := Xor(b, MaskedShr(c, 2));      e := Plus(m, e, b);  c := Plus(m, c, d);
    assert [a, b, c, d, e, f, g, h] == Line(m, done, 1, first);
    r := [a, b, c, d, e, f, g, h];
  }

  /** Lines `c ^= d << 8` and `d ^= 0x0000ffff & (e >> 16)` of the mix, after the first 2. */
  method MixLines23(m: Arith, s: seq<nat>, t: seq<nat>, first: nat) returns (r: seq<nat>)
    requires |s| == 8 && t == Lines(m, s, 2, first)
    ensures r == Lines(m, s, 4, first)
  {
    var a, b, c, d, e, f, g, h := t[0], t[1], t[2], t[3], t[4], t[5], t[6], t[7];
    c := Xor(c, LShift(m, d, 8));      f := Plus(m, f, c);  d := Plus(m, d, e);
    ghost var done := [a, b, c, d, e, f, g, h];
    assert done == Line(m, t, 2, first);
    d := Xor(d, MaskedShr(e, 16));     g := Plus(m, g, d);  e := Plus(m, e, f);
    assert [a, b, c, d, e, f, g, h] == Line(m, done, 3, first);
    r := [a, b, c, d, e, f, g, h];
  }

  /** Lines `e ^= f << 10` and `f ^= 0x0fffffff & (g >> 4)` of the mix, after the first 4. */
  method MixLines45(m: Arith, s: seq<nat>, t: seq<nat>, first: nat) returns (r: seq<nat>)
    requires |s| == 8 && t == Lines(m, s, 4, first)
    ensures r == Lines(m, s, 6, first)
  {
    var a, b, c, d, e, f, g, h := t[0], t[1], t[2], t[3], t[4], t[5], t[6], t[7];
    e := Xor(e, LShift(m, f, 10));     h := Plus(m, h, e);  f := Plus(m, f, g);
    ghost var done := [a, b, c, d, e, f, g, h];
    assert done == Line(m, t, 4, first);
    f := Xor(f, MaskedShr(g, 4));      a := Plus(m, a, f);  g := Plus(m, g, h);
    assert [a, b, c, d, e, f, g, h] == Line(m, done, 5, first);
    r := [a, b, c, d, e, f, g, h];
  }

  /** Lines `g ^= h << 8` and `h ^= 0x007fffff & (a >> 9)` of the mix, after the first 6. */
  method MixLines67(m: Arith, s: seq<nat>, t: seq<nat>, first: nat) returns (r: seq<nat>)
    requires |s| == 8 && t == Lines(m, s, 6, first)
    ensures r == Lines(m, s, 8, first)
  {
    var a, b, c, d, e, f, g, h := t[0], t[1], t[2], t[3], t[4], t[5], t[6], t[7];
    g := Xor(g, LShift(m, h, 8));      b := Plus(m, b, g);  h := Plus(m, h, a);
    ghost var done := [a, b, c, d, e, f, g, h];
    assert done == Line(m, t, 6, first);
    h := Xor(h, MaskedShr(a, 9));      c := Plus(m, c, h);  a := Plus(m, a, b);
    assert [a, b, c, d, e, f, g, h] == Line(m, done, 7, first);
    r := [a, b, c, d, e, f, g, h];
  }

  // ---------------------------------------------------------------------
  // Words and agreement modulo 2^32
  // ---------------------------------------------------------------------

  predicate AllWords(s: seq<nat>)
  {
    forall j :: 0 <= j < |s| ==> s[j] < TWO32
  }

  /** Each entry of u is congruent modulo 2^32 to the 32-bit word at the same place in w. */
  predicate AgreeAll(u: seq<nat>, w: seq<nat>)
  {
    |u| == |w| && forall j :: 0 <= j < |u| ==> Agree(u[j], w[j])
  }

  lemma MaskedShrWord(x: nat, s: nat)
    requires 0 < s <= 32
    ensures MaskedShr(x, s) < TWO32
  {
    var k := 32 - s;
    AndLowMask(Shr(x, s), k);
    TruncBelow(Shr(x, s), k);
    Pow2Mono(k, 32);
    Pow2Values();
  }

  /** On 32-bit words, `Wrap32` arithmetic keeps every accumulator a word. */
  lemma LineWords(s: seq<nat>, i: nat, first: nat)
    requires |s| == 8 && i < 8 && AllWords(s)
    ensures AllWords(Line(Wrap32, s, i, first))
  {
    var t := Twist(Wrap32, s, i, first);
    if i % 2 == 1 {
      MaskedShrWord(s[(i + 1) % 8], LineShift(i, first));
    }
    Word32Xor(s[i], t);
  }

  lemma {:induction false} LinesWords(s: seq<nat>, n: nat, first: nat)
    requires |s| == 8 && n <= 8 && AllWords(s)
    ensures AllWords(Lines(Wrap32, s, n, first))
    decreases n
  {
    if n > 0 {
      LinesWords(s, n - 1, first);
      LineWords(Lines(Wrap32, s, n - 1, first), n - 1, first);
    }
  }

  /** The `Wrap32` mix maps words to words. */
  lemma MixWords(s: seq<nat>, first: nat)
    requires |s| == 8 && AllWords(s)
    ensures AllWords(Mix(Wrap32, s, first))
  {
    LinesWords(s, 8, first);
  }

  lemma TwistAgrees(u: seq<nat>, w: seq<nat>, i: nat, first: nat)
    requires |u| == 8 && i < 8 && AgreeAll(u, w)
    ensures Agree(Twist(Unbounded, u, i, first), Twist(Wrap32, w, i, first))
  {
    var j := (i + 1) % 8;
    var sh := LineShift(i, first);
    assert Agree(u[j], w[j]);
    if i % 2 == 0 {
      AgreeShl(u[j], w[j], sh);
    } else {
      AgreeMaskedShr(u[j], w[j], sh, 32 - sh);
    }
  }

  /** `s[k] += s[i]` on both sides keeps them in agreement. */
  lemma AddAgrees(u: seq<nat>, w: seq<nat>, k: nat, i: nat)
    requires AgreeAll(u, w) && k < |u| && i < |u|
    ensures AgreeAll(u[k := Plus(Unbounded, u[k], u[i])], w[k := Plus(Wrap32, w[k], w[i])])
  {
    AgreePlus(u[k], w[k], u[i], w[i]);
  }

  /** Line i on unbounded accumulators agrees modulo 2^32 with line i on their low words. */
  lemma LineAgrees(u: seq<nat>, w: seq<nat>, i: nat, first: nat)
    requires |u| == 8 && i < 8 && AgreeAll(u, w)
    ensures AgreeAll(Line(Unbounded, u, i, first), Line(Wrap32, w, i, first))
  {
    var tu, tw := Twist(Unbounded, u, i, first), Twist(Wrap32, w, i, first);
    var u1, w1 := u[i := Xor(u[i], tu)], w[i := Xor(w[i], tw)];
    assert AgreeAll(u1, w1) by {
      TwistAgrees(u, w, i, first);
      AgreeXor(u[i], w[i], tu, tw);
    }
    var k := (i + 3) % 8;
    var u2, w2 := u1[k := Plus(Unbounded, u1[k], u1[i])], w1[k := Plus(Wrap32, w1[k], w1[i])];
    AddAgrees(u1, w1, k, i);
    AddAgrees(u2, w2, (i + 1) % 8, (i + 2) % 8);
  }

  lemma {:induction false} LinesAgree(u: seq<nat>, w: seq<nat>, n: nat, first: nat)
    requires |u| == 8 && n <= 8 && AgreeAll(u, w)
    ensures AgreeAll(Lines(Unbounded, u, n, first), Lines(Wrap32, w, n, first))
    decreases n
  {
    if n > 0 {
      LinesAgree(u, w, n - 1, first);
      LineAgrees(Lines(Unbounded, u, n - 1, first), Lines(Wrap32, w, n - 1, first), n - 1, first);
    }
  }

  /**
    Every right shift in the mix is masked, so the low 32 bits of the
    unbounded accumulators are those the 32-bit mix computes.
   */
  lemma MixAgrees(u: seq<nat>, w: seq<nat>, first: nat)
    requires |u| == 8 && AgreeAll(u, w) && AllWords(w)
    ensures AgreeAll(Mix(Unbounded, u, first), Mix(Wrap32, w, first))
    ensures AllWords(Mix(Wrap32, w, first))
  {
    LinesAgree(u, w, 8, first);
    MixWords(w, first);
  }
}
