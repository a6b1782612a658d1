/**
  The Ruby values the generators receive and return, and the conversions the
  library applies to them: Ruby's flooring `%`, the `min`/`max` of an Integer
  Range, the C extension's `NUM2ULONG`/`NUM2ULL`, and the little-endian
  packing of a 32-bit word.
 */
module RubyValues {
  import opened Bits

  /** The exceptions the modelled operations can raise. */
  datatype Error =
    | ZeroDivisionError      // `x % 0`
    | NoMethodError          // arithmetic on the nil that an empty Range returns from `min`/`max`
    | TypeError              // `NUM2ULONG(nil)` in the C extension
    | RangeError             // an Integer outside what `NUM2ULONG`/`NUM2ULL` accepts
    | ArgumentError          // `marshal_load` of an array of the wrong length

  datatype Result<+T> = Ok(value: T) | Err(error: Error)

  /**
    The argument of `rand`. A Float argument is represented by the Integer
    its truncation gives (`Float#to_i` in the Ruby engine, `NUM2ULONG` in the
    C extension truncate alike); only Integer ranges are modelled. An
    explicit `nil` is told apart from no argument: the C extension counts it
    as an argument.
   */
  datatype Arg =
    | NoArg
    | NilArg
    | IntArg(n: int)
    | FloatArg(truncated: int)
    | RangeArg(first: int, last: int, exclusive: bool)

  /** What `rand` returns: a Float in [0, 1), held exactly as a real, or an Integer. */
  datatype Value = FloatVal(x: real) | IntVal(v: int)

  /** Ruby's `a % n`: the result takes the sign of n. */
  function FloorMod(a: int, n: int): (r: int)
    requires n != 0
    ensures n > 0 ==> 0 <= r < n
    ensures n < 0 ==> n < r <= 0
    ensures (a - r) % n == 0
  {
    FloorModStep(a, n);
    if n > 0 || a % n == 0 then a % n else a % n + n
  }

  /** Both candidate results of `FloorMod` differ from a by a multiple of n. */
  lemma FloorModStep(a: int, n: int)
    requires n != 0
    ensures (a - a % n) % n == 0 && (a - (a % n + n)) % n == 0
  {
    var q := a / n;
    assert a == q * n + a % n;
    assert a - (a % n + n) == (q - 1) * n;
    ModUnique(a - a % n, n, q, 0);
    ModUnique(a - (a % n + n), n, q - 1, 0);
  }

  /** Dafny's `%` is determined by any quotient whose remainder lies in [0, |d|). */
  lemma ModUnique(a: int, d: int, q: int, r: int)
    requires d != 0 && 0 <= r < (if d > 0 then d else -d) && a == q * d + r
    ensures a % d == r
  {
    if d > 0 {
      DivModUnique(a, d, q, r);
    } else {
      var q', r' := a / d, a % d;
      assert a == q' * d + r';
      var e := -d;
      assert (q - q') * e == r - r';
      if q > q' {
        MulAtLeast(q - q', e);
      } else if q' > q {
        MulAtLeast(q' - q, e);
      }
    }
  }

  /** Ruby's `%` leaves a remainder: a and `a % n` differ by a multiple of n. */
  lemma FloorModCongruent(a: int, n: int) returns (q: int)
    requires n != 0
    ensures a == q * n + FloorMod(a, n)
  {
    if n > 0 || a % n == 0 {
      q := a / n;
      assert a == q * n + a % n;
      assert FloorMod(a, n) == a % n;
    } else {
      q := a / n - 1;
      assert a == (a / n) * n + a % n;
      assert q * n == (a / n) * n - n;
      assert FloorMod(a, n) == a % n + n;
    }
  }

  /** Ruby's `Range#min` on an Integer range; None stands for nil (an empty range). */
  function RangeMin(first: int, last: int, exclusive: bool): (r: Option<int>)
    ensures r.Some? <==> (if exclusive then first < last else first <= last)
    ensures r.Some? ==> r.value == first
  {
    if last < first || (exclusive && last == first) then None else Some(first)
  }

  /** Ruby's `Range#max` on an Integer range; None stands for nil (an empty range). */
  function RangeMax(first: int, last: int, exclusive: bool): (r: Option<int>)
    ensures r.Some? <==> (if exclusive then first < last else first <= last)
    ensures r.Some? ==> first <= r.value && (if exclusive then r.value == last - 1 else r.value == last)
  {
    if last < first || (exclusive && last == first) then None
    else if exclusive then Some(last - 1)
    else Some(last)
  }

  datatype Option<+T> = None | Some(value: T)

  /**
    `NUM2ULONG` / `NUM2ULL` on a 64-bit platform: an Integer in
    [-2^63, 2^64) becomes its two's-complement bit pattern; anything else
    raises RangeError.
   */
  function ToULong(v: int): (r: Result<Word64>)
    ensures r.Ok? <==> -0x8000_0000_0000_0000 <= v < TWO64
    ensures r.Ok? ==> r.value % TWO64 == v % TWO64
    ensures r.Ok? && v >= 0 ==> r.value == v
  {
    if -0x8000_0000_0000_0000 <= v < TWO64 then Ok(v % TWO64) else Err(RangeError)
  }

  /**
    `[w].pack('L').unpack('aaaa')` on a little-endian machine, and the four
    `buf[i + k] = w >> 8k` stores of the C extension: the four octets of a
    32-bit word, least significant first.
   */
  function LeBytes(w: Word32): (r: seq<Byte>)
    ensures |r| == 4
  {
    [w % 256, (w / 0x100) % 256, (w / 0x1_0000) % 256, w / 0x100_0000]
  }

  /** The word of all ones packs to four octets of all ones. */
  lemma LeBytesOfMask()
    ensures LeBytes(MASK32) == [255, 255, 255, 255]
  {
  }

  /** Reading four octets back as a little-endian word. */
  function FromLe(b: seq<Byte>): Word32
    requires |b| == 4
  {
    var lo: int := b[0] + 0x100 * (b[1] as int);
    var hi: int := b[2] + 0x100 * (b[3] as int);
    lo + 0x1_0000 * hi
  }

  /** Packing loses nothing: the word is recovered from its four octets. */
  lemma LeBytesRoundTrip(w: Word32)
    ensures FromLe(LeBytes(w)) == w
  {
    var b := LeBytes(w);
    assert w == (w / 0x100) * 0x100 + w % 0x100;
    assert w / 0x100 == (w / 0x1_0000) * 0x100 + (w / 0x100) % 0x100;
    assert w / 0x1_0000 == (w / 0x100_0000) * 0x100 + (w / 0x1_0000) % 0x100;
  }

  /** Distinct words pack to distinct octet strings. */
  lemma LeBytesInjective(w: Word32, v: Word32)
    requires LeBytes(w) == LeBytes(v)
    ensures w == v
  {
    LeBytesRoundTrip(w);
    LeBytesRoundTrip(v);
  }

  /** The words packed one after the other, each little-endian. */
  function Pack(ws: seq<nat>): (b: seq<Byte>)
    requires forall j :: 0 <= j < |ws| ==> ws[j] < TWO32
    ensures |b| == 4 * |ws|
    ensures forall j :: 0 <= j < |ws| ==> b[4 * j..4 * j + 4] == LeBytes(ws[j])
    decreases |ws|
  {
    if |ws| == 0 then []
    else
      var rest := Pack(ws[1..]);
      var b := LeBytes(ws[0]) + rest;
      assert forall j :: 1 <= j < |ws| ==> b[4 * j..4 * j + 4] == rest[4 * (j - 1)..4 * (j - 1) + 4];
      b
  }

  /** Packing one more word appends its four octets. */
  lemma {:induction false} PackSnoc(ws: seq<nat>, w: Word32)
    requires forall j :: 0 <= j < |ws| ==> ws[j] < TWO32
    ensures Pack(ws + [w]) == Pack(ws) + LeBytes(w)
    decreases |ws|
  {
    if |ws| > 0 {
      assert (ws + [w])[1..] == ws[1..] + [w];
      PackSnoc(ws[1..], w);
    }
  }
}
