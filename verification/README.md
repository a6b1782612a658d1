# crypt-isaac in Dafny

A model of the core of the Ruby gem `crypt-isaac`, with proofs about it. The gem provides two
random number generators:

- `Crypt::ISAAC`, Bob Jenkins' cryptographically secure generator;
- `Crypt::Xorshift64Star`, a small xorshift* generator, which ISAAC uses to turn an
  Integer seed into its 256 seed words.

Each generator exists twice: as pure Ruby (`lib/crypt/isaac/pure.rb`,
`lib/crypt/isaac/xorshift/pure.rb`) and as a C extension (`ext/crypt/isaac/isaac.c`,
`ext/crypt/isaac/xorshift/xorshift.c`). The model keeps the four apart, because they do not
behave alike:

- **`Bits`** (bits.dfy): exclusive or, masks and shifts on unbounded naturals, and the
  arithmetic facts about them. One definition serves both the Ruby code, whose Integers never
  overflow, and the C code, whose words wrap. The wrap is always written out as `% 2^32` or
  `% 2^64`.
- **`RubyValues`** (ruby_values.dfy): the arguments and results of `rand`, Ruby's flooring `%`,
  `Range#min`/`max` on Integer ranges, the C macros `NUM2ULONG`/`NUM2ULL`, and the
  little-endian packing of words into octets.
- **`XorshiftPure`**, **`XorshiftExt`**, **`XorshiftCompare`**: the two `Xorshift64Star`
  implementations, and a proof that they part ways. The Ruby state is never reduced, so bits
  shifted past 2^64 come back. From a seed of 2^39 or more, the very first draw already differs
  from the C one.
- **`IsaacMix`**, **`IsaacRound`**, **`IsaacInit`**: the pure engine's mix, its `isaac` round
  and its `randinit`. `randinit` runs on unbounded Integers. The proofs show that the values it
  leaves agree modulo 2^32 with a 32-bit computation, and that `isaac` then reduces everything
  to 32-bit words.
- **`IsaacPure`**: the pure engine. It covers `new_seed`, `srand`, the cursor of `rand` and its
  Float, Integer and Range results, `bytes`, `state`, `==` and `dup`.
- **`IsaacExt`**: the C glue around rand.h's `randctx`. It covers `srand`'s seed fill, `rand`'s
  argument conversion and cursor, `==`, `marshal_dump`/`marshal_load` and `bytes`. rand.h's
  `isaac()` and `randinit()` are not part of this model; they appear as function parameters
  that keep a context well-formed.

Differences between the implementations that the model makes explicit:

| | pure Ruby (pure.rb) | C extension (isaac.c) |
|---|---|---|
| cursor | refills on 1, reads `randrsl[255]` .. `randrsl[1]` | refills on 0, reads all 256 words |
| Float | `(w / 2^29) % 1` (low 29 bits) | `w / 2^32` |
| argument errors | cursor already moved | state untouched |
| `rand(0)` | ZeroDivisionError | a Float |
| `rand(nil)` | a Float, as `rand()` | TypeError from `NUM2ULONG(nil)` |
| limit | any Integer, Ruby `%` | truncated to 32 bits |
| `bytes` words | `rand(2^32 - 1)`: never FF FF FF FF | raw words |
| seed fill from a PRNG | draw t at index t | draw t at index 255 - t |

Both engines compute `min + w % (max - min)` for a Range. So `rand(3..12)` lies in [3, 12) and
never returns 12; the gem's tests expect exactly that. The first scrambling mix of the pure
`randinit` (pure.rb:191) shifts `b` left by 1. Every other mix, like the published ISAAC
initialiser, shifts it by 11. The model follows the code.

## Model

| member | source | states |
|---|---|---|
| RubyValues.FloorMod | lib/crypt/isaac/pure.rb:116 | Ruby's `w % n`: the result has the sign of n, lies below \|n\|, and n divides w minus it |
| RubyValues.FloorModCongruent | lib/crypt/isaac/pure.rb:116 | w is a multiple of n plus `w % n` |
| RubyValues.RangeMin | lib/crypt/isaac/pure.rb:118 | `Range#min` is nil exactly for an empty range, otherwise the first element |
| RubyValues.RangeMax | lib/crypt/isaac/pure.rb:118 | `Range#max` is nil exactly for an empty range, otherwise the last element (one less for `...`) |
| RubyValues.ToULong | ext/crypt/isaac/isaac.c:113 | `NUM2ULONG` succeeds exactly on [-2^63, 2^64); the result is congruent to the Integer mod 2^64 and equal to it when not negative |
| RubyValues.LeBytesRoundTrip | lib/crypt/isaac/pure.rb:135 | `pack('L').unpack('aaaa')` loses nothing: the word reads back from its four octets |
| RubyValues.LeBytesInjective | lib/crypt/isaac/pure.rb:135 | distinct words pack to distinct octets |
| RubyValues.Pack | ext/crypt/isaac/isaac.c:206-209 | packing n words gives 4n octets, word j at octets 4j .. 4j + 3, least significant first |
| RubyValues.PackSnoc | ext/crypt/isaac/isaac.c:198-210 | packing one more word appends its four octets |
| XorshiftPure.Srand | lib/crypt/isaac/xorshift/pure.rb:22-25 | the old state moves to `@old_seed`; the new state is the seed reduced mod 2^64 and is returned |
| XorshiftPure.New | lib/crypt/isaac/xorshift/pure.rb:10-13 | a new generator's state is below 2^64 and `seed` reports it |
| XorshiftPure.Rand | lib/crypt/isaac/xorshift/pure.rb:27-36 | an Integer draw happens exactly when n >= 1 and is `scramble % n` below n; otherwise a Float draw from the scrambled state; `seed` is unchanged |
| XorshiftPure.Draws | lib/crypt/isaac/xorshift/pure.rb:27-36 | one answer per call, `seed` unchanged |
| XorshiftPure.NewReducesSeed | lib/crypt/isaac/xorshift/pure.rb:10-13 | after `new(k)` the state and `seed` are both k mod 2^64 |
| XorshiftPure.EqNewIff | lib/crypt/isaac/xorshift/pure.rb:42-44 | two new generators are `==` exactly when their seeds agree mod 2^64 |
| XorshiftPure.DistinctSeedsUnequal | test/crypt/xorshift_test.rb:49-52 | `new(123) != new(124)` |
| XorshiftPure.SameSeedSameDraws | test/crypt/xorshift_test.rb:39-47 | seeds equal mod 2^64 give the same answers to any calls |
| XorshiftPure.DrawsBelow | test/crypt/xorshift_test.rb:12-19 | every call with a limit n >= 1 answers an Integer below n |
| XorshiftPure.ShuffleZero | lib/crypt/isaac/xorshift/pure.rb:28-30 | the three xorshift steps keep 0 at 0 |
| XorshiftPure.ZeroStateStaysZero | lib/crypt/isaac/xorshift/pure.rb:27-36 | from state 0, the state stays 0 and every answer is 0 |
| XorshiftPure.ZeroSeedAllZero | lib/crypt/isaac/xorshift/pure.rb:22-36 | a seed divisible by 2^64 makes every answer 0 |
| XorshiftPure.FirstStepBound | lib/crypt/isaac/xorshift/pure.rb:28 | `s ^= s >> 12` keeps a 64-bit state below 2^64 |
| XorshiftPure.EscapedBitsAre | lib/crypt/isaac/xorshift/pure.rb:28-29 | the bits that `s << 25` pushes past 2^64 are those of the first step from bit 39 up |
| XorshiftPure.EscapedBits | lib/crypt/isaac/xorshift/pure.rb:28-29 | those bits number fewer than 25 and are all 0 exactly when the state is below 2^39 |
| XorshiftPure.ShuffleEscapes | lib/crypt/isaac/xorshift/pure.rb:28-30 | a draw from a 64-bit state leaves a state of 2^64 or more exactly when the state was at least 2^39 |
| XorshiftPure.StateGrowsPast64Bits | lib/crypt/isaac/xorshift/pure.rb:22-30 | for seeds in [2^39, 2^64) the state after one draw exceeds 64 bits |
| XorshiftExt.Srand | ext/crypt/isaac/xorshift/xorshift.c:58-75 | `@old_seed` takes the old state even when the conversion raises; succeeds exactly on [-2^63, 2^64), storing the seed's 64-bit pattern and returning the seed; RangeError otherwise, state unchanged |
| XorshiftExt.New | ext/crypt/isaac/xorshift/xorshift.c:21-34 | `new(seed)` succeeds exactly on [-2^63, 2^64), RangeError otherwise |
| XorshiftExt.Rand | ext/crypt/isaac/xorshift/xorshift.c:77-100 | raises exactly when the limit does not convert; a nonzero 64-bit limit gives an Integer below it, no limit or a zero pattern a Float; `seed` unchanged |
| XorshiftExt.Draws | ext/crypt/isaac/xorshift/xorshift.c:77-100 | one answer per call when none raises |
| XorshiftExt.NewKeepsSeed | ext/crypt/isaac/xorshift/xorshift.c:21-34 | after `new(k)` the state is k mod 2^64 while `seed` returns k itself |
| XorshiftExt.NegativeSeedReadsBack | ext/crypt/isaac/xorshift/xorshift.c:31-32 | `new(-1)` holds state 2^64 - 1 and reports seed -1 |
| XorshiftExt.EqNewIff | ext/crypt/isaac/xorshift/xorshift.c:106-108 | two new generators are `==` exactly when their seed arguments are equal as values; Bignum identity is under Left out |
| XorshiftExt.ShuffleZero | ext/crypt/isaac/xorshift/xorshift.c:90-92 | the 64-bit xorshift steps keep 0 at 0 |
| XorshiftExt.ZeroStateStaysZero | ext/crypt/isaac/xorshift/xorshift.c:77-100 | from state 0, every answer is 0 |
| XorshiftExt.DrawsWithin | ext/crypt/isaac/xorshift/xorshift.c:84-98 | limits in [1, 2^64) never raise and each answer is an Integer below its limit |
| XorshiftExt.DrawsDependOnState | ext/crypt/isaac/xorshift/xorshift.c:77-100 | the answers depend on nothing but the 64-bit state |
| XorshiftCompare.ScrambleInjective | ext/crypt/isaac/xorshift/xorshift.c:93 | multiplying by 2685821657736338717 mod 2^64 is one-to-one |
| XorshiftCompare.ScrambleLow | lib/crypt/isaac/xorshift/pure.rb:32-34 | the pure output depends only on the state mod 2^64 |
| XorshiftCompare.SameScrambleSameLow | lib/crypt/isaac/xorshift/pure.rb:32-34 | the two outputs agree exactly when the states agree mod 2^64 |
| XorshiftCompare.ExtFromLow | ext/crypt/isaac/xorshift/xorshift.c:90-92 | the C steps are the third step applied to the low 64 bits of the first two |
| XorshiftCompare.LowOfShifted | lib/crypt/isaac/xorshift/pure.rb:30 | the low 64 bits of `x >> 27` for an x of fewer than 91 bits |
| XorshiftCompare.ThirdStepLow | lib/crypt/isaac/xorshift/pure.rb:30 | the low 64 bits after `x ^= x >> 27` |
| XorshiftCompare.PureLow | lib/crypt/isaac/xorshift/pure.rb:28-30 | the low 64 bits of the pure state after one draw |
| XorshiftCompare.ShuffleByTwo | lib/crypt/isaac/xorshift/pure.rb:28-30 | the pure steps are the third step after the first two |
| XorshiftCompare.EscapedBelow27 | lib/crypt/isaac/xorshift/pure.rb:28-29 | fewer than 27 bits escape past 2^64 |
| XorshiftCompare.XorDecide | lib/crypt/isaac/xorshift/pure.rb:30 | `c ^ (lo + hi)` equals `c ^ lo` exactly when hi is 0 |
| XorshiftCompare.FirstDrawAgreesIff | ext/crypt/isaac/xorshift/xorshift.c:90-93 | from a 64-bit state, the two first outputs are equal exactly when the state is below 2^39 |
| XorshiftCompare.FirstRandAgreesIff | lib/crypt/isaac/xorshift/pure.rb:10-36 | seeded alike with a 64-bit seed, the first `rand` of the two implementations comes from the same value exactly when the seed is below 2^39 |
| IsaacMix.MixSpelled | lib/crypt/isaac/pure.rb:211-218 | the eight spelled-out statements of the mix compute the table-driven `Mix` |
| IsaacMix.MixLines01 | lib/crypt/isaac/pure.rb:211-212 | lines 0 and 1 of the mix |
| IsaacMix.MixLines23 | lib/crypt/isaac/pure.rb:213-214 | lines 2 and 3 of the mix |
| IsaacMix.MixLines45 | lib/crypt/isaac/pure.rb:215-216 | lines 4 and 5 of the mix |
| IsaacMix.MixLines67 | lib/crypt/isaac/pure.rb:217-218 | lines 6 and 7 of the mix |
| IsaacMix.MaskedShrWord | lib/crypt/isaac/pure.rb:192 | `mask & (x >> s)` is a 32-bit word |
| IsaacMix.LineWords | lib/crypt/isaac/pure.rb:211-218 | a 32-bit line maps words to words |
| IsaacMix.LinesWords | lib/crypt/isaac/pure.rb:211-218 | so do the first n lines |
| IsaacMix.MixWords | lib/crypt/isaac/pure.rb:211-218 | the 32-bit mix maps words to words |
| IsaacMix.TwistAgrees | lib/crypt/isaac/pure.rb:211-218 | the value a line xors in agrees mod 2^32 between unbounded and 32-bit accumulators |
| IsaacMix.AddAgrees | lib/crypt/isaac/pure.rb:211-218 | `s[k] += s[i]` keeps unbounded and 32-bit accumulators in agreement |
| IsaacMix.LineAgrees | lib/crypt/isaac/pure.rb:211-218 | one line keeps them in agreement |
| IsaacMix.LinesAgree | lib/crypt/isaac/pure.rb:211-218 | the first n lines keep them in agreement |
| IsaacMix.MixAgrees | lib/crypt/isaac/pure.rb:211-218 | the Ruby mix on unbounded Integers agrees mod 2^32 with the 32-bit mix |
| IsaacRound.Index | lib/crypt/isaac/pure.rb:159-160 | `(v >> s) & 255` is an index into `mm` |
| IsaacRound.Step | lib/crypt/isaac/pure.rb:157-161 | one step writes 32-bit `aa`, `bb` and `mm[i]`, sets `randrsl[i]` to `bb`, and changes no other entry |
| IsaacRound.StepsNext | lib/crypt/isaac/pure.rb:156-182 | step n follows steps 0 .. n - 1 |
| IsaacRound.IsaacLoop | lib/crypt/isaac/pure.rb:149-183 | the loop of `isaac` computes the round |
| IsaacRound.StepsFrame | lib/crypt/isaac/pure.rb:156-182 | after n steps entries below n are words, entries from n on are untouched |
| IsaacRound.IsaacWords | lib/crypt/isaac/pure.rb:149-183 | after `isaac`, `mm`, `randrsl`, `aa` and `bb` hold 32-bit words |
| IsaacRound.CongruentXor | lib/crypt/isaac/pure.rb:158 | xor respects agreement mod 2^32 |
| IsaacRound.CongruentTwist | lib/crypt/isaac/pure.rb:158-178 | the four `aa` twists respect agreement mod 2^32 |
| IsaacRound.CongruentShl | lib/crypt/isaac/pure.rb:158 | left shifts respect agreement mod 2^32 |
| IsaacRound.CongruentMaskedShr | lib/crypt/isaac/pure.rb:165 | a masked right shift reads only the low 32 bits |
| IsaacRound.CongruentSum | lib/crypt/isaac/pure.rb:159 | sums respect agreement mod 2^32 |
| IsaacRound.CongruentIndex | lib/crypt/isaac/pure.rb:159-160 | an index reads only the low 32 bits |
| IsaacRound.StepAa | lib/crypt/isaac/pure.rb:158 | the new `aa` depends only on the low 32 bits of the memory |
| IsaacRound.StepY | lib/crypt/isaac/pure.rb:159 | so does the word stored in `mm[i]` |
| IsaacRound.StepBb | lib/crypt/isaac/pure.rb:160 | so does the new `bb` |
| IsaacRound.StepCongruent | lib/crypt/isaac/pure.rb:157-161 | one step keeps memories congruent and writes equal values into both |
| IsaacRound.StepExtends | lib/crypt/isaac/pure.rb:156-182 | one step on memories equal below n - 1 (and congruent elsewhere) leaves them equal below n |
| IsaacRound.StepsCongruent | lib/crypt/isaac/pure.rb:156-182 | after n steps entries below n, `aa` and `bb` are equal on both sides |
| IsaacRound.IsaacCongruent | lib/crypt/isaac/pure.rb:149-183 | memories equal mod 2^32 give equal `mm`, `randrsl`, `aa`, `bb` after `isaac` |
| IsaacRound.Reduce | lib/crypt/isaac/pure.rb:154 | reducing every value mod 2^32 gives 32-bit tables |
| IsaacRound.IsaacOnWords | lib/crypt/isaac/pure.rb:149-183 | the unbounded round computes what the round on the reduced memory computes |
| IsaacInit.RandInitWords | lib/crypt/isaac/pure.rb:185-246 | after `randinit`, `mm`, `randrsl`, `aa` and `bb` are 32-bit words |
| IsaacInit.PassOverwrites | lib/crypt/isaac/pure.rb:202-222 | a pass that does not read `mm` writes the same first 8n entries from any `mm` and leaves the rest |
| IsaacInit.FirstPassIgnoresMm | lib/crypt/isaac/pure.rb:202-222 | so the first pass does not depend on the `mm` it starts from |
| IsaacInit.ScrambledAgree | lib/crypt/isaac/pure.rb:188-200 | the unbounded scramble agrees mod 2^32 with the 32-bit one |
| IsaacInit.AddWordsAgree | lib/crypt/isaac/pure.rb:205-208 | adding seed words keeps accumulators in agreement |
| IsaacInit.WriteBlockAgree | lib/crypt/isaac/pure.rb:219-220 | storing a block keeps `mm` in agreement |
| IsaacInit.PassAgree | lib/crypt/isaac/pure.rb:202-241 | each pass on unbounded accumulators agrees mod 2^32 with the 32-bit pass |
| IsaacInit.LowWords | lib/crypt/isaac/pure.rb:205-208 | the low 32 bits of the seed words agree with them |
| IsaacInit.SeededAgree | lib/crypt/isaac/pure.rb:188-241 | the Ruby passes agree mod 2^32 with 32-bit passes on the low seed words |
| IsaacInit.PassesAgree | lib/crypt/isaac/pure.rb:202-241 | both passes, from agreeing accumulators, agree |
| IsaacInit.FinalRoundAgrees | lib/crypt/isaac/pure.rb:244 | the closing `isaac` of tables that agree mod 2^32 gives equal `mm`, `randrsl`, `aa`, `bb` |
| IsaacInit.RandInitOnWords | lib/crypt/isaac/pure.rb:185-246 | `randinit` on unbounded Integers equals a 32-bit `randinit` of the seed words mod 2^32 |
| IsaacPure.XorshiftDraws | lib/crypt/isaac/pure.rb:63-68 | 256 answers of `Xorshift64Star#rand(2^32)`, each a 32-bit word |
| IsaacPure.NewSeed | lib/crypt/isaac/pure.rb:36-71 | 256 entries: an array's first min(length, 256) entries then zeros; an Integer seed gives 32-bit words |
| IsaacPure.Srand | lib/crypt/isaac/pure.rb:94-99 | the engine is valid, the cursor is 256, `@seed` and the return value are the seed array, `cc` is 1 |
| IsaacPure.Advance | lib/crypt/isaac/pure.rb:108-112 | the cursor moves down by one; at 1 the round runs and the cursor becomes 255 |
| IsaacPure.Fraction | lib/crypt/isaac/pure.rb:114 | `(w / 2^29) % 1` lies in [0, 1) and differs from w / 2^29 by a whole number |
| IsaacPure.Rand | lib/crypt/isaac/pure.rb:107-122 | the cursor moves first, whatever the argument, and the answer is extracted from the word it then points at |
| IsaacPure.Extract | lib/crypt/isaac/pure.rb:113-121 | no argument or nil gives the Float; an Integer or Float n gives Ruby's `w % n` and raises exactly for 0; a Range gives `min + w % (max - min)` in [min, max), NoMethodError when empty, ZeroDivisionError for one element |
| IsaacPure.AdvanceN | lib/crypt/isaac/pure.rb:108-112 | n cursor steps keep the engine valid |
| IsaacPure.Draws | lib/crypt/isaac/pure.rb:107-122 | n calls give n answers and move the cursor n times |
| IsaacPure.ByteWords | lib/crypt/isaac/pure.rb:134-135 | n calls of `rand(2^32 - 1)` give n values below 2^32 - 1 |
| IsaacPure.Bytes | lib/crypt/isaac/pure.rb:132-146 | `bytes(size)` has size octets and takes (size + 3) / 4 words; a negative size gives `size % 4` octets |
| IsaacPure.AdvanceSplit | lib/crypt/isaac/pure.rb:108-112 | n + m cursor steps are n steps then m |
| IsaacPure.CursorAfter | lib/crypt/isaac/pure.rb:108-112 | after n >= 1 calls the cursor is 1 + (c - 1 - n) mod 255 |
| IsaacPure.NoRefillBeforeOne | lib/crypt/isaac/pure.rb:108-112 | fewer calls than the cursor leave the memory alone |
| IsaacPure.FirstBatch | lib/crypt/isaac/pure.rb:107-122 | after seeding, call n + 1 reads `randrsl[255 - n]`, and 256 calls run the round exactly once |
| IsaacPure.NeverReadsFirst | lib/crypt/isaac/pure.rb:108-112 | `rand` never reads `randrsl[0]` |
| IsaacPure.StateIgnoresArgument | lib/crypt/isaac/pure.rb:107-112 | the state moves alike whatever the argument, even when it raises |
| IsaacPure.IntegerBound | test/isaac_shared.rb:52-57 | `rand(n)` for n > 0 is an Integer in [0, n) |
| IsaacPure.RangeBound | test/isaac_shared.rb:80-85 | `rand(3..12)` is in [3, 12) |
| IsaacPure.BytesGroups | lib/crypt/isaac/pure.rb:132-146 | `bytes` is the packed words, each group the four octets of one `rand(2^32 - 1)`, followed by the first `size % 4` octets of one more draw |
| IsaacPure.BytesNeverAllOnes | lib/crypt/isaac/pure.rb:135 | no whole group of four octets is FF FF FF FF |
| IsaacPure.EqIff | lib/crypt/isaac/pure.rb:128-130 | `==` holds exactly when `randrsl` and the cursor are equal |
| IsaacPure.EqSameUntilRefill | lib/crypt/isaac/pure.rb:128-130 | `==` engines answer alike, and stay `==`, until a refill |
| IsaacPure.NilIsFloat | lib/crypt/isaac/pure.rb:113-114 | `rand(nil)` is `rand()`, a Float |
| IsaacPure.CopyAnswersAlike | test/isaac_shared.rb:171-183 | a copy is `==` to its original and answers every call alike |
| IsaacPure.SameSeedSameEngine | test/isaac_shared.rb:127-135 | equal seed arrays give `==` engines that answer alike |
| IsaacPure.IntegerSeedModulo | lib/crypt/isaac/pure.rb:60-68 | Integer seeds equal mod 2^64 give the same seed array |
| IsaacPure.SrandOnWords | lib/crypt/isaac/pure.rb:94-99 | the seeded memory is a 32-bit `randinit` of the seed words mod 2^32 |
| IsaacExt.Advance | ext/crypt/isaac/isaac.c:116-120 | the cursor post-decrements; at 0 `isaac` refills and the cursor becomes 255 |
| IsaacExt.AdvanceN | ext/crypt/isaac/isaac.c:116-120 | cursor steps keep the context readable |
| IsaacExt.ToLimit | ext/crypt/isaac/isaac.c:102-114 | no argument gives limit 0; an explicit nil raises TypeError; an Integer or Float converts with `NUM2ULONG` and is cut to 32 bits; an empty Range raises TypeError, otherwise max - min cut to 32 bits |
| IsaacExt.RangeLimit | ext/crypt/isaac/isaac.c:110-111 | the difference of two converted bounds, cut to 32 bits, is (max - min) mod 2^32; RangeError when a bound does not convert |
| IsaacExt.Truncated | ext/crypt/isaac/isaac.c:113 | the 32-bit limit is the Integer mod 2^32; RangeError when it does not convert |
| IsaacExt.WrappedDifference | ext/crypt/isaac/isaac.c:111 | unsigned 64-bit subtraction cut to 32 bits is the difference mod 2^32 |
| IsaacExt.RangeSumAsWritten | ext/crypt/isaac/isaac.c:125 | the unsigned sum raises exactly when min does not convert |
| IsaacExt.Rand | ext/crypt/isaac/isaac.c:92-129 | raises exactly when the argument does not convert, leaving the context; limit 0 gives the Float w / 2^32; otherwise a value in [min, min + limit) congruent to w |
| IsaacExt.CompareCtx | ext/crypt/isaac/isaac.c:172-179 | the loop answers true exactly when the two `randrsl` are equal |
| IsaacExt.Dump | ext/crypt/isaac/isaac.c:131-145 | 516 words: cursor, `randrsl`, `randmem`, a, b, c |
| IsaacExt.FromWords | ext/crypt/isaac/isaac.c:157-159 | 516 words make a well-formed context |
| IsaacExt.Stored | ext/crypt/isaac/isaac.c:158 | a stored entry converts exactly when `NUM2ULONG` accepts it, as the entry mod 2^32 |
| IsaacExt.FirstBad | ext/crypt/isaac/isaac.c:157-159 | the first entry `NUM2ULONG` rejects, all before it accepted |
| IsaacExt.LoadedWords | ext/crypt/isaac/isaac.c:158 | every entry as a 32-bit word |
| IsaacExt.Load | ext/crypt/isaac/isaac.c:147-162 | a wrong length raises ArgumentError and changes nothing; otherwise entries are stored up to the first bad one, which raises RangeError |
| IsaacExt.StoreWords | ext/crypt/isaac/isaac.c:157-159 | the store loop stops at the first rejected entry, having stored those before it |
| IsaacExt.LoadStep | ext/crypt/isaac/isaac.c:158 | storing entry i extends the loaded prefix |
| IsaacExt.DumpFromWords | ext/crypt/isaac/isaac.c:131-162 | loading a dump gives the context back |
| IsaacExt.FromWordsDump | ext/crypt/isaac/isaac.c:131-162 | dumping a loaded context gives the words back |
| IsaacExt.MarshalRoundTrip | test/isaac_shared.rb:163-169 | `Marshal.load(Marshal.dump(g))` is the same context |
| IsaacExt.NoBadWords | ext/crypt/isaac/isaac.c:141 | a dump has no entry that `marshal_load` rejects |
| IsaacExt.CWords | ext/crypt/isaac/isaac.c:198-203 | n cursor steps read n 32-bit words |
| IsaacExt.Store4 | ext/crypt/isaac/isaac.c:206-209 | the four stores put the word's octets at i .. i + 3 and nothing else |
| IsaacExt.Bytes | ext/crypt/isaac/isaac.c:191-213 | `bytes(count)` is the first count octets of the packed words read by (count + 3) / 4 cursor steps |
| IsaacExt.StoreNext | ext/crypt/isaac/isaac.c:198-210 | one turn of the loop extends the packed prefix by the next word |
| IsaacExt.StoreStep | ext/crypt/isaac/isaac.c:206-209 | the four stores extend the packed prefix |
| IsaacExt.AdvanceSnoc | ext/crypt/isaac/isaac.c:116-120 | n + 1 cursor steps are n steps then one |
| IsaacExt.FillDownward | ext/crypt/isaac/isaac.c:80-82 | `randrsl[j]` is seed draw 255 - j, as a 32-bit word |
| IsaacExt.Srand | ext/crypt/isaac/isaac.c:54-84 | seeding from a zeroed context leaves a readable one |
| IsaacExt.XorshiftDraws | ext/crypt/isaac/isaac.c:74-82 | the Integer seed converts exactly on [-2^63, 2^64), giving 256 words |
| IsaacExt.CursorAfter | ext/crypt/isaac/isaac.c:116-120 | after n >= 1 calls the cursor is (c - n) mod 256 |
| IsaacExt.NilRaises | ext/crypt/isaac/isaac.c:104-113 | `rand(nil)` raises TypeError and leaves the context alone, while `rand()` succeeds |
| IsaacExt.ZeroLimitIsFloat | ext/crypt/isaac/isaac.c:122-123 | `rand(0)` gives a Float, not an error |
| IsaacExt.LimitTruncated | ext/crypt/isaac/isaac.c:93-113 | `rand(2^32 + 5)` is `rand(5)` |
| IsaacExt.IntegerBound | ext/crypt/isaac/isaac.c:126-127 | `rand(n)` for 1 <= n < 2^32 is in [0, n) |
| IsaacExt.RangeBound | ext/crypt/isaac/isaac.c:106-125 | `rand(min..max)` with 0 < max - min < 2^32 is in [min, max), also for a negative min |
| IsaacExt.OneElementRangeIsFloat | ext/crypt/isaac/isaac.c:111-123 | a one-element range gives limit 0, hence a Float |
| IsaacExt.RangeSumAgreesWhenNonNegative | ext/crypt/isaac/isaac.c:125 | for min >= 0 the unsigned sum is min + k |
| IsaacExt.NegativeRangeWraps | ext/crypt/isaac/isaac.c:125 | for min = -5, k = 0 the unsigned sum is 2^64 - 5, not -5 |
| IsaacExt.FillReversed | ext/crypt/isaac/isaac.c:80-82 | the C fill is the pure fill reversed |
| IsaacExt.BytesOfAllOnes | ext/crypt/isaac/isaac.c:206-209 | a word of all ones packs to FF FF FF FF |

## Left out

- Entropy devices: the `true`/`false` seeds read `/dev/urandom` or `/dev/random`. Reading a
  device is I/O and is not modelled.
- Time-based seeds: `Xorshift64Star#new_seed`, which mixes the clock, the process id and a
  counter, is not modelled. Neither are the paths that call it (no seed, or a nil seed in the C
  `srand`).
- Xorshift Floats: a Float draw is represented by the 64-bit value it divides. The
  floating-point division, with its rounding, is left out.
- rand.h is not part of this model. The C `isaac()` and `randinit()` are parameters that keep a
  context well-formed, so `IsaacExt.Srand` states only readability.
- `randctx` is assumed to use the standard rand.h layout: cursor, `randrsl`, `randmem`, a, b, c,
  516 words on a 64-bit machine.
- Object identity: the class-name comparison of `==`, `respond_to?` dispatch, and `to_i` on
  arbitrary objects are not modelled. Float arguments are modelled by their truncation.
- Seed entries: the seed entries of an array are natural numbers. Negative or non-Integer
  entries are not modelled.
- Class-level API: `DEFAULT` and the class-level `rand`/`srand` are not modelled. They delegate
  to one instance.
- The C `seed`/`new_seed` accessors: these read instance variables and are not modelled.
- The C `srand` return value: the `@seed` value it returns (the seed argument, or what the
  xorshift reports) is not modelled.
- Pure-engine marshalling: Ruby's default `Marshal` of the pure engine (all instance variables)
  is not modelled. `dup` is, via `initialize_copy`.
- IsaacExt.Bytes: does not model a negative count. `NUM2ULL` turns it into a count near 2^64,
  and the variable-length buffer of that size cannot exist.
- IsaacExt.Rand: adds min in signed arithmetic, not in the unsigned arithmetic of the source
  (see Findings). It requires a cursor of at most 256, because a larger one, which
  `marshal_load` accepts, makes the source read outside `randrsl`.
- IsaacPure.Copy: an engine is an immutable value, so the copy `dup` makes is the same value.
  In-place updates of `mm` and `randrsl`, and the aliasing that `initialize_copy`'s `.dup` of
  those arrays prevents, are not modelled. The independence of a copy from its original holds
  in the model by construction, not by proof.
- XorshiftExt.Eq: compares seed values. The C `==` (xorshift.c:107) compares the two seed
  `VALUE`s by identity, which for Fixnums is equality of value but for Bignums (seeds outside
  [-2^62, 2^62) on a 64-bit machine) is object identity: two generators built from distinct but equal
  Bignums compare unequal in the source and equal in the model.
- IsaacPure.Bytes: assumes a little-endian machine. `pack('L')` (pure.rb:135, 140) packs in
  native byte order, and the model packs with `LeBytes`; `IsaacPure.BytesGroups` and
  `IsaacPure.BytesNeverAllOnes` rest on the same assumption. The C `bytes` does not: it shifts
  the octets out explicitly (isaac.c:206-209).
- IsaacRound.IsaacLoop: one step per iteration. The source unrolls the loop four times, which
  computes the same steps.
- Xorshift in ISAAC seeding: the `Xorshift64Star` used to seed the pure engine is the pure one,
  and the one used by the C engine is the C one. The gem loads whichever is available.

## Findings

| source | as written | input that shows it | evidently intended | confidence | as-written member | corrected member |
|---|---|---|---|---|---|---|
| ext/crypt/isaac/isaac.c:125 | `ULONG2NUM(NUM2ULONG(val_min) + w % limit)` adds in `unsigned long`, so a negative `min` wraps | `rand(-5..5)` reading a word w with w % 10 == 0 returns 2^64 - 5 | `min + w % limit`, a value in [min, max) | high, not executed | IsaacExt.RangeSumAsWritten, IsaacExt.NegativeRangeWraps | IsaacExt.RangeSum, IsaacExt.RangeBound |
