# PCG32 for Java, modelled in Dafny

This project models the Java port of the minimal PCG32 random number generator
(a 64-bit linear congruential generator whose old state is permuted into a
32-bit output by PCG-XSH-RR). It covers:

- the mutable generator record `pcg32_random_t`: two 64-bit words, the
  accumulator `state` and the stream selector `inc`, with its two constructors
  and `sizeof()`;
- the engine `pcg_basic`, which has three operations:
  - seeding (`pcg32_srandom_r`);
  - the step (`pcg32_random_r`), which advances the accumulator and returns
    the permutation of its old value;
  - the rejection-sampling bounded draw (`pcg32_boundedrand_r`);
- the static default instance `pcg32_global`, with the wrappers that delegate
  to it.

Files:

- `pcg32_state.dfy`, module `Pcg32State`: the class `Pcg32Random` with two
  `bv64` fields.
- `pcg_basic.dfy`, module `PcgBasic`: the engine.
  - The methods `SRandomR`, `RandomR` and `BoundedRandR` update a
    `Pcg32Random` in place.
  - The functions `Advance`, `Iterate`, `Output`, `SeedInc` and `SeedState`
    give the closed forms those methods are proved against.
  - The class `Global` holds the default instance and its wrappers.

Java's `long` arithmetic is `bv64` arithmetic: `*` and `+` wrap modulo 2^64,
and `>>>` is a logical shift. Java `int` values appear in two forms:

- As the 32-bit pattern (`bv32`) the step produces.
- As `int32` where Java compares or divides them as signed numbers.
  - `ToInt32` reads a pattern as a two's complement value.
  - `Negate` is Java's wrapping unary minus.
  - `JavaRem` is Java's truncating `%`. Its remainder has the sign of the
    dividend. It is defined against an independent truncating quotient,
    `JavaDiv`.

The comment in `pcg32_boundedrand_r` describes the C original's unsigned
threshold, `(0x100000000 - bound) % bound`, and an unsigned comparison
`r >= threshold`. The Java code at `pcg_basic.java:92` computes the signed
`-bound % bound` on `int` instead, which is 0 for every nonzero bound. It then
compares `r >= 0` signed at line 103, so it accepts exactly the outputs whose
top bit is clear, and it returns the signed remainder `r % bound`. The model
keeps exactly that behaviour: `Threshold`, `Accepts` and `AcceptedInRange`
state it. As a consequence, a negative `bound` is not an error: it yields a
value in `[0, -bound)`. A zero `bound` throws `ArithmeticException` at the
threshold, before any output is drawn. The model returns this as the outcome
`DivisionByZero` and leaves the generator untouched.

The zero threshold also means that the bias removal promised by the comment
("make the range of the RNG a multiple of bound") does not happen. The
accepted outputs are the 2^31 values in `[0, 2^31)`, and that is a multiple
of `bound` only when `abs(bound)` is a power of two. For example, with
`bound = 2^30 + 1` the residues below `2^30 - 1` each come from two accepted
outputs, while residues `2^30 - 1` and `2^30` each come from one. See
"## Findings".

## Model

| member | source | states |
|---|---|---|
| Pcg32State.Pcg32Random.constructor | PCG-Java-master/src/main/java/pcg/pcg32_random_t.java:34-35 | The no-argument constructor leaves `state` and `inc` at zero, so `inc` is not odd until the object is seeded. |
| Pcg32State.Pcg32Random.Init | PCG-Java-master/src/main/java/pcg/pcg32_random_t.java:37-40 | The two-argument constructor stores exactly the given `state` and `inc` and checks nothing. `inc` is odd exactly when the given word is odd. |
| Pcg32State.Pcg32Random.SizeOf | PCG-Java-master/src/main/java/pcg/pcg32_random_t.java:42-44 | `sizeof()` is the byte count of two 64-bit words, 16. |
| PcgBasic.Advance | PCG-Java-master/src/main/java/pcg/pcg_basic.java:64 | The LCG step `s * 6364136223846793005 + inc` modulo 2^64, which every method contract is stated against. The multiplier is odd, so the low bit of the next state is the XOR of the low bits of `s` and `inc`. |
| PcgBasic.Iterate | PCG-Java-master/src/main/java/pcg/pcg_basic.java:101-106 | The state after `n` steps, as the rejection loop repeats them. On an odd stream its low bit flips at every step (period two), proved by induction through its recursive call's contract. |
| PcgBasic.IterateAdd | PCG-Java-master/src/main/java/pcg/pcg_basic.java:64 | Advancing the accumulator `m + n` times is the same as advancing it `m` times and then `n` times (proved by induction). |
| PcgBasic.XorShifted | PCG-Java-master/src/main/java/pcg/pcg_basic.java:65 | The xorshift is the low 32 bits of `(old >>> 27) ^ (old >>> 45)`. |
| PcgBasic.Rotation | PCG-Java-master/src/main/java/pcg/pcg_basic.java:66 | The rotation amount `old >>> 59` lies in [0, 31]. |
| PcgBasic.RotateRight32 | PCG-Java-master/src/main/java/pcg/pcg_basic.java:67 | The two-shift expression leaves its argument unchanged for a rotation of 0. |
| PcgBasic.RotateRight32Bits | PCG-Java-master/src/main/java/pcg/pcg_basic.java:67 | The two-shift expression is a true rotate right: bit `i` of the result is bit `(i + rot) mod 32` of the xorshift, for every `i`. |
| PcgBasic.Output | PCG-Java-master/src/main/java/pcg/pcg_basic.java:65-67 | The output is a function of the pre-advance accumulator alone. When the rotation is 0 it equals the xorshift. |
| PcgBasic.Outputs | PCG-Java-master/src/main/java/pcg/pcg_basic.java:62-68 | A stream of `n` outputs has length `n`, and output `k` is the permutation of the accumulator after `k` advances. |
| PcgBasic.OutputsResume | PCG-Java-master/src/main/java/pcg/pcg_basic.java:62-68 | A stream resumes exactly: after `m` outputs, a generator holding the state reached by then produces the rest of the stream. |
| PcgBasic.SeedInc | PCG-Java-master/src/main/java/pcg/pcg_basic.java:49 | The seeded stream selector, `initseq << 1` with bit 0 set, is odd for every `initseq`. |
| PcgBasic.SeedIncKeepsLowBits | PCG-Java-master/src/main/java/pcg/pcg_basic.java:49 | Above bit 0 the selector holds the low 63 bits of `initseq`. Flipping the top bit of `initseq` selects the same stream. |
| PcgBasic.AddLong | PCG-Java-master/src/main/java/pcg/pcg_basic.java:51 | Java `long +=` in `rng.state += initstate` wraps modulo 2^64, as `bv64` `+` does. |
| PcgBasic.SeedState | PCG-Java-master/src/main/java/pcg/pcg_basic.java:48-52 | The zero reset, step, add and step come down to one advance from `inc + initstate`. |
| PcgBasic.SeedStepsCollapse | PCG-Java-master/src/main/java/pcg/pcg_basic.java:48-52 | The first step of seeding only moves the accumulator from 0 to `inc`. |
| PcgBasic.SeedStateClosedForm | PCG-Java-master/src/main/java/pcg/pcg_basic.java:48-52 | The seeded accumulator is `(inc + initstate) * 6364136223846793005 + inc` modulo 2^64. |
| PcgBasic.ToInt32 | PCG-Java-master/src/main/java/pcg/pcg_basic.java:102 | The `(int)` reading of an output is non-negative exactly when its top bit is clear, and it is congruent to the pattern modulo 2^32. |
| PcgBasic.Negate | PCG-Java-master/src/main/java/pcg/pcg_basic.java:92 | Java's `-bound` is the additive inverse modulo 2^32, so the least `int` is its own negation. |
| PcgBasic.JavaDiv | PCG-Java-master/src/main/java/pcg/pcg_basic.java:92 | Java's `/`, the independent reference for `JavaRem`: its magnitude is the largest `q` with `q * abs(b) <= abs(a)`, and a nonzero quotient is negative exactly when the signs of the operands differ (truncation toward zero). |
| PcgBasic.JavaRem | PCG-Java-master/src/main/java/pcg/pcg_basic.java:92 | Java's `%` satisfies `a == (a / b) * b + a % b` with a truncating `/`. The remainder is smaller than the divisor in magnitude and takes the sign of the dividend. |
| PcgBasic.Threshold | PCG-Java-master/src/main/java/pcg/pcg_basic.java:92 | The threshold `-bound % bound` is 0 for every nonzero `int` bound, `-2^31` included. |
| PcgBasic.Accepts | PCG-Java-master/src/main/java/pcg/pcg_basic.java:102-103 | The signed test `r >= threshold` accepts an output exactly when its unsigned value is below 2^31, whatever the bound. |
| PcgBasic.AcceptedInRange | PCG-Java-master/src/main/java/pcg/pcg_basic.java:103-104 | An accepted output reduced by `%` lies in `[0, abs(bound))`. For a positive bound it is the plain remainder of the output. |
| PcgBasic.JavaThresholdBiased | PCG-Java-master/src/main/java/pcg/pcg_basic.java:78-104 | As written, with `bound = 2^30 + 1` the 2^31 accepted outputs are not a multiple of the bound. Residue 0 comes from the two outputs 0 and `2^30 + 1`, and residue `2^30` only from `2^30`. |
| PcgBasic.UnsignedThreshold | PCG-Java-master/src/main/java/pcg/pcg_basic.java:78-90 | The C threshold `(2^32 - bound) mod bound` that the comment describes is below `bound`, and the outputs it accepts, `[t, 2^32)`, are a whole number of runs of `bound` values. |
| PcgBasic.RejectsOneMore | PCG-Java-master/src/main/java/pcg/pcg_basic.java:101-106 | A rejected output extends the run of rejected outputs by one. |
| PcgBasic.RandomR | PCG-Java-master/src/main/java/pcg/pcg_basic.java:62-68 | A step sets `state` to `old * 6364136223846793005 + inc` and leaves `inc` unchanged. It returns the permutation of the old `state` and keeps `inc` odd. |
| PcgBasic.SRandomR | PCG-Java-master/src/main/java/pcg/pcg_basic.java:47-53 | Seeding sets `inc` to `SeedInc(initseq)` and `state` to the seeded accumulator, whatever the object held before, and leaves `inc` odd. |
| PcgBasic.Bounded | PCG-Java-master/src/main/java/pcg/pcg_basic.java:77-107 | The outcomes of a bounded draw: a returned value, the `ArithmeticException` of a zero bound, or a draw cut off by the fuel. |
| PcgBasic.BoundedRandR | PCG-Java-master/src/main/java/pcg/pcg_basic.java:77-107 | A zero bound is the division-by-zero outcome with the state unchanged. A drawn value lies in `[0, abs(bound))`, is the Java remainder of the first accepted output, and follows exactly the rejected outputs before it, with one advance per output drawn; `inc` never changes (details after this table). |
| PcgBasic.KnownAnswer | PCG-Java-master/src/main/java/pcg/pcg_basic.java:47-68 | Seeding with (42, 54) gives the reference PCG32 outputs `a15c02b7 7b47f409 ba1d3330 83d2f293 bfa4784b cbed606e`. |
| PcgBasic.GlobalStream | PCG-Java-master/src/main/java/pcg/pcg_basic.java:40-41 | The default instance's `inc` is odd, and its stream begins `152ca78d 027c6003 cb07bbf3`. |
| PcgBasic.Global.constructor | PCG-Java-master/src/main/java/pcg/pcg_basic.java:40-41 | The static default instance starts at `state = 0x853c49e6748fea9b` and `inc = 0xda3e39cb94b95bdb`, and its `inc` is odd. |
| PcgBasic.Global.SRandom | PCG-Java-master/src/main/java/pcg/pcg_basic.java:55-57 | Seeds the default instance exactly as `SRandomR` does. |
| PcgBasic.Global.Random | PCG-Java-master/src/main/java/pcg/pcg_basic.java:70-72 | Steps the default instance exactly as `RandomR` does. |
| PcgBasic.Global.BoundedRand | PCG-Java-master/src/main/java/pcg/pcg_basic.java:109-111 | Draws from the default instance with the whole contract of `BoundedRandR`. |

`PcgBasic.BoundedRandR` states:

- A zero bound is the division-by-zero outcome, and the state is unchanged.
- `inc` is never changed.
- A drawn value lies in `[0, |bound|)`.
- If the draw succeeds after `tries` rejected outputs:
  - `state` has advanced exactly `tries + 1` times;
  - the first `tries` outputs failed the test and the next one passed;
  - the value is that output's Java remainder by `bound`.
- A draw cut off after `maxTries` outputs has advanced `state` exactly
  `maxTries` times, and every one of those outputs was rejected.

## Findings

| source | as written | input that shows it | evidently intended | confidence | as-written member | corrected member |
|---|---|---|---|---|---|---|
| PCG-Java-master/src/main/java/pcg/pcg_basic.java:92 | `-bound % bound` on signed `int` is 0, and the signed test accepts `[0, 2^31)`, which is not a multiple of most bounds | `bound = 2^30 + 1`: residue 0 has two accepted outputs, residue `2^30` has one | the C threshold `(2^32 - bound) mod bound` with an unsigned comparison, so that the accepted outputs are a multiple of `bound` (comment at lines 78-90) | not executed | PcgBasic.JavaThresholdBiased | PcgBasic.UnsignedThreshold |

`BoundedRandR` still models the Java loop as written, with its signed
threshold. `UnsignedThreshold` is the intended threshold, given alongside it
for comparison.

## Left out

- Statistical uniformity of outputs and of bounded draws: it is a probabilistic claim, not a property of any single run.
- BoundedRandR: the Java loop `for (;;)` has no exit other than an accepted output; the model bounds it by a fuel argument `maxTries` and reports `Exhausted` when the fuel runs out, because its termination holds only with probability 1. With fuel the contract covers every run the Java loop could take; nothing is claimed about how many tries are needed.
- Global.BoundedRand: carries the same fuel argument as `BoundedRandR`, for the same reason.
- The C original's unsigned comparison `r >= threshold` is not part of the model of the loop: `BoundedRandR` keeps the Java's signed test and zero threshold, and only the unsigned threshold itself is given, as `UnsignedThreshold` under "## Findings".
- Thread safety of the shared default instance: `Global` is a single sequential object; concurrent interleavings are not modelled.
- Java `protected` and package visibility, and the license headers: they have no behaviour.
- The `int` that `pcg32_random_r` returns is given as its 32-bit pattern (`bv32`); its signed reading is `ToInt32`.
- The `ArithmeticException` that a zero bound throws is the `DivisionByZero` outcome rather than an exception.
