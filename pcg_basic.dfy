/** The PCG32 engine `pcg_basic`: seeding, the step that advances the LCG and
    permutes the old state into a 32-bit output (PCG-XSH-RR), the rejection
    loop for bounded draws, and the wrappers over the static default instance.

    Java `long` arithmetic is `bv64` arithmetic. A Java `int` produced by the
    step is given as its 32-bit pattern (`bv32`); Java `int` values that are
    compared or divided as signed numbers are `int32`, and `ToInt32` reads a
    pattern as a two's complement number. */
module PcgBasic {
  import opened Pcg32State

  /** The LCG multiplier. */
  const Multiplier: bv64 := 6364136223846793005

  /** The seed of the static default instance. */
  const GlobalState: bv64 := 0x853c49e6748fea9b
  /** The stream selector of the static default instance. */
  const GlobalInc: bv64 := 0xda3e39cb94b95bdb

  /** Java `int`. */
  newtype int32 = x: int | -0x8000_0000 <= x < 0x8000_0000

  // ---------------------------------------------------------------------------
  // The step, as functions of the state

  /** One LCG advance of the accumulator `s` on stream `inc`, modulo 2^64.
      The multiplier is odd, so the lowest bit of the result is the lowest
      bit of `s` XOR that of `inc`. */
  function Advance(s: bv64, inc: bv64): (r: bv64)
    ensures r & 1 == (s ^ inc) & 1
  {
    s * Multiplier + inc
  }

  /** The accumulator after `n` advances from `s` on stream `inc`. On an
      odd stream its lowest bit flips at every advance: it has period two. */
  function Iterate(s: bv64, inc: bv64, n: nat): (r: bv64)
    ensures inc & 1 == 1 ==> r & 1 == (if n % 2 == 0 then s & 1 else (s & 1) ^ 1)
    decreases n
  {
    if n == 0 then s else Advance(Iterate(s, inc, n - 1), inc)
  }

  /** Advancing `m + n` times is advancing `m` times and then `n` times. */
  lemma {:induction false} IterateAdd(s: bv64, inc: bv64, m: nat, n: nat)
    ensures Iterate(s, inc, m + n) == Iterate(Iterate(s, inc, m), inc, n)
    decreases n
  {
    if n > 0 {
      IterateAdd(s, inc, m, n - 1);
    }
  }

  /** The xorshift half of the output: the low 32 bits of
      `((oldstate >>> 18) ^ oldstate) >>> 27`, that is, bits 27..58 of `oldstate` XORed with
      bits 45..63 of `oldstate`. */
  function XorShifted(oldstate: bv64): (x: bv32)
    ensures x as bv64 == ((oldstate >> 27) ^ (oldstate >> 45)) & 0xFFFF_FFFF
  {
    ((((oldstate >> 18) ^ oldstate) >> 27) & 0xFFFF_FFFF) as bv32
  }

  /** The rotation amount `(int) (oldstate >>> 59)`: the top five bits of `oldstate`. */
  function Rotation(oldstate: bv64): (rot: bv32)
    ensures rot < 32
  {
    (oldstate >> 59) as bv32
  }

  /** The 32-bit rotate right as the source writes it, with two shifts:
      `(x >>> rot) | (x << ((-rot) & 31))`. Rotating by zero changes nothing. */
  function RotateRight32(x: bv32, rot: bv32): (r: bv32)
    requires rot < 32
    ensures rot == 0 ==> r == x
  {
    (x >> rot) | (x << ((-rot) & 31))
  }

  /** Bit `i` of a 32-bit word. */
  function Bit(x: bv32, i: bv32): bv32
    requires i < 32
  {
    (x >> i) & 1
  }

  /** The two shifts do rotate: bit `i` of the result is bit
      `(i + rot) mod 32` of `x`, for every bit position. */
  lemma RotateRight32Bits(x: bv32, rot: bv32)
    requires rot < 32
    ensures forall i: bv32 :: i < 32 ==> Bit(RotateRight32(x, rot), i) == Bit(x, (i + rot) & 31)
  {
    forall i: bv32 | i < 32
      ensures Bit(RotateRight32(x, rot), i) == Bit(x, (i + rot) & 31)
    {
      RotateRight32Bit(x, rot, i);
    }
  }

  /** One bit position of `RotateRight32Bits`. */
  lemma RotateRight32Bit(x: bv32, rot: bv32, i: bv32)
    requires rot < 32 && i < 32
    ensures Bit(RotateRight32(x, rot), i) == Bit(x, (i + rot) & 31)
  {
    ShiftPairBit(x, rot, i);
  }

  /** The same bit fact on the bare shift expression, where the solver
      reasons about bits alone. */
  lemma ShiftPairBit(x: bv32, rot: bv32, i: bv32)
    requires rot < 32 && i < 32
    ensures (((x >> rot) | (x << ((-rot) & 31))) >> i) & 1 == (x >> ((i + rot) & 31)) & 1
  {
  }

  /** The output permutation of the pre-advance state (PCG-XSH-RR): the
      xorshift rotated right by the top five bits. It depends on the old
      accumulator alone; a rotation by zero leaves the xorshift unchanged. */
  function Output(oldstate: bv64): (out: bv32)
    ensures Rotation(oldstate) == 0 ==> out == XorShifted(oldstate)
  {
    RotateRight32(XorShifted(oldstate), Rotation(oldstate))
  }

  /** The first `n` outputs of the stream that starts at accumulator `s`:
      output `k` is the permutation of the accumulator after `k` advances. */
  function Outputs(s: bv64, inc: bv64, n: nat): (outs: seq<bv32>)
    ensures |outs| == n
    ensures forall k :: 0 <= k < n ==> outs[k] == Output(Iterate(s, inc, k))
    decreases n
  {
    if n == 0 then []
    else
      var earlier := Outputs(s, inc, n - 1);
      OutputsExtend(s, inc, n - 1, earlier);
      earlier + [Output(Iterate(s, inc, n - 1))]
  }

  /** Appending output `n` to the first `n` outputs gives the first `n + 1`. */
  lemma OutputsExtend(s: bv64, inc: bv64, n: nat, earlier: seq<bv32>)
    requires |earlier| == n
    requires forall k :: 0 <= k < n ==> earlier[k] == Output(Iterate(s, inc, k))
    ensures forall k :: 0 <= k < n + 1 ==>
              (earlier + [Output(Iterate(s, inc, n))])[k] == Output(Iterate(s, inc, k))
  {
    // Only the indices matter here, not what the outputs are.
    hide Output, Iterate;
  }

  /** A stream resumes where it stopped: after `m` outputs, a generator
      whose accumulator is the one reached by then produces exactly the
      rest of the stream. */
  lemma OutputsResume(s: bv64, inc: bv64, m: nat, n: nat)
    ensures Outputs(s, inc, m + n)[m..] == Outputs(Iterate(s, inc, m), inc, n)
  {
    // Equal accumulators give equal outputs; the permutation itself is not needed.
    hide Output, Advance, Iterate;
    var whole := Outputs(s, inc, m + n);
    var rest := Outputs(Iterate(s, inc, m), inc, n);
    forall k | 0 <= k < n
      ensures whole[m..][k] == rest[k]
    {
      IterateAdd(s, inc, m, k);
      assert whole[m..][k] == whole[m + k];
    }
    assert whole[m..] == rest;
  }

  // ---------------------------------------------------------------------------
  // Seeding, as functions of the seed

  /** The stream selector that seeding stores: `(initseq << 1) | 1`. The top
      bit of `initseq` is lost and the lowest bit is forced on. */
  function SeedInc(initseq: bv64): (inc: bv64)
    ensures inc & 1 == 1
  {
    (initseq << 1) | 1
  }

  /** Above its lowest bit, the stream selector holds the low 63 bits of
      `initseq`: so `initseq` and `initseq` with the top bit flipped select
      the same stream. */
  lemma SeedIncKeepsLowBits(initseq: bv64)
    ensures SeedInc(initseq) >> 1 == initseq & 0x7FFF_FFFF_FFFF_FFFF
    ensures SeedInc(initseq ^ 0x8000_0000_0000_0000) == SeedInc(initseq)
  {
  }

  /** Advancing from zero only adds the stream selector. */
  lemma AdvanceFromZero(inc: bv64)
    ensures Advance(0, inc) == inc
  {
  }

  /** Java `long` addition, which wraps modulo 2^64. */
  function AddLong(x: bv64, y: bv64): bv64
  {
    x + y
  }

  /** The accumulator that seeding stores once the stream selector `inc` is
      set: reset to zero, one advance, add `initstate`, another advance. It
      is a single advance from `inc + initstate`. */
  function SeedState(initstate: bv64, inc: bv64): (s: bv64)
    ensures s == Advance(inc + initstate, inc)
  {
    SeedStepsCollapse(initstate, inc);
    Advance(AddLong(Advance(0, inc), initstate), inc)
  }

  /** The first advance of seeding only moves the accumulator from zero to
      `inc`, so the two advances collapse into one from `inc + initstate`. */
  lemma SeedStepsCollapse(initstate: bv64, inc: bv64)
    ensures Advance(AddLong(Advance(0, inc), initstate), inc) == Advance(AddLong(inc, initstate), inc)
  {
    AdvanceFromZero(inc);
  }

  /** In closed form the seeded accumulator is
      `(inc + initstate) * 6364136223846793005 + inc`, modulo 2^64. */
  lemma SeedStateClosedForm(initstate: bv64, inc: bv64)
    ensures SeedState(initstate, inc) == (inc + initstate) * Multiplier + inc
  {
  }

  // ---------------------------------------------------------------------------
  // Java `int` arithmetic used by the bounded draw

  function Abs(x: int): nat
  {
    if x < 0 then -x else x
  }

  /** The signed reading of a 32-bit pattern, as Java sees an `int`: the
      patterns with the top bit clear read as themselves, the others are
      2^32 less. */
  function ToInt32(bits: bv32): (v: int32)
    ensures 0 <= v <==> bits as int < 0x8000_0000
    ensures (v as int - bits as int) % 0x1_0000_0000 == 0
  {
    var n := bits as int;
    if n < 0x8000_0000 then n as int32 else (n - 0x1_0000_0000) as int32
  }

  /** Java's unary minus on `int`: it wraps, so the least value is its own
      negation. */
  function Negate(x: int32): (r: int32)
    ensures (r as int + x as int) % 0x1_0000_0000 == 0
  {
    if x == -0x8000_0000 then x else -x
  }

  /** Java's `/` on integers: the quotient truncated toward zero. Its
      magnitude is the largest `q` with `q * |b| <= |a|`, and a nonzero
      quotient is negative exactly when the operands' signs differ. */
  function JavaDiv(a: int, b: int): (q: int)
    requires b != 0
    ensures Abs(q) * Abs(b) <= Abs(a) < (Abs(q) + 1) * Abs(b)
    ensures q != 0 ==> (q < 0 <==> (a < 0) != (b < 0))
  {
    var m := Abs(b);
    var n := Abs(a);
    var q := n / m;
    DivBounds(n, m);
    var r := if (a < 0) == (b < 0) then q else -q;
    assert Abs(r) == q;
    TimesEqual(Abs(r), q, m);
    TimesEqual(Abs(r) + 1, q + 1, m);
    r
  }

  /** The quotient of `n` by a positive `m` is the largest `q` with
      `q * m <= n`. */
  lemma DivBounds(n: nat, m: nat)
    requires m > 0
    ensures 0 <= n / m
    ensures (n / m) * m <= n < (n / m + 1) * m
  {
    var q := n / m;
    assert n == q * m + n % m;
    assert (q + 1) * m == q * m + m;
  }

  /** Equal factors give equal products. */
  lemma TimesEqual(x: int, y: int, z: int)
    requires x == y
    ensures x * z == y * z
  {
  }

  /** Java's `%` on `int`: the remainder that goes with the truncating
      quotient, so `(a / b) * b + a % b == a`, it is smaller than the divisor
      in magnitude and it has the sign of the dividend. A zero divisor
      throws, which callers rule out. */
  function JavaRem(a: int32, b: int32): (r: int32)
    requires b != 0
    ensures a as int == JavaDiv(a as int, b as int) * b as int + r as int
    ensures Abs(r as int) < Abs(b as int)
    ensures r != 0 ==> (r < 0 <==> a < 0)
  {
    var m := Abs(b as int);
    var n := Abs(a as int);
    var q := n / m;
    assert n == q * m + n % m;
    JavaDivTimesDivisor(a as int, b as int);
    if a >= 0 then (n % m) as int32 else (-(n % m)) as int32
  }

  /** The truncating quotient times the divisor is `|a| / |b| * |b|`, with
      the sign of the dividend. */
  lemma JavaDivTimesDivisor(a: int, b: int)
    requires b != 0
    ensures JavaDiv(a, b) * b == (if a < 0 then -((Abs(a) / Abs(b)) * Abs(b)) else (Abs(a) / Abs(b)) * Abs(b))
  {
    var m: int := Abs(b);
    var q: int := Abs(a) / m;
    var d := JavaDiv(a, b);
    DivBounds(Abs(a), m);
    if (a < 0) == (b < 0) {
      assert d == q;
      TimesEqual(d, q, b);
    } else {
      assert d == -q;
      TimesEqual(d, -q, b);
    }
    if b < 0 {
      TimesEqual(b, -m, q);
    } else {
      TimesEqual(b, m, q);
    }
  }


  /** The rejection threshold `-bound % bound` as Java computes it on `int`.
      Unlike the unsigned `(2^32 - bound) mod bound` of the C original, it is
      zero for every bound the division accepts. */
  function Threshold(bound: int32): (t: int32)
    requires bound != 0
    ensures t == 0
  {
    var n := Negate(bound);
    assert n as int == -(bound as int) || n as int == bound as int;
    JavaRem(n, bound)
  }

  /** The test of the rejection loop, the signed comparison
      `r >= threshold`. It accepts exactly the outputs whose top bit is
      clear, that is, whose unsigned reading is below 2^31, whatever the
      bound. */
  predicate Accepts(bound: int32, r: bv32)
    requires bound != 0
    ensures Accepts(bound, r) <==> r as int < 0x8000_0000
  {
    ToInt32(r) >= Threshold(bound)
  }

  /** An accepted output reduced by `%` lies in `[0, |bound|)`: in
      `[0, bound)` for a positive bound, and in `[0, -bound)` for a negative
      one. For a positive bound it is the output's plain remainder. */
  lemma AcceptedInRange(bound: int32, r: bv32)
    requires bound != 0
    requires Accepts(bound, r)
    ensures 0 <= JavaRem(ToInt32(r), bound) as int < Abs(bound as int)
    ensures 0 < bound ==> JavaRem(ToInt32(r), bound) as int == r as int % bound as int
  {
  }

  // ---------------------------------------------------------------------------
  // The threshold against the bias it is meant to remove

  /** The Java loop accepts the 2^31 outputs below 2^31, which is not a
      multiple of the bound `2^30 + 1`. Residue 0 comes from two accepted
      outputs, 0 and `2^30 + 1`, while residue `2^30` comes from one only:
      the draw is biased. */
  lemma JavaThresholdBiased()
    ensures 0x8000_0000 % 0x4000_0001 != 0
    ensures Accepts(0x4000_0001, 0) && Accepts(0x4000_0001, 0x4000_0001)
    ensures JavaRem(ToInt32(0), 0x4000_0001) == 0
    ensures JavaRem(ToInt32(0x4000_0001), 0x4000_0001) == 0
    ensures forall r: bv32 ::
              Accepts(0x4000_0001, r) && JavaRem(ToInt32(r), 0x4000_0001) == 0x4000_0000 ==> r == 0x4000_0000
  {
    AcceptedInRange(0x4000_0001, 0);
    AcceptedInRange(0x4000_0001, 0x4000_0001);
    forall r: bv32 | Accepts(0x4000_0001, r) && JavaRem(ToInt32(r), 0x4000_0001) == 0x4000_0000
      ensures r == 0x4000_0000
    {
      AcceptedInRange(0x4000_0001, r);
      OnlyResidueHalf(r as int);
    }
  }

  /** Below 2^31, residue `2^30` modulo `2^30 + 1` has the one
      representative `2^30`. */
  lemma OnlyResidueHalf(x: int)
    requires 0 <= x < 0x8000_0000
    requires x % 0x4000_0001 == 0x4000_0000
    ensures x == 0x4000_0000
  {
  }

  /** The threshold of the C original, `-bound % bound` on unsigned 32-bit
      integers, that is `(2^32 - bound) mod bound`. The outputs it accepts,
      `[t, 2^32)`, are a whole number of runs of `bound` consecutive values,
      so every residue is reached by equally many of them. */
  function UnsignedThreshold(bound: nat): (t: nat)
    requires 0 < bound < 0x1_0000_0000
    ensures t < bound
    ensures 0x1_0000_0000 - t == ((0x1_0000_0000 - bound) / bound + 1) * bound
  {
    var n := 0x1_0000_0000 - bound;
    var q := n / bound;
    var t := n % bound;
    assert n == q * bound + t;
    assert (q + 1) * bound == q * bound + bound;
    t
  }

  /** The first `n` outputs from accumulator `s` all fail the loop's test. */
  ghost predicate RejectsFirst(s: bv64, inc: bv64, bound: int32, n: nat)
    requires bound != 0
  {
    forall k :: 0 <= k < n ==> !Accepts(bound, Output(Iterate(s, inc, k)))
  }

  /** One more rejected output extends the rejected prefix by one. */
  lemma RejectsOneMore(s: bv64, inc: bv64, bound: int32, n: nat)
    requires bound != 0
    requires RejectsFirst(s, inc, bound, n)
    requires !Accepts(bound, Output(Iterate(s, inc, n)))
    ensures RejectsFirst(s, inc, bound, n + 1)
  {
  }

  // ---------------------------------------------------------------------------
  // The engine on an explicit generator

  /** The result of a bounded draw. `DivisionByZero` is the
      `ArithmeticException` that a zero bound raises; `Exhausted` means the
      draw was cut off after `maxTries` rejected outputs. */
  datatype Bounded = Drawn(value: int32) | DivisionByZero | Exhausted

  /** `pcg32_random_r`: advance the accumulator once and return the
      permutation of its old value; the stream selector is untouched. */
  method RandomR(rng: Pcg32Random) returns (out: bv32)
    modifies rng
    ensures rng.state == Advance(old(rng.state), rng.inc)
    ensures rng.inc == old(rng.inc)
    ensures out == Output(old(rng.state))
    ensures old(rng.Odd()) ==> rng.Odd()
  {
    var oldstate := rng.state;
    rng.state := Advance(oldstate, rng.inc);
    out := Output(oldstate);
  }

  /** `pcg32_srandom_r`: seed `rng`. The new state depends on the two seed
      words only, never on what `rng` held before, and the stream selector
      is odd afterwards. */
  method SRandomR(rng: Pcg32Random, initstate: bv64, initseq: bv64)
    modifies rng
    ensures rng.inc == SeedInc(initseq)
    ensures rng.state == SeedState(initstate, SeedInc(initseq))
    ensures rng.Odd()
  {
    rng.state := 0;
    rng.inc := SeedInc(initseq);
    var _ := RandomR(rng);
    rng.state := AddLong(rng.state, initstate);
    var _ := RandomR(rng);
  }

  /** `pcg32_boundedrand_r`: draw outputs until one passes the threshold and
      return it reduced modulo `bound`. A zero bound raises before any draw.
      The source loops forever if need be; here the loop gives up after
      `maxTries` outputs. The ghost `tries` counts the rejected outputs. */
  method BoundedRandR(rng: Pcg32Random, bound: int32, maxTries: nat)
    returns (res: Bounded, ghost tries: nat)
    modifies rng
    ensures rng.inc == old(rng.inc)
    ensures res.DivisionByZero? <==> bound == 0
    ensures res.DivisionByZero? ==> rng.state == old(rng.state)
    ensures res.Drawn? ==> 0 <= res.value as int < Abs(bound as int)
    ensures res.Drawn? ==>
      && tries < maxTries
      && rng.state == Iterate(old(rng.state), rng.inc, tries + 1)
      && RejectsFirst(old(rng.state), rng.inc, bound, tries)
      && Accepts(bound, Output(Iterate(old(rng.state), rng.inc, tries)))
      && res.value == JavaRem(ToInt32(Output(Iterate(old(rng.state), rng.inc, tries))), bound)
    ensures res.Exhausted? ==>
      && bound != 0
      && tries == maxTries
      && rng.state == Iterate(old(rng.state), rng.inc, maxTries)
      && RejectsFirst(old(rng.state), rng.inc, bound, maxTries)
  {
    // The proof needs only the contracts of these functions, not their bodies.
    hide Output, Advance, ToInt32;
    tries := 0;
    if bound == 0 {
      return DivisionByZero, tries;
    }
    var threshold := Threshold(bound);
    ghost var start := rng.state;
    var n := 0;
    while n < maxTries
      invariant n <= maxTries && tries == n
      invariant rng.inc == old(rng.inc)
      invariant rng.state == Iterate(start, rng.inc, n)
      invariant RejectsFirst(start, rng.inc, bound, n)
    {
      var r := RandomR(rng);
      if ToInt32(r) >= threshold {
        AcceptedInRange(bound, r);
        return Drawn(JavaRem(ToInt32(r), bound)), tries;
      }
      RejectsOneMore(start, rng.inc, bound, n);
      n := n + 1;
      tries := n;
    }
    return Exhausted, tries;
  }

  // ---------------------------------------------------------------------------
  // Known answers

  /** Seeding with `(42, 54)` gives the published first six outputs of the
      reference PCG32 generator. */
  lemma KnownAnswer()
    ensures Outputs(SeedState(42, SeedInc(54)), SeedInc(54), 6)
         == [0xa15c02b7, 0x7b47f409, 0xba1d3330, 0x83d2f293, 0xbfa4784b, 0xcbed606e]
  {
  }

  /** The unseeded default instance starts a fixed, non-degenerate stream. */
  lemma GlobalStream()
    ensures GlobalInc & 1 == 1
    ensures Outputs(GlobalState, GlobalInc, 3) == [0x152ca78d, 0x027c6003, 0xcb07bbf3]
  {
  }

  // ---------------------------------------------------------------------------
  // The static default instance

  /** `pcg32_global` and the wrappers that delegate to it. */
  class Global {
    var rng: Pcg32Random

    /** The static initialiser: the default instance holds the fixed
        constants, and its stream selector is odd. */
    constructor ()
      ensures fresh(rng)
      ensures rng.state == GlobalState && rng.inc == GlobalInc
      ensures rng.Odd()
    {
      rng := new Pcg32Random.Init(GlobalState, GlobalInc);
    }

    /** `pcg32_srandom`: seed the default instance. */
    method SRandom(seed: bv64, stream: bv64)
      modifies rng
      ensures rng.inc == SeedInc(stream)
      ensures rng.state == SeedState(seed, SeedInc(stream))
      ensures rng.Odd()
    {
      SRandomR(rng, seed, stream);
    }

    /** `pcg32_random`: one step of the default instance. */
    method Random() returns (out: bv32)
      modifies rng
      ensures rng.state == Advance(old(rng.state), rng.inc)
      ensures rng.inc == old(rng.inc)
      ensures out == Output(old(rng.state))
      ensures old(rng.Odd()) ==> rng.Odd()
    {
      out := RandomR(rng);
    }

    /** `pcg32_boundedrand`: a bounded draw from the default instance. */
    method BoundedRand(bound: int32, maxTries: nat) returns (res: Bounded, ghost tries: nat)
      modifies rng
      ensures rng.inc == old(rng.inc)
      ensures res.DivisionByZero? <==> bound == 0
      ensures res.DivisionByZero? ==> rng.state == old(rng.state)
      ensures res.Drawn? ==> 0 <= res.value as int < Abs(bound as int)
      ensures res.Drawn? ==>
        && tries < maxTries
        && rng.state == Iterate(old(rng.state), rng.inc, tries + 1)
        && RejectsFirst(old(rng.state), rng.inc, bound, tries)
        && Accepts(bound, Output(Iterate(old(rng.state), rng.inc, tries)))
        && res.value == JavaRem(ToInt32(Output(Iterate(old(rng.state), rng.inc, tries))), bound)
      ensures res.Exhausted? ==>
        && bound != 0
        && tries == maxTries
        && rng.state == Iterate(old(rng.state), rng.inc, maxTries)
        && RejectsFirst(old(rng.state), rng.inc, bound, maxTries)
    {
      res, tries := BoundedRandR(rng, bound, maxTries);
    }
  }
}
