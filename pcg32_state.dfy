/** The generator state record `pcg32_random_t`: two 64-bit words, the LCG
    accumulator `state` and the stream selector `inc`.

    A Java `long` is modelled as `bv64`: the engine only adds, multiplies,
    shifts and masks these words, and Java wraps all of that modulo 2^64. */
module Pcg32State {

  /** Bytes in one Java `long` (`Long.BYTES`). */
  const LongBytes: nat := 8

  class Pcg32Random {
    /** The RNG state. Every 64-bit value is a valid state. */
    var state: bv64
    /** Selects the output stream. It is meant to be odd at all times. */
    var inc: bv64

    /** The documented invariant of `inc`: its lowest bit is set. */
    predicate Odd()
      reads this
    {
      inc & 1 == 1
    }

    /** The no-argument constructor: both words keep Java's default value,
        zero, so the stream selector is NOT odd until the object is seeded. */
    constructor ()
      ensures state == 0 && inc == 0
      ensures !Odd()
    {
      state := 0;
      inc := 0;
    }

    /** The two-argument constructor stores the given words unchanged; it
        checks nothing, so an even `inc` is accepted. */
    constructor Init(state: bv64, inc: bv64)
      ensures this.state == state && this.inc == inc
      ensures Odd() <==> inc & 1 == 1
    {
      this.state := state;
      this.inc := inc;
    }

    /** `sizeof()`: the bytes that the two 64-bit words occupy. */
    static function SizeOf(): (bytes: nat)
      ensures bytes * 8 == 64 + 64
    {
      LongBytes * 2
    }
  }
}
