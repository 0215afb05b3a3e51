// The C library's pseudo-random generator as the simulation sees it: seeded
// once, after which every rand() call returns the next value of a fixed
// stream of non-negative integers. Nothing is assumed about the values.

module Random {

  class Prng {
    /** The values successive rand() calls return, fixed by the seed. */
    const stream: nat -> nat
    /** How many values have been drawn so far. */
    var calls: nat

    /** srand(seed): the seed is abstracted into the stream it produces. */
    constructor (stream: nat -> nat)
      ensures this.stream == stream && calls == 0
    {
      this.stream := stream;
      calls := 0;
    }

    /** rand(): the next value of the stream. */
    method Rand() returns (r: nat)
      modifies this
      ensures r == stream(old(calls)) && calls == old(calls) + 1
    {
      r := stream(calls);
      calls := calls + 1;
    }
  }
}
