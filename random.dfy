/**
 * The source of randomness: the engine draws every random choice as an
 * integer from an inclusive range (std::uniform_int_distribution over a
 * std::default_random_engine). The model promises nothing about a draw but
 * its range, so every property proved about a caller holds for all choices.
 */
module Random {

  class RandomEngine {
    /** The generator state; its evolution is not part of the model. */
    var state: nat

    constructor ()
    {
      state := 1;
    }

    /** An integer drawn from [lo, hi]. */
    method Next(lo: nat, hi: nat) returns (r: nat)
      requires lo <= hi
      modifies this
      ensures lo <= r <= hi
    {
      r := lo + state % (hi - lo + 1);
      state := state * 48271 % 2147483647;
    }
  }
}
