/** The exception-flag accumulator threaded through every operation (src/internal_fenv.h). */
module Fenv {
  import opened Rounding

  class FeAcc {
    var bits: set<Flag>

    constructor ()
      ensures bits == {}
    {
      bits := {};
    }

    method Raise(flags: set<Flag>)
      modifies this
      ensures bits == old(bits) + flags
    {
      bits := bits + flags;
    }
  }
}
