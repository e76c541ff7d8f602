/** What can go wrong outside the code: system calls, allocations, remote calls. */
module Faults {

  /** Where every such failure comes from; `failed` counts them. */
  class System {
    ghost var failed: nat

    constructor ()
      ensures failed == 0
    {
      failed := 0;
    }

    /** One call: it fails or not. */
    method Fails() returns (fails: bool)
      modifies this
      ensures failed == old(failed) + if fails then 1 else 0
    {
      fails := *;
      if fails {
        failed := failed + 1;
      }
    }
  }
}
