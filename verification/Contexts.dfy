/** Cancellation of a context, as the code that runs under it sees it. */
module Contexts {

  /** `cancelled` says whether anybody ever cancels it, and `done` that somebody
      has by now: nobody but its owner can make a context done. */
  class Context {
    const cancelled: bool
    var done: bool

    constructor (cancelled: bool)
      ensures Valid() && this.cancelled == cancelled && !done
    {
      this.cancelled := cancelled;
      done := false;
    }

    ghost predicate Valid()
      reads this
    {
      done ==> cancelled
    }

    /** Whether it is done at this moment. */
    method Done() returns (yes: bool)
      requires Valid()
      modifies this`done
      ensures Valid() && yes == done && (old(done) ==> done)
    {
      if cancelled && !done {
        done := *;
      }
      yes := done;
    }

    /** A wait for the context or for something else that may be ready too. */
    method Selected() returns (yes: bool)
      requires Valid()
      modifies this`done
      ensures Valid() && (yes ==> done) && (old(done) ==> done)
    {
      yes := Done();
      if yes {
        yes := *;
      }
    }
  }
}
