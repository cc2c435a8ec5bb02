/** The write side of the merge: the CarbonFactHandler the merger feeds.
    Its columnar encoding and file writing are not modelled; it records the
    rows it accepts, and each of its four calls can fail with a
    CarbonDataWriterException, as chosen when the sink is built. */
module Sink {
  import opened Streams

  /** A row in the writable format the adapter produces (an Object[]). */
  type Tuple = seq<int>

  class FactHandler {
    const failsOnInitialise: bool
    /** The position of the write that fails, if any. */
    const failingWrite: Option<nat>
    const failsOnFinish: bool
    const failsOnClose: bool

    var initialised: bool
    var written: seq<Tuple>
    var finished: bool
    var closeCalls: nat

    constructor (failsOnInitialise: bool, failingWrite: Option<nat>, failsOnFinish: bool, failsOnClose: bool)
      ensures this.failsOnInitialise == failsOnInitialise && this.failingWrite == failingWrite
      ensures this.failsOnFinish == failsOnFinish && this.failsOnClose == failsOnClose
      ensures !initialised && written == [] && !finished && closeCalls == 0
    {
      this.failsOnInitialise := failsOnInitialise;
      this.failingWrite := failingWrite;
      this.failsOnFinish := failsOnFinish;
      this.failsOnClose := failsOnClose;
      initialised, written, finished, closeCalls := false, [], false, 0;
    }

    /** A sink none of whose calls fails. */
    predicate Healthy()
    {
      !failsOnInitialise && failingWrite.None? && !failsOnFinish && !failsOnClose
    }

    method Initialise() returns (ok: bool)
      modifies this
      ensures ok == !failsOnInitialise && initialised == (old(initialised) || ok)
      ensures written == old(written) && finished == old(finished) && closeCalls == old(closeCalls)
    {
      ok := !failsOnInitialise;
      initialised := initialised || ok;
    }

    method AddDataToStore(t: Tuple) returns (ok: bool)
      modifies this
      ensures ok == (failingWrite != Some(|old(written)|))
      ensures written == if ok then old(written) + [t] else old(written)
      ensures initialised == old(initialised) && finished == old(finished) && closeCalls == old(closeCalls)
    {
      ok := failingWrite != Some(|written|);
      if ok {
        written := written + [t];
      }
    }

    method Finish() returns (ok: bool)
      modifies this
      ensures ok == !failsOnFinish && finished == (old(finished) || ok)
      ensures initialised == old(initialised) && written == old(written) && closeCalls == old(closeCalls)
    {
      ok := !failsOnFinish;
      finished := finished || ok;
    }

    method CloseHandler() returns (ok: bool)
      modifies this
      ensures ok == !failsOnClose && closeCalls == old(closeCalls) + 1
      ensures initialised == old(initialised) && written == old(written) && finished == old(finished)
    {
      ok := !failsOnClose;
      closeCalls := closeCalls + 1;
    }
  }
}
