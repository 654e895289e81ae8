/**
 * The run-once guard around the reveal-on-scroll setup. The setup itself
 * (observing `.reveal` nodes) is represented only by a count of how many
 * times it has been entered.
 */
module Reveal {
  class RevealGuard {
    var revealSetup: bool
    /** How many times `setupRevealOnScroll` has run. */
    var setupRuns: nat

    /** The setup has run exactly once if the flag is set, and never otherwise. */
    ghost predicate Valid()
      reads this
    {
      setupRuns == if revealSetup then 1 else 0
    }

    constructor ()
      ensures Valid() && !revealSetup && setupRuns == 0
    {
      revealSetup, setupRuns := false, 0;
    }

    /** Stand-in for `setupRevealOnScroll`: records that it ran. */
    method SetupRevealOnScroll()
      modifies this`setupRuns
      ensures setupRuns == old(setupRuns) + 1
    {
      setupRuns := setupRuns + 1;
    }

    /**
     * `initRevealOnScroll`: run the setup unless it has already run; `ran`
     * says whether this call ran it.
     */
    method InitRevealOnScroll() returns (ran: bool)
      requires Valid()
      modifies this
      ensures Valid() && revealSetup && setupRuns == 1
      ensures ran == !old(revealSetup)
    {
      if revealSetup {
        return false;
      }
      revealSetup := true;
      SetupRevealOnScroll();
      ran := true;
    }
  }

  /**
   * However many times `initRevealOnScroll` is called (from the ready-state
   * check and from `DOMContentLoaded`), the setup runs once, and only the
   * first call runs it.
   */
  method InitRepeatedly(calls: nat) returns (runs: nat, firstRan: bool)
    ensures runs == if calls == 0 then 0 else 1
    ensures calls > 0 ==> firstRan
  {
    var guard := new RevealGuard();
    var i := 0;
    firstRan := false;
    while i < calls
      invariant 0 <= i <= calls
      invariant guard.Valid() && guard.revealSetup == (i > 0)
      invariant i > 0 ==> firstRan
    {
      var ran := guard.InitRevealOnScroll();
      if i == 0 {
        firstRan := ran;
      }
      i := i + 1;
    }
    runs := guard.setupRuns;
  }
}
