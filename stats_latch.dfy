/**
 * The stats counter latch: `animateStats` runs on load and on every scroll;
 * the first call that finds the `.stats` section on screen sets
 * `hasAnimated` and starts the counters, and every later call returns at once.
 */
module StatsLatch {
  import opened Wrappers

  /** The part of `getBoundingClientRect()` the handler reads. */
  datatype Rect = Rect(top: int, bottom: int)

  /** What one call observes: the `.stats` section's box, if the section
      exists, and `window.innerHeight`. */
  datatype Call = Call(statsSection: Option<Rect>, innerHeight: int)

  /** The visibility test: some part of the box is inside the viewport. */
  predicate Visible(rect: Rect, innerHeight: int)
  {
    rect.top < innerHeight && rect.bottom >= 0
  }

  /** Whether a call with the latch open would start the counters. */
  predicate Triggers(c: Call)
  {
    c.statsSection.Some? && Visible(c.statsSection.value, c.innerHeight)
  }

  /** The latch after the calls `calls`, starting from `hasAnimated`. */
  function LatchAfter(hasAnimated: bool, calls: seq<Call>): (latched: bool)
  {
    if calls == [] then hasAnimated
    else
      var before := LatchAfter(hasAnimated, calls[..|calls| - 1]);
      before || Triggers(calls[|calls| - 1])
  }

  /** How many of the calls `calls` run the counting body. */
  function Runs(hasAnimated: bool, calls: seq<Call>): (runs: nat)
  {
    if calls == [] then 0
    else
      var before := LatchAfter(hasAnimated, calls[..|calls| - 1]);
      Runs(hasAnimated, calls[..|calls| - 1]) + if !before && Triggers(calls[|calls| - 1]) then 1 else 0
  }

  /** The counting body runs at most once over any run of calls, never once
      the latch is set, and exactly once iff the latch starts open and some
      call finds the section visible; the latch ends set iff it started set
      or some call found the section visible. */
  lemma {:induction false} RunsAtMostOnce(hasAnimated: bool, calls: seq<Call>)
    ensures Runs(hasAnimated, calls) <= 1
    ensures hasAnimated ==> Runs(hasAnimated, calls) == 0
    ensures Runs(hasAnimated, calls) == 1 <==>
              !hasAnimated && exists i :: 0 <= i < |calls| && Triggers(calls[i])
    ensures LatchAfter(hasAnimated, calls) <==>
              hasAnimated || exists i :: 0 <= i < |calls| && Triggers(calls[i])
  {
    if calls != [] {
      var init := calls[..|calls| - 1];
      RunsAtMostOnce(hasAnimated, init);
      assert forall i :: 0 <= i < |init| ==> init[i] == calls[i];
      if exists i :: 0 <= i < |calls| && Triggers(calls[i]) {
        var i :| 0 <= i < |calls| && Triggers(calls[i]);
        if i < |init| {
          assert Triggers(init[i]);
        }
      }
    }
  }

  /** A call that finds no `.stats` section never sets the latch. */
  lemma MissingSectionDoesNotLatch(hasAnimated: bool, calls: seq<Call>, innerHeight: int)
    ensures LatchAfter(hasAnimated, calls + [Call(None, innerHeight)]) == LatchAfter(hasAnimated, calls)
    ensures Runs(hasAnimated, calls + [Call(None, innerHeight)]) == Runs(hasAnimated, calls)
  {
    assert (calls + [Call(None, innerHeight)])[..|calls|] == calls;
  }

  /** The listener's state: the `hasAnimated` flag, and, as a ghost, how
      many times the counting body has run. */
  class StatsCounter {
    var hasAnimated: bool
    ghost var runs: nat

    ghost predicate Valid()
      reads this
    {
      runs <= 1 && (hasAnimated <==> runs == 1)
    }

    constructor ()
      ensures Valid() && !hasAnimated && runs == 0
    {
      hasAnimated := false;
      runs := 0;
    }

    /** `animateStats`: returns whether this call started the counters. */
    method AnimateStats(statsSection: Option<Rect>, innerHeight: int) returns (started: bool)
      requires Valid()
      modifies this
      ensures Valid() && runs <= 1
      ensures started <==> !old(hasAnimated) && Triggers(Call(statsSection, innerHeight))
      ensures hasAnimated == (old(hasAnimated) || started)
      ensures runs == old(runs) + if started then 1 else 0
      ensures hasAnimated == LatchAfter(old(hasAnimated), [Call(statsSection, innerHeight)])
    {
      if hasAnimated {
        return false;
      }
      if statsSection.None? {
        return false;
      }
      var rect := statsSection.value;
      var isVisible := rect.top < innerHeight && rect.bottom >= 0;
      started := false;
      if isVisible {
        hasAnimated := true;
        runs := runs + 1;
        started := true;
      }
    }
  }
}
