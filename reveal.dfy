/**
 * Scroll-reveal observers. The repeatable one keeps `animate-in` on an
 * element exactly while its latest entry says it intersects the viewport;
 * the one-shot one adds `fade-in` on the first intersecting entry and stops
 * observing that element.
 */
module Reveal {
  import opened Wrappers

  /** Elements are named by their position in the observed node list. */
  type Element = nat

  /** An `IntersectionObserverEntry`: its target and `isIntersecting`. */
  datatype Entry = Entry(target: Element, isIntersecting: bool)

  /** The `isIntersecting` of the last entry for `el` in `entries`, if any. */
  function LatestFor(entries: seq<Entry>, el: Element): (latest: Option<bool>)
  {
    if entries == [] then None
    else if entries[|entries| - 1].target == el then Some(entries[|entries| - 1].isIntersecting)
    else LatestFor(entries[..|entries| - 1], el)
  }

  // ---------------------------------------------------------------
  // Repeatable reveal (`animate-in`, never unobserved)
  // ---------------------------------------------------------------

  /** The elements with `animate-in` after the callback processed `entries`
      in order, from the set `animateIn`. */
  function RepeatableAfter(animateIn: set<Element>, entries: seq<Entry>): (after: set<Element>)
  {
    if entries == [] then animateIn
    else
      var before := RepeatableAfter(animateIn, entries[..|entries| - 1]);
      var e := entries[|entries| - 1];
      if e.isIntersecting then before + {e.target} else before - {e.target}
  }

  /** After a batch, an element has `animate-in` iff its most recent entry
      was intersecting; an element with no entry keeps what it had. */
  lemma {:induction false} RepeatableFollowsLatest(animateIn: set<Element>, entries: seq<Entry>, el: Element)
    ensures el in RepeatableAfter(animateIn, entries) <==>
              match LatestFor(entries, el)
              case Some(intersecting) => intersecting
              case None => el in animateIn
  {
    if entries != [] {
      RepeatableFollowsLatest(animateIn, entries[..|entries| - 1], el);
    }
  }

  /** The class lists of the observed elements, as the set carrying `animate-in`. */
  class RepeatableObserver {
    var animateIn: set<Element>

    /** `initial` is the set of elements whose markup already carries `animate-in`. */
    constructor (initial: set<Element>)
      ensures animateIn == initial
    {
      animateIn := initial;
    }

    /** The observer callback: `entries.forEach(...)`. */
    method OnEntries(entries: seq<Entry>)
      modifies this
      ensures animateIn == RepeatableAfter(old(animateIn), entries)
    {
      for i := 0 to |entries|
        invariant animateIn == RepeatableAfter(old(animateIn), entries[..i])
      {
        assert entries[..i + 1][..i] == entries[..i];
        var entry := entries[i];
        if entry.isIntersecting {
          animateIn := animateIn + {entry.target};
        } else {
          animateIn := animateIn - {entry.target};
        }
      }
      assert entries[..|entries|] == entries;
    }
  }

  // ---------------------------------------------------------------
  // One-shot reveal (`fade-in`, then `unobserve`)
  // ---------------------------------------------------------------

  /** The elements with `fade-in`, and the elements still observed. */
  datatype OneShotState = OneShotState(fadeIn: set<Element>, observed: set<Element>)

  /** No element is both revealed and still observed. */
  predicate Consistent(st: OneShotState)
  {
    st.fadeIn !! st.observed
  }

  /** The state after the callback processed `entries` in order. */
  function OneShotAfter(st: OneShotState, entries: seq<Entry>): (after: OneShotState)
  {
    if entries == [] then st
    else
      var before := OneShotAfter(st, entries[..|entries| - 1]);
      var e := entries[|entries| - 1];
      if e.isIntersecting then OneShotState(before.fadeIn + {e.target}, before.observed - {e.target})
      else before
  }

  /** Whether some entry of `entries` reports `el` intersecting. */
  predicate SeenIntersecting(entries: seq<Entry>, el: Element)
  {
    exists i :: 0 <= i < |entries| && entries[i].target == el && entries[i].isIntersecting
  }

  /** The callback adds `fade-in` to exactly the elements with an intersecting
      entry, never removes it, unobserves exactly those elements, and keeps
      revealed and observed elements apart. */
  lemma {:induction false} OneShotEffect(st: OneShotState, entries: seq<Entry>, el: Element)
    ensures st.fadeIn <= OneShotAfter(st, entries).fadeIn
    ensures el in OneShotAfter(st, entries).fadeIn <==> el in st.fadeIn || SeenIntersecting(entries, el)
    ensures el in OneShotAfter(st, entries).observed <==> el in st.observed && !SeenIntersecting(entries, el)
    ensures Consistent(st) ==> Consistent(OneShotAfter(st, entries))
  {
    if entries != [] {
      var init := entries[..|entries| - 1];
      OneShotEffect(st, init, el);
      var before := OneShotAfter(st, init);
      assert forall i :: 0 <= i < |init| ==> init[i] == entries[i];
      if SeenIntersecting(entries, el) {
        var i :| 0 <= i < |entries| && entries[i].target == el && entries[i].isIntersecting;
        if i < |init| {
          assert init[i].target == el && init[i].isIntersecting;
        }
      }
      if Consistent(st) {
        assert Consistent(before) by {
          forall x | x in before.fadeIn
            ensures x !in before.observed
          {
            OneShotEffect(st, init, x);
          }
        }
      }
    }
  }

  /** The element-free consequences of `OneShotEffect`: the callback never
      removes `fade-in`, and keeps revealed and observed elements apart. */
  lemma OneShotPreserves(st: OneShotState, entries: seq<Entry>)
    ensures st.fadeIn <= OneShotAfter(st, entries).fadeIn
    ensures Consistent(st) ==> Consistent(OneShotAfter(st, entries))
  {
    var after := OneShotAfter(st, entries);
    forall x | x in st.fadeIn || x in after.fadeIn
      ensures x in st.fadeIn ==> x in after.fadeIn
      ensures Consistent(st) && x in after.fadeIn ==> x !in after.observed
    {
      OneShotEffect(st, entries, x);
    }
  }

  /** The entries the browser delivers for a batch: only those whose target
      is still observed. */
  function Deliver(observed: set<Element>, entries: seq<Entry>): (delivered: seq<Entry>)
    ensures forall i :: 0 <= i < |delivered| ==> delivered[i].target in observed
    ensures forall e :: e in delivered <==> e in entries && e.target in observed
    ensures (forall i :: 0 <= i < |entries| ==> entries[i].target in observed) ==> delivered == entries
  {
    if entries == [] then []
    else
      var rest := Deliver(observed, entries[..|entries| - 1]);
      var e := entries[|entries| - 1];
      if e.target in observed then rest + [e] else rest
  }

  /** The state after a run of batches, each delivered against the set
      observed when it is dispatched. */
  function OneShotRun(st: OneShotState, batches: seq<seq<Entry>>): (after: OneShotState)
  {
    if batches == [] then st
    else
      var before := OneShotRun(st, batches[..|batches| - 1]);
      OneShotAfter(before, Deliver(before.observed, batches[|batches| - 1]))
  }

  /** An element no longer observed receives no further processing: whether
      it has `fade-in` never changes, and it is never observed again. In
      particular a revealed element keeps `fade-in` for good. */
  lemma {:induction false} UnobservedIsFrozen(st: OneShotState, batches: seq<seq<Entry>>, el: Element)
    requires el !in st.observed
    ensures el !in OneShotRun(st, batches).observed
    ensures el in OneShotRun(st, batches).fadeIn <==> el in st.fadeIn
  {
    if batches != [] {
      UnobservedIsFrozen(st, batches[..|batches| - 1], el);
      var before := OneShotRun(st, batches[..|batches| - 1]);
      var delivered := Deliver(before.observed, batches[|batches| - 1]);
      OneShotEffect(before, delivered, el);
      assert !SeenIntersecting(delivered, el);
    }
  }

  /** The one-shot observer's state. */
  class OneShotObserver {
    var fadeIn: set<Element>
    var observed: set<Element>

    /** `observer.observe(element)` for every element of the node list;
        `initial` is the set of elements whose markup already carries `fade-in`. */
    constructor (elements: set<Element>, initial: set<Element>)
      ensures fadeIn == initial && observed == elements
    {
      fadeIn := initial;
      observed := elements;
    }

    /** The observer callback: `fade-in` and `unobserve` on each
        intersecting entry; non-intersecting entries are ignored. */
    method OnEntries(entries: seq<Entry>)
      modifies this
      ensures OneShotState(fadeIn, observed) == OneShotAfter(OneShotState(old(fadeIn), old(observed)), entries)
      ensures old(fadeIn) !! old(observed) ==> fadeIn !! observed
      ensures old(fadeIn) <= fadeIn
    {
      ghost var start := OneShotState(fadeIn, observed);
      for i := 0 to |entries|
        invariant OneShotState(fadeIn, observed) == OneShotAfter(start, entries[..i])
      {
        assert entries[..i + 1][..i] == entries[..i];
        var entry := entries[i];
        if entry.isIntersecting {
          fadeIn := fadeIn + {entry.target};
          observed := observed - {entry.target};
        }
      }
      assert entries[..|entries|] == entries;
      OneShotPreserves(start, entries);
    }
  }
}
