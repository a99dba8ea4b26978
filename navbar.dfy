/**
 * The navbar's `scrolled` class: every scroll event adds it when the page
 * is scrolled more than 100 pixels and removes it otherwise.
 */
module Navbar {

  /** Scroll offset beyond which the navbar is drawn in its scrolled style. */
  const SCROLLED_THRESHOLD: int := 100

  /** The class the scroll listener toggles. */
  const SCROLLED: string := "scrolled"

  /** The navbar's class list after one scroll event at `scrollY`. */
  function OnScrollClasses(classes: set<string>, scrollY: int): (after: set<string>)
  {
    if scrollY > SCROLLED_THRESHOLD then classes + {SCROLLED} else classes - {SCROLLED}
  }

  /** The navbar's class list after the scroll events `positions`, each
      given by the `scrollY` its listener reads. */
  function ClassesAfter(classes: set<string>, positions: seq<int>): (after: set<string>)
  {
    if positions == [] then classes
    else OnScrollClasses(ClassesAfter(classes, positions[..|positions| - 1]), positions[|positions| - 1])
  }

  /** After any run of scroll events the navbar has `scrolled` iff the
      latest position exceeds 100, and its other classes are untouched. */
  lemma {:induction false} ScrolledReflectsLastEvent(classes: set<string>, positions: seq<int>)
    ensures positions != [] ==> (SCROLLED in ClassesAfter(classes, positions) <==> positions[|positions| - 1] > SCROLLED_THRESHOLD)
    ensures ClassesAfter(classes, positions) - {SCROLLED} == classes - {SCROLLED}
  {
    if positions != [] {
      ScrolledReflectsLastEvent(classes, positions[..|positions| - 1]);
    }
  }

  /** The class list of the `#navbar` element. */
  class NavbarElement {
    var classes: set<string>

    constructor (classes: set<string>)
      ensures this.classes == classes
    {
      this.classes := classes;
    }

    /** The scroll listener's navbar branch (`classList.add` / `classList.remove`). */
    method OnScroll(scrollY: int)
      modifies this
      ensures classes == OnScrollClasses(old(classes), scrollY)
      ensures SCROLLED in classes <==> scrollY > SCROLLED_THRESHOLD
      ensures classes - {SCROLLED} == old(classes) - {SCROLLED}
    {
      if scrollY > SCROLLED_THRESHOLD {
        classes := classes + {SCROLLED};
      } else {
        classes := classes - {SCROLLED};
      }
    }
  }
}
