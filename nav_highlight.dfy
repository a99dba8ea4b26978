/**
 * Active navigation link: on every scroll, each `section[id]` whose extent
 * contains the probe point (scroll position plus 150) clears every nav
 * link's `active` class and then sets it on the links whose href is `#id`.
 */
module NavHighlight {
  import opened Wrappers

  /** Distance from the top of the viewport at which the probe sits. */
  const PROBE_OFFSET: int := 150

  /** A `section[id]` element: its `offsetTop`, `offsetHeight` and `id`. */
  datatype Section = Section(top: int, height: int, id: string)

  /** The document-order test of the handler: the probe lies in [top, top + height). */
  predicate Contains(s: Section, probe: int)
  {
    s.top <= probe < s.top + s.height
  }

  /** The id of the last section, in document order, that contains the probe. */
  function LastMatch(sections: seq<Section>, probe: int): (r: Option<string>)
    ensures r.None? <==> forall i :: 0 <= i < |sections| ==> !Contains(sections[i], probe)
    ensures r.Some? ==> exists i :: 0 <= i < |sections| && Contains(sections[i], probe) && sections[i].id == r.value
  {
    if sections == [] then None
    else if Contains(sections[|sections| - 1], probe) then Some(sections[|sections| - 1].id)
    else LastMatch(sections[..|sections| - 1], probe)
  }

  /** The active flags the links end with once section `id` has matched. */
  function Highlight(hrefs: seq<string>, id: string): (flags: seq<bool>)
    ensures |flags| == |hrefs|
  {
    seq(|hrefs|, j requires 0 <= j < |hrefs| => hrefs[j] == "#" + id)
  }

  /** The active flags after one run of the handler, from flags `before`. */
  function AfterUpdate(before: seq<bool>, hrefs: seq<string>, sections: seq<Section>, scrollY: int): (flags: seq<bool>)
  {
    match LastMatch(sections, scrollY + PROBE_OFFSET)
    case None => before
    case Some(id) => Highlight(hrefs, id)
  }

  /** The section that matches last decides the result: no later section can override it. */
  lemma {:induction false} LastMatchIsLast(sections: seq<Section>, probe: int, i: nat)
    requires i < |sections| && Contains(sections[i], probe)
    requires forall k :: i < k < |sections| ==> !Contains(sections[k], probe)
    ensures LastMatch(sections, probe) == Some(sections[i].id)
  {
    if i < |sections| - 1 {
      var init := sections[..|sections| - 1];
      assert init[i] == sections[i];
      LastMatchIsLast(init, probe, i);
    }
  }

  /** If some section matches, exactly the links pointing at the last matching
      section are active afterwards; the other links are inactive. */
  lemma LastMatchWins(before: seq<bool>, hrefs: seq<string>, sections: seq<Section>, scrollY: int, i: nat)
    requires i < |sections| && Contains(sections[i], scrollY + PROBE_OFFSET)
    requires forall k :: i < k < |sections| ==> !Contains(sections[k], scrollY + PROBE_OFFSET)
    ensures |AfterUpdate(before, hrefs, sections, scrollY)| == |hrefs|
    ensures forall j :: 0 <= j < |hrefs| ==>
              (AfterUpdate(before, hrefs, sections, scrollY)[j] <==> hrefs[j] == "#" + sections[i].id)
  {
    LastMatchIsLast(sections, scrollY + PROBE_OFFSET, i);
  }

  /** If no section matches, no link's flag changes. */
  lemma NoMatchKeepsFlags(before: seq<bool>, hrefs: seq<string>, sections: seq<Section>, scrollY: int)
    requires forall k :: 0 <= k < |sections| ==> !Contains(sections[k], scrollY + PROBE_OFFSET)
    ensures AfterUpdate(before, hrefs, sections, scrollY) == before
  {
  }

  /** Sections laid out one after the other, each of positive height. */
  ghost predicate Tiled(sections: seq<Section>)
  {
    && (forall i :: 0 <= i < |sections| ==> sections[i].height > 0)
    && (forall i :: 0 < i < |sections| ==> sections[i].top == sections[i - 1].top + sections[i - 1].height)
  }

  /** In a tiled layout a later section starts at or below the end of an earlier one. */
  lemma {:induction false} TiledOrdered(sections: seq<Section>, i: nat, j: nat)
    requires Tiled(sections) && i < j < |sections|
    ensures sections[i].top + sections[i].height <= sections[j].top
    decreases j - i
  {
    if i + 1 < j {
      TiledOrdered(sections, i + 1, j);
    }
  }

  /** In a tiled layout at most one section contains the probe, so "last
      match wins" picks the only match. */
  lemma TiledAtMostOneMatch(sections: seq<Section>, probe: int, i: nat, j: nat)
    requires Tiled(sections) && i < |sections| && j < |sections|
    requires Contains(sections[i], probe) && Contains(sections[j], probe)
    ensures i == j
  {
    if i < j {
      TiledOrdered(sections, i, j);
    } else if j < i {
      TiledOrdered(sections, j, i);
    }
  }

  /**
   * The nav links: their hrefs, fixed, and their `active` classes, which
   * the handler updates in place.
   */
  class NavMenu {
    const hrefs: seq<string>
    const active: array<bool>

    ghost predicate Valid()
      reads this
    {
      active.Length == |hrefs|
    }

    constructor (hrefs: seq<string>, flags: seq<bool>)
      requires |flags| == |hrefs|
      ensures Valid() && this.hrefs == hrefs && active[..] == flags && fresh(active)
    {
      this.hrefs := hrefs;
      active := new bool[|flags|](j requires 0 <= j < |flags| => flags[j]);
    }

    /** `updateActiveNavLink`: the nested loops over sections and links. */
    method UpdateActiveNavLink(sections: seq<Section>, scrollY: int)
      requires Valid()
      modifies active
      ensures active[..] == AfterUpdate(old(active[..]), hrefs, sections, scrollY)
    {
      var scrollPosition := scrollY + PROBE_OFFSET;
      for i := 0 to |sections|
        invariant active[..] == AfterUpdate(old(active[..]), hrefs, sections[..i], scrollY)
      {
        assert sections[..i + 1][..i] == sections[..i];
        var section := sections[i];
        if scrollPosition >= section.top && scrollPosition < section.top + section.height {
          for j := 0 to active.Length
            invariant forall k :: 0 <= k < j ==> active[k] == (hrefs[k] == "#" + section.id)
            invariant forall k :: j <= k < active.Length ==> active[k] == AfterUpdate(old(active[..]), hrefs, sections[..i], scrollY)[k]
          {
            active[j] := false;
            if hrefs[j] == "#" + section.id {
              active[j] := true;
            }
          }
          assert active[..] == Highlight(hrefs, section.id);
        }
      }
      assert sections[..|sections|] == sections;
    }
  }
}
