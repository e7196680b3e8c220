/** The choice of the active navigation link in `updateActiveLink` of
 *  script.js: on every scroll, the page section whose offset window holds
 *  the scroll position decides which link is highlighted.
 *
 *  Positions are whole pixels; the browser's `scrollY` may be fractional.
 */
module ActiveLink {
  import opened Wrappers

  /** A section is active from 100 pixels above its top. */
  const Offset: int := 100

  /** A `section[id]` or `footer[id]` of the page: its id, its `offsetTop`
      and its `offsetHeight`. */
  datatype Section = Section(id: string, top: int, height: int)

  /** The scroll positions at which a section counts as the one in view. */
  predicate InWindow(s: Section, scrollY: int)
  {
    s.top - Offset <= scrollY < s.top + s.height - Offset
  }

  /** The position of the last of the first n sections whose window holds
      `scrollY`, if any. */
  function LastInWindow(sections: seq<Section>, scrollY: int, n: nat): (r: Option<nat>)
    requires n <= |sections|
    ensures r.None? <==> forall k :: 0 <= k < n ==> !InWindow(sections[k], scrollY)
    ensures r.Some? ==>
      r.value < n && InWindow(sections[r.value], scrollY) &&
      forall k :: r.value < k < n ==> !InWindow(sections[k], scrollY)
  {
    if n == 0 then None
    else if InWindow(sections[n - 1], scrollY) then Some(n - 1)
    else LastInWindow(sections, scrollY, n - 1)
  }

  /** The id of the active section among the first n, or `''` when none is
      in view. */
  function ActiveIdAmong(sections: seq<Section>, scrollY: int, n: nat): string
    requires n <= |sections|
  {
    match LastInWindow(sections, scrollY, n)
    case None => ""
    case Some(j) => sections[j].id
  }

  /** The loop of `updateActiveLink`: every section in document order whose
      window holds the scroll position overwrites the active id, so the last
      such section wins, and none leaves it empty. */
  method SelectActive(sections: seq<Section>, scrollY: int) returns (activeId: string)
    ensures (forall k :: 0 <= k < |sections| ==> !InWindow(sections[k], scrollY)) ==> activeId == ""
    ensures (exists k :: 0 <= k < |sections| && InWindow(sections[k], scrollY)) ==>
      exists j :: 0 <= j < |sections| && InWindow(sections[j], scrollY) && activeId == sections[j].id &&
        forall k :: j < k < |sections| ==> !InWindow(sections[k], scrollY)
  {
    activeId := "";
    var i := 0;
    while i < |sections|
      invariant 0 <= i <= |sections|
      invariant activeId == ActiveIdAmong(sections, scrollY, i)
    {
      var section := sections[i];
      if scrollY >= section.top - Offset && scrollY < section.top + section.height - Offset {
        activeId := section.id;
      }
      i := i + 1;
    }
  }

  /** Windows of sections that do not overlap pick at most one section, so
      the active id is then the id of the one section in view. */
  lemma {:induction false} DisjointWindowsPickTheOne(sections: seq<Section>, scrollY: int, j: nat)
    requires j < |sections| && InWindow(sections[j], scrollY)
    requires forall a, b :: 0 <= a < b < |sections| ==> sections[a].top + sections[a].height <= sections[b].top
    ensures ActiveIdAmong(sections, scrollY, |sections|) == sections[j].id
  {
    var r := LastInWindow(sections, scrollY, |sections|);
    assert r.Some? && r.value >= j;
    if r.value > j {
      assert false;
    }
  }
}
