/**
 * The active-link state of the outline panel: the IntersectionObserver
 * callback of setupScrollSpy (blog.js:275-289) and the click handler of
 * setupTOCLinks (blog.js:298-320).
 */
module ScrollSpy {
  import opened Wrappers

  /** One observer entry: the observed heading's id and whether it is in the band. */
  datatype Entry = Entry(targetId: string, isIntersecting: bool)

  /** `document.querySelector('[data-heading-id="<id>"]')`: the first link targeting `id`. */
  function FirstLinkFor(ids: seq<string>, id: string): (r: Option<nat>)
    ensures r.Some? ==> r.value < |ids| && ids[r.value] == id
    ensures r.Some? ==> forall j | 0 <= j < r.value :: ids[j] != id
    ensures r.None? ==> forall j | 0 <= j < |ids| :: ids[j] != id
  {
    if ids == [] then None
    else if ids[0] == id then Some(0)
    else match FirstLinkFor(ids[1..], id)
      case None => None
      case Some(k) => Some(k + 1)
  }

  /** The heading of the last intersecting entry of a batch, if any entry intersects. */
  function LastIntersecting(entries: seq<Entry>): (r: Option<string>)
    ensures r.None? <==> forall k | 0 <= k < |entries| :: !entries[k].isIntersecting
    ensures r.Some? ==> exists k | 0 <= k < |entries| ::
      && entries[k].isIntersecting && entries[k].targetId == r.value
      && forall m | k < m < |entries| :: !entries[m].isIntersecting
  {
    if entries == [] then None
    else
      var last := entries[|entries| - 1];
      if last.isIntersecting then Some(last.targetId)
      else LastIntersecting(entries[..|entries| - 1])
  }

  /** The `.toc-link` elements of one rendered outline and their "active" class. */
  class TocLinks {
    /** The `data-heading-id` of each link, in document order. */
    const ids: seq<string>
    /** Whether each link carries the "active" class. */
    const active: array<bool>

    ghost predicate Valid() {
      active.Length == |ids|
    }

    /** At most one link is highlighted. */
    ghost predicate AtMostOneActive()
      reads active
    {
      forall j, k | 0 <= j < active.Length && 0 <= k < active.Length :: active[j] && active[k] ==> j == k
    }

    /** Freshly rendered links: none is active. */
    constructor (linkIds: seq<string>)
      ensures Valid() && ids == linkIds && fresh(active)
      ensures forall k | 0 <= k < active.Length :: !active[k]
      ensures AtMostOneActive()
    {
      ids := linkIds;
      active := new bool[|linkIds|](_ => false);
    }

    /** `tocLinks.forEach((link) => link.classList.remove("active"))`. */
    method ClearActive()
      modifies active
      ensures forall k | 0 <= k < active.Length :: !active[k]
    {
      for k := 0 to active.Length
        invariant forall j | 0 <= j < k :: !active[j]
      {
        active[k] := false;
      }
    }

    /**
     * The observer callback: each intersecting entry clears every link and
     * activates the first link for its heading. After the batch, only the
     * link for the last intersecting entry is active; a batch with no
     * intersecting entry changes nothing.
     */
    method OnIntersections(entries: seq<Entry>)
      requires Valid() && AtMostOneActive()
      modifies active
      ensures AtMostOneActive()
      ensures LastIntersecting(entries).None? ==> active[..] == old(active[..])
      ensures LastIntersecting(entries).Some? ==> forall k | 0 <= k < active.Length ::
        active[k] <==> FirstLinkFor(ids, LastIntersecting(entries).value) == Some(k)
    {
      for e := 0 to |entries|
        invariant LastIntersecting(entries[..e]).None? ==> active[..] == old(active[..])
        invariant LastIntersecting(entries[..e]).Some? ==> forall k | 0 <= k < active.Length ::
          active[k] <==> FirstLinkFor(ids, LastIntersecting(entries[..e]).value) == Some(k)
        invariant AtMostOneActive()
      {
        assert entries[..e + 1][..e] == entries[..e];
        if entries[e].isIntersecting {
          ClearActive();
          var link := FirstLinkFor(ids, entries[e].targetId);
          if link.Some? {
            active[link.value] := true;
          }
        }
      }
      assert entries[..|entries|] == entries;
    }

    /**
     * The click handler of link `k`: when the heading it points to exists,
     * exactly that link becomes active; otherwise nothing changes.
     */
    method OnClick(k: nat, targetExists: bool)
      requires Valid() && k < |ids|
      modifies active
      ensures targetExists ==> forall j | 0 <= j < active.Length :: active[j] <==> j == k
      ensures !targetExists ==> active[..] == old(active[..])
      ensures targetExists || old(AtMostOneActive()) ==> AtMostOneActive()
    {
      if targetExists {
        ClearActive();
        active[k] := true;
      }
    }
  }
}
