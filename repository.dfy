/**
 * The in-memory repository: components by id, BOM headers per component,
 * and BOM items in insertion order. Queries filter on effectivity dates and
 * alternatives; a missing effective date defaults to the caller's `now`.
 */
module Repository {
  import opened Models
  import opened Seqs

  /** The header's alternative matches the requested one (None asks for a header without one). */
  predicate AlternativeMatches(h: BomHeader, alternative: Option<string>)
  {
    match alternative
    case Some(alt) => h.alternative == Some(alt)
    case None => h.alternative.None?
  }

  /** The header selected for `alternative` at `date`. */
  predicate HeaderMatches(h: BomHeader, alternative: Option<string>, date: int)
  {
    && AlternativeMatches(h, alternative)
    && WithinWindow(h.effectiveFrom, h.effectiveTo, date)
  }

  /** Index of the first header that matches, if any. */
  function FirstMatch(hs: seq<BomHeader>, alternative: Option<string>, date: int): (r: Option<nat>)
    ensures r.Some? ==> r.value < |hs| && HeaderMatches(hs[r.value], alternative, date)
    ensures r.Some? ==> forall j :: 0 <= j < r.value ==> !HeaderMatches(hs[j], alternative, date)
    ensures r.None? ==> forall j :: 0 <= j < |hs| ==> !HeaderMatches(hs[j], alternative, date)
  {
    if hs == [] then None
    else if HeaderMatches(hs[0], alternative, date) then Some(0)
    else match FirstMatch(hs[1..], alternative, date)
      case None => None
      case Some(k) => Some(k + 1)
  }

  /** Looks every id up in order; the first missing one aborts with its id. */
  function LookupAll(components: map<ComponentId, Component>, ids: seq<ComponentId>): (r: Result<seq<Component>>)
    ensures r.Ok? <==> forall i :: 0 <= i < |ids| ==> ids[i] in components
    ensures r.Ok? ==> |r.value| == |ids| && forall i :: 0 <= i < |ids| ==> r.value[i] == components[ids[i]]
    ensures r.Err? ==> exists i :: (0 <= i < |ids| && ids[i] !in components && r.error == ComponentNotFound(ids[i])
      && forall j :: 0 <= j < i ==> ids[j] in components)
  {
    if ids == [] then Ok([])
    else if ids[0] !in components then Err(ComponentNotFound(ids[0]))
    else match LookupAll(components, ids[1..])
      case Err(e) =>
        assert forall j :: 1 <= j < |ids| ==> ids[j] == ids[1..][j - 1];
        Err(e)
      case Ok(rest) => Ok([components[ids[0]]] + rest)
  }

  class InMemoryRepository {
    var components: map<ComponentId, Component>
    var headers: map<ComponentId, seq<BomHeader>>
    var items: seq<BomItem>

    constructor ()
      ensures components == map[] && headers == map[] && items == []
    {
      components := map[];
      headers := map[];
      items := [];
    }

    /** Inserts or replaces the component stored under its id. */
    method AddComponent(c: Component)
      modifies this
      ensures GetComponent(c.id) == Ok(c)
      ensures forall id :: id != c.id ==> GetComponent(id) == old(GetComponent(id))
      ensures components == old(components)[c.id := c]
      ensures headers == old(headers) && items == old(items)
    {
      components := components[c.id := c];
    }

    /** Appends the header to its component's header list. */
    method AddBomHeader(h: BomHeader)
      modifies this
      ensures h.componentId in headers
      ensures headers[h.componentId] == (if h.componentId in old(headers) then old(headers)[h.componentId] else []) + [h]
      ensures forall id :: id != h.componentId ==> (id in headers <==> id in old(headers))
      ensures forall id :: id != h.componentId && id in headers ==> headers[id] == old(headers)[id]
      ensures components == old(components) && items == old(items)
    {
      var existing := if h.componentId in headers then headers[h.componentId] else [];
      headers := headers[h.componentId := existing + [h]];
    }

    /** Appends the item; the item list keeps insertion order. */
    method AddBomItem(item: BomItem)
      modifies this
      ensures items == old(items) + [item]
      ensures GetAllBomItems() == old(GetAllBomItems()) + [item]
      ensures components == old(components) && headers == old(headers)
    {
      items := items + [item];
    }

    /** The stored component, or `ComponentNotFound(id)`. */
    function GetComponent(id: ComponentId): (r: Result<Component>)
      reads this
      ensures r.Ok? <==> id in components
      ensures r.Ok? ==> r.value == components[id]
      ensures r.Err? ==> r.error == ComponentNotFound(id)
    {
      if id in components then Ok(components[id]) else Err(ComponentNotFound(id))
    }

    /** The components for `ids` in input order, or the first missing id's error. */
    function GetComponents(ids: seq<ComponentId>): (r: Result<seq<Component>>)
      reads this
      ensures r.Ok? <==> forall i :: 0 <= i < |ids| ==> GetComponent(ids[i]).Ok?
      ensures r.Ok? ==> |r.value| == |ids| && forall i :: 0 <= i < |ids| ==> Ok(r.value[i]) == GetComponent(ids[i])
      ensures r.Err? ==> exists i :: 0 <= i < |ids| && GetComponent(ids[i]).Err? && r.error == ComponentNotFound(ids[i])
    {
      LookupAll(components, ids)
    }

    /**
     * The first header of the component whose alternative matches and whose
     * effectivity window holds the date (`now` when none is given).
     */
    function GetBomHeader(id: ComponentId, alternative: Option<string>, date: Option<int>, now: int): (r: Result<BomHeader>)
      reads this
      ensures r.Ok? <==> id in headers && exists j :: 0 <= j < |headers[id]| && HeaderMatches(headers[id][j], alternative, date.GetOr(now))
      ensures r.Ok? ==> exists j :: (0 <= j < |headers[id]| && r.value == headers[id][j]
        && HeaderMatches(r.value, alternative, date.GetOr(now))
        && forall k :: 0 <= k < j ==> !HeaderMatches(headers[id][k], alternative, date.GetOr(now)))
      ensures r.Err? ==> r.error == BomNotFound(id)
    {
      if id !in headers then Err(BomNotFound(id))
      else match FirstMatch(headers[id], alternative, date.GetOr(now))
        case None => Err(BomNotFound(id))
        case Some(j) => Ok(headers[id][j])
    }

    /** The direct items of `parent` effective at the date (`now` when none is given), in insertion order. */
    function GetBomItems(parent: ComponentId, date: Option<int>, now: int): (r: seq<BomItem>)
      reads this
      ensures forall it :: it in r <==> it in items && it.parentId == parent && IsEffectiveAt(it, date.GetOr(now))
      ensures Subsequence(r, items)
    {
      var d := date.GetOr(now);
      Filter(items, (it: BomItem) => it.parentId == parent && IsEffectiveAt(it, d))
    }

    /** Every stored item, unchanged and in order. */
    function GetAllBomItems(): (r: seq<BomItem>)
      reads this
      ensures |r| == |items| && forall k :: 0 <= k < |r| ==> r[k] == items[k]
    {
      items
    }

    /** The items whose child is `child`, in insertion order. */
    function FindParents(child: ComponentId): (r: seq<BomItem>)
      reads this
      ensures forall it :: it in r <==> it in items && it.childId == child
      ensures Subsequence(r, items)
    {
      Filter(items, (it: BomItem) => it.childId == child)
    }
  }
}
