/**
 * The FacetAdapter of a RefinementList: the full facet list `facets`, the
 * visible list (the ArrayAdapter's own list, capped at `limit` on insertion)
 * and the set `activeFacets` of refined values. Both lists hold the same
 * Facet objects.
 */
module Adapter {
  import opened Comparator
  import opened Facets

  /** How many facets the visible list takes: `limit`, and none when `limit` is negative. */
  function VisibleCap(limit: int): nat {
    if limit < 0 then 0 else limit
  }

  function Min(a: int, b: int): int {
    if a < b then a else b
  }

  /** The field values with every count set to 0. */
  function ZeroCounts(d: seq<FacetData>): (r: seq<FacetData>)
    ensures |r| == |d|
    ensures forall i :: 0 <= i < |d| ==> r[i] == d[i].(count := 0)
  {
    if d == [] then [] else [d[0].(count := 0)] + ZeroCounts(d[1..])
  }

  /** Extending the consumed prefix of `s` by one element appends that element. */
  lemma AppendNext<T>(a: seq<T>, s: seq<T>, i: nat)
    requires i < |s|
    ensures s[..i + 1] == s[..i] + [s[i]]
    ensures a + s[..i + 1] == (a + s[..i]) + [s[i]]
  {
    assert s[..i + 1] == s[..i] + [s[i]];
  }

  class FacetAdapter {
    /** The display limit and the sort keys of the enclosing RefinementList. */
    const limit: int
    const sortOrder: seq<string>

    /** Every facet of the latest result. */
    var facets: seq<Facet>
    /** The facets handed to the list view: the ArrayAdapter's own list. */
    var visible: seq<Facet>
    /** The refined facet values. */
    var activeFacets: set<string>

    /** Every visible facet is in the full list, and the visible list never exceeds the limit. */
    ghost predicate Valid()
      reads this
    {
      |visible| <= VisibleCap(limit) && forall f :: f in visible ==> f in facets
    }

    /** The active set is exactly the set of values of refined facets in the full list. */
    ghost predicate Consistent()
      reads this, facets
    {
      activeFacets == EnabledValues(facets)
    }

    constructor (limit: int, sortOrder: seq<string>)
      ensures this.limit == limit && this.sortOrder == sortOrder
      ensures facets == [] && visible == [] && activeFacets == {}
      ensures Valid() && Consistent() && Distinct(facets)
    {
      this.limit := limit;
      this.sortOrder := sortOrder;
      facets := [];
      visible := [];
      activeFacets := {};
    }

    /** `clear`: empties the visible list, the active set and the full list. */
    method Clear()
      modifies this
      ensures facets == [] && visible == [] && activeFacets == {}
      ensures Valid() && Consistent() && Distinct(facets)
    {
      visible := [];
      activeFacets := {};
      facets := [];
    }

    /**
     * `addFacet`: appends to the full list, to the visible list while it is
     * below the limit, and records the value as active when the facet is refined.
     */
    method AddFacet(facet: Facet)
      requires Valid()
      modifies this
      ensures facets == old(facets) + [facet]
      ensures visible == if |old(visible)| < limit then old(visible) + [facet] else old(visible)
      ensures activeFacets == if facet.isEnabled then old(activeFacets) + {facet.value} else old(activeFacets)
      ensures Valid()
      ensures old(Consistent()) ==> Consistent()
      ensures old(Distinct(facets)) && facet.value !in Values(old(facets)) ==> Distinct(facets)
    {
      EnabledValuesAppend(facets, facet);
      AppendDistinct(facets, facet);
      facets := facets + [facet];
      if |visible| < limit {
        visible := visible + [facet];
      }
      if facet.isEnabled {
        activeFacets := activeFacets + {facet.value};
      }
    }

    /** `addAll`: `addFacet` for each item in turn. */
    method AddAll(items: seq<Facet>)
      requires Valid()
      modifies this
      ensures facets == old(facets) + items
      ensures visible == old(visible) + items[..Min(|items|, VisibleCap(limit) - |old(visible)|)]
      ensures activeFacets == old(activeFacets) + EnabledValues(items)
      ensures Valid()
      ensures old(Consistent()) ==> Consistent()
      ensures old(facets) == [] && Distinct(items) ==> Distinct(facets)
    {
      ghost var room := VisibleCap(limit) - |visible|;
      ghost var v0, f0, a0 := visible, facets, activeFacets;
      ghost var data := Snapshot(items);
      RefinedValuesSnapshot(items);
      var i := 0;
      while i < |items|
        invariant 0 <= i <= |items|
        invariant facets == f0 + items[..i]
        invariant visible == v0 + items[..Min(i, room)]
        invariant activeFacets == a0 + RefinedValues(data[..i])
        invariant Valid()
      {
        ghost var v := visible;
        AppendNext(f0, items, i);
        RefinedValuesNext(data, i);
        assert data[i] == items[i].Data();
        AddFacet(items[i]);
        if i < room {
          assert |v| < limit;
          AppendNext(v0, items, i);
        } else {
          assert visible == v;
        }
        i := i + 1;
      }
      assert items[..i] == items && data[..i] == data;
      EnabledValuesConcat(f0, items);
    }

    /** `remove`: drops the first occurrence of the facet from both lists, and its value from the active set. */
    method Remove(facet: Facet)
      requires Valid()
      modifies this
      ensures visible == RemoveFirst(old(visible), facet)
      ensures facets == RemoveFirst(old(facets), facet)
      ensures activeFacets == old(activeFacets) - {facet.value}
      ensures |visible| <= VisibleCap(limit)
      ensures old(Distinct(facets)) && old(NoDuplicates(visible)) ==> Valid() && NoDuplicates(visible)
      ensures old(Consistent()) && old(Distinct(facets)) && (facet in old(facets) || facet.value !in Values(old(facets))) ==>
                Consistent() && Distinct(facets)
    {
      visible := RemoveFirst(visible, facet);
      facets := RemoveFirst(facets, facet);
      activeFacets := activeFacets - {facet.value};
      if Distinct(old(facets)) {
        if facet in old(facets) {
          RemoveFirstEnabled(old(facets), facet);
        }
        if NoDuplicates(old(visible)) {
          RemoveFirstKeepsOthers(old(facets), facet);
          RemoveFirstNoDuplicates(old(visible), facet);
        }
      }
    }

    /** `sort`: sorts the visible list and the full list with the same comparator. */
    method Sort(order: seq<string>)
      requires Valid()
      modifies this
      ensures multiset(facets) == multiset(old(facets)) && Sorted(order, facets)
      ensures multiset(visible) == multiset(old(visible)) && Sorted(order, visible)
      ensures activeFacets == old(activeFacets)
      ensures Valid()
      ensures old(Consistent()) ==> Consistent()
      ensures old(Distinct(facets)) ==> Distinct(facets)
      ensures old(NoDuplicates(visible)) ==> NoDuplicates(visible)
    {
      SortVisible(order);
      SortFull(order);
    }

    /** The ArrayAdapter half of `sort`. */
    method SortVisible(order: seq<string>)
      requires Valid()
      modifies this
      ensures facets == old(facets) && activeFacets == old(activeFacets)
      ensures multiset(visible) == multiset(old(visible)) && Sorted(order, visible)
      ensures Valid()
      ensures old(NoDuplicates(visible)) ==> NoDuplicates(visible)
    {
      var sorted := SortFacets(order, visible);
      ReorderedMembers(sorted, visible);
      if NoDuplicates(visible) {
        NoDuplicatesPermutation(sorted, visible);
      }
      visible := sorted;
    }

    /** The full-list half of `sort`. */
    method SortFull(order: seq<string>)
      requires Valid()
      modifies this
      ensures visible == old(visible) && activeFacets == old(activeFacets)
      ensures multiset(facets) == multiset(old(facets)) && Sorted(order, facets)
      ensures Valid()
      ensures old(Consistent()) ==> Consistent()
      ensures old(Distinct(facets)) ==> Distinct(facets)
    {
      var sorted := SortFacets(order, facets);
      ReorderedMembers(sorted, facets);
      EnabledValuesPermutation(sorted, facets);
      if Distinct(facets) {
        DistinctPermutation(sorted, facets);
      }
      facets := sorted;
    }

    /** `hasActive`: whether the value is recorded as refined. */
    function HasActive(facetName: string): (r: bool)
      reads this, facets
      ensures Consistent() ==> (r <==> exists i :: 0 <= i < |facets| && facets[i].isEnabled && facets[i].value == facetName)
    {
      facetName in activeFacets
    }

    /** `updateActiveStatus`: records the facet's flag in the active set, then sorts both lists. */
    method UpdateActiveStatus(facet: Facet)
      requires Valid()
      modifies this
      ensures activeFacets == if facet.isEnabled then old(activeFacets) + {facet.value} else old(activeFacets) - {facet.value}
      ensures multiset(facets) == multiset(old(facets)) && Sorted(sortOrder, facets)
      ensures multiset(visible) == multiset(old(visible)) && Sorted(sortOrder, visible)
      ensures EnabledValues(facets) == old(EnabledValues(facets))
      ensures Valid()
      ensures old(Distinct(facets)) ==> Distinct(facets)
      ensures old(NoDuplicates(visible)) ==> NoDuplicates(visible)
    {
      if facet.isEnabled {
        activeFacets := activeFacets + {facet.value};
      } else {
        activeFacets := activeFacets - {facet.value};
      }
      ghost var before := facets;
      Sort(sortOrder);
      EnabledValuesPermutation(facets, before);
    }

    /**
     * `resetFacetCounts`: every facet of the full list gets count 0, seen
     * through both lists; flags, membership, order and the active set stay.
     */
    method ResetFacetCounts()
      requires Valid()
      modifies facets
      ensures forall f :: f in facets ==> f.count == 0 && f.isEnabled == old(f.isEnabled)
      ensures Snapshot(facets) == ZeroCounts(old(Snapshot(facets)))
      ensures Snapshot(visible) == ZeroCounts(old(Snapshot(visible)))
      ensures old(Consistent()) ==> Consistent()
    {
      var i := 0;
      while i < |facets|
        invariant 0 <= i <= |facets|
        invariant forall f :: f in facets ==> f.isEnabled == old(f.isEnabled)
        invariant forall k :: 0 <= k < i ==> facets[k].count == 0
      {
        facets[i].count := 0;
        i := i + 1;
      }
      assert EnabledValues(facets) == old(EnabledValues(facets));
    }
  }
}
