/**
 * The RefinementList widget: its configuration (attribute, operator, limit,
 * sort order), how it rebuilds its facets from a search result
 * (`onUpdateView`), how it empties them (`onReset`) and how a click on a
 * row toggles a refinement.
 *
 * A search result is the part of the JSON response the widget reads: the
 * `facets` object, mapping each attribute to an object from facet value to
 * count. A JSON object's keys are distinct; their iteration order is the
 * order of the sequence.
 */
module View {
  import opened Wrappers
  import opened SortOrder
  import opened Comparator
  import opened Facets
  import opened Adapter

  const OperatorOr := 0
  const OperatorAnd := 1
  const DefaultLimit := 10

  /** One key of an attribute's facet object, with its count. */
  datatype FacetCount = FacetCount(value: string, count: int)

  ghost predicate DistinctKeys(entries: seq<FacetCount>) {
    forall i, j :: 0 <= i < j < |entries| ==> entries[i].value != entries[j].value
  }

  /** The facet object of one attribute: its keys in iteration order. */
  type FacetCounts = entries: seq<FacetCount> | DistinctKeys(entries)

  /** A search result: the `facets` object, when the response has one. */
  datatype Content = Content(facets: Option<map<string, FacetCounts>>)

  /** The keys of an attribute's facet object. */
  function Keys(entries: seq<FacetCount>): set<string> {
    set i | 0 <= i < |entries| :: entries[i].value
  }

  /**
   * The facets built from an attribute's facet object, in key order: each
   * key with its count, refined exactly when its value was active.
   */
  function Built(entries: seq<FacetCount>, active: set<string>): (r: seq<FacetData>)
    ensures |r| == |entries|
    ensures forall i :: 0 <= i < |r| ==> r[i].value == entries[i].value && r[i].count == entries[i].count
    ensures forall i :: 0 <= i < |r| ==> (r[i].isEnabled <==> entries[i].value in active)
  {
    if entries == [] then []
    else [FacetData(entries[0].value, entries[0].count, entries[0].value in active)] + Built(entries[1..], active)
  }

  /** What a result does to the facets: nothing, reset every count to 0, or replace them by the attribute's entries. */
  datatype Update = Keep | ResetCounts | Replace(entries: FacetCounts)

  /**
   * The outcome `onUpdateView` chooses for a result: nothing while loading
   * more or when the result has no `facets` object; the attribute's entries
   * when there are some; otherwise (no result, or no entries) zero counts.
   */
  function UpdateFor(attributeName: string, content: Option<Content>, isLoadingMore: bool): (u: Update)
    ensures u.Keep? <==> isLoadingMore || (content.Some? && content.value.facets.None?)
    ensures u.Replace? <==> && !isLoadingMore && content.Some? && content.value.facets.Some?
                            && attributeName in content.value.facets.value
                            && |content.value.facets.value[attributeName]| > 0
    ensures u.Replace? ==> u.entries == content.value.facets.value[attributeName]
  {
    if isLoadingMore then Keep
    else match content
      case None => ResetCounts
      case Some(c) =>
        match c.facets
        case None => Keep
        case Some(byAttribute) =>
          if attributeName in byAttribute && |byAttribute[attributeName]| > 0 then Replace(byAttribute[attributeName])
          else ResetCounts
  }

  /** The configuration read from the widget's layout attributes. */
  datatype Settings = Settings(attributeName: string, operator: int, limit: int, sortOrder: seq<string>)

  datatype ConfigError = MissingAttribute | BadSortOrder(error: SortError)

  /**
   * The constructor's reading of the layout attributes: the attribute is
   * mandatory, the operator defaults to OR, the limit to 10 and the sort
   * order to `count`. `parsed` is the JSON reading of `sortBy`.
   */
  function Configure(attribute: Option<string>, operator: Option<int>, limit: Option<int>,
                     sortBy: Option<string>, parsed: ArrayParse): (r: Result<Settings, ConfigError>)
    ensures attribute.None? ==> r == Failure(MissingAttribute)
    ensures attribute.Some? ==> (r.Failure? <==> ParsedSortOrder(sortBy, parsed).Failure?)
    ensures r.Failure? && attribute.Some? ==> r.error == BadSortOrder(ParsedSortOrder(sortBy, parsed).error)
    ensures r.Success? ==> r.value.attributeName == attribute.value
                           && r.value.operator == operator.GetOr(OperatorOr)
                           && r.value.limit == limit.GetOr(DefaultLimit)
    ensures r.Success? ==> forall k :: 0 <= k < |r.value.sortOrder| ==> IsSortKey(r.value.sortOrder[k])
    ensures r.Success? && sortBy.None? ==> r.value.sortOrder == [DefaultSort]
    ensures r.Success? && sortBy.Some? ==> ParsedSortOrder(sortBy, parsed) == Success(Some(r.value.sortOrder))
  {
    match attribute
    case None => Failure(MissingAttribute)
    case Some(name) =>
      match ParsedSortOrder(sortBy, parsed)
      case Failure(e) => Failure(BadSortOrder(e))
      case Success(keys) =>
        ParsedSortOrderKeys(sortBy, parsed);
        Success(Settings(name, operator.GetOr(OperatorOr), limit.GetOr(DefaultLimit), keys.GetOr([DefaultSort])))
  }

  /** The refinement the widget asks the searcher to apply or lift. */
  datatype RefinementRequest = RefinementRequest(attribute: string, value: string, enabled: bool)

  class RefinementList {
    const attributeName: string
    const operator: int
    const limit: int
    const sortOrder: seq<string>
    const adapter: FacetAdapter

    /**
     * The adapter shares the widget's limit and sort order, keeps its
     * invariant, records exactly the refined values of its facets, holds
     * facets with distinct values and shows no facet twice.
     */
    ghost predicate Valid()
      reads this, adapter, adapter.facets
    {
      && adapter.limit == limit && adapter.sortOrder == sortOrder
      && adapter.Valid() && adapter.Consistent()
      && Distinct(adapter.facets) && NoDuplicates(adapter.visible)
    }

    constructor (settings: Settings)
      ensures attributeName == settings.attributeName && operator == settings.operator
      ensures limit == settings.limit && sortOrder == settings.sortOrder
      ensures fresh(adapter) && adapter.facets == [] && adapter.visible == [] && adapter.activeFacets == {}
      ensures Valid()
    {
      attributeName := settings.attributeName;
      operator := settings.operator;
      limit := settings.limit;
      sortOrder := settings.sortOrder;
      adapter := new FacetAdapter(settings.limit, settings.sortOrder);
    }

    /** The building loop of `onUpdateView`: one new facet per key, refined when the adapter has its value active. */
    method BuildFacets(entries: FacetCounts) returns (r: seq<Facet>)
      requires Valid()
      ensures Snapshot(r) == Built(entries, adapter.activeFacets)
      ensures Distinct(r)
      ensures forall f :: f in r ==> fresh(f)
    {
      r := [];
      var i := 0;
      while i < |entries|
        invariant 0 <= i <= |entries| && |r| == i
        invariant forall k :: 0 <= k < i ==> r[k].Data() == Built(entries, adapter.activeFacets)[k]
        invariant Distinct(r)
        invariant forall f :: f in r ==> fresh(f)
      {
        var key := entries[i].value;
        var wasActive := adapter.HasActive(key);
        var facet := new Facet(key, entries[i].count, wasActive);
        r := r + [facet];
        i := i + 1;
      }
    }

    /** `clear` and `addAll`: the new facets, the first `limit` of them visible. */
    method Fill(items: seq<Facet>)
      requires Valid() && Distinct(items)
      modifies adapter
      ensures Valid()
      ensures adapter.facets == items
      ensures adapter.visible == items[..Min(|items|, VisibleCap(limit))]
      ensures adapter.activeFacets == EnabledValues(items)
    {
      adapter.Clear();
      adapter.AddAll(items);
      assert adapter.visible == items[..Min(|items|, VisibleCap(limit))];
      PrefixNoDuplicates(items, Min(|items|, VisibleCap(limit)));
    }

    /** `clear`, `addAll` and `sort` on a freshly built list of facets. */
    method ReplaceFacets(items: seq<Facet>)
      requires Valid() && Distinct(items)
      modifies adapter
      ensures Valid()
      ensures multiset(adapter.facets) == multiset(items) && Sorted(sortOrder, adapter.facets)
      ensures multiset(adapter.visible) == multiset(items[..Min(|items|, VisibleCap(limit))])
      ensures Sorted(sortOrder, adapter.visible)
      ensures adapter.activeFacets == EnabledValues(items)
      ensures forall f :: f in adapter.facets ==> f in items
      ensures multiset(Snapshot(adapter.facets)) == multiset(Snapshot(items))
      ensures multiset(Snapshot(adapter.visible)) == multiset(Snapshot(items)[..Min(|items|, VisibleCap(limit))])
    {
      Fill(items);
      adapter.Sort(sortOrder);
      ReorderedMembers(adapter.facets, items);
      ReorderedSnapshots(adapter.facets, adapter.visible, items, Min(|items|, VisibleCap(limit)));
    }

    /**
     * Replaces the facets by the entries of a non-empty facet object: new
     * facets, refined when their value was active, the first `limit` of them
     * visible, both lists sorted, the active set cut down to the keys.
     */
    method Rebuild(entries: FacetCounts)
      requires Valid() && |entries| > 0
      modifies adapter
      ensures Valid()
      ensures forall f :: f in adapter.facets ==> fresh(f)
      ensures multiset(Snapshot(adapter.facets)) == multiset(Built(entries, old(adapter.activeFacets)))
      ensures multiset(Snapshot(adapter.visible)) ==
                multiset(Built(entries, old(adapter.activeFacets))[..Min(|entries|, VisibleCap(limit))])
      ensures Sorted(sortOrder, adapter.facets) && Sorted(sortOrder, adapter.visible)
      ensures adapter.activeFacets == old(adapter.activeFacets) * Keys(entries)
    {
      ghost var active := adapter.activeFacets;
      ghost var built := Built(entries, active);
      ghost var shown := Min(|entries|, VisibleCap(limit));
      var newFacets := BuildFacets(entries);
      BuiltEnabled(newFacets, entries, active);
      ReplaceFacets(newFacets);
      assert Snapshot(newFacets) == built;
    }

    /**
     * `onUpdateView`: a page of more results changes nothing; a missing
     * result sets every count to 0; a result with a `facets` object either
     * replaces the facets by the attribute's entries, refined when their
     * value was active, with the first `limit` of them visible, both lists
     * sorted, or, when the attribute has no entries, sets every count to 0.
     */
    method OnUpdateView(content: Option<Content>, isLoadingMore: bool)
      requires Valid()
      modifies adapter, adapter.facets
      ensures Valid()
      ensures UpdateFor(attributeName, content, isLoadingMore).Keep? ==>
                unchanged(adapter) && unchanged(adapter.facets)
      ensures UpdateFor(attributeName, content, isLoadingMore).ResetCounts? ==>
                && adapter.facets == old(adapter.facets) && adapter.visible == old(adapter.visible)
                && adapter.activeFacets == old(adapter.activeFacets)
                && Snapshot(adapter.facets) == ZeroCounts(old(Snapshot(adapter.facets)))
                && Snapshot(adapter.visible) == ZeroCounts(old(Snapshot(adapter.visible)))
      ensures UpdateFor(attributeName, content, isLoadingMore).Replace? ==>
                var entries := UpdateFor(attributeName, content, isLoadingMore).entries;
                var built := Built(entries, old(adapter.activeFacets));
                && (forall f :: f in adapter.facets ==> fresh(f))
                && multiset(Snapshot(adapter.facets)) == multiset(built)
                && multiset(Snapshot(adapter.visible)) == multiset(built[..Min(|entries|, VisibleCap(limit))])
                && Sorted(sortOrder, adapter.facets) && Sorted(sortOrder, adapter.visible)
                && adapter.activeFacets == old(adapter.activeFacets) * Keys(entries)
    {
      if isLoadingMore {
        return;
      }
      if content.None? {
        adapter.ResetFacetCounts();
        return;
      }
      if content.value.facets.Some? {
        var byAttribute := content.value.facets.value;
        var entries: FacetCounts := [];
        if attributeName in byAttribute {
          entries := byAttribute[attributeName];
        }
        if |entries| > 0 {
          Rebuild(entries);
        } else {
          adapter.ResetFacetCounts();
        }
      }
    }

    /** `onReset`: empties both lists and the active set. */
    method OnReset()
      requires Valid()
      modifies adapter
      ensures Valid()
      ensures adapter.facets == [] && adapter.visible == [] && adapter.activeFacets == {}
    {
      adapter.Clear();
    }

    /**
     * The click on row `position`: flips the facet's refinement, records it
     * in the active set, sorts both lists again and asks the searcher to
     * apply or lift the refinement.
     */
    method OnFacetClick(position: nat) returns (request: RefinementRequest)
      requires Valid() && position < |adapter.visible|
      modifies adapter, adapter.visible[position]
      ensures Valid()
      ensures old(adapter.visible[position]).isEnabled == !old(adapter.visible[position].isEnabled)
      ensures old(adapter.visible[position]).count == old(adapter.visible[position].count)
      ensures request == RefinementRequest(attributeName, old(adapter.visible[position]).value, !old(adapter.visible[position].isEnabled))
      ensures adapter.activeFacets == if request.enabled then old(adapter.activeFacets) + {request.value}
                                      else old(adapter.activeFacets) - {request.value}
      ensures adapter.HasActive(request.value) == request.enabled
      ensures multiset(adapter.facets) == multiset(old(adapter.facets)) && Sorted(sortOrder, adapter.facets)
      ensures multiset(adapter.visible) == multiset(old(adapter.visible)) && Sorted(sortOrder, adapter.visible)
    {
      var facet := adapter.visible[position];
      assert facet in adapter.visible;
      ghost var k :| 0 <= k < |adapter.facets| && adapter.facets[k] == facet;
      ghost var all := adapter.facets;
      ghost var flags := seq(|all|, i requires 0 <= i < |all| reads all => all[i].isEnabled);
      ghost var before := EnabledValues(all);
      var enabled := !facet.isEnabled;
      facet.isEnabled := enabled;
      FlipEnabled(all, k, flags, before);
      adapter.UpdateActiveStatus(facet);
      request := RefinementRequest(attributeName, facet.value, facet.isEnabled);
    }
  }

  /** A prefix of a list without repeats has no repeats. */
  lemma PrefixNoDuplicates(s: seq<Facet>, n: int)
    requires Distinct(s) && 0 <= n <= |s|
    ensures NoDuplicates(s[..n])
  {
  }

  /** The snapshot of a prefix is the prefix of the snapshot. */
  lemma SnapshotPrefix(s: seq<Facet>, n: int)
    requires 0 <= n <= |s|
    ensures Snapshot(s[..n]) == Snapshot(s)[..n]
  {
  }

  /** Lists that reorder `items` and a prefix of it have the reordered field values. */
  lemma ReorderedSnapshots(all: seq<Facet>, shown: seq<Facet>, items: seq<Facet>, n: int)
    requires 0 <= n <= |items|
    requires multiset(all) == multiset(items) && multiset(shown) == multiset(items[..n])
    ensures multiset(Snapshot(all)) == multiset(Snapshot(items))
    ensures multiset(Snapshot(shown)) == multiset(Snapshot(items)[..n])
  {
    SnapshotPrefix(items, n);
    SnapshotPermutation(all, items);
    SnapshotPermutation(shown, items[..n]);
  }

  /** The refined values of freshly built facets are the active values among the keys. */
  lemma BuiltEnabled(r: seq<Facet>, entries: seq<FacetCount>, active: set<string>)
    requires Snapshot(r) == Built(entries, active)
    ensures EnabledValues(r) == active * Keys(entries)
  {
    assert forall i :: 0 <= i < |r| ==> r[i].Data() == Built(entries, active)[i];
    forall v | v in active * Keys(entries) ensures v in EnabledValues(r) {
      var i :| 0 <= i < |entries| && entries[i].value == v;
      assert r[i].isEnabled && r[i].value == v;
    }
  }

  /**
   * Delivering the same facet object again gives the same facets: the
   * active set a rebuild leaves behind refines the same keys as before.
   */
  lemma BuiltTwice(entries: seq<FacetCount>, active: set<string>)
    ensures Built(entries, active * Keys(entries)) == Built(entries, active)
  {
    var again, first := Built(entries, active * Keys(entries)), Built(entries, active);
    forall i | 0 <= i < |entries| ensures again[i] == first[i] {
      assert entries[i].value in Keys(entries);
    }
  }

  /**
   * Flipping the flag of one facet of a list with distinct values adds its
   * value to the refined values or takes it out. `flags` are the flags
   * before the flip and `before` the refined values they gave.
   */
  lemma FlipEnabled(s: seq<Facet>, k: nat, flags: seq<bool>, before: set<string>)
    requires Distinct(s) && k < |s| == |flags|
    requires before == set i | 0 <= i < |s| && flags[i] :: s[i].value
    requires forall i :: 0 <= i < |s| && i != k ==> s[i].isEnabled == flags[i]
    requires s[k].isEnabled == !flags[k]
    ensures EnabledValues(s) == if s[k].isEnabled then before + {s[k].value} else before - {s[k].value}
  {
    forall v | v in EnabledValues(s) && v != s[k].value ensures v in before {
      var i :| 0 <= i < |s| && s[i].isEnabled && s[i].value == v;
      assert i != k && flags[i];
    }
    forall v | v in before && v != s[k].value ensures v in EnabledValues(s) {
      var i :| 0 <= i < |s| && flags[i] && s[i].value == v;
      assert i != k && s[i].isEnabled;
    }
    if s[k].isEnabled {
      assert s[k].value in EnabledValues(s);
    } else {
      forall i | 0 <= i < |s| && s[i].isEnabled ensures s[i].value != s[k].value {
        assert i != k;
      }
      forall i | 0 <= i < |s| && flags[i] ensures s[i].value != s[k].value || i == k {
      }
    }
  }
}
