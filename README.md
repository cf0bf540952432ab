# RefinementList: a Dafny model of the facet refinement widget

This project models the state engine of the Android `RefinementList` widget
of InstantSearch. The widget shows the facet values of one attribute of a
search index, each with its hit count, and lets the user tick values on and
off to refine the search. The model covers the following parts:

- **Sort order configuration** (`sort_order.dfy`, module `SortOrder`): the
  `sortBy` attribute is either one of the keys `count`, `isRefined`,
  `name:asc` and `name:desc`, or a bracketed JSON array of such keys.
  Anything else raises one of two errors: an invalid value or an invalid
  array.
- **The facet comparator** (`comparator.dfy`, module `Comparator`): it walks
  the sort keys and the first key that does not tie decides. The keys mean:
  - `count`: higher counts first;
  - `isRefined`: refined facets first;
  - `name:asc` and `name:desc`: the value under Java's `String.compareTo`.

  The comparator is proved to be a total preorder: reflexive, antisymmetric
  and transitive.
- **Facet objects** (`facet.dfy`, module `Facets`): a `Facet` is a mutable
  object (value, count, refinement flag). The list operations the adapter
  relies on live here: a comparator sort, and `List.remove` of the first
  occurrence.
- **The FacetAdapter** (`adapter.dfy`, module `Adapter`): a class with three
  fields:
  - the full list `facets`;
  - the visible list `visible` (the ArrayAdapter's own list);
  - the set `activeFacets` of refined values.

  Both lists hold the same objects. The class provides `clear`,
  `addFacet`, `addAll`, `remove`, `sort`, `hasActive`,
  `updateActiveStatus` and `resetFacetCounts`.
- **The widget** (`refinement_list.dfy`, module `View`):
  - the configuration the constructor reads;
  - `onUpdateView`, which rebuilds the facets from a search result, zeroes
    the counts, or leaves everything alone;
  - `onReset`;
  - the click on a row, which flips that facet's refinement, records it,
    re-sorts, and issues the refinement request for the searcher.

The widget's invariant `RefinementList.Valid` is kept by every operation. It
states that:
- the visible list never exceeds the limit;
- every visible facet is in the full list;
- the active set is exactly the set of values of refined facets;
- facet values in the full list are distinct;
- no facet is shown twice.

Behaviour follows the code where descriptions of the widget say otherwise:

- **Refined facets are not forced into the visible list.** After a rebuild,
  the visible list is the first `limit` facets in the order of the
  result's keys, sorted afterwards. It is not the top `limit` facets in
  comparator order, and a refined facet beyond the limit is not shown
  (`addFacet`, lines 322-333; `onUpdateView`, lines 150-153).
- **A click acts on a visible row by position.** There is no lookup by value
  and no failure for an unknown value (lines 294-301).
- **`clear` also empties the active set** (lines 246-251). A refinement
  therefore survives a rebuild only because `hasActive` is read while the
  new facets are built, before `clear` runs.
- **An empty array `[]` is accepted** and gives an empty sort order, under
  which every pair of facets compares equal.
- **A result whose `facets` object is absent changes nothing**
  (lines 135-158).

## Model

All source paths are relative to the repository root.

| member | source | states |
|---|---|---|
| SortOrder.AddSortOrderOrThrow | instantsearch/src/main/java/com/algolia/instantsearch/views/RefinementList.java:211-222 | Succeeds exactly for the four sort keys and appends the value. Otherwise it fails with the invalid-value error naming that value. |
| SortOrder.ParseSortOrder | instantsearch/src/main/java/com/algolia/instantsearch/views/RefinementList.java:178-209 | The parser's result equals the reference `ParsedSortOrder`: `None` for an absent attribute, a single key, the parsed array of keys, or the error thrown. |
| SortOrder.ParsedSortOrderKeys | instantsearch/src/main/java/com/algolia/instantsearch/views/RefinementList.java:178-209 | An absent attribute gives `None` (and only then), and a single key gives a one-element list. Every accepted list consists of sort keys only. |
| SortOrder.ParsedSortOrderErrors | instantsearch/src/main/java/com/algolia/instantsearch/views/RefinementList.java:185-205 | A non-key that does not start with `[` gives an invalid-value error, and an unparsable array gives an invalid-array error. A parsed array is accepted exactly when all its elements are keys. Otherwise the error names its first non-key element. |
| Comparator.KeyCompare | instantsearch/src/main/java/com/algolia/instantsearch/views/RefinementList.java:92-105 | One key's result: a string that is not a sort key ties. `count` is negative exactly when the left count is higher and ties exactly on equal counts. `isRefined` is negative exactly when only the left facet is refined and ties exactly on equal flags. |
| Comparator.Comparison | instantsearch/src/main/java/com/algolia/instantsearch/views/RefinementList.java:86-113 | The comparator is 0 exactly when every key of the sort order ties. |
| Comparator.Compare | instantsearch/src/main/java/com/algolia/instantsearch/views/RefinementList.java:86-113 | The comparator loop returns `Comparison`: the result of the first sort key that does not tie, or 0. |
| Comparator.KeyCompareMeaning | instantsearch/src/main/java/com/algolia/instantsearch/views/RefinementList.java:99-104 | The name keys, in both directions: `name:asc` is negative exactly when the left value is lexicographically smaller, `name:desc` exactly when it is larger, and each ties exactly for equal values. |
| Comparator.FirstNonZeroKeyDecides | instantsearch/src/main/java/com/algolia/instantsearch/views/RefinementList.java:89-111 | A non-zero comparison equals the result of the first key that does not tie, and all earlier keys tie. |
| Comparator.StringCompareIsLexicographic | instantsearch/src/main/java/com/algolia/instantsearch/views/RefinementList.java:99-103 | Java's `String.compareTo` is negative exactly when the first string is lexicographically smaller: it is a proper prefix of the second, or it has a smaller character at the first difference. |
| Comparator.StringCompareZero | instantsearch/src/main/java/com/algolia/instantsearch/views/RefinementList.java:99-103 | `String.compareTo` is 0 exactly for equal strings. |
| Comparator.StringCompareAntisymmetric | instantsearch/src/main/java/com/algolia/instantsearch/views/RefinementList.java:99-103 | Swapping the strings negates `String.compareTo`. |
| Comparator.StringCompareTransitive | instantsearch/src/main/java/com/algolia/instantsearch/views/RefinementList.java:99-103 | `String.compareTo` is transitive on strict precedence. |
| Comparator.ComparisonReflexive | instantsearch/src/main/java/com/algolia/instantsearch/views/RefinementList.java:86-113 | A facet compares equal to itself under any sort order. |
| Comparator.ComparisonAntisymmetric | instantsearch/src/main/java/com/algolia/instantsearch/views/RefinementList.java:86-113 | Swapping the facets negates the comparison. |
| Comparator.KeyCompareTransitive | instantsearch/src/main/java/com/algolia/instantsearch/views/RefinementList.java:92-105 | Each single key is transitive, for ties and for strict precedence. |
| Comparator.ComparisonTransitive | instantsearch/src/main/java/com/algolia/instantsearch/views/RefinementList.java:86-113 | The comparator is transitive for at-most and for strictly-before, so it is a total preorder and sorting with it is well defined. |
| Facets.RemoveFirst | instantsearch/src/main/java/com/algolia/instantsearch/views/RefinementList.java:269 | `List.remove` leaves a list without the facet unchanged, and otherwise shortens it by one. |
| Facets.RemoveFirstMultiset | instantsearch/src/main/java/com/algolia/instantsearch/views/RefinementList.java:266-270 | Removing a facet that is present removes exactly one occurrence and keeps all the others. |
| Facets.SortFacets | instantsearch/src/main/java/com/algolia/instantsearch/views/RefinementList.java:273-277 | Sorting returns a permutation of the list in comparator order. |
| Facets.EnabledValuesPermutation | instantsearch/src/main/java/com/algolia/instantsearch/views/RefinementList.java:273-277 | Reordering a list does not change the values of its refined facets. |
| Adapter.FacetAdapter.constructor | instantsearch/src/main/java/com/algolia/instantsearch/views/RefinementList.java:232-244 | A new adapter has empty lists and an empty active set, and satisfies the adapter invariants. |
| Adapter.FacetAdapter.Clear | instantsearch/src/main/java/com/algolia/instantsearch/views/RefinementList.java:246-251 | Both lists and the active set are empty afterwards. |
| Adapter.FacetAdapter.AddFacet | instantsearch/src/main/java/com/algolia/instantsearch/views/RefinementList.java:322-333 | Appends to the full list. Appends to the visible list exactly when that list is below the limit. Adds the value to the active set exactly when the facet is refined. Keeps the invariants, and keeps values distinct when the new value is fresh. |
| Adapter.FacetAdapter.AddAll | instantsearch/src/main/java/com/algolia/instantsearch/views/RefinementList.java:258-263 | Appends all items to the full list. Appends the items that fit under the limit to the visible list. Adds the refined items' values to the active set. Keeps the invariants. |
| Adapter.FacetAdapter.Remove | instantsearch/src/main/java/com/algolia/instantsearch/views/RefinementList.java:265-271 | Removes the first occurrence of the facet from both lists, and removes its value from the active set. Keeps the cap, membership, distinctness and the active-set invariant. |
| Adapter.FacetAdapter.Sort | instantsearch/src/main/java/com/algolia/instantsearch/views/RefinementList.java:273-277 | Both lists become permutations of themselves in comparator order. The active set and all invariants are unchanged. |
| Adapter.FacetAdapter.HasActive | instantsearch/src/main/java/com/algolia/instantsearch/views/RefinementList.java:308-310 | Under the invariant, true exactly when some facet of the full list with that value is refined. |
| Adapter.FacetAdapter.UpdateActiveStatus | instantsearch/src/main/java/com/algolia/instantsearch/views/RefinementList.java:312-319 | Adds or removes the facet's value from the active set according to its flag, then sorts both lists by the widget's sort order. The refined values of the full list are unchanged. |
| Adapter.FacetAdapter.ResetFacetCounts | instantsearch/src/main/java/com/algolia/instantsearch/views/RefinementList.java:345-349 | Every facet's count becomes 0, as seen through both lists. Flags, membership, order and the active set stay. |
| View.Configure | instantsearch/src/main/java/com/algolia/instantsearch/views/RefinementList.java:67-78 | A missing attribute is an error. The operator defaults to OR and the limit to 10. An absent `sortBy` gives `[count]`, and a present one that parses becomes the configured sort order. Configuration fails exactly when the sort order fails to parse, and then carries that error. Every configured key is a sort key. |
| View.UpdateFor | instantsearch/src/main/java/com/algolia/instantsearch/views/RefinementList.java:122-156 | The branch `onUpdateView` takes. It changes nothing exactly when more results are loading or the result has no `facets` object. It replaces the facets exactly when the attribute has a non-empty object in `facets`, and then with that object's entries. Otherwise (no result, or no entries) it zeroes the counts. |
| View.Built | instantsearch/src/main/java/com/algolia/instantsearch/views/RefinementList.java:139-146 | The facets built from an attribute's object: one per key, in key order, with its count, refined exactly when the value was active. |
| View.BuiltEnabled | instantsearch/src/main/java/com/algolia/instantsearch/views/RefinementList.java:139-153 | The refined values of freshly built facets are the previously active values that are among the keys. |
| View.BuiltTwice | instantsearch/src/main/java/com/algolia/instantsearch/views/RefinementList.java:139-153 | Rebuilding from the same facet object reproduces the same facets and flags. |
| View.RefinementList.constructor | instantsearch/src/main/java/com/algolia/instantsearch/views/RefinementList.java:57-84 | The widget takes the configured attribute, operator, limit and sort order, and starts with an empty, valid adapter. |
| View.RefinementList.BuildFacets | instantsearch/src/main/java/com/algolia/instantsearch/views/RefinementList.java:139-146 | The loop creates fresh facets whose fields are `Built` of the entries under the current active set, with distinct values. |
| View.RefinementList.Fill | instantsearch/src/main/java/com/algolia/instantsearch/views/RefinementList.java:151-152 | `clear` then `addAll` leaves exactly the new facets, the first `limit` of them visible, and their refined values as the active set. The widget invariant holds. |
| View.RefinementList.ReplaceFacets | instantsearch/src/main/java/com/algolia/instantsearch/views/RefinementList.java:150-153 | `clear`, `addAll` and `sort` produce a sorted permutation of the new facets. The visible list is a sorted permutation of their first `limit`. The active set is their refined values. The field values of both lists are the new facets' values, reordered. |
| View.RefinementList.Rebuild | instantsearch/src/main/java/com/algolia/instantsearch/views/RefinementList.java:133-153 | The facets become a sorted permutation of `Built(entries, old active set)`. The visible list becomes a sorted permutation of its first `limit`. The active set is cut down to the keys. |
| View.RefinementList.OnUpdateView | instantsearch/src/main/java/com/algolia/instantsearch/views/RefinementList.java:121-159 | Loading more, or a result without a `facets` object, changes nothing. A missing result, or an attribute with no entries, zeroes every count and keeps everything else. Otherwise the facets are rebuilt as in `Rebuild`. The widget invariant always holds. |
| View.RefinementList.OnReset | instantsearch/src/main/java/com/algolia/instantsearch/views/RefinementList.java:165-167 | Empties both lists and the active set, and keeps the invariant. |
| View.RefinementList.OnFacetClick | instantsearch/src/main/java/com/algolia/instantsearch/views/RefinementList.java:294-301 | Flips the refinement flag of the clicked visible facet and keeps its count. Adds its value to, or removes it from, the active set, so `hasActive` reports the new flag. Re-sorts both lists as permutations. Returns the refinement request for that value and flag. |
| View.FlipEnabled | instantsearch/src/main/java/com/algolia/instantsearch/views/RefinementList.java:312-317 | In a list with distinct values, flipping one facet's flag adds its value to, or removes it from, the refined values, matching what `updateActiveStatus` does to the active set. |

## Left out

- The Android view layer is not modelled: `getView`, row inflation, `updateFacetViews` (text styling), `setAdapter` and `notifyDataSetChanged`. They only render state.
- The `isInEditMode` branch of the constructor is not modelled. It is a layout-editor preview.
- Layout attributes are not read from `TypedArray`: `Configure` takes attribute, operator, limit and `sortBy` as optional parameters.
- JSON parsing is not modelled. `ParseSortOrder` receives the outcome of `new JSONArray(...)` (the `optString` image of each element, or a parse error) as a parameter. A search result is given as the attribute's keys with integer counts, so the `optInt` coercion of non-integer values is not modelled.
- The searcher is not modelled: `searcher.updateFacetRefinement(...).search()` is returned as a `RefinementRequest` value. `registerRefinementList` and the searcher wiring are not part of this model.
- `onError` is not modelled. It only throws a runtime exception.
- `setSortComparator` is not modelled. The model always sorts with the comparator built from the configured sort order.
- Facet.java is not part of this model. `Facet` is modelled with an immutable value and mutable count and flag, and `List.remove` compares facets by reference identity.
- Facets.SortFacets: states a sorted permutation but not stability, which `Collections.sort` also guarantees.
- Comparator.StringCompareIsLexicographic: Dafny strings are sequences of Unicode scalar values, not UTF-16 code units, so comparisons involving characters outside the Basic Multilingual Plane are not modelled.
- Counts are unbounded integers. No count in the source is computed, so 32-bit wrap-around never arises.
- The operator (`OPERATOR_OR` / `OPERATOR_AND`) is stored by the configuration only. The searcher interprets it.
