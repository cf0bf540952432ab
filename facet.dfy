/**
 * Facet objects and the operations on lists of them that the adapter uses:
 * their field values, the sort both lists go through, and removal of the
 * first occurrence of an object. A Facet is shared: the full list and the
 * visible list hold the same objects, so a change to one object's fields is
 * seen through both lists.
 */
module Facets {
  import opened Comparator

  /** One facet value with its count and refinement flag. The value never changes. */
  class Facet {
    const value: string
    var count: int
    var isEnabled: bool

    constructor (value: string, count: int, isEnabled: bool)
      ensures this.value == value && this.count == count && this.isEnabled == isEnabled
    {
      this.value := value;
      this.count := count;
      this.isEnabled := isEnabled;
    }

    /** The facet's fields as a value. */
    function Data(): FacetData
      reads this
    {
      FacetData(value, count, isEnabled)
    }
  }

  /** The field values of a list of facets, in list order. */
  function Snapshot(s: seq<Facet>): (r: seq<FacetData>)
    reads s
    ensures |r| == |s|
    ensures forall i :: 0 <= i < |s| ==> r[i] == s[i].Data()
  {
    seq(|s|, i requires 0 <= i < |s| reads s => s[i].Data())
  }

  /** The values of the facets in a list. */
  function Values(s: seq<Facet>): set<string> {
    set i | 0 <= i < |s| :: s[i].value
  }

  /** The values of the refined facets in a list. */
  function EnabledValues(s: seq<Facet>): set<string>
    reads s
  {
    set i | 0 <= i < |s| && s[i].isEnabled :: s[i].value
  }

  /** No two positions of the list hold facets with the same value (so no object occurs twice). */
  ghost predicate Distinct(s: seq<Facet>) {
    forall i, j :: 0 <= i < j < |s| ==> s[i].value != s[j].value
  }

  /** No element occurs twice. */
  ghost predicate NoDuplicates<T>(s: seq<T>) {
    forall i, j :: 0 <= i < j < |s| ==> s[i] != s[j]
  }

  /** The list is in comparator order: no facet compares greater than one after it. */
  ghost predicate Sorted(order: seq<string>, s: seq<Facet>)
    reads s
  {
    forall i, j :: 0 <= i < j < |s| ==> Comparison(order, s[i].Data(), s[j].Data()) <= 0
  }

  /** `List.remove(Object)`: drops the first occurrence of `x`, if any. */
  function RemoveFirst(s: seq<Facet>, x: Facet): (r: seq<Facet>)
    ensures x !in s ==> r == s
    ensures x in s ==> |r| == |s| - 1
  {
    if s == [] then []
    else
      assert s == [s[0]] + s[1..];
      if s[0] == x then s[1..] else [s[0]] + RemoveFirst(s[1..], x)
  }

  /** Inserting `x` after the prefix that compares at most `x` keeps a sorted list sorted. */
  lemma InsertSorted(order: seq<string>, r: seq<Facet>, x: Facet, j: nat)
    requires Sorted(order, r) && j <= |r|
    requires j > 0 ==> Comparison(order, r[j - 1].Data(), x.Data()) <= 0
    requires forall k :: j <= k < |r| ==> Comparison(order, r[k].Data(), x.Data()) > 0
    ensures Sorted(order, r[..j] + [x] + r[j..])
  {
    forall k | 0 <= k < j
      ensures Comparison(order, r[k].Data(), x.Data()) <= 0
    {
      ComparisonTransitive(order, r[k].Data(), r[j - 1].Data(), x.Data());
    }
    forall k | j <= k < |r|
      ensures Comparison(order, x.Data(), r[k].Data()) <= 0
    {
      ComparisonAntisymmetric(order, x.Data(), r[k].Data());
    }
    SortedSplice(order, r, x, j);
  }

  /** A sorted list split at `j` stays sorted with `x` put between two parts it sits between. */
  lemma SortedSplice(order: seq<string>, r: seq<Facet>, x: Facet, j: nat)
    requires Sorted(order, r) && j <= |r|
    requires forall k :: 0 <= k < j ==> Comparison(order, r[k].Data(), x.Data()) <= 0
    requires forall k :: j <= k < |r| ==> Comparison(order, x.Data(), r[k].Data()) <= 0
    ensures Sorted(order, r[..j] + [x] + r[j..])
  {
    var t := r[..j] + [x] + r[j..];
    forall p, q | 0 <= p < q < |t|
      ensures Comparison(order, t[p].Data(), t[q].Data()) <= 0
    {
      if p < j && q > j {
        assert t[p] == r[p] && t[q] == r[q - 1];
      } else if p > j {
        assert t[p] == r[p - 1] && t[q] == r[q - 1];
      }
    }
  }

  /**
   * Scans a sorted list from its end for the slot where `x` goes: after every
   * entry that compares at most `x`, so equal entries keep their order.
   */
  method FindSlot(order: seq<string>, r: seq<Facet>, x: Facet) returns (j: nat)
    requires Sorted(order, r)
    ensures j <= |r|
    ensures j > 0 ==> Comparison(order, r[j - 1].Data(), x.Data()) <= 0
    ensures forall k :: j <= k < |r| ==> Comparison(order, r[k].Data(), x.Data()) > 0
  {
    j := |r|;
    while j > 0
      invariant j <= |r|
      invariant forall k :: j <= k < |r| ==> Comparison(order, r[k].Data(), x.Data()) > 0
    {
      var c := Compare(order, r[j - 1].Data(), x.Data());
      if c <= 0 {
        return;
      }
      j := j - 1;
    }
  }

  /** Inserts `x` into a sorted list after every entry that compares at most `x`. */
  method InsertFacet(order: seq<string>, r: seq<Facet>, x: Facet) returns (t: seq<Facet>)
    requires Sorted(order, r)
    ensures Sorted(order, t)
    ensures multiset(t) == multiset(r) + multiset{x}
  {
    var j := FindSlot(order, r, x);
    InsertSorted(order, r, x, j);
    InsertMultiset(r, x, j);
    t := r[..j] + [x] + r[j..];
  }

  /** Inserting an element anywhere adds one copy of it. */
  lemma InsertMultiset<T>(r: seq<T>, x: T, j: nat)
    requires j <= |r|
    ensures multiset(r[..j] + [x] + r[j..]) == multiset(r) + multiset{x}
  {
    assert r == r[..j] + r[j..];
  }

  /**
   * `Collections.sort` with the comparator of `order`: the result holds the
   * same facet objects and is in comparator order. (An insertion sort that
   * places each facet after those that compare at most equal to it.)
   */
  method SortFacets(order: seq<string>, s: seq<Facet>) returns (r: seq<Facet>)
    ensures multiset(r) == multiset(s)
    ensures Sorted(order, r)
  {
    r := [];
    var i := 0;
    while i < |s|
      invariant 0 <= i <= |s|
      invariant multiset(r) == multiset(s[..i])
      invariant Sorted(order, r)
    {
      r := InsertFacet(order, r, s[i]);
      assert s[..i + 1] == s[..i] + [s[i]];
      i := i + 1;
    }
    assert s[..i] == s;
  }

  /** Removing the element at `i` removes one copy of it from the multiset. */
  lemma MultisetRemoveAt<T>(t: seq<T>, i: nat)
    requires i < |t|
    ensures multiset(t) == multiset(t[..i] + t[i + 1..]) + multiset{t[i]}
  {
    assert t == t[..i] + [t[i]] + t[i + 1..];
  }

  /** The same, stated as a subtraction. */
  lemma MultisetDeleteAt<T>(t: seq<T>, i: nat)
    requires i < |t|
    ensures multiset(t[..i] + t[i + 1..]) == multiset(t) - multiset{t[i]}
  {
    assert t == t[..i] + [t[i]] + t[i + 1..];
  }

  /** Two lists that agree up to order once one equal element is taken out of each agree up to order. */
  lemma MultisetCancel<T>(d: seq<T>, e: seq<T>, i: nat)
    requires i < |d| && e != [] && d[i] == e[0]
    requires multiset(d[..i] + d[i + 1..]) == multiset(e[1..])
    ensures multiset(d) == multiset(e)
  {
    MultisetRemoveAt(d, i);
    MultisetRemoveAt(e, 0);
    assert e[..0] + e[1..] == e[1..];
  }

  /** Where the head of `s` sits in a permutation `r` of it, and what is left once it is taken out of both. */
  lemma MatchHead<T>(r: seq<T>, s: seq<T>) returns (i: nat)
    requires multiset(r) == multiset(s) && s != []
    ensures i < |r| && r[i] == s[0]
    ensures multiset(r[..i] + r[i + 1..]) == multiset(s[1..])
  {
    assert s[0] in multiset(r);
    i :| 0 <= i < |r| && r[i] == s[0];
    MultisetDeleteAt(r, i);
    assert s == [s[0]] + s[1..];
    assert multiset(s) - multiset{s[0]} == multiset(s[1..]);
  }

  /** Taking the element at `i` out of a list takes its fields out of the snapshot. */
  lemma SnapshotDelete(r: seq<Facet>, i: nat)
    requires i < |r|
    ensures Snapshot(r[..i] + r[i + 1..]) == Snapshot(r)[..i] + Snapshot(r)[i + 1..]
  {
    var t, d := r[..i] + r[i + 1..], Snapshot(r);
    assert forall k :: 0 <= k < |t| ==> t[k] == if k < i then r[k] else r[k + 1];
    assert forall k :: 0 <= k < |t| ==> Snapshot(t)[k] == (d[..i] + d[i + 1..])[k];
  }

  /** Lists holding the same objects have the same field values, up to order. */
  lemma {:induction false} SnapshotPermutation(r: seq<Facet>, s: seq<Facet>)
    requires multiset(r) == multiset(s)
    ensures multiset(Snapshot(r)) == multiset(Snapshot(s))
  {
    if s != [] {
      var i := MatchHead(r, s);
      var r' := r[..i] + r[i + 1..];
      SnapshotPermutation(r', s[1..]);
      var d, e := Snapshot(r), Snapshot(s);
      SnapshotDelete(r, i);
      assert Snapshot(r') == d[..i] + d[i + 1..];
      assert Snapshot(s[1..]) == e[1..];
      MultisetCancel(d, e, i);
    }
  }

  /** Lists holding the same objects hold the same refined values and the same values. */
  lemma EnabledValuesPermutation(r: seq<Facet>, s: seq<Facet>)
    requires multiset(r) == multiset(s)
    ensures EnabledValues(r) == EnabledValues(s) && Values(r) == Values(s)
  {
    forall i | 0 <= i < |r| ensures exists j :: 0 <= j < |s| && s[j] == r[i] {
      assert r[i] in multiset(s);
    }
    forall j | 0 <= j < |s| ensures exists i :: 0 <= i < |r| && r[i] == s[j] {
      assert s[j] in multiset(r);
    }
  }

  /** Appending one facet adds its value to the refined values exactly when it is refined. */
  lemma EnabledValuesAppend(s: seq<Facet>, x: Facet)
    ensures EnabledValues(s + [x]) == EnabledValues(s) + (if x.isEnabled then {x.value} else {})
  {
    var t := s + [x];
    assert forall i :: 0 <= i < |s| ==> t[i] == s[i];
    assert t[|s|] == x;
  }

  /** The values of the refined entries of a list of field values. */
  function RefinedValues(d: seq<FacetData>): set<string> {
    set i | 0 <= i < |d| && d[i].isEnabled :: d[i].value
  }

  /** The refined values of a list are read off its snapshot. */
  lemma RefinedValuesSnapshot(s: seq<Facet>)
    ensures RefinedValues(Snapshot(s)) == EnabledValues(s)
  {
    var d := Snapshot(s);
    forall v | v in EnabledValues(s) ensures v in RefinedValues(d) {
      var i :| 0 <= i < |s| && s[i].isEnabled && s[i].value == v;
      assert d[i].isEnabled && d[i].value == v;
    }
  }

  /** The refined values of one more entry. */
  lemma RefinedValuesNext(d: seq<FacetData>, i: nat)
    requires i < |d|
    ensures RefinedValues(d[..i + 1]) == RefinedValues(d[..i]) + (if d[i].isEnabled then {d[i].value} else {})
  {
    var p, q := d[..i], d[..i + 1];
    assert forall k :: 0 <= k < i ==> q[k] == p[k];
    assert q[i] == d[i];
  }

  /** The refined values of two lists joined are those of each. */
  lemma EnabledValuesConcat(s: seq<Facet>, t: seq<Facet>)
    ensures EnabledValues(s + t) == EnabledValues(s) + EnabledValues(t)
  {
    var u := s + t;
    forall v | v in EnabledValues(u) ensures v in EnabledValues(s) + EnabledValues(t) {
      var i :| 0 <= i < |u| && u[i].isEnabled && u[i].value == v;
      if i < |s| {
        assert u[i] == s[i];
      } else {
        assert u[i] == t[i - |s|];
      }
    }
    forall v | v in EnabledValues(t) ensures v in EnabledValues(u) {
      var i :| 0 <= i < |t| && t[i].isEnabled && t[i].value == v;
      assert u[|s| + i] == t[i];
    }
    assert forall i :: 0 <= i < |s| ==> u[i] == s[i];
  }

  /** Appending a facet whose value is new keeps the values distinct. */
  lemma AppendDistinct(s: seq<Facet>, x: Facet)
    ensures Distinct(s) && x.value !in Values(s) ==> Distinct(s + [x])
  {
    var t := s + [x];
    assert forall i :: 0 <= i < |s| ==> t[i] == s[i] && s[i].value in Values(s);
  }

  /** The list `s` with position `k` taken out, position by position. */
  lemma DeleteAt<T>(s: seq<T>, k: nat)
    requires k < |s|
    ensures |s[..k] + s[k + 1..]| == |s| - 1
    ensures forall i :: 0 <= i < |s| - 1 ==> (s[..k] + s[k + 1..])[i] == if i < k then s[i] else s[i + 1]
  {
  }

  /** `RemoveFirst` cuts the list at the first position holding `x`. */
  lemma {:induction false} RemoveFirstAt(s: seq<Facet>, x: Facet) returns (k: nat)
    requires x in s
    ensures k < |s| && s[k] == x && x !in s[..k]
    ensures RemoveFirst(s, x) == s[..k] + s[k + 1..]
  {
    assert s == [s[0]] + s[1..];
    if s[0] == x {
      k := 0;
    } else {
      var k' := RemoveFirstAt(s[1..], x);
      k := k' + 1;
      assert s[..k] == [s[0]] + s[1..][..k'];
      assert s[k + 1..] == s[1..][k' + 1..];
    }
  }

  /** `RemoveFirst` takes exactly one copy of `x` out of the list, when there is one. */
  lemma {:induction false} RemoveFirstMultiset(s: seq<Facet>, x: Facet)
    ensures multiset(RemoveFirst(s, x)) == multiset(s) - multiset{x}
  {
    if s != [] {
      assert s == [s[0]] + s[1..];
      RemoveFirstMultiset(s[1..], x);
    }
  }

  /**
   * Removing a facet of a list with distinct values removes exactly its value
   * from the refined values, and the values stay distinct.
   */
  lemma RemoveFirstEnabled(s: seq<Facet>, x: Facet)
    requires Distinct(s) && x in s
    ensures EnabledValues(RemoveFirst(s, x)) == EnabledValues(s) - {x.value}
    ensures Distinct(RemoveFirst(s, x))
  {
    var k := RemoveFirstAt(s, x);
    DeleteEnabled(s, k);
    DeleteDistinct(s, k);
  }

  /** Taking position `k` out of a list with distinct values removes exactly its value from the refined values. */
  lemma DeleteEnabled(s: seq<Facet>, k: nat)
    requires Distinct(s) && k < |s|
    ensures EnabledValues(s[..k] + s[k + 1..]) == EnabledValues(s) - {s[k].value}
  {
    var r := s[..k] + s[k + 1..];
    DeleteAt(s, k);
    forall v | v in EnabledValues(r) ensures v in EnabledValues(s) && v != s[k].value {
      var i :| 0 <= i < |r| && r[i].isEnabled && r[i].value == v;
      var j := if i < k then i else i + 1;
      assert s[j] == r[i] && j != k;
    }
    forall v | v in EnabledValues(s) && v != s[k].value ensures v in EnabledValues(r) {
      var j :| 0 <= j < |s| && s[j].isEnabled && s[j].value == v;
      var i := if j < k then j else j - 1;
      assert r[i] == s[j];
    }
  }

  /** Taking a position out of a list with distinct values keeps them distinct. */
  lemma DeleteDistinct(s: seq<Facet>, k: nat)
    requires Distinct(s) && k < |s|
    ensures Distinct(s[..k] + s[k + 1..])
  {
    var r := s[..k] + s[k + 1..];
    DeleteAt(s, k);
    forall i, j | 0 <= i < j < |r| ensures r[i].value != r[j].value {
      var i', j' := if i < k then i else i + 1, if j < k then j else j + 1;
      assert r[i] == s[i'] && r[j] == s[j'];
    }
  }

  /** Lists holding the same objects have the same members. */
  lemma SameMembers<T>(r: seq<T>, s: seq<T>)
    requires multiset(r) == multiset(s)
    ensures forall x :: x in r <==> x in s
  {
    assert forall x :: x in r <==> x in multiset(r);
    assert forall x :: x in s <==> x in multiset(s);
  }

  /** Removing `x` from a list with distinct values leaves exactly the other members. */
  lemma RemoveFirstKeepsOthers(s: seq<Facet>, x: Facet)
    requires Distinct(s)
    ensures forall f :: f in RemoveFirst(s, x) <==> f in s && f != x
  {
    if x in s {
      var k := RemoveFirstAt(s, x);
      DeleteMembers(s, k);
    }
  }

  /** Taking position `k` out of a list without repeats leaves exactly the other members. */
  lemma DeleteMembers<T>(s: seq<T>, k: nat)
    requires NoDuplicates(s) && k < |s|
    ensures forall f :: f in s[..k] + s[k + 1..] <==> f in s && f != s[k]
  {
    var r := s[..k] + s[k + 1..];
    DeleteAt(s, k);
    forall f | f in r ensures f in s && f != s[k] {
      var i :| 0 <= i < |r| && r[i] == f;
      var j := if i < k then i else i + 1;
      assert s[j] == f && j != k;
    }
    forall f | f in s && f != s[k] ensures f in r {
      var j :| 0 <= j < |s| && s[j] == f;
      var i := if j < k then j else j - 1;
      assert r[i] == f;
    }
  }

  /** Taking a position out of a list without repeats keeps it without repeats. */
  lemma DeleteNoDuplicates<T>(s: seq<T>, k: nat)
    requires NoDuplicates(s) && k < |s|
    ensures NoDuplicates(s[..k] + s[k + 1..])
  {
    var r := s[..k] + s[k + 1..];
    DeleteAt(s, k);
    forall i, j | 0 <= i < j < |r| ensures r[i] != r[j] {
      var i', j' := if i < k then i else i + 1, if j < k then j else j + 1;
      assert r[i] == s[i'] && r[j] == s[j'];
    }
  }

  /** Removing from a list without duplicates keeps it without duplicates and removes every copy. */
  lemma RemoveFirstNoDuplicates(s: seq<Facet>, x: Facet)
    requires NoDuplicates(s)
    ensures NoDuplicates(RemoveFirst(s, x)) && x !in RemoveFirst(s, x)
    ensures forall f :: f in RemoveFirst(s, x) ==> f in s
  {
    if x in s {
      var k := RemoveFirstAt(s, x);
      DeleteMembers(s, k);
      DeleteNoDuplicates(s, k);
    }
  }

  /** A list has no duplicates exactly when each element occurs at most once in its multiset. */
  lemma {:induction false} NoDuplicatesMultiset<T>(s: seq<T>)
    ensures NoDuplicates(s) <==> forall x :: multiset(s)[x] <= 1
  {
    if s != [] {
      var t := s[1..];
      assert s == [s[0]] + t;
      NoDuplicatesMultiset(t);
      if NoDuplicates(s) {
        assert NoDuplicates(t) by {
          forall i, j | 0 <= i < j < |t| ensures t[i] != t[j] {
            assert t[i] == s[i + 1] && t[j] == s[j + 1];
          }
        }
        assert s[0] !in t;
      } else {
        var i, j :| 0 <= i < j < |s| && s[i] == s[j];
        if i == 0 {
          assert s[0] == t[j - 1] && t[j - 1] in multiset(t);
          assert multiset(s) == multiset{s[0]} + multiset(t);
          assert multiset(s)[s[0]] > 1;
        } else {
          assert t[i - 1] == t[j - 1];
          assert !NoDuplicates(t);
          var x :| multiset(t)[x] > 1;
          assert multiset(s) == multiset{s[0]} + multiset(t);
          assert multiset(s)[x] > 1;
        }
      }
    }
  }

  /** Reordering a list with distinct values keeps the values distinct. */
  lemma DistinctPermutation(r: seq<Facet>, s: seq<Facet>)
    requires multiset(r) == multiset(s) && Distinct(s)
    ensures Distinct(r)
  {
    assert NoDuplicates(s);
    NoDuplicatesMultiset(s);
    NoDuplicatesMultiset(r);
    forall i, j | 0 <= i < j < |r| ensures r[i].value != r[j].value {
      assert r[i] in multiset(s) && r[j] in multiset(s);
      var p :| 0 <= p < |s| && s[p] == r[i];
      var q :| 0 <= q < |s| && s[q] == r[j];
    }
  }

  /** Reordering a list keeps its length and its members. */
  lemma ReorderedMembers(r: seq<Facet>, s: seq<Facet>)
    requires multiset(r) == multiset(s)
    ensures |r| == |s| && forall x :: x in r <==> x in s
  {
    assert |r| == |multiset(r)|;
    SameMembers(r, s);
  }

  /** Reordering a list without repeats leaves it without repeats. */
  lemma NoDuplicatesPermutation<T>(r: seq<T>, s: seq<T>)
    requires multiset(r) == multiset(s) && NoDuplicates(s)
    ensures NoDuplicates(r)
  {
    NoDuplicatesMultiset(s);
    NoDuplicatesMultiset(r);
  }
}
