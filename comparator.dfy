/**
 * The facet comparator installed by the RefinementList constructor: the sort
 * keys of `sortOrder` are tried left to right and the first non-zero result
 * decides. Facets are compared through their field values.
 */
module Comparator {
  import opened SortOrder

  /** The fields of a facet at one moment: its value, its count and whether it is refined. */
  datatype FacetData = FacetData(value: string, count: int, isEnabled: bool)

  /** `Integer.compareTo`: -1, 0 or 1. */
  function IntCompare(x: int, y: int): int {
    if x < y then -1 else if x == y then 0 else 1
  }

  /** `Boolean.compareTo`: false sorts before true. */
  function BoolCompare(x: bool, y: bool): int {
    if x == y then 0 else if x then 1 else -1
  }

  /**
   * `String.compareTo`: the difference of the first differing characters,
   * or the difference of the lengths when one string is a prefix of the other.
   */
  function StringCompare(a: string, b: string): int {
    if a == [] || b == [] then |a| - |b|
    else if a[0] != b[0] then a[0] as int - b[0] as int
    else StringCompare(a[1..], b[1..])
  }

  /** Lexicographic order on strings, stated independently of `StringCompare`. */
  ghost predicate LexLess(a: string, b: string) {
    (|a| < |b| && a == b[..|a|]) ||
    (exists k :: 0 <= k < |a| && k < |b| && a[..k] == b[..k] && a[k] < b[k])
  }

  /**
   * The result of one sort key: a higher count first, a refined facet first,
   * or the values compared; a string that is not a key compares as a tie.
   */
  function KeyCompare(key: string, lhs: FacetData, rhs: FacetData): (r: int)
    ensures !IsSortKey(key) ==> r == 0
    ensures key == SortCount ==> (r < 0 <==> lhs.count > rhs.count) && (r == 0 <==> lhs.count == rhs.count)
    ensures key == SortIsRefined ==>
              (r < 0 <==> lhs.isEnabled && !rhs.isEnabled) && (r == 0 <==> lhs.isEnabled == rhs.isEnabled)
  {
    SortKeysDistinct();
    if key == SortCount then -IntCompare(lhs.count, rhs.count)
    else if key == SortIsRefined then -BoolCompare(lhs.isEnabled, rhs.isEnabled)
    else if key == SortNameAsc then StringCompare(lhs.value, rhs.value)
    else if key == SortNameDesc then StringCompare(rhs.value, lhs.value)
    else 0
  }

  /**
   * The comparator: the first sort key whose result is not zero decides; it
   * is 0 exactly when every key ties.
   */
  function Comparison(order: seq<string>, lhs: FacetData, rhs: FacetData): (r: int)
    ensures r == 0 <==> forall i :: 0 <= i < |order| ==> KeyCompare(order[i], lhs, rhs) == 0
  {
    assert forall i :: 1 <= i < |order| ==> order[i] == order[1..][i - 1];
    if order == [] then 0
    else
      var c := KeyCompare(order[0], lhs, rhs);
      if c != 0 then c else Comparison(order[1..], lhs, rhs)
  }

  /** The comparator's loop over `sortOrder`, stopping at the first non-zero result. */
  method Compare(order: seq<string>, lhs: FacetData, rhs: FacetData) returns (r: int)
    ensures r == Comparison(order, lhs, rhs)
  {
    var comparisonValue := 0;
    var i := 0;
    while i < |order|
      invariant 0 <= i <= |order|
      invariant comparisonValue == 0
      invariant Comparison(order, lhs, rhs) == Comparison(order[i..], lhs, rhs)
    {
      var sortValue := order[i];
      if sortValue == SortCount {
        comparisonValue := -IntCompare(lhs.count, rhs.count);
      } else if sortValue == SortIsRefined {
        comparisonValue := -BoolCompare(lhs.isEnabled, rhs.isEnabled);
      } else if sortValue == SortNameAsc {
        comparisonValue := StringCompare(lhs.value, rhs.value);
      } else if sortValue == SortNameDesc {
        comparisonValue := StringCompare(rhs.value, lhs.value);
      }
      if comparisonValue != 0 {
        break;
      }
      i := i + 1;
    }
    r := comparisonValue;
  }

  // ---- String.compareTo ----

  /** Two strings compare as equal exactly when they are equal. */
  lemma {:induction false} StringCompareZero(a: string, b: string)
    ensures StringCompare(a, b) == 0 <==> a == b
  {
    if a != [] && b != [] && a[0] == b[0] {
      StringCompareZero(a[1..], b[1..]);
      assert a == [a[0]] + a[1..] && b == [b[0]] + b[1..];
    }
  }

  /** Swapping the arguments negates the result. */
  lemma {:induction false} StringCompareAntisymmetric(a: string, b: string)
    ensures StringCompare(a, b) == -StringCompare(b, a)
  {
    if a != [] && b != [] && a[0] == b[0] {
      StringCompareAntisymmetric(a[1..], b[1..]);
    }
  }

  /** A negative result means `a` is lexicographically before `b`, and conversely. */
  lemma {:induction false} StringCompareIsLexicographic(a: string, b: string)
    ensures StringCompare(a, b) < 0 <==> LexLess(a, b)
  {
    if a == [] || b == [] {
    } else if a[0] != b[0] {
      if a[0] < b[0] {
        assert a[..0] == b[..0];
      } else if LexLess(a, b) {
        if !(|a| < |b| && a == b[..|a|]) {
          var k :| 0 <= k < |a| && k < |b| && a[..k] == b[..k] && a[k] < b[k];
          if k > 0 { assert a[..k][0] == b[..k][0]; }
        }
      }
    } else {
      StringCompareIsLexicographic(a[1..], b[1..]);
      if LexLess(a[1..], b[1..]) {
        if |a[1..]| < |b[1..]| && a[1..] == b[1..][..|a[1..]|] {
          assert a == b[..|a|];
        } else {
          var k :| 0 <= k < |a[1..]| && k < |b[1..]| && a[1..][..k] == b[1..][..k] && a[1..][k] < b[1..][k];
          assert a[..k + 1] == [a[0]] + a[1..][..k];
          assert b[..k + 1] == [b[0]] + b[1..][..k];
        }
      }
      if LexLess(a, b) {
        if |a| < |b| && a == b[..|a|] {
          assert a[1..] == b[1..][..|a[1..]|];
        } else {
          var k :| 0 <= k < |a| && k < |b| && a[..k] == b[..k] && a[k] < b[k];
          assert k > 0;
          assert a[1..][..k - 1] == a[..k][1..];
          assert b[1..][..k - 1] == b[..k][1..];
          assert a[1..][k - 1] < b[1..][k - 1];
        }
      }
    }
  }

  /** Negative results chain: the order `StringCompare` induces is transitive. */
  lemma {:induction false} StringCompareTransitive(a: string, b: string, c: string)
    requires StringCompare(a, b) < 0 && StringCompare(b, c) < 0
    ensures StringCompare(a, c) < 0
  {
    if a != [] && b != [] && c != [] && a[0] == b[0] && b[0] == c[0] {
      StringCompareTransitive(a[1..], b[1..], c[1..]);
    }
  }

  // ---- the comparator ----

  /** What the two name keys mean: ascending or descending lexicographic order of the values. */
  lemma KeyCompareMeaning(lhs: FacetData, rhs: FacetData)
    ensures KeyCompare(SortNameAsc, lhs, rhs) < 0 <==> LexLess(lhs.value, rhs.value)
    ensures KeyCompare(SortNameAsc, lhs, rhs) == 0 <==> lhs.value == rhs.value
    ensures KeyCompare(SortNameDesc, lhs, rhs) < 0 <==> LexLess(rhs.value, lhs.value)
    ensures KeyCompare(SortNameDesc, lhs, rhs) == 0 <==> lhs.value == rhs.value
  {
    StringCompareIsLexicographic(lhs.value, rhs.value);
    StringCompareIsLexicographic(rhs.value, lhs.value);
    StringCompareZero(lhs.value, rhs.value);
    StringCompareZero(rhs.value, lhs.value);
  }

  /**
   * Tie-break chaining: a non-zero comparison is the result of the first key
   * that does not tie, every earlier key tying.
   */
  lemma {:induction false} FirstNonZeroKeyDecides(order: seq<string>, lhs: FacetData, rhs: FacetData)
    ensures Comparison(order, lhs, rhs) != 0 ==>
              exists i :: 0 <= i < |order| && KeyCompare(order[i], lhs, rhs) == Comparison(order, lhs, rhs) &&
                forall j :: 0 <= j < i ==> KeyCompare(order[j], lhs, rhs) == 0
  {
    if order != [] {
      FirstNonZeroKeyDecides(order[1..], lhs, rhs);
      if KeyCompare(order[0], lhs, rhs) == 0 {
        assert forall i :: 1 <= i < |order| ==> order[i] == order[1..][i - 1];
        if Comparison(order, lhs, rhs) != 0 {
          var i :| 0 <= i < |order[1..]| && KeyCompare(order[1..][i], lhs, rhs) == Comparison(order, lhs, rhs) &&
            forall j :: 0 <= j < i ==> KeyCompare(order[1..][j], lhs, rhs) == 0;
          assert KeyCompare(order[i + 1], lhs, rhs) == Comparison(order, lhs, rhs);
        }
      } else {
        assert KeyCompare(order[0], lhs, rhs) == Comparison(order, lhs, rhs);
      }
    }
  }

  /** A facet compares equal to itself. */
  lemma {:induction false} ComparisonReflexive(order: seq<string>, a: FacetData)
    ensures Comparison(order, a, a) == 0
  {
    if order != [] {
      StringCompareZero(a.value, a.value);
      ComparisonReflexive(order[1..], a);
    }
  }

  /** Swapping the facets negates the comparison, so its sign flips. */
  lemma {:induction false} ComparisonAntisymmetric(order: seq<string>, a: FacetData, b: FacetData)
    ensures Comparison(order, a, b) == -Comparison(order, b, a)
  {
    if order != [] {
      StringCompareAntisymmetric(a.value, b.value);
      ComparisonAntisymmetric(order[1..], a, b);
    }
  }

  /** The four sort tokens are different strings. */
  lemma SortKeysDistinct()
    ensures SortCount != SortIsRefined && SortCount != SortNameAsc && SortCount != SortNameDesc
    ensures SortIsRefined != SortNameAsc && SortIsRefined != SortNameDesc && SortNameAsc != SortNameDesc
  {
    assert SortCount[0] == 'c' && SortIsRefined[0] == 'i' && SortNameAsc[0] == 'n' && SortNameDesc[0] == 'n';
    assert SortNameAsc[5] == 'a' && SortNameDesc[5] == 'd';
  }

  lemma KeyCompareTransitive(key: string, a: FacetData, b: FacetData, c: FacetData)
    ensures KeyCompare(key, a, b) == 0 && KeyCompare(key, b, c) == 0 ==> KeyCompare(key, a, c) == 0
    ensures KeyCompare(key, a, b) < 0 && KeyCompare(key, b, c) <= 0 ==> KeyCompare(key, a, c) < 0
    ensures KeyCompare(key, a, b) <= 0 && KeyCompare(key, b, c) < 0 ==> KeyCompare(key, a, c) < 0
  {
    SortKeysDistinct();
    if key == SortNameAsc {
      assert forall x, y :: KeyCompare(key, x, y) == StringCompare(x.value, y.value);
      StringCompareZero(a.value, b.value);
      StringCompareZero(b.value, c.value);
      StringCompareZero(a.value, c.value);
      if StringCompare(a.value, b.value) < 0 && StringCompare(b.value, c.value) < 0 {
        StringCompareTransitive(a.value, b.value, c.value);
      }
    } else if key == SortNameDesc {
      assert forall x, y :: KeyCompare(key, x, y) == StringCompare(y.value, x.value);
      StringCompareZero(b.value, a.value);
      StringCompareZero(c.value, b.value);
      StringCompareZero(c.value, a.value);
      if StringCompare(c.value, b.value) < 0 && StringCompare(b.value, a.value) < 0 {
        StringCompareTransitive(c.value, b.value, a.value);
      }
    }
  }

  /**
   * The comparator is a total preorder: "compares at most 0" is transitive,
   * and so is strict precedence.
   */
  lemma {:induction false} ComparisonTransitive(order: seq<string>, a: FacetData, b: FacetData, c: FacetData)
    ensures Comparison(order, a, b) <= 0 && Comparison(order, b, c) <= 0 ==> Comparison(order, a, c) <= 0
    ensures Comparison(order, a, b) < 0 && Comparison(order, b, c) <= 0 ==> Comparison(order, a, c) < 0
    ensures Comparison(order, a, b) <= 0 && Comparison(order, b, c) < 0 ==> Comparison(order, a, c) < 0
  {
    if order != [] {
      KeyCompareTransitive(order[0], a, b, c);
      ComparisonTransitive(order[1..], a, b, c);
    }
  }
}
