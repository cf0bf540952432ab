/**
 * The `sortBy` configuration of a RefinementList: either one sort key or a
 * bracketed JSON array of sort keys, read into a priority list of keys.
 * Models `parseSortOrder` and `addSortOrderOrThrow` of RefinementList.java.
 */
module SortOrder {
  import opened Wrappers

  const SortCount := "count"
  const SortIsRefined := "isRefined"
  const SortNameAsc := "name:asc"
  const SortNameDesc := "name:desc"
  const DefaultSort := SortCount

  /** One of the four recognised sort tokens. */
  predicate IsSortKey(s: string) {
    s == SortCount || s == SortIsRefined || s == SortNameAsc || s == SortNameDesc
  }

  /** The two error messages of the parser: an invalid key, or an array that does not parse. */
  datatype SortError = InvalidValue(value: string) | InvalidArray(attribute: string)

  /**
   * What `new JSONArray(attribute)` yields: the `optString` image of each
   * element in order, or a JSONException. The JSON parser itself is not
   * part of this model; its outcome is an input.
   */
  datatype ArrayParse = Elements(items: seq<string>) | Malformed

  predicate StartsWithBracket(s: string) {
    |s| > 0 && s[0] == '['
  }

  /** Index of the first element that is not a sort key. */
  function FirstInvalid(items: seq<string>): (i: nat)
    requires exists k :: 0 <= k < |items| && !IsSortKey(items[k])
    ensures i < |items| && !IsSortKey(items[i])
    ensures forall j :: 0 <= j < i ==> IsSortKey(items[j])
  {
    if !IsSortKey(items[0]) then 0
    else
      assert exists k :: 0 <= k < |items[1..]| && !IsSortKey(items[1..][k]) by {
        var k :| 0 <= k < |items| && !IsSortKey(items[k]);
        assert k > 0 && items[1..][k - 1] == items[k];
      }
      1 + FirstInvalid(items[1..])
  }

  /**
   * Reference definition of what the parser returns: `None` for an absent
   * attribute, the list of keys otherwise, or the error it throws.
   */
  function ParsedSortOrder(attribute: Option<string>, parsed: ArrayParse): Result<Option<seq<string>>, SortError> {
    match attribute
    case None => Success(None)
    case Some(a) =>
      if IsSortKey(a) then Success(Some([a]))
      else if !StartsWithBracket(a) then Failure(InvalidValue(a))
      else match parsed
        case Malformed => Failure(InvalidArray(a))
        case Elements(items) =>
          if forall k :: 0 <= k < |items| ==> IsSortKey(items[k]) then Success(Some(items))
          else Failure(InvalidValue(items[FirstInvalid(items)]))
  }

  /** Appends `value` to `sortOrder` when it is a sort key, and fails naming it otherwise. */
  function AddSortOrderOrThrow(value: string, sortOrder: seq<string>): (r: Result<seq<string>, SortError>)
    ensures r.Success? <==> IsSortKey(value)
    ensures r.Success? ==> |r.value| == |sortOrder| + 1 && r.value[..|sortOrder|] == sortOrder && r.value[|sortOrder|] == value
    ensures r.Failure? ==> r.error == InvalidValue(value)
  {
    if IsSortKey(value) then Success(sortOrder + [value]) else Failure(InvalidValue(value))
  }

  /** `parseSortOrder`: the switch on the single token, then the loop over the parsed elements. */
  method ParseSortOrder(attribute: Option<string>, parsed: ArrayParse) returns (r: Result<Option<seq<string>>, SortError>)
    ensures r == ParsedSortOrder(attribute, parsed)
  {
    if attribute.None? {
      return Success(None);
    }
    var a := attribute.value;
    if IsSortKey(a) {
      return Success(Some([a]));
    }
    if !StartsWithBracket(a) {
      return Failure(InvalidValue(a));
    }
    if parsed.Malformed? {
      return Failure(InvalidArray(a));
    }
    var items := parsed.items;
    var sortOrder: seq<string> := [];
    var i := 0;
    while i < |items|
      invariant 0 <= i <= |items|
      invariant sortOrder == items[..i]
      invariant forall k :: 0 <= k < i ==> IsSortKey(items[k])
    {
      var added := AddSortOrderOrThrow(items[i], sortOrder);
      if added.Failure? {
        assert FirstInvalid(items) == i;
        return Failure(added.error);
      }
      sortOrder := added.value;
      i := i + 1;
    }
    assert items[..i] == items;
    return Success(Some(sortOrder));
  }

  /**
   * What the parser accepts: every list it returns is made of sort keys, in
   * the order written; a single key gives a one-element list; an absent
   * attribute gives `None`.
   */
  lemma ParsedSortOrderKeys(attribute: Option<string>, parsed: ArrayParse)
    ensures attribute.None? <==> ParsedSortOrder(attribute, parsed) == Success(None)
    ensures attribute.Some? && IsSortKey(attribute.value) ==>
              ParsedSortOrder(attribute, parsed) == Success(Some([attribute.value]))
    ensures ParsedSortOrder(attribute, parsed).Success? && ParsedSortOrder(attribute, parsed).value.Some? ==>
              forall t :: t in ParsedSortOrder(attribute, parsed).value.value ==> IsSortKey(t)
  {
  }

  /**
   * What the parser rejects: a string that is neither a key nor starts with
   * `[` is named by an invalid-value error; a bracketed string whose array
   * does not parse gives the invalid-array error; a parsed array is accepted
   * exactly when all its elements are keys, and otherwise the first element
   * that is not a key is named.
   */
  lemma ParsedSortOrderErrors(a: string, parsed: ArrayParse)
    requires !IsSortKey(a)
    ensures !StartsWithBracket(a) ==> ParsedSortOrder(Some(a), parsed) == Failure(InvalidValue(a))
    ensures StartsWithBracket(a) && parsed.Malformed? ==> ParsedSortOrder(Some(a), parsed) == Failure(InvalidArray(a))
    ensures StartsWithBracket(a) && parsed.Elements? ==>
              (ParsedSortOrder(Some(a), parsed).Success? <==> forall k :: 0 <= k < |parsed.items| ==> IsSortKey(parsed.items[k]))
    ensures StartsWithBracket(a) && parsed.Elements? && ParsedSortOrder(Some(a), parsed).Success? ==>
              ParsedSortOrder(Some(a), parsed) == Success(Some(parsed.items))
    ensures StartsWithBracket(a) && parsed.Elements? && ParsedSortOrder(Some(a), parsed).Failure? ==>
              exists i :: 0 <= i < |parsed.items| && ParsedSortOrder(Some(a), parsed) == Failure(InvalidValue(parsed.items[i])) &&
                !IsSortKey(parsed.items[i]) && forall j :: 0 <= j < i ==> IsSortKey(parsed.items[j])
  {
    if StartsWithBracket(a) && parsed.Elements? && ParsedSortOrder(Some(a), parsed).Failure? {
      var i := FirstInvalid(parsed.items);
    }
  }
}
