/**
 * `parse_location`: classifies the "place" value of a tweet into the
 * triple (is in the USA, country code, state).
 */
module Location {
  import opened Outcomes
  import opened PyStrings

  /**
   * The value `try_literal_eval` produced from a "place" cell. A place
   * record is a dictionary; only string-valued entries are modelled.
   */
  datatype Place =
    | NoPlace                                  // None
    | IntPlace(n: int)                         // an integer literal
    | DictPlace(entries: map<string, string>)  // a dictionary
    | OtherPlace                               // a string, list, float or other literal

  datatype LocationFields = LocationFields(isUSA: Field<bool>, country: string, state: string)

  /** The exception `parse_location` raises. */
  datatype LocationError =
    | NotSubscriptable  // TypeError: the value cannot be indexed with "country_code"
    | NoCountryCode     // KeyError: the dictionary has no "country_code"
    | StateUnbound      // no "full_name": both lookups fail and `finally` reads the unbound `state`

  /** The triple for a missing place: "N/A" in all three columns. */
  const NoLocation: LocationFields := LocationFields(NA, NotAvailable, NotAvailable)

  /**
   * `full_name.split(",")[1].strip()`, or `full_name.strip()` when the
   * index raises because the name holds no comma.
   */
  function StateOf(fullName: string): (state: string)
    ensures ',' !in fullName ==> state == Strip(fullName)
  {
    var fields := SplitOn(fullName, ',');
    if |fields| > 1 then Strip(fields[1]) else Strip(fullName)
  }

  /**
   * `i` is the position of the first comma of `s` and `j` the position of
   * the second comma, or the end of `s` when there is no second comma.
   */
  predicate SecondFieldBounds(s: string, i: nat, j: nat)
  {
    && i < j <= |s|
    && s[i] == ','
    && ',' !in s[..i]
    && ',' !in s[i + 1..j]
    && (j == |s| || s[j] == ',')
  }

  /**
   * The state of a name with a comma is the trimmed text between the first
   * comma and the next comma (or the end): "A, B, C" gives "B" and "LA,"
   * gives "".
   */
  lemma StateOfSecondField(fullName: string, i: nat, j: nat)
    requires SecondFieldBounds(fullName, i, j)
    ensures StateOf(fullName) == Strip(fullName[i + 1..j])
  {
    SecondField(fullName, i, j);
  }

  /** The second piece of the split on commas lies between the first comma and the next. */
  lemma SecondField(fullName: string, i: nat, j: nat)
    requires SecondFieldBounds(fullName, i, j)
    ensures |SplitOn(fullName, ',')| > 1 && SplitOn(fullName, ',')[1] == fullName[i + 1..j]
  {
    var head, tail := fullName[..i], fullName[i + 1..];
    assert tail[..j - (i + 1)] == fullName[i + 1..j];
    FirstPiece(head, tail, j - (i + 1));
    assert fullName == head + [','] + tail;
  }

  /** The piece after the first comma ends at the next comma or at the end. */
  lemma FirstPiece(head: string, tail: string, j: nat)
    requires ',' !in head
    requires j <= |tail| && ',' !in tail[..j] && (j == |tail| || tail[j] == ',')
    ensures SplitOn(head + [','] + tail, ',')[1] == tail[..j]
  {
    SplitOnCons(head, ',', tail);
    LeadingPiece(tail, j);
  }

  /** The first piece of a split ends at the first comma or at the end. */
  lemma {:induction false} LeadingPiece(s: string, j: nat)
    requires j <= |s| && ',' !in s[..j] && (j == |s| || s[j] == ',')
    ensures SplitOn(s, ',')[0] == s[..j]
  {
    if j > 0 {
      assert s[0] == s[..j][0];
      assert s[1..][..j - 1] == s[1..j];
      assert ',' !in s[1..j] by {
        assert forall m :: 0 <= m < j - 1 ==> s[1..j][m] == s[..j][m + 1];
      }
      LeadingPiece(s[1..], j - 1);
      assert s[..j] == [s[0]] + s[1..j];
    }
  }

  /**
   * `parse_location`. A missing place gives "N/A" three times; a country
   * code other than "US" gives (False, code, "N/A"); "US" gives
   * (True, "US", state). Everything else raises.
   */
  function ParseLocation(place: Place): (r: Result<LocationFields, LocationError>)
    ensures place.NoPlace? ==> r == Ok(NoLocation)
    ensures place.IntPlace? || place.OtherPlace? ==> r == Err(NotSubscriptable)
    ensures place.DictPlace? ==>
              (r.Ok? <==> "country_code" in place.entries
                          && (place.entries["country_code"] == "US" ==> "full_name" in place.entries))
    ensures place.DictPlace? && r.Ok? ==>
              && r.value.country == place.entries["country_code"]
              && (r.value.isUSA == Val(true) <==> r.value.country == "US")
              && (r.value.isUSA == Val(false) <==> r.value.country != "US")
              && (r.value.country != "US" ==> r.value.state == NotAvailable)
              && (r.value.country == "US" ==> r.value.state == StateOf(place.entries["full_name"]))
    ensures r.Ok? && r.value.isUSA == NA ==> place.NoPlace?
  {
    match place
    case NoPlace => Ok(NoLocation)
    case IntPlace(_) => Err(NotSubscriptable)
    case OtherPlace => Err(NotSubscriptable)
    case DictPlace(entries) =>
      if "country_code" !in entries then Err(NoCountryCode)
      else if entries["country_code"] != "US" then
        Ok(LocationFields(Val(false), entries["country_code"], NotAvailable))
      else if "full_name" !in entries then Err(StateUnbound)
      else Ok(LocationFields(Val(true), "US", StateOf(entries["full_name"])))
  }

  /** A trailing comma leaves an empty state: "LA," gives "". */
  lemma TrailingComma()
    ensures StateOf("LA,") == ""
  {
    StateOfSecondField("LA,", 2, 3);
    assert "LA,"[3..3] == "";
  }
}
