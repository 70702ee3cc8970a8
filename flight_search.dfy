/** Flight search over a feed snapshot: exact call-sign match first, then prefix matches. */
module FlightSearch {
  import opened Wrappers
  import opened Types
  import opened JsString
  import opened Seqs

  const EmptyQueryError := "Flight ID cannot be empty."
  const NoDataError := "Aircraft data not available yet."
  const NoMatchError := "No flights found."

  datatype SearchResult = SearchResult(selectedFlight: Option<Aircraft>, searchResults: seq<Aircraft>, error: Option<string>)

  /** Both the query and a call sign are compared trimmed and lower-cased. */
  function Normalize(s: string): (normalized: string) {
    ToLowerCase(Trim(s))
  }

  /** Normalising is idempotent: a normalised query or call sign is left as it is. */
  lemma NormalizeIdempotent(s: string)
    ensures Normalize(Normalize(s)) == Normalize(s)
  {
    var n := Normalize(s);
    TrimLowerCommute(s);
    TrimIdempotent(ToLowerCase(s));
    ToLowerCaseIdempotent(Trim(s));
  }

  /** `ac.flight?.trim().toLowerCase() === query`: an aircraft without a call sign never matches. */
  predicate IsExactMatch(ac: Aircraft, query: string) {
    ac.flight.Some? && Normalize(ac.flight.value) == query
  }

  /** `ac.flight?.trim().toLowerCase().startsWith(query)`. */
  predicate IsPrefixMatch(ac: Aircraft, query: string) {
    ac.flight.Some? && StartsWith(Normalize(ac.flight.value), query)
  }

  /**
   * An exact match is also a prefix match, and a prefix match is exact exactly
   * when the call sign is as long as the query; so the prefix branch, reached
   * only without an exact match, lists proper extensions of the query.
   */
  lemma ExactMatchIsPrefixMatch(ac: Aircraft, query: string)
    ensures IsExactMatch(ac, query) ==> IsPrefixMatch(ac, query)
    ensures IsPrefixMatch(ac, query) ==> (IsExactMatch(ac, query) <==> |Normalize(ac.flight.value)| == |query|)
  {
    if ac.flight.Some? {
      var n := Normalize(ac.flight.value);
      if n == query {
        assert n == query + [];
      }
      if StartsWith(n, query) && |n| == |query| {
        var rest :| n == query + rest;
        assert rest == [];
      }
    }
  }

  predicate HasExactMatch(aircraft: seq<Aircraft>, query: string) {
    exists i :: 0 <= i < |aircraft| && IsExactMatch(aircraft[i], query)
  }

  /**
   * `searchFlights(flightId, aircraftData)`. In order: a blank query is
   * rejected (whatever the data), missing data is rejected, the first exact
   * match is selected, otherwise the prefix matches are listed, otherwise
   * nothing was found.
   */
  function SearchFlights(flightId: string, aircraftData: Option<AircraftApiResponse>): (r: SearchResult)
    ensures r.error.Some? <==> r.selectedFlight.None? && r.searchResults == []
    ensures r.selectedFlight.Some? ==> r.searchResults == []
  {
    if Trim(flightId) == "" then SearchResult(None, [], Some(EmptyQueryError))
    else if aircraftData.None? then SearchResult(None, [], Some(NoDataError))
    else
      var q := Normalize(flightId);
      var aircraft := aircraftData.value.aircraft;
      match Find(aircraft, (a: Aircraft) => IsExactMatch(a, q))
      case Some(exact) => SearchResult(Some(exact), [], None)
      case None =>
        var prefixMatches := Filter(aircraft, (a: Aircraft) => IsPrefixMatch(a, q));
        if |prefixMatches| > 0 then SearchResult(None, prefixMatches, None)
        else SearchResult(None, [], Some(NoMatchError))
  }

  /** A blank or whitespace-only query is rejected first, even when there is no data. */
  lemma SearchBlankQuery(flightId: string, aircraftData: Option<AircraftApiResponse>)
    requires AllWhiteSpace(flightId)
    ensures SearchFlights(flightId, aircraftData) == SearchResult(None, [], Some(EmptyQueryError))
  {
  }

  /** A non-blank query against missing data is rejected. */
  lemma SearchWithoutData(flightId: string)
    requires !AllWhiteSpace(flightId)
    ensures SearchFlights(flightId, None) == SearchResult(None, [], Some(NoDataError))
  {
  }

  /** When some call sign matches exactly, the first such aircraft is selected and nothing else is reported. */
  lemma SearchExactMatch(flightId: string, data: AircraftApiResponse)
    requires !AllWhiteSpace(flightId)
    requires HasExactMatch(data.aircraft, Normalize(flightId))
    ensures var ac, q := data.aircraft, Normalize(flightId);
      exists i :: 0 <= i < |ac| && IsExactMatch(ac[i], q) &&
                  (forall j :: 0 <= j < i ==> !IsExactMatch(ac[j], q)) &&
                  SearchFlights(flightId, Some(data)) == SearchResult(Some(ac[i]), [], None)
  {
    var ac, q := data.aircraft, Normalize(flightId);
    var p := (a: Aircraft) => IsExactMatch(a, q);
    var k := FirstIndex(ac, p);
    assert k.Some?;
    assert Find(ac, p) == Some(ac[k.value]);
    assert SearchFlights(flightId, Some(data)) == SearchResult(Some(ac[k.value]), [], None);
  }

  /**
   * Without an exact match, the candidates are exactly the aircraft whose call
   * sign starts with the query, in snapshot order; none at all means "No flights found.".
   */
  lemma SearchPrefixMatches(flightId: string, data: AircraftApiResponse)
    requires !AllWhiteSpace(flightId)
    requires !HasExactMatch(data.aircraft, Normalize(flightId))
    ensures var r, q := SearchFlights(flightId, Some(data)), Normalize(flightId);
      && r.selectedFlight == None
      && FilteredFrom(r.searchResults, data.aircraft, (a: Aircraft) => IsPrefixMatch(a, q))
      && r.error == (if r.searchResults == [] then Some(NoMatchError) else None)
  {
    var q := Normalize(flightId);
    FilterIsFilteredFrom(data.aircraft, (a: Aircraft) => IsPrefixMatch(a, q));
  }

  /** Exactly one outcome: an error, a selected flight, or a non-empty list of candidates. */
  lemma SearchOutcomesExclusive(flightId: string, aircraftData: Option<AircraftApiResponse>)
    ensures var r := SearchFlights(flightId, aircraftData);
      && (r.error.Some? ==> r.selectedFlight.None? && r.searchResults == [])
      && (r.selectedFlight.Some? ==> r.error.None? && r.searchResults == [])
      && (r.searchResults != [] ==> r.error.None? && r.selectedFlight.None?)
      && (r.error.Some? || r.selectedFlight.Some? || r.searchResults != [])
  {
  }

  /** Every listed candidate has a call sign that starts with the query, and none matches it exactly. */
  lemma SearchCandidatesArePrefixMatches(flightId: string, aircraftData: Option<AircraftApiResponse>, a: Aircraft)
    requires a in SearchFlights(flightId, aircraftData).searchResults
    ensures aircraftData.Some? && a in aircraftData.value.aircraft
    ensures a.flight.Some? && StartsWith(Normalize(a.flight.value), Normalize(flightId))
    ensures Normalize(a.flight.value) != Normalize(flightId)
  {
    var q := Normalize(flightId);
    FilterIsFilteredFrom(aircraftData.value.aircraft, (a: Aircraft) => IsPrefixMatch(a, q));
  }

  /** Search depends on the query only through its trimmed, lower-cased form. */
  lemma SearchDependsOnNormalizedQuery(q1: string, q2: string, aircraftData: Option<AircraftApiResponse>)
    requires Normalize(q1) == Normalize(q2)
    ensures SearchFlights(q1, aircraftData) == SearchFlights(q2, aircraftData)
  {
    // Lower-casing keeps the length, so one trimmed query is empty exactly when the other is.
    assert |Trim(q1)| == |Normalize(q1)| && |Trim(q2)| == |Normalize(q2)|;
  }

  /** Queries that differ only in ASCII letter case give identical results. */
  lemma SearchIsCaseInsensitive(q1: string, q2: string, aircraftData: Option<AircraftApiResponse>)
    requires ToLowerCase(q1) == ToLowerCase(q2)
    ensures SearchFlights(q1, aircraftData) == SearchFlights(q2, aircraftData)
  {
    TrimLowerCommute(q1);
    TrimLowerCommute(q2);
    SearchDependsOnNormalizedQuery(q1, q2, aircraftData);
  }

  /** Whitespace around the query is ignored. */
  lemma SearchIgnoresOuterWhiteSpace(pre: string, q: string, post: string, aircraftData: Option<AircraftApiResponse>)
    requires AllWhiteSpace(pre) && AllWhiteSpace(post)
    ensures SearchFlights(pre + q + post, aircraftData) == SearchFlights(q, aircraftData)
  {
    TrimIgnoresOuterWhiteSpace(pre, q, post);
    SearchDependsOnNormalizedQuery(pre + q + post, q, aircraftData);
  }

  /**
   * `updateSelectedFlight(selectedFlight, aircraftData)`: with both present,
   * the first aircraft of the new snapshot with the same `hex` replaces the
   * selection; otherwise the selection is returned unchanged.
   */
  function UpdateSelectedFlight(selectedFlight: Option<Aircraft>, aircraftData: Option<AircraftApiResponse>): (r: Option<Aircraft>)
    ensures selectedFlight.None? || aircraftData.None? ==> r == selectedFlight
    ensures r.Some? <==> selectedFlight.Some?
    ensures r.Some? ==> r.value.hex == selectedFlight.value.hex
    ensures selectedFlight.Some? && aircraftData.Some? ==>
      var ac, hex := aircraftData.value.aircraft, selectedFlight.value.hex;
      if exists i :: 0 <= i < |ac| && ac[i].hex == hex then
        exists i :: 0 <= i < |ac| && ac[i].hex == hex && r == Some(ac[i]) &&
                    forall j :: 0 <= j < i ==> ac[j].hex != hex
      else r == selectedFlight
  {
    if selectedFlight.None? || aircraftData.None? then selectedFlight
    else
      var hex := selectedFlight.value.hex;
      match Find(aircraftData.value.aircraft, (a: Aircraft) => a.hex == hex)
      case Some(updated) => Some(updated)
      case None => selectedFlight
  }
}
