/** Altitude filtering of a snapshot, its advisory validator, and the derived statistics. */
module AltitudeFilter {
  import opened Wrappers
  import opened Types
  import opened Seqs

  const MinAboveMaxError := "Minimum altitude cannot be greater than maximum altitude."
  const NegativeMinError := "Minimum altitude cannot be negative."
  const NegativeMaxError := "Maximum altitude cannot be negative."

  /** A bound constrains only when present and positive (`bound && bound > 0`): null, 0 and negatives do not. */
  predicate IsSet(bound: Option<int>) {
    bound.Some? && bound.value > 0
  }

  /** The filter's branching predicate, branch for branch: both bounds, then min only, then max only, then none. */
  predicate KeepsAltitude(altitude: int, minAltitude: Option<int>, maxAltitude: Option<int>) {
    if IsSet(minAltitude) && IsSet(maxAltitude) then minAltitude.value <= altitude <= maxAltitude.value
    else if IsSet(minAltitude) then altitude >= minAltitude.value
    else if IsSet(maxAltitude) then altitude <= maxAltitude.value
    else true
  }

  /** The policy in one line: every set bound holds, inclusively. */
  predicate WithinBounds(altitude: int, minAltitude: Option<int>, maxAltitude: Option<int>) {
    && (IsSet(minAltitude) ==> altitude >= minAltitude.value)
    && (IsSet(maxAltitude) ==> altitude <= maxAltitude.value)
  }

  /** The cascade of branches decides exactly the conjunction of the set bounds. */
  lemma KeepsIffWithinBounds(altitude: int, minAltitude: Option<int>, maxAltitude: Option<int>)
    ensures KeepsAltitude(altitude, minAltitude, maxAltitude) <==> WithinBounds(altitude, minAltitude, maxAltitude)
  {
  }

  /**
   * `filterAircraftByAltitude(aircraft, minAltitude, maxAltitude)`: the
   * aircraft within every set bound, in input order, every such one kept.
   */
  function FilterAircraftByAltitude(aircraft: seq<Aircraft>, minAltitude: Option<int>, maxAltitude: Option<int>): (r: seq<Aircraft>)
    ensures FilteredFrom(r, aircraft, (ac: Aircraft) => WithinBounds(ac.altBaro, minAltitude, maxAltitude))
    ensures |r| <= |aircraft|
  {
    var keeps := (ac: Aircraft) => KeepsAltitude(ac.altBaro, minAltitude, maxAltitude);
    FilterIsFilteredFrom(aircraft, keeps);
    Filter(aircraft, keeps)
  }

  /** With no bound set the input comes back unchanged. */
  lemma NoBoundKeepsAll(aircraft: seq<Aircraft>, minAltitude: Option<int>, maxAltitude: Option<int>)
    requires !IsSet(minAltitude) && !IsSet(maxAltitude)
    ensures FilterAircraftByAltitude(aircraft, minAltitude, maxAltitude) == aircraft
  {
    FilterKeepsAll(aircraft, (ac: Aircraft) => KeepsAltitude(ac.altBaro, minAltitude, maxAltitude));
  }

  /**
   * Both bounds set with `min > max`: nothing is kept. The filter does not fall
   * back to the minimum alone; a check that every kept aircraft is at or above
   * the minimum holds only because the result is empty.
   */
  lemma CrossedBoundsKeepNothing(aircraft: seq<Aircraft>, minAltitude: Option<int>, maxAltitude: Option<int>)
    requires IsSet(minAltitude) && IsSet(maxAltitude) && minAltitude.value > maxAltitude.value
    ensures FilterAircraftByAltitude(aircraft, minAltitude, maxAltitude) == []
  {
  }

  /** A one-aircraft snapshot keeps its aircraft exactly when it is within every set bound. */
  lemma SingletonFilter(ac: Aircraft, minAltitude: Option<int>, maxAltitude: Option<int>)
    ensures FilterAircraftByAltitude([ac], minAltitude, maxAltitude) ==
            if WithinBounds(ac.altBaro, minAltitude, maxAltitude) then [ac] else []
  {
    assert [ac][1..] == [];
  }

  /**
   * `validateAltitudeRange(minAltitude, maxAltitude)`: crossed bounds (both
   * positive) are reported first, then a negative minimum, then a negative maximum.
   */
  function ValidateAltitudeRange(minAltitude: Option<int>, maxAltitude: Option<int>): (r: Validation)
    ensures r.isValid <==> r.error.None?
    ensures IsSet(minAltitude) && IsSet(maxAltitude) && minAltitude.value > maxAltitude.value ==>
              r.error == Some(MinAboveMaxError)
    ensures r.error == Some(MinAboveMaxError) ==> IsSet(minAltitude) && IsSet(maxAltitude) && minAltitude.value > maxAltitude.value
    ensures r.error == Some(NegativeMinError) <==> !(r.error == Some(MinAboveMaxError)) && minAltitude.Some? && minAltitude.value < 0
    ensures r.error == Some(NegativeMaxError) <==>
              && !(IsSet(minAltitude) && IsSet(maxAltitude) && minAltitude.value > maxAltitude.value)
              && !(minAltitude.Some? && minAltitude.value < 0)
              && maxAltitude.Some? && maxAltitude.value < 0
    ensures r.isValid <==>
              && !(IsSet(minAltitude) && IsSet(maxAltitude) && minAltitude.value > maxAltitude.value)
              && !(minAltitude.Some? && minAltitude.value < 0)
              && !(maxAltitude.Some? && maxAltitude.value < 0)
  {
    if minAltitude.Some? && maxAltitude.Some? && minAltitude.value > 0 && maxAltitude.value > 0
       && minAltitude.value > maxAltitude.value
    then Validation(false, Some(MinAboveMaxError))
    else if minAltitude.Some? && minAltitude.value < 0 then Validation(false, Some(NegativeMinError))
    else if maxAltitude.Some? && maxAltitude.value < 0 then Validation(false, Some(NegativeMaxError))
    else Validation(true, None)
  }

  /**
   * The validator's crossed-bounds error is raised exactly for the bounds
   * under which the filter rejects every possible altitude.
   */
  lemma CrossedBoundsIffFilterRejectsAll(minAltitude: Option<int>, maxAltitude: Option<int>)
    ensures ValidateAltitudeRange(minAltitude, maxAltitude).error == Some(MinAboveMaxError) <==>
            forall altitude :: !KeepsAltitude(altitude, minAltitude, maxAltitude)
  {
    if ValidateAltitudeRange(minAltitude, maxAltitude).error != Some(MinAboveMaxError) {
      var altitude := if IsSet(minAltitude) then minAltitude.value
                     else if IsSet(maxAltitude) then maxAltitude.value
                     else 0;
      assert KeepsAltitude(altitude, minAltitude, maxAltitude);
    }
  }

  datatype Stats = Stats(total: nat, filtered: nat, percentage: real)

  /** `part / whole * 100` for `0 <= part <= whole`, `whole > 0`: a percentage in [0, 100]. */
  function Percentage(part: nat, whole: nat): (p: real)
    requires part <= whole && whole > 0
    ensures 0.0 <= p <= 100.0
    ensures p * (whole as real) == 100.0 * (part as real)
  {
    var ratio := part as real / whole as real;
    assert ratio * (whole as real) == part as real;
    assert ratio <= 1.0 by {
      if ratio > 1.0 {
        assert ratio * (whole as real) > 1.0 * (whole as real);
      }
    }
    ratio * 100.0
  }

  /** The whole is 100%. */
  lemma PercentageOfWhole(whole: nat)
    requires whole > 0
    ensures Percentage(whole, whole) == 100.0
  {
    var w := whole as real;
    assert w / w == 1.0;
  }

  /** `getAltitudeFilterStats(aircraft, minAltitude, maxAltitude)`. */
  function GetAltitudeFilterStats(aircraft: seq<Aircraft>, minAltitude: Option<int>, maxAltitude: Option<int>): (r: Stats)
    ensures r.total == |aircraft|
    ensures r.filtered == |FilterAircraftByAltitude(aircraft, minAltitude, maxAltitude)| <= r.total
    ensures 0.0 <= r.percentage <= 100.0
    ensures r.total == 0 ==> r.percentage == 0.0
    ensures r.total > 0 ==> r.percentage == Percentage(r.filtered, r.total)
  {
    var total := |aircraft|;
    var filtered := |FilterAircraftByAltitude(aircraft, minAltitude, maxAltitude)|;
    Stats(total, filtered, if total > 0 then Percentage(filtered, total) else 0.0)
  }

  /** With no bound set and a non-empty snapshot, every aircraft is counted: 100%. */
  lemma NoBoundStatsFull(aircraft: seq<Aircraft>, minAltitude: Option<int>, maxAltitude: Option<int>)
    requires !IsSet(minAltitude) && !IsSet(maxAltitude) && aircraft != []
    ensures GetAltitudeFilterStats(aircraft, minAltitude, maxAltitude).percentage == 100.0
  {
    NoBoundKeepsAll(aircraft, minAltitude, maxAltitude);
    PercentageOfWhole(|aircraft|);
  }
}
