/**
 * The front end's list helpers (`aircraftUtils.js`) over GeoJSON features
 * of current aircraft. `isInBounds` and `trimAircraftList` test for both
 * `null` and `undefined`, so there both are `None`; the list given to
 * `findAircraftByIcaoOrCallsign` is `null`, `undefined` or an array, since
 * that helper tests only for `null`. A missing array element is
 * `undefined`, and every comparison with it is false. `Math.random()` is a
 * parameter: the draw made for the k-th element.
 */
module AircraftUtils {
  import opened Wrappers

  /** The parts of a feature the helpers read: its properties and its Point coordinates. */
  datatype Feature = Feature(icao: string, callsign: string, coordinates: seq<real>)

  datatype LatLng = LatLng(lat: real, lng: real)

  /** A map's bounds as the map library gives them: the north-east and south-west corners. */
  datatype Bounds = Bounds(ne: LatLng, sw: LatLng)

  /** `coordinates[k]`: undefined past the end. */
  function Coordinate(f: Feature, k: nat): Option<real>
  {
    if k < |f.coordinates| then Some(f.coordinates[k]) else None
  }

  /** `x > y` when `x` may be undefined. */
  predicate Above(x: Option<real>, y: real)
  {
    x.Some? && x.value > y
  }

  /** `x < y` when `x` may be undefined. */
  predicate Below(x: Option<real>, y: real)
  {
    x.Some? && x.value < y
  }

  /** `isInBounds(ac, mapBounds)`: the first coordinate against latitudes, the second against longitudes. */
  function IsInBounds(ac: Option<Feature>, mapBounds: Option<Bounds>): bool
  {
    if ac.None? || mapBounds.None? then false
    else
      var c0, c1, b := Coordinate(ac.value, 0), Coordinate(ac.value, 1), mapBounds.value;
      if Above(c0, b.ne.lat) || Below(c0, b.sw.lat) then false
      else if Above(c1, b.ne.lng) || Below(c1, b.sw.lng) then false
      else true
  }

  /**
   * With both coordinates present, a feature is in bounds exactly when its
   * first coordinate lies between the two latitudes and its second between
   * the two longitudes, the edges included; a missing aircraft or missing
   * bounds is never in bounds.
   */
  lemma InBoundsExactly(ac: Option<Feature>, mapBounds: Option<Bounds>)
    ensures ac.None? || mapBounds.None? ==> !IsInBounds(ac, mapBounds)
    ensures ac.Some? && mapBounds.Some? && |ac.value.coordinates| >= 2 ==>
      var c, b := ac.value.coordinates, mapBounds.value;
      (IsInBounds(ac, mapBounds) <==> b.sw.lat <= c[0] <= b.ne.lat && b.sw.lng <= c[1] <= b.ne.lng)
  {
  }

  /** A feature with no coordinates: every comparison with a missing coordinate is false, so none rejects it and it counts as in bounds. */
  lemma NoCoordinatesInBounds(f: Feature, b: Bounds)
    requires |f.coordinates| == 0
    ensures IsInBounds(Some(f), Some(b))
  {
  }

  /** The index of the first feature whose icao or callsign is the search text. */
  function FirstMatch(search: string, list: seq<Feature>): (k: Option<nat>)
    ensures k.Some? ==> k.value < |list|
  {
    if list == [] then None
    else if list[0].icao == search || list[0].callsign == search then Some(0)
    else match FirstMatch(search, list[1..])
      case None => None
      case Some(k) => Some(k + 1)
  }

  predicate Matches(f: Feature, search: string)
  {
    f.icao == search || f.callsign == search
  }

  /** The first match matches and nothing before it does; no index means nothing matches. */
  lemma {:induction false} FirstMatchSpec(search: string, list: seq<Feature>)
    ensures FirstMatch(search, list).None? <==> forall i :: 0 <= i < |list| ==> !Matches(list[i], search)
    ensures FirstMatch(search, list).Some? ==>
      var k := FirstMatch(search, list).value;
      Matches(list[k], search) && forall i :: 0 <= i < k ==> !Matches(list[i], search)
  {
    if list != [] && !Matches(list[0], search) {
      FirstMatchSpec(search, list[1..]);
      assert forall i :: 1 <= i < |list| ==> list[i] == list[1..][i - 1];
    }
  }

  /** A JavaScript list argument: `null`, `undefined` or an array. */
  datatype List = Null | Undefined | Array(items: seq<Feature>)

  /** How a call ends: it returns a feature or `null`, or it throws a `TypeError`. */
  datatype Lookup = Returned(found: Option<Feature>) | ThrewTypeError

  /**
   * `findAircraftByIcaoOrCallsign(search, aircrafts)`: the first match in
   * list order, else null; `null` gives null, while `undefined` passes the
   * `!== null` test and `for ... of` over it throws.
   */
  method FindAircraftByIcaoOrCallsign(search: string, aircrafts: List) returns (result: Lookup)
    ensures aircrafts.Null? ==> result == Returned(None)
    ensures aircrafts.Undefined? ==> result == ThrewTypeError
    ensures aircrafts.Array? ==>
      result == Returned(match FirstMatch(search, aircrafts.items)
        case None => None
        case Some(k) => Some(aircrafts.items[k]))
  {
    if aircrafts.Undefined? {
      return ThrewTypeError;
    }
    if aircrafts.Array? {
      var list := aircrafts.items;
      FirstMatchSpec(search, list);
      for i := 0 to |list|
        invariant forall j :: 0 <= j < i ==> !Matches(list[j], search)
      {
        var ac := list[i];
        if ac.icao == search || ac.callsign == search {
          FirstMatchAt(search, list, i);
          return Returned(Some(ac));
        }
      }
    }
    return Returned(None);
  }

  /** A match with none before it is the first match. */
  lemma FirstMatchAt(search: string, list: seq<Feature>, i: nat)
    requires i < |list| && Matches(list[i], search)
    requires forall j :: 0 <= j < i ==> !Matches(list[j], search)
    ensures FirstMatch(search, list) == Some(i)
  {
    FirstMatchSpec(search, list);
    var k := FirstMatch(search, list).value;
    assert !(k < i) && !(i < k);
  }

  /** The draw a kept element must beat, by list length; None when the list is short enough already. */
  function Threshold(n: nat): Option<real>
  {
    if n > 3500 then Some(0.9)
    else if n > 2500 then Some(0.8)
    else if n > 2000 then Some(0.7)
    else if n > 1250 then Some(0.5)
    else if n > 900 then Some(0.3)
    else if n > 500 then Some(0.15)
    else None
  }

  /** `filter(() => Math.random() > t)`, where the element at position `from + k` gets `random(from + k)`. */
  function Sample<T>(list: seq<T>, t: real, random: nat -> real, from: nat): (r: seq<T>)
    ensures |r| <= |list|
    decreases |list|
  {
    if list == [] then []
    else (if random(from) > t then [list[0]] else []) + Sample(list[1..], t, random, from + 1)
  }

  /** `trimAircraftList(aircrafts)`. */
  function TrimAircraftList<T>(aircrafts: Option<seq<T>>, random: nat -> real): Option<seq<T>>
  {
    match aircrafts
    case None => None
    case Some(list) =>
      match Threshold(|list|)
      case None => Some(list)
      case Some(t) => Some(Sample(list, t, random, 0))
  }

  /** `a` is `b` with some elements left out, the rest in order. */
  predicate Subsequence<T(==)>(a: seq<T>, b: seq<T>)
    decreases |b|
  {
    if a == [] then true
    else if b == [] then false
    else (a[0] == b[0] && Subsequence(a[1..], b[1..])) || Subsequence(a, b[1..])
  }

  /** Sampling keeps an order-preserving sub-list of the input. */
  lemma {:induction false} SampleSubsequence<T>(list: seq<T>, t: real, random: nat -> real, from: nat)
    ensures Subsequence(Sample(list, t, random, from), list)
    decreases |list|
  {
    if list != [] {
      SampleSubsequence(list[1..], t, random, from + 1);
      var rest := Sample(list[1..], t, random, from + 1);
      if random(from) > t {
        assert Sample(list, t, random, from) == [list[0]] + rest;
        assert ([list[0]] + rest)[1..] == rest;
      } else {
        assert Sample(list, t, random, from) == rest;
        SubsequenceSkip(rest, list);
      }
    }
  }

  lemma SubsequenceSkip<T>(a: seq<T>, b: seq<T>)
    requires b != [] && Subsequence(a, b[1..])
    ensures Subsequence(a, b)
  {
  }

  /** Every element is kept when every draw beats the threshold, and none when no draw does. */
  lemma {:induction false} SampleAllOrNone<T>(list: seq<T>, t: real, random: nat -> real, from: nat)
    ensures (forall k :: from <= k < from + |list| ==> random(k) > t) ==> Sample(list, t, random, from) == list
    ensures (forall k :: from <= k < from + |list| ==> random(k) <= t) ==> Sample(list, t, random, from) == []
    decreases |list|
  {
    if list != [] {
      SampleAllOrNone(list[1..], t, random, from + 1);
      assert [list[0]] + list[1..] == list;
    }
  }

  /** Null and undefined stay null; a list of at most 500 is returned as it is; a longer one is sampled. */
  lemma TrimSpec<T>(aircrafts: Option<seq<T>>, random: nat -> real)
    ensures aircrafts.None? <==> TrimAircraftList(aircrafts, random).None?
    ensures aircrafts.Some? && |aircrafts.value| <= 500 ==> TrimAircraftList(aircrafts, random) == aircrafts
    ensures aircrafts.Some? ==> Subsequence(TrimAircraftList(aircrafts, random).value, aircrafts.value)
    ensures aircrafts.Some? && |aircrafts.value| > 500 ==>
      TrimAircraftList(aircrafts, random) == Some(Sample(aircrafts.value, Threshold(|aircrafts.value|).value, random, 0))
  {
    if aircrafts.Some? {
      var list := aircrafts.value;
      match Threshold(|list|)
      case None => SubsequenceSelf(list);
      case Some(t) => SampleSubsequence(list, t, random, 0);
    }
  }

  lemma {:induction false} SubsequenceSelf<T>(list: seq<T>)
    ensures Subsequence(list, list)
    decreases |list|
  {
    if list != [] {
      SubsequenceSelf(list[1..]);
    }
  }

  /** The thresholds grow with the list: a longer list never keeps a larger share. */
  lemma ThresholdMonotone(m: nat, n: nat)
    requires 500 < m <= n
    ensures Threshold(m).Some? && Threshold(n).Some? && Threshold(m).value <= Threshold(n).value
  {
  }
}
