/**
 * The `geoJSON` package: the GeoJSON objects of RFC 7946 that the REST side
 * serves (a FeatureCollection of Point features for the current view, one
 * LineString feature for an aircraft's trail), and its first revision of the
 * two encoders. The JSON member "type" is the field `kind` here.
 */
module GeoJson {
  import opened Wrappers
  import opened Models

  /** The properties of a Point feature: every field of the record except its position. */
  datatype CurrentProperties = CurrentProperties(
    icao: string,
    callsign: string,
    altitude: int,
    speed: int,
    track: int,
    verticalRate: int,
    timestamp: string)

  datatype PointGeometry = PointGeometry(coordinates: seq<real>, kind: string)
  datatype PointFeature = PointFeature(kind: string, properties: CurrentProperties, geometry: PointGeometry)
  datatype PointCollection = PointCollection(kind: string, features: seq<PointFeature>)

  datatype HistoryProperties = HistoryProperties(icao: string)
  datatype LineGeometry = LineGeometry(coordinates: seq<seq<real>>, kind: string)
  datatype LineFeature = LineFeature(kind: string, properties: HistoryProperties, geometry: LineGeometry)
  datatype LineCollection = LineCollection(kind: string, features: seq<LineFeature>)

  function PropertiesOf(ac: AircraftCurrent): CurrentProperties
  {
    CurrentProperties(ac.icao, ac.callsign, ac.altitude, ac.speed, ac.track, ac.verticalRate, ac.timestamp)
  }

  /** A position holds at least two numbers (RFC 7946, section 3.1.1). */
  predicate ValidPosition(p: seq<real>)
  {
    |p| >= 2
  }

  /** A Point geometry holds one position (RFC 7946, section 3.1.2). */
  predicate ValidPoint(g: PointGeometry)
  {
    g.kind == "Point" && ValidPosition(g.coordinates)
  }

  /** A LineString geometry holds two or more positions (RFC 7946, section 3.1.4). */
  predicate ValidLineString(g: LineGeometry)
  {
    && g.kind == "LineString"
    && |g.coordinates| >= 2
    && forall i :: 0 <= i < |g.coordinates| ==> ValidPosition(g.coordinates[i])
  }

  /** A FeatureCollection of Point features (RFC 7946, sections 3.2 and 3.3). */
  predicate ValidPointCollection(c: PointCollection)
  {
    && c.kind == "FeatureCollection"
    && forall i :: 0 <= i < |c.features| ==> c.features[i].kind == "Feature" && ValidPoint(c.features[i].geometry)
  }

  /** A FeatureCollection of LineString features (RFC 7946, sections 3.2 and 3.3). */
  predicate ValidLineCollection(c: LineCollection)
  {
    && c.kind == "FeatureCollection"
    && forall i :: 0 <= i < |c.features| ==> c.features[i].kind == "Feature" && ValidLineString(c.features[i].geometry)
  }

  /**
   * A client's reading of a Point feature as an aircraft record: the position
   * in RFC 7946 order, longitude first, then latitude.
   */
  function PointAircraft(f: PointFeature): Option<AircraftCurrent>
  {
    var p := f.properties;
    var c := f.geometry.coordinates;
    if |c| < 2 then None
    else Some(AircraftCurrent(p.icao, p.callsign, p.altitude, c[1], c[0], p.speed, p.track, p.verticalRate, p.timestamp))
  }

  /**
   * `ConvertCurrentModelToGeoJson`: no aircraft give the zero collection (no
   * "type", no features); otherwise one Point feature per aircraft, in order,
   * at [longitude, latitude], so that a client reads every record back.
   */
  method ConvertCurrentModelToGeoJson(aircraft: seq<AircraftCurrent>) returns (r: PointCollection, err: Option<string>)
    ensures err == None
    ensures |aircraft| == 0 ==> r == PointCollection("", [])
    ensures |aircraft| > 0 ==> ValidPointCollection(r)
    ensures |r.features| == |aircraft|
    ensures forall i :: 0 <= i < |aircraft| ==>
      && r.features[i].kind == "Feature"
      && r.features[i].properties == PropertiesOf(aircraft[i])
      && r.features[i].geometry == PointGeometry([aircraft[i].longitude, aircraft[i].latitude], "Point")
    ensures forall i :: 0 <= i < |aircraft| ==> PointAircraft(r.features[i]) == Some(aircraft[i])
  {
    if |aircraft| == 0 {
      return PointCollection("", []), None;
    }
    var features: seq<PointFeature> := [];
    for k := 0 to |aircraft|
      invariant |features| == k
      invariant forall i :: 0 <= i < k ==>
        features[i] == PointFeature("Feature", PropertiesOf(aircraft[i]),
                                    PointGeometry([aircraft[i].longitude, aircraft[i].latitude], "Point"))
    {
      var ac := aircraft[k];
      var feature := PointFeature("Feature", PropertiesOf(ac), PointGeometry([ac.longitude, ac.latitude], "Point"));
      features := features + [feature];
    }
    r := PointCollection("FeatureCollection", features);
    err := None;
  }

  /**
   * `ConvertHistoryModelToGeoJson`: no rows give the zero collection;
   * otherwise one LineString feature named after the first row's aircraft,
   * with one [latitude, longitude] position per row, in order. A single row
   * is accepted, and gives a LineString that RFC 7946 refuses.
   */
  method ConvertHistoryModelToGeoJson(aircraft: seq<AircraftHistory>) returns (r: LineCollection, err: Option<string>)
    ensures err == None
    ensures |aircraft| == 0 ==> r == LineCollection("", [])
    ensures |aircraft| > 0 ==>
      && r.kind == "FeatureCollection"
      && |r.features| == 1
      && r.features[0].kind == "Feature"
      && r.features[0].properties == HistoryProperties(aircraft[0].icao)
      && r.features[0].geometry.kind == "LineString"
      && |r.features[0].geometry.coordinates| == |aircraft|
      && forall i :: 0 <= i < |aircraft| ==>
           r.features[0].geometry.coordinates[i] == [aircraft[i].latitude, aircraft[i].longitude]
    ensures ValidLineCollection(r) <==> |aircraft| >= 2
  {
    if |aircraft| == 0 {
      return LineCollection("", []), None;
    }
    var coordinates: seq<seq<real>> := [];
    for k := 0 to |aircraft|
      invariant |coordinates| == k
      invariant forall i :: 0 <= i < k ==> coordinates[i] == [aircraft[i].latitude, aircraft[i].longitude]
    {
      coordinates := coordinates + [[aircraft[k].latitude, aircraft[k].longitude]];
    }
    var feature := LineFeature("Feature", HistoryProperties(aircraft[0].icao), LineGeometry(coordinates, "LineString"));
    r := LineCollection("FeatureCollection", [feature]);
    err := None;
    assert r.features == [feature];
    assert forall i :: 0 <= i < |coordinates| ==> ValidPosition(coordinates[i]);
  }
}
