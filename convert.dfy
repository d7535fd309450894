/**
 * The `convert` package: the SBS triplet decoder, its timestamp builder and
 * the later revision of the GeoJSON encoders.
 */
module Convert {
  import opened Wrappers
  import opened Strings
  import opened Numbers
  import opened Models
  import opened GeoJson

  /** `errorMsg.ErrorGeoJsonTooFewCoordinates`. */
  const TooFewCoordinates: string := "coordinates array must have at least 2 items"

  /** The millisecond suffix the feed appends to every time of day. */
  const MillisZero: string := ".000"

  /**
   * The store's timestamp text for an SBS date ("2024/03/29") and time
   * ("11:45:05.000"): every '/' of the date becomes '-', one trailing ".000"
   * is dropped from the time, and one space joins the two.
   */
  function MakeTimeStamp(date: string, time: string): (r: string)
    ensures |r| == |date| + 1 + |time| - (if HasSuffix(time, MillisZero) then 4 else 0)
    ensures forall i :: 0 <= i < |date| ==> r[i] == (if date[i] == '/' then '-' else date[i])
    ensures r[|date|] == ' '
    ensures r[|date| + 1..] == if HasSuffix(time, MillisZero) then time[..|time| - 4] else time
    ensures '/' !in r[..|date|]
  {
    ReplaceAll(date, '/', '-') + " " + TrimSuffix(time, MillisZero)
  }

  /** The worked example of the feed's own format. */
  lemma MakeTimeStampExample()
    ensures MakeTimeStamp("2024/03/29", "11:45:05.000") == "2024-03-29 11:45:05"
  {
    var r := MakeTimeStamp("2024/03/29", "11:45:05.000");
    assert HasSuffix("11:45:05.000", MillisZero);
    assert r[..10] == "2024-03-29";
    assert r == r[..10] + " " + r[11..];
  }

  /** The date part of a timestamp determines every character of the result up to the space. */
  lemma MakeTimeStampDatePart(date: string, time: string)
    ensures MakeTimeStamp(date, time)[..|date|] == ReplaceAll(date, '/', '-')
  {
  }

  /**
   * `SbsToAircraftCurrent`: one record from an identification (class 1),
   * an airborne-position (class 3) and an airborne-velocity (class 4) message,
   * each already split at commas. The fields are read without bounds checks,
   * so the lines must be long enough. The six numeric fields are parsed in
   * the order altitude, latitude, longitude, speed, track, vertical rate; the
   * first failure is returned and no record is produced.
   */
  function SbsToAircraftCurrent(msg1: seq<string>, msg3: seq<string>, msg4: seq<string>)
    : (r: Result<AircraftCurrent, NumError>)
    requires |msg1| >= 11 && |msg3| >= 16 && |msg4| >= 17
  {
    var icao := msg1[4];
    var date := msg1[8];
    var hour := msg1[9];
    var callsign := msg1[10];
    var timestamp := MakeTimeStamp(date, hour);
    match Atoi(msg3[11])
    case Failure(e) => Failure(e)
    case Success(altitude) =>
      match ParseFloat(msg3[14])
      case Failure(e) => Failure(e)
      case Success(lat) =>
        match ParseFloat(msg3[15])
        case Failure(e) => Failure(e)
        case Success(long) =>
          match ParseFloat(msg4[12])
          case Failure(e) => Failure(e)
          case Success(speed) =>
            match ParseFloat(msg4[13])
            case Failure(e) => Failure(e)
            case Success(track) =>
              match Atoi(msg4[16])
              case Failure(e) => Failure(e)
              case Success(vspeed) =>
                Success(AircraftCurrent(icao, callsign, altitude, lat, long,
                                        TruncToInt(speed), TruncToInt(track), vspeed, timestamp))
  }

  /**
   * The decoder succeeds exactly when all six numeric fields parse, and then
   * copies each field to its place; otherwise it returns the first failure
   * in parsing order, which names one of the six fields.
   */
  lemma SbsToAircraftCurrentSpec(msg1: seq<string>, msg3: seq<string>, msg4: seq<string>)
    requires |msg1| >= 11 && |msg3| >= 16 && |msg4| >= 17
    ensures var r := SbsToAircraftCurrent(msg1, msg3, msg4);
      && (r.Success? <==>
            && Atoi(msg3[11]).Success? && ParseFloat(msg3[14]).Success? && ParseFloat(msg3[15]).Success?
            && ParseFloat(msg4[12]).Success? && ParseFloat(msg4[13]).Success? && Atoi(msg4[16]).Success?)
      && (r.Success? ==>
            && r.value.icao == msg1[4]
            && r.value.callsign == msg1[10]
            && r.value.timestamp == MakeTimeStamp(msg1[8], msg1[9])
            && r.value.altitude == Atoi(msg3[11]).value
            && r.value.latitude == ParseFloat(msg3[14]).value
            && r.value.longitude == ParseFloat(msg3[15]).value
            && r.value.speed == TruncToInt(ParseFloat(msg4[12]).value)
            && r.value.track == TruncToInt(ParseFloat(msg4[13]).value)
            && r.value.verticalRate == Atoi(msg4[16]).value)
      && (Atoi(msg3[11]).Failure? ==> r == Failure(NumError(FnAtoi, msg3[11])))
      && (Atoi(msg3[11]).Success? && ParseFloat(msg3[14]).Failure? ==>
            r == Failure(NumError(FnParseFloat, msg3[14])))
      && (Atoi(msg3[11]).Success? && ParseFloat(msg3[14]).Success? && ParseFloat(msg3[15]).Failure? ==>
            r == Failure(NumError(FnParseFloat, msg3[15])))
      && (Atoi(msg3[11]).Success? && ParseFloat(msg3[14]).Success? && ParseFloat(msg3[15]).Success?
          && ParseFloat(msg4[12]).Failure? ==>
            r == Failure(NumError(FnParseFloat, msg4[12])))
      && (Atoi(msg3[11]).Success? && ParseFloat(msg3[14]).Success? && ParseFloat(msg3[15]).Success?
          && ParseFloat(msg4[12]).Success? && ParseFloat(msg4[13]).Failure? ==>
            r == Failure(NumError(FnParseFloat, msg4[13])))
      && (Atoi(msg3[11]).Success? && ParseFloat(msg3[14]).Success? && ParseFloat(msg3[15]).Success?
          && ParseFloat(msg4[12]).Success? && ParseFloat(msg4[13]).Success? && Atoi(msg4[16]).Failure? ==>
            r == Failure(NumError(FnAtoi, msg4[16])))
      && (r.Failure? ==> r.error.num in {msg3[11], msg3[14], msg3[15], msg4[12], msg4[13], msg4[16]})
  {
  }

  /**
   * `CurrentModelToGeoJson`: a "FeatureCollection" (also for no aircraft)
   * with one Point feature per aircraft, in order. This revision writes the
   * position as [latitude, longitude], so a client reading RFC 7946 order gets
   * every record back with its two coordinates exchanged.
   */
  method CurrentModelToGeoJson(aircraft: seq<AircraftCurrent>) returns (r: PointCollection, err: Option<string>)
    ensures err == None
    ensures ValidPointCollection(r)
    ensures |r.features| == |aircraft|
    ensures forall i :: 0 <= i < |aircraft| ==>
      && r.features[i].kind == "Feature"
      && r.features[i].properties == PropertiesOf(aircraft[i])
      && r.features[i].geometry == PointGeometry([aircraft[i].latitude, aircraft[i].longitude], "Point")
    ensures forall i :: 0 <= i < |aircraft| ==>
      PointAircraft(r.features[i]) == Some(aircraft[i].(latitude := aircraft[i].longitude, longitude := aircraft[i].latitude))
  {
    var features: seq<PointFeature> := [];
    for k := 0 to |aircraft|
      invariant |features| == k
      invariant forall i :: 0 <= i < k ==>
        features[i] == PointFeature("Feature", PropertiesOf(aircraft[i]),
                                    PointGeometry([aircraft[i].latitude, aircraft[i].longitude], "Point"))
    {
      var ac := aircraft[k];
      var feature := PointFeature("Feature", PropertiesOf(ac), PointGeometry([ac.latitude, ac.longitude], "Point"));
      features := features + [feature];
    }
    r := PointCollection("FeatureCollection", features);
    err := None;
  }

  /**
   * `HistoryModelToGeoJson`: fewer than two rows cannot make a LineString
   * (RFC 7946, section 3.1.4) and give the zero collection and
   * `TooFewCoordinates`; otherwise one LineString feature named after the
   * first row's aircraft, with one [longitude, latitude] position per row.
   */
  method HistoryModelToGeoJson(aircraft: seq<AircraftHistory>) returns (r: LineCollection, err: Option<string>)
    ensures err == None <==> |aircraft| >= 2
    ensures err != None ==> err == Some(TooFewCoordinates) && r == LineCollection("", [])
    ensures err == None ==>
      && ValidLineCollection(r)
      && |r.features| == 1
      && r.features[0].properties == HistoryProperties(aircraft[0].icao)
      && |r.features[0].geometry.coordinates| == |aircraft|
      && forall i :: 0 <= i < |aircraft| ==>
           r.features[0].geometry.coordinates[i] == [aircraft[i].longitude, aircraft[i].latitude]
  {
    if |aircraft| < 2 {
      return LineCollection("", []), Some(TooFewCoordinates);
    }
    var coordinates: seq<seq<real>> := [];
    for k := 0 to |aircraft|
      invariant |coordinates| == k
      invariant forall i :: 0 <= i < k ==> coordinates[i] == [aircraft[i].longitude, aircraft[i].latitude]
    {
      coordinates := coordinates + [[aircraft[k].longitude, aircraft[k].latitude]];
    }
    var feature := LineFeature("Feature", HistoryProperties(aircraft[0].icao), LineGeometry(coordinates, "LineString"));
    r := LineCollection("FeatureCollection", [feature]);
    err := None;
    assert r.features == [feature];
    assert forall i :: 0 <= i < |coordinates| ==> ValidPosition(coordinates[i]);
  }
}
