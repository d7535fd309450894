/**
 * The BaseStation (SBS-1) text lines that a receiver writes for one aircraft:
 * an identification message (class 1), an airborne-position message
 * (class 3) and an airborne-velocity message (class 4), each of 22
 * comma-separated fields, in the layout of the feed's own sample. Writing a
 * report and decoding the three lines gives the report back.
 */
module SbsFormat {
  import opened Wrappers
  import opened Strings
  import opened Numbers
  import opened Models
  import Convert

  /** Decimal places of the coordinates, speed and track in the feed's sample ("19.329620"). */
  const Places: nat := 6

  /**
   * What a receiver reports about one aircraft. Coordinates, speed and track
   * are in millionths, as the feed prints them with six decimals.
   */
  datatype Report = Report(
    icao: string,
    callsign: string,
    date: string,
    time: string,
    altitude: int,
    latitude: int,
    longitude: int,
    speed: int,
    track: int,
    verticalRate: int)

  /** Text fields may not hold the separator; integers must fit the decoder's int64. */
  predicate Writable(r: Report)
  {
    && ',' !in r.icao && ',' !in r.callsign && ',' !in r.date && ',' !in r.time
    && MinInt64 <= r.altitude <= MaxInt64
    && MinInt64 <= r.verticalRate <= MaxInt64
  }

  function Blanks(n: nat): seq<string>
  {
    seq(n, _ => "")
  }

  /** The ten fields every message starts with: type, class, ids, hex ident and the two date/time pairs. */
  function Header(r: Report, kind: string): seq<string>
  {
    ["MSG", kind, "0", "0", r.icao, "0", r.date, r.time, r.date, r.time]
  }

  function Msg1Fields(r: Report): seq<string>
  {
    Header(r, "1") + [r.callsign] + Blanks(11)
  }

  function Msg3Fields(r: Report): seq<string>
  {
    Header(r, "3") + ["", Itoa(r.altitude), "", "", FormatFixed(r.latitude, Places), FormatFixed(r.longitude, Places)]
      + Blanks(6)
  }

  function Msg4Fields(r: Report): seq<string>
  {
    Header(r, "4") + ["", "", FormatFixed(r.speed, Places), FormatFixed(r.track, Places), "", "", Itoa(r.verticalRate)]
      + Blanks(5)
  }

  /** The three lines of a report, in the order the receiver sends them. */
  function Lines(r: Report): seq<string>
  {
    [Join(Msg1Fields(r), ","), Join(Msg3Fields(r), ","), Join(Msg4Fields(r), ",")]
  }

  /** The record the back end should make of a report. */
  function Record(r: Report): AircraftCurrent
  {
    var scale := Pow10(Places) as real;
    AircraftCurrent(r.icao, r.callsign, r.altitude,
                    (r.latitude as real) / scale, (r.longitude as real) / scale,
                    TruncToInt((r.speed as real) / scale), TruncToInt((r.track as real) / scale),
                    r.verticalRate, Convert.MakeTimeStamp(r.date, r.time))
  }

  lemma NoCommaInDigits(s: string)
    requires AllDigits(s)
    ensures ',' !in s
  {
  }

  lemma NoCommaInItoa(n: int)
    ensures ',' !in Itoa(n)
  {
    NoCommaInDigits(Digits(if n < 0 then -n else n));
  }

  lemma NoCommaInFixed(u: int, d: nat)
    requires d >= 1
    ensures ',' !in FormatFixed(u, d)
  {
    var m := Abs(u);
    FixedDigitsValue(m, d);
    var ip, fp := IntDigits(m, d), FracDigits(m, d);
    assert AllDigits(ip) && AllDigits(fp) by {
      forall k | 0 <= k < |fp| ensures IsDigit(fp[k]) { assert fp[k] == (ip + fp)[|ip| + k]; }
    }
    NoCommaInDigits(ip);
    NoCommaInDigits(fp);
    assert FormatFixed(u, d) == (if u < 0 then "-" else "") + ip + "." + fp;
  }

  predicate CommaFree(fields: seq<string>)
  {
    forall i :: 0 <= i < |fields| ==> ',' !in fields[i]
  }

  lemma CommaFreeConcat(a: seq<string>, b: seq<string>)
    requires CommaFree(a) && CommaFree(b)
    ensures CommaFree(a + b)
  {
    forall i | 0 <= i < |a + b| ensures ',' !in (a + b)[i] {
      if i < |a| { assert (a + b)[i] == a[i]; } else { assert (a + b)[i] == b[i - |a|]; }
    }
  }

  lemma CommaFreeMsg1(r: Report)
    requires Writable(r)
    ensures CommaFree(Msg1Fields(r))
  {
    assert CommaFree(Header(r, "1") + [r.callsign]);
    CommaFreeConcat(Header(r, "1") + [r.callsign], Blanks(11));
  }

  lemma CommaFreeMsg3(r: Report)
    requires Writable(r)
    ensures CommaFree(Msg3Fields(r))
  {
    NoCommaInItoa(r.altitude);
    NoCommaInFixed(r.latitude, Places);
    NoCommaInFixed(r.longitude, Places);
    var body := ["", Itoa(r.altitude), "", "", FormatFixed(r.latitude, Places), FormatFixed(r.longitude, Places)];
    assert CommaFree(body);
    assert CommaFree(Header(r, "3"));
    CommaFreeConcat(Header(r, "3"), body);
    CommaFreeConcat(Header(r, "3") + body, Blanks(6));
  }

  lemma CommaFreeMsg4(r: Report)
    requires Writable(r)
    ensures CommaFree(Msg4Fields(r))
  {
    NoCommaInItoa(r.verticalRate);
    NoCommaInFixed(r.speed, Places);
    NoCommaInFixed(r.track, Places);
    var body := ["", "", FormatFixed(r.speed, Places), FormatFixed(r.track, Places), "", "", Itoa(r.verticalRate)];
    assert CommaFree(body);
    assert CommaFree(Header(r, "4"));
    CommaFreeConcat(Header(r, "4"), body);
    CommaFreeConcat(Header(r, "4") + body, Blanks(5));
  }

  /** Every field of a report's lines is free of commas, so splitting gives the fields back. */
  lemma SplitFields(r: Report)
    requires Writable(r)
    ensures Split(Lines(r)[0], ',') == Msg1Fields(r)
    ensures Split(Lines(r)[1], ',') == Msg3Fields(r)
    ensures Split(Lines(r)[2], ',') == Msg4Fields(r)
  {
    CommaFreeMsg1(r);
    CommaFreeMsg3(r);
    CommaFreeMsg4(r);
    SplitJoin(Msg1Fields(r), ',');
    SplitJoin(Msg3Fields(r), ',');
    SplitJoin(Msg4Fields(r), ',');
  }

  /** The identification message's fields that the decoder reads, at the positions it reads them. */
  lemma Msg1Positions(r: Report)
    ensures |Msg1Fields(r)| == 22
    ensures Msg1Fields(r)[4] == r.icao && Msg1Fields(r)[8] == r.date
    ensures Msg1Fields(r)[9] == r.time && Msg1Fields(r)[10] == r.callsign
  {
  }

  /** The position message's fields that the decoder reads. */
  lemma Msg3Positions(r: Report)
    ensures |Msg3Fields(r)| == 22
    ensures Msg3Fields(r)[11] == Itoa(r.altitude)
    ensures Msg3Fields(r)[14] == FormatFixed(r.latitude, Places)
    ensures Msg3Fields(r)[15] == FormatFixed(r.longitude, Places)
  {
  }

  /** The velocity message's fields that the decoder reads. */
  lemma Msg4Positions(r: Report)
    ensures |Msg4Fields(r)| == 22
    ensures Msg4Fields(r)[12] == FormatFixed(r.speed, Places)
    ensures Msg4Fields(r)[13] == FormatFixed(r.track, Places)
    ensures Msg4Fields(r)[16] == Itoa(r.verticalRate)
  {
  }

  /** Decoding the three lines of a report gives the report's record. */
  lemma DecodeLines(r: Report)
    requires Writable(r)
    ensures var m1, m3, m4 := Split(Lines(r)[0], ','), Split(Lines(r)[1], ','), Split(Lines(r)[2], ',');
      && |m1| == 22 && |m3| == 22 && |m4| == 22
      && Convert.SbsToAircraftCurrent(m1, m3, m4) == Success(Record(r))
  {
    SplitFields(r);
    Msg1Positions(r);
    Msg3Positions(r);
    Msg4Positions(r);
    AtoiItoa(r.altitude);
    AtoiItoa(r.verticalRate);
    ParseFloatFixed(r.latitude, Places);
    ParseFloatFixed(r.longitude, Places);
    ParseFloatFixed(r.speed, Places);
    ParseFloatFixed(r.track, Places);
  }
}
