/**
 * The records that flow through the ingestion path. Go's `float32`
 * latitude and longitude are modelled as exact reals.
 */
module Models {

  /** One aircraft snapshot (`AircraftCurrentModel`, also `global.Aircraft`). */
  datatype AircraftCurrent = AircraftCurrent(
    icao: string,
    callsign: string,
    altitude: int,
    latitude: real,
    longitude: real,
    speed: int,
    track: int,
    verticalRate: int,
    timestamp: string)

  /** One position of an aircraft's trail (`AircraftHistoryModel`). */
  datatype AircraftHistory = AircraftHistory(
    icao: string,
    latitude: real,
    longitude: real,
    timestamp: string)
}
