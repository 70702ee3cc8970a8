/**
 * The records the core works on. Only the fields the core reads are kept:
 * position, ground speed and track of an aircraft, and the metadata of a feed
 * response, are never consulted by search or filtering.
 */
module Types {
  import opened Wrappers

  /** One aircraft of a feed snapshot; `hex` identifies it, `flight` (the call sign) may be absent. */
  datatype Aircraft = Aircraft(hex: string, flight: Option<string>, altBaro: int)

  /** A feed snapshot: the aircraft in upstream order. */
  datatype AircraftApiResponse = AircraftApiResponse(aircraft: seq<Aircraft>)

  /**
   * A radio transcript line as the transcript utilities use it: a "M.SS"
   * timestamp label, the speaker and the text.
   */
  datatype TranscriptMessage = TranscriptMessage(timestamp: string, speaker: string, text: string)

  /** The `{ isValid, error? }` object both validators return. */
  datatype Validation = Validation(isValid: bool, error: Option<string>)
}
