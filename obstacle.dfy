/** The values the parser produces and the ways decoding a line can go wrong. */
module Obstacles {
  import opened Wrappers

  /** WGS84Coordinates: signed decimal degrees, north and east positive. */
  datatype Coordinates = Coordinates(latitude: real, longitude: real)

  /** One row of the obstacle table, in the order the Obstacle constructor
      takes its arguments. */
  datatype Obstacle = Obstacle(
    number: nat,
    designation: string,
    coordinates: Coordinates,
    height: nat,
    elevation: nat,
    light: string,
    obstacleType: string)

  /** The field whose pattern was looked for. */
  datatype Field = Number | Designation | Position | Height | Elevation | Light

  /** Why a candidate line could not be decoded. NoMatch is the case in which
      parse() calls fail(); the other two are the runtime exceptions that
      String.substring and Float.valueOf throw out of parse(). */
  datatype LineFailure =
    | NoMatch(field: Field)
    | IndexOutOfBounds
    | NumberFormat(text: string)

  /** String.substring(b). */
  function SubstringFrom(s: string, b: nat): (r: Result<string, LineFailure>)
    ensures r.Success? <==> b <= |s|
    ensures r.Success? ==> r.value == s[b..] && |r.value| == |s| - b
    ensures r.Failure? ==> r.error == IndexOutOfBounds
  {
    if b <= |s| then Success(s[b..]) else Failure(IndexOutOfBounds)
  }
}
