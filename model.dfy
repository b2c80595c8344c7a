/** Shared vocabulary of the gas-station service: the rows of the
    `gas_stations` table, the candidates produced from upstream features,
    and the failures a handler can report. */
module StationModel {

  datatype Option<+T> = None | Some(value: T)

  datatype Result<+R, +E> = Ok(value: R) | Err(error: E)

  /** A latitude or longitude. The service only copies coordinates from a
      request body or an upstream geometry into the table and back out, so
      nothing about them is assumed. */
  type Coord(!new)

  /** The `source` column: `'api'` for imported rows, `'user'` for rows
      created through POST. */
  datatype Source = Api | User

  /** One row of the `gas_stations` table. `address` is `None` when the
      column holds SQL NULL (a POST or PUT body without `address`). */
  datatype Station = Station(
    id: int,
    address: Option<string>,
    latitude: Coord,
    longitude: Coord,
    source: Source)

  /** A row as mapped from one upstream feature, before it has an id. */
  datatype Candidate = Candidate(
    address: string,
    latitude: Coord,
    longitude: Coord,
    source: Source)

  /** What a handler reports as a 500 response. */
  datatype Failure =
    | TypeError      // reading a property of undefined or null while mapping features
    | DatabaseFull   // SQLite refuses a new AUTOINCREMENT id past the largest rowid
    | DatatypeMismatch // an explicit id that is not a 64-bit integer

  /** The largest rowid SQLite can store (2^63 - 1). */
  const MaxRowId: int := 0x7FFF_FFFF_FFFF_FFFF
}
