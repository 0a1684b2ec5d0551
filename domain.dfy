/** Constants and shared types of the weather-history page (assets/js/main.js:1-19). */
module Domain {
  /** First and last year the page covers (`MIN_YEAR`, `MAX_YEAR`). */
  const MinYear: int := 1881
  const MaxYear: int := 2006
  /** Number of rows of a dense matrix, `MAX_YEAR - MIN_YEAR + 1`. */
  const YearCount: nat := MaxYear - MinYear + 1
  const MonthCount: nat := 12

  /** The two data types: the object-store names and the `/d/<key>.json` paths. */
  datatype DataKey = Temperature | Precipitation

  /** One year of twelve monthly values, and the year-offset by month matrix. */
  type Row = seq<real>
  type Matrix = seq<Row>

  /** Why a load rejects: the DB cursor failed, the fetch or its JSON parse failed,
      or the second normalisation pass met a year that no record created. */
  datatype LoadError = StoreReadFailed | FetchFailed | UndefinedRow

  /** `new Array(n).fill(0)`. */
  function Zeros(n: nat): (z: Row)
    ensures |z| == n && forall i :: 0 <= i < n ==> z[i] == 0.0
  {
    seq(n, _ => 0.0)
  }
}
