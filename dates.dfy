/**
 * The date value a Date header carries. java.time is not part of this model:
 * a ZonedDateTime whose zone is a fixed offset is kept as the instant it
 * denotes and the offset it is read at, and the formatters are parameters
 * (see module Encoding).
 */
module Dates {

  /** An instant on the time line (in some fixed unit) and a zone offset. */
  datatype ZonedDateTime = ZonedDateTime(instant: int, offset: int)

  /**
   * ChronoZonedDateTime.compareTo: the instant first; on equal instants the
   * local date-time, which for a fixed offset orders as the offset does.
   * Only the sign is modelled: Java returns a difference, this returns -1, 0 or 1.
   */
  function Compare(a: ZonedDateTime, b: ZonedDateTime): (r: int)
    ensures r == 0 <==> a == b
    ensures -1 <= r <= 1
  {
    if a.instant < b.instant then -1
    else if a.instant > b.instant then 1
    else if a.offset < b.offset then -1
    else if a.offset > b.offset then 1
    else 0
  }

  /** Compare is a total order: antisymmetric and transitive. */
  lemma CompareIsTotalOrder(a: ZonedDateTime, b: ZonedDateTime, c: ZonedDateTime)
    ensures Compare(a, b) == -Compare(b, a)
    ensures Compare(a, b) <= 0 && Compare(b, c) <= 0 ==> Compare(a, c) <= 0
  {
  }
}
