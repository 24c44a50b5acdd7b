/** Instant of the older revision: a zoned date-time kept as given, in the
    caller's zone, whose year in that zone must be 2000-9999. */
module ComInstant {
  import opened Errors
  import opened CivilTime
  import UkFields

  const MIN_INSTANT_YEAR: int := 2000
  const MAX_INSTANT_YEAR: int := 9999

  datatype Instant = Instant(instant: Zoned)

  /** isValidInstant: the year of the date-time in its own zone. */
  predicate IsValidInstant(instant: Zoned)
  {
    MIN_INSTANT_YEAR <= instant.local.year <= MAX_INSTANT_YEAR
  }

  /** new Instant(ZonedDateTime): the year check, then the date-time kept
      unchanged. */
  function NewInstant(instant: Zoned): (r: Result<Instant>)
    ensures r.Ok? <==> MIN_INSTANT_YEAR <= instant.local.year <= MAX_INSTANT_YEAR
    ensures r.Ok? ==> r.value.instant == instant
    ensures r.Err? ==> r.error == YearOutOfRange(instant.local.year)
  {
    if IsValidInstant(instant) then Ok(Instant(instant))
    else Err(YearOutOfRange(instant.local.year))
  }

  /** Instant.equals: the underlying zoned date-times are equal, zone
      included. */
  function InstantEquals(a: Instant, other: Instant): (r: bool)
    ensures r <==> a.instant.local == other.instant.local && a.instant.utc == other.instant.utc
  {
    a.instant == other.instant
  }

  /** 1999-12-31T23:30-01:00, which is 2000-01-01T00:30Z. */
  const NEW_YEAR_WEST: Zoned :=
    Zoned(DateTime(1999, 12, 31, 23, 30, 0, 0), DateTime(2000, 1, 1, 0, 30, 0, 0))

  /** Unlike the current revision's TimeStamp, which normalises to UTC first,
      Instant checks the year in the caller's zone: the same instant can be
      refused here and accepted there. */
  lemma {:induction false} YearInOwnZone()
    ensures NewInstant(NEW_YEAR_WEST) == Err(YearOutOfRange(1999))
    ensures UkFields.NewTimeStamp(NEW_YEAR_WEST).Ok?
    ensures NewInstant(AtUtc(NEW_YEAR_WEST.utc)).Ok?
  {
  }

  /** Instants of one moment seen in two zones are not equal, while the
      current revision's time stamps of it are. */
  lemma {:induction false} ZoneMatters(x: Zoned, y: Zoned)
    requires NewInstant(x).Ok? && NewInstant(y).Ok?
    requires x.utc == y.utc && x.local != y.local
    requires UkFields.NewTimeStamp(x).Ok?
    ensures !InstantEquals(NewInstant(x).value, NewInstant(y).value)
    ensures UkFields.TimeStampEquals(UkFields.NewTimeStamp(x).value, UkFields.NewTimeStamp(y).value)
  {
  }
}
