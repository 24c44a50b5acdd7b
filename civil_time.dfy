/** Civil date-times in the proleptic Gregorian calendar, at millisecond
    precision, and a zoned date-time as the pair of its local fields and the
    same instant's fields in UTC. The offset arithmetic that relates the two
    views belongs to the date-time library and is not modelled. */
module CivilTime {
  import opened Errors

  /** The year range of the date-time library. */
  const MIN_YEAR: int := -999999999
  const MAX_YEAR: int := 999999999

  datatype DateTime = DateTime(year: int, month: int, day: int,
                               hour: int, minute: int, second: int, milli: int)

  predicate IsLeapYear(y: int)
  {
    y % 4 == 0 && (y % 100 != 0 || y % 400 == 0)
  }

  function DaysInMonth(y: int, m: int): (n: int)
    requires 1 <= m <= 12
    ensures 28 <= n <= 31
    ensures n == 29 <==> m == 2 && IsLeapYear(y)
    ensures n == 28 <==> m == 2 && !IsLeapYear(y)
    ensures n == 30 <==> m in {4, 6, 9, 11}
  {
    if m == 2 then (if IsLeapYear(y) then 29 else 28)
    else if m == 4 || m == 6 || m == 9 || m == 11 then 30
    else 31
  }

  /** The fields name an instant that exists: the check the date-time
      library makes when it builds a value from fields. */
  predicate IsValid(d: DateTime)
  {
    MIN_YEAR <= d.year <= MAX_YEAR &&
    1 <= d.month <= 12 &&
    1 <= d.day <= DaysInMonth(d.year, d.month) &&
    0 <= d.hour < 24 && 0 <= d.minute < 60 && 0 <= d.second < 60 &&
    0 <= d.milli < 1000
  }

  /** Chronological order of UTC fields: lexicographic, most significant
      field first. */
  predicate Before(a: DateTime, b: DateTime)
  {
    if a.year != b.year then a.year < b.year
    else if a.month != b.month then a.month < b.month
    else if a.day != b.day then a.day < b.day
    else if a.hour != b.hour then a.hour < b.hour
    else if a.minute != b.minute then a.minute < b.minute
    else if a.second != b.second then a.second < b.second
    else a.milli < b.milli
  }

  lemma {:induction false} BeforeIsStrictOrder(a: DateTime, b: DateTime, c: DateTime)
    ensures !Before(a, a)
    ensures Before(a, b) ==> !Before(b, a) && a != b
    ensures Before(a, b) && Before(b, c) ==> Before(a, c)
    ensures a != b ==> Before(a, b) || Before(b, a)
  {
  }

  /** A date-time with its zone: the local fields and the fields of the same
      instant in UTC. */
  datatype Zoned = Zoned(local: DateTime, utc: DateTime)

  predicate IsValidZoned(z: Zoned)
  {
    IsValid(z.local) && IsValid(z.utc)
  }

  /** A date-time in the UTC zone, where both views coincide. */
  function AtUtc(d: DateTime): (z: Zoned)
    ensures z.local == z.utc == d
  {
    Zoned(d, d)
  }

  /** The same instant seen in UTC. */
  function WithZoneUtc(z: Zoned): (r: Zoned)
    ensures r.utc == z.utc && r.local == z.utc
  {
    AtUtc(z.utc)
  }

  /** 29 February exists in leap years only. */
  lemma {:induction false} LeapDay()
    ensures !IsValid(DateTime(2018, 2, 29, 0, 0, 0, 0))
    ensures IsValid(DateTime(2020, 2, 29, 0, 0, 0, 0))
    ensures !IsValid(DateTime(1900, 2, 29, 0, 0, 0, 0))
    ensures IsValid(DateTime(2000, 2, 29, 0, 0, 0, 0))
  {
  }

  /** ZonedDateTime.of(fields, ZoneOffset.UTC): fields that name no instant
      are refused with a DateTimeException. */
  function OfUtc(d: DateTime): (r: Result<Zoned>)
    ensures r.Ok? <==> IsValid(d)
    ensures r.Ok? ==> r.value == AtUtc(d) && IsValidZoned(r.value)
    ensures r.Err? ==> r.error == IllegalDate
  {
    if IsValid(d) then Ok(AtUtc(d)) else Err(IllegalDate)
  }
}
