/** The value objects of the current revision: Authority, Instance, Type and
    Version wrap a range-checked integer identifier, TimeStamp wraps a
    date-time normalised to UTC whose year is range-checked. Each is
    immutable: its constructor validates once. A constructor that throws is a
    function returning Err. */
module UkFields {
  import opened Errors
  import opened DecimalText
  import opened CivilTime

  const MIN_AUTHORITY_ID: int := 1000
  const MAX_AUTHORITY_ID: int := 9999
  const MIN_INSTANCE_ID: int := 0
  const MAX_INSTANCE_ID: int := 9
  const MIN_TYPE_ID: int := 0
  const MAX_TYPE_ID: int := 99
  const MIN_VERSION_ID: int := 0
  const MAX_VERSION_ID: int := 9
  const MIN_INSTANT_YEAR: int := 2000
  const MAX_INSTANT_YEAR: int := 9999

  // ---------------------------------------------------------------- Authority

  datatype Authority = Authority(id: int)

  predicate IsValidAuthorityId(authorityId: int)
  {
    MIN_AUTHORITY_ID <= authorityId <= MAX_AUTHORITY_ID
  }

  /** new Authority(int) */
  function NewAuthority(authorityId: int): (r: Result<Authority>)
    ensures r.Ok? <==> IsValidAuthorityId(authorityId)
    ensures r.Ok? ==> r.value.id == authorityId
    ensures r.Err? ==> r.error == AuthorityOutOfRange(authorityId)
  {
    if IsValidAuthorityId(authorityId) then Ok(Authority(authorityId))
    else Err(AuthorityOutOfRange(authorityId))
  }

  /** new Authority(String): Integer.parseInt, then the int constructor. */
  function AuthorityFromString(s: string): (r: Result<Authority>)
    ensures JavaParseInt(s).None? ==> r == Err(NumberFormat)
    ensures r.Ok? <==> JavaParseInt(s).Some? && IsValidAuthorityId(JavaParseInt(s).value)
    ensures r.Ok? ==> r.value.id == JavaParseInt(s).value
  {
    match JavaParseInt(s)
    case Some(n) => NewAuthority(n)
    case None => Err(NumberFormat)
  }

  /** Authority.equals: the same identifier. */
  function AuthorityEquals(a: Authority, other: Authority): (r: bool)
    ensures r <==> a == other
  {
    a.id == other.id
  }

  function AuthorityHash(a: Authority): int
  {
    a.id
  }

  /** Two authorities hash alike exactly when they are equal. */
  lemma {:induction false} AuthorityHashMatchesEquals(a: Authority, b: Authority)
    ensures AuthorityHash(a) == AuthorityHash(b) <==> AuthorityEquals(a, b)
  {
  }

  // ---------------------------------------------------------------- Instance

  datatype Instance = Instance(id: int)

  predicate IsValidInstanceId(instanceId: int)
  {
    MIN_INSTANCE_ID <= instanceId <= MAX_INSTANCE_ID
  }

  /** new Instance(int) */
  function NewInstance(instanceId: int): (r: Result<Instance>)
    ensures r.Ok? <==> IsValidInstanceId(instanceId)
    ensures r.Ok? ==> r.value.id == instanceId
    ensures r.Err? ==> r.error == InstanceOutOfRange(instanceId)
  {
    if IsValidInstanceId(instanceId) then Ok(Instance(instanceId))
    else Err(InstanceOutOfRange(instanceId))
  }

  /** new Instance(String) */
  function InstanceFromString(s: string): (r: Result<Instance>)
    ensures JavaParseInt(s).None? ==> r == Err(NumberFormat)
    ensures r.Ok? <==> JavaParseInt(s).Some? && IsValidInstanceId(JavaParseInt(s).value)
    ensures r.Ok? ==> r.value.id == JavaParseInt(s).value
  {
    match JavaParseInt(s)
    case Some(n) => NewInstance(n)
    case None => Err(NumberFormat)
  }

  function InstanceEquals(a: Instance, other: Instance): (r: bool)
    ensures r <==> a == other
  {
    a.id == other.id
  }

  function InstanceHash(a: Instance): int
  {
    a.id
  }

  lemma {:induction false} InstanceHashMatchesEquals(a: Instance, b: Instance)
    ensures InstanceHash(a) == InstanceHash(b) <==> InstanceEquals(a, b)
  {
  }

  // ---------------------------------------------------------------- Type

  datatype Type = Type(id: int)

  predicate IsValidTypeId(typeId: int)
  {
    MIN_TYPE_ID <= typeId <= MAX_TYPE_ID
  }

  /** new Type(int) */
  function NewType(typeId: int): (r: Result<Type>)
    ensures r.Ok? <==> IsValidTypeId(typeId)
    ensures r.Ok? ==> r.value.id == typeId
    ensures r.Err? ==> r.error == TypeOutOfRange(typeId)
  {
    if IsValidTypeId(typeId) then Ok(Type(typeId)) else Err(TypeOutOfRange(typeId))
  }

  /** new Type(String) */
  function TypeFromString(s: string): (r: Result<Type>)
    ensures JavaParseInt(s).None? ==> r == Err(NumberFormat)
    ensures r.Ok? <==> JavaParseInt(s).Some? && IsValidTypeId(JavaParseInt(s).value)
    ensures r.Ok? ==> r.value.id == JavaParseInt(s).value
  {
    match JavaParseInt(s)
    case Some(n) => NewType(n)
    case None => Err(NumberFormat)
  }

  function TypeEquals(a: Type, other: Type): (r: bool)
    ensures r <==> a == other
  {
    a.id == other.id
  }

  function TypeHash(a: Type): int
  {
    a.id
  }

  lemma {:induction false} TypeHashMatchesEquals(a: Type, b: Type)
    ensures TypeHash(a) == TypeHash(b) <==> TypeEquals(a, b)
  {
  }

  // ---------------------------------------------------------------- Version

  datatype Version = Version(id: int)

  predicate IsValidVersionId(versionId: int)
  {
    MIN_VERSION_ID <= versionId <= MAX_VERSION_ID
  }

  /** new Version(int) */
  function NewVersion(versionId: int): (r: Result<Version>)
    ensures r.Ok? <==> IsValidVersionId(versionId)
    ensures r.Ok? ==> r.value.id == versionId
    ensures r.Err? ==> r.error == VersionOutOfRange(versionId)
  {
    if IsValidVersionId(versionId) then Ok(Version(versionId))
    else Err(VersionOutOfRange(versionId))
  }

  /** new Version(String) */
  function VersionFromString(s: string): (r: Result<Version>)
    ensures JavaParseInt(s).None? ==> r == Err(NumberFormat)
    ensures r.Ok? <==> JavaParseInt(s).Some? && IsValidVersionId(JavaParseInt(s).value)
    ensures r.Ok? ==> r.value.id == JavaParseInt(s).value
  {
    match JavaParseInt(s)
    case Some(n) => NewVersion(n)
    case None => Err(NumberFormat)
  }

  /** The string constructors accept the decimal rendering of every valid
      identifier and give back that identifier. */
  lemma {:induction false} StringConstructorsRoundTrip(n: int)
    ensures IsValidAuthorityId(n) ==> AuthorityFromString(Format(n, 1)) == Ok(Authority(n))
    ensures IsValidInstanceId(n) ==> InstanceFromString(Format(n, 1)) == Ok(Instance(n))
    ensures IsValidTypeId(n) ==> TypeFromString(Format(n, 1)) == Ok(Type(n))
    ensures IsValidVersionId(n) ==> VersionFromString(Format(n, 1)) == Ok(Version(n))
  {
    if 0 <= n <= MAX_AUTHORITY_ID {
      ParseIntPad(n, 1);
    }
  }

  /** Authority examples the unit tests rely on. */
  lemma {:induction false} AuthorityExamples()
    ensures NewAuthority(1000).Ok? && NewAuthority(100) == Err(AuthorityOutOfRange(100))
    ensures AuthorityFromString("1000").Ok? && AuthorityFromString("100").Err?
  {
    ParseIntShort("1000");
    ParseIntShort("100");
  }

  lemma {:induction false} AuthorityFromStringExample()
    ensures AuthorityFromString("2222") == Ok(Authority(2222))
  {
    ParseIntShort("2222");
  }

  /** Type examples the unit tests rely on. */
  lemma {:induction false} TypeExamples()
    ensures !IsValidTypeId(-1) && !IsValidTypeId(1000) && NewType(1).Ok? && NewType(1001).Err?
    ensures TypeFromString("4") == Ok(Type(4)) && TypeFromString("2000").Err?
  {
    ParseIntShort("4");
    ParseIntShort("2000");
  }

  /** Version examples the unit tests rely on. */
  lemma {:induction false} VersionExamples()
    ensures NewVersion(1).Ok? && NewVersion(10).Err?
    ensures VersionFromString("4") == Ok(Version(4)) && VersionFromString("20").Err?
  {
    ParseIntShort("4");
    ParseIntShort("20");
  }

  // ---------------------------------------------------------------- TimeStamp

  /** A TimeStamp holds its instant in the UTC zone. */
  datatype TimeStamp = TimeStamp(instant: Zoned)

  /** TimeStamp.isValidInstant: the year of the date-time in its own zone. */
  predicate IsValidInstant(instant: Zoned)
  {
    MIN_INSTANT_YEAR <= instant.local.year <= MAX_INSTANT_YEAR
  }

  /** new TimeStamp(ZonedDateTime): normalise to UTC, then check the year. */
  function NewTimeStamp(instant: Zoned): (r: Result<TimeStamp>)
    ensures r.Ok? <==> MIN_INSTANT_YEAR <= instant.utc.year <= MAX_INSTANT_YEAR
    ensures r.Ok? ==> r.value.instant == AtUtc(instant.utc)
    ensures r.Err? ==> r.error == YearOutOfRange(instant.utc.year)
  {
    var utc := WithZoneUtc(instant);
    if IsValidInstant(utc) then Ok(TimeStamp(utc)) else Err(YearOutOfRange(utc.local.year))
  }

  /** TimeStamp.equals: equal underlying date-times. */
  function TimeStampEquals(a: TimeStamp, other: TimeStamp): bool
  {
    a.instant == other.instant
  }

  /** Time stamps made from any two zoned date-times are equal exactly when
      the two name the same instant, whatever their zones. */
  lemma {:induction false} TimeStampEqualsSameInstant(x: Zoned, y: Zoned)
    requires NewTimeStamp(x).Ok? && NewTimeStamp(y).Ok?
    ensures TimeStampEquals(NewTimeStamp(x).value, NewTimeStamp(y).value) <==> x.utc == y.utc
  {
  }

  /** For a UTC date-time getInstant returns the argument itself. */
  lemma {:induction false} TimeStampOfUtc(d: DateTime)
    requires MIN_INSTANT_YEAR <= d.year <= MAX_INSTANT_YEAR
    ensures NewTimeStamp(AtUtc(d)) == Ok(TimeStamp(AtUtc(d)))
  {
  }

  /** The year bounds are inclusive, and a day that does not exist never
      reaches the constructor. */
  lemma {:induction false} TimeStampExamples()
    ensures NewTimeStamp(AtUtc(DateTime(1999, 1, 1, 0, 0, 0, 0))) == Err(YearOutOfRange(1999))
    ensures !IsValidInstant(AtUtc(DateTime(10000, 1, 1, 0, 0, 0, 0)))
    ensures NewTimeStamp(AtUtc(DateTime(2018, 1, 1, 0, 0, 0, 0))).Ok?
    ensures OfUtc(DateTime(2018, 2, 29, 0, 0, 0, 0)) == Err(IllegalDate)
  {
  }
}
