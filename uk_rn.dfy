/** The reference number of the current revision: an authority, an instance,
    a type and a time stamp, and the value they pack into. An RN is
    immutable once built: its three constructors are functions returning the
    RN or the error they throw. */
module UkRN {
  import opened Positional
  import opened Errors
  import opened DecimalText
  import opened CivilTime
  import opened PackedLayout
  import opened UkFields
  import UkRepresentation
  import CheckDigits

  datatype RN = RN(authority: Authority, instance: Instance, rnType: Type,
                   timestamp: TimeStamp, value: int)

  /** What parseDecimalForm assigns. */
  datatype Elements = Elements(authority: Authority, instance: Instance, rnType: Type,
                               timestamp: TimeStamp)

  /** 10^24: the first value whose "%024d" rendering is too long. */
  const DECIMAL_LIMIT: nat := 1_000_000_000_000_000_000_000_000

  lemma {:induction false} DecimalLimitIsPower()
    ensures DECIMAL_LIMIT == Pow(10, DECIMAL_LENGTH)
  {
    CheckDigits.Pow10Value();
  }

  /** The fields an RN claims: its identifiers and its time stamp's UTC fields. */
  function FieldsOfRN(rn: RN): (f: Fields)
    ensures f.authority == rn.authority.id && f.instance == rn.instance.id
    ensures f.rnType == rn.rnType.id && DateOf(f) == rn.timestamp.instant.utc
  {
    FieldsOf(rn.authority.id, rn.instance.id, rn.rnType.id, rn.timestamp.instant.utc)
  }

  /** Every field is a valid object, the time stamp is a real UTC date-time
      in the permitted years, and the value packs exactly these fields. */
  predicate Consistent(rn: RN)
  {
    IsValidAuthorityId(rn.authority.id) && IsValidInstanceId(rn.instance.id) &&
    IsValidTypeId(rn.rnType.id) &&
    rn.timestamp.instant == AtUtc(rn.timestamp.instant.utc) &&
    IsValid(rn.timestamp.instant.utc) && IsValidInstant(rn.timestamp.instant) &&
    rn.value == Packed(FieldsOfRN(rn))
  }

  // ------------------------------------------------------------- packElements

  /** packElements: the decimal layout of the identifiers and of the
      date-time's fields in its own zone, read back with BigInteger(String),
      which refuses a '-' inside the text. */
  function PackElements(authority: Authority, instance: Instance, rnType: Type,
                        zdt: Zoned): (r: Result<int>)
    ensures var f := FieldsOf(authority.id, instance.id, rnType.id, zdt.local);
      (NonNegative(f) ==> r.Ok? && r.value >= 0) &&
      (InRange(f) ==> r == Ok(Packed(f)))
  {
    var f := FieldsOf(authority.id, instance.id, rnType.id, zdt.local);
    DecimalFormParses(f);
    match ParseSigned(DecimalForm(f))
    case Some(v) => Ok(v)
    case None => Err(NumberFormat)
  }

  // ------------------------------------------------------------- constructors

  /** new RN(Authority, Instance, Type, ZonedDateTime): the time stamp first,
      whose year check is the only RNException, then the packed value of the
      fields the caller's date-time has in its own zone. */
  function NewRN(authority: Authority, instance: Instance, rnType: Type,
                 instant: Zoned): (r: Result<RN>)
    ensures !(MIN_INSTANT_YEAR <= instant.utc.year <= MAX_INSTANT_YEAR) ==>
      r == Err(YearOutOfRange(instant.utc.year))
    ensures r.Ok? ==>
      r.value.authority == authority && r.value.instance == instance &&
      r.value.rnType == rnType && r.value.timestamp == TimeStamp(AtUtc(instant.utc)) &&
      PackElements(authority, instance, rnType, instant) == Ok(r.value.value)
  {
    match NewTimeStamp(instant)
    case Err(e) => Err(e)
    case Ok(timestamp) =>
      match PackElements(authority, instance, rnType, instant)
      case Err(e) => Err(e)
      case Ok(value) => Ok(RN(authority, instance, rnType, timestamp, value))
  }

  /** parseDecimalForm: the "%024d" rendering must be 24 digits; the type,
      instance and authority slices go through the string constructors, the
      date-time slices through ZonedDateTime.of in UTC, then TimeStamp. */
  function ParseDecimalForm(decimal: int): (r: Result<Elements>)
    ensures r.Err? ==>
      r.error == BadDecimalLength || r.error.AuthorityOutOfRange? || r.error.TypeOutOfRange? ||
      r.error.InstanceOutOfRange? || r.error == NumberFormat || r.error == IllegalDate ||
      r.error.YearOutOfRange?
  {
    var s := Format(decimal, DECIMAL_LENGTH);
    if |s| != DECIMAL_LENGTH || !AllDigits(s) then Err(BadDecimalLength)
    else
      match TypeFromString(s[8..10])
      case Err(e) => Err(e)
      case Ok(rnType) =>
        match InstanceFromString(s[7..8])
        case Err(e) => Err(e)
        case Ok(instance) =>
          match AuthorityFromString(s[3..7])
          case Err(e) => Err(e)
          case Ok(authority) =>
            match SliceFields(s)
            case None => Err(NumberFormat)
            case Some(f) =>
              match OfUtc(DateOf(f))
              case Err(e) => Err(e)
              case Ok(zdt) =>
                match NewTimeStamp(zdt)
                case Err(e) => Err(e)
                case Ok(timestamp) => Ok(Elements(authority, instance, rnType, timestamp))
  }

  /** new RN(BigInteger): parse, then keep the value. */
  function RNOfValue(value: int): (r: Result<RN>)
    ensures r.Ok? ==> r.value.value == value
    ensures r.Err? ==> ParseDecimalForm(value).Err? && r.error == ParseDecimalForm(value).error
  {
    match ParseDecimalForm(value)
    case Err(e) => Err(e)
    case Ok(el) => Ok(RN(el.authority, el.instance, el.rnType, el.timestamp, value))
  }

  /** new RN(String): the representation decodes the text and builds an RN
      from the value; the constructor takes that RN's value and parses it
      again. */
  function RNOfEncoded(encodedForm: string): (r: Result<RN>)
    ensures UkRepresentation.Decoded(encodedForm, UkRepresentation.DEFAULT_LENGTH).Err? ==>
      r == Err(UkRepresentation.Decoded(encodedForm, UkRepresentation.DEFAULT_LENGTH).error)
    ensures UkRepresentation.Decoded(encodedForm, UkRepresentation.DEFAULT_LENGTH).Ok? ==>
      r == RNOfValue(UkRepresentation.Decoded(encodedForm, UkRepresentation.DEFAULT_LENGTH).value)
  {
    match UkRepresentation.Decoded(encodedForm, UkRepresentation.DEFAULT_LENGTH)
    case Err(e) => Err(e)
    case Ok(nn) =>
      match RNOfValue(nn)
      case Err(e) => Err(e)
      case Ok(inner) => RNOfValue(inner.value)
  }

  /** getEncodedForm, through the RN's representation of the default length. */
  function EncodedFormOf(rn: RN): string
    requires rn.value >= 0
  {
    UkRepresentation.EncodedForm(rn.value, UkRepresentation.DEFAULT_LENGTH)
  }

  // ------------------------------------------------------------- equals, compareTo, hashCode, toString

  /** RN.equals: each field with its own equals. */
  function RNEquals(a: RN, other: RN): (r: bool)
    ensures r <==> a.authority == other.authority && a.instance == other.instance &&
                   a.rnType == other.rnType && a.timestamp == other.timestamp
  {
    AuthorityEquals(a.authority, other.authority) && InstanceEquals(a.instance, other.instance) &&
    TypeEquals(a.rnType, other.rnType) && TimeStampEquals(a.timestamp, other.timestamp)
  }

  /** RN.compareTo: BigInteger.compareTo of the values. */
  function CompareTo(a: RN, other: RN): (r: int)
    ensures r == -1 || r == 0 || r == 1
    ensures r < 0 <==> a.value < other.value
    ensures r == 0 <==> a.value == other.value
  {
    if a.value < other.value then -1 else if a.value == other.value then 0 else 1
  }

  /** Arrays.hashCode of a sequence of element hashes. */
  function ArraysHash(hs: seq<int>): int
  {
    if hs == [] then 1 else Int32(31 * ArraysHash(hs[..|hs| - 1]) + hs[|hs| - 1])
  }

  /** RN.hashCode: Arrays.hashCode of the time stamp, authority, instance and
      type; the date-time library's hash of the instant is a parameter. */
  function RNHash(rn: RN, instantHash: Zoned -> int): int
  {
    ArraysHash([instantHash(rn.timestamp.instant), AuthorityHash(rn.authority),
                InstanceHash(rn.instance), TypeHash(rn.rnType)])
  }

  /** The fixed-width start of toString: "%04d:%01d:%02d:" of the
      identifiers; the ISO rendering of the instant that follows is not
      modelled. */
  function ToStringPrefix(rn: RN): string
  {
    Format(rn.authority.id, 4) + ":" + Format(rn.instance.id, 1) + ":" +
    Format(rn.rnType.id, 2) + ":"
  }

  // ------------------------------------------------------------- properties of parseDecimalForm

  /** What parseDecimalForm makes of in-range fields, decided on the fields:
      the authority check, then the date check, then the year check. */
  function ParsedFields(f: Fields): Result<Elements>
  {
    if !IsValidAuthorityId(f.authority) then Err(AuthorityOutOfRange(f.authority))
    else if !IsValid(DateOf(f)) then Err(IllegalDate)
    else if !(MIN_INSTANT_YEAR <= f.year <= MAX_INSTANT_YEAR) then Err(YearOutOfRange(f.year))
    else Ok(Elements(Authority(f.authority), Instance(f.instance), Type(f.rnType),
                     TimeStamp(AtUtc(DateOf(f)))))
  }

  /** "%0wd" of a value from 10^w up is longer than w. */
  lemma {:induction false} PadLong(v: nat, k: nat)
    requires v >= Pow(10, k)
    ensures |Pad(v, k)| > k
  {
    NumDigitsBound(10, v, k);
  }

  /** The length check refuses exactly the negative values and the values
      from 10^24 up. */
  lemma {:induction false} ParseDecimalFormLength(v: int)
    ensures ParseDecimalForm(v) == Err(BadDecimalLength) <==> !(0 <= v < DECIMAL_LIMIT)
  {
    DecimalLimitIsPower();
    var s := Format(v, DECIMAL_LENGTH);
    if v < 0 {
      assert !IsDigit(s[0]);
    } else if v >= DECIMAL_LIMIT {
      PadLong(v, DECIMAL_LENGTH);
    } else {
      PadWidth(v, DECIMAL_LENGTH);
    }
  }

  /** On a value below 10^24 parseDecimalForm decides on the fields of its
      24 digits, which pack back to the value: the instance and type slices
      always fit, so only the authority, the date and the year can fail. */
  lemma {:induction false} ParseDecimalFormFields(v: int)
    requires 0 <= v < DECIMAL_LIMIT
    ensures |Pad(v, DECIMAL_LENGTH)| == DECIMAL_LENGTH && SliceFields(Pad(v, DECIMAL_LENGTH)).Some?
    ensures var f := SliceFields(Pad(v, DECIMAL_LENGTH)).value;
      InRange(f) && Packed(f) == v && ParseDecimalForm(v) == ParsedFields(f)
  {
    DigitsBelowLimit(v);
    var s := Pad(v, DECIMAL_LENGTH);
    SliceFieldsPads(s);
    var f := SliceFields(s).value;
    ParseIntPad(f.rnType, 2);
    ParseIntPad(f.instance, 1);
    ParseIntPad(f.authority, 4);
    ParseDigitsText(v, s, f);
  }

  /** A value below 10^24 is written with 24 digits, which slice into
      fields that pack back to it. */
  lemma {:induction false} DigitsBelowLimit(v: int)
    requires 0 <= v < DECIMAL_LIMIT
    ensures |Pad(v, DECIMAL_LENGTH)| == DECIMAL_LENGTH && AllDigits(Pad(v, DECIMAL_LENGTH))
    ensures SliceFields(Pad(v, DECIMAL_LENGTH)).Some?
    ensures Packed(SliceFields(Pad(v, DECIMAL_LENGTH)).value) == v
  {
    DecimalLimitIsPower();
    PackedOfDigits(v);
  }

  /** parseDecimalForm on 24 digits whose slices parse to in-range fields. */
  lemma {:induction false} ParseDigitsText(v: int, s: string, f: Fields)
    requires v >= 0 && s == Pad(v, DECIMAL_LENGTH) && |s| == DECIMAL_LENGTH && AllDigits(s)
    requires SliceFields(s) == Some(f) && InRange(f)
    requires JavaParseInt(s[8..10]) == Some(f.rnType) && JavaParseInt(s[7..8]) == Some(f.instance)
    requires JavaParseInt(s[3..7]) == Some(f.authority)
    ensures ParseDecimalForm(v) == ParsedFields(f)
  {
  }

  /** parseDecimalForm of packed in-range fields restores every field the
      checks let through. */
  lemma {:induction false} ParseDecimalFormPacked(f: Fields)
    requires InRange(f)
    ensures ParseDecimalForm(Packed(f)) == ParsedFields(f)
  {
    DecimalFormIsPad(f);
    DecimalLimitIsPower();
    ParseDecimalFormFields(Packed(f));
    PackedInjective(f, SliceFields(Pad(Packed(f), DECIMAL_LENGTH)).value);
  }

  /** The fields of a consistent RN fit the layout. */
  lemma {:induction false} ConsistentInRange(rn: RN)
    requires Consistent(rn)
    ensures InRange(FieldsOfRN(rn))
  {
  }

  /** Every RN built from a value is consistent. */
  lemma {:induction false} RNOfValueConsistent(v: int)
    requires RNOfValue(v).Ok?
    ensures 0 <= v < DECIMAL_LIMIT && Consistent(RNOfValue(v).value)
  {
    ParseDecimalFormLength(v);
    ParseDecimalFormFields(v);
  }

  /** A consistent RN's encoded form is three groups of six symbols, and the
      string constructor reads it back as an equal RN. */
  lemma {:induction false} EncodedRoundTrip(rn: RN)
    requires Consistent(rn)
    ensures rn.value >= 0 && |EncodedFormOf(rn)| == 20
    ensures RNOfEncoded(EncodedFormOf(rn)) == Ok(rn)
  {
    ConsistentValue(rn);
    DefaultRoundTrip(rn.value);
    ParseDecimalFormPacked(FieldsOfRN(rn));
  }

  /** A consistent RN's value is below 10^24. */
  lemma {:induction false} ConsistentValue(rn: RN)
    requires Consistent(rn)
    ensures InRange(FieldsOfRN(rn)) && 0 <= rn.value < DECIMAL_LIMIT
  {
    ConsistentInRange(rn);
    DecimalFormIsPad(FieldsOfRN(rn));
    DecimalLimitIsPower();
  }

  /** The representation round trip for values below 10^24. */
  lemma {:induction false} DefaultRoundTrip(nn: nat)
    requires nn < DECIMAL_LIMIT
    ensures |UkRepresentation.EncodedForm(nn, UkRepresentation.DEFAULT_LENGTH)| == 20
    ensures UkRepresentation.Decoded(UkRepresentation.EncodedForm(nn, UkRepresentation.DEFAULT_LENGTH),
                                     UkRepresentation.DEFAULT_LENGTH) == Ok(nn)
  {
    DecimalLimitIsPower();
    UkRepresentation.DefaultRoundTrip(nn);
  }

  // ------------------------------------------------------------- properties of the element constructor

  /** For valid identifiers and a real date-time the element constructor
      fails only on the UTC year, and its value packs the fields of the
      caller's zone. */
  lemma {:induction false} NewRNFailsOnlyOnYear(authority: Authority, instance: Instance,
                                               rnType: Type, instant: Zoned)
    requires IsValidAuthorityId(authority.id) && IsValidInstanceId(instance.id) &&
             IsValidTypeId(rnType.id)
    requires IsValid(instant.local) && 0 <= instant.local.year
    ensures NewRN(authority, instance, rnType, instant).Ok? <==>
      MIN_INSTANT_YEAR <= instant.utc.year <= MAX_INSTANT_YEAR
    ensures instant.local.year <= MAX_INSTANT_YEAR && NewRN(authority, instance, rnType, instant).Ok? ==>
      NewRN(authority, instance, rnType, instant).value.value ==
        Packed(FieldsOf(authority.id, instance.id, rnType.id, instant.local))
  {
    var f := FieldsOf(authority.id, instance.id, rnType.id, instant.local);
    assert NonNegative(f);
    assert instant.local.year <= MAX_INSTANT_YEAR ==> InRange(f);
  }

  /** For a UTC date-time the element constructor builds a consistent RN. */
  lemma {:induction false} NewRNConsistent(authority: Authority, instance: Instance,
                                          rnType: Type, d: DateTime)
    requires IsValidAuthorityId(authority.id) && IsValidInstanceId(instance.id) &&
             IsValidTypeId(rnType.id)
    requires IsValid(d) && MIN_INSTANT_YEAR <= d.year <= MAX_INSTANT_YEAR
    ensures NewRN(authority, instance, rnType, AtUtc(d)).Ok?
    ensures Consistent(NewRN(authority, instance, rnType, AtUtc(d)).value)
  {
    var f := FieldsOf(authority.id, instance.id, rnType.id, d);
    assert InRange(f);
  }

  // ------------------------------------------------------------- equals and compareTo

  /** On consistent RNs compareTo is 0 exactly when equals holds, and equal
      RNs hash alike whatever the instant's hash. */
  lemma {:induction false} EqualsMatchesCompareTo(a: RN, b: RN, instantHash: Zoned -> int)
    requires Consistent(a) && Consistent(b)
    ensures RNEquals(a, b) <==> CompareTo(a, b) == 0
    ensures RNEquals(a, b) ==> a.value == b.value && RNHash(a, instantHash) == RNHash(b, instantHash)
  {
    if a.value == b.value {
      ConsistentInRange(a);
      ConsistentInRange(b);
      PackedInjective(FieldsOfRN(a), FieldsOfRN(b));
      assert a.timestamp.instant == b.timestamp.instant;
    }
  }

  // ------------------------------------------------------------- toString

  /** For valid identifiers the prefix is ten characters, aaaa:i:tt:, each
      slice reading back as its identifier. */
  lemma {:induction false} ToStringPrefixFields(rn: RN)
    requires IsValidAuthorityId(rn.authority.id) && IsValidInstanceId(rn.instance.id) &&
             IsValidTypeId(rn.rnType.id)
    ensures var p := ToStringPrefix(rn);
      |p| == 10 && p[4] == ':' && p[6] == ':' && p[9] == ':' &&
      JavaParseInt(p[0..4]) == Some(rn.authority.id) &&
      JavaParseInt(p[5..6]) == Some(rn.instance.id) &&
      JavaParseInt(p[7..9]) == Some(rn.rnType.id)
  {
    PowValues();
    PadWidth(rn.authority.id, 4);
    PadWidth(rn.instance.id, 1);
    PadWidth(rn.rnType.id, 2);
    ParseIntPad(rn.authority.id, 4);
    ParseIntPad(rn.instance.id, 1);
    ParseIntPad(rn.rnType.id, 2);
    PrefixSlices(Format(rn.authority.id, 4), Format(rn.instance.id, 1), Format(rn.rnType.id, 2));
  }

  /** The slices of a colon-separated prefix of widths 4, 1 and 2. */
  lemma {:induction false} PrefixSlices(a: string, i: string, t: string)
    requires |a| == 4 && |i| == 1 && |t| == 2
    ensures var p := a + ":" + i + ":" + t + ":";
      |p| == 10 && p[4] == ':' && p[6] == ':' && p[9] == ':' &&
      p[0..4] == a && p[5..6] == i && p[7..9] == t
  {
    var ai := a + ":" + i;
    var p := ai + ":" + t + ":";
    assert |ai| == 6 && ai[0..4] == a && ai[4] == ':' && ai[5..6] == i;
    assert p[0..6] == ai && p[6] == ':' && p[7..9] == t && p[9] == ':';
    assert p[0..4] == ai[0..4] && p[5..6] == ai[5..6];
  }

  /** The prefix of authority 1234, instance 5 and type 6. */
  lemma {:induction false} ToStringPrefixExample(ts: TimeStamp, value: int)
    ensures ToStringPrefix(RN(Authority(1234), Instance(5), Type(6), ts, value)) == "1234:5:06:"
  {
    PadOfNumeral("1234", 1234);
    PadOfNumeral("5", 5);
    PadOfNumeral("06", 6);
  }

  /** A numeral of up to four digits is the padding of its value. */
  lemma {:induction false} PadOfNumeral(s: string, n: nat)
    requires AllDigits(s) && 1 <= |s| <= 4 && ShortValue(s) == n
    ensures Pad(n, |s|) == s
  {
    DigitStringIsPad(s);
    ShortDecimalValue(s);
  }

  // ------------------------------------------------------------- packing the caller's zone

  /** The element constructor as evidently intended: the value packs the
      fields of the time stamp the RN keeps, the instant in UTC. */
  function NewRNUtc(authority: Authority, instance: Instance, rnType: Type,
                    instant: Zoned): (r: Result<RN>)
    ensures !(MIN_INSTANT_YEAR <= instant.utc.year <= MAX_INSTANT_YEAR) ==>
      r == Err(YearOutOfRange(instant.utc.year))
    ensures r.Ok? ==>
      r.value.authority == authority && r.value.instance == instance &&
      r.value.rnType == rnType && r.value.timestamp == TimeStamp(AtUtc(instant.utc))
  {
    match NewTimeStamp(instant)
    case Err(e) => Err(e)
    case Ok(timestamp) =>
      match PackElements(authority, instance, rnType, timestamp.instant)
      case Err(e) => Err(e)
      case Ok(value) => Ok(RN(authority, instance, rnType, timestamp, value))
  }

  /** The intended constructor builds a consistent RN from every real
      date-time in the permitted years, in whatever zone, so its encoded
      form reads back as an equal RN; it agrees with the source's
      constructor on UTC date-times, which is what the factory passes. */
  lemma {:induction false} NewRNUtcConsistent(authority: Authority, instance: Instance,
                                             rnType: Type, instant: Zoned)
    requires IsValidAuthorityId(authority.id) && IsValidInstanceId(instance.id) &&
             IsValidTypeId(rnType.id)
    requires IsValid(instant.utc) && MIN_INSTANT_YEAR <= instant.utc.year <= MAX_INSTANT_YEAR
    ensures NewRNUtc(authority, instance, rnType, instant).Ok?
    ensures Consistent(NewRNUtc(authority, instance, rnType, instant).value)
    ensures RNOfEncoded(EncodedFormOf(NewRNUtc(authority, instance, rnType, instant).value)) ==
      NewRNUtc(authority, instance, rnType, instant)
    ensures NewRNUtc(authority, instance, rnType, AtUtc(instant.utc)) ==
      NewRN(authority, instance, rnType, AtUtc(instant.utc))
  {
    NewRNConsistent(authority, instance, rnType, instant.utc);
    EncodedRoundTrip(NewRNUtc(authority, instance, rnType, instant).value);
  }

  /** The same instant seen in two zones gives RNs that equals() calls
      equal, whichever zone the caller used. */
  lemma {:induction false} NewRNUtcSameInstant(authority: Authority, instance: Instance,
                                              rnType: Type, x: Zoned, y: Zoned)
    requires x.utc == y.utc
    ensures NewRNUtc(authority, instance, rnType, x) == NewRNUtc(authority, instance, rnType, y)
  {
  }

  /** 2018-04-12T14:45:18.283+01:00, the same instant as 13:45:18.283Z. */
  const SUMMER_LOCAL: DateTime := DateTime(2018, 4, 12, 14, 45, 18, 283)
  const SUMMER_UTC: DateTime := DateTime(2018, 4, 12, 13, 45, 18, 283)

  /** As written, the element constructor packs the caller's local fields:
      an instant given in a zone whose fields differ from UTC gives an RN
      that equals() calls equal to the one made from the UTC view, but that
      compareTo orders apart, and whose encoded form reads back with the
      local fields taken as UTC. */
  lemma {:induction false} LocalFieldsBreakRoundTrip(authority: Authority, instance: Instance,
                                                    rnType: Type, z: Zoned)
    requires IsValidAuthorityId(authority.id) && IsValidInstanceId(instance.id) &&
             IsValidTypeId(rnType.id)
    requires IsValidZoned(z) && z.local != z.utc
    requires MIN_INSTANT_YEAR <= z.local.year <= MAX_INSTANT_YEAR
    requires MIN_INSTANT_YEAR <= z.utc.year <= MAX_INSTANT_YEAR
    ensures var a, b := NewRN(authority, instance, rnType, z),
                        NewRN(authority, instance, rnType, AtUtc(z.utc));
      a.Ok? && b.Ok? && RNEquals(a.value, b.value) && CompareTo(a.value, b.value) != 0 &&
      !Consistent(a.value) && a.value.value >= 0 &&
      RNOfEncoded(EncodedFormOf(a.value)) != Ok(a.value)
  {
    var fl := FieldsOf(authority.id, instance.id, rnType.id, z.local);
    var fu := FieldsOf(authority.id, instance.id, rnType.id, z.utc);
    assert InRange(fl) && InRange(fu);
    NewRNFailsOnlyOnYear(authority, instance, rnType, z);
    NewRNConsistent(authority, instance, rnType, z.utc);
    var a := NewRN(authority, instance, rnType, z).value;
    assert DateOf(fl) == z.local && DateOf(fu) == z.utc;
    PackedDiffers(fl, fu);
    ValueReadsAsItsFields(a, fl);
  }

  /** An RN whose value packs some fields is read back from its encoded form,
      if at all, with the date-time of those fields as its UTC time stamp. */
  lemma {:induction false} ValueReadsAsItsFields(rn: RN, f: Fields)
    requires InRange(f) && rn.value == Packed(f)
    ensures rn.value >= 0
    ensures RNOfEncoded(EncodedFormOf(rn)).Ok? ==>
      RNOfEncoded(EncodedFormOf(rn)).value.timestamp.instant.utc == DateOf(f)
  {
    DecimalFormIsPad(f);
    DecimalLimitIsPower();
    EncodedReadsAsValue(rn);
    if RNOfValue(rn.value).Ok? {
      ValueFieldsUnique(rn.value, f);
    }
  }

  /** The string constructor reads an encoded form back as the RN of its value. */
  lemma {:induction false} EncodedReadsAsValue(rn: RN)
    requires 0 <= rn.value < DECIMAL_LIMIT
    ensures RNOfEncoded(EncodedFormOf(rn)) == RNOfValue(rn.value)
  {
    DefaultRoundTrip(rn.value);
  }

  /** The RN built from a packed value carries exactly the packed fields. */
  lemma {:induction false} ValueFieldsUnique(v: int, f: Fields)
    requires InRange(f) && v == Packed(f) && RNOfValue(v).Ok?
    ensures FieldsOfRN(RNOfValue(v).value) == f
  {
    RNOfValueConsistent(v);
    ConsistentInRange(RNOfValue(v).value);
    PackedInjective(FieldsOfRN(RNOfValue(v).value), f);
  }

  /** 2018-04-12T14:45:18.283+01:00 and 13:45:18.283Z, one instant. */
  lemma {:induction false} LocalFieldsPacked()
    ensures var a, b := NewRN(Authority(1000), Instance(1), Type(21), Zoned(SUMMER_LOCAL, SUMMER_UTC)),
                        NewRN(Authority(1000), Instance(1), Type(21), AtUtc(SUMMER_UTC));
      a.Ok? && b.Ok? && RNEquals(a.value, b.value) && CompareTo(a.value, b.value) != 0 &&
      a.value.value >= 0 && RNOfEncoded(EncodedFormOf(a.value)) != Ok(a.value)
  {
    LocalFieldsBreakRoundTrip(Authority(1000), Instance(1), Type(21), Zoned(SUMMER_LOCAL, SUMMER_UTC));
  }
}
