/** RN of the older revision. An RN object holds its authority (an object
    compared by identity), instance, type and time stamp, and caches its
    value and encoded form once computed. parseDecimalForm slices the
    "%024d" text of a value at fixed offsets after checking only its
    length; compareTo orders RNs by their decoded text, equals compares the
    authority objects themselves.

    The Instance, Type and TimeStamp classes this RN uses are not part of
    this model (their files are absent from the revision); the current
    revision's are used in their place, as is its string constructor of
    Authority, which this revision's Authority lacks. */
module ComRN {
  import opened Positional
  import opened Errors
  import opened DecimalText
  import opened CivilTime
  import opened PackedLayout
  import opened UkFields
  import ComAuthority
  import CodecForm
  import ComCodec
  import UkRN

  /** What parseDecimalForm assigns: the identifier the new Authority object
      is made from, the instance, the type and the time stamp. */
  datatype Elements = Elements(authorityId: int, instance: Instance, rnType: Type,
                               timestamp: TimeStamp)

  /** 10^23: "%024d" of a negative value keeps 24 characters below this
      magnitude. */
  const NEGATIVE_LIMIT: nat := 100_000_000_000_000_000_000_000

  lemma {:induction false} NegativeLimitIsPower()
    ensures NEGATIVE_LIMIT == Pow(10, DECIMAL_LENGTH - 1) && UkRN.DECIMAL_LIMIT == Pow(10, DECIMAL_LENGTH)
  {
    UkRN.DecimalLimitIsPower();
  }

  /** parseDecimalForm: "%024d" must give 24 characters; then the type,
      instance and authority slices through their string constructors, every
      slice through Integer.parseInt, the date-time through
      ZonedDateTime.of in UTC (wrapped in an RNException when it is not a
      real one), and the year check of TimeStamp. */
  function ParseDecimalForm(decimal: int): (r: Result<Elements>)
    ensures r == Err(BadDecimalLength) <==> |Format(decimal, DECIMAL_LENGTH)| != DECIMAL_LENGTH
    ensures r.Ok? ==>
      IsValidAuthorityId(r.value.authorityId) && IsValidInstanceId(r.value.instance.id) &&
      IsValidTypeId(r.value.rnType.id) &&
      r.value.timestamp.instant == AtUtc(r.value.timestamp.instant.utc) &&
      IsValid(r.value.timestamp.instant.utc) && IsValidInstant(r.value.timestamp.instant)
  {
    var s := Format(decimal, DECIMAL_LENGTH);
    if |s| != DECIMAL_LENGTH then Err(BadDecimalLength)
    else
      match TypeFromString(s[8..10])
      case Err(e) => Err(e)
      case Ok(rnType) =>
        match InstanceFromString(s[7..8])
        case Err(e) => Err(e)
        case Ok(instance) =>
          match AuthorityFromString(s[3..7])
          case Err(e) => Err(e)
          case Ok(authority) =>
            match SliceFields(s)
            case None => Err(NumberFormat)
            case Some(f) =>
              match OfUtc(DateOf(f))
              case Err(_) => Err(BadDecimalDate)
              case Ok(zdt) =>
                match NewTimeStamp(zdt)
                case Err(e) => Err(e)
                case Ok(timestamp) => Ok(Elements(authority.id, instance, rnType, timestamp))
  }

  /** The current revision's result in this revision's terms: an illegal
      date-time is wrapped in an RNException here. */
  function FromCurrent(r: Result<UkRN.Elements>): Result<Elements>
  {
    match r
    case Ok(el) => Ok(Elements(el.authority.id, el.instance, el.rnType, el.timestamp))
    case Err(e) => if e == IllegalDate then Err(BadDecimalDate) else Err(e)
  }

  // ------------------------------------------------------------- properties of parseDecimalForm

  /** The length check refuses the values from 10^24 up and the negative
      values from -10^23 down; the negative values above -10^23 pass it. */
  lemma {:induction false} ParseDecimalFormLength(v: int)
    ensures ParseDecimalForm(v) == Err(BadDecimalLength) <==> !(-(NEGATIVE_LIMIT as int) < v < UkRN.DECIMAL_LIMIT)
  {
    FormatLength(v);
  }

  /** "%024d" has 24 characters exactly from -10^23 + 1 to 10^24 - 1. */
  lemma {:induction false} FormatLength(v: int)
    ensures |Format(v, DECIMAL_LENGTH)| == DECIMAL_LENGTH <==> -(NEGATIVE_LIMIT as int) < v < UkRN.DECIMAL_LIMIT
  {
    NegativeLimitIsPower();
    if v >= UkRN.DECIMAL_LIMIT {
      UkRN.PadLong(v, DECIMAL_LENGTH);
    } else if v >= 0 {
      PadWidth(v, DECIMAL_LENGTH);
    } else if -v >= NEGATIVE_LIMIT {
      UkRN.PadLong(-v, DECIMAL_LENGTH - 1);
    } else {
      PadWidth(-v, DECIMAL_LENGTH - 1);
    }
  }

  /** On non-negative values the parser agrees with the current revision's,
      the regular expression of which adds nothing once the text has 24
      characters. */
  lemma {:induction false} AgreesWithCurrent(v: int)
    requires v >= 0
    ensures ParseDecimalForm(v) == FromCurrent(UkRN.ParseDecimalForm(v))
  {
    assert Format(v, DECIMAL_LENGTH) == Pad(v, DECIMAL_LENGTH);
  }

  /** The value of fields that fit the layout is parsed field by field, as
      the current revision parses it. */
  lemma {:induction false} ParseDecimalFormInRange(f: Fields)
    requires InRange(f)
    ensures ParseDecimalForm(Packed(f)) == FromCurrent(UkRN.ParsedFields(f))
  {
    PackedNonNegative(f);
    AgreesWithCurrent(Packed(f));
    UkRN.ParseDecimalFormPacked(f);
  }

  /** The layout of valid fields is parsed back to exactly those fields. */
  lemma {:induction false} ParseDecimalFormPacked(f: Fields)
    requires InRange(f) && IsValidAuthorityId(f.authority) && IsValid(DateOf(f))
    requires MIN_INSTANT_YEAR <= f.year <= MAX_INSTANT_YEAR
    ensures ParseDecimalForm(Packed(f)) ==
      Ok(Elements(f.authority, Instance(f.instance), Type(f.rnType), TimeStamp(AtUtc(DateOf(f)))))
  {
    DecimalFormIsPad(f);
    AgreesWithCurrent(Packed(f));
    UkRN.ParseDecimalFormPacked(f);
    ValidFieldsParsed(f);
  }

  lemma {:induction false} ValidFieldsParsed(f: Fields)
    requires IsValidAuthorityId(f.authority) && IsValid(DateOf(f))
    requires MIN_INSTANT_YEAR <= f.year <= MAX_INSTANT_YEAR
    ensures FromCurrent(UkRN.ParsedFields(f)) ==
      Ok(Elements(f.authority, Instance(f.instance), Type(f.rnType), TimeStamp(AtUtc(DateOf(f)))))
  {
  }

  /** The encoded form of the value of valid fields decodes to that value
      and parses back to the fields. */
  lemma {:induction false} EncodedFormParsesBack(f: Fields)
    requires InRange(f) && IsValidAuthorityId(f.authority) && IsValid(DateOf(f))
    requires MIN_INSTANT_YEAR <= f.year <= MAX_INSTANT_YEAR
    ensures Packed(f) >= 0 && CodecForm.Decoded(ComCodec.Encoded(Packed(f))) == Ok(Packed(f))
    ensures ParseDecimalForm(CodecForm.Decoded(ComCodec.Encoded(Packed(f))).value) ==
      Ok(Elements(f.authority, Instance(f.instance), Type(f.rnType), TimeStamp(AtUtc(DateOf(f)))))
  {
    PackedNonNegative(f);
    ComCodec.DecodeEncode(Packed(f));
    ParseDecimalFormPacked(f);
  }

  lemma {:induction false} PackedNonNegative(f: Fields)
    requires InRange(f)
    ensures Packed(f) >= 0
  {
  }

  /** A negative value above -10^21 reads as the same fields as its
      magnitude: "%024d" writes it as '-' and two zeros where the magnitude
      has three zeros, and Integer.parseInt reads "-00" as 0. */
  lemma {:induction false} NegativeReadsAsMagnitude(x: int)
    requires 0 < x < MAGNITUDE_LIMIT
    ensures ParseDecimalForm(-x) == ParseDecimalForm(x)
  {
    NegativeTexts(x);
    TextsParseAlike(-x, x);
  }

  /** "%024d" of -x is "-00" and of x is "000", both followed by "%021d" of x. */
  lemma {:induction false} NegativeTexts(x: int)
    requires 0 < x < MAGNITUDE_LIMIT
    ensures |Format(-x, DECIMAL_LENGTH)| == DECIMAL_LENGTH == |Format(x, DECIMAL_LENGTH)|
    ensures Format(-x, DECIMAL_LENGTH)[3..] == Format(x, DECIMAL_LENGTH)[3..]
    ensures JavaParseInt(Format(-x, DECIMAL_LENGTH)[0..3]) == JavaParseInt(Format(x, DECIMAL_LENGTH)[0..3])
  {
    var q := Pad(x, 21);
    MagnitudeLimitIsPower();
    PadWidth(x, 21);
    ZerosInFront(x, q);
    var neg, pos := Format(-x, DECIMAL_LENGTH), Format(x, DECIMAL_LENGTH);
    assert neg == "-" + ("00" + q) && pos == "000" + q;
    MillisOfZeros(neg, pos, q);
  }

  /** Texts "-00" and "000", each followed by the same 21 characters, agree
      from the fourth character on, and their first three both read as 0. */
  lemma {:induction false} MillisOfZeros(neg: string, pos: string, q: string)
    requires |q| == 21 && neg == "-" + ("00" + q) && pos == "000" + q
    ensures |neg| == DECIMAL_LENGTH == |pos| && neg[3..] == pos[3..]
    ensures JavaParseInt(neg[0..3]) == Some(0) == JavaParseInt(pos[0..3])
  {
    assert neg[3..] == q == pos[3..];
    assert neg[0..3] == "-00" && "-00"[1..] == "00" && pos[0..3] == "000";
    ZerosValue();
  }

  /** Values whose "%024d" texts agree from the fourth character on, and
      whose first three characters read as the same number, parse alike. */
  lemma {:induction false} TextsParseAlike(v: int, w: int)
    requires |Format(v, DECIMAL_LENGTH)| == DECIMAL_LENGTH == |Format(w, DECIMAL_LENGTH)|
    requires Format(v, DECIMAL_LENGTH)[3..] == Format(w, DECIMAL_LENGTH)[3..]
    requires JavaParseInt(Format(v, DECIMAL_LENGTH)[0..3]) == JavaParseInt(Format(w, DECIMAL_LENGTH)[0..3])
    ensures ParseDecimalForm(v) == ParseDecimalForm(w)
  {
    SameTail(Format(v, DECIMAL_LENGTH), Format(w, DECIMAL_LENGTH));
  }

  /** "%023d" and "%024d" of a value below 10^21 are its "%021d" after two
      and three zeros. */
  lemma {:induction false} ZerosInFront(x: int, q: string)
    requires 0 < x < MAGNITUDE_LIMIT && q == Pad(x, 21)
    ensures Pad(x, 23) == "00" + q && Pad(x, 24) == "000" + q
  {
    MagnitudeLimitIsPower();
    ZerosValue();
    PadAfterZeros(x, 21, "00");
    PadAfterZeros(x, 21, "000");
  }

  /** 10^21, below which the milliseconds slice of a value is "000". */
  const MAGNITUDE_LIMIT: nat := 1_000_000_000_000_000_000_000

  lemma {:induction false} MagnitudeLimitIsPower()
    ensures MAGNITUDE_LIMIT == Pow(10, 21)
  {
    NegativeLimitIsPower();
    assert Pow(10, 23) == 10 * (10 * Pow(10, 21));
  }

  /** Two 24-character texts that agree from the fourth character on and
      whose first three read as the same number parse alike. */
  lemma {:induction false} SameTail(neg: string, pos: string)
    requires |neg| == DECIMAL_LENGTH == |pos| && neg[3..] == pos[3..]
    requires JavaParseInt(neg[0..3]) == JavaParseInt(pos[0..3])
    ensures SliceFields(neg) == SliceFields(pos)
    ensures neg[3..7] == pos[3..7] && neg[7..8] == pos[7..8] && neg[8..10] == pos[8..10]
  {
    forall j | 3 <= j < DECIMAL_LENGTH
      ensures neg[j] == pos[j]
    {
      assert neg[j] == neg[3..][j - 3] && pos[j] == pos[3..][j - 3];
    }
    forall b, e | 3 <= b <= e <= DECIMAL_LENGTH
      ensures neg[b..e] == pos[b..e]
    {
      assert forall m :: 0 <= m < e - b ==> neg[b..e][m] == neg[b + m] && pos[b..e][m] == pos[b + m];
    }
  }

  // ------------------------------------------------------------- the decoded text and compareTo

  /** "%04d:%01d:%02d:" of the identifiers: getDecodedDecimalForm up to the
      rendering of the instant. */
  function DecodedPrefix(authorityId: int, instanceId: int, typeId: int): string
  {
    Format(authorityId, 4) + ":" + Format(instanceId, 1) + ":" + Format(typeId, 2) + ":"
  }

  /** Identifiers in order: authority first, then instance, then type. */
  predicate IdsBefore(a: int, i: int, t: int, a': int, i': int, t': int)
  {
    a < a' || (a == a' && (i < i' || (i == i' && t < t')))
  }

  /** Because the prefix has a fixed width, comparing decoded texts as
      strings orders RNs with different identifiers by authority, then
      instance, then type; only RNs with the same identifiers are ordered by
      the text of their instants. */
  lemma {:induction false} PrefixOrder(a: int, i: int, t: int, a': int, i': int, t': int,
                                       s: string, s': string)
    requires IsValidAuthorityId(a) && IsValidInstanceId(i) && IsValidTypeId(t)
    requires IsValidAuthorityId(a') && IsValidInstanceId(i') && IsValidTypeId(t')
    ensures (a, i, t) != (a', i', t') ==>
      (CompareStrings(DecodedPrefix(a, i, t) + s, DecodedPrefix(a', i', t') + s') != 0 &&
       (CompareStrings(DecodedPrefix(a, i, t) + s, DecodedPrefix(a', i', t') + s') < 0 <==>
        IdsBefore(a, i, t, a', i', t')))
    ensures (a, i, t) == (a', i', t') ==>
      CompareStrings(DecodedPrefix(a, i, t) + s, DecodedPrefix(a', i', t') + s') == CompareStrings(s, s')
  {
    var r, r' := Pad(t, 2) + (":" + s), Pad(t', 2) + (":" + s');
    var q, q' := Pad(i, 1) + (":" + r), Pad(i', 1) + (":" + r');
    PrefixShape(a, i, t, s);
    PrefixShape(a', i', t', s');
    SmallPowers();
    FieldThenColon(a, a', 4, q, q');
    FieldThenColon(i, i', 1, r, r');
    FieldThenColon(t, t', 2, s, s');
  }

  /** The decoded prefix followed by a text, as nested concatenations. */
  lemma {:induction false} PrefixShape(a: nat, i: nat, t: nat, s: string)
    ensures DecodedPrefix(a, i, t) + s ==
      Pad(a, 4) + (":" + (Pad(i, 1) + (":" + (Pad(t, 2) + (":" + s)))))
  {
    assert Format(a, 4) == Pad(a, 4) && Format(i, 1) == Pad(i, 1) && Format(t, 2) == Pad(t, 2);
    Reassociate(Pad(a, 4), Pad(i, 1), Pad(t, 2), s);
  }

  lemma {:induction false} Reassociate(p: string, q: string, r: string, s: string)
    ensures p + ":" + q + ":" + r + ":" + s == p + (":" + (q + (":" + (r + (":" + s)))))
  {
  }

  lemma {:induction false} SmallPowers()
    ensures Pow(10, 1) == 10 && Pow(10, 2) == 100 && Pow(10, 4) == 10000
  {
    assert Pow(10, 2) == 10 * Pow(10, 1);
    assert Pow(10, 4) == 10 * (10 * Pow(10, 2));
  }

  /** A field and the colon after it: the field decides the comparison when
      it differs, and leaves it to the rest when it does not. */
  lemma {:induction false} FieldThenColon(x: nat, y: nat, w: nat, r: string, r': string)
    requires 1 <= w && x < Pow(10, w) && y < Pow(10, w)
    ensures x != y ==>
      (CompareStrings(Pad(x, w) + (":" + r), Pad(y, w) + (":" + r')) != 0 &&
       (CompareStrings(Pad(x, w) + (":" + r), Pad(y, w) + (":" + r')) < 0 <==> x < y))
    ensures x == y ==>
      CompareStrings(Pad(x, w) + (":" + r), Pad(y, w) + (":" + r')) == CompareStrings(r, r')
  {
    FieldDecides(x, y, w, ":" + r, ":" + r');
    if x == y {
      CompareCommonStart(":", r, r');
    }
  }

  /** A field written with "%0wd" decides the comparison when it differs
      and drops out of it when it does not. */
  lemma {:induction false} FieldDecides(x: nat, y: nat, w: nat, r: string, r': string)
    requires 1 <= w && x < Pow(10, w) && y < Pow(10, w)
    ensures x != y ==>
      (CompareStrings(Pad(x, w) + r, Pad(y, w) + r') != 0 &&
       (CompareStrings(Pad(x, w) + r, Pad(y, w) + r') < 0 <==> x < y))
    ensures x == y ==> CompareStrings(Pad(x, w) + r, Pad(y, w) + r') == CompareStrings(r, r')
  {
    PadWidth(x, w);
    PadWidth(y, w);
    if x == y {
      CompareCommonStart(Pad(x, w), r, r');
    } else {
      CompareDifferentStarts(Pad(x, w), Pad(y, w), r, r');
      CompareDigitStrings(Pad(x, w), Pad(y, w));
    }
  }

  // ------------------------------------------------------------- the RN object

  class RN {
    const authority: ComAuthority.Authority
    const instance: Instance
    const rnType: Type
    const timestamp: TimeStamp
    /** rn_str: the encoded form, once computed. */
    var rnStr: Option<string>
    /** rn_int: the value, once known. */
    var rnInt: Option<int>

    constructor(authority: ComAuthority.Authority, instance: Instance, rnType: Type,
                timestamp: TimeStamp, rnInt: Option<int>)
      ensures this.authority == authority && this.instance == instance &&
              this.rnType == rnType && this.timestamp == timestamp
      ensures rnStr == None && this.rnInt == rnInt
    {
      this.authority := authority;
      this.instance := instance;
      this.rnType := rnType;
      this.timestamp := timestamp;
      rnStr := None;
      this.rnInt := rnInt;
    }

    /** The fields getDecimalForm writes: the identifiers and the fields of
        the time stamp's date-time in its own zone. */
    function DecimalFields(): Fields
    {
      FieldsOf(authority.id, instance.id, rnType.id, timestamp.instant.local)
    }

    /** The number getDecimalForm denotes. */
    function Value(): int
    {
      Packed(DecimalFields())
    }

    /** The objects are valid, the time stamp is a real UTC date-time in the
        permitted years, and a cached encoded form is that of the value,
        which is cached beside it. */
    ghost predicate Valid()
      reads this
    {
      WellFormed() && CacheHolds(rnStr, rnInt, Value())
    }

    /** What the objects themselves guarantee. */
    predicate WellFormed()
    {
      ComAuthority.IsValidIdentifier(authority.id) && IsValidInstanceId(instance.id) &&
      IsValidTypeId(rnType.id) &&
      timestamp.instant == AtUtc(timestamp.instant.utc) && IsValid(timestamp.instant.utc) &&
      IsValidInstant(timestamp.instant)
    }

    /** getDecimalForm */
    function DecimalFormText(): string
    {
      DecimalForm(DecimalFields())
    }

    /** getEncodedForm: on the first call, the value read back from the
        decimal form and its encoding, both kept; later calls return what
        was kept. */
    method GetEncodedForm() returns (s: string)
      requires Valid()
      modifies this
      ensures Valid()
      ensures s == ComCodec.Encoded(Value())
      ensures rnStr == Some(s) && rnInt == Some(Value())
    {
      if rnStr.None? {
        WellFormedInRange(this);
        DecimalFormParses(DecimalFields());
        var v := ParseSigned(DecimalFormText()).value;
        rnInt := Some(v);
        var e := ComCodec.Encode(v);
        rnStr := Some(e);
        assert WellFormed() && CacheHolds(rnStr, rnInt, Value());
      }
      s := rnStr.value;
    }

    /** getValue: the value already known, or the one getEncodedForm finds. */
    method GetValue() returns (v: int)
      requires Valid()
      modifies this
      ensures Valid()
      ensures old(rnInt).Some? ==> v == old(rnInt).value && rnInt == old(rnInt) && rnStr == old(rnStr)
      ensures old(rnInt).None? ==>
        v == Value() && rnInt == Some(v) && rnStr == Some(ComCodec.Encoded(v))
    {
      if rnInt.None? {
        var _ := GetEncodedForm();
      }
      v := rnInt.value;
    }

    /** getDecodedDecimalForm; instantText stands for the ISO 8601 rendering
        of the instant, which is not modelled. */
    function DecodedDecimalForm(instantText: Zoned -> string): string
    {
      DecodedPrefix(authority.id, instance.id, rnType.id) + instantText(timestamp.instant)
    }

    /** compareTo: String.compareTo of the decoded texts. */
    function CompareTo(other: RN, instantText: Zoned -> string): int
    {
      CompareStrings(DecodedDecimalForm(instantText), other.DecodedDecimalForm(instantText))
    }

    /** equals: the authorities as objects, the rest by their own equals. */
    predicate Equals(other: RN)
    {
      authority == other.authority && InstanceEquals(instance, other.instance) &&
      TypeEquals(rnType, other.rnType) && TimeStampEquals(timestamp, other.timestamp)
    }

    /** equals as evidently intended: the authorities by identifier. */
    predicate EqualsById(other: RN)
    {
      authority.id == other.authority.id && InstanceEquals(instance, other.instance) &&
      TypeEquals(rnType, other.rnType) && TimeStampEquals(timestamp, other.timestamp)
    }
  }

  /** compareTo sorts by authority, then instance, then type, and only RNs
      with the same identifiers by the text of their instants; swapping the
      arguments negates the result, and 0 means equal decoded texts. */
  lemma {:induction false} CompareToByIds(x: RN, y: RN, instantText: Zoned -> string)
    requires x.WellFormed() && y.WellFormed()
    ensures (x.authority.id, x.instance.id, x.rnType.id) != (y.authority.id, y.instance.id, y.rnType.id) ==>
      (x.CompareTo(y, instantText) != 0 &&
       (x.CompareTo(y, instantText) < 0 <==>
        IdsBefore(x.authority.id, x.instance.id, x.rnType.id, y.authority.id, y.instance.id, y.rnType.id)))
    ensures (x.authority.id, x.instance.id, x.rnType.id) == (y.authority.id, y.instance.id, y.rnType.id) ==>
      x.CompareTo(y, instantText) ==
        CompareStrings(instantText(x.timestamp.instant), instantText(y.timestamp.instant))
    ensures y.CompareTo(x, instantText) == -x.CompareTo(y, instantText)
    ensures x.CompareTo(y, instantText) == 0 <==>
      x.DecodedDecimalForm(instantText) == y.DecodedDecimalForm(instantText)
  {
    PrefixOrder(x.authority.id, x.instance.id, x.rnType.id, y.authority.id, y.instance.id, y.rnType.id,
                instantText(x.timestamp.instant), instantText(y.timestamp.instant));
    CompareStringsSwap(x.DecodedDecimalForm(instantText), y.DecodedDecimalForm(instantText));
  }

  /** A kept encoded form is the encoding of the value, which is kept beside it. */
  /** The decimal fields of a well-formed RN are within the layout's widths. */
  lemma {:induction false} WellFormedInRange(rn: RN)
    requires rn.WellFormed()
    ensures InRange(rn.DecimalFields())
  {
    assert IsValid(rn.timestamp.instant.local);
  }

  ghost predicate CacheHolds(rnStr: Option<string>, rnInt: Option<int>, value: int)
  {
    rnStr.Some? ==> rnInt == Some(value) && rnStr.value == ComCodec.Encoded(value)
  }

  /** Comparing by identifier, two valid RNs are equal exactly when they
      have the same value. */
  lemma {:induction false} EqualsByIdMatchesValue(x: RN, y: RN)
    requires x.Valid() && y.Valid()
    ensures x.EqualsById(y) <==> x.Value() == y.Value()
  {
    if x.Value() == y.Value() {
      PackedInjective(x.DecimalFields(), y.DecimalFields());
    }
  }

  /** As written, equals needs the very same Authority object. */
  lemma {:induction false} EqualsNeedsSameAuthority(x: RN, y: RN)
    requires x.authority != y.authority
    ensures !x.Equals(y)
    ensures x.EqualsById(y) <==>
      (x.authority.id == y.authority.id && x.instance == y.instance &&
       x.rnType == y.rnType && x.timestamp == y.timestamp)
  {
  }

  // ------------------------------------------------------------- constructors

  /** new RN(Authority, Instance, Type, ZonedDateTime): the objects as
      given and a new TimeStamp, whose year check is the only failure. */
  method OfElements(authority: ComAuthority.Authority, instance: Instance, rnType: Type,
                    instant: Zoned) returns (r: Result<RN>)
    requires ComAuthority.IsValidIdentifier(authority.id) && IsValidInstanceId(instance.id) &&
             IsValidTypeId(rnType.id) && IsValid(instant.utc)
    ensures r.Ok? <==> NewTimeStamp(instant).Ok?
    ensures r.Err? ==> r.error == NewTimeStamp(instant).error
    ensures r.Ok? ==>
      (fresh(r.value) && r.value.Valid() &&
       r.value.authority == authority && r.value.instance == instance &&
       r.value.rnType == rnType && r.value.timestamp == NewTimeStamp(instant).value &&
       r.value.rnInt == None)
  {
    match NewTimeStamp(instant)
    case Err(e) => r := Err(e);
    case Ok(timestamp) =>
      var rn := new RN(authority, instance, rnType, timestamp, None);
      r := Ok(rn);
  }

  /** new RN(BigInteger): parseDecimalForm, a new Authority object, and the
      value kept as given. */
  method OfValue(i: int) returns (r: Result<RN>)
    ensures r.Ok? <==> ParseDecimalForm(i).Ok?
    ensures r.Err? ==> r.error == ParseDecimalForm(i).error
    ensures r.Ok? ==>
      (fresh(r.value) && fresh(r.value.authority) && r.value.Valid() &&
       Parsed(r.value, ParseDecimalForm(i).value) && r.value.rnInt == Some(i))
  {
    match ParseDecimalForm(i)
    case Err(e) => r := Err(e);
    case Ok(el) =>
      var authority := new ComAuthority.Authority(el.authorityId);
      var rn := new RN(authority, el.instance, el.rnType, el.timestamp, Some(i));
      r := Ok(rn);
  }

  /** new RN(String): decode, keep the value, then parseDecimalForm. */
  method OfEncoded(encodedForm: string) returns (r: Result<RN>)
    ensures CodecForm.Decoded(encodedForm).Err? ==> r == Err(CodecForm.Decoded(encodedForm).error)
    ensures CodecForm.Decoded(encodedForm).Ok? ==>
      var v := CodecForm.Decoded(encodedForm).value;
      (r.Ok? <==> ParseDecimalForm(v).Ok?) &&
      (r.Err? ==> r.error == ParseDecimalForm(v).error) &&
      (r.Ok? ==> fresh(r.value) && fresh(r.value.authority) && r.value.Valid() &&
                 Parsed(r.value, ParseDecimalForm(v).value) && r.value.rnInt == Some(v))
  {
    var decoded := CodecForm.Decode(encodedForm);
    match decoded
    case Err(e) => r := Err(e);
    case Ok(v) => r := OfValue(v);
  }

  /** The object holds what parseDecimalForm found. */
  ghost predicate Parsed(rn: RN, el: Elements)
  {
    rn.authority.id == el.authorityId && rn.instance == el.instance &&
    rn.rnType == el.rnType && rn.timestamp == el.timestamp
  }

  /** Reading an RN back from its encoded form gives an RN with the same
      value that equals() nevertheless calls different, because the copy
      has an Authority object of its own; compared by identifier the two
      are equal. */
  method ReadBack(rn: RN) returns (copy: RN)
    requires rn.Valid()
    modifies rn
    ensures rn.Valid() && copy.Valid() && copy.Value() == rn.Value()
    ensures !rn.Equals(copy) && rn.EqualsById(copy)
  {
    var s := rn.GetEncodedForm();
    var f := rn.DecimalFields();
    EncodedFormParsesBack(f);
    var r := OfEncoded(s);
    copy := r.value;
    EqualsByIdMatchesValue(rn, copy);
  }
}
