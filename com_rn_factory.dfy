/** RNFactory of the older revision: factories for plain int identifiers,
    filed in a registry under a key computed in int arithmetic, each
    formatting the fields of a clock reading as a decimal form and reading
    an RN back from it. The registry is a class standing for the static
    HashMap; the synchronized blocks are sequential here. */
module ComRNFactory {
  import opened Positional
  import opened Errors
  import opened DecimalText
  import opened CivilTime
  import opened PackedLayout
  import opened UkFields
  import opened Clock
  import opened ComRN
  import UkRN

  // ------------------------------------------------------------- checkFactoryFields

  predicate AuthorityInRange(authority: int)
  {
    1000 <= authority <= 9999
  }

  /** The condition checkFactoryFields tests: the authority within
      1000-9999, the instance at most 9 and the type at most 99. Nothing
      bounds the instance or the type from below. */
  predicate PassesCheck(authority: int, instance: int, rnType: int)
  {
    AuthorityInRange(authority) && instance <= 9 && rnType <= 99
  }

  function AuthorityProblem(authority: int): seq<FieldProblem>
  {
    if AuthorityInRange(authority) then [] else [BadAuthorityNumber(authority)]
  }

  function InstanceProblem(instance: int): seq<FieldProblem>
  {
    if instance > 9 then [BadInstanceNumber(instance)] else []
  }

  function TypeProblem(rnType: int): seq<FieldProblem>
  {
    if rnType > 99 then [BadTypeNumber(rnType)] else []
  }

  /** checkFactoryFields: no error when the check passes; otherwise one
      error listing every failed field, authority first, then instance,
      then type. */
  function CheckFactoryFields(authority: int, instance: int, rnType: int): (r: Option<Error>)
    ensures r.None? <==> PassesCheck(authority, instance, rnType)
    ensures r.Some? ==> r.value.BadFactoryFields? && 1 <= |r.value.problems| <= 3
    ensures r.Some? ==>
      (BadAuthorityNumber(authority) in r.value.problems <==> !AuthorityInRange(authority)) &&
      (BadInstanceNumber(instance) in r.value.problems <==> instance > 9) &&
      (BadTypeNumber(rnType) in r.value.problems <==> rnType > 99)
    ensures r.Some? && !AuthorityInRange(authority) ==>
      r.value.problems[0] == BadAuthorityNumber(authority)
    ensures r.Some? ==> forall p :: p in r.value.problems ==>
      p == BadAuthorityNumber(authority) || p == BadInstanceNumber(instance) ||
      p == BadTypeNumber(rnType)
  {
    if PassesCheck(authority, instance, rnType) then None
    else Some(BadFactoryFields(AuthorityProblem(authority) + InstanceProblem(instance) +
                               TypeProblem(rnType)))
  }

  // ------------------------------------------------------------- the key

  /** (((authority*10)+instance)*100)+type in int arithmetic. Each int
      operation wraps modulo 2^32, and wrapping after every step leaves the
      same value as wrapping once at the end. */
  function KeyOf(authority: int, instance: int, rnType: int): (k: int)
    ensures INT_MIN <= k <= INT_MAX
    ensures (k - ((authority * 10 + instance) * 100 + rnType)) % 0x1_0000_0000 == 0
  {
    Int32((authority * 10 + instance) * 100 + rnType)
  }

  /** Two identifier triples that pass the check and share a key: the
      second, with type -1, is handed the factory of the first, and the
      first, when asked for second, is handed a factory that cannot issue. */
  lemma {:induction false} KeyCollision()
    ensures PassesCheck(1000, 0, 99) && PassesCheck(1000, 1, -1)
    ensures KeyOf(1000, 0, 99) == KeyOf(1000, 1, -1) == 1000099
  {
  }

  /** Identifier triples as evidently intended: negative instances and
      types are rejected as well. */
  predicate IntendedCheck(authority: int, instance: int, rnType: int)
  {
    AuthorityInRange(authority) && 0 <= instance <= 9 && 0 <= rnType <= 99
  }

  /** Under the intended check the key never wraps and tells the triples
      apart. */
  lemma {:induction false} IntendedKeyInjective(a: int, i: int, t: int, a': int, i': int, t': int)
    requires IntendedCheck(a, i, t) && IntendedCheck(a', i', t')
    ensures KeyOf(a, i, t) == (a * 10 + i) * 100 + t
    ensures KeyOf(a, i, t) == KeyOf(a', i', t') <==> (a, i, t) == (a', i', t')
  {
    KeyDigits(a, i, t);
    KeyDigits(a', i', t');
  }

  lemma {:induction false} KeyDigits(a: int, i: int, t: int)
    requires IntendedCheck(a, i, t)
    ensures KeyOf(a, i, t) == (a * 10 + i) * 100 + t
    ensures KeyOf(a, i, t) % 100 == t && KeyOf(a, i, t) / 100 % 10 == i &&
            KeyOf(a, i, t) / 1000 == a
  {
    var exact := (a * 10 + i) * 100 + t;
    assert 1000000 <= exact <= 9999999;
    assert (exact - INT_MIN) % 0x1_0000_0000 == exact - INT_MIN;
    var high := a * 10 + i;
    assert exact / 100 == high;
    assert high % 10 == i && high / 10 == a;
    assert exact / 1000 == high / 10;
  }

  // ------------------------------------------------------------- generateReferenceNumber

  /** What generateReferenceNumber does with the UTC date-time d of its
      reading: a NumberFormatException from BigInteger(String) when the
      formatted fields are not a numeral, null when the RN constructor
      throws, and otherwise the elements of the RN it returns. */
  function Generated(authority: int, instance: int, rnType: int, d: DateTime)
    : (r: Result<Option<Elements>>)
    ensures r.Err? <==> ParseSigned(DecimalForm(FieldsOf(authority, instance, rnType, d))).None?
    ensures r.Err? ==> r.error == NumberFormat
    ensures r.Ok? ==>
      var v := ParseSigned(DecimalForm(FieldsOf(authority, instance, rnType, d))).value;
      (r.value.None? <==> ParseDecimalForm(v).Err?) &&
      (r.value.Some? ==> r.value.value == ParseDecimalForm(v).value)
  {
    match ParseSigned(DecimalForm(FieldsOf(authority, instance, rnType, d)))
    case None => Err(NumberFormat)
    case Some(v) =>
      match ParseDecimalForm(v)
      case Err(_) => Ok(None)
      case Ok(el) => Ok(Some(el))
  }

  /** For identifiers the intended check accepts and a four-digit year, the
      factory never throws; it returns null exactly for years before 2000,
      and otherwise an RN with its own identifiers, time-stamped with d. */
  lemma {:induction false} GeneratedCases(authority: int, instance: int, rnType: int, d: DateTime)
    requires IntendedCheck(authority, instance, rnType) && IsValid(d) && 0 <= d.year <= 9999
    ensures Generated(authority, instance, rnType, d).Ok?
    ensures Generated(authority, instance, rnType, d).value.Some? <==> MIN_INSTANT_YEAR <= d.year
    ensures Generated(authority, instance, rnType, d).value.Some? ==>
      Generated(authority, instance, rnType, d).value.value ==
        Elements(authority, Instance(instance), Type(rnType), TimeStamp(AtUtc(d)))
  {
    var f := FieldsOf(authority, instance, rnType, d);
    assert InRange(f);
    assert DateOf(f) == d;
    GeneratedOfFields(authority, instance, rnType, d);
    ParseDecimalFormInRange(f);
    var parsed := UkRN.ParsedFields(f);
    assert parsed.Ok? <==> MIN_INSTANT_YEAR <= d.year;
    assert parsed.Ok? ==>
      (parsed.value.authority.id == authority && parsed.value.instance == Instance(instance) &&
       parsed.value.rnType == Type(rnType) && parsed.value.timestamp == TimeStamp(AtUtc(d)));
  }

  /** For fields within the layout's widths, the factory's result is what
      parseDecimalForm gives for their packing. */
  lemma {:induction false} GeneratedOfFields(authority: int, instance: int, rnType: int, d: DateTime)
    requires InRange(FieldsOf(authority, instance, rnType, d))
    ensures var p := ParseDecimalForm(Packed(FieldsOf(authority, instance, rnType, d)));
      Generated(authority, instance, rnType, d) == if p.Ok? then Ok(Some(p.value)) else Ok(None)
  {
    DecimalFormParses(FieldsOf(authority, instance, rnType, d));
  }

  /** A factory with a negative instance, or a negative type, passes the
      check but throws NumberFormatException on every reading: the minus
      sign lands inside the decimal form. */
  lemma {:induction false} NegativeFieldThrows(authority: int, instance: int, rnType: int, d: DateTime)
    requires PassesCheck(authority, instance, rnType) && IsValid(d)
    requires instance < 0 || (0 <= instance && rnType < 0)
    ensures Generated(authority, instance, rnType, d) == Err(NumberFormat)
  {
    var f := FieldsOf(authority, instance, rnType, d);
    assert Pow(10, 1) == 10 && Pow(10, 3) == 1000 && Pow(10, 4) == 10000 by {
      assert Pow(10, 4) == 10 * Pow(10, 3);
      assert Pow(10, 3) == 10 * (10 * Pow(10, 1));
    }
    PadWidth(f.milli, 3);
    PadWidth(f.authority, 4);
    var k := if instance < 0 then 7 else 8;
    if instance >= 0 {
      PadWidth(f.instance, 1);
    }
    MinusInside(f, k);
    InnerMinusRejected(DecimalForm(f), k);
  }

  /** The character at index k of the decimal form, found in the instance
      (k = 7) or the type (k = 8) field. */
  lemma {:induction false} MinusInside(f: Fields, k: nat)
    requires |Format(f.milli, 3)| == 3 && |Format(f.authority, 4)| == 4 && f.milli >= 0
    requires k == 7 ==> f.instance < 0
    requires k == 8 ==> |Format(f.instance, 1)| == 1 && f.rnType < 0
    requires k == 7 || k == 8
    ensures k < |DecimalForm(f)| && IsDigit(DecimalForm(f)[0]) && DecimalForm(f)[k] == '-'
  {
    var a, b, c, e := Format(f.milli, 3), Format(f.authority, 4), Format(f.instance, 1),
                      Format(f.rnType, 2);
    assert IsDigit(a[0]);
    assert k == 7 ==> |c| >= 1 && c[0] == '-';
    assert k == 8 ==> |e| >= 1 && e[0] == '-';
    HeadChars(a, b, c, e, k);
    FrontKept(a, b, c, e, Format(f.year, 4), Format(f.month, 2), Format(f.day, 2),
              Format(f.hour, 2), Format(f.minute, 2), Format(f.second, 2), k);
  }

  /** Characters of the first four texts keep their places when six more follow. */
  lemma {:induction false} FrontKept(a: string, b: string, c: string, e: string, g: string,
                                     h: string, l: string, m: string, n: string, o: string, k: nat)
    requires k < |a + b + c + e| && |a| > 0
    ensures var s := a + b + c + e + g + h + l + m + n + o;
      k < |s| && s[k] == (a + b + c + e)[k] && s[0] == (a + b + c + e)[0]
  {
    var p4 := a + b + c + e;
    var p5 := p4 + g;
    var p6 := p5 + h;
    var p7 := p6 + l;
    var p8 := p7 + m;
    var p9 := p8 + n;
    var s := p9 + o;
    assert p5[k] == p4[k] && p5[0] == p4[0];
    assert p6[k] == p5[k] && p6[0] == p5[0];
    assert p7[k] == p6[k] && p7[0] == p6[0];
    assert p8[k] == p7[k] && p8[0] == p7[0];
    assert p9[k] == p8[k] && p9[0] == p8[0];
    assert s[k] == p9[k] && s[0] == p9[0];
  }

  lemma {:induction false} HeadChars(a: string, b: string, c: string, e: string, k: nat)
    requires |a| == 3 && |b| == 4 && IsDigit(a[0])
    requires k == 7 ==> |c| >= 1 && c[0] == '-'
    requires k == 8 ==> |c| == 1 && |e| >= 1 && e[0] == '-'
    requires k == 7 || k == 8
    ensures k < |a + b + c + e| && (a + b + c + e)[k] == '-' && IsDigit((a + b + c + e)[0])
  {
  }

  class Factory {
    const authority: int
    const instance: int
    const rnType: int
    /** The clock reading the last RN was made from. */
    var prev: int

    constructor(authority: int, instance: int, rnType: int)
      ensures this.authority == authority && this.instance == instance &&
              this.rnType == rnType && prev == 0
    {
      this.authority := authority;
      this.instance := instance;
      this.rnType := rnType;
      prev := 0;
    }

    /** generateReferenceNumber: wait for a reading later than prev, keep it
        as prev, format the fields of its UTC date-time and read an RN back
        from that numeral; null when the RN constructor throws, a
        NumberFormatException passed on when the text is not a numeral. */
    method GenerateReferenceNumber(clock: MillisClock) returns (r: Result<Option<RN>>)
      requires PassesEventually(clock.readings, prev)
      modifies this, clock
      ensures prev > old(prev)
      ensures prev == old(clock.readings)[FirstAfter(old(clock.readings), old(prev))]
      ensures clock.readings == old(clock.readings)[FirstAfter(old(clock.readings), old(prev)) + 1..]
      ensures var g := Generated(authority, instance, rnType, clock.utcOf(prev));
        (r.Err? <==> g.Err?) && (r.Err? ==> r.error == g.error) &&
        (r.Ok? ==> (r.value.Some? <==> g.value.Some?)) &&
        (r.Ok? && r.value.Some? ==>
          fresh(r.value.value) && r.value.value.Valid() && Parsed(r.value.value, g.value.value))
    {
      ghost var before, k := clock.readings, FirstAfter(clock.readings, prev);
      var time := clock.ReadAfter(prev);
      assert time == before[k] && clock.readings == before[k + 1..];
      prev := time;
      r := MakeReferenceNumber(authority, instance, rnType, clock.utcOf(time));
    }
  }

  /** The part of generateReferenceNumber after the clock: format the fields
      of d and read an RN back from that numeral. */
  method MakeReferenceNumber(authority: int, instance: int, rnType: int, d: DateTime)
      returns (r: Result<Option<RN>>)
    ensures var g := Generated(authority, instance, rnType, d);
      (r.Err? <==> g.Err?) && (r.Err? ==> r.error == g.error) &&
      (r.Ok? ==> (r.value.Some? <==> g.value.Some?)) &&
      (r.Ok? && r.value.Some? ==>
        fresh(r.value.value) && r.value.value.Valid() && Parsed(r.value.value, g.value.value))
  {
    var decimal := DecimalForm(FieldsOf(authority, instance, rnType, d));
    match ParseSigned(decimal)
    case None => r := Err(NumberFormat);
    case Some(v) =>
      var made := OfValue(v);
      match made
      case Err(_) => r := Ok(None);
      case Ok(rn) => r := Ok(Some(rn));
  }

  /** The static registry of factories, by key. */
  class Registry {
    var factories: map<int, Factory>

    constructor()
      ensures factories == map[]
    {
      factories := map[];
    }

    /** Every factory passed the check and is filed under its own key. */
    ghost predicate Valid()
      reads this
    {
      forall k :: k in factories ==>
        PassesCheck(factories[k].authority, factories[k].instance, factories[k].rnType) &&
        KeyOf(factories[k].authority, factories[k].instance, factories[k].rnType) == k
    }

    /** getFactory: the check's error, or the factory filed under the key of
        the triple, or a new one filed there. An existing entry is returned
        whatever its identifiers are. */
    method GetFactory(authority: int, instance: int, rnType: int) returns (r: Result<Factory>)
      requires Valid()
      modifies this
      ensures Valid()
      ensures CheckFactoryFields(authority, instance, rnType).Some? ==>
        r == Err(CheckFactoryFields(authority, instance, rnType).value) && factories == old(factories)
      ensures CheckFactoryFields(authority, instance, rnType).None? ==>
        var key := KeyOf(authority, instance, rnType);
        r.Ok? && key in factories && factories[key] == r.value &&
        (key in old(factories) ==> r.value == old(factories)[key] && factories == old(factories)) &&
        (key !in old(factories) ==>
          fresh(r.value) && r.value.authority == authority && r.value.instance == instance &&
          r.value.rnType == rnType && r.value.prev == 0 &&
          factories == old(factories)[key := r.value])
    {
      match CheckFactoryFields(authority, instance, rnType)
      case Some(e) => r := Err(e);
      case None =>
        var key := KeyOf(authority, instance, rnType);
        if key in factories {
          r := Ok(factories[key]);
        } else {
          var res := new Factory(authority, instance, rnType);
          factories := factories[key := res];
          r := Ok(res);
        }
    }

    /** Under the intended check a filed factory is the one for its
        identifiers: a lookup never returns another triple's factory. */
    lemma {:induction false} IntendedFilingIsExact(authority: int, instance: int, rnType: int)
      requires Valid() && IntendedCheck(authority, instance, rnType)
      requires KeyOf(authority, instance, rnType) in factories
      requires IntendedCheck(factories[KeyOf(authority, instance, rnType)].authority,
                             factories[KeyOf(authority, instance, rnType)].instance,
                             factories[KeyOf(authority, instance, rnType)].rnType)
      ensures var f := factories[KeyOf(authority, instance, rnType)];
        f.authority == authority && f.instance == instance && f.rnType == rnType
    {
      var f := factories[KeyOf(authority, instance, rnType)];
      IntendedKeyInjective(authority, instance, rnType, f.authority, f.instance, f.rnType);
    }
  }

  /** As written, asking for (1000, 0, 99) and then for (1000, 1, -1) hands
      out the same factory twice, one that issues RNs of type 99. */
  method SharedFactory(registry: Registry) returns (f: Factory, g: Factory)
    requires registry.Valid() && registry.factories == map[]
    modifies registry
    ensures f == g && g.rnType == 99 && g.instance == 0
  {
    KeyCollision();
    var r := registry.GetFactory(1000, 0, 99);
    f := r.value;
    var r' := registry.GetFactory(1000, 1, -1);
    g := r'.value;
  }
}
