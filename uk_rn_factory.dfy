/** RNFactory of the current revision: one factory per authority, instance
    and type, kept in a registry keyed by the factory's hash code, each
    issuing RNs from a millisecond clock it never reads back twice at the
    same value. The registry is a class standing for the static HashMap;
    the synchronized blocks are sequential here. */
module UkRNFactory {
  import opened Errors
  import opened CivilTime
  import opened PackedLayout
  import opened UkFields
  import opened UkRN
  import opened Clock

  /** RNFactory.hashCode: authority, instance and type as the digits of one
      number, the instance one decimal place and the type two. */
  function KeyOf(authority: Authority, instance: Instance, rnType: Type): int
  {
    (authority.id * (MAX_INSTANCE_ID + 1) + instance.id) * (MAX_TYPE_ID + 1) + rnType.id
  }

  /** The identifiers a factory can be given: Authority, Instance and Type
      objects only exist with valid identifiers. */
  predicate ValidIds(authority: Authority, instance: Instance, rnType: Type)
  {
    IsValidAuthorityId(authority.id) && IsValidInstanceId(instance.id) && IsValidTypeId(rnType.id)
  }

  /** The key tells valid tuples apart and lies within the range of an int. */
  lemma {:induction false} KeyInjective(a: Authority, i: Instance, t: Type,
                                        a': Authority, i': Instance, t': Type)
    requires ValidIds(a, i, t) && ValidIds(a', i', t')
    ensures KeyOf(a, i, t) == KeyOf(a', i', t') <==> a == a' && i == i' && t == t'
    ensures 1000000 <= KeyOf(a, i, t) <= 9999999
  {
    KeyDigits(a, i, t);
    KeyDigits(a', i', t');
  }

  /** The key's digits give back the identifiers. */
  lemma {:induction false} KeyDigits(a: Authority, i: Instance, t: Type)
    requires ValidIds(a, i, t)
    ensures KeyOf(a, i, t) % 100 == t.id
    ensures KeyOf(a, i, t) / 100 % 10 == i.id
    ensures KeyOf(a, i, t) / 1000 == a.id
  {
    var k := KeyOf(a, i, t);
    var high := a.id * 10 + i.id;
    assert k == high * 100 + t.id;
    assert k / 100 == high;
    assert high % 10 == i.id && high / 10 == a.id;
    assert k / 1000 == high / 10;
  }

  /** What generateReferenceNumber returns for the UTC date-time d of its
      clock reading: the element constructor's RN, or null when that throws. */
  function Generated(authority: Authority, instance: Instance, rnType: Type,
                     d: DateTime): (r: Option<RN>)
    ensures NewRN(authority, instance, rnType, AtUtc(d)).Ok? ==>
      r == Some(NewRN(authority, instance, rnType, AtUtc(d)).value)
    ensures NewRN(authority, instance, rnType, AtUtc(d)).Err? ==> r == None
  {
    match NewRN(authority, instance, rnType, AtUtc(d))
    case Ok(rn) => Some(rn)
    // The source catches only RNException; for the validated identifiers a
    // factory holds, the only error is YearOutOfRange (GeneratedCases).
    case Err(_) => None
  }

  /** For a real date-time the factory returns null exactly when the year
      is outside 2000-9999, and otherwise a consistent RN with its own
      identifiers, time-stamped with that date-time. */
  lemma {:induction false} GeneratedCases(authority: Authority, instance: Instance,
                                          rnType: Type, d: DateTime)
    requires ValidIds(authority, instance, rnType) && IsValid(d)
    ensures Generated(authority, instance, rnType, d).Some? <==>
      MIN_INSTANT_YEAR <= d.year <= MAX_INSTANT_YEAR
    ensures Generated(authority, instance, rnType, d).Some? ==>
      var rn := Generated(authority, instance, rnType, d).value;
      Consistent(rn) && rn.authority == authority && rn.instance == instance &&
      rn.rnType == rnType && rn.timestamp == TimeStamp(AtUtc(d))
    ensures Generated(authority, instance, rnType, d).None? ==>
      NewRN(authority, instance, rnType, AtUtc(d)) == Err(YearOutOfRange(d.year))
  {
    if MIN_INSTANT_YEAR <= d.year <= MAX_INSTANT_YEAR {
      NewRNConsistent(authority, instance, rnType, d);
    }
  }

  /** RNs a factory makes from two readings, the second later than the
      first, have ordered time stamps and are different: equals() tells
      them apart and so does compareTo. */
  lemma {:induction false} LaterReadingsDiffer(authority: Authority, instance: Instance,
                                               rnType: Type, utcOf: int -> DateTime,
                                               t: int, u: int)
    requires ValidIds(authority, instance, rnType) && IsCalendar(utcOf) && t < u
    requires Generated(authority, instance, rnType, utcOf(t)).Some?
    requires Generated(authority, instance, rnType, utcOf(u)).Some?
    ensures var x, y := Generated(authority, instance, rnType, utcOf(t)).value,
                        Generated(authority, instance, rnType, utcOf(u)).value;
      Before(x.timestamp.instant.utc, y.timestamp.instant.utc) &&
      !RNEquals(x, y) && CompareTo(x, y) != 0
  {
    var x := Generated(authority, instance, rnType, utcOf(t)).value;
    var y := Generated(authority, instance, rnType, utcOf(u)).value;
    GeneratedCases(authority, instance, rnType, utcOf(t));
    GeneratedCases(authority, instance, rnType, utcOf(u));
    BeforeIsStrictOrder(utcOf(t), utcOf(u), utcOf(u));
    ConsistentInRange(x);
    ConsistentInRange(y);
    PackedDiffers(FieldsOfRN(x), FieldsOfRN(y));
  }

  class Factory {
    const authority: Authority
    const instance: Instance
    const rnType: Type
    /** The clock reading the last RN was made from. */
    var prev: int

    constructor(authority: Authority, instance: Instance, rnType: Type)
      ensures this.authority == authority && this.instance == instance &&
              this.rnType == rnType && prev == 0
    {
      this.authority := authority;
      this.instance := instance;
      this.rnType := rnType;
      prev := 0;
    }

    /** RNFactory.equals: the three identifying objects, each by its equals. */
    predicate Equals(other: Factory)
    {
      AuthorityEquals(authority, other.authority) && InstanceEquals(instance, other.instance) &&
      TypeEquals(rnType, other.rnType)
    }

    /** generateReferenceNumber: wait for a reading later than prev, keep it
        as prev, and make an RN from its UTC date-time. */
    method GenerateReferenceNumber(clock: MillisClock) returns (rn: Option<RN>)
      requires PassesEventually(clock.readings, prev)
      modifies this, clock
      ensures prev > old(prev)
      ensures prev == old(clock.readings)[FirstAfter(old(clock.readings), old(prev))]
      ensures clock.readings == old(clock.readings)[FirstAfter(old(clock.readings), old(prev)) + 1..]
      ensures rn == Generated(authority, instance, rnType, clock.utcOf(prev))
    {
      ghost var before, k := clock.readings, FirstAfter(clock.readings, prev);
      var time := clock.ReadAfter(prev);
      assert time == before[k] && clock.readings == before[k + 1..];
      prev := time;
      rn := Generated(authority, instance, rnType, clock.utcOf(time));
    }
  }

  /** Factory.Equals holds exactly for factories with the same identifiers,
      that is, with the same key. */
  lemma {:induction false} EqualsMatchesKey(f: Factory, g: Factory)
    requires ValidIds(f.authority, f.instance, f.rnType) && ValidIds(g.authority, g.instance, g.rnType)
    ensures f.Equals(g) <==> KeyOf(f.authority, f.instance, f.rnType) == KeyOf(g.authority, g.instance, g.rnType)
  {
    KeyInjective(f.authority, f.instance, f.rnType, g.authority, g.instance, g.rnType);
  }

  /** The static registry of factories, by key. */
  class Registry {
    var factories: map<int, Factory>

    constructor()
      ensures factories == map[]
    {
      factories := map[];
    }

    /** Every factory is filed under its own key. */
    ghost predicate Valid()
      reads this
    {
      forall k :: k in factories ==>
        ValidIds(factories[k].authority, factories[k].instance, factories[k].rnType) &&
        KeyOf(factories[k].authority, factories[k].instance, factories[k].rnType) == k
    }

    /** getFactory: the factory filed under the key of the tuple, or a new
        one filed there. An existing entry is never replaced. */
    method GetFactory(authority: Authority, instance: Instance, rnType: Type)
        returns (f: Factory)
      requires Valid() && ValidIds(authority, instance, rnType)
      modifies this
      ensures Valid()
      ensures f.authority == authority && f.instance == instance && f.rnType == rnType
      ensures KeyOf(authority, instance, rnType) in factories &&
              factories[KeyOf(authority, instance, rnType)] == f
      ensures KeyOf(authority, instance, rnType) in old(factories) ==>
        f == old(factories)[KeyOf(authority, instance, rnType)] && factories == old(factories)
      ensures KeyOf(authority, instance, rnType) !in old(factories) ==>
        fresh(f) && f.prev == 0 &&
        factories == old(factories)[KeyOf(authority, instance, rnType) := f]
    {
      var res := new Factory(authority, instance, rnType);
      var key := KeyOf(res.authority, res.instance, res.rnType);
      if key in factories {
        res := factories[key];
        KeyInjective(res.authority, res.instance, res.rnType, authority, instance, rnType);
      } else {
        factories := factories[key := res];
      }
      f := res;
    }
  }
}
