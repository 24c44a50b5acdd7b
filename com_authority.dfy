/** Authority of the older revision: an identifier checked once, when the
    object is made. The class has no equals of its own, so two Authority
    objects are equal only when they are the same object. */
module ComAuthority {
  import opened Errors

  const MIN_AUTHORITY_ID: int := 1000
  const MAX_AUTHORITY_ID: int := 9999

  /** isValidIdentifier */
  predicate IsValidIdentifier(authorityId: int)
  {
    MIN_AUTHORITY_ID <= authorityId <= MAX_AUTHORITY_ID
  }

  class Authority {
    /** getId */
    const id: int

    constructor(authorityId: int)
      requires IsValidIdentifier(authorityId)
      ensures id == authorityId
    {
      id := authorityId;
    }
  }

  /** new Authority(int): a new object for a valid identifier, otherwise
      the RNException naming the identifier. */
  method NewAuthority(authorityId: int) returns (r: Result<Authority>)
    ensures r.Ok? <==> IsValidIdentifier(authorityId)
    ensures r.Ok? ==> fresh(r.value) && r.value.id == authorityId
    ensures r.Err? ==> r.error == AuthorityOutOfRange(authorityId)
  {
    if !IsValidIdentifier(authorityId) {
      return Err(AuthorityOutOfRange(authorityId));
    }
    var a := new Authority(authorityId);
    r := Ok(a);
  }
}
