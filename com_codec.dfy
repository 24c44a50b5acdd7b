/** Codec of the older revision: the same encoded form as the current one,
    but encode has no range check, and the prime of the check digits is
    computed with a sieve of Eratosthenes as the largest prime up to 33^2. */
module ComCodec {
  import opened Positional
  import opened Errors
  import opened CheckDigits
  import opened Base33
  import opened CodecForm

  // ------------------------------------------------------------- encode

  /** What encode returns: raw_encode of the checked value, whatever its sign
      or size. */
  function Encoded(i: int): string
  {
    RawEncoded(WithCheckDigits(i))
  }

  /** encode */
  method Encode(i: int) returns (s: string)
    ensures s == Encoded(i)
  {
    var cc := PRIME - (i * RESIDUAL) % PRIME;
    assert cc == CheckDigitsOf(i);
    var checked := i * BASE_SQUARED + cc;
    assert checked == WithCheckDigits(i);
    s := RawEncodeLoop(checked);
  }

  /** decode inverts encode on every non-negative value, however large. */
  lemma {:induction false} DecodeEncode(i: nat)
    ensures Decoded(Encoded(i)) == Ok(i)
  {
    StripWithCheckDigits(i);
    WithCheckDigitsIntact(i);
    var c := WithCheckDigits(i);
    RawRoundTrip(c);
    DecodedIntact(RawEncoded(c), c);
  }

  /** Without a range check, a checked value from 33^18 up takes more than 18
      symbols; below it takes exactly 18, in three groups of six. */
  lemma {:induction false} EncodedLength(i: nat)
    ensures WithCheckDigits(i) < Pow(BASE, MAX_DIGITS) ==> |Encoded(i)| == MAX_DIGITS + 2
    ensures WithCheckDigits(i) >= Pow(BASE, MAX_DIGITS) ==> |Encoded(i)| > MAX_DIGITS + 2
  {
    StripWithCheckDigits(i);
    var c := WithCheckDigits(i);
    if c < Pow(BASE, MAX_DIGITS) {
      RawEncodedShape(c);
    } else {
      LongEncoding(c);
    }
  }

  /** A value of more than 18 digits keeps all of them, plus two dashes. */
  lemma {:induction false} LongEncoding(c: nat)
    requires c >= Pow(BASE, MAX_DIGITS)
    ensures |RawEncoded(c)| > MAX_DIGITS + 2
  {
    EncodingAbove(c, MAX_DIGITS);
    RawSymbolsNonNegative(c);
    DashesLength(Encoding(ALPHABET, c, MAX_DIGITS));
  }

  /** From b^k up, the encoding needs more than k symbols. */
  lemma {:induction false} EncodingAbove(c: nat, k: nat)
    requires c >= Pow(BASE, k)
    ensures |Encoding(ALPHABET, c, k)| > k
  {
    NumDigitsBound(BASE, c, k);
  }

  lemma {:induction false} DashesLength(t: string)
    requires |t| >= 12
    ensures |Dashes(t)| == |t| + 2
  {
    DashesParts(t);
  }

  /** A negative value is encoded too: its checked value is negative, and
      raw_encode then stops after 18 symbols. */
  lemma {:induction false} NegativeEncodedLength(i: int)
    requires i < 0
    ensures |Encoded(i)| == MAX_DIGITS + 2
  {
    NegativeWithCheckDigits(i);
    DashesOfEighteen(Symbols(ALPHABET, LoopDigits(WithCheckDigits(i), MAX_DIGITS)));
  }

  // ------------------------------------------------------------- the sieve

  predicate IsPrime(x: int)
  {
    x >= 2 && forall d :: 2 <= d < x ==> x % d != 0
  }

  /** The primes in [2, n], in ascending order. */
  function PrimesUpTo(n: int): seq<int>
    decreases n
  {
    if n < 2 then [] else PrimesUpTo(n - 1) + (if IsPrime(n) then [n] else [])
  }

  /** No d in [2, p) below k divides k: what the sieve knows of k once it has
      crossed out the multiples of everything below p. */
  predicate NoDivisorBelow(k: int, p: int)
  {
    forall d :: 2 <= d < p && d < k ==> k % d != 0
  }

  /** The sieve array after the passes for every p' below p. */
  predicate Sieved(s: seq<bool>, n: nat, p: int)
  {
    |s| == n + 1 && forall k :: 2 <= k <= n ==> (s[k] <==> NoDivisorBelow(k, p))
  }

  /** The sieve array during the pass for p, with i the next multiple. */
  predicate Crossed(s: seq<bool>, before: seq<bool>, n: nat, p: int, i: int)
  {
    p >= 2 && |s| == n + 1 && |before| == n + 1 &&
    forall k :: 0 <= k <= n ==> s[k] == (before[k] && !(2 * p <= k < i && k % p == 0))
  }

  /** sieveOfEratosthenes: cross out the multiples of every p with p * p <= n
      that is still marked, then collect what is left from 2 up. */
  method SieveOfEratosthenes(n: nat) returns (primeNumbers: seq<int>)
    ensures primeNumbers == PrimesUpTo(n)
  {
    var prime := new bool[n + 1](_ => true);
    SieveStart(prime[..], n);
    var p := 2;
    while p * p <= n
      invariant 2 <= p <= n + 2
      invariant Sieved(prime[..], n, p)
      decreases n + 2 - p
    {
      if prime[p] {
        ghost var before := prime[..];
        var i := p * 2;
        CrossStart(before, n, p);
        while i <= n
          invariant 2 * p <= i && i % p == 0
          invariant Crossed(prime[..], before, n, p, i)
          decreases n + p - i
        {
          CrossStep(prime[..], before, n, p, i);
          prime[i] := false;
          i := i + p;
        }
        CrossDone(prime[..], before, n, p, i);
      } else {
        SkipComposite(prime[..], n, p);
      }
      p := p + 1;
    }
    SieveDone(prime[..], n, p);
    primeNumbers := [];
    var i := 2;
    while i <= n
      invariant 2 <= i <= n + 1 || (n < 2 && i == 2)
      invariant primeNumbers == PrimesUpTo(i - 1)
    {
      if prime[i] {
        primeNumbers := primeNumbers + [i];
      }
      i := i + 1;
    }
  }

  lemma {:induction false} SieveStart(s: seq<bool>, n: nat)
    requires |s| == n + 1 && forall k :: 0 <= k <= n ==> s[k]
    ensures Sieved(s, n, 2)
  {
  }

  lemma {:induction false} CrossStart(before: seq<bool>, n: nat, p: int)
    requires p >= 2 && |before| == n + 1
    ensures (p * 2) % p == 0
    ensures Crossed(before, before, n, p, p * 2)
  {
    DivModUnique(p * 2, p, 2, 0);
  }

  /** Crossing out i keeps the pass's state for the next multiple i + p. */
  lemma {:induction false} CrossStep(s: seq<bool>, before: seq<bool>, n: nat, p: int, i: int)
    requires p >= 2 && 2 * p <= i <= n && i % p == 0
    requires Crossed(s, before, n, p, i)
    ensures (i + p) % p == 0
    ensures Crossed(s[i := false], before, n, p, i + p)
  {
    var s' := s[i := false];
    forall k | 0 <= k <= n
      ensures s'[k] == (before[k] && !(2 * p <= k < i + p && k % p == 0))
    {
      if i < k < i + p {
        ModShift(i, p, k - i);
      }
    }
    ModShift(i, p, 0);
    DivModUnique(i + p, p, i / p + 1, 0);
  }

  /** (i + r) mod p for a multiple i of p and 0 <= r < p. */
  lemma {:induction false} ModShift(i: int, p: int, r: int)
    requires p >= 1 && i % p == 0 && 0 <= r < p
    ensures (i + r) % p == r
  {
    DivModUnique(i + r, p, i / p, r);
  }

  /** After the pass for a marked p, no multiple of p above p is left. */
  lemma {:induction false} CrossDone(s: seq<bool>, before: seq<bool>, n: nat, p: int, i: int)
    requires 2 <= p <= n && i > n
    requires Sieved(before, n, p) && Crossed(s, before, n, p, i)
    ensures Sieved(s, n, p + 1)
  {
    forall k | 2 <= k <= n
      ensures s[k] <==> NoDivisorBelow(k, p + 1)
    {
      if p < k && k % p == 0 {
        MultipleAbove(k, p);
      }
    }
  }

  /** A multiple of p above p is at least 2p. */
  lemma {:induction false} MultipleAbove(k: int, p: int)
    requires p >= 1 && k > p && k % p == 0
    ensures k >= 2 * p
  {
    var q := k / p;
    assert k == p * q;
    if q <= 1 {
      MulLe(p, q, 1);
    } else {
      MulLe(p, 2, q);
    }
  }

  /** An unmarked p has a divisor below it, which divides all its multiples:
      they are crossed out already. */
  lemma {:induction false} SkipComposite(s: seq<bool>, n: nat, p: int)
    requires 2 <= p <= n && Sieved(s, n, p) && !s[p]
    ensures Sieved(s, n, p + 1)
  {
    var d :| 2 <= d < p && p % d == 0;
    forall k | 2 <= k <= n
      ensures s[k] <==> NoDivisorBelow(k, p + 1)
    {
      if p < k && k % p == 0 {
        DivisorOfMultiple(k, p, d);
      }
    }
  }

  /** A divisor of p divides every multiple of p. */
  lemma {:induction false} DivisorOfMultiple(k: int, p: int, d: int)
    requires d >= 1 && p >= 1 && k % p == 0 && p % d == 0
    ensures k % d == 0
  {
    var a, b := k / p, p / d;
    assert k == p * a && p == d * b;
    assert k == d * (b * a);
    DivModUnique(k, d, b * a, 0);
  }

  /** Once p * p > n, what is still marked is exactly the primes. */
  lemma {:induction false} SieveDone(s: seq<bool>, n: nat, p: int)
    requires p >= 2 && p * p > n && Sieved(s, n, p)
    ensures forall k :: 2 <= k <= n ==> (s[k] <==> IsPrime(k))
  {
    forall k | 2 <= k <= n
      ensures NoDivisorBelow(k, p) ==> IsPrime(k)
    {
      if NoDivisorBelow(k, p) && !IsPrime(k) {
        var d :| 2 <= d < k && k % d == 0;
        CofactorBelow(k, p, d);
      }
    }
  }

  /** A divisor d of k with p * p > k leaves a cofactor below p, or is below
      p itself. */
  lemma {:induction false} CofactorBelow(k: int, p: int, d: int)
    requires 2 <= d < k && k % d == 0 && p >= 2 && p * p > k
    ensures !NoDivisorBelow(k, p)
  {
    var e := k / d;
    assert k == d * e;
    if e <= 1 {
      MulLe(d, e, 1);
    }
    DivModUnique(k, e, d, 0);
    if d >= p && e >= p {
      MulLe(d, p, e);
      MulLe(p, p, d);
    }
    if d < p {
      assert 2 <= d < p && d < k && k % d == 0;
    } else {
      assert e < d by {
        if e >= d {
          MulLe(d, d, e);
          MulLe(d, p, d);
          MulLe(p, p, d);
        }
      }
      assert 2 <= e < p && e < k && k % e == 0;
    }
  }

  // ------------------------------------------------------------- largestPrimeBelow

  /** What largestPrimeBelow returns: the last prime of the sieve, or nothing
      when the list is empty (where Java's get(-1) throws). */
  function LargestPrimeUpTo(limit: nat): Option<int>
  {
    var ps := PrimesUpTo(limit);
    if |ps| == 0 then None else Some(ps[|ps| - 1])
  }

  /** largestPrimeBelow */
  method LargestPrimeBelow(limit: nat) returns (r: Option<int>)
    ensures r == LargestPrimeUpTo(limit)
  {
    var primes := SieveOfEratosthenes(limit);
    if |primes| == 0 {
      return None;
    }
    r := Some(primes[|primes| - 1]);
  }

  // ------------------------------------------------------------- properties

  /** The sieve's list holds exactly the primes in [2, n]. */
  lemma {:induction false} PrimesUpToMembers(n: int)
    ensures forall x :: x in PrimesUpTo(n) <==> 2 <= x <= n && IsPrime(x)
    decreases n
  {
    if n >= 2 {
      PrimesUpToMembers(n - 1);
    }
  }

  /** ... in strictly ascending order. */
  lemma {:induction false} PrimesUpToAscending(n: int)
    ensures forall a, b :: 0 <= a < b < |PrimesUpTo(n)| ==> PrimesUpTo(n)[a] < PrimesUpTo(n)[b]
    decreases n
  {
    if n >= 2 {
      PrimesUpToAscending(n - 1);
      PrimesUpToMembers(n - 1);
      var ps := PrimesUpTo(n - 1);
      assert forall a :: 0 <= a < |ps| ==> ps[a] in ps;
    }
  }

  /** largestPrimeBelow returns a prime no larger than the limit that is at
      least every prime no larger than the limit, and nothing when there is
      no such prime. */
  lemma {:induction false} LargestPrimeUpToIsLargest(limit: nat)
    ensures LargestPrimeUpTo(limit).None? <==> limit < 2
    ensures LargestPrimeUpTo(limit).Some? ==>
      var q := LargestPrimeUpTo(limit).value;
      IsPrime(q) && q <= limit && forall x :: IsPrime(x) && x <= limit ==> x <= q
  {
    PrimesUpToMembers(limit);
    PrimesUpToAscending(limit);
    var ps := PrimesUpTo(limit);
    if limit >= 2 {
      TwoIsPrime();
      assert 2 in ps;
    }
    if |ps| > 0 {
      var q := ps[|ps| - 1];
      assert q in ps;
      forall x | IsPrime(x) && x <= limit
        ensures x <= q
      {
        assert x in ps;
        var a :| 0 <= a < |ps| && ps[a] == x;
        if a < |ps| - 1 {
          assert ps[a] < ps[|ps| - 1];
        }
      }
    }
  }

  lemma {:induction false} TwoIsPrime()
    ensures IsPrime(2)
  {
  }

  /** 1087 has no divisor below 33, so none at all: a divisor from 33 up
      would leave a cofactor below 33. */
  lemma {:induction false} PrimeIsPrime()
    ensures IsPrime(PRIME)
  {
    SmallDivisors();
    forall d | 2 <= d < PRIME
      ensures PRIME % d != 0
    {
      if d >= 33 && PRIME % d == 0 {
        var e := PRIME / d;
        assert PRIME == d * e;
        MulLe(e, 33, d);
        DivModUnique(PRIME, e, d, 0);
      }
    }
  }

  lemma {:induction false} SmallDivisors()
    ensures forall d :: 2 <= d < 33 ==> PRIME % d != 0
  {
  }

  /** The prime of the check digits: the largest prime up to 33^2 is 1087,
      because 1088 and 1089 are not prime; the residual is 2. */
  lemma {:induction false} SievedPrime()
    ensures LargestPrimeUpTo(BASE_SQUARED) == Some(PRIME)
    ensures BASE_SQUARED - PRIME == RESIDUAL == 2
  {
    PrimeIsPrime();
    assert !IsPrime(1088) by {
      assert 1088 % 2 == 0;
    }
    assert !IsPrime(1089) by {
      assert 1089 % 3 == 0;
    }
    assert PrimesUpTo(1089) == PrimesUpTo(1088);
    assert PrimesUpTo(1088) == PrimesUpTo(1087);
    assert PrimesUpTo(1087) == PrimesUpTo(1086) + [1087];
  }

  /** The sieve bound is inclusive: for a prime limit, largestPrimeBelow
      returns the limit itself, not a prime below it. */
  lemma {:induction false} LimitIncluded(limit: nat)
    requires IsPrime(limit)
    ensures LargestPrimeUpTo(limit) == Some(limit)
  {
  }

  /** The largest prime strictly below limit, as the name and the comment at
      the constant promise. */
  function LargestPrimeStrictlyBelow(limit: nat): Option<int>
  {
    if limit == 0 then None else LargestPrimeUpTo(limit - 1)
  }

  /** The strict version returns a prime below the limit that is at least
      every prime below the limit. */
  lemma {:induction false} StrictlyBelowIsLargest(limit: nat)
    ensures LargestPrimeStrictlyBelow(limit).None? <==> limit < 3
    ensures LargestPrimeStrictlyBelow(limit).Some? ==>
      var q := LargestPrimeStrictlyBelow(limit).value;
      IsPrime(q) && q < limit && forall x :: IsPrime(x) && x < limit ==> x <= q
  {
    if limit > 0 {
      LargestPrimeUpToIsLargest(limit - 1);
    }
  }

  /** The two agree on 33^2, which is not prime, so the prime is
      unaffected; they differ on 1087 itself. */
  lemma {:induction false} StrictlyBelowExamples()
    ensures LargestPrimeStrictlyBelow(BASE_SQUARED) == Some(PRIME)
    ensures LargestPrimeUpTo(PRIME) == Some(PRIME)
    ensures LargestPrimeStrictlyBelow(PRIME) != Some(PRIME)
  {
    SievedPrime();
    PrimeIsPrime();
    StrictlyBelowIsLargest(PRIME);
    assert !IsPrime(1088) by {
      assert 1088 % 2 == 0;
    }
    assert PrimesUpTo(1088) == PrimesUpTo(1087);
  }
}
