/** The encoded form both Codec classes produce and read: an integer written
    in base 33 over the Codec alphabet (digits last, '0' the last symbol), at
    least 18 symbols, with a '-' after the 6th and the 12th symbol counted
    from the right. raw_encode and raw_decode are the same code in the two
    revisions; only what surrounds them differs. */
module CodecForm {
  import opened Positional
  import opened Errors
  import opened CheckDigits
  import opened Base33

  /** The symbols of the encoding, the symbol for zero first. */
  const ALPHABET: string := "ABCDEFGHJKLMNPQRSTVWXYZ1234567890"
  /** The characters raw_decode skips: the space and the dash. */
  const SPACERS: set<char> := {' ', '-'}

  // ------------------------------------------------------------- alphabet

  /** The order of the symbols: letters, then '1' to '9', then '0'. */
  function SymbolKey(c: char): int
  {
    if c == '0' then 200 else if c <= '9' then c as int + 100 else c as int
  }

  /** The key of the symbol for digit value d. */
  function SymbolRank(d: int): int
  {
    if d < 8 then 'A' as int + d
    else if d < 13 then 'J' as int + (d - 8)
    else if d < 18 then 'P' as int + (d - 13)
    else if d < 23 then 'V' as int + (d - 18)
    else if d < 32 then '1' as int + (d - 23) + 100
    else 200
  }

  lemma {:induction false} AlphabetRanks1()
    ensures forall d :: 0 <= d < 11 ==> SymbolKey(ALPHABET[d]) == SymbolRank(d)
  {
  }

  lemma {:induction false} AlphabetRanks2()
    ensures forall d :: 11 <= d < 22 ==> SymbolKey(ALPHABET[d]) == SymbolRank(d)
  {
  }

  lemma {:induction false} AlphabetRanks3()
    ensures forall d :: 22 <= d < 33 ==> SymbolKey(ALPHABET[d]) == SymbolRank(d)
  {
  }

  /** The 33 symbols are distinct. */
  lemma {:induction false} AlphabetIsAlphabet()
    ensures IsAlphabet(ALPHABET)
  {
    AlphabetRanks1();
    AlphabetRanks2();
    AlphabetRanks3();
    forall i, j | 0 <= i < j < |ALPHABET|
      ensures ALPHABET[i] != ALPHABET[j]
    {
      assert SymbolRank(i) < SymbolRank(j);
    }
  }

  /** The symbols are letters and digits, above the space and the dash. */
  lemma {:induction false} AlphabetAboveSpacers()
    ensures forall i :: 0 <= i < |ALPHABET| ==> ALPHABET[i] >= '0'
  {
    AlphabetRanks1();
    AlphabetRanks2();
    AlphabetRanks3();
  }

  lemma {:induction false} SymbolAboveSpacers(c: char)
    requires c in ALPHABET
    ensures c >= '0'
  {
    AlphabetAboveSpacers();
  }

  /** The letter I, easily taken for the digit 1, is not a symbol. */
  lemma {:induction false} LetterIOutside()
    ensures 'I' !in ALPHABET
  {
    AlphabetRanks1();
    AlphabetRanks2();
    AlphabetRanks3();
    forall d | 0 <= d < |ALPHABET|
      ensures ALPHABET[d] != 'I'
    {
      assert SymbolRank(d) != 'I' as int;
    }
  }

  lemma {:induction false} SymbolsNotSpacers(t: string)
    requires forall i :: 0 <= i < |t| ==> t[i] in ALPHABET
    ensures forall i :: 0 <= i < |t| ==> t[i] !in SPACERS
  {
    forall i | 0 <= i < |t|
      ensures t[i] !in SPACERS
    {
      SymbolAboveSpacers(t[i]);
    }
  }

  // ------------------------------------------------------------- raw_encode

  /** BigInteger.divide: the quotient truncated toward zero. */
  function BigDivide(i: int, d: nat): (q: int)
    requires d >= 1
    ensures i >= 0 ==> q == i / d
    ensures i <= 0 ==> q <= 0
  {
    if i >= 0 then i / d else -((-i) / d)
  }

  /** What is left of i after k passes of raw_encode. */
  function Shifted(i: int, k: nat): int
  {
    if k == 0 then i else BigDivide(Shifted(i, k - 1), BASE)
  }

  /** The digits the first k passes take from i (BigInteger.mod, which is
      never negative), the last one taken first. */
  function LoopDigits(i: int, k: nat): (ds: seq<nat>)
    ensures |ds| == k
    ensures forall j :: 0 <= j < k ==> ds[j] < BASE
  {
    if k == 0 then [] else [Shifted(i, k - 1) % BASE] + LoopDigits(i, k - 1)
  }

  /** The number of passes: until nothing positive is left, and at least 18. */
  function EncodePasses(i: int): (k: nat)
    ensures k >= MAX_DIGITS
  {
    if i >= 0 then Width(BASE, i, MAX_DIGITS) else MAX_DIGITS
  }

  /** The symbols with a '-' after the 6th and the 12th from the right, as
      far as there are that many. */
  function Dashes(t: string): string
  {
    if |t| < 6 then t
    else if |t| < 12 then t[..|t| - 6] + "-" + t[|t| - 6..]
    else t[..|t| - 12] + "-" + t[|t| - 12..|t| - 6] + "-" + t[|t| - 6..]
  }

  /** What raw_encode returns for i, before any range check. */
  function RawEncoded(i: int): string
  {
    Dashes(Symbols(ALPHABET, LoopDigits(i, EncodePasses(i))))
  }

  /** raw_encode without its range checks: symbol by symbol from the least
      significant, a '-' in front after the 6th and the 12th. */
  method RawEncodeLoop(i: int) returns (s: string)
    ensures s == RawEncoded(i)
  {
    var res: string := "";
    var j: nat := 0;
    var n := i;
    RawStart(i);
    // the do-while's first pass is covered by j < MAX_DIGITS
    while n > 0 || j < MAX_DIGITS
      invariant RawState(i, j, n, res)
      decreases EncodePasses(i) - j
    {
      RawStep(i, j, n, res);
      var ch := ALPHABET[n % BASE];
      n := BigDivide(n, BASE);
      res := [ch] + res;
      j := j + 1;
      if j % 6 == 0 && j < MAX_DIGITS {
        res := "-" + res;
      }
    }
    RawDone(i, j, n, res);
    s := res;
  }

  /** The state of raw_encode after j passes. */
  predicate RawState(i: int, j: nat, n: int, res: string)
  {
    j <= EncodePasses(i) && n == Shifted(i, j) &&
    res == Dashes(Symbols(ALPHABET, LoopDigits(i, j)))
  }

  lemma {:induction false} RawStart(i: int)
    ensures RawState(i, 0, i, "")
  {
    assert Symbols(ALPHABET, LoopDigits(i, 0)) == [];
  }

  /** A pass puts the next symbol in front, and the dash after the 6th and the
      12th. */
  lemma {:induction false} RawStep(i: int, j: nat, n: int, res: string)
    requires RawState(i, j, n, res)
    requires n > 0 || j < MAX_DIGITS
    ensures j < EncodePasses(i)
    ensures var res' := [ALPHABET[n % BASE]] + res;
      RawState(i, j + 1, BigDivide(n, BASE),
        if (j + 1) % 6 == 0 && j + 1 < MAX_DIGITS then "-" + res' else res')
  {
    if n > 0 {
      PassesContinue(i, j);
    }
    RawStepText(i, j, n, res);
  }

  /** The text part of RawStep. */
  lemma {:induction false} RawStepText(i: int, j: nat, n: int, res: string)
    requires n == Shifted(i, j) && res == Dashes(Symbols(ALPHABET, LoopDigits(i, j)))
    ensures var res' := [ALPHABET[n % BASE]] + res;
      (if (j + 1) % 6 == 0 && j + 1 < MAX_DIGITS then "-" + res' else res') ==
        Dashes(Symbols(ALPHABET, LoopDigits(i, j + 1)))
  {
    var ds := LoopDigits(i, j);
    assert LoopDigits(i, j + 1) == [n % BASE] + ds;
    var t := Symbols(ALPHABET, ds);
    var c := ALPHABET[n % BASE];
    SymbolsCons(ALPHABET, n % BASE, ds);
    assert Symbols(ALPHABET, LoopDigits(i, j + 1)) == [c] + t && |t| == j;
    DashesCons(c, t);
    DashPositions(j + 1);
  }

  /** The loop's dash test holds after exactly the 6th and the 12th symbol. */
  lemma {:induction false} DashPositions(m: nat)
    requires m >= 1
    ensures m % 6 == 0 && m < MAX_DIGITS <==> m == 6 || m == 12
  {
    if m < MAX_DIGITS {
      assert m in {1, 2, 3, 4, 5, 6, 7, 8, 9, 10, 11, 12, 13, 14, 15, 16, 17};
    }
  }

  /** While something positive is left, another pass is due. */
  lemma {:induction false} PassesContinue(i: int, j: nat)
    requires Shifted(i, j) > 0
    ensures i >= 0 && j < EncodePasses(i)
  {
    ShiftedNegative(i, j);
    PassesContinueNonNegative(i, j);
  }

  lemma {:induction false} PassesContinueNonNegative(i: nat, j: nat)
    requires Shifted(i, j) > 0
    ensures j < EncodePasses(i)
  {
    ShiftedNonNegative(i, j);
    DivZeroIff(i, Pow(BASE, j));
    NumDigitsBound(BASE, i, j);
  }

  /** The loop stops after exactly EncodePasses(i) passes. */
  lemma {:induction false} RawDone(i: int, j: nat, n: int, res: string)
    requires RawState(i, j, n, res)
    requires n <= 0 && j >= MAX_DIGITS
    ensures res == RawEncoded(i)
  {
    PassesDone(i, j);
  }

  /** Nothing positive left after at least 18 passes: all passes are done. */
  lemma {:induction false} PassesDone(i: int, j: nat)
    requires j <= EncodePasses(i) && Shifted(i, j) <= 0 && j >= MAX_DIGITS
    ensures j == EncodePasses(i)
  {
    if i >= 0 {
      ShiftedNonNegative(i, j);
      DivZeroIff(i, Pow(BASE, j));
      NumDigitsBound(BASE, i, j);
    }
  }

  /** A pass on a non-negative value is a division by BASE. */
  lemma {:induction false} ShiftedNonNegative(i: int, k: nat)
    requires i >= 0
    ensures Shifted(i, k) == i / Pow(BASE, k)
  {
    if k > 0 {
      ShiftedNonNegative(i, k - 1);
      DivStep(i, Pow(BASE, k - 1), Shifted(i, k - 1));
    }
  }

  lemma {:induction false} DivStep(i: nat, p: nat, q: int)
    requires p >= 1 && q == i / p
    ensures q >= 0 && q / BASE == i / (BASE * p)
  {
    DivDiv(i, p, BASE);
  }

  /** A negative value never becomes positive. */
  lemma {:induction false} ShiftedNegative(i: int, k: nat)
    ensures i < 0 ==> Shifted(i, k) <= 0
  {
    if k > 0 {
      ShiftedNegative(i, k - 1);
    }
  }

  /** Putting a symbol in front commutes with the dashes, except that the 6th
      and the 12th symbol bring their dash with them. */
  lemma {:induction false} DashesCons(c: char, t: string)
    ensures |t| + 1 == 6 || |t| + 1 == 12 ==> Dashes([c] + t) == "-" + ([c] + Dashes(t))
    ensures |t| + 1 != 6 && |t| + 1 != 12 ==> Dashes([c] + t) == [c] + Dashes(t)
  {
    if |t| + 1 < 6 {
    } else if |t| + 1 == 6 {
      DashesSixth(c, t);
    } else if |t| + 1 < 12 {
      DashesMiddle(c, t);
    } else if |t| + 1 == 12 {
      DashesTwelfth(c, t);
    } else {
      DashesLong(c, t);
    }
  }

  lemma {:induction false} DashesSixth(c: char, t: string)
    requires |t| == 5
    ensures Dashes([c] + t) == "-" + ([c] + Dashes(t))
  {
    var u := [c] + t;
    assert u[..0] == [] && u[0..] == u;
    assert Dashes(u) == [] + "-" + u;
    assert Dashes(t) == t;
  }

  lemma {:induction false} DashesMiddle(c: char, t: string)
    requires 6 <= |t| < 11
    ensures Dashes([c] + t) == [c] + Dashes(t)
  {
    var u := [c] + t;
    assert u[..|u| - 6] == [c] + t[..|t| - 6];
    assert u[|u| - 6..] == t[|t| - 6..];
  }

  lemma {:induction false} DashesTwelfth(c: char, t: string)
    requires |t| == 11
    ensures Dashes([c] + t) == "-" + ([c] + Dashes(t))
  {
    var u := [c] + t;
    var head, tail := t[..5], t[5..];
    assert u[..0] == [] && u[0..6] == [c] + head && u[6..] == tail;
    assert Dashes(u) == [] + "-" + ([c] + head) + "-" + tail;
    assert Dashes(t) == head + "-" + tail;
  }

  lemma {:induction false} DashesLong(c: char, t: string)
    requires |t| >= 12
    ensures Dashes([c] + t) == [c] + Dashes(t)
  {
    var u := [c] + t;
    var x, y, z := t[..|t| - 12], t[|t| - 12..|t| - 6], t[|t| - 6..];
    assert u[..|u| - 12] == [c] + x && u[|u| - 12..|u| - 6] == y && u[|u| - 6..] == z;
    assert Dashes(u) == [c] + x + "-" + y + "-" + z;
    assert Dashes(t) == x + "-" + y + "-" + z;
  }

  /** For a non-negative value the passes take the ordinary base-33 digits. */
  lemma {:induction false} LoopDigitsNonNegative(i: nat, k: nat)
    ensures LoopDigits(i, k) == Digits(BASE, i, k)
  {
    if k > 0 {
      LoopDigitsNonNegative(i, k - 1);
      ShiftedNonNegative(i, k - 1);
      DigitsCons(BASE, i, k - 1);
    }
  }

  /** For a non-negative value the symbols are its base-33 encoding, padded
      to 18. */
  lemma {:induction false} RawSymbolsNonNegative(i: nat)
    ensures Symbols(ALPHABET, LoopDigits(i, EncodePasses(i))) == Encoding(ALPHABET, i, MAX_DIGITS)
  {
    LoopDigitsNonNegative(i, EncodePasses(i));
  }

  /** The symbols of the groups of a text of at least 12 symbols. */
  lemma {:induction false} DashesParts(t: string)
    requires |t| >= 12
    ensures Dashes(t) == t[..|t| - 12] + ("-" + (t[|t| - 12..|t| - 6] + ("-" + t[|t| - 6..])))
    ensures t == t[..|t| - 12] + (t[|t| - 12..|t| - 6] + t[|t| - 6..])
  {
  }

  // ------------------------------------------------------------- raw_decode

  /** The encoded-form pattern: at least one character, each a symbol, a
      space or a dash. */
  predicate WellFormed(s: string)
  {
    |s| > 0 && forall k :: 0 <= k < |s| ==> s[k] in ALPHABET || s[k] in SPACERS
  }

  /** What raw_decode returns: the value of the symbols once spaces and
      dashes are gone, or MalformedEncoding. */
  function RawDecoded(s: string): (r: Result<nat>)
    ensures r.Err? <==> !WellFormed(s)
    ensures r.Err? ==> r.error == MalformedEncoding
  {
    if !WellFormed(s) then Err(MalformedEncoding)
    else
      var digits := Remove(s, SPACERS);
      SymbolsOfWellFormed(s);
      AlphabetIsAlphabet();
      EncodingUnique(ALPHABET, digits);
      Ok(Horner(ALPHABET, digits))
  }

  /** What is left of a well-formed text is symbols. */
  lemma {:induction false} SymbolsOfWellFormed(s: string)
    requires WellFormed(s)
    ensures forall k :: 0 <= k < |Remove(s, SPACERS)| ==> Remove(s, SPACERS)[k] in ALPHABET
  {
    RemoveKeeps(s, SPACERS);
    var r := Remove(s, SPACERS);
    forall k | 0 <= k < |r|
      ensures r[k] in ALPHABET
    {
      assert r[k] in s && r[k] !in SPACERS;
    }
  }

  /** raw_decode: the pattern check, the removal, then Horner evaluation. */
  method RawDecode(s: string) returns (r: Result<nat>)
    ensures r == RawDecoded(s)
  {
    if !WellFormed(s) {
      return Err(MalformedEncoding);
    }
    var digits := Remove(s, SPACERS);
    var res: int := 0;
    var i := 0;
    assert digits[..0] == [];
    while i < |digits|
      invariant 0 <= i <= |digits|
      invariant res == Horner(ALPHABET, digits[..i])
    {
      HornerSnoc(ALPHABET, digits, i);
      var digitValue := IndexOf(ALPHABET, digits[i]);
      res := res * BASE + digitValue;
      i := i + 1;
    }
    assert digits[..i] == digits;
    SymbolsOfWellFormed(s);
    AlphabetIsAlphabet();
    EncodingUnique(ALPHABET, digits);
    r := Ok(res);
  }

  /** isValid(BigInteger): the checksum test. */
  function IsValidValue(i: int): (b: bool)
    ensures b <==> IsIntact(i)
  {
    i % PRIME == 0
  }

  // ------------------------------------------------------------- decode

  /** What decode returns: raw_decode's value without its check digits once
      the digit check passes. */
  function Decoded(s: string): (r: Result<nat>)
    ensures !WellFormed(s) ==> r == Err(MalformedEncoding)
    ensures WellFormed(s) ==> (r.Ok? <==> IsIntact(RawDecoded(s).value))
    ensures WellFormed(s) && r.Ok? ==> r.value == Strip(RawDecoded(s).value)
    ensures WellFormed(s) && r.Err? ==> r.error == DigitCheckFailed
  {
    match RawDecoded(s)
    case Err(e) => Err(e)
    case Ok(i) => if IsValidValue(i) then Ok(Strip(i)) else Err(DigitCheckFailed)
  }

  /** A text whose raw value is intact decodes to that value without its
      check digits. */
  lemma {:induction false} DecodedIntact(s: string, c: nat)
    requires RawDecoded(s) == Ok(c) && IsIntact(c)
    ensures Decoded(s) == Ok(Strip(c))
  {
  }

  /** decode */
  method Decode(s: string) returns (r: Result<nat>)
    ensures r == Decoded(s)
  {
    var raw := RawDecode(s);
    if raw.Err? {
      return Err(raw.error);
    }
    var i := raw.value;
    if IsValidValue(i) {
      return Ok(Strip(i));
    }
    r := Err(DigitCheckFailed);
  }

  /** isValid(String): false for a malformed text, instead of an error. */
  function IsValid(s: string): (b: bool)
    ensures !WellFormed(s) ==> !b
  {
    match RawDecoded(s)
    case Err(_) => false
    case Ok(i) => IsValidValue(i)
  }

  /** isValid(String) as a method over raw_decode. */
  method IsValidText(s: string) returns (b: bool)
    ensures b == IsValid(s)
  {
    var raw := RawDecode(s);
    b := raw.Ok? && IsValidValue(raw.value);
  }

  // ------------------------------------------------------------- properties

  /** A space or a dash anywhere in a text that has other characters does not
      change what raw_decode returns. */
  lemma {:induction false} SpacerIgnored(a: string, x: char, b: string)
    requires x in SPACERS && |a + b| > 0
    ensures RawDecoded(a + [x] + b) == RawDecoded(a + b)
  {
    WellFormedInsert(a, x, b);
    RemoveInsert(a, x, b);
  }

  lemma {:induction false} RemoveInsert(a: string, x: char, b: string)
    requires x in SPACERS
    ensures Remove(a + [x] + b, SPACERS) == Remove(a + b, SPACERS)
  {
    RemoveAppend(a + [x], b, SPACERS);
    RemoveAppend(a, [x], SPACERS);
    RemoveAppend(a, b, SPACERS);
    assert Remove([x], SPACERS) == [];
  }

  lemma {:induction false} WellFormedInsert(a: string, x: char, b: string)
    requires x in SPACERS && |a + b| > 0
    ensures WellFormed(a + [x] + b) <==> WellFormed(a + b)
  {
    if WellFormed(a + b) {
      WellFormedGrows(a, x, b);
    }
    if WellFormed(a + [x] + b) {
      WellFormedShrinks(a, x, b);
    }
  }

  lemma {:induction false} WellFormedGrows(a: string, x: char, b: string)
    requires x in SPACERS && WellFormed(a + b)
    ensures WellFormed(a + [x] + b)
  {
    var s, t := a + [x] + b, a + b;
    forall k | 0 <= k < |s|
      ensures s[k] in ALPHABET || s[k] in SPACERS
    {
      if k < |a| {
        assert s[k] == t[k];
      } else if k > |a| {
        assert s[k] == t[k - 1];
      }
    }
  }

  lemma {:induction false} WellFormedShrinks(a: string, x: char, b: string)
    requires |a + b| > 0 && WellFormed(a + [x] + b)
    ensures WellFormed(a + b)
  {
    var s, t := a + [x] + b, a + b;
    forall k | 0 <= k < |t|
      ensures t[k] in ALPHABET || t[k] in SPACERS
    {
      if k < |a| {
        assert t[k] == s[k];
      } else {
        assert t[k] == s[k + 1];
      }
    }
  }

  /** The encoded form of a non-negative value is well formed, and what
      raw_decode keeps of it is the padded base-33 encoding. */
  lemma {:induction false} RawEncodedForm(i: nat)
    ensures WellFormed(RawEncoded(i))
    ensures Remove(RawEncoded(i), SPACERS) == Encoding(ALPHABET, i, MAX_DIGITS)
  {
    var e := Encoding(ALPHABET, i, MAX_DIGITS);
    RawSymbolsNonNegative(i);
    DashesParts(e);
    var a, b, c := e[..|e| - 12], e[|e| - 12..|e| - 6], e[|e| - 6..];
    SymbolsNotSpacers(e);
    DashesSymbols(e, a, b, c);
    RemoveAround3(a, b, c);
  }

  /** The dashed text of symbols a, b, c is well formed. */
  lemma {:induction false} DashesSymbols(e: string, a: string, b: string, c: string)
    requires e == a + (b + c)
    requires forall k :: 0 <= k < |e| ==> e[k] in ALPHABET
    ensures WellFormed(a + ("-" + (b + ("-" + c))))
  {
    var s := a + ("-" + (b + ("-" + c)));
    forall k | 0 <= k < |s|
      ensures s[k] in ALPHABET || s[k] in SPACERS
    {
      if k < |a| {
        assert s[k] == e[k];
      } else if k == |a| {
      } else if k <= |a| + |b| {
        assert s[k] == e[k - 1];
      } else if k == |a| + |b| + 1 {
      } else {
        assert s[k] == e[k - 2];
      }
    }
  }

  /** Removing the two dashes between three runs of symbols. */
  lemma {:induction false} RemoveAround3(a: string, b: string, c: string)
    requires forall k :: 0 <= k < |a + (b + c)| ==> (a + (b + c))[k] !in SPACERS
    ensures Remove(a + ("-" + (b + ("-" + c))), SPACERS) == a + (b + c)
  {
    var e := a + (b + c);
    forall k | 0 <= k < |a| ensures a[k] !in SPACERS { assert a[k] == e[k]; }
    forall k | 0 <= k < |b| ensures b[k] !in SPACERS { assert b[k] == e[|a| + k]; }
    forall k | 0 <= k < |c| ensures c[k] !in SPACERS { assert c[k] == e[|a| + |b| + k]; }
    RemoveNothing(a, SPACERS);
    RemoveNothing(b, SPACERS);
    RemoveNothing(c, SPACERS);
    assert Remove("-", SPACERS) == [];
    RemoveAppend("-", c, SPACERS);
    RemoveAppend(b, "-" + c, SPACERS);
    RemoveAppend("-", b + ("-" + c), SPACERS);
    RemoveAppend(a, "-" + (b + ("-" + c)), SPACERS);
  }

  /** raw_decode inverts raw_encode on every non-negative value. */
  lemma {:induction false} RawRoundTrip(i: nat)
    ensures RawDecoded(RawEncoded(i)) == Ok(i)
  {
    RawEncodedForm(i);
    AlphabetIsAlphabet();
    HornerEncoding(ALPHABET, i, MAX_DIGITS);
  }

  /** A value below 33^18 is written as three groups of six symbols. */
  lemma {:induction false} RawEncodedShape(i: nat)
    requires i < Pow(BASE, MAX_DIGITS)
    ensures var e := Encoding(ALPHABET, i, MAX_DIGITS);
      |e| == MAX_DIGITS && RawEncoded(i) == e[..6] + "-" + e[6..12] + "-" + e[12..]
    ensures |RawEncoded(i)| == MAX_DIGITS + 2
  {
    EncodingWidthExact(i, MAX_DIGITS);
    ShapeOfSymbols(i);
  }

  lemma {:induction false} ShapeOfSymbols(i: nat)
    requires |Encoding(ALPHABET, i, MAX_DIGITS)| == MAX_DIGITS
    ensures var e := Encoding(ALPHABET, i, MAX_DIGITS);
      RawEncoded(i) == e[..6] + "-" + e[6..12] + "-" + e[12..] && |RawEncoded(i)| == MAX_DIGITS + 2
  {
    RawSymbolsNonNegative(i);
    DashesOfEighteen(Encoding(ALPHABET, i, MAX_DIGITS));
  }

  lemma {:induction false} DashesOfEighteen(e: string)
    requires |e| == 18
    ensures Dashes(e) == e[..6] + "-" + e[6..12] + "-" + e[12..]
    ensures |Dashes(e)| == 20
  {
  }

  /** A value below 33^k has exactly k symbols padded to k. */
  lemma {:induction false} EncodingWidthExact(i: nat, k: nat)
    requires k >= 1 && i < Pow(BASE, k)
    ensures |Encoding(ALPHABET, i, k)| == k
  {
    NumDigitsBound(BASE, i, k);
  }

  /** 33^k itself takes a (k+1)th symbol: for k = 18 the longest text the
      overflow check lets through. */
  lemma {:induction false} PowerTakesOneMore(k: nat)
    requires k >= 1
    ensures |Encoding(ALPHABET, Pow(BASE, k), k)| == k + 1
  {
    var n := Pow(BASE, k);
    NumDigitsBound(BASE, n, k);
    NumDigitsBound(BASE, n, k + 1);
    assert Pow(BASE, k + 1) == BASE * n;
  }

  /** A text of spaces and dashes alone is well formed and has the value 0. */
  lemma {:induction false} SpacersOnly(s: string)
    requires |s| > 0 && forall k :: 0 <= k < |s| ==> s[k] in SPACERS
    ensures RawDecoded(s) == Ok(0)
  {
    RemoveAll(s);
  }

  lemma {:induction false} RemoveAll(s: string)
    requires forall k :: 0 <= k < |s| ==> s[k] in SPACERS
    ensures Remove(s, SPACERS) == []
  {
    if s != [] {
      assert forall k :: 0 <= k < |s[1..]| ==> s[1..][k] == s[k + 1];
      RemoveAll(s[1..]);
    }
  }

  /** A text is valid exactly when decode accepts it. */
  lemma {:induction false} IsValidIffDecodes(s: string)
    ensures IsValid(s) <==> Decoded(s).Ok?
  {
  }

  /** A text of dashes alone passes the digit check and decodes to 0. */
  lemma {:induction false} DashesDecodeToZero()
    ensures Decoded("---") == Ok(0)
  {
    SpacersOnly("---");
  }

  /** The empty text and a letter outside the alphabet are malformed. */
  lemma {:induction false} MalformedExamples()
    ensures Decoded("") == Err(MalformedEncoding)
    ensures Decoded("AIA") == Err(MalformedEncoding)
    ensures !IsValid("AIA")
  {
    LetterIOutside();
    assert "AIA"[1] == 'I';
  }
}
