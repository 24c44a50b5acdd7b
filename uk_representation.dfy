/** The encoded form of the current revision: a reference number's value
    with its check digits, written in base 33 over the Representation
    alphabet (digits last), at least as many symbols as the representation
    length, grouped in sixes with '-'. Reading it back removes white space
    and dashes, checks the characters and the length, evaluates the symbols
    and tests the check digits. */
module UkRepresentation {
  import opened Positional
  import opened Errors
  import opened CheckDigits
  import opened Base33

  /** The symbols of the encoding, the symbol for zero first. */
  const ALPHABET: string := "ABCDEFGHJKLMNPQRSTVWXYZ0123456789"
  /** The size of the dash-separated groups of the encoded form */
  const GROUP_SIZE: nat := 6
  /** The representation length unless another is given */
  const DEFAULT_LENGTH: int := 18
  /** Java's \s and the group separator: what the reader removes first. */
  const SEPARATORS: set<char> := {' ', '\t', '\n', '\U{B}', '\U{C}', '\r', '-'}

  /** A reference number's value seen through its representation length. */
  datatype Representation = Representation(value: nat, length: int)

  /** The order of the symbols: letters before digits, each in character order. */
  function SymbolKey(c: char): int
  {
    if c <= '9' then c as int + 100 else c as int
  }

  /** The key of the symbol for digit value d. */
  function SymbolRank(d: int): int
  {
    if d < 8 then 'A' as int + d
    else if d < 13 then 'J' as int + (d - 8)
    else if d < 18 then 'P' as int + (d - 13)
    else if d < 23 then 'V' as int + (d - 18)
    else '0' as int + (d - 23) + 100
  }

  lemma {:induction false} AlphabetRanks1()
    ensures forall d :: 0 <= d < 11 ==> SymbolKey(ALPHABET[d]) == SymbolRank(d)
  {
  }

  lemma {:induction false} AlphabetRanks2()
    ensures forall d :: 11 <= d < 22 ==> SymbolKey(ALPHABET[d]) == SymbolRank(d)
  {
  }

  lemma {:induction false} AlphabetRanks3()
    ensures forall d :: 22 <= d < 33 ==> SymbolKey(ALPHABET[d]) == SymbolRank(d)
  {
  }

  /** The 33 symbols are distinct. */
  lemma {:induction false} AlphabetIsAlphabet()
    ensures IsAlphabet(ALPHABET)
  {
    AlphabetRanks1();
    AlphabetRanks2();
    AlphabetRanks3();
    forall i, j | 0 <= i < j < |ALPHABET|
      ensures ALPHABET[i] != ALPHABET[j]
    {
      assert SymbolRank(i) < SymbolRank(j);
    }
  }

  /** The symbols are letters and digits, above every separator. */
  lemma {:induction false} AlphabetAboveSeparators()
    ensures forall i :: 0 <= i < |ALPHABET| ==> ALPHABET[i] >= '0'
  {
    AlphabetRanks1();
    AlphabetRanks2();
    AlphabetRanks3();
  }

  lemma {:induction false} SymbolAboveSeparators(c: char)
    requires c in ALPHABET
    ensures c >= '0'
  {
    AlphabetAboveSeparators();
  }

  lemma {:induction false} SymbolNotSeparator(c: char)
    requires c in ALPHABET
    ensures c !in SEPARATORS
  {
    SymbolAboveSeparators(c);
  }

  lemma {:induction false} SymbolsNotSeparators(t: string)
    requires forall i :: 0 <= i < |t| ==> t[i] in ALPHABET
    ensures forall i :: 0 <= i < |t| ==> t[i] !in SEPARATORS
  {
    forall i | 0 <= i < |t|
      ensures t[i] !in SEPARATORS
    {
      SymbolNotSeparator(t[i]);
    }
  }

  // ------------------------------------------------------------- encoding

  /** alphabetEncode: the base-33 symbols of nn, least significant produced
      first and put in front, until nothing is left and at least length
      symbols are written. */
  method AlphabetEncode(nn: nat, length: int) returns (s: string)
    ensures s == Encoding(ALPHABET, nn, length)
  {
    var buf: string := "";
    var i: nat := nn;
    EncodeStart(nn, length);
    // the first pass of the do-while is the one where buf is still empty
    while |buf| == 0 || i > 0 || |buf| < length
      invariant Encoded(nn, length, buf, i)
      decreases Width(BASE, nn, length) - |buf|
    {
      EncodeStep(nn, length, buf, i);
      var nextDigitValue := i % BASE;
      i := i / BASE;
      buf := [ALPHABET[nextDigitValue]] + buf;
    }
    EncodeDone(nn, length, buf, i);
    s := buf;
  }

  /** The state of alphabetEncode: buf holds the symbols of the |buf| lowest
      digits of nn, and i what is left of nn. */
  predicate Encoded(nn: nat, length: int, buf: string, i: nat)
  {
    |buf| <= Width(BASE, nn, length) &&
    buf == Symbols(ALPHABET, Digits(BASE, nn, |buf|)) &&
    i == nn / Pow(BASE, |buf|)
  }

  lemma {:induction false} EncodeStart(nn: nat, length: int)
    ensures Encoded(nn, length, "", nn)
  {
    assert Digits(BASE, nn, 0) == [];
  }

  /** One more pass of alphabetEncode puts the next digit's symbol in front. */
  lemma {:induction false} EncodeStep(nn: nat, length: int, buf: string, i: nat)
    requires Encoded(nn, length, buf, i)
    requires |buf| == 0 || i > 0 || |buf| < length
    ensures |buf| < Width(BASE, nn, length)
    ensures Encoded(nn, length, [ALPHABET[i % BASE]] + buf, i / BASE)
  {
    var k := |buf|;
    if i > 0 {
      DivZeroIff(nn, Pow(BASE, k));
      NumDigitsBound(BASE, nn, k);
    }
    DigitsCons(BASE, nn, k);
    SymbolsCons(ALPHABET, i % BASE, Digits(BASE, nn, k));
  }

  /** Once nothing is left and enough symbols are written, all are written. */
  lemma {:induction false} EncodeDone(nn: nat, length: int, buf: string, i: nat)
    requires Encoded(nn, length, buf, i)
    requires |buf| != 0 && i == 0 && |buf| >= length
    ensures buf == Encoding(ALPHABET, nn, length)
  {
    DivZeroIff(nn, Pow(BASE, |buf|));
    NumDigitsBound(BASE, nn, |buf|);
  }

  /** The characters of the group that starts at start. */
  function Slice(d: string, start: nat, groupSize: nat): string
  {
    if start >= |d| then ""
    else if start + groupSize < |d| then d[start..start + groupSize]
    else d[start..]
  }

  /** The text of the first n groups, separated by '-'. */
  function Built(d: string, n: nat, groupSize: nat): string
  {
    if n == 0 then ""
    else Built(d, n - 1, groupSize) + (if n == 1 then "" else "-") +
         Slice(d, (n - 1) * groupSize, groupSize)
  }

  /** The number of groups of len characters: at least one, and as many as
      it takes to reach the end. */
  function Passes(len: nat, groupSize: nat): (n: nat)
    requires groupSize >= 1
    ensures n >= 1
    decreases len
  {
    if len <= groupSize then 1 else 1 + Passes(len - groupSize, groupSize)
  }

  /** Groups of groupSize characters separated by '-', the last one possibly
      shorter; a text of at most one group is left as it is. */
  function Grouped(s: string, groupSize: nat): string
    requires groupSize >= 1
  {
    Built(s, Passes(|s|, groupSize), groupSize)
  }

  /** groupDigits: the do-while appends the separator and the next slice,
      until the groups cover the text. */
  method GroupDigits(digits: string, groupSize: int) returns (r: string)
    requires groupSize >= 1
    ensures r == Grouped(digits, groupSize)
  {
    var buf: string := "";
    var group := 0;
    var sep := "";
    var again := true;
    ghost var written: nat := 0;
    while again
      invariant written == group * groupSize
      invariant buf == Built(digits, group, groupSize)
      invariant group <= Passes(|digits|, groupSize)
      invariant group == 0 ==> again && sep == ""
      invariant group > 0 ==> sep == "-" && again == (written < |digits|)
      decreases |digits| + groupSize - written
    {
      if group > 0 {
        PassesIff(|digits|, groupSize, group);
      }
      var groupStart := group * groupSize;
      var groupEnd := if groupStart + groupSize < |digits| then groupStart + groupSize else |digits|;
      assert digits[groupStart..groupEnd] == Slice(digits, written, groupSize);
      buf := buf + sep + digits[groupStart..groupEnd];
      MulSucc(group, groupSize);
      group := group + 1;
      sep := "-";
      written := written + groupSize;
      again := group * groupSize < |digits|;
    }
    PassesIff(|digits|, groupSize, group);
    r := buf;
  }

  /** n groups cover len characters exactly when n is at least the number of
      groups of len characters. */
  lemma {:induction false} PassesIff(len: nat, groupSize: nat, n: nat)
    requires groupSize >= 1 && n >= 1
    ensures n >= Passes(len, groupSize) <==> n * groupSize >= len
    decreases len
  {
    if len > groupSize && n > 1 {
      PassesIff(len - groupSize, groupSize, n - 1);
      MulSucc(n - 1, groupSize);
    }
  }

  lemma {:induction false} MulSucc(a: int, b: int)
    ensures (a + 1) * b == a * b + b
  {
  }

  /** The encoded form of nn: its checked value encoded and grouped. */
  function EncodedForm(nn: nat, length: int): string
  {
    StripWithCheckDigits(nn);
    Grouped(Encoding(ALPHABET, WithCheckDigits(nn), length), GROUP_SIZE)
  }

  /** getEncodedForm */
  method GetEncodedForm(r: Representation) returns (s: string)
    ensures s == EncodedForm(r.value, r.length)
  {
    StripWithCheckDigits(r.value);
    var cn := WithCheckDigits(r.value);
    var enc := AlphabetEncode(cn, r.length);
    s := GroupDigits(enc, GROUP_SIZE);
  }

  // ------------------------------------------------------------- decoding

  /** replaceAll("[\\s-]", "") */
  function Cleaned(s: string): (r: string)
    ensures forall i :: 0 <= i < |r| ==> r[i] !in SEPARATORS
  {
    Remove(s, SEPARATORS)
  }

  /** checkCheckDigits: an intact value loses its check digits, any other
      value is refused. */
  function CheckCheckDigits(cc: nat): (r: Result<nat>)
    ensures r.Ok? <==> IsIntact(cc)
    ensures r.Ok? ==> r.value == Strip(cc)
    ensures r.Err? ==> r.error == BadCheckDigits
  {
    if IsIntact(cc) then Ok(Strip(cc)) else Err(BadCheckDigits)
  }

  /** What Representation(String, int) hands to the RN constructor: the
      value of the cleaned text once its characters, its length and its check
      digits have passed. */
  function Decoded(encodedRN: string, length: int): Result<nat>
  {
    var cleaned := Cleaned(encodedRN);
    var k := FirstOutside(ALPHABET, cleaned);
    if k >= 0 then Err(IllegalCharacter(cleaned[k]))
    else if |cleaned| > length then Err(TooManyDigits)
    else
      AlphabetIsAlphabet();
      EncodingUnique(ALPHABET, cleaned);
      CheckCheckDigits(Horner(ALPHABET, cleaned))
  }

  /** decodeDecimal: Horner evaluation, one symbol at a time. */
  method DecodeDecimal(encodedForm: string) returns (result: int)
    ensures result == Horner(ALPHABET, encodedForm)
  {
    result := 0;
    var i := 0;
    assert encodedForm[..0] == [];
    while i < |encodedForm|
      invariant 0 <= i <= |encodedForm|
      invariant result == Horner(ALPHABET, encodedForm[..i])
    {
      HornerSnoc(ALPHABET, encodedForm, i);
      var digitValue := IndexOf(ALPHABET, encodedForm[i]);
      result := result * BASE + digitValue;
      i := i + 1;
    }
    assert encodedForm[..i] == encodedForm;
  }

  /** The body of Representation(String, int) up to the RN construction:
      clean, check the characters, check the size, decode. */
  method Decode(encodedRN: string, length: int) returns (r: Result<nat>)
    ensures r == Decoded(encodedRN, length)
  {
    var cleaned := Cleaned(encodedRN);
    var k := FirstOutside(ALPHABET, cleaned);
    if k >= 0 {
      return Err(IllegalCharacter(cleaned[k]));
    }
    if |cleaned| > length {
      return Err(TooManyDigits);
    }
    var cc := DecodeDecimal(cleaned);
    AlphabetIsAlphabet();
    EncodingUnique(ALPHABET, cleaned);
    r := CheckCheckDigits(cc);
  }

  // ------------------------------------------------------------- properties

  /** Removing the separators from the first n groups of separator-free
      text gives the characters they cover. */
  lemma {:induction false} CleanedBuilt(d: string, n: nat, groupSize: nat, covered: nat, reach: nat)
    requires groupSize >= 1
    requires forall i :: 0 <= i < |d| ==> d[i] !in SEPARATORS
    requires covered == n * groupSize
    requires reach == if covered < |d| then covered else |d|
    ensures reach <= |d| && Cleaned(Built(d, n, groupSize)) == d[..reach]
  {
    if n == 0 {
      assert d[..reach] == [];
    } else {
      var start := (n - 1) * groupSize;
      MulSucc(n - 1, groupSize);
      var before := if start < |d| then start else |d|;
      CleanedBuilt(d, n - 1, groupSize, start, before);
      BuiltStep(d, n, groupSize, start, before, reach);
    }
  }

  /** One more group, once cleaned, extends the covered prefix. */
  lemma {:induction false} BuiltStep(d: string, n: nat, groupSize: nat, start: nat, before: nat, reach: nat)
    requires groupSize >= 1 && n >= 1
    requires forall i :: 0 <= i < |d| ==> d[i] !in SEPARATORS
    requires start == (n - 1) * groupSize
    requires before == (if start < |d| then start else |d|)
    requires reach == (if start + groupSize < |d| then start + groupSize else |d|)
    requires Cleaned(Built(d, n - 1, groupSize)) == d[..before]
    ensures Cleaned(Built(d, n, groupSize)) == d[..reach]
  {
    var sep := if n == 1 then "" else "-";
    var slice := Slice(d, start, groupSize);
    assert Built(d, n, groupSize) == Built(d, n - 1, groupSize) + sep + slice;
    SliceRange(d, start, groupSize, before, reach);
    SeparatorFreeSlice(d, before, reach);
    CleanedAppendGroup(Built(d, n - 1, groupSize), sep, slice);
    PrefixConcat(d, before, reach);
  }

  lemma {:induction false} SeparatorFreeSlice(d: string, a: nat, b: nat)
    requires a <= b <= |d|
    requires forall i :: 0 <= i < |d| ==> d[i] !in SEPARATORS
    ensures forall i :: 0 <= i < b - a ==> d[a..b][i] !in SEPARATORS
  {
  }

  /** Appending a separator and a separator-free group appends the group to
      the cleaned text. */
  lemma {:induction false} CleanedAppendGroup(prev: string, sep: string, slice: string)
    requires sep == "" || sep == "-"
    requires forall i :: 0 <= i < |slice| ==> slice[i] !in SEPARATORS
    ensures Cleaned(prev + sep + slice) == Cleaned(prev) + slice
  {
    RemoveAppend(prev + sep, slice, SEPARATORS);
    RemoveAppend(prev, sep, SEPARATORS);
    assert Remove(sep, SEPARATORS) == "";
    RemoveNothing(slice, SEPARATORS);
  }

  /** A group is the characters between the ends of the prefixes before and
      after it. */
  lemma {:induction false} SliceRange(d: string, start: nat, groupSize: nat, before: nat, reach: nat)
    requires before == (if start < |d| then start else |d|)
    requires reach == (if start + groupSize < |d| then start + groupSize else |d|)
    ensures before <= reach <= |d| && Slice(d, start, groupSize) == d[before..reach]
  {
  }

  lemma {:induction false} PrefixConcat<T>(d: seq<T>, a: nat, b: nat)
    requires a <= b <= |d|
    ensures d[..a] + d[a..b] == d[..b]
  {
  }

  lemma {:induction false} CleanedGrouped(s: string, groupSize: nat)
    requires groupSize >= 1
    requires forall i :: 0 <= i < |s| ==> s[i] !in SEPARATORS
    ensures Cleaned(Grouped(s, groupSize)) == s
  {
    var n := Passes(|s|, groupSize);
    PassesIff(|s|, groupSize, n);
    CleanedBuilt(s, n, groupSize, n * groupSize, |s|);
    assert s[..|s|] == s;
  }

  /** The first n groups hold characters of the text and dashes. */
  lemma {:induction false} BuiltSymbols(d: string, n: nat, groupSize: nat)
    ensures forall i :: 0 <= i < |Built(d, n, groupSize)| ==>
      Built(d, n, groupSize)[i] == '-' || Built(d, n, groupSize)[i] in d
  {
    if n > 0 {
      BuiltSymbols(d, n - 1, groupSize);
      var front := Built(d, n - 1, groupSize) + (if n == 1 then "" else "-");
      var slice := Slice(d, (n - 1) * groupSize, groupSize);
      assert forall i :: 0 <= i < |front| ==> front[i] == '-' || front[i] in d;
      assert forall i :: 0 <= i < |slice| ==> slice[i] in d;
      ConcatSymbols(front, slice, d);
    }
  }

  lemma {:induction false} ConcatSymbols(a: string, b: string, d: string)
    requires forall i :: 0 <= i < |a| ==> a[i] == '-' || a[i] in d
    requires forall i :: 0 <= i < |b| ==> b[i] in d
    ensures forall i :: 0 <= i < |a + b| ==> (a + b)[i] == '-' || (a + b)[i] in d
  {
    forall i | 0 <= i < |a + b|
      ensures (a + b)[i] == '-' || (a + b)[i] in d
    {
      if i < |a| {
        assert (a + b)[i] == a[i];
      } else {
        assert (a + b)[i] == b[i - |a|];
      }
    }
  }

  lemma {:induction false} GroupedSymbols(s: string, groupSize: nat)
    requires groupSize >= 1
    ensures forall i :: 0 <= i < |Grouped(s, groupSize)| ==>
      Grouped(s, groupSize)[i] == '-' || Grouped(s, groupSize)[i] in s
  {
    BuiltSymbols(s, Passes(|s|, groupSize), groupSize);
  }

  /** The encoded symbols of a checked value that fits the length. */
  lemma {:induction false} EncodingFits(nn: nat, length: int)
    requires length >= 1 && NumDigits(BASE, WithCheckDigits(nn)) <= length
    ensures WithCheckDigits(nn) >= 0
    ensures var e := Encoding(ALPHABET, WithCheckDigits(nn), length);
      |e| == length && FirstOutside(ALPHABET, e) == -1 &&
      Horner(ALPHABET, e) == WithCheckDigits(nn) &&
      Cleaned(Grouped(e, GROUP_SIZE)) == e
  {
    StripWithCheckDigits(nn);
    AlphabetIsAlphabet();
    var e := Encoding(ALPHABET, WithCheckDigits(nn), length);
    HornerEncoding(ALPHABET, WithCheckDigits(nn), length);
    SymbolsNotSeparators(e);
    CleanedGrouped(e, GROUP_SIZE);
  }

  /** Reading back an encoded form gives the value again, whenever its
      checked value fits the representation length. */
  lemma {:induction false} DecodeEncodedForm(nn: nat, length: int)
    requires length >= 1 && NumDigits(BASE, WithCheckDigits(nn)) <= length
    ensures Decoded(EncodedForm(nn, length), length) == Ok(nn)
  {
    EncodingFits(nn, length);
    WithCheckDigitsIntact(nn);
    StripWithCheckDigits(nn);
  }

  /** Eighteen symbols make three groups of six. */
  lemma {:induction false} EncodedFormShape(e: string)
    requires |e| == 18
    ensures Grouped(e, GROUP_SIZE) == e[..6] + "-" + e[6..12] + "-" + e[12..]
    ensures |Grouped(e, GROUP_SIZE)| == 20
  {
    assert Passes(18, 6) == 3;
    assert Built(e, 1, 6) == e[..6];
    assert Built(e, 2, 6) == e[..6] + "-" + e[6..12];
  }

  /** Every value of the 24-digit decimal form has an encoded form of three
      groups of six symbols that reads back to it. */
  lemma {:induction false} DefaultRoundTrip(nn: nat)
    requires nn < Pow(10, 24)
    ensures |EncodedForm(nn, DEFAULT_LENGTH)| == 20
    ensures Decoded(EncodedForm(nn, DEFAULT_LENGTH), DEFAULT_LENGTH) == Ok(nn)
  {
    DefaultFits(nn);
    DecodeEncodedForm(nn, DEFAULT_LENGTH);
    DefaultEncodedLength(nn);
  }

  /** A 24-digit value with its check digits has at most 18 symbols. */
  lemma {:induction false} DefaultFits(nn: nat)
    requires nn < Pow(10, 24)
    ensures NumDigits(BASE, WithCheckDigits(nn)) <= DEFAULT_LENGTH
  {
    CheckedValueFits(nn);
    StripWithCheckDigits(nn);
    NumDigitsBound(BASE, WithCheckDigits(nn), MAX_DIGITS);
  }

  lemma {:induction false} DefaultEncodedLength(nn: nat)
    requires NumDigits(BASE, WithCheckDigits(nn)) <= DEFAULT_LENGTH
    ensures |EncodedForm(nn, DEFAULT_LENGTH)| == 20
  {
    EncodingFits(nn, DEFAULT_LENGTH);
    EncodedFormShape(Encoding(ALPHABET, WithCheckDigits(nn), DEFAULT_LENGTH));
  }

  /** A single symbol of an encoded form replaced by a different symbol of
      the alphabet is always refused for its check digits; a dash replaced
      by a symbol makes the text too long. */
  lemma {:induction false} DecodeRejectsSubstitution(nn: nat, length: int, q: nat, c: char)
    requires length >= 1 && NumDigits(BASE, WithCheckDigits(nn)) <= length
    requires q < |EncodedForm(nn, length)| && c in ALPHABET
    requires c != EncodedForm(nn, length)[q]
    ensures EncodedForm(nn, length)[q] != '-' ==>
      Decoded(EncodedForm(nn, length)[q := c], length) == Err(BadCheckDigits)
    ensures EncodedForm(nn, length)[q] == '-' ==>
      Decoded(EncodedForm(nn, length)[q := c], length) == Err(TooManyDigits)
  {
    if EncodedForm(nn, length)[q] == '-' {
      DashReplaced(nn, length, q, c);
    } else {
      SymbolReplaced(nn, length, q, c);
    }
  }

  lemma {:induction false} DashReplaced(nn: nat, length: int, q: nat, c: char)
    requires length >= 1 && NumDigits(BASE, WithCheckDigits(nn)) <= length
    requires q < |EncodedForm(nn, length)| && c in ALPHABET
    requires EncodedForm(nn, length)[q] == '-'
    ensures Decoded(EncodedForm(nn, length)[q := c], length) == Err(TooManyDigits)
  {
    EncodingFits(nn, length);
    EncodedFormSymbols(nn, length);
    SubstitutedDash(EncodedForm(nn, length), Encoding(ALPHABET, WithCheckDigits(nn), length), q, c, length);
  }

  lemma {:induction false} SymbolReplaced(nn: nat, length: int, q: nat, c: char)
    requires length >= 1 && NumDigits(BASE, WithCheckDigits(nn)) <= length
    requires q < |EncodedForm(nn, length)| && c in ALPHABET
    requires c != EncodedForm(nn, length)[q] && EncodedForm(nn, length)[q] != '-'
    ensures Decoded(EncodedForm(nn, length)[q := c], length) == Err(BadCheckDigits)
  {
    EncodingFits(nn, length);
    EncodedFormSymbols(nn, length);
    WithCheckDigitsIntact(nn);
    SubstitutedSymbol(EncodedForm(nn, length), Encoding(ALPHABET, WithCheckDigits(nn), length), q, c, length);
  }

  /** An encoded form is made of alphabet symbols and dashes. */
  lemma {:induction false} EncodedFormSymbols(nn: nat, length: int)
    ensures var s := EncodedForm(nn, length);
      forall i :: 0 <= i < |s| ==> s[i] == '-' || s[i] in ALPHABET
  {
    StripWithCheckDigits(nn);
    var e := Encoding(ALPHABET, WithCheckDigits(nn), length);
    var s := EncodedForm(nn, length);
    GroupedSymbols(e, GROUP_SIZE);
    forall i | 0 <= i < |s|
      ensures s[i] == '-' || s[i] in ALPHABET
    {
      if s[i] != '-' {
        var j :| 0 <= j < |e| && e[j] == s[i];
      }
    }
  }

  /** A dash of a grouped text of length symbols replaced by a symbol. */
  lemma {:induction false} SubstitutedDash(s: string, e: string, q: nat, c: char, length: int)
    requires q < |s| && s[q] == '-' && c in ALPHABET
    requires Cleaned(s) == e && |e| == length
    requires forall i :: 0 <= i < |s| ==> s[i] == '-' || s[i] in ALPHABET
    ensures Decoded(s[q := c], length) == Err(TooManyDigits)
  {
    SymbolNotSeparator(c);
    var t := s[q := c];
    RemoveUpdateDropped(s, q, c, SEPARATORS);
    assert forall i :: 0 <= i < |t| ==> t[i] == '-' || t[i] in ALPHABET;
    CleanedSymbols(t);
  }

  /** A symbol of a grouped intact text replaced by another symbol. */
  lemma {:induction false} SubstitutedSymbol(s: string, e: string, q: nat, c: char, length: int)
    requires q < |s| && s[q] != '-' && c in ALPHABET && c != s[q]
    requires Cleaned(s) == e && |e| <= length && FirstOutside(ALPHABET, e) == -1
    requires forall i :: 0 <= i < |s| ==> s[i] == '-' || s[i] in ALPHABET
    requires IsIntact(Horner(ALPHABET, e))
    ensures Decoded(s[q := c], length) == Err(BadCheckDigits)
  {
    SymbolNotSeparator(c);
    SymbolNotSeparator(s[q]);
    RemoveUpdate(s, q, c, SEPARATORS);
    var p := |Remove(s[..q], SEPARATORS)|;
    AlphabetIsAlphabet();
    SubstitutionBreaksCheck(ALPHABET, e, p, c);
    UpdateKeepsSymbols(e, p, c);
  }

  lemma {:induction false} UpdateKeepsSymbols(e: string, p: nat, c: char)
    requires p < |e| && c in ALPHABET && FirstOutside(ALPHABET, e) == -1
    ensures FirstOutside(ALPHABET, e[p := c]) == -1
  {
    assert forall i :: 0 <= i < |e| ==> e[i] in ALPHABET;
  }

  /** Text made of dashes and alphabet symbols is made of alphabet symbols
      once cleaned. */
  lemma {:induction false} CleanedSymbols(t: string)
    requires forall i :: 0 <= i < |t| ==> t[i] == '-' || t[i] in ALPHABET
    ensures FirstOutside(ALPHABET, Cleaned(t)) == -1
  {
    var r := Cleaned(t);
    RemoveKeeps(t, SEPARATORS);
    forall j | 0 <= j < |r|
      ensures r[j] in ALPHABET
    {
      assert r[j] in t && r[j] != '-';
    }
  }

  /** alphabetEncode pads with the zero symbol 'A': 0, 32 and 33 in 18
      symbols. */
  lemma {:induction false} EncodingOfZero()
    ensures Encoding(ALPHABET, 0, DEFAULT_LENGTH) == "AAAAAAAAAAAAAAAAAA"
  {
    assert NumDigits(BASE, 0) == 0;
    DigitsOfZero(BASE, 18);
  }

  lemma {:induction false} EncodingOfLargestDigit()
    ensures Encoding(ALPHABET, 32, DEFAULT_LENGTH) == "AAAAAAAAAAAAAAAAA9"
  {
    assert NumDigits(BASE, 32) == 1 + NumDigits(BASE, 0) == 1;
    DigitsOfZero(BASE, 17);
    assert Digits(BASE, 32, 18) == Digits(BASE, 0, 17) + [32];
  }

  lemma {:induction false} EncodingOfBase()
    ensures Encoding(ALPHABET, 33, DEFAULT_LENGTH) == "AAAAAAAAAAAAAAAABA"
  {
    assert NumDigits(BASE, 33) == 1 + NumDigits(BASE, 1) && NumDigits(BASE, 1) == 1 + NumDigits(BASE, 0);
    DigitsOfZero(BASE, 16);
    assert Digits(BASE, 33, 18) == Digits(BASE, 1, 17) + [0];
    assert Digits(BASE, 1, 17) == Digits(BASE, 0, 16) + [1];
  }

  /** decodeDecimal reads "10" as 24 * 33 + 23: '1' is the symbol for 24 and
      '0' the one for 23. */
  lemma {:induction false} DecodeDecimalExample()
    ensures Horner(ALPHABET, "10") == 815
  {
    AlphabetIsAlphabet();
    assert ALPHABET[24] == '1' && ALPHABET[23] == '0';
    TwoSymbols(ALPHABET, '1', '0', 24, 23);
  }

  /** The value of a two-symbol text, for any alphabet. */
  lemma {:induction false} TwoSymbols(abc: string, c: char, e: char, d: nat, f: nat)
    requires IsAlphabet(abc) && d < BASE && f < BASE && abc[d] == c && abc[f] == e
    ensures Horner(abc, [c, e]) == d * BASE + f
  {
    IndexOfSymbol(abc, d);
    IndexOfSymbol(abc, f);
    var ds := Indices(abc, [c, e]);
    assert ds == [d, f];
    assert ds[..1] == [d] && [d][..0] == [];
    assert Value(BASE, [d]) == d;
    assert Value(BASE, ds) == Value(BASE, [d]) * BASE + f;
  }

  /** A checked value plus one is refused. */
  lemma {:induction false} CheckDigitsExample()
    ensures CheckCheckDigits(WithCheckDigits(789)) == Ok(789)
    ensures CheckCheckDigits(WithCheckDigits(789) + 1) == Err(BadCheckDigits)
  {
    WithCheckDigitsIntact(789);
    StripWithCheckDigits(789);
  }
}
