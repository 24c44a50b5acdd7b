# fsa-rn reference numbers, modelled in Dafny

The Food Standards Agency's reference-number library issues an identifier
for each record. An identifier is made of four things:

- an issuing authority (1000-9999);
- a service instance (0-9);
- a reference-number type (0-99);
- the UTC millisecond at which it was issued, in the years 2000-9999.

The four are packed into one 24-digit decimal number with the layout
`uuuaaaaittyyyyMMddhhmmss`, where `uuu` is the millisecond. To that number
the library adds two mod-1087 check digits: the checked value is
`nn * 1089 + (1087 - (nn * 2) mod 1087)`. The checked value is written in
base 33 over an alphabet without I, O and U: 18 symbols, grouped in sixes
with dashes. Reading an encoded form back removes white space and dashes,
checks the characters and the length, evaluates the symbols, tests the check
digits, and re-reads the identifying fields from the decimal form.

The repository holds two revisions, and both are modelled:

- **current** (`uk.gov.food.rn`):
  - `Representation`: the encoder and decoder, with digits last in the alphabet;
  - `Codec`: a second codec with bounds checks, with digits `1..9,0` last;
  - `RN`: an immutable value;
  - `RNFactory`: a registry of factories keyed by `hashCode`;
  - `Authority`, `Instance`, `Type`, `Version`, `TimeStamp`: validated fields.
- **older** (`com.epimorphics.fsa.rn`):
  - `Codec`: the same encoding without bounds, whose prime comes from a sieve of Eratosthenes;
  - `RN`: a mutable object that caches its decimal value and encoded string;
  - `RNFactory`: takes raw `int` fields, checks them, and files factories under an arithmetic key;
  - `Authority`: has no `equals`;
  - `Instant`: an instant whose year is checked in its own time zone.

Modules:

- Shared:
  - `Positional`: base-b digits and Horner evaluation;
  - `DecimalText`: Java's `%0wd`, `new BigInteger(String)`, `Integer.parseInt` and `String.compareTo`;
  - `CheckDigits`;
  - `Base33`: symbol values and the padded encoding over any 33-symbol alphabet;
  - `CivilTime`: Gregorian UTC fields;
  - `PackedLayout`: the 24-digit layout;
  - `CodecForm`: the raw encode and decode loops and the validation that both `Codec` classes share;
  - `Clock`;
  - `Errors`.
- Current revision: `UkFields`, `UkRepresentation`, `UkCodec`, `UkRN`, `UkRNFactory`.
- Older revision: `ComAuthority`, `ComInstant`, `ComCodec`, `ComRN`, `ComRNFactory`.

How the Java code is represented:

- Loops are `method`s proved equal to a specification function:
  - `alphabetEncode`;
  - `groupDigits`;
  - `decodeDecimal`;
  - `raw_encode` and `raw_decode`;
  - the sieve, which works on an `array`;
  - the factories' clock-wait loop.
- Objects whose fields the source updates are classes:
  - the older `RN` with its cache;
  - factories with `prev`;
  - registries with their map;
  - the clock.
- Every exception is an `Err` value of `Errors.Error`. Each error keeps the
  one detail that matters, such as the offending character, year or
  identifier.

## Model

| member | source | states |
|---|---|---|
| UkRepresentation.AlphabetIsAlphabet | java-rn/src/main/java/uk/gov/food/rn/Representation.java:18-21 | the alphabet has 33 pairwise distinct symbols |
| UkRepresentation.AlphabetEncode | java-rn/src/main/java/uk/gov/food/rn/Representation.java:133-145 | the loop returns the base-33 digits of nn, most significant first, left-padded with the zero symbol to at least `length` symbols |
| UkRepresentation.GroupDigits | java-rn/src/main/java/uk/gov/food/rn/Representation.java:154-171 | the loop returns the digits cut into groups of `groupSize` joined by '-' |
| UkRepresentation.CleanedGrouped | java-rn/src/main/java/uk/gov/food/rn/Representation.java:154-171 | removing the separators from grouped separator-free text gives the text back |
| UkRepresentation.GroupedSymbols | java-rn/src/main/java/uk/gov/food/rn/Representation.java:154-171 | grouping adds nothing but dashes |
| UkRepresentation.EncodedFormShape | java-rn/src/main/java/uk/gov/food/rn/Representation.java:154-171 | 18 symbols are grouped as 6-6-6, giving a 20-character text |
| UkRepresentation.GetEncodedForm | java-rn/src/main/java/uk/gov/food/rn/Representation.java:89-94 | the encoded form is the grouped, padded encoding of the value with its check digits |
| UkRepresentation.CheckCheckDigits | java-rn/src/main/java/uk/gov/food/rn/Representation.java:229-236 | succeeds exactly for intact values and then returns them without their check digits; otherwise BadCheckDigits |
| UkRepresentation.DecodeDecimal | java-rn/src/main/java/uk/gov/food/rn/Representation.java:209-218 | the loop returns the Horner value of the symbols, so an unknown symbol counts as -1 |
| UkRepresentation.Decode | java-rn/src/main/java/uk/gov/food/rn/Representation.java:68-77 | the reader removes white space and dashes; then the first character outside the alphabet is reported, then more than `length` symbols, then the check digits; otherwise the value is returned |
| UkRepresentation.DecodeEncodedForm | java-rn/src/main/java/uk/gov/food/rn/Representation.java:42-77 | reading back the encoded form of any value whose checked value fits `length` symbols gives that value |
| UkRepresentation.DefaultRoundTrip | java-rn/src/main/java/uk/gov/food/rn/Representation.java:42-77 | every 24-digit value has a 20-character default encoded form that decodes back to it |
| UkRepresentation.DefaultFits | java-rn/src/main/java/uk/gov/food/rn/Representation.java:42-57 | the checked value of every 24-digit value fits in 18 symbols |
| UkRepresentation.DecodeRejectsSubstitution | java-rn/src/main/java/uk/gov/food/rn/Representation.java:177-236 | replacing one character of an encoded form with a different alphabet symbol is always refused: a replaced symbol fails the check digits, a replaced dash gives too many digits |
| UkRepresentation.EncodedFormSymbols | java-rn/src/main/java/uk/gov/food/rn/Representation.java:89-94 | an encoded form holds only alphabet symbols and dashes |
| UkRepresentation.EncodingOfZero | java-rn/src/main/java/uk/gov/food/rn/Representation.java:133-145 | 0 encodes as eighteen 'A's |
| UkRepresentation.EncodingOfLargestDigit | java-rn/src/main/java/uk/gov/food/rn/Representation.java:133-145 | 32 encodes as seventeen 'A's and '9' |
| UkRepresentation.EncodingOfBase | java-rn/src/main/java/uk/gov/food/rn/Representation.java:133-145 | 33 encodes as sixteen 'A's and "BA" |
| UkRepresentation.DecodeDecimalExample | java-rn/src/main/java/uk/gov/food/rn/Representation.java:209-218 | "10" evaluates to 24 * 33 + 23 = 815 |
| UkRepresentation.CheckDigitsExample | java-rn/src/main/java/uk/gov/food/rn/Representation.java:229-236 | withCheckDigits(789) passes the check and gives 789 back; one more is refused |
| CheckDigits.CheckDigitsOf | java-rn/src/main/java/uk/gov/food/rn/Representation.java:122-126 | the check digits form one number in 1..1087 |
| CheckDigits.WithCheckDigits | java-rn/src/main/java/uk/gov/food/rn/Representation.java:122-126 | withCheckDigits, nn * 1089 plus the check digits; it has no contract of its own: CheckDigits.WithCheckDigitsIntact proves every result a multiple of 1087 and CheckDigits.StripWithCheckDigits that Strip recovers nn |
| CheckDigits.Strip | java-rn/src/main/java/uk/gov/food/rn/Representation.java:229-232 | the division by 1089 that checkCheckDigits applies to an intact value; no contract of its own: CheckDigits.StripWithCheckDigits proves it inverts WithCheckDigits |
| CheckDigits.ResidualCongruence | java-rn/src/main/java/uk/gov/food/rn/Representation.java:24-30 | the residual is 2, congruent to 33^2 modulo 1087 |
| CheckDigits.WithCheckDigitsIntact | java-rn/src/main/java/uk/gov/food/rn/Representation.java:122-126 | every value with its check digits added is a multiple of 1087 |
| CheckDigits.StripWithCheckDigits | java-rn/src/main/java/uk/gov/food/rn/Representation.java:122-126 | dividing a checked value by 1089 gives the value back; the checked value is larger |
| CheckDigits.NegativeWithCheckDigits | java-rn/src/main/java/com/epimorphics/fsa/rn/Codec.java:88-95 | a negative value has a negative checked value |
| CheckDigits.CheckedValueFits | java-rn/src/main/java/uk/gov/food/rn/Codec.java:21-22 | the checked value of any 24-digit value is below 33^18 |
| CheckDigits.LimitNotIntact | java-rn/src/main/java/uk/gov/food/rn/Codec.java:160-163 | 33^18 itself fails the check |
| CheckDigits.SubstitutionDetected | java-rn/src/main/java/uk/gov/food/rn/Representation.java:229-236 | changing one base-33 digit of an intact value always breaks the check |
| Base33.IndexOf | java-rn/src/main/java/uk/gov/food/rn/Representation.java:209-218 | String.indexOf: the first position of the character, or -1 exactly when it is absent |
| Base33.HornerEncoding | java-rn/src/main/java/uk/gov/food/rn/Representation.java:133-145 | evaluating the encoding of n gives n back |
| Base33.EncodingPadding | java-rn/src/main/java/uk/gov/food/rn/Representation.java:133-145 | the symbols before the significant digits are the zero symbol |
| Base33.EncodingUnique | java-rn/src/main/java/uk/gov/food/rn/Representation.java:209-218 | a text of alphabet symbols is the padded encoding of its own value |
| Base33.SubstitutionBreaksCheck | java-rn/src/main/java/uk/gov/food/rn/Representation.java:229-236 | replacing one symbol of a text whose value is intact gives one that is not |
| UkCodec.RawEncodeResult | java-rn/src/main/java/uk/gov/food/rn/Codec.java:82-108 | ok exactly for 0 <= i <= 33^18, with NegativeValue and NumericOverflow otherwise; an ok text raw-decodes to i |
| UkCodec.RawEncode | java-rn/src/main/java/uk/gov/food/rn/Codec.java:82-108 | the method computes RawEncodeResult |
| UkCodec.Encoded | java-rn/src/main/java/uk/gov/food/rn/Codec.java:62-70 | ok exactly when i >= 0 and its checked value is at most 33^18, with the matching errors |
| UkCodec.Encode | java-rn/src/main/java/uk/gov/food/rn/Codec.java:62-70 | the method computes Encoded |
| UkCodec.DecodeEncode | java-rn/src/main/java/uk/gov/food/rn/Codec.java:120-126 | decode(encode(i)) == i whenever encode succeeds |
| UkCodec.PackedValuesEncode | java-rn/src/main/java/uk/gov/food/rn/Codec.java:62-70 | every 24-digit value encodes |
| UkCodec.EncodedShape | java-rn/src/main/java/uk/gov/food/rn/Codec.java:82-108 | an encoded value is 18 symbols grouped 6-6-6, 20 characters |
| UkCodec.IntactBelowLimit | java-rn/src/main/java/uk/gov/food/rn/Codec.java:160-163 | an intact value at most 33^18 is below it, so the upper bound of isValid never rejects an intact value |
| CodecForm.AlphabetIsAlphabet | java-rn/src/main/java/uk/gov/food/rn/Codec.java:17 | the codec alphabet has 33 distinct symbols |
| CodecForm.LetterIOutside | java-rn/src/main/java/uk/gov/food/rn/Codec.java:17 | 'I' is not a symbol |
| CodecForm.RawEncodeLoop | java-rn/src/main/java/uk/gov/food/rn/Codec.java:82-108 | the loop returns at least 18 symbols of i (BigInteger mod and divide), with a dash before the 6th and 12th symbols from the right |
| CodecForm.RawEncodedForm | java-rn/src/main/java/uk/gov/food/rn/Codec.java:82-108 | for i >= 0 the raw text is well formed and, without its dashes, is the 18-symbol padded encoding |
| CodecForm.RawEncodedShape | java-rn/src/main/java/uk/gov/food/rn/Codec.java:82-108 | below 33^18 the raw text is 6-6-6 with two dashes |
| CodecForm.PowerTakesOneMore | java-rn/src/main/java/com/epimorphics/fsa/rn/Codec.java:106-122 | 33^k takes k+1 symbols |
| CodecForm.RawDecoded | java-rn/src/main/java/uk/gov/food/rn/Codec.java:137-151 | fails with MalformedEncoding exactly when the text is empty or holds a character other than a symbol, a space or a dash |
| CodecForm.RawDecode | java-rn/src/main/java/uk/gov/food/rn/Codec.java:137-151 | the loop computes RawDecoded |
| CodecForm.RawRoundTrip | java-rn/src/main/java/uk/gov/food/rn/Codec.java:82-151 | raw_decode(raw_encode(i)) == i for every i >= 0 |
| CodecForm.SpacerIgnored | java-rn/src/main/java/uk/gov/food/rn/Codec.java:137-151 | inserting a space or a dash into a non-empty text does not change what it decodes to |
| CodecForm.WellFormedInsert | java-rn/src/main/java/uk/gov/food/rn/Codec.java:137-151 | a spacer inserted into a non-empty text keeps it well formed and malformed alike |
| CodecForm.SpacersOnly | java-rn/src/main/java/uk/gov/food/rn/Codec.java:137-151 | a text of spaces and dashes only decodes to 0 |
| CodecForm.IsValidValue | java-rn/src/main/java/com/epimorphics/fsa/rn/Codec.java:162-165 | isValid(BigInteger) holds exactly for multiples of 1087 |
| CodecForm.Decoded | java-rn/src/main/java/uk/gov/food/rn/Codec.java:120-126 | a malformed text fails; an intact raw value loses its check digits; any other fails the digit check |
| CodecForm.Decode | java-rn/src/main/java/com/epimorphics/fsa/rn/Codec.java:124-130 | the method computes Decoded |
| CodecForm.IsValid | java-rn/src/main/java/uk/gov/food/rn/Codec.java:171-178 | a malformed text is never valid |
| CodecForm.IsValidText | java-rn/src/main/java/com/epimorphics/fsa/rn/Codec.java:167-174 | the method computes IsValid |
| CodecForm.IsValidIffDecodes | java-rn/src/main/java/uk/gov/food/rn/Codec.java:171-178 | isValid(String) holds exactly when decode succeeds |
| CodecForm.DashesDecodeToZero | java-rn/src/main/java/uk/gov/food/rn/Codec.java:137-151 | "---" decodes to 0 |
| CodecForm.MalformedExamples | java-rn/src/main/java/uk/gov/food/rn/Codec.java:137-151 | "" and "AIA" are malformed and not valid |
| ComCodec.Encode | java-rn/src/main/java/com/epimorphics/fsa/rn/Codec.java:88-95 | the method computes Encoded, the raw text of the checked value |
| ComCodec.DecodeEncode | java-rn/src/main/java/com/epimorphics/fsa/rn/Codec.java:88-130 | decode(encode(i)) == i for every i >= 0 |
| ComCodec.EncodedLength | java-rn/src/main/java/com/epimorphics/fsa/rn/Codec.java:106-122 | 20 characters when the checked value is below 33^18, more otherwise |
| ComCodec.NegativeEncodedLength | java-rn/src/main/java/com/epimorphics/fsa/rn/Codec.java:106-122 | a negative value still encodes, as 18 symbols and two dashes |
| ComCodec.SieveOfEratosthenes | java-rn/src/main/java/com/epimorphics/fsa/rn/Codec.java:193-210 | the sieve over a boolean array returns PrimesUpTo(n) |
| ComCodec.PrimesUpToMembers | java-rn/src/main/java/com/epimorphics/fsa/rn/Codec.java:193-210 | the list holds exactly the primes 2..n |
| ComCodec.PrimesUpToAscending | java-rn/src/main/java/com/epimorphics/fsa/rn/Codec.java:193-210 | the list is strictly ascending |
| ComCodec.LargestPrimeBelow | java-rn/src/main/java/com/epimorphics/fsa/rn/Codec.java:182-185 | the method returns the last entry of the sieve up to the limit |
| ComCodec.LargestPrimeUpTo | java-rn/src/main/java/com/epimorphics/fsa/rn/Codec.java:182-185 | the specification of largestPrimeBelow, the last prime of the sieve up to the limit; no contract of its own: ComCodec.LargestPrimeUpToIsLargest proves it none below 2 and otherwise the largest prime at most the limit |
| ComCodec.LargestPrimeUpToIsLargest | java-rn/src/main/java/com/epimorphics/fsa/rn/Codec.java:182-185 | none exactly below 2; otherwise a prime, at most the limit, and no prime up to the limit is larger |
| ComCodec.PrimeIsPrime | java-rn/src/main/java/com/epimorphics/fsa/rn/Codec.java:53 | 1087 is prime |
| ComCodec.SievedPrime | java-rn/src/main/java/com/epimorphics/fsa/rn/Codec.java:53-56 | the prime computed from 33^2 is 1087, and the residual is 2 |
| ComCodec.LimitIncluded | java-rn/src/main/java/com/epimorphics/fsa/rn/Codec.java:182-185 | as written, a prime limit is returned itself |
| ComCodec.StrictlyBelowIsLargest | java-rn/src/main/java/com/epimorphics/fsa/rn/Codec.java:182-185 | the corrected search: none exactly below 3; otherwise the largest prime strictly below the limit |
| ComCodec.LargestPrimeStrictlyBelow | java-rn/src/main/java/com/epimorphics/fsa/rn/Codec.java:182-185 | the corrected search, the sieve up to limit - 1; no contract of its own: ComCodec.StrictlyBelowIsLargest proves it none below 3 and otherwise the largest prime strictly below the limit |
| ComCodec.StrictlyBelowExamples | java-rn/src/main/java/com/epimorphics/fsa/rn/Codec.java:182-185 | both searches give 1087 for 1089; for 1087 only the corrected one answers below it |
| UkFields.NewAuthority | java-rn/src/main/java/uk/gov/food/rn/Authority.java:32-41 | ok iff 1000 <= id <= 9999, keeping the id; otherwise AuthorityOutOfRange(id) |
| UkFields.IsValidAuthorityId | java-rn/src/main/java/uk/gov/food/rn/Authority.java:61-63 | isValidIdentifier, 1000 <= id <= 9999; no contract of its own: UkFields.NewAuthority accepts exactly these ids |
| UkFields.AuthorityFromString | java-rn/src/main/java/uk/gov/food/rn/Authority.java:49-51 | NumberFormat when parseInt fails; otherwise as NewAuthority of the parsed number |
| UkFields.AuthorityEquals | java-rn/src/main/java/uk/gov/food/rn/Authority.java:77-79 | equal exactly when the ids are equal |
| UkFields.AuthorityHash | java-rn/src/main/java/uk/gov/food/rn/Authority.java:81-84 | hashCode, the id itself; no contract of its own: UkFields.AuthorityHashMatchesEquals proves equal hashes exactly for equal authorities |
| UkFields.AuthorityHashMatchesEquals | java-rn/src/main/java/uk/gov/food/rn/Authority.java:77-84 | equal hash codes exactly for equal authorities |
| UkFields.AuthorityExamples | java-rn/src/main/java/uk/gov/food/rn/Authority.java:32-51 | 1000 is accepted and 100 refused, from int and from String |
| UkFields.AuthorityFromStringExample | java-rn/src/main/java/uk/gov/food/rn/Authority.java:49-51 | "2222" gives authority 2222 |
| UkFields.NewInstance | java-rn/src/main/java/uk/gov/food/rn/Instance.java:37-46 | ok iff 0 <= id <= 9; otherwise InstanceOutOfRange(id) |
| UkFields.IsValidInstanceId | java-rn/src/main/java/uk/gov/food/rn/Instance.java:64-66 | isValidIdentifier, 0 <= id <= 9; no contract of its own: UkFields.NewInstance accepts exactly these ids |
| UkFields.InstanceFromString | java-rn/src/main/java/uk/gov/food/rn/Instance.java:54-56 | NumberFormat when parseInt fails; otherwise as NewInstance |
| UkFields.InstanceEquals | java-rn/src/main/java/uk/gov/food/rn/Instance.java:79-82 | equal exactly when the ids are equal |
| UkFields.InstanceHash | java-rn/src/main/java/uk/gov/food/rn/Instance.java:83-86 | hashCode, the id itself; no contract of its own: UkFields.InstanceHashMatchesEquals proves equal hashes exactly for equal instances |
| UkFields.InstanceHashMatchesEquals | java-rn/src/main/java/uk/gov/food/rn/Instance.java:79-86 | equal hash codes exactly for equal instances |
| UkFields.NewType | java-rn/src/main/java/uk/gov/food/rn/Type.java:35-44 | ok iff 0 <= id <= 99; otherwise TypeOutOfRange(id) |
| UkFields.IsValidTypeId | java-rn/src/main/java/uk/gov/food/rn/Type.java:62-64 | isValidIdentifier, 0 <= id <= 99; no contract of its own: UkFields.NewType accepts exactly these ids |
| UkFields.TypeFromString | java-rn/src/main/java/uk/gov/food/rn/Type.java:52-54 | NumberFormat when parseInt fails; otherwise as NewType |
| UkFields.TypeEquals | java-rn/src/main/java/uk/gov/food/rn/Type.java:77-80 | equal exactly when the ids are equal |
| UkFields.TypeHash | java-rn/src/main/java/uk/gov/food/rn/Type.java:81-84 | hashCode, the id itself; no contract of its own: UkFields.TypeHashMatchesEquals proves equal hashes exactly for equal types |
| UkFields.TypeHashMatchesEquals | java-rn/src/main/java/uk/gov/food/rn/Type.java:77-84 | equal hash codes exactly for equal types |
| UkFields.TypeExamples | java-rn/src/main/java/uk/gov/food/rn/Type.java:35-54 | -1 and 1000 are not valid ids, 1 is accepted and 1001 refused, "4" is accepted and "2000" refused |
| UkFields.NewVersion | java-rn/src/main/java/uk/gov/food/rn/Version.java:14-23 | ok iff 0 <= id <= 9; otherwise VersionOutOfRange(id) |
| UkFields.IsValidVersionId | java-rn/src/main/java/uk/gov/food/rn/Version.java:40-42 | isValidIdentifier, 0 <= id <= 9; no contract of its own: UkFields.NewVersion accepts exactly these ids |
| UkFields.VersionFromString | java-rn/src/main/java/uk/gov/food/rn/Version.java:31-33 | NumberFormat when parseInt fails; otherwise as NewVersion |
| UkFields.VersionExamples | java-rn/src/main/java/uk/gov/food/rn/Version.java:14-33 | 1 and "4" accepted, 10 and "20" refused |
| UkFields.StringConstructorsRoundTrip | java-rn/src/main/java/uk/gov/food/rn/Authority.java:49-51 | each String constructor accepts the decimal text of any valid id and gives that id |
| UkFields.NewTimeStamp | java-rn/src/main/java/uk/gov/food/rn/TimeStamp.java:27-35 | the instant is moved to UTC; ok iff its UTC year is 2000-9999; otherwise YearOutOfRange(UTC year) |
| UkFields.TimeStampEqualsSameInstant | java-rn/src/main/java/uk/gov/food/rn/TimeStamp.java:53-55 | two time stamps are equal exactly when their instants are the same moment |
| UkFields.TimeStampOfUtc | java-rn/src/main/java/uk/gov/food/rn/TimeStamp.java:27-35 | a UTC date-time in range is kept as it is |
| UkFields.TimeStampExamples | java-rn/src/main/java/uk/gov/food/rn/TimeStamp.java:27-40 | 1999 refused, 10000 invalid, 2018 accepted, 29 February 2018 not a date |
| CivilTime.DaysInMonth | java-rn/src/main/java/uk/gov/food/rn/RN.java:220 | Gregorian month lengths: 29 exactly in a leap February, 30 exactly in April, June, September and November |
| CivilTime.LeapDay | java-rn/src/main/java/uk/gov/food/rn/RN.java:220 | 29 February exists in 2020 and 2000 but not in 2018 or 1900 |
| CivilTime.OfUtc | java-rn/src/main/java/uk/gov/food/rn/RN.java:220 | ZonedDateTime.of in UTC: ok exactly for a real date-time; otherwise IllegalDate |
| CivilTime.WithZoneUtc | java-rn/src/main/java/uk/gov/food/rn/TimeStamp.java:28 | withZoneSameInstant(UTC) keeps the moment and shows it in UTC |
| CivilTime.BeforeIsStrictOrder | java-rn/src/main/java/uk/gov/food/rn/RNFactory.java:67-92 | date-time order is irreflexive, asymmetric, transitive and total |
| DecimalText.Int32 | java-rn/src/main/java/com/epimorphics/fsa/rn/RNFactory.java:54 | Java int arithmetic: within the int range and congruent modulo 2^32 |
| DecimalText.Pad | java-rn/src/main/java/uk/gov/food/rn/RN.java:237-240 | %0wd of n >= 0: digits only, width max(w, digits of n), value n |
| DecimalText.ParseFormat | java-rn/src/main/java/com/epimorphics/fsa/rn/RN.java:180 | new BigInteger reads any %0wd text back as its number, negatives included |
| DecimalText.ParseIntPad | java-rn/src/main/java/uk/gov/food/rn/RN.java:212-218 | Integer.parseInt of a zero-padded int gives it back |
| DecimalText.InnerMinusRejected | java-rn/src/main/java/com/epimorphics/fsa/rn/RNFactory.java:104 | new BigInteger refuses a text with a minus sign after its first digit |
| DecimalText.CompareStrings | java-rn/src/main/java/com/epimorphics/fsa/rn/RN.java:254-257 | String.compareTo is 0 exactly for equal strings |
| DecimalText.CompareStringsSwap | java-rn/src/main/java/com/epimorphics/fsa/rn/RN.java:254-257 | swapping the arguments negates the result |
| DecimalText.CompareDigitStrings | java-rn/src/main/java/com/epimorphics/fsa/rn/RN.java:219-224 | equal-width digit strings compare as their values |
| PackedLayout.DecimalFormValue | java-rn/src/main/java/uk/gov/food/rn/RN.java:228-243 | for fields in range, the decimal form is 24 digits whose value is the packed number |
| PackedLayout.DecimalFormSlices | java-rn/src/main/java/uk/gov/food/rn/RN.java:228-243 | each field sits at its place in the layout, zero-padded to its width |
| PackedLayout.SliceDecimalForm | java-rn/src/main/java/uk/gov/food/rn/RN.java:200-221 | slicing the decimal form gives the fields back |
| PackedLayout.PackedInjective | java-rn/src/main/java/uk/gov/food/rn/RN.java:228-243 | different fields in range pack to different numbers |
| PackedLayout.PackedOfDigits | java-rn/src/main/java/uk/gov/food/rn/RN.java:200-221 | every number below 10^24 is the packing of its own slices |
| PackedLayout.DecimalFormParses | java-rn/src/main/java/com/epimorphics/fsa/rn/RN.java:194-205 | with non-negative fields, new BigInteger reads the decimal form as a non-negative number; in range it reads the packed number |
| UkRN.PackElements | java-rn/src/main/java/uk/gov/food/rn/RN.java:228-243 | with non-negative fields the packing is a non-negative number, and in range it is exactly Packed of the fields |
| UkRN.NewRN | java-rn/src/main/java/uk/gov/food/rn/RN.java:61-68 | fails with YearOutOfRange outside 2000-9999 UTC; otherwise keeps the given objects, a UTC time stamp and the packing of the given local fields |
| UkRN.NewRNFailsOnlyOnYear | java-rn/src/main/java/uk/gov/food/rn/RN.java:61-68 | with valid ids and a real local date-time, construction fails exactly for UTC years outside 2000-9999 |
| UkRN.NewRNConsistent | java-rn/src/main/java/uk/gov/food/rn/RN.java:61-68 | from a UTC date-time in range the constructor gives a consistent RN, whose value packs its own fields |
| UkRN.ParseDecimalForm | java-rn/src/main/java/uk/gov/food/rn/RN.java:200-221 | every failure is a length, id, number-format, date or year error |
| UkRN.ParseDecimalFormLength | java-rn/src/main/java/uk/gov/food/rn/RN.java:200-206 | the length error occurs exactly outside 0 <= v < 10^24 |
| UkRN.ParseDecimalFormFields | java-rn/src/main/java/uk/gov/food/rn/RN.java:200-221 | a value in range has 24 digits whose slices are fields in range packing to the value, and parsing validates those fields |
| UkRN.ParseDecimalFormPacked | java-rn/src/main/java/uk/gov/food/rn/RN.java:200-221 | parsing the packing of fields validates those very fields |
| UkRN.ValueFieldsUnique | java-rn/src/main/java/uk/gov/food/rn/RN.java:200-221 | the RN read from a packed value has exactly those fields |
| UkRN.RNOfValue | java-rn/src/main/java/uk/gov/food/rn/RN.java:76-80 | keeps the value, or fails with parseDecimalForm's error |
| UkRN.RNOfValueConsistent | java-rn/src/main/java/uk/gov/food/rn/RN.java:76-80 | an accepted value is a 24-digit value and the RN is consistent |
| UkRN.RNOfEncoded | java-rn/src/main/java/uk/gov/food/rn/RN.java:88-92 | the decoding error, or RNOfValue of the decoded value |
| UkRN.EncodedReadsAsValue | java-rn/src/main/java/uk/gov/food/rn/RN.java:88-92 | reading the encoded form of any 24-digit value is reading the value |
| UkRN.EncodedRoundTrip | java-rn/src/main/java/uk/gov/food/rn/RN.java:88-92 | a consistent RN's 20-character encoded form reads back as the same RN |
| UkRN.EncodedFormOf | java-rn/src/main/java/uk/gov/food/rn/RN.java:190-192 | getEncodedForm, the default-length encoded form of the value; no contract of its own: UkRN.EncodedRoundTrip proves a consistent RN's form is 20 characters and reads back as the RN |
| UkRN.DefaultRoundTrip | java-rn/src/main/java/uk/gov/food/rn/RN.java:190-192 | the default representation of any 24-digit value decodes to it |
| UkRN.RNEquals | java-rn/src/main/java/uk/gov/food/rn/RN.java:158-168 | equal exactly when authority, instance, type and time stamp are equal |
| UkRN.CompareTo | java-rn/src/main/java/uk/gov/food/rn/RN.java:180-183 | -1, 0 or 1, ordered by the values |
| UkRN.EqualsMatchesCompareTo | java-rn/src/main/java/uk/gov/food/rn/RN.java:158-183 | for consistent RNs, equals holds exactly when compareTo is 0, and equal RNs have equal values and hash codes |
| UkRN.RNHash | java-rn/src/main/java/uk/gov/food/rn/RN.java:170-173 | hashCode, Arrays.hashCode of the time stamp, authority, instance and type hashes; no contract of its own: UkRN.EqualsMatchesCompareTo proves equal RNs hash alike |
| UkRN.ToStringPrefixFields | java-rn/src/main/java/uk/gov/food/rn/RN.java:149-155 | the text begins with aaaa:i:tt:, each field reading back as its id |
| UkRN.ToStringPrefix | java-rn/src/main/java/uk/gov/food/rn/RN.java:149-155 | toString up to the instant, "%04d:%01d:%02d:" of the ids; no contract of its own: UkRN.ToStringPrefixFields proves its shape and that each field reads back as its id |
| UkRN.ToStringPrefixExample | java-rn/src/main/java/uk/gov/food/rn/RN.java:149-155 | authority 1234, instance 5 and type 6 print as "1234:5:06:" |
| UkRN.LocalFieldsBreakRoundTrip | java-rn/src/main/java/uk/gov/food/rn/RN.java:61-68 | as written, a non-UTC instant gives an RN equal to the one from the same moment in UTC but with a different value, one not consistent and not read back from its own encoded form |
| UkRN.LocalFieldsPacked | java-rn/src/main/java/uk/gov/food/rn/RN.java:61-68 | the same, for one summer-time instant in London |
| UkRN.NewRNUtc | java-rn/src/main/java/uk/gov/food/rn/RN.java:61-68 | the corrected constructor: same failure and fields as NewRN, packing the UTC fields |
| UkRN.NewRNUtcConsistent | java-rn/src/main/java/uk/gov/food/rn/RN.java:61-68 | the corrected constructor gives a consistent RN that reads back from its encoded form, and agrees with NewRN on UTC instants |
| UkRN.NewRNUtcSameInstant | java-rn/src/main/java/uk/gov/food/rn/RN.java:61-68 | the corrected constructor depends only on the moment |
| UkRNFactory.KeyInjective | java-rn/src/main/java/uk/gov/food/rn/RNFactory.java:31-37 | the hash code of valid ids is a 7-digit number that tells the tuples apart |
| UkRNFactory.EqualsMatchesKey | java-rn/src/main/java/uk/gov/food/rn/RNFactory.java:25-37 | two factories are equal exactly when their hash codes are |
| UkRNFactory.Generated | java-rn/src/main/java/uk/gov/food/rn/RNFactory.java:84-91 | the RN of the element constructor, or null when it throws |
| UkRNFactory.GeneratedCases | java-rn/src/main/java/uk/gov/food/rn/RNFactory.java:84-91 | for a real date-time, null exactly outside 2000-9999; otherwise a consistent RN with the factory's ids and that instant |
| UkRNFactory.LaterReadingsDiffer | java-rn/src/main/java/uk/gov/food/rn/RNFactory.java:67-92 | RNs from two increasing readings have increasing time stamps, are not equal and do not compare as 0 |
| UkRNFactory.Factory.constructor | java-rn/src/main/java/uk/gov/food/rn/RNFactory.java:61-65 | the ids as given and prev 0 |
| UkRNFactory.Factory.GenerateReferenceNumber | java-rn/src/main/java/uk/gov/food/rn/RNFactory.java:67-92 | prev becomes the first reading above it, the clock has used up exactly those readings, and the result is Generated at that reading |
| UkRNFactory.Registry.constructor | java-rn/src/main/java/uk/gov/food/rn/RNFactory.java:45 | an empty map |
| UkRNFactory.Registry.GetFactory | java-rn/src/main/java/uk/gov/food/rn/RNFactory.java:47-59 | returns the factory filed under the tuple's key, with the tuple's ids; a new one is filed only when none was, and nothing else changes |
| Clock.MillisClock.constructor | java-rn/src/main/java/uk/gov/food/rn/RNFactory.java:71 | the readings still to come and the UTC conversion |
| Clock.MillisClock.CurrentTimeMillis | java-rn/src/main/java/uk/gov/food/rn/RNFactory.java:71 | the next reading, which is then used up |
| Clock.MillisClock.ReadAfter | java-rn/src/main/java/uk/gov/food/rn/RNFactory.java:70-81 | the wait loop returns the first reading later than prev and uses up exactly the readings up to it |
| Clock.FirstAfter | java-rn/src/main/java/uk/gov/food/rn/RNFactory.java:72-79 | the index of a reading later than prev, with every earlier one not later |
| ComAuthority.Authority.constructor | java-rn/src/main/java/com/epimorphics/fsa/rn/Authority.java:24-33 | an object with the given id |
| ComAuthority.NewAuthority | java-rn/src/main/java/com/epimorphics/fsa/rn/Authority.java:24-33 | a new object iff 1000 <= id <= 9999; otherwise AuthorityOutOfRange(id) |
| ComAuthority.IsValidIdentifier | java-rn/src/main/java/com/epimorphics/fsa/rn/Authority.java:43-45 | isValidIdentifier, 1000 <= id <= 9999; no contract of its own: ComAuthority.NewAuthority succeeds exactly for these ids |
| ComInstant.NewInstant | java-rn/src/main/java/com/epimorphics/fsa/rn/Instant.java:44-51 | ok iff the year in the instant's own zone is 2000-9999, keeping the instant |
| ComInstant.InstantEquals | java-rn/src/main/java/com/epimorphics/fsa/rn/Instant.java:70-72 | equal exactly when both local fields and moment are equal |
| ComInstant.YearInOwnZone | java-rn/src/main/java/com/epimorphics/fsa/rn/Instant.java:53-56 | 31 December 1999 west of Greenwich, already 2000 in UTC, is refused here and accepted by TimeStamp |
| ComInstant.ZoneMatters | java-rn/src/main/java/com/epimorphics/fsa/rn/Instant.java:70-72 | the same moment in two zones gives unequal Instants but equal TimeStamps |
| ComRN.ParseDecimalForm | java-rn/src/main/java/com/epimorphics/fsa/rn/RN.java:140-171 | the length error exactly when %024d is not 24 characters; parsed fields are valid ids and a real UTC instant in range |
| ComRN.ParseDecimalFormLength | java-rn/src/main/java/com/epimorphics/fsa/rn/RN.java:140-144 | the length error exactly outside -10^23 < v < 10^24 |
| ComRN.AgreesWithCurrent | java-rn/src/main/java/com/epimorphics/fsa/rn/RN.java:140-171 | for v >= 0 the parse agrees with the current revision's, except for the order of checks |
| ComRN.ParseDecimalFormPacked | java-rn/src/main/java/com/epimorphics/fsa/rn/RN.java:140-171 | the packing of valid fields parses to exactly those elements |
| ComRN.NegativeReadsAsMagnitude | java-rn/src/main/java/com/epimorphics/fsa/rn/RN.java:140-171 | for 0 < x < 10^21, -x parses exactly as x does, because the millisecond slice "-00" reads as 0 |
| ComRN.EncodedFormParsesBack | java-rn/src/main/java/com/epimorphics/fsa/rn/RN.java:128-171 | decoding the encoded packing gives the packing, which parses to its own fields |
| ComRN.RN.constructor | java-rn/src/main/java/com/epimorphics/fsa/rn/RN.java:98-103 | the objects as given, no string cached, the value cache as given |
| ComRN.RN.GetEncodedForm | java-rn/src/main/java/com/epimorphics/fsa/rn/RN.java:178-189 | returns the encoding of the RN's value and leaves both caches filled with the value and that string |
| ComRN.RN.GetValue | java-rn/src/main/java/com/epimorphics/fsa/rn/RN.java:79-85 | a cached value is returned unchanged; otherwise the value is found through getEncodedForm, filling both caches |
| ComRN.RN.DecodedDecimalForm | java-rn/src/main/java/com/epimorphics/fsa/rn/RN.java:219-224 | getDecodedDecimalForm, the aaaa:i:tt: prefix followed by the instant's text; no contract of its own: ComRN.PrefixOrder and ComRN.CompareToByIds prove how such texts order |
| ComRN.RN.CompareTo | java-rn/src/main/java/com/epimorphics/fsa/rn/RN.java:254-257 | compareTo, String.compareTo of the decoded texts; no contract of its own: ComRN.CompareToByIds proves the order is by id tuple, then by instant text, and antisymmetric |
| ComRN.CompareToByIds | java-rn/src/main/java/com/epimorphics/fsa/rn/RN.java:254-257 | id tuples decide the order lexicographically; equal ids leave it to the instant texts; antisymmetric; 0 exactly for equal decoded forms |
| ComRN.PrefixOrder | java-rn/src/main/java/com/epimorphics/fsa/rn/RN.java:219-224 | aaaa:i:tt: prefixes of different valid tuples compare as the tuples, whatever follows; equal prefixes leave the order to what follows |
| ComRN.EqualsNeedsSameAuthority | java-rn/src/main/java/com/epimorphics/fsa/rn/RN.java:226-236 | as written, RNs with different Authority objects are never equal |
| ComRN.RN.Equals | java-rn/src/main/java/com/epimorphics/fsa/rn/RN.java:226-236 | equals as written, the Authority objects by reference and the rest by their equals; no contract of its own: ComRN.EqualsNeedsSameAuthority and ComRN.ReadBack prove that different Authority objects are never equal |
| ComRN.EqualsByIdMatchesValue | java-rn/src/main/java/com/epimorphics/fsa/rn/RN.java:226-236 | the corrected equality by authority id holds exactly for RNs with the same value |
| ComRN.RN.EqualsById | java-rn/src/main/java/com/epimorphics/fsa/rn/RN.java:226-236 | equals as evidently intended, the authorities by id; no contract of its own: ComRN.EqualsByIdMatchesValue proves it holds exactly for RNs with the same value |
| ComRN.OfElements | java-rn/src/main/java/com/epimorphics/fsa/rn/RN.java:98-103 | fails exactly when the TimeStamp does, with its error; otherwise a new, valid RN with the given objects and no value cached |
| ComRN.OfValue | java-rn/src/main/java/com/epimorphics/fsa/rn/RN.java:114-117 | fails exactly as parseDecimalForm; otherwise a new RN with a new Authority, the parsed fields and the value kept |
| ComRN.OfEncoded | java-rn/src/main/java/com/epimorphics/fsa/rn/RN.java:128-131 | the decoding error, or exactly what OfValue gives for the decoded value |
| ComRN.ReadBack | java-rn/src/main/java/com/epimorphics/fsa/rn/RN.java:226-236 | an RN read back from its own encoded form has the same value, is not equals() to it, and is equal by id |
| ComRNFactory.CheckFactoryFields | java-rn/src/main/java/com/epimorphics/fsa/rn/RNFactory.java:110-122 | no error exactly when authority is 1000-9999, instance <= 9 and type <= 99; otherwise one problem per failing field, the authority's first |
| ComRNFactory.KeyOf | java-rn/src/main/java/com/epimorphics/fsa/rn/RNFactory.java:54 | the key is an int congruent to ((a*10)+i)*100+t modulo 2^32 |
| ComRNFactory.KeyCollision | java-rn/src/main/java/com/epimorphics/fsa/rn/RNFactory.java:52-66 | (1000, 0, 99) and (1000, 1, -1) both pass the check and share key 1000099 |
| ComRNFactory.IntendedKeyInjective | java-rn/src/main/java/com/epimorphics/fsa/rn/RNFactory.java:52-66 | with instance and type also bounded below, the key is exact and tells tuples apart |
| ComRNFactory.Generated | java-rn/src/main/java/com/epimorphics/fsa/rn/RNFactory.java:90-107 | NumberFormat when new BigInteger refuses the decimal text; null when parseDecimalForm fails; otherwise the parsed elements |
| ComRNFactory.MakeReferenceNumber | java-rn/src/main/java/com/epimorphics/fsa/rn/RNFactory.java:90-107 | the part of generateReferenceNumber after the clock: an error, null or a new valid RN exactly as ComRNFactory.Generated says for the date-time |
| ComRNFactory.GeneratedCases | java-rn/src/main/java/com/epimorphics/fsa/rn/RNFactory.java:90-107 | with bounded fields and a real date-time of 0-9999, never an exception, null exactly before 2000, and otherwise the factory's ids at that instant |
| ComRNFactory.NegativeFieldThrows | java-rn/src/main/java/com/epimorphics/fsa/rn/RNFactory.java:101-104 | a negative instance or type passes the check but makes generation throw NumberFormatException |
| ComRNFactory.Factory.constructor | java-rn/src/main/java/com/epimorphics/fsa/rn/RNFactory.java:69-73 | the fields as given and prev 0 |
| ComRNFactory.Factory.GenerateReferenceNumber | java-rn/src/main/java/com/epimorphics/fsa/rn/RNFactory.java:75-108 | prev and the clock as in the current revision; the result matches Generated at the new reading, a new valid RN holding the parsed elements |
| ComRNFactory.Registry.constructor | java-rn/src/main/java/com/epimorphics/fsa/rn/RNFactory.java:50 | an empty map |
| ComRNFactory.Registry.GetFactory | java-rn/src/main/java/com/epimorphics/fsa/rn/RNFactory.java:52-66 | the field-check error and no change; otherwise the factory filed under the key, a new one filed only when none was |
| ComRNFactory.Registry.IntendedFilingIsExact | java-rn/src/main/java/com/epimorphics/fsa/rn/RNFactory.java:52-66 | under the corrected check, the factory filed under a tuple's key has that tuple's fields |
| ComRNFactory.SharedFactory | java-rn/src/main/java/com/epimorphics/fsa/rn/RNFactory.java:52-66 | asking for (1000, 0, 99) and then (1000, 1, -1) returns the same factory, which issues type 99 for instance 0 |

## Left out

- LockFile (the host-wide file lock) and the Transposition analysis programs are not part of this model. The `main` demonstration methods are left out too.
- Concurrency: the `synchronized` blocks of both factories are modelled as sequential code. The `sleep` inside the wait loop is dropped, because only the clock readings matter.
- The clock is a `Clock.MillisClock`. It holds the readings it will give and a conversion of epoch milliseconds to UTC civil fields. The conversion is a parameter; `UkRNFactory.LaterReadingsDiffer` assumes it is order-preserving and yields real dates (`Clock.IsCalendar`). The java.time calendar arithmetic behind it is not modelled.
- java.time: a `ZonedDateTime` is a pair of civil fields, local and UTC. Zone rules and offsets are not modelled.
- The ISO 8601 text of an instant is a parameter (`instantText`) wherever the source prints one. This covers the current `toString` and the older `getDecodedDecimalForm` and `compareTo`. The same goes for the instant's hash code in `UkRN.RNHash`.
- Regular-expression mechanics are replaced by the sets of characters they match. Exception message text is not modelled, apart from the detail each error carries.
- The older `RN.hashCode` is not modelled.
- The older package imports `Instance`, `Type` and `TimeStamp` classes and an `Authority(String)` constructor that its source does not contain. The model uses the current revision's `Instance`, `Type` and `TimeStamp`, and builds the older `Authority` from the parsed number.
- ComRN.RN.GetEncodedForm: the source's "should never happen" catch is not modelled. The older `Codec.encode` has no failure path, so it cannot be reached.
- ComCodec.SieveOfEratosthenes: the `int` overflow of `i * i` for limits above 46340 is not modelled. The sieve is only called with 1089.
- UkFields.AuthorityHash, InstanceHash and TypeHash use the id unchanged, as the source does. UkRNFactory.KeyOf is computed without 32-bit wrap-around, because valid ids keep it below 10^7.
- ComRNFactory.KeyOf wraps the final key to 32 bits once, not after each multiplication. This gives the same value, since wrap-around is a congruence.
- ComRNFactory.GeneratedCases covers years 0-9999, not the whole range a clock could reach.
- UkRN.EncodedFormOf requires a non-negative value. Every RN the source can build has one, since `packElements` only gets validated ids.
- ComRNFactory.Registry.GetFactory and ComRNFactory.Factory model the field check as written. The corrected check is stated separately, with lemmas, and is not substituted into them.

## Findings

| source | as written | input that shows it | evidently intended | confidence | as-written member | corrected member |
|---|---|---|---|---|---|---|
| java-rn/src/main/java/uk/gov/food/rn/RN.java:61-68 | the value packs the caller's local date-time fields, while the TimeStamp keeps the instant moved to UTC | authority 1000, instance 1, type 21, an instant in British Summer Time | the value packs the UTC fields of the stored TimeStamp, so that equal RNs have equal values and every RN reads back from its encoded form | not executed | UkRN.LocalFieldsBreakRoundTrip | UkRN.NewRNUtcConsistent |
| java-rn/src/main/java/com/epimorphics/fsa/rn/RN.java:226-236 | equals compares Authority objects by reference, since the older Authority has no equals | any RN and the RN read back from its own encoded form | RNs with the same fields are equal | not executed | ComRN.ReadBack | ComRN.EqualsByIdMatchesValue |
| java-rn/src/main/java/com/epimorphics/fsa/rn/RNFactory.java:110-122 | the field check does not bound instance and type from below, so different tuples share a key | (1000, 0, 99) and (1000, 1, -1) both give key 1000099 | instance in 0-9 and type in 0-99, making the key injective | not executed | ComRNFactory.SharedFactory | ComRNFactory.Registry.IntendedFilingIsExact |
| java-rn/src/main/java/com/epimorphics/fsa/rn/RNFactory.java:101-104 | a negative instance or type passes the check, and generation then throws NumberFormatException | a factory for (1000, 0, -1) | such fields are refused when the factory is requested | not executed | ComRNFactory.NegativeFieldThrows | ComRNFactory.GeneratedCases |
| java-rn/src/main/java/com/epimorphics/fsa/rn/Codec.java:182-185 | largestPrimeBelow includes the limit itself | limit 1087 returns 1087 | the largest prime strictly below the limit, as the name says | not executed | ComCodec.LimitIncluded | ComCodec.StrictlyBelowIsLargest |
