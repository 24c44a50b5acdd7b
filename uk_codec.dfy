/** Codec of the current revision: the checked value of a number in the
    Codec encoded form, refusing negative values and values above 33^18,
    and the way back, which tests the check digits. */
module UkCodec {
  import opened Positional
  import opened Errors
  import opened CheckDigits
  import opened Base33
  import opened CodecForm

  /** The largest value raw_encode accepts: 33^18, written out (MaxIntIsPower). */
  const MAX_INT: nat := 2154025884392726618070214209

  lemma {:induction false} MaxIntIsPower()
    ensures MAX_INT == Pow(BASE, MAX_DIGITS)
  {
    Pow33Values();
  }

  /** What raw_encode returns: its two range checks, then the encoded form. */
  function RawEncodeResult(i: int): (r: Result<string>)
    ensures r.Ok? <==> 0 <= i <= MAX_INT
    ensures i < 0 ==> r == Err(NegativeValue)
    ensures i > MAX_INT ==> r == Err(NumericOverflow)
    ensures r.Ok? ==> RawDecoded(r.value) == Ok(i)
  {
    if i < 0 then Err(NegativeValue)
    else if i > MAX_INT then Err(NumericOverflow)
    else
      RawRoundTrip(i);
      Ok(RawEncoded(i))
  }

  /** raw_encode */
  method RawEncode(i: int) returns (r: Result<string>)
    ensures r == RawEncodeResult(i)
  {
    if i < 0 {
      return Err(NegativeValue);
    }
    if i > MAX_INT {
      return Err(NumericOverflow);
    }
    var s := RawEncodeLoop(i);
    r := Ok(s);
  }

  /** What encode returns: the encoded form of i's checked value. Every
      negative i is refused, because its checked value is negative. */
  function Encoded(i: int): (r: Result<string>)
    ensures r.Ok? <==> i >= 0 && WithCheckDigits(i) <= MAX_INT
    ensures i < 0 ==> r == Err(NegativeValue)
    ensures i >= 0 && WithCheckDigits(i) > MAX_INT ==> r == Err(NumericOverflow)
  {
    if i < 0 then
      NegativeWithCheckDigits(i);
      RawEncodeResult(WithCheckDigits(i))
    else
      RawEncodeResult(WithCheckDigits(i))
  }

  /** encode */
  method Encode(i: int) returns (r: Result<string>)
    ensures r == Encoded(i)
  {
    var cc := PRIME - (i * RESIDUAL) % PRIME;
    assert cc == CheckDigitsOf(i);
    var checked := i * BASE_SQUARED + cc;
    assert checked == WithCheckDigits(i);
    r := RawEncode(checked);
  }

  // ------------------------------------------------------------- properties

  /** decode inverts encode wherever encode succeeds. */
  lemma {:induction false} DecodeEncode(i: int)
    requires Encoded(i).Ok?
    ensures Decoded(Encoded(i).value) == Ok(i)
  {
    WithCheckDigitsIntact(i);
    StripWithCheckDigits(i);
  }

  /** Every value below 10^24 is accepted by encode. */
  lemma {:induction false} PackedValuesEncode(i: nat)
    requires i < Pow(10, 24)
    ensures Encoded(i).Ok?
  {
    CheckedValueFits(i);
    MaxIntIsPower();
  }

  /** What encode accepts is exactly 18 symbols in three groups of six: the
      check lets 33^18 through, but that is never a checked value. */
  lemma {:induction false} EncodedShape(i: int)
    requires Encoded(i).Ok?
    ensures var e := Encoding(ALPHABET, WithCheckDigits(i), MAX_DIGITS);
      |e| == MAX_DIGITS && Encoded(i).value == e[..6] + "-" + e[6..12] + "-" + e[12..]
    ensures |Encoded(i).value| == MAX_DIGITS + 2
  {
    WithCheckDigitsIntact(i);
    IntactBelowLimit(WithCheckDigits(i));
    MaxIntIsPower();
    RawEncodedShape(WithCheckDigits(i));
  }

  /** An intact value that passes the overflow check is below 33^18. */
  lemma {:induction false} IntactBelowLimit(c: int)
    requires IsIntact(c) && c <= MAX_INT
    ensures c < MAX_INT
  {
    LimitNotIntact();
    MaxIntIsPower();
  }
}
