/** Decimal text as the Java library writes and reads it: the zero-padded
    "%0wd" conversion of String.format, the BigInteger(String) constructor
    and Integer.parseInt, for ASCII digits. */
module DecimalText {
  import opened Positional
  import opened Errors

  const INT_MIN: int := -0x8000_0000
  const INT_MAX: int := 0x7FFF_FFFF

  /** Java int arithmetic: the value modulo 2^32, as a signed number. */
  function Int32(x: int): (r: int)
    ensures INT_MIN <= r <= INT_MAX
    ensures (r - x) % 0x1_0000_0000 == 0
  {
    (x - INT_MIN) % 0x1_0000_0000 + INT_MIN
  }

  predicate IsDigit(c: char)
  {
    '0' <= c <= '9'
  }

  predicate AllDigits(s: string)
  {
    forall i :: 0 <= i < |s| ==> IsDigit(s[i])
  }

  function DigitChar(d: nat): (c: char)
    requires d < 10
    ensures IsDigit(c) && c as int - '0' as int == d
  {
    ('0' as int + d) as char
  }

  /** The digit values of the characters of s. */
  function Codes(s: string): (ds: seq<int>)
    ensures |ds| == |s|
    ensures forall i :: 0 <= i < |s| ==> ds[i] == s[i] as int - '0' as int
  {
    seq(|s|, i requires 0 <= i < |s| => s[i] as int - '0' as int)
  }

  /** The characters of a sequence of decimal digits. */
  function Render(ds: seq<nat>): (s: string)
    requires forall i :: 0 <= i < |ds| ==> ds[i] < 10
    ensures |s| == |ds| && AllDigits(s)
    ensures Codes(s) == ds
  {
    seq(|ds|, i requires 0 <= i < |ds| => DigitChar(ds[i]))
  }

  /** The value of a string of decimal digits. */
  function DecimalValue(s: string): int
  {
    Value(10, Codes(s))
  }

  /** "%0wd" of a non-negative n: its decimal digits, left-padded with '0'
      to width w; at least one digit, and never truncated. */
  function Pad(n: nat, w: int): (s: string)
    ensures AllDigits(s) && |s| == Width(10, n, w)
    ensures DecimalValue(s) == n
  {
    var k := Width(10, n, w);
    ValueOfDigitsFits(10, n, k);
    Render(Digits(10, n, k))
  }

  /** "%0wd" of any n: a negative number is '-' followed by its magnitude,
      padded so that the whole text has width w. */
  function Format(n: int, w: int): string
  {
    if n >= 0 then Pad(n, w) else "-" + Pad(-n, w - 1)
  }

  /** A numeral as BigInteger(String) reads it: an optional sign and at least
      one digit. */
  function ParseSigned(s: string): Option<int>
  {
    if |s| > 1 && (s[0] == '-' || s[0] == '+') && AllDigits(s[1..]) then
      Some(if s[0] == '-' then -DecimalValue(s[1..]) else DecimalValue(s[1..]))
    else if |s| > 0 && AllDigits(s) then
      Some(DecimalValue(s))
    else
      None
  }

  /** A minus sign after a leading digit is not a numeral. */
  lemma {:induction false} InnerMinusRejected(s: string, k: nat)
    requires 0 < k < |s| && IsDigit(s[0]) && s[k] == '-'
    ensures ParseSigned(s) == None
  {
    assert !IsDigit(s[k]);
    assert s[1..][k - 1] == s[k];
  }

  /** Integer.parseInt: a numeral whose value fits in 32 bits. */
  function JavaParseInt(s: string): Option<int>
  {
    match ParseSigned(s)
    case Some(v) => if INT_MIN <= v <= INT_MAX then Some(v) else None
    case None => None
  }

  /** A digit string of length k has a value below 10^k. */
  lemma {:induction false} DecimalValueBound(s: string)
    requires AllDigits(s)
    ensures 0 <= DecimalValue(s) < Pow(10, |s|)
  {
    ValueBound(10, Codes(s));
  }

  /** "%0wd" pads to exactly w digits every value that has at most w digits. */
  lemma {:induction false} PadWidth(n: nat, w: nat)
    requires 1 <= w && n < Pow(10, w)
    ensures |Pad(n, w)| == w
  {
    NumDigitsBound(10, n, w);
  }

  /** Reading back what "%0wd" wrote gives the number again. */
  lemma {:induction false} ParseFormat(n: int, w: int)
    ensures ParseSigned(Format(n, w)) == Some(n)
  {
    if n < 0 {
      var s := Format(n, w);
      assert s[1..] == Pad(-n, w - 1);
    }
  }

  /** Integer.parseInt reads back a padded value that fits in 32 bits. */
  lemma {:induction false} ParseIntPad(n: nat, w: int)
    requires n <= INT_MAX
    ensures JavaParseInt(Pad(n, w)) == Some(n)
  {
    ParseFormat(n, w);
  }

  /** Integer.parseInt of a short digit string never overflows. */
  lemma {:induction false} ParseIntDigits(s: string)
    requires AllDigits(s) && 1 <= |s| <= 9
    ensures JavaParseInt(s) == Some(DecimalValue(s))
  {
    DecimalValueBound(s);
    PowMonotone(10, |s|, 9);
    assert Pow(10, 9) == 1000000000 by {
      assert Pow(10, 3) == 1000;
      PowAdd(10, 3, 3);
      PowAdd(10, 6, 3);
    }
  }

  /** The Horner value of a concatenation of digit strings. */
  lemma {:induction false} DecimalValueAppend(s: string, t: string)
    ensures DecimalValue(s + t) == DecimalValue(s) * Pow(10, |t|) + DecimalValue(t)
  {
    var cs, ct, cst := Codes(s), Codes(t), Codes(s + t);
    forall i | 0 <= i < |cst|
      ensures cst[i] == (cs + ct)[i]
    {
      if i < |s| {
        assert (s + t)[i] == s[i];
      } else {
        assert (s + t)[i] == t[i - |s|];
      }
    }
    assert cst == cs + ct;
    ValueAppend(10, cs, ct);
  }

  /** A digit string is determined by its length and its value. */
  lemma {:induction false} DigitStringsInjective(s: string, t: string)
    requires AllDigits(s) && AllDigits(t) && |s| == |t|
    requires DecimalValue(s) == DecimalValue(t)
    ensures s == t
  {
    var cs, ct := Codes(s), Codes(t);
    DigitsOfValue(10, cs);
    DigitsOfValue(10, ct);
    assert cs == ct;
    forall i | 0 <= i < |s|
      ensures s[i] == t[i]
    {
      assert cs[i] == ct[i];
    }
  }

  /** A digit string of length w is the "%0wd" rendering of its value. */
  lemma {:induction false} DigitStringIsPad(s: string)
    requires AllDigits(s) && |s| >= 1
    ensures DecimalValue(s) >= 0
    ensures s == Pad(DecimalValue(s), |s|)
  {
    DecimalValueBound(s);
    PadWidth(DecimalValue(s), |s|);
    DigitStringsInjective(s, Pad(DecimalValue(s), |s|));
  }

  lemma {:induction false} DecimalValueSnoc(s: string, c: char)
    ensures DecimalValue(s + [c]) == DecimalValue(s) * 10 + (c as int - '0' as int)
  {
    DecimalValueAppend(s, [c]);
    assert Codes([c]) == [c as int - '0' as int];
    assert Value(10, [c as int - '0' as int]) == c as int - '0' as int;
  }

  /** Zeros put in front of "%0wd" widen it. */
  lemma {:induction false} PadAfterZeros(x: nat, w: nat, z: string)
    requires 1 <= w && x < Pow(10, w) && AllDigits(z) && DecimalValue(z) == 0
    ensures Pad(x, w + |z|) == z + Pad(x, w)
  {
    var p := Pad(x, w);
    PadWidth(x, w);
    PowMonotone(10, w, w + |z|);
    PadWidth(x, w + |z|);
    DecimalValueAppend(z, p);
    assert AllDigits(z + p) by {
      forall i | 0 <= i < |z + p|
        ensures IsDigit((z + p)[i])
      {
        if i < |z| {
          assert (z + p)[i] == z[i];
        } else {
          assert (z + p)[i] == p[i - |z|];
        }
      }
    }
    DigitStringsInjective(Pad(x, w + |z|), z + p);
  }

  /** Leading zeros have no value. */
  lemma {:induction false} ZerosValue()
    ensures DecimalValue("0") == 0 && DecimalValue("00") == 0 && DecimalValue("000") == 0
  {
    assert "" + ['0'] == "0" && "0" + ['0'] == "00" && "00" + ['0'] == "000";
    assert DecimalValue("") == 0;
    DecimalValueSnoc("", '0');
    DecimalValueSnoc("0", '0');
    DecimalValueSnoc("00", '0');
  }

  /** The digit value of one character. */
  function Code(c: char): int
  {
    c as int - '0' as int
  }

  /** The value of a numeral of up to four digits, written out positionally. */
  function ShortValue(s: string): int
    requires 1 <= |s| <= 4
  {
    if |s| == 1 then Code(s[0])
    else if |s| == 2 then 10 * Code(s[0]) + Code(s[1])
    else if |s| == 3 then 100 * Code(s[0]) + 10 * Code(s[1]) + Code(s[2])
    else 1000 * Code(s[0]) + 100 * Code(s[1]) + 10 * Code(s[2]) + Code(s[3])
  }

  /** The value of a one-longer prefix. */
  lemma {:induction false} DecimalPrefixStep(s: string, k: nat)
    requires k < |s|
    ensures DecimalValue(s[..k + 1]) == DecimalValue(s[..k]) * 10 + Code(s[k])
  {
    assert s[..k + 1] == s[..k] + [s[k]];
    DecimalValueSnoc(s[..k], s[k]);
  }

  /** The value of a numeral of up to four digits is its short positional value. */
  lemma {:induction false} ShortDecimalValue(s: string)
    requires 1 <= |s| <= 4
    ensures DecimalValue(s) == ShortValue(s)
  {
    assert DecimalValue(s[..0]) == 0 by { assert s[..0] == []; }
    DecimalPrefixStep(s, 0);
    if |s| >= 2 {
      DecimalPrefixStep(s, 1);
    }
    if |s| >= 3 {
      DecimalPrefixStep(s, 2);
    }
    if |s| == 4 {
      DecimalPrefixStep(s, 3);
    }
    assert s[..|s|] == s;
  }

  /** Integer.parseInt of a numeral of up to four digits. */
  lemma {:induction false} ParseIntShort(s: string)
    requires AllDigits(s) && 1 <= |s| <= 4
    ensures JavaParseInt(s) == Some(ShortValue(s))
  {
    ParseIntDigits(s);
    ShortDecimalValue(s);
  }

  // ---------------------------------------------------------------- String.compareTo

  /** String.compareTo: the difference of the first two characters that
      differ, or of the lengths when one string starts the other. */
  function CompareStrings(s: string, t: string): (r: int)
    ensures r == 0 <==> s == t
  {
    if s == [] || t == [] then |s| - |t|
    else if s[0] != t[0] then s[0] as int - t[0] as int
    else
      assert s == [s[0]] + s[1..] && t == [t[0]] + t[1..];
      CompareStrings(s[1..], t[1..])
  }

  /** Swapping the strings negates the comparison. */
  lemma {:induction false} CompareStringsSwap(s: string, t: string)
    ensures CompareStrings(t, s) == -CompareStrings(s, t)
    decreases |s|
  {
    if s != [] && t != [] && s[0] == t[0] {
      CompareStringsSwap(s[1..], t[1..]);
    }
  }

  /** A common start does not take part in the comparison. */
  lemma {:induction false} CompareCommonStart(p: string, s: string, t: string)
    ensures CompareStrings(p + s, p + t) == CompareStrings(s, t)
    decreases |p|
  {
    if p != [] {
      assert (p + s)[0] == p[0] == (p + t)[0];
      assert (p + s)[1..] == p[1..] + s && (p + t)[1..] == p[1..] + t;
      CompareCommonStart(p[1..], s, t);
    } else {
      assert p + s == s && p + t == t;
    }
  }

  /** Two different starts of the same length decide the comparison. */
  lemma {:induction false} CompareDifferentStarts(p: string, q: string, s: string, t: string)
    requires |p| == |q| && p != q
    ensures CompareStrings(p + s, q + t) == CompareStrings(p, q)
    decreases |p|
  {
    assert (p + s)[0] == p[0] && (q + t)[0] == q[0];
    if p[0] == q[0] {
      assert p == [p[0]] + p[1..] && q == [q[0]] + q[1..];
      assert (p + s)[1..] == p[1..] + s && (q + t)[1..] == q[1..] + t;
      CompareDifferentStarts(p[1..], q[1..], s, t);
    }
  }

  /** Digit strings of the same length compare as their values do. */
  lemma {:induction false} CompareDigitStrings(s: string, t: string)
    requires AllDigits(s) && AllDigits(t) && |s| == |t|
    ensures CompareStrings(s, t) < 0 <==> DecimalValue(s) < DecimalValue(t)
    ensures CompareStrings(s, t) == 0 <==> DecimalValue(s) == DecimalValue(t)
    decreases |s|
  {
    if s != [] {
      if s[0] == t[0] {
        SameLeading(s, t);
        CompareDigitStrings(s[1..], t[1..]);
      } else if s[0] < t[0] {
        SmallerLeading(s, t);
      } else {
        SmallerLeading(t, s);
      }
    }
  }

  lemma {:induction false} SameLeading(s: string, t: string)
    requires AllDigits(s) && AllDigits(t) && |s| == |t| && s != [] && s[0] == t[0]
    ensures DecimalValue(s) - DecimalValue(t) == DecimalValue(s[1..]) - DecimalValue(t[1..])
  {
    SplitLeading(s);
    SplitLeading(t);
  }

  lemma {:induction false} SmallerLeading(s: string, t: string)
    requires AllDigits(s) && AllDigits(t) && |s| == |t| && s != [] && s[0] < t[0]
    ensures DecimalValue(s) < DecimalValue(t)
  {
    SplitLeading(s);
    SplitLeading(t);
    LeadingDecides(Code(s[0]), Code(t[0]), DecimalValue(s[1..]), DecimalValue(t[1..]), Pow(10, |s| - 1));
  }

  /** The value of a digit string is its leading digit's weight plus the
      value of the rest. */
  lemma {:induction false} SplitLeading(s: string)
    requires AllDigits(s) && s != []
    ensures DecimalValue(s) == Code(s[0]) * Pow(10, |s| - 1) + DecimalValue(s[1..])
    ensures 0 <= DecimalValue(s[1..]) < Pow(10, |s| - 1)
  {
    assert s == [s[0]] + s[1..];
    DecimalValueAppend([s[0]], s[1..]);
    LeadingDigit(s[0]);
    DecimalValueBound(s[1..]);
  }

  /** A smaller leading digit makes a smaller number. */
  lemma {:induction false} LeadingDecides(a: int, b: int, x: int, y: int, w: int)
    requires a < b && 0 <= x < w && 0 <= y
    ensures a * w + x < b * w + y
  {
    var k := b - a - 1;
    assert k >= 0 && w > 0;
    assert k * w >= 0;
    assert b * w == a * w + w + k * w;
  }

  lemma {:induction false} LeadingDigit(c: char)
    ensures DecimalValue([c]) == Code(c)
  {
    assert Codes([c]) == [Code(c)];
    assert Value(10, [Code(c)]) == Value(10, []) * 10 + Code(c);
  }
}
