/** The 24-digit decimal form of a reference number,
    uuu aaaa i tt yyyy MM dd hh mm ss: milliseconds, authority, instance,
    type, then the UTC year, month, day, hour, minute and second, each
    written with "%0wd" and concatenated. Both revisions use this layout:
    one writes it with String.format and reads it back with a regular
    expression, the other slices it at fixed offsets. */
module PackedLayout {
  import opened Positional
  import opened Errors
  import opened DecimalText
  import CivilTime

  datatype Fields = Fields(milli: int, authority: int, instance: int, rnType: int,
                           year: int, month: int, day: int,
                           hour: int, minute: int, second: int)

  const DECIMAL_LENGTH: nat := 24

  /** The fields of a date-time stamped by an authority's instance with a type. */
  function FieldsOf(authority: int, instance: int, rnType: int, d: CivilTime.DateTime): (f: Fields)
    ensures f.authority == authority && f.instance == instance && f.rnType == rnType
    ensures f.year == d.year && f.month == d.month && f.day == d.day
    ensures f.hour == d.hour && f.minute == d.minute && f.second == d.second
    ensures f.milli == d.milli
  {
    Fields(d.milli, authority, instance, rnType, d.year, d.month, d.day, d.hour, d.minute, d.second)
  }

  /** The date-time the fields name (it may not exist). */
  function DateOf(f: Fields): (d: CivilTime.DateTime)
    ensures FieldsOf(f.authority, f.instance, f.rnType, d) == f
  {
    CivilTime.DateTime(f.year, f.month, f.day, f.hour, f.minute, f.second, f.milli)
  }

  /** Every field fits the width the layout gives it. */
  predicate InRange(f: Fields)
  {
    0 <= f.milli < 1000 && 0 <= f.authority < 10000 && 0 <= f.instance < 10 &&
    0 <= f.rnType < 100 && 0 <= f.year < 10000 && 0 <= f.month < 100 &&
    0 <= f.day < 100 && 0 <= f.hour < 100 && 0 <= f.minute < 100 && 0 <= f.second < 100
  }

  /** String.format("%03d%04d%01d%02d%04d%02d%02d%02d%02d%02d", ...) */
  function DecimalForm(f: Fields): string
  {
    Format(f.milli, 3) + Format(f.authority, 4) + Format(f.instance, 1) +
    Format(f.rnType, 2) + Format(f.year, 4) + Format(f.month, 2) +
    Format(f.day, 2) + Format(f.hour, 2) + Format(f.minute, 2) + Format(f.second, 2)
  }

  /** The number the decimal form denotes, field by field. */
  function Packed(f: Fields): int
  {
    f.milli * 1_000_000_000_000_000_000_000 + f.authority * 100_000_000_000_000_000 +
    f.instance * 10_000_000_000_000_000 + f.rnType * 100_000_000_000_000 +
    f.year * 10_000_000_000 + f.month * 100_000_000 + f.day * 1_000_000 +
    f.hour * 10_000 + f.minute * 100 + f.second
  }

  /** Each field read back with Integer.parseInt from its fixed slice of a
      24-character text. */
  function SliceFields(s: string): Option<Fields>
    requires |s| == DECIMAL_LENGTH
  {
    var u, a, i, t := JavaParseInt(s[0..3]), JavaParseInt(s[3..7]), JavaParseInt(s[7..8]), JavaParseInt(s[8..10]);
    var y, mo, d := JavaParseInt(s[10..14]), JavaParseInt(s[14..16]), JavaParseInt(s[16..18]);
    var h, mi, se := JavaParseInt(s[18..20]), JavaParseInt(s[20..22]), JavaParseInt(s[22..24]);
    if u.Some? && a.Some? && i.Some? && t.Some? && y.Some? && mo.Some? && d.Some? &&
       h.Some? && mi.Some? && se.Some?
    then Some(Fields(u.value, a.value, i.value, t.value, y.value, mo.value, d.value,
                     h.value, mi.value, se.value))
    else None
  }

  lemma {:induction false} PowValues()
    ensures Pow(10, 1) == 10 && Pow(10, 2) == 100 && Pow(10, 3) == 1000 && Pow(10, 4) == 10000
  {
  }

  lemma {:induction false} AllDigitsAppend(s: string, t: string)
    requires AllDigits(s) && AllDigits(t)
    ensures AllDigits(s + t)
  {
    forall i | 0 <= i < |s + t|
      ensures IsDigit((s + t)[i])
    {
      if i < |s| {
        assert (s + t)[i] == s[i];
      } else {
        assert (s + t)[i] == t[i - |s|];
      }
    }
  }

  /** Appending w more digits to a digit string of value v. */
  lemma {:induction false} AppendPad(acc: string, v: int, n: nat, w: nat, p: nat)
    requires AllDigits(acc) && DecimalValue(acc) == v
    requires 1 <= w && n < p == Pow(10, w)
    ensures |Pad(n, w)| == w
    ensures AllDigits(acc + Pad(n, w)) && |acc + Pad(n, w)| == |acc| + w
    ensures DecimalValue(acc + Pad(n, w)) == v * p + n
  {
    PadWidth(n, w);
    AllDigitsAppend(acc, Pad(n, w));
    DecimalValueAppend(acc, Pad(n, w));
  }

  /** For non-negative fields every conversion is a plain zero padding. */
  lemma {:induction false} DecimalFormPads(f: Fields)
    requires NonNegative(f)
    ensures DecimalForm(f) ==
      Pad(f.milli, 3) + Pad(f.authority, 4) + Pad(f.instance, 1) + Pad(f.rnType, 2) +
      Pad(f.year, 4) + Pad(f.month, 2) + Pad(f.day, 2) + Pad(f.hour, 2) +
      Pad(f.minute, 2) + Pad(f.second, 2)
  {
  }

  /** The layout of in-range fields is 24 digits whose value is the packed number. */
  lemma {:induction false} DecimalFormValue(f: Fields)
    requires InRange(f)
    ensures |DecimalForm(f)| == DECIMAL_LENGTH && AllDigits(DecimalForm(f))
    ensures DecimalValue(DecimalForm(f)) == Packed(f)
  {
    PowValues();
    DecimalFormPads(f);
    var s1 := Pad(f.milli, 3);
    PadWidth(f.milli, 3);
    var v1 := f.milli;
    var s2 := s1 + Pad(f.authority, 4);
    AppendPad(s1, v1, f.authority, 4, 10000);
    var v2 := v1 * 10000 + f.authority;
    var s3 := s2 + Pad(f.instance, 1);
    AppendPad(s2, v2, f.instance, 1, 10);
    var v3 := v2 * 10 + f.instance;
    var s4 := s3 + Pad(f.rnType, 2);
    AppendPad(s3, v3, f.rnType, 2, 100);
    var v4 := v3 * 100 + f.rnType;
    var s5 := s4 + Pad(f.year, 4);
    AppendPad(s4, v4, f.year, 4, 10000);
    var v5 := v4 * 10000 + f.year;
    var s6 := s5 + Pad(f.month, 2);
    AppendPad(s5, v5, f.month, 2, 100);
    var v6 := v5 * 100 + f.month;
    var s7 := s6 + Pad(f.day, 2);
    AppendPad(s6, v6, f.day, 2, 100);
    var v7 := v6 * 100 + f.day;
    var s8 := s7 + Pad(f.hour, 2);
    AppendPad(s7, v7, f.hour, 2, 100);
    var v8 := v7 * 100 + f.hour;
    var s9 := s8 + Pad(f.minute, 2);
    AppendPad(s8, v8, f.minute, 2, 100);
    var v9 := v8 * 100 + f.minute;
    var s10 := s9 + Pad(f.second, 2);
    AppendPad(s9, v9, f.second, 2, 100);
    var v10 := v9 * 100 + f.second;
    assert v10 == Packed(f);
  }

  /** Extending a prefix of s keeps the shorter prefix, and the extension is
      the piece of s between the two lengths. */
  lemma {:induction false} PrefixStep(s: string, q: string, q': string, p: string)
    requires |q| <= |s| && s[..|q|] == q && q == q' + p
    ensures s[..|q'|] == q'
    ensures s[|q'|..|q|] == p
  {
    forall i | 0 <= i < |q'|
      ensures s[..|q'|][i] == q'[i]
    {
      assert s[i] == q[i];
    }
    forall i | 0 <= i < |p|
      ensures s[|q'|..|q|][i] == p[i]
    {
      assert s[|q'| + i] == q[|q'| + i];
    }
  }

  /** The fixed slices of the layout of in-range fields are the paddings
      of the fields. */
  lemma {:induction false} DecimalFormSlices(f: Fields)
    requires InRange(f)
    ensures var s := DecimalForm(f);
      |s| == DECIMAL_LENGTH &&
      s[0..3] == Pad(f.milli, 3) && s[3..7] == Pad(f.authority, 4) &&
      s[7..8] == Pad(f.instance, 1) && s[8..10] == Pad(f.rnType, 2) &&
      s[10..14] == Pad(f.year, 4) && s[14..16] == Pad(f.month, 2) &&
      s[16..18] == Pad(f.day, 2) && s[18..20] == Pad(f.hour, 2) &&
      s[20..22] == Pad(f.minute, 2) && s[22..24] == Pad(f.second, 2)
  {
    DecimalFormPads(f);
    PadWidth(f.milli, 3); PadWidth(f.authority, 4); PadWidth(f.instance, 1);
    PadWidth(f.rnType, 2); PadWidth(f.year, 4); PadWidth(f.month, 2);
    PadWidth(f.day, 2); PadWidth(f.hour, 2); PadWidth(f.minute, 2); PadWidth(f.second, 2);
    LayoutSlices(Pad(f.milli, 3), Pad(f.authority, 4), Pad(f.instance, 1), Pad(f.rnType, 2),
                 Pad(f.year, 4), Pad(f.month, 2), Pad(f.day, 2), Pad(f.hour, 2),
                 Pad(f.minute, 2), Pad(f.second, 2));
  }

  /** Ten texts of the layout's widths, joined, sit at the layout's offsets. */
  lemma {:induction false} LayoutSlices(p1: string, p2: string, p3: string, p4: string, p5: string,
                                        p6: string, p7: string, p8: string, p9: string, p10: string)
    requires |p1| == 3 && |p2| == 4 && |p3| == 1 && |p4| == 2 && |p5| == 4
    requires |p6| == 2 && |p7| == 2 && |p8| == 2 && |p9| == 2 && |p10| == 2
    ensures var s := p1 + p2 + p3 + p4 + p5 + p6 + p7 + p8 + p9 + p10;
      |s| == DECIMAL_LENGTH &&
      s[0..3] == p1 && s[3..7] == p2 && s[7..8] == p3 && s[8..10] == p4 &&
      s[10..14] == p5 && s[14..16] == p6 && s[16..18] == p7 && s[18..20] == p8 &&
      s[20..22] == p9 && s[22..24] == p10
  {
    var q1 := p1;
    var q2 := q1 + p2;
    var q3 := q2 + p3;
    var q4 := q3 + p4;
    var q5 := q4 + p5;
    var q6 := q5 + p6;
    var q7 := q6 + p7;
    var q8 := q7 + p8;
    var q9 := q8 + p9;
    var s := q9 + p10;
    PrefixStep(s, s, q9, p10);
    PrefixStep(s, q9, q8, p9);
    PrefixStep(s, q8, q7, p8);
    PrefixStep(s, q7, q6, p7);
    PrefixStep(s, q6, q5, p6);
    PrefixStep(s, q5, q4, p5);
    PrefixStep(s, q4, q3, p4);
    PrefixStep(s, q3, q2, p3);
    PrefixStep(s, q2, q1, p2);
    PrefixStep(s, q1, [], p1);
  }

  /** Slicing the layout of in-range fields at the fixed offsets recovers
      every field. */
  lemma {:induction false} SliceDecimalForm(f: Fields)
    requires InRange(f)
    ensures |DecimalForm(f)| == DECIMAL_LENGTH
    ensures SliceFields(DecimalForm(f)) == Some(f)
  {
    DecimalFormSlices(f);
    ParseIntPad(f.milli, 3); ParseIntPad(f.authority, 4); ParseIntPad(f.instance, 1);
    ParseIntPad(f.rnType, 2); ParseIntPad(f.year, 4); ParseIntPad(f.month, 2);
    ParseIntPad(f.day, 2); ParseIntPad(f.hour, 2); ParseIntPad(f.minute, 2); ParseIntPad(f.second, 2);
  }

  /** In-range fields pack below 10^24, and their layout is the zero-padded
      24-digit rendering of the packed number. */
  lemma {:induction false} DecimalFormIsPad(f: Fields)
    requires InRange(f)
    ensures 0 <= Packed(f) < Pow(10, DECIMAL_LENGTH)
    ensures DecimalForm(f) == Pad(Packed(f), DECIMAL_LENGTH)
  {
    DecimalFormValue(f);
    DecimalValueBound(DecimalForm(f));
    DigitStringIsPad(DecimalForm(f));
  }

  /** Packing is injective on in-range fields. */
  lemma {:induction false} PackedInjective(f: Fields, g: Fields)
    requires InRange(f) && InRange(g)
    requires Packed(f) == Packed(g)
    ensures f == g
  {
    DecimalFormIsPad(f);
    DecimalFormIsPad(g);
    SliceDecimalForm(f);
    SliceDecimalForm(g);
  }

  /** A slice of a digit string is a digit string. */
  lemma {:induction false} SliceDigits(s: string, a: nat, b: nat)
    requires AllDigits(s) && a <= b <= |s|
    ensures AllDigits(s[a..b])
  {
    forall k | 0 <= k < b - a
      ensures IsDigit(s[a..b][k])
    {
      assert s[a..b][k] == s[a + k];
    }
  }

  /** One slice of width w read with Integer.parseInt: its value, below
      10^w, whose "%0wd" rendering is the slice again. */
  lemma {:induction false} ParseSlice(s: string, a: nat, b: nat)
    requires AllDigits(s) && a < b <= |s| && b - a <= 4
    ensures JavaParseInt(s[a..b]).Some?
    ensures 0 <= JavaParseInt(s[a..b]).value < Pow(10, b - a)
    ensures Pad(JavaParseInt(s[a..b]).value, b - a) == s[a..b]
  {
    SliceDigits(s, a, b);
    ParseIntDigits(s[a..b]);
    DecimalValueBound(s[a..b]);
    DigitStringIsPad(s[a..b]);
  }

  /** The slices of a 24-digit text parse to in-range fields whose
      paddings are the slices again. */
  lemma {:induction false} SliceFieldsPads(s: string)
    requires |s| == DECIMAL_LENGTH && AllDigits(s)
    ensures SliceFields(s).Some?
    ensures var f := SliceFields(s).value;
      InRange(f) &&
      s[0..3] == Pad(f.milli, 3) && s[3..7] == Pad(f.authority, 4) &&
      s[7..8] == Pad(f.instance, 1) && s[8..10] == Pad(f.rnType, 2) &&
      s[10..14] == Pad(f.year, 4) && s[14..16] == Pad(f.month, 2) &&
      s[16..18] == Pad(f.day, 2) && s[18..20] == Pad(f.hour, 2) &&
      s[20..22] == Pad(f.minute, 2) && s[22..24] == Pad(f.second, 2)
  {
    PowValues();
    ParseSlice(s, 0, 3); ParseSlice(s, 3, 7); ParseSlice(s, 7, 8); ParseSlice(s, 8, 10);
    ParseSlice(s, 10, 14); ParseSlice(s, 14, 16); ParseSlice(s, 16, 18);
    ParseSlice(s, 18, 20); ParseSlice(s, 20, 22); ParseSlice(s, 22, 24);
  }

  /** A prefix followed by the next slice is the longer prefix. */
  lemma {:induction false} PrefixExtend(s: string, b: nat, c: nat)
    requires b <= c <= |s|
    ensures s[0..b] + s[b..c] == s[0..c]
  {
  }

  /** Every 24-digit text is the layout of the fields its slices hold. */
  lemma {:induction false} SlicesOfDigits(s: string)
    requires |s| == DECIMAL_LENGTH && AllDigits(s)
    ensures SliceFields(s).Some?
    ensures InRange(SliceFields(s).value) && DecimalForm(SliceFields(s).value) == s
  {
    SliceFieldsPads(s);
    var f := SliceFields(s).value;
    DecimalFormPads(f);
    JoinSlices(s);
  }

  /** The layout's slices of a 24-character text, joined, are the text. */
  lemma {:induction false} JoinSlices(s: string)
    requires |s| == DECIMAL_LENGTH
    ensures s[0..3] + s[3..7] + s[7..8] + s[8..10] + s[10..14] + s[14..16] + s[16..18] +
            s[18..20] + s[20..22] + s[22..24] == s
  {
    PrefixExtend(s, 3, 7); PrefixExtend(s, 7, 8); PrefixExtend(s, 8, 10);
    PrefixExtend(s, 10, 14); PrefixExtend(s, 14, 16); PrefixExtend(s, 16, 18);
    PrefixExtend(s, 18, 20); PrefixExtend(s, 20, 22); PrefixExtend(s, 22, 24);
    assert s[0..24] == s;
  }

  /** Every value below 10^24 is the packing of the fields of its 24-digit
      rendering: packing is onto as well as injective. */
  lemma {:induction false} PackedOfDigits(v: int)
    requires 0 <= v < Pow(10, DECIMAL_LENGTH)
    ensures |Pad(v, DECIMAL_LENGTH)| == DECIMAL_LENGTH && AllDigits(Pad(v, DECIMAL_LENGTH))
    ensures SliceFields(Pad(v, DECIMAL_LENGTH)).Some?
    ensures Packed(SliceFields(Pad(v, DECIMAL_LENGTH)).value) == v
  {
    PadWidth(v, DECIMAL_LENGTH);
    var s := Pad(v, DECIMAL_LENGTH);
    SlicesOfDigits(s);
    var f := SliceFields(s).value;
    DecimalFormIsPad(f);
  }

  /** No field is negative: each "%0wd" conversion writes digits only. */
  predicate NonNegative(f: Fields)
  {
    f.milli >= 0 && f.authority >= 0 && f.instance >= 0 && f.rnType >= 0 &&
    f.year >= 0 && f.month >= 0 && f.day >= 0 && f.hour >= 0 && f.minute >= 0 &&
    f.second >= 0
  }

  /** The layout of non-negative fields is a numeral BigInteger(String)
      accepts; for in-range fields its value is the packed number. */
  lemma {:induction false} DecimalFormParses(f: Fields)
    ensures NonNegative(f) ==> ParseSigned(DecimalForm(f)).Some? && ParseSigned(DecimalForm(f)).value >= 0
    ensures InRange(f) ==> ParseSigned(DecimalForm(f)) == Some(Packed(f))
  {
    if NonNegative(f) {
      DecimalFormDigits(f);
    }
    if InRange(f) {
      DecimalFormValue(f);
    }
  }

  /** The layout of non-negative fields is digits only, at least 24 of them. */
  lemma {:induction false} DecimalFormDigits(f: Fields)
    requires NonNegative(f)
    ensures AllDigits(DecimalForm(f)) && |DecimalForm(f)| >= DECIMAL_LENGTH
    ensures ParseSigned(DecimalForm(f)) == Some(DecimalValue(DecimalForm(f)))
    ensures DecimalValue(DecimalForm(f)) >= 0
  {
    DecimalFormPads(f);
    var p1, p2, p3, p4, p5 := Pad(f.milli, 3), Pad(f.authority, 4), Pad(f.instance, 1), Pad(f.rnType, 2), Pad(f.year, 4);
    var p6, p7, p8, p9, p10 := Pad(f.month, 2), Pad(f.day, 2), Pad(f.hour, 2), Pad(f.minute, 2), Pad(f.second, 2);
    var s := p1 + p2 + p3 + p4 + p5 + p6 + p7 + p8 + p9 + p10;
    DigitsChain(p1, p2, p3, p4, p5, p6, p7, p8, p9, p10);
    DecimalValueBound(s);
    ParseDigits(s);
  }

  /** BigInteger(String) reads a digit string as its value. */
  lemma {:induction false} ParseDigits(s: string)
    requires AllDigits(s) && |s| >= 1
    ensures ParseSigned(s) == Some(DecimalValue(s))
  {
  }

  /** Ten digit strings in a row are a digit string. */
  lemma {:induction false} DigitsChain(p1: string, p2: string, p3: string, p4: string, p5: string,
                                       p6: string, p7: string, p8: string, p9: string, p10: string)
    requires AllDigits(p1) && AllDigits(p2) && AllDigits(p3) && AllDigits(p4) && AllDigits(p5)
    requires AllDigits(p6) && AllDigits(p7) && AllDigits(p8) && AllDigits(p9) && AllDigits(p10)
    ensures AllDigits(p1 + p2 + p3 + p4 + p5 + p6 + p7 + p8 + p9 + p10)
  {
    var q := p1;
    AllDigitsAppend(q, p2); q := q + p2;
    AllDigitsAppend(q, p3); q := q + p3;
    AllDigitsAppend(q, p4); q := q + p4;
    AllDigitsAppend(q, p5); q := q + p5;
    AllDigitsAppend(q, p6); q := q + p6;
    AllDigitsAppend(q, p7); q := q + p7;
    AllDigitsAppend(q, p8); q := q + p8;
    AllDigitsAppend(q, p9); q := q + p9;
    AllDigitsAppend(q, p10);
  }

  /** Different in-range fields pack to different numbers. */
  lemma {:induction false} PackedDiffers(f: Fields, g: Fields)
    requires InRange(f) && InRange(g) && f != g
    ensures Packed(f) != Packed(g)
  {
    if Packed(f) == Packed(g) {
      PackedInjective(f, g);
    }
  }
}
