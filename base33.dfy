/** Base-33 text over an alphabet of 33 distinct symbols: a symbol's value is
    its position in the alphabet (Java's String.indexOf), a text's value is
    the Horner evaluation of its symbol values, and the encoding of a number
    is the symbols of its base-33 digits, left-padded with the zero symbol.
    Both revisions use this scheme, with two different alphabets. */
module Base33 {
  import opened Positional
  import opened CheckDigits

  predicate IsAlphabet(abc: string)
  {
    |abc| == BASE && forall i, j :: 0 <= i < j < |abc| ==> abc[i] != abc[j]
  }

  /** The symbols of a sequence of base-33 digits. */
  function Symbols(abc: string, ds: seq<nat>): (s: string)
    requires |abc| == BASE
    requires forall i :: 0 <= i < |ds| ==> ds[i] < BASE
    ensures |s| == |ds|
    ensures forall i :: 0 <= i < |ds| ==> s[i] == abc[ds[i]]
  {
    seq(|ds|, i requires 0 <= i < |ds| => abc[ds[i]])
  }

  /** String.indexOf: the first position of c in s, or -1. */
  function IndexOf(s: string, c: char): (r: int)
    ensures -1 <= r < |s|
    ensures r >= 0 ==> s[r] == c && forall j :: 0 <= j < r ==> s[j] != c
    ensures r == -1 <==> c !in s
  {
    if s == [] then -1
    else if s[0] == c then 0
    else
      var k := IndexOf(s[1..], c);
      if k < 0 then -1 else k + 1
  }

  /** The symbol values of the characters of s. */
  function Indices(abc: string, s: string): (ds: seq<int>)
    ensures |ds| == |s|
    ensures forall i :: 0 <= i < |s| ==> ds[i] == IndexOf(abc, s[i])
  {
    seq(|s|, i requires 0 <= i < |s| => IndexOf(abc, s[i]))
  }

  /** The value of a base-33 text. */
  function Horner(abc: string, s: string): int
  {
    Value(BASE, Indices(abc, s))
  }

  /** The most significant symbols of the encoding of n, at least minWidth of
      them, as a "divide until zero, but at least minWidth times" loop
      produces them. */
  function Encoding(abc: string, n: nat, minWidth: int): (s: string)
    requires |abc| == BASE
    ensures |s| == Width(BASE, n, minWidth)
    ensures forall i :: 0 <= i < |s| ==> s[i] in abc
  {
    Symbols(abc, Digits(BASE, n, Width(BASE, n, minWidth)))
  }

  lemma {:induction false} IndexOfSymbol(abc: string, d: nat)
    requires IsAlphabet(abc) && d < BASE
    ensures IndexOf(abc, abc[d]) == d
  {
  }

  lemma {:induction false} IndicesOfSymbols(abc: string, ds: seq<nat>)
    requires IsAlphabet(abc)
    requires forall i :: 0 <= i < |ds| ==> ds[i] < BASE
    ensures Indices(abc, Symbols(abc, ds)) == ds
  {
    var s := Symbols(abc, ds);
    forall i | 0 <= i < |ds|
      ensures Indices(abc, s)[i] == ds[i]
    {
      IndexOfSymbol(abc, ds[i]);
    }
  }

  /** Decoding an encoding gives the number back. */
  lemma {:induction false} HornerEncoding(abc: string, n: nat, minWidth: int)
    requires IsAlphabet(abc)
    ensures Horner(abc, Encoding(abc, n, minWidth)) == n
  {
    var k := Width(BASE, n, minWidth);
    IndicesOfSymbols(abc, Digits(BASE, n, k));
    ValueOfDigitsFits(BASE, n, k);
  }

  /** The padding of an encoding is made of the symbol for zero. */
  lemma {:induction false} EncodingPadding(abc: string, n: nat, minWidth: int)
    requires IsAlphabet(abc)
    ensures var s := Encoding(abc, n, minWidth);
      forall i :: 0 <= i < |s| - NumDigits(BASE, n) ==> s[i] == abc[0]
  {
    LeadingZeros(BASE, n, Width(BASE, n, minWidth));
  }

  /** An encoding is the unique text of its length over the alphabet that
      has its value. */
  lemma {:induction false} EncodingUnique(abc: string, s: string)
    requires IsAlphabet(abc)
    requires forall i :: 0 <= i < |s| ==> s[i] in abc
    ensures Horner(abc, s) >= 0
    ensures NumDigits(BASE, Horner(abc, s)) <= |s|
    ensures |s| >= 1 ==> s == Encoding(abc, Horner(abc, s), |s|)
  {
    var ds := Indices(abc, s);
    ValueBound(BASE, ds);
    DigitsOfValue(BASE, ds);
    var n := Horner(abc, s);
    NumDigitsBound(BASE, n, |s|);
    if |s| >= 1 {
      var e := Encoding(abc, n, |s|);
      forall i | 0 <= i < |s|
        ensures e[i] == s[i]
      {
        assert e[i] == abc[ds[i]];
      }
    }
  }

  lemma {:induction false} IndicesUpdate(abc: string, s: string, p: nat, c: char)
    requires p < |s|
    ensures Indices(abc, s[p := c]) == Indices(abc, s)[p := IndexOf(abc, c)]
  {
  }

  /** Replacing one symbol changes the value by the change of its symbol
      value times the power of 33 of its position. */
  lemma {:induction false} HornerUpdate(abc: string, s: string, p: nat, c: char)
    requires p < |s|
    ensures Horner(abc, s[p := c]) ==
      Horner(abc, s) + (IndexOf(abc, c) - IndexOf(abc, s[p])) * Pow(BASE, |s| - 1 - p)
  {
    IndicesUpdate(abc, s, p, c);
    ValueChange(Indices(abc, s), Indices(abc, s[p := c]), p, IndexOf(abc, c), IndexOf(abc, s[p]));
  }

  lemma {:induction false} ValueChange(ds: seq<int>, es: seq<int>, p: nat, x: int, y: int)
    requires p < |ds| && es == ds[p := x] && ds[p] == y
    ensures Value(BASE, es) == Value(BASE, ds) + (x - y) * Pow(BASE, |ds| - 1 - p)
  {
    ValueUpdate(BASE, ds, p, x);
  }

  /** Two different symbols of an alphabet differ in value by less than 33. */
  lemma {:induction false} SymbolDifference(abc: string, c: char, c': char)
    requires IsAlphabet(abc) && c in abc && c' in abc && c != c'
    ensures var delta := IndexOf(abc, c) - IndexOf(abc, c');
      0 < delta < BASE || 0 < -delta < BASE
  {
  }

  /** Replacing one symbol by another changes the value by a multiple of the
      power of 33 of that position, the multiple being non-zero and smaller
      than 33 in magnitude. */
  lemma {:induction false} HornerSubstitution(abc: string, s: string, p: nat, c: char)
    requires IsAlphabet(abc)
    requires forall i :: 0 <= i < |s| ==> s[i] in abc
    requires p < |s| && c in abc && c != s[p]
    ensures var delta := IndexOf(abc, c) - IndexOf(abc, s[p]);
      (0 < delta < BASE || 0 < -delta < BASE) &&
      Horner(abc, s[p := c]) == Horner(abc, s) + delta * Pow(BASE, |s| - 1 - p)
  {
    HornerUpdate(abc, s, p, c);
    SymbolDifference(abc, c, s[p]);
  }

  /** A single substituted symbol always breaks intact check digits. */
  lemma {:induction false} SubstitutionBreaksCheck(abc: string, s: string, p: nat, c: char)
    requires IsAlphabet(abc)
    requires forall i :: 0 <= i < |s| ==> s[i] in abc
    requires p < |s| && c in abc && c != s[p]
    requires IsIntact(Horner(abc, s))
    ensures !IsIntact(Horner(abc, s[p := c]))
  {
    HornerSubstitution(abc, s, p, c);
    SubstitutionDetected(Horner(abc, s), |s| - 1 - p, IndexOf(abc, c) - IndexOf(abc, s[p]));
  }

  /** The symbol of one more significant digit goes in front. */
  lemma {:induction false} SymbolsCons(abc: string, d: nat, ds: seq<nat>)
    requires |abc| == BASE && d < BASE
    requires forall i :: 0 <= i < |ds| ==> ds[i] < BASE
    ensures Symbols(abc, [d] + ds) == [abc[d]] + Symbols(abc, ds)
  {
  }

  /** The value of a one-longer prefix. */
  lemma {:induction false} HornerSnoc(abc: string, s: string, i: nat)
    requires i < |s|
    ensures Horner(abc, s[..i + 1]) == Horner(abc, s[..i]) * BASE + IndexOf(abc, s[i])
  {
    assert Indices(abc, s[..i + 1]) == Indices(abc, s[..i]) + [IndexOf(abc, s[i])];
    ValueSnoc(BASE, Indices(abc, s[..i]), IndexOf(abc, s[i]));
  }

  /** String.replaceAll with a character class: s without the characters in
      drop, the others kept in order. */
  function Remove(s: string, drop: set<char>): (r: string)
    ensures |r| <= |s|
    ensures forall i :: 0 <= i < |r| ==> r[i] !in drop
  {
    if s == [] then []
    else if s[0] in drop then Remove(s[1..], drop)
    else [s[0]] + Remove(s[1..], drop)
  }

  /** What is kept comes from the text. */
  lemma {:induction false} RemoveKeeps(s: string, drop: set<char>)
    ensures forall i :: 0 <= i < |Remove(s, drop)| ==> Remove(s, drop)[i] in s
  {
    if s != [] {
      RemoveKeeps(s[1..], drop);
    }
  }

  lemma {:induction false} RemoveAppend(s: string, t: string, drop: set<char>)
    ensures Remove(s + t, drop) == Remove(s, drop) + Remove(t, drop)
  {
    if s != [] {
      assert (s + t)[1..] == s[1..] + t;
      RemoveAppend(s[1..], t, drop);
    } else {
      assert s + t == t;
    }
  }

  lemma {:induction false} RemoveNothing(s: string, drop: set<char>)
    requires forall i :: 0 <= i < |s| ==> s[i] !in drop
    ensures Remove(s, drop) == s
  {
    if s != [] {
      RemoveNothing(s[1..], drop);
    }
  }

  /** Removing from a text split around one kept character. */
  lemma {:induction false} RemoveAround(pre: string, x: char, post: string, drop: set<char>)
    requires x !in drop
    ensures Remove(pre + ([x] + post), drop) == Remove(pre, drop) + ([x] + Remove(post, drop))
  {
    RemoveAppend(pre, [x] + post, drop);
    RemoveAppend([x], post, drop);
    assert Remove([x], drop) == [x];
  }

  lemma {:induction false} UpdateMiddle<T>(xs: seq<T>, x: T, y: T, ys: seq<T>)
    ensures (xs + ([x] + ys))[|xs|] == x
    ensures (xs + ([x] + ys))[|xs| := y] == xs + ([y] + ys)
  {
  }

  /** Replacing a kept character by another kept character replaces it in
      the result, at the position given by what is kept before it. */
  lemma {:induction false} RemoveUpdate(s: string, q: nat, c: char, drop: set<char>)
    requires q < |s| && s[q] !in drop && c !in drop
    ensures var p := |Remove(s[..q], drop)|;
      p < |Remove(s, drop)| && Remove(s, drop)[p] == s[q] &&
      Remove(s[q := c], drop) == Remove(s, drop)[p := c]
  {
    var pre, post := s[..q], s[q + 1..];
    assert s == pre + ([s[q]] + post);
    assert s[q := c] == pre + ([c] + post);
    RemoveAround(pre, s[q], post, drop);
    RemoveAround(pre, c, post, drop);
    UpdateMiddle(Remove(pre, drop), s[q], c, Remove(post, drop));
  }

  /** Replacing a dropped character by a kept one inserts it into the result. */
  lemma {:induction false} RemoveUpdateDropped(s: string, q: nat, c: char, drop: set<char>)
    requires q < |s| && s[q] in drop && c !in drop
    ensures |Remove(s[q := c], drop)| == |Remove(s, drop)| + 1
  {
    var pre, post := s[..q], s[q + 1..];
    assert s == pre + ([s[q]] + post);
    assert s[q := c] == pre + ([c] + post);
    RemoveAppend(pre, [s[q]] + post, drop);
    RemoveAround(pre, c, post, drop);
    RemoveAppend([s[q]], post, drop);
    assert Remove([s[q]], drop) == [];
  }

  /** The position of the first character of s outside the alphabet, or -1. */
  function FirstOutside(abc: string, s: string): (k: int)
    ensures -1 <= k < |s|
    ensures k >= 0 ==> s[k] !in abc && forall j :: 0 <= j < k ==> s[j] in abc
    ensures k == -1 <==> forall j :: 0 <= j < |s| ==> s[j] in abc
  {
    if s == [] then -1
    else if s[0] !in abc then 0
    else
      var k := FirstOutside(abc, s[1..]);
      if k < 0 then -1 else k + 1
  }
}
