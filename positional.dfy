/** Positional notation in a base b >= 2: the digits of a natural number, most
    significant first, and their value by Horner evaluation. The base-33
    alphabet codecs and the decimal packed form are both built on it. */
module Positional {

  /** b^k */
  function Pow(b: nat, k: nat): (r: nat)
    requires b >= 2
    ensures r >= 1
  {
    if k == 0 then 1 else b * Pow(b, k - 1)
  }

  lemma {:induction false} MulLe(d: int, x: int, y: int)
    requires d >= 0 && x <= y
    ensures d * x <= d * y
  {
  }

  /** Euclidean division is characterised by its quotient and remainder. */
  lemma {:induction false} DivModUnique(n: int, d: int, q: int, r: int)
    requires d > 0 && n == d * q + r && 0 <= r < d
    ensures n / d == q && n % d == r
  {
    var q0, r0 := n / d, n % d;
    assert n == d * q0 + r0;
    if q0 > q {
      MulLe(d, q + 1, q0);
    } else if q0 < q {
      MulLe(d, q0 + 1, q);
    }
  }

  lemma {:induction false} MulSwap(a: int, x: int, y: int)
    ensures a * (x * y) == x * (a * y)
  {
  }

  lemma {:induction false} PowAdd(b: nat, j: nat, k: nat)
    requires b >= 2
    ensures Pow(b, j + k) == Pow(b, j) * Pow(b, k)
  {
    if k > 0 {
      PowAdd(b, j, k - 1);
      MulSwap(b, Pow(b, j), Pow(b, k - 1));
    }
  }

  lemma {:induction false} PowMonotone(b: nat, j: nat, k: nat)
    requires b >= 2 && j <= k
    ensures Pow(b, j) <= Pow(b, k)
  {
    if j < k {
      PowMonotone(b, j, k - 1);
      MulLe(Pow(b, k - 1), 1, b);
    }
  }

  /** The k low-order digits of n in base b, most significant first. */
  function Digits(b: nat, n: nat, k: nat): (ds: seq<nat>)
    requires b >= 2
    ensures |ds| == k
    ensures forall i :: 0 <= i < k ==> ds[i] < b
  {
    if k == 0 then [] else Digits(b, n / b, k - 1) + [n % b]
  }

  /** Horner evaluation of a digit sequence, most significant first; the
      digits may be any integers (Java's indexOf yields -1 for a missing symbol). */
  function Value(b: nat, ds: seq<int>): int
    requires b >= 2
  {
    if ds == [] then 0 else Value(b, ds[..|ds| - 1]) * b + ds[|ds| - 1]
  }

  /** Number of base-b digits of n; 0 has none. */
  function NumDigits(b: nat, n: nat): nat
    requires b >= 2
  {
    if n == 0 then 0 else 1 + NumDigits(b, n / b)
  }

  /** The number of digits a "divide until 0, but at least minWidth times"
      loop produces: at least one, at least minWidth, and enough for n. */
  function Width(b: nat, n: nat, minWidth: int): (w: nat)
    requires b >= 2
    ensures w >= 1 && w >= minWidth && w >= NumDigits(b, n)
    ensures w == 1 || w == minWidth || w == NumDigits(b, n)
  {
    var m := if minWidth > 1 then minWidth else 1;
    if NumDigits(b, n) > m then NumDigits(b, n) else m
  }

  /** Dividing by b and then by p is dividing by b * p; the remainder
      modulo b * p combines both remainders. */
  lemma {:induction false} DivDiv(n: nat, b: nat, p: nat)
    requires b >= 1 && p >= 1
    ensures n / b / p == n / (b * p)
    ensures n % (b * p) == (n / b) % p * b + n % b
  {
    var q, r := n / b, n % b;
    var q2, r2 := q / p, q % p;
    assert n == b * q + r;
    assert q == p * q2 + r2;
    var rr := b * r2 + r;
    assert n == (b * p) * q2 + rr by {
      assert b * q == b * (p * q2) + b * r2;
      assert b * (p * q2) == (b * p) * q2;
    }
    assert rr < b * p by {
      MulLe(b, r2, p - 1);
      assert b * (p - 1) == b * p - b;
    }
    assert rr == r2 * b + r;
    DivModUnique(n, b * p, q2, rr);
  }

  /** Horner evaluation inverts digit extraction modulo b^k. */
  lemma {:induction false} ValueSnoc(b: nat, ds: seq<int>, d: int)
    requires b >= 2
    ensures Value(b, ds + [d]) == Value(b, ds) * b + d
  {
    assert (ds + [d])[..|ds|] == ds;
  }

  lemma {:induction false} ValueOfDigits(b: nat, n: nat, k: nat)
    requires b >= 2
    ensures Value(b, Digits(b, n, k)) == n % Pow(b, k)
  {
    if k > 0 {
      ValueOfDigits(b, n / b, k - 1);
      DigitsStep(b, n, k);
      ModStep(n, b, Pow(b, k - 1), Pow(b, k), Value(b, Digits(b, n / b, k - 1)));
    }
  }

  /** The remainder modulo b * p from the remainder of n / b modulo p. */
  lemma {:induction false} ModStep(n: nat, b: nat, p: nat, bp: nat, v: int)
    requires b >= 1 && p >= 1 && bp == b * p && v == (n / b) % p
    ensures n % bp == v * b + n % b
  {
    DivDiv(n, b, p);
  }

  /** The value of k digits from that of the k - 1 digits above the last. */
  lemma {:induction false} DigitsStep(b: nat, n: nat, k: nat)
    requires b >= 2 && k > 0
    ensures Value(b, Digits(b, n, k)) == Value(b, Digits(b, n / b, k - 1)) * b + n % b
  {
    ValueSnoc(b, Digits(b, n / b, k - 1), n % b);
  }

  /** n has at most k digits exactly when it is below b^k. */
  lemma {:induction false} NumDigitsBound(b: nat, n: nat, k: nat)
    requires b >= 2
    ensures n < Pow(b, k) <==> NumDigits(b, n) <= k
  {
    if n == 0 {
    } else if k == 0 {
    } else {
      NumDigitsBound(b, n / b, k - 1);
      var p := Pow(b, k - 1);
      DivDiv(n, b, p);
      assert Pow(b, k) == b * p;
      // n < b * p exactly when n / (b * p) == 0
      if n < b * p {
        DivModUnique(n, b * p, 0, n);
      } else {
        assert n / (b * p) >= 1 by {
          var q := n / (b * p);
          if q <= 0 {
            MulLe(b * p, q, 0);
          }
        }
      }
      assert (n / b / p == 0) <==> (n / b < p) by {
        var m := n / b;
        if m < p {
          DivModUnique(m, p, 0, m);
        } else {
          var q := m / p;
          if q <= 0 {
            MulLe(p, q, 0);
          }
        }
      }
    }
  }

  /** Digits of a value that fits: the full digits evaluate back to it. */
  lemma {:induction false} ValueOfDigitsFits(b: nat, n: nat, k: nat)
    requires b >= 2 && NumDigits(b, n) <= k
    ensures Value(b, Digits(b, n, k)) == n
  {
    NumDigitsBound(b, n, k);
    ValueOfDigits(b, n, k);
    DivModUnique(n, Pow(b, k), 0, n);
  }

  /** Horner evaluation distributes over concatenation. */
  lemma {:induction false} ValueAppend(b: nat, xs: seq<int>, ys: seq<int>)
    requires b >= 2
    ensures Value(b, xs + ys) == Value(b, xs) * Pow(b, |ys|) + Value(b, ys)
  {
    if ys == [] {
      assert xs + ys == xs;
    } else {
      var ys', last := ys[..|ys| - 1], ys[|ys| - 1];
      assert ys == ys' + [last];
      assert xs + ys == (xs + ys') + [last];
      ValueSnoc(b, xs + ys', last);
      ValueSnoc(b, ys', last);
      ValueAppend(b, xs, ys');
      ShiftedUpdate(b, Value(b, ys'), Value(b, xs + ys'), Value(b, xs), Pow(b, |ys'|),
                    last, Pow(b, |ys|));
    }
  }

  /** Every digit sequence of length k evaluates below b^k. */
  lemma {:induction false} ValueBound(b: nat, ds: seq<int>)
    requires b >= 2
    requires forall i :: 0 <= i < |ds| ==> 0 <= ds[i] < b
    ensures 0 <= Value(b, ds) < Pow(b, |ds|)
  {
    if ds != [] {
      var init := ds[..|ds| - 1];
      ValueBound(b, init);
      BoundStep(b, Value(b, init), Pow(b, |init|), ds[|ds| - 1], Pow(b, |ds|));
    }
  }

  /** One more digit below b keeps a value below the next power. */
  lemma {:induction false} BoundStep(b: nat, v: int, p: nat, d: int, bp: nat)
    requires 0 <= v < p && 0 <= d < b && bp == b * p
    ensures 0 <= v * b + d < bp
  {
    MulLe(b, v, p - 1);
    MulLe(b, 0, v);
    assert b * (p - 1) == b * p - b;
  }

  /** Digits are determined by the value: a digit sequence evaluates to a
      number whose |ds|-digit expansion is that sequence. */
  lemma {:induction false} DigitsOfValue(b: nat, ds: seq<int>)
    requires b >= 2
    requires forall i :: 0 <= i < |ds| ==> 0 <= ds[i] < b
    ensures Value(b, ds) >= 0
    ensures Digits(b, Value(b, ds), |ds|) == ds
  {
    ValueBound(b, ds);
    if ds != [] {
      var init := ds[..|ds| - 1];
      var last := ds[|ds| - 1];
      ValueBound(b, init);
      DigitsOfValue(b, init);
      var v := Value(b, init);
      DivModUnique(v * b + last, b, v, last);
      assert ds == init + [last];
    }
  }

  /** A quotient is zero exactly when the dividend is below the divisor. */
  lemma {:induction false} DivZeroIff(n: nat, p: nat)
    requires p >= 1
    ensures n / p == 0 <==> n < p
  {
    if n < p {
      DivModUnique(n, p, 0, n);
    } else {
      var q := n / p;
      if q <= 0 {
        MulLe(p, q, 0);
      }
    }
  }

  /** The j + k low digits are the j digits above the k low ones, followed by
      the k low ones. */
  lemma {:induction false} DigitsSplit(b: nat, n: nat, j: nat, k: nat)
    requires b >= 2
    ensures Digits(b, n, j + k) == Digits(b, n / Pow(b, k), j) + Digits(b, n, k)
  {
    if k == 0 {
      assert Digits(b, n, 0) == [];
    } else {
      DigitsSplit(b, n / b, j, k - 1);
      DivDiv(n, b, Pow(b, k - 1));
      assert Pow(b, k) == b * Pow(b, k - 1);
    }
  }

  /** One more digit is the next more significant one, put in front; it is
      the remainder of what is left after dividing by b once more. */
  lemma {:induction false} DigitsCons(b: nat, n: nat, k: nat)
    requires b >= 2
    ensures Digits(b, n, k + 1) == [(n / Pow(b, k)) % b] + Digits(b, n, k)
    ensures n / Pow(b, k + 1) == n / Pow(b, k) / b
  {
    DigitsSplit(b, n, 1, k);
    DigitsOne(b, n / Pow(b, k));
    DivPowSucc(b, n, k);
  }

  lemma {:induction false} DigitsOne(b: nat, m: nat)
    requires b >= 2
    ensures Digits(b, m, 1) == [m % b]
  {
    assert Digits(b, m / b, 0) == [];
  }

  lemma {:induction false} DivPowSucc(b: nat, n: nat, k: nat)
    requires b >= 2
    ensures n / Pow(b, k + 1) == n / Pow(b, k) / b
  {
    var p := Pow(b, k);
    assert Pow(b, k + 1) == b * p == p * b;
    DivDiv(n, p, b);
  }

  /** The digits of zero are all zero. */
  lemma {:induction false} DigitsOfZero(b: nat, k: nat)
    requires b >= 2
    ensures forall i :: 0 <= i < k ==> Digits(b, 0, k)[i] == 0
  {
    if k > 0 {
      DigitsOfZero(b, k - 1);
      assert Digits(b, 0, k) == Digits(b, 0, k - 1) + [0];
    }
  }

  /** Above its NumDigits(b, n) significant digits, n has only zero digits. */
  lemma {:induction false} LeadingZeros(b: nat, n: nat, k: nat)
    requires b >= 2 && NumDigits(b, n) <= k
    ensures forall i :: 0 <= i < k - NumDigits(b, n) ==> Digits(b, n, k)[i] == 0
  {
    var m := NumDigits(b, n);
    DigitsSplit(b, n, k - m, m);
    NumDigitsBound(b, n, m);
    DivZeroIff(n, Pow(b, m));
    DigitsOfZero(b, k - m);
  }

  /** Changing digit i of a digit sequence by delta changes its value by
      delta times the weight of position i. */
  lemma {:induction false} ValueUpdate(b: nat, ds: seq<int>, i: nat, x: int)
    requires b >= 2 && i < |ds|
    ensures Value(b, ds[i := x]) == Value(b, ds) + (x - ds[i]) * Pow(b, |ds| - 1 - i)
    decreases |ds|
  {
    var init, last := ds[..|ds| - 1], ds[|ds| - 1];
    SnocView(ds);
    if i == |ds| - 1 {
      assert ds[i := x] == init + [x];
      ValueSnoc(b, init, last);
      ValueSnoc(b, init, x);
    } else {
      var init' := init[i := x];
      assert ds[i := x] == init' + [last];
      assert init[i] == ds[i];
      ValueUpdate(b, init, i, x);
      UpdateStep(b, init, init', last, x - ds[i], Pow(b, |init| - 1 - i), Pow(b, |ds| - 1 - i));
    }
  }

  /** A non-empty sequence is its prefix followed by its last element. */
  lemma {:induction false} SnocView<T>(ds: seq<T>)
    requires |ds| > 0
    ensures ds == ds[..|ds| - 1] + [ds[|ds| - 1]]
  {
  }

  lemma {:induction false} UpdateStep(b: nat, init: seq<int>, init': seq<int>, last: int,
                                      d: int, w: int, bw: int)
    requires b >= 2 && Value(b, init') == Value(b, init) + d * w && bw == b * w
    ensures Value(b, init' + [last]) == Value(b, init + [last]) + d * bw
  {
    ValueSnoc(b, init, last);
    ValueSnoc(b, init', last);
    ShiftedUpdate(b, Value(b, init), Value(b, init'), d, w, last, bw);
  }

  lemma {:induction false} ShiftedUpdate(b: int, v: int, v': int, d: int, p: int, last: int, bp: int)
    requires v' == v + d * p && bp == b * p
    ensures v' * b + last == v * b + last + d * bp
  {
  }
}
