/** The mod-1087 check-digit scheme that every revision of the codec uses.
    For a value nn the check digits are cc = P - (nn * R mod P), where
    P = 1087 is the largest prime below 33^2 = 1089 and R = 1089 - P = 2;
    the checked value is nn * 1089 + cc. A checked value is intact when it
    is a multiple of P, and nn is recovered as checked / 1089. */
module CheckDigits {
  import opened Positional

  /** The number base of the alphabet encodings */
  const BASE: nat := 33
  /** BASE^2 */
  const BASE_SQUARED: nat := BASE * BASE
  /** The largest prime below BASE^2 */
  const PRIME: nat := 1087
  /** BASE^2 - PRIME */
  const RESIDUAL: nat := BASE_SQUARED - PRIME
  /** The number of alphabet symbols of a full encoded form */
  const MAX_DIGITS: nat := 18

  /** The two check digits, as one number in 1..PRIME. */
  function CheckDigitsOf(nn: int): (cc: int)
    ensures 1 <= cc <= PRIME
  {
    PRIME - (nn * RESIDUAL) % PRIME
  }

  /** nn with its check digits appended: nn * BASE^2 + cc. */
  function WithCheckDigits(nn: int): int
  {
    nn * BASE_SQUARED + CheckDigitsOf(nn)
  }

  /** The verification test applied to a decoded value. */
  predicate IsIntact(c: int)
  {
    c % PRIME == 0
  }

  /** Removing the check digits of a decoded (non-negative) value. */
  function Strip(c: nat): nat
  {
    c / BASE_SQUARED
  }

  /** BASE^2 and the residual agree modulo the prime, which is what makes
      the cheaper formula for cc correct. */
  lemma {:induction false} ResidualCongruence()
    ensures RESIDUAL == 2 && BASE_SQUARED == 1089
    ensures BASE_SQUARED % PRIME == RESIDUAL % PRIME
  {
  }

  /** Every checked value passes the verification test. */
  lemma {:induction false} WithCheckDigitsIntact(nn: int)
    ensures IsIntact(WithCheckDigits(nn))
  {
    var m, q := (nn * 2) % PRIME, (nn * 2) / PRIME;
    assert nn * 2 == PRIME * q + m;
    var c := WithCheckDigits(nn);
    assert c == nn * 1087 + nn * 2 + 1087 - m;
    assert c == PRIME * (nn + q + 1);
    DivModUnique(c, PRIME, nn + q + 1, 0);
  }

  /** Removing the check digits of nn's checked value gives nn back, and the
      checked value is larger than nn. */
  lemma {:induction false} StripWithCheckDigits(nn: nat)
    ensures WithCheckDigits(nn) >= 0
    ensures Strip(WithCheckDigits(nn)) == nn
    ensures WithCheckDigits(nn) > nn
  {
    var c := WithCheckDigits(nn);
    DivModUnique(c, BASE_SQUARED, nn, CheckDigitsOf(nn));
  }

  /** A negative value has a negative checked value, so an encoder that
      refuses negative checked values refuses every negative input. */
  lemma {:induction false} NegativeWithCheckDigits(nn: int)
    requires nn < 0
    ensures WithCheckDigits(nn) < 0
  {
    assert nn * BASE_SQUARED <= -1089;
  }

  lemma {:induction false} Pow33Values()
    ensures Pow(33, 9) == 46411484401953
    ensures Pow(33, 18) == 2154025884392726618070214209
  {
    assert Pow(33, 3) == 35937;
    assert Pow(33, 6) == 1291467969 by { PowAdd(33, 3, 3); }
    assert Pow(33, 9) == 46411484401953 by { PowAdd(33, 6, 3); }
    PowAdd(33, 9, 9);
  }

  lemma {:induction false} Pow10Value()
    ensures Pow(10, 24) == 1000000000000000000000000
  {
    assert Pow(10, 3) == 1000;
    assert Pow(10, 6) == 1000000 by { PowAdd(10, 3, 3); }
    assert Pow(10, 12) == 1000000000000 by { PowAdd(10, 6, 6); }
    PowAdd(10, 12, 12);
  }

  /** A packed value below 10^24 has a checked value that fits in 18
      base-33 digits. */
  lemma {:induction false} CheckedValueFits(nn: nat)
    requires nn < Pow(10, 24)
    ensures WithCheckDigits(nn) < Pow(BASE, MAX_DIGITS)
  {
    Pow33Values();
    Pow10Value();
    MulLe(BASE_SQUARED, nn, 1000000000000000000000000 - 1);
  }

  /** BASE^MAX_DIGITS itself is never a checked value: the prime does not divide it. */
  lemma {:induction false} LimitNotIntact()
    ensures !IsIntact(Pow(BASE, MAX_DIGITS))
  {
    Pow33Values();
  }

  /** 560 is the inverse of 33 modulo the prime. */
  lemma {:induction false} TimesBaseKeepsNonMultiple(m: int)
    requires m % PRIME != 0
    ensures (m * BASE) % PRIME != 0
  {
    if (m * BASE) % PRIME == 0 {
      var k := (m * BASE) / PRIME;
      assert m * 33 == 1087 * k;
      assert m * 33 * 560 == 1087 * k * 560;
      assert m * 33 * 560 == 1087 * 17 * m + m;
      assert m == 1087 * (560 * k - 17 * m);
      DivModUnique(m, PRIME, 560 * k - 17 * m, 0);
    }
  }

  lemma {:induction false} TimesPowKeepsNonMultiple(m: int, k: nat)
    requires m % PRIME != 0
    ensures (m * Pow(BASE, k)) % PRIME != 0
  {
    if k > 0 {
      TimesPowKeepsNonMultiple(m, k - 1);
      TimesBaseKeepsNonMultiple(m * Pow(BASE, k - 1));
      assert m * Pow(BASE, k) == m * Pow(BASE, k - 1) * BASE;
    }
  }

  /** Changing one base-33 digit of an intact value, at any position and by
      any non-zero amount a digit can change by, yields a value that is not
      intact: a single substituted symbol is always detected. */
  lemma {:induction false} SubstitutionDetected(c: int, k: nat, delta: int)
    requires IsIntact(c)
    requires 0 < delta < BASE || 0 < -delta < BASE
    ensures !IsIntact(c + delta * Pow(BASE, k))
  {
    assert delta % PRIME != 0 by {
      if delta < 0 {
        DivModUnique(delta, PRIME, -1, delta + PRIME);
      } else {
        DivModUnique(delta, PRIME, 0, delta);
      }
    }
    TimesPowKeepsNonMultiple(delta, k);
    var d := delta * Pow(BASE, k);
    if IsIntact(c + d) {
      var x, y := (c + d) / PRIME, c / PRIME;
      assert d == PRIME * (x - y);
      DivModUnique(d, PRIME, x - y, 0);
    }
  }
}
