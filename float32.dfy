/** The one floating-point question the decoder asks: is the IEEE 754 single-precision
    number whose bit pattern is `w` greater than or equal to 3? */
module Float32 {

  /** A 32-bit pattern, as read little-endian from the file. */
  type Word = w: nat | w < 0x1_0000_0000

  function Pow2(k: nat): (p: nat)
    ensures p >= 1
  {
    if k == 0 then 1 else 2 * Pow2(k - 1)
  }

  lemma {:induction false} Pow2Monotone(j: nat, k: nat)
    requires j <= k
    ensures Pow2(j) <= Pow2(k)
  {
    if j < k {
      Pow2Monotone(j, k - 1);
    }
  }

  function SignBit(w: Word): nat { w / 0x8000_0000 }
  function BiasedExponent(w: Word): nat { (w / 0x80_0000) % 0x100 }
  function Fraction(w: Word): nat { w % 0x80_0000 }

  predicate IsNaN(w: Word) { BiasedExponent(w) == 0xFF && Fraction(w) != 0 }
  predicate IsInfinite(w: Word) { BiasedExponent(w) == 0xFF && Fraction(w) == 0 }

  /** The absolute value of a finite pattern. */
  function Magnitude(w: Word): real
    requires BiasedExponent(w) < 0xFF
  {
    FiniteValue(BiasedExponent(w), Fraction(w))
  }

  /** The value of biased exponent e and fraction f: subnormal `f * 2^-149`, normal
      `(2^23 + f) * 2^(e - 150)`. */
  function FiniteValue(e: nat, f: nat): real
  {
    if e == 0 then f as real / Pow2(149) as real
    else if e >= 150 then ((0x80_0000 + f) * Pow2(e - 150)) as real
    else (0x80_0000 + f) as real / Pow2(150 - e) as real
  }

  /** The comparison `x >= 3` on the number `w` encodes: false for every NaN. */
  predicate AtLeastThree(w: Word)
  {
    if IsNaN(w) then false
    else if IsInfinite(w) then SignBit(w) == 0
    else SignBit(w) == 0 && Magnitude(w) >= 3.0
  }

  lemma RealQuotient(a: real, b: real)
    requires b > 0.0
    ensures a / b >= 3.0 <==> a >= 3.0 * b
  {
    var q := a / b;
    assert a == q * b;
    if q >= 3.0 {
      assert q * b >= 3.0 * b;
    } else {
      assert q * b < 3.0 * b;
    }
  }

  lemma QuotientAtLeastThree(x: nat, y: nat)
    requires y > 0
    ensures x as real / y as real >= 3.0 <==> x >= 3 * y
  {
    RealQuotient(x as real, y as real);
    assert (3 * y) as real == 3.0 * y as real;
  }

  lemma {:induction false} Pow2Add(a: nat, b: nat)
    ensures Pow2(a + b) == Pow2(a) * Pow2(b)
  {
    if b > 0 {
      Pow2Add(a, b - 1);
    }
  }

  lemma Pow2Constants()
    ensures Pow2(21) == 0x20_0000 && Pow2(22) == 0x40_0000 && Pow2(23) == 0x80_0000
  {
    assert Pow2(7) == 0x80;
    Pow2Add(7, 7);
    Pow2Add(14, 7);
    Pow2Add(21, 1);
    Pow2Add(21, 2);
  }

  /** Below 2^23 * 3 the quotient by a power of two at least 2^23 stays under 3. */
  lemma SmallQuotient(x: nat, k: nat)
    requires 23 <= k && x < 0x100_0000
    ensures x as real / Pow2(k) as real < 3.0
  {
    Pow2Monotone(23, k);
    Pow2Constants();
    QuotientAtLeastThree(x, Pow2(k));
  }

  /** Dividing a normal significand by at most 2^21 leaves at least 4. */
  lemma LargeQuotient(m: nat, k: nat)
    requires k <= 21 && 0x80_0000 <= m
    ensures m as real / Pow2(k) as real >= 3.0
  {
    Pow2Monotone(k, 21);
    Pow2Constants();
    QuotientAtLeastThree(m, Pow2(k));
  }

  /** A positive finite number is at least 3 exactly when its exponent is above 128,
      or is 128 with the top fraction bit set (3 = 1.5 * 2^1). */
  lemma MagnitudeAtLeastThree(w: Word)
    requires BiasedExponent(w) < 0xFF
    ensures var e, f := BiasedExponent(w), Fraction(w);
            Magnitude(w) >= 3.0 <==> e > 128 || (e == 128 && f >= 0x40_0000)
  {
    FiniteValueAtLeastThree(BiasedExponent(w), Fraction(w));
  }

  lemma FiniteValueAtLeastThree(e: nat, f: nat)
    requires e < 0xFF && f < 0x80_0000
    ensures FiniteValue(e, f) >= 3.0 <==> e > 128 || (e == 128 && f >= 0x40_0000)
  {
    if e < 128 {
      SmallExponent(e, f);
    } else if e == 128 {
      ExponentOne(f);
    } else {
      LargeExponent(e, f);
    }
  }

  /** Below exponent 1 (biased 128) every finite value is under 2. */
  lemma SmallExponent(e: nat, f: nat)
    requires e < 128 && f < 0x80_0000
    ensures FiniteValue(e, f) < 3.0
  {
    if e == 0 {
      SmallQuotient(f, 149);
    } else {
      SmallQuotient(0x80_0000 + f, 150 - e);
    }
  }

  /** At exponent 1 the value is `(2^23 + f) / 2^22`, at least 3 once f reaches 2^22. */
  lemma ExponentOne(f: nat)
    ensures FiniteValue(128, f) >= 3.0 <==> f >= 0x40_0000
  {
    Pow2Constants();
    QuotientAtLeastThree(0x80_0000 + f, Pow2(22));
  }

  /** From exponent 2 (biased 129) on every value is at least 4. */
  lemma LargeExponent(e: nat, f: nat)
    requires 128 < e
    ensures FiniteValue(e, f) >= 3.0
  {
    var m := 0x80_0000 + f;
    if e < 150 {
      LargeQuotient(m, 150 - e);
    } else {
      assert m * Pow2(e - 150) >= m;
    }
  }

  lemma Decompose(w: Word)
    ensures SignBit(w) <= 1 && BiasedExponent(w) < 0x100 && Fraction(w) < 0x80_0000
    ensures w == SignBit(w) * 0x8000_0000 + BiasedExponent(w) * 0x80_0000 + Fraction(w)
  {
  }

  /** The whole test is one unsigned comparison on the bit pattern: 3.0 is 0x40400000 and
      positive infinity 0x7F800000; every NaN and every negative pattern lies above. */
  lemma AtLeastThreeIsBitRange(w: Word)
    ensures AtLeastThree(w) <==> 0x4040_0000 <= w <= 0x7F80_0000
  {
    Decompose(w);
    if BiasedExponent(w) < 0xFF {
      MagnitudeAtLeastThree(w);
    }
  }
}
