/** The single-precision puzzles (datalab-handout/bits.c), against the meaning that
    section 3.4 of IEEE 754-2008 gives to a 32-bit pattern. Values are scaled by 2^149, so
    that the smallest subnormal is 1 and every finite value is an integer. */
module FloatBits {
  import opened Words

  // ---- What a pattern means ----

  const FRACTIONS: nat := 0x80_0000
  const SIGN_BIT: nat := 0x8000_0000
  const UNIT_SCALE: nat := 149

  function Negative(f: Word32): bool { f >= SIGN_BIT }
  function Exponent(f: Word32): nat { LowBits(Shr(f, 23), 8) }
  function Fraction(f: Word32): nat { LowBits(f, 23) }

  predicate Finite(f: Word32) { Exponent(f) < 255 }
  predicate Infinite(f: Word32) { Exponent(f) == 255 && Fraction(f) == 0 }

  /** The scaled magnitude of a pattern with exponent field `x` and fraction field `m`:
      2^23 + m doubled x - 1 times, or m itself for a subnormal. */
  function Scaled(x: nat, m: nat): nat {
    if x == 0 then m else Raised(FRACTIONS + m, x - 1)
  }

  function Magnitude(f: Word32): nat { Scaled(Exponent(f), Fraction(f)) }
  function Value(f: Word32): int { if Negative(f) then 0 - Magnitude(f) else Magnitude(f) }

  // ---- Putting a pattern together ----

  lemma FieldSizes()
    ensures Pow2(8) == 256 && Pow2(23) == FRACTIONS && Pow2(31) == SIGN_BIT && Pow2(32) == WORD32
  {
    Pow2Sizes();
  }

  /** A field moved to its place in the pattern. */
  lemma Placed(x: nat)
    ensures Raised(x, 8) == 256 * x && Raised(x, 23) == FRACTIONS * x && Raised(x, 31) == SIGN_BIT * x
  {
    FieldSizes();
    RaisedIs(x, 8);
    RaisedIs(x, 23);
    RaisedIs(x, 31);
  }

  lemma FieldsFit(f: Word32)
    ensures Exponent(f) < 256 && Fraction(f) < FRACTIONS
  {
    FieldSizes();
    Split(Shr(f, 23), 8);
    Split(f, 23);
  }

  lemma ExtractedExponent(f: Word32)
    ensures And(Shr(f, 23), 0xFF) == Exponent(f) < 256
  {
    FieldSizes();
    FieldsFit(f);
    AndLowMask(Shr(f, 23), 8);
  }

  lemma ExtractedFraction(f: nat)
    ensures And(f, 0x7F_FFFF) == LowBits(f, 23) < FRACTIONS
  {
    FieldSizes();
    Split(f, 23);
    AndLowMask(f, 23);
  }

  /** The highest place of a number that has no more than n + 1. */
  lemma TopPlace(f: nat, n: nat)
    requires f < 2 * Pow2(n)
    ensures Shr(f, n) % 2 == if f >= Pow2(n) then 1 else 0
  {
    assert Pow2(n + 1) == 2 * Pow2(n);
    ShrBelow(f, n, 1);
    ShrBelow(f, n, 0);
  }

  lemma ExtractedSign(f: Word32)
    ensures And(f, SIGN_BIT) == if Negative(f) then SIGN_BIT else 0
  {
    FieldSizes();
    AndPow2(f, 31);
    AndCommutes(f, SIGN_BIT);
    TopPlace(f, 31);
  }

  /** Three fields side by side, and what they mean once assembled. */
  function Pattern(s: nat, x: nat, m: nat): Word32
    requires s < 2 && x < 256 && m < FRACTIONS
  {
    s * SIGN_BIT + x * FRACTIONS + m
  }

  lemma PatternFields(s: nat, x: nat, m: nat)
    requires s < 2 && x < 256 && m < FRACTIONS
    ensures Negative(Pattern(s, x, m)) == (s == 1)
    ensures Exponent(Pattern(s, x, m)) == x && Fraction(Pattern(s, x, m)) == m
  {
    var f, high := Pattern(s, x, m), 256 * s + x;
    assert f == m + Raised(high, 23) by { Placed(high); }
    assert m < Pow2(23) && x < Pow2(8) by { FieldSizes(); }
    SplitUnique(m, high, 23);
    assert Shr(f, 23) == x + Raised(s, 8) by { Placed(s); }
    SplitUnique(x, s, 8);
  }

  /** Shifting a field into place loses no bits that fit. */
  lemma ShlField(x: nat, n: nat)
    requires Raised(x, n) < WORD32
    ensures Shl(x, n, 32) == Raised(x, n)
  {
    FieldSizes();
    LowBitsSmall(Raised(x, n), 32);
  }

  lemma ShlExponent(x: nat)
    requires x < 256
    ensures Shl(x, 23, 32) == FRACTIONS * x
  {
    Placed(x);
    ShlField(x, 23);
  }

  lemma OrSign(sign: nat, s: nat, y: nat)
    requires sign == s * SIGN_BIT && y < SIGN_BIT
    ensures Or(sign, y) == sign + y
  {
    FieldSizes();
    Placed(s);
    OrDisjoint(s, y, 31);
  }

  lemma OrFraction(high: nat, k: nat, m: nat)
    requires high == k * FRACTIONS && m < FRACTIONS
    ensures Or(high, m) == high + m
  {
    FieldSizes();
    Placed(k);
    OrDisjoint(k, m, 23);
  }

  /** The last line of both puzzles: sign, exponent and fraction side by side. */
  method Assemble(ghost s: nat, sign: nat, exp: nat, frac: nat) returns (f: Word32)
    requires s < 2 && sign == s * SIGN_BIT && exp < 256 && frac < FRACTIONS
    ensures f == Pattern(s, exp, frac)
  {
    var placed := Shl(exp, 23, 32);
    ShlExponent(exp);
    var high := Or(sign, placed);
    OrSign(sign, s, placed);
    OrFraction(high, s * 256 + exp, frac);
    f := Or(high, frac);
  }

  // ---- Multiplying by four ----

  /** Two more in the exponent field is a factor of four. */
  lemma NormalScales(x: nat, m: nat)
    requires x > 0
    ensures Scaled(x + 2, m) == 4 * Scaled(x, m)
  {
    assert Raised(FRACTIONS + m, x + 1) == 2 * Raised(FRACTIONS + m, x);
  }

  /** Every finite magnitude is below the one that the exponent 255 would begin with. */
  lemma FiniteBelow(g: Word32, x: nat, m: nat)
    requires Finite(g) && x >= 255
    ensures Magnitude(g) < Scaled(x, m)
  {
    FieldsFit(g);
    ScaledBelow(Exponent(g), Fraction(g), x);
    RaisedOrder(FRACTIONS, FRACTIONS + m, x - 1);
  }

  /** A smaller exponent field makes a smaller magnitude. */
  lemma ScaledBelow(x: nat, m: nat, y: nat)
    requires x < y && m < FRACTIONS
    ensures Scaled(x, m) < Scaled(y, 0)
  {
    if x == 0 {
      RaisedFurther(FRACTIONS, 0, y - 1);
    } else {
      RaisedOrder(FRACTIONS + m, 2 * FRACTIONS, x - 1);
      RaisedDouble(FRACTIONS, x - 1);
      RaisedFurther(FRACTIONS, x, y - 1);
    }
  }

  /** A small subnormal shifted by two may run into the exponent field, and means
      the right value there too. */
  lemma SmallSubnormalScales(m: nat)
    requires m < FRACTIONS / 2
    ensures 4 * m / FRACTIONS < 2
    ensures Scaled(4 * m / FRACTIONS, 4 * m % FRACTIONS) == 4 * m
  {
  }

  lemma LargeSubnormalScales(m: nat)
    requires FRACTIONS / 2 <= m < FRACTIONS
    ensures Scaled(2, 2 * m - FRACTIONS) == 4 * m
  {
    assert Raised(2 * m, 1) == 2 * Raised(2 * m, 0);
  }

  lemma HighFractionBit(m: nat)
    requires m < FRACTIONS
    ensures And(m, 0x40_0000) != 0 <==> m >= FRACTIONS / 2
  {
    assert Pow2(22) == 0x40_0000 by { FieldSizes(); assert Pow2(23) == 2 * Pow2(22); }
    AndPow2(m, 22);
    AndCommutes(m, 0x40_0000);
    TopPlace(m, 22);
  }

  lemma ShiftFractionOnce(m: nat)
    requires FRACTIONS / 2 <= m < FRACTIONS
    ensures And(Shl(m, 1, 32), 0x7F_FFFF) == 2 * m - FRACTIONS
  {
    assert Raised(m, 1) == 2 * m;
    ShlField(m, 1);
    ExtractedFraction(2 * m);
    FieldSizes();
    Placed(1);
    SplitUnique(2 * m - FRACTIONS, 1, 23);
  }

  lemma ShiftFractionTwice(sign: nat, s: nat, m: nat)
    requires s < 2 && sign == s * SIGN_BIT && m < FRACTIONS / 2
    ensures 4 * m / FRACTIONS < 256
    ensures Or(sign, Shl(m, 2, 32)) == Pattern(s, 4 * m / FRACTIONS, 4 * m % FRACTIONS)
  {
    assert Raised(m, 2) == 2 * Raised(m, 1) == 4 * m;
    ShlField(m, 2);
    OrSign(sign, s, 4 * m);
  }

  function SignOf(f: Word32): nat { if Negative(f) then 1 else 0 }

  /** What multiplying by four owes for a finite argument: the exact product, or the
      infinity of its sign when the product is beyond every finite value. */
  ghost predicate TimesFour(uf: Word32, f: Word32) {
    && Negative(f) == Negative(uf)
    && (Finite(f) ==> Value(f) == 4 * Value(uf))
    && (!Finite(f) ==> Infinite(f) && forall g: Word32 :: Finite(g) ==> Magnitude(g) < 4 * Magnitude(uf))
  }

  lemma ExactProduct(uf: Word32, x: nat, m: nat)
    requires x < 255 && m < FRACTIONS && Finite(uf)
    requires Scaled(x, m) == 4 * Magnitude(uf)
    ensures TimesFour(uf, Pattern(SignOf(uf), x, m))
  {
    PatternFields(SignOf(uf), x, m);
  }

  /** The normal branch of the code, with its saturation. */
  lemma NormalProduct(uf: Word32)
    requires 0 < Exponent(uf) < 255
    ensures var s, x, m := SignOf(uf), Exponent(uf) + 2, Fraction(uf);
            m < FRACTIONS && TimesFour(uf, if x >= 255 then Pattern(s, 255, 0) else Pattern(s, x, m))
  {
    var x, m := Exponent(uf) + 2, Fraction(uf);
    FieldsFit(uf);
    NormalScales(x - 2, m);
    if x < 255 {
      ExactProduct(uf, x, m);
    } else {
      PatternFields(SignOf(uf), 255, 0);
      forall g: Word32 | Finite(g) ensures Magnitude(g) < 4 * Magnitude(uf) { FiniteBelow(g, x, m); }
    }
  }

  /** The two subnormal branches. */
  lemma SubnormalProduct(uf: Word32)
    requires Exponent(uf) == 0
    ensures var s, m := SignOf(uf), Fraction(uf);
            m < FRACTIONS &&
            if m >= FRACTIONS / 2
            then TimesFour(uf, Pattern(s, 2, 2 * m - FRACTIONS))
            else 4 * m / FRACTIONS < 2 && TimesFour(uf, Pattern(s, 4 * m / FRACTIONS, 4 * m % FRACTIONS))
  {
    var m := Fraction(uf);
    FieldsFit(uf);
    if m >= FRACTIONS / 2 {
      LargeSubnormalScales(m);
      ExactProduct(uf, 2, 2 * m - FRACTIONS);
    } else {
      SmallSubnormalScales(m);
      ExactProduct(uf, 4 * m / FRACTIONS, 4 * m % FRACTIONS);
    }
  }

  lemma {:induction false} RaisedZero(x: nat, n: nat)
    ensures Raised(x, n) == 0 <==> x == 0
  {
    if n > 0 { RaisedZero(x, n - 1); }
  }

  lemma MagnitudeZero(f: Word32)
    ensures Magnitude(f) == 0 <==> Exponent(f) == 0 && Fraction(f) == 0
    ensures Magnitude(f) == 0 ==> TimesFour(f, f)
  {
    if Exponent(f) > 0 { RaisedZero(FRACTIONS + Fraction(f), Exponent(f) - 1); }
  }

  /** floatScale4. NaN, the infinities and the zeros come back unchanged. */
  method FloatScale4(uf: Word32) returns (f: Word32)
    ensures !Finite(uf) || Magnitude(uf) == 0 ==> f == uf
    ensures Finite(uf) ==> TimesFour(uf, f)
  {
    var sign := And(uf, 0x8000_0000);
    var exp := And(Shr(uf, 23), 0xFF);
    var frac := And(uf, 0x7F_FFFF);
    ghost var s := SignOf(uf);
    ExtractedSign(uf);
    ExtractedExponent(uf);
    ExtractedFraction(uf);
    MagnitudeZero(uf);

    if exp == 0xFF || (exp == 0 && frac == 0) {
      f := uf;
      return;
    }

    if exp != 0 {
      NormalProduct(uf);
      exp := exp + 2;
      if exp >= 0xFF {
        exp := 0xFF;
        frac := 0;
      }
    } else {
      SubnormalProduct(uf);
      HighFractionBit(frac);
      if And(frac, 0x40_0000) != 0 {
        ShiftFractionOnce(frac);
        frac := And(Shl(frac, 1, 32), 0x7F_FFFF);
        exp := exp + 2;
      } else {
        ShiftFractionTwice(sign, s, frac);
        f := Or(sign, Shl(frac, 2, 32));
        return;
      }
    }
    f := Assemble(s, sign, exp, frac);
  }
}
