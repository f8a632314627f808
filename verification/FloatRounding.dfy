/** The conversion of an unsigned word to single precision (datalab-handout/bits.c): its
    result is the nearest representable value, ties to even (section 4.3.1 of IEEE
    754-2008), among all the patterns there are, and that determines it. */
module FloatRounding {
  import opened Words
  import opened FloatBits

  function Distance(a: int, b: int): nat { if a < b then b - a else a - b }

  predicate AsGood(v: int, a: int, even: bool, b: int) {
    && Distance(a, v) <= Distance(b, v)
    && (Distance(a, v) == Distance(b, v) && a != b ==> even)
  }

  /** No finite pattern is closer to `v`, and if another value is as close then the last
      bit of `f` is zero. */
  ghost predicate RoundsTo(v: int, f: Word32) {
    && Finite(f)
    && forall g: Word32 :: Finite(g) ==> AsGood(v, Value(f), f % 2 == 0, Value(g))
  }

  // ---- Patterns are ordered like the values they stand for ----

  lemma NonNegativeFields(f: Word32)
    requires f < SIGN_BIT
    ensures Exponent(f) < 256 && Fraction(f) < FRACTIONS && f == Pattern(0, Exponent(f), Fraction(f))
  {
    FieldSizes();
    FieldsFit(f);
    Split(f, 23);
    Placed(Shr(f, 23));
    LowBitsSmall(Shr(f, 23), 8);
  }

  lemma NextIsLarger(f: Word32)
    requires f + 1 < SIGN_BIT
    ensures Magnitude(f) < Magnitude(f + 1)
  {
    var x, m := Exponent(f), Fraction(f);
    NonNegativeFields(f);
    if m + 1 < FRACTIONS {
      PatternFields(0, x, m + 1);
      if x > 0 { RaisedOrder(FRACTIONS + m, FRACTIONS + m + 1, x - 1); }
    } else {
      PatternFields(0, x + 1, 0);
      ScaledBelow(x, m, x + 1);
    }
  }

  lemma {:induction false} LargerPatternLargerValue(f: Word32, g: Word32)
    requires f < g < SIGN_BIT
    ensures Magnitude(f) < Magnitude(g)
    decreases g - f
  {
    NextIsLarger(g - 1);
    if f < g - 1 { LargerPatternLargerValue(f, g - 1); }
  }

  /** The exponent field grows with the pattern, so everything below a finite pattern
      is finite. */
  lemma BelowFinite(f: Word32, g: Word32)
    requires f < g < SIGN_BIT && Finite(g)
    ensures Finite(f)
  {
    NonNegativeFields(f);
    NonNegativeFields(g);
  }

  /** Rounding has one answer: two different non-negative patterns cannot both be nearest. */
  lemma RoundingIsUnique(v: int, f: Word32, g: Word32)
    requires RoundsTo(v, f) && RoundsTo(v, g) && !Negative(f) && !Negative(g)
    ensures f == g
  {
    if f < g {
      OnlyOneNearest(v, f, g);
    } else if g < f {
      OnlyOneNearest(v, g, f);
    }
  }

  lemma OnlyOneNearest(v: int, f: Word32, g: Word32)
    requires f < g < SIGN_BIT && Finite(g)
    ensures !(RoundsTo(v, f) && RoundsTo(v, g))
  {
    LargerPatternLargerValue(f, g);
    BelowFinite(f, g);
    if f % 2 == 0 && g % 2 == 0 {
      // equally near and both even: the pattern between them is strictly nearer
      LargerPatternLargerValue(f, f + 1);
      LargerPatternLargerValue(f + 1, g);
      BelowFinite(f + 1, g);
      BetweenIsNearer(v, Magnitude(f), Magnitude(f + 1), Magnitude(g));
    }
  }

  lemma BetweenIsNearer(v: int, a: nat, b: nat, c: nat)
    requires a < b < c
    ensures AsGood(v, a, true, c) && AsGood(v, c, true, a) ==> !AsGood(v, a, true, b)
  {
  }

  // ---- Which values are representable around u ----

  /** A whole number of units 2^n. */
  ghost predicate Multiple(b: int, n: nat) {
    exists k: nat :: b == Raised(k, n)
  }

  /** From 2^e up, finite values are multiples of the spacing 2^(e+126) of the binade. */
  lemma BelowOrMultiple(g: Word32, e: nat)
    requires Finite(g)
    ensures Value(g) < Raised(FRACTIONS, e + 126) || Multiple(Value(g), e + 126)
  {
    var x, m := Exponent(g), Fraction(g);
    FieldsFit(g);
    if Negative(g) {
    } else if x >= e + 127 {
      RaisedRaised(FRACTIONS + m, x - 127 - e, e + 126);
      assert Value(g) == Raised(Raised(FRACTIONS + m, x - 127 - e), e + 126);
    } else {
      ScaledBelow(x, m, e + 127);
    }
  }

  /** The nearest-even rule for m units and a remainder. */
  function Rounded(m: nat, rest: nat, unit: nat): nat {
    if 2 * rest > unit || (2 * rest == unit && m % 2 == 1) then m + 1 else m
  }

  /** Rounding m units and a remainder `rest` to `k` units by the nearest-even rule is at
      least as good as any multiple of the unit and as anything below m units. */
  lemma NearestEven(m: nat, rest: nat, n: nat, b: int)
    requires rest < Raised(1, n)
    requires b < Raised(m, n) || Multiple(b, n)
    ensures var k := Rounded(m, rest, Raised(1, n));
            AsGood(Raised(m, n) + rest, Raised(k, n), k % 2 == 0, b)
  {
    RaisedAdds(m, 1, n);
    if b >= Raised(m, n) {
      var k: nat :| b == Raised(k, n);
      RaisedOrder(k, m, n);
      RaisedOrder(k, m + 1, n);
      if k > m + 1 {
        RaisedAdds(m + 1, 1, n);
        RaisedOrder(k, m + 2, n);
      }
    }
  }

  // ---- The bits the code looks at ----

  lemma ShrStep(u: nat, e: nat)
    ensures Shr(Shr(u, e), 1) == Shr(u, e + 1)
    ensures Shr(u, e) > 1 ==> Shr(u, e + 1) > 0
  {
    ShrShr(u, e, 1);
    assert Shr(Shr(u, e), 1) == Shr(u, e) / 2;
  }

  /** Where the search for the exponent stops. */
  lemma TopExponent(u: Word32, e: nat)
    requires Shr(u, e) == 1
    ensures Pow2(e) <= u < Pow2(e + 1) && e < 32
  {
    ShrBelow(u, e, 0);
    ShrBelow(u, e, 1);
    if e >= 32 {
      FieldSizes();
      Pow2Monotone(32, e);
    }
  }

  /** A single bit moved down to place k selects place k. */
  lemma BitMask(a: nat, k: nat, u: nat, mask: nat)
    requires k <= a && mask == Pow2(a)
    ensures And(Shr(mask, a - k), u) != 0 <==> Shr(u, k) % 2 == 1
  {
    ShrPow2(a, a - k);
    AndPow2(u, k);
  }

  /** A run of ones moved down to k places selects the low k bits. */
  lemma OnesMask(a: nat, k: nat, u: nat, mask: nat)
    requires k <= a && mask == Pow2(a) - 1
    ensures And(Shr(mask, a - k), u) == LowBits(u, k)
  {
    ShrPow2(a, a - k);
    AndCommutes(Pow2(k) - 1, u);
    AndLowMask(u, k);
  }

  lemma MaskSizes()
    ensures Pow2(8) == 0x100 && Pow2(7) == 0x80
  {
    FieldSizes();
    assert Pow2(8) == 2 * Pow2(7);
  }

  /** Round and sticky, or round and guard: the nearest-even rule for units of q bits. */
  lemma RoundUp(u: nat, q: nat)
    requires q > 0
    ensures Rounded(Shr(u, q), LowBits(u, q), Pow2(q))
         == Shr(u, q) + (if Shr(u, q - 1) % 2 == 1 && (LowBits(u, q - 1) != 0 || Shr(u, q) % 2 == 1) then 1 else 0)
  {
    TopOfLowBits(u, q);
    Split(u, q - 1);
    assert Pow2(q) == 2 * Pow2(q - 1);
  }

  /** n units of the binade of 2^e as a pattern, also when n has carried out of it. */
  function Packed(e: nat, n: nat): Word32
    requires e < 32 && FRACTIONS <= n <= 2 * FRACTIONS
  {
    if n == 2 * FRACTIONS then Pattern(0, e + 128, 0) else Pattern(0, e + 127, n - FRACTIONS)
  }

  lemma PackedMeans(e: nat, n: nat)
    requires e < 32 && FRACTIONS <= n <= 2 * FRACTIONS
    ensures Finite(Packed(e, n)) && !Negative(Packed(e, n))
    ensures Value(Packed(e, n)) == Raised(n, e + 126)
    ensures Packed(e, n) % 2 == n % 2
  {
    if n == 2 * FRACTIONS {
      PatternFields(0, e + 128, 0);
      RaisedDouble(FRACTIONS, e + 126);
    } else {
      PatternFields(0, e + 127, n - FRACTIONS);
    }
  }

  /** A significand without its leading bit. */
  lemma LeadingBit(n: nat)
    requires FRACTIONS <= n < 2 * FRACTIONS
    ensures And(n, 0x7F_FFFF) == n - FRACTIONS
  {
    FieldSizes();
    ExtractedFraction(n);
    Placed(1);
    SplitUnique(n - FRACTIONS, 1, 23);
  }

  /** Up to 24 significant bits, the conversion is exact. */
  lemma ExactCase(u: nat, e: nat)
    requires e <= 23 && Pow2(e) <= u < Pow2(e + 1)
    ensures FRACTIONS <= Raised(u, 23 - e) < 2 * FRACTIONS
    ensures And(Shl(u, 23 - e, 32), 0x7F_FFFF) == Raised(u, 23 - e) - FRACTIONS
    ensures Raised(Raised(u, 23 - e), e + 126) == Raised(u, UNIT_SCALE)
  {
    FieldSizes();
    RaisedPow2(e, 23 - e);
    RaisedPow2(e + 1, 23 - e);
    RaisedOrder(u, Pow2(e), 23 - e);
    RaisedOrder(u, Pow2(e + 1), 23 - e);
    assert Pow2(24) == 2 * FRACTIONS;
    ShlField(u, 23 - e);
    LeadingBit(Raised(u, 23 - e));
    RaisedRaised(u, 23 - e, e + 126);
  }

  /** With more than 24 significant bits, what is kept and what is rounded away. */
  lemma KeptBits(u: nat, e: nat)
    requires e >= 24 && Pow2(e) <= u < Pow2(e + 1)
    ensures FRACTIONS <= Shr(u, e - 23) < 2 * FRACTIONS
    ensures And(Shr(u, e - 23), 0x7F_FFFF) == Shr(u, e - 23) - FRACTIONS
  {
    FieldSizes();
    assert Pow2(24) == 2 * FRACTIONS;
    ShrBelow(u, e - 23, 23);
    ShrBelow(u, e - 23, 24);
    LeadingBit(Shr(u, e - 23));
  }

  /** The significand of u in units of the last place of its binade, rounded by the
      nearest-even rule. */
  function Units(u: nat, e: nat): nat {
    if e <= 23 then Raised(u, 23 - e)
    else Rounded(Shr(u, e - 23), LowBits(u, e - 23), Pow2(e - 23))
  }

  /** Scaling keeps the comparison of the remainder with one half. */
  lemma ScaledRounding(m: nat, rest: nat, q: nat, scale: nat)
    requires rest < Pow2(q)
    ensures Raised(rest, scale) < Raised(1, q + scale)
    ensures Rounded(m, Raised(rest, scale), Raised(1, q + scale)) == Rounded(m, rest, Pow2(q))
  {
    RaisedPow2(0, q + scale);
    RaisedPow2(q, scale);
    RaisedOrder(rest, Pow2(q), scale);
    RaisedDouble(rest, scale);
    RaisedOrder(2 * rest, Pow2(q), scale);
    RaisedOrder(Pow2(q), 2 * rest, scale);
  }

  /** u in units of its last kept place. */
  lemma ScaledSplit(u: nat, q: nat, scale: nat)
    ensures Raised(u, scale) == Raised(Shr(u, q), q + scale) + Raised(LowBits(u, q), scale)
  {
    Split(u, q);
    RaisedAdds(Raised(Shr(u, q), q), LowBits(u, q), scale);
    RaisedRaised(Shr(u, q), q, scale);
  }

  /** The nearest-even rule on the kept bits is as good as any other value. */
  lemma AsGoodAsMultiple(u: nat, q: nat, scale: nat, b: int)
    requires FRACTIONS <= Shr(u, q)
    requires b < Raised(FRACTIONS, q + scale) || Multiple(b, q + scale)
    ensures var k := Rounded(Shr(u, q), LowBits(u, q), Pow2(q));
            AsGood(Raised(u, scale), Raised(k, q + scale), k % 2 == 0, b)
  {
    var m, rest := Shr(u, q), LowBits(u, q);
    ScaledSplit(u, q, scale);
    Split(u, q);
    ScaledRounding(m, rest, q, scale);
    RaisedOrder(m, FRACTIONS, q + scale);
    NearestEven(m, Raised(rest, scale), q + scale, b);
  }

  lemma AsGoodAsAny(u: nat, e: nat, g: Word32)
    requires 24 <= e && FRACTIONS <= Shr(u, e - 23) && Finite(g)
    ensures AsGood(Raised(u, UNIT_SCALE), Raised(Units(u, e), e + 126), Units(u, e) % 2 == 0, Value(g))
  {
    BelowOrMultiple(g, e);
    AsGoodAsMultiple(u, e - 23, UNIT_SCALE, Value(g));
  }

  lemma RoundedCase(u: nat, e: nat)
    requires 24 <= e < 32 && FRACTIONS <= Shr(u, e - 23) < 2 * FRACTIONS
    ensures FRACTIONS <= Units(u, e) <= 2 * FRACTIONS
    ensures RoundsTo(Raised(u, UNIT_SCALE), Packed(e, Units(u, e)))
  {
    PackedMeans(e, Units(u, e));
    forall g: Word32 | Finite(g) { AsGoodAsAny(u, e, g); }
  }

  // ---- The conversion ----

  /** The two fields for n units of the binade of 2^e. */
  predicate Fields(e: nat, n: nat, exp: nat, frac: nat) {
    && FRACTIONS <= n <= 2 * FRACTIONS
    && (if n < 2 * FRACTIONS then exp == e && frac == n - FRACTIONS else exp == e + 1 && frac == 0)
  }

  /** f is what the conversion of u owes: nearest even, and exact up to 24 bits. */
  ghost predicate Converts(u: nat, f: Word32) {
    && !Negative(f)
    && RoundsTo(Raised(u, UNIT_SCALE), f)
    && (u < 2 * FRACTIONS ==> Value(f) == Raised(u, UNIT_SCALE))
  }

  lemma ExactConverts(u: nat, f: Word32)
    requires Finite(f) && !Negative(f) && Value(f) == Raised(u, UNIT_SCALE)
    ensures Converts(u, f)
  {
  }

  lemma ShortRounds(u: nat, e: nat)
    requires e <= 23 && Pow2(e) <= u < Pow2(e + 1)
    ensures FRACTIONS <= Units(u, e) < 2 * FRACTIONS
    ensures Converts(u, Packed(e, Units(u, e)))
  {
    ExactCase(u, e);
    PackedMeans(e, Units(u, e));
    ExactConverts(u, Packed(e, Units(u, e)));
  }

  lemma LongRounds(u: nat, e: nat)
    requires 24 <= e < 32 && Pow2(e) <= u < Pow2(e + 1)
    ensures FRACTIONS <= Units(u, e) <= 2 * FRACTIONS
    ensures Converts(u, Packed(e, Units(u, e)))
  {
    KeptBits(u, e);
    RoundedCase(u, e);
    PackedMeans(e, Units(u, e));
    assert u >= 2 * FRACTIONS by { Pow2Monotone(24, e); FieldSizes(); assert Pow2(24) == 2 * FRACTIONS; }
  }

  /** The first loop of floatUnsigned2Float: the position of the leading one. */
  method LeadingOne(u: Word32) returns (exp: nat)
    ensures if u > 0 then exp < 32 && Pow2(exp) <= u < Pow2(exp + 1) else exp == 0
  {
    exp := 0;
    var x := u;
    while x > 1
      invariant x == Shr(u, exp)
      invariant if u > 0 then x > 0 else x == exp == 0
      decreases x
    {
      ShrStep(u, exp);
      exp := exp + 1;
      x := Shr(x, 1);
    }
    if u > 0 { TopExponent(u, exp); }
  }

  /** Its middle part for long words: mask out guard, round and sticky bits, and round,
      carrying into the exponent when the fraction overflows. */
  method RoundFraction(u: Word32, e: nat) returns (exp: nat, frac: nat)
    requires 24 <= e < 32 && Pow2(e) <= u < Pow2(e + 1)
    ensures Fields(e, Units(u, e), exp, frac)
  {
    exp := e;
    frac := And(Shr(u, exp - 23), 0x7F_FFFF);
    var g := And(Shr(0x100, 31 - exp), u);
    var r := And(Shr(0x80, 31 - exp), u);
    var s := And(Shr(0xFF, 32 - exp), u);
    KeptBits(u, e);
    MaskSizes();
    BitMask(8, e - 23, u, 0x100);
    BitMask(7, e - 24, u, 0x80);
    OnesMask(8, e - 24, u, 0xFF);
    RoundUp(u, e - 23);
    if (r != 0 && s != 0) || (r != 0 && g != 0) {
      frac := frac + 1;
      if frac > 0x7F_FFFF {
        exp := exp + 1;
        frac := 0;
      }
    }
  }

  /** Its short branch: the significand fits, so it only has to be moved into place. */
  method ShiftFraction(u: Word32, e: nat) returns (frac: nat)
    requires e <= 23 && if u > 0 then Pow2(e) <= u < Pow2(e + 1) else e == 0
    ensures if u > 0 then Fields(e, Units(u, e), e, frac) else frac == 0
  {
    frac := And(Shl(u, 23 - e, 32), 0x7F_FFFF);
    if u > 0 {
      ExactCase(u, e);
    } else {
      ShrZero(23);
      LowBitsSmall(0, 32);
    }
  }

  /** The two fields side by side are a correct conversion. */
  lemma FieldsConvert(u: nat, e: nat, exp: nat, frac: nat)
    requires e < 32 && Pow2(e) <= u < Pow2(e + 1)
    requires Fields(e, Units(u, e), exp, frac)
    ensures exp < 128 && frac < FRACTIONS && Converts(u, Pattern(0, exp + 127, frac))
  {
    if e <= 23 { ShortRounds(u, e); } else { LongRounds(u, e); }
  }

  lemma ZeroConverts()
    ensures Converts(0, Pattern(0, 0, 0))
  {
    PatternFields(0, 0, 0);
    ShrZero(UNIT_SCALE);
    ExactConverts(0, Pattern(0, 0, 0));
  }

  /** floatUnsigned2Float. */
  method FloatUnsigned2Float(u: Word32) returns (f: Word32)
    ensures Converts(u, f)
  {
    var e := LeadingOne(u);
    var exp, frac := e, 0;
    if e > 23 {
      exp, frac := RoundFraction(u, e);
    } else {
      frac := ShiftFraction(u, e);
    }
    if u > 0 {
      FieldsConvert(u, e, exp, frac);
      exp := exp + 127;
    } else {
      ZeroConverts();
    }
    f := Assemble(0, 0, exp, frac);
  }
}
