/** The parallel bit count (datalab-handout/bits.c) on 64-bit words, against the loop that
    adds up the bits one by one (datalab-handout/tests.c). A word is a row of digits; every
    stage of the fast form adds neighbouring digits, into digits twice as wide, and so keeps
    the sum of all digits. */
module BitCount {
  import opened Words
  import opened Fields
  import opened Masks

  // ---- Digits ----

  /** The sum of the digits of w bits each. For w = 1 it is the number of ones. */
  function DigitSum(x: nat, w: nat): nat
    requires w > 0
    decreases x
  {
    if x == 0 then 0 else
    Shrinks(x, w);
    LowBits(x, w) + DigitSum(Shr(x, w), w)
  }

  lemma {:induction false} Shrinks(x: nat, w: nat)
    requires x > 0 && w > 0
    ensures Shr(x, w) < x
  {
    if w == 1 || x / 2 == 0 { ShrZero(w - 1); } else { Shrinks(x / 2, w - 1); }
  }

  lemma Digit(x: nat, w: nat)
    requires w > 0
    ensures DigitSum(x, w) == LowBits(x, w) + DigitSum(Shr(x, w), w)
  {
    if x == 0 {
      ShrZero(w);
      LowBitsSmall(0, w);
    }
  }

  lemma TwoDigits(x: nat, w: nat)
    requires w > 0
    ensures DigitSum(x, w) == LowBits(x, w) + LowBits(Shr(x, w), w) + DigitSum(Shr(x, 2 * w), w)
  {
    Digit(x, w);
    Digit(Shr(x, w), w);
    ShrShr(x, w, w);
  }

  lemma DigitSumJoin(d: nat, high: nat, w: nat)
    requires w > 0 && d < Pow2(w)
    ensures DigitSum(Join(d, high, w), w) == d + DigitSum(high, w)
  {
    SplitUnique(d, high, w);
    Digit(Join(d, high, w), w);
  }

  // ---- One stage ----

  /** The sum of every second digit of x, of the first n of them. */
  function EvenDigits(x: nat, w: nat, n: nat): nat
    decreases n
  {
    if n == 0 then 0 else LowBits(x, w) + EvenDigits(Shr(x, 2 * w), w, n - 1)
  }

  /** The digits at even places of x and of x moved down one place are all digits of x. */
  lemma {:induction false} EvenAndOdd(x: nat, w: nat, n: nat)
    requires w > 0 && x < Pow2(Width(w, n))
    ensures DigitSum(x, w) == EvenDigits(x, w, n) + EvenDigits(Shr(x, w), w, n)
    decreases n
  {
    if n > 0 {
      TwoDigits(x, w);
      ShrShr(x, w, 2 * w);
      ShrShr(x, 2 * w, w);
      ShrBelow(x, 2 * w, Width(w, n - 1));
      EvenAndOdd(Shr(x, 2 * w), w, n - 1);
    }
  }

  /** What one mask selects: the lowest digit, and the same of the rest. */
  lemma LowDigit(x: nat, w: nat, n: nat)
    requires n > 0
    ensures And(x, Mask(w, n)) == Join(LowBits(x, w), And(Shr(x, 2 * w), Mask(w, n - 1)), 2 * w)
  {
    var low := LowBits(x, 2 * w);
    Split(x, 2 * w);
    Pow2Monotone(w, 2 * w);
    AndSplit(low, Shr(x, 2 * w), Pow2(w) - 1, Mask(w, n - 1), 2 * w);
    AndLowMask(low, w);
    LowBitsTwice(x, w, 2 * w);
  }

  lemma JoinAdds(u: nat, v: nat, a: nat, b: nat, c: nat, d: nat, k: nat)
    requires u == Join(a, b, k) && v == Join(c, d, k)
    ensures u + v == Join(a + c, b + d, k)
  {
    RaisedAdds(b, d, k);
  }

  /** Two digits and their sum fit in the double width. */
  lemma PairFits(a: nat, b: nat, w: nat)
    requires w > 0 && a < Pow2(w) && b < Pow2(w)
    ensures a + b < Pow2(2 * w)
  {
    Pow2Monotone(w + 1, 2 * w);
  }

  /** Adding the even digits of two words needs no extra bit, and the digits of the
      result, now twice as wide, have the same sum. */
  lemma {:induction false} MaskedSum(x: nat, y: nat, w: nat, n: nat, u: nat, v: nat)
    requires w > 0 && u == And(x, Mask(w, n)) && v == And(y, Mask(w, n))
    ensures u + v < Pow2(Width(w, n))
    ensures DigitSum(u + v, 2 * w) == EvenDigits(x, w, n) + EvenDigits(y, w, n)
    decreases n
  {
    if n > 0 {
      var x', y', m := Shr(x, 2 * w), Shr(y, 2 * w), Mask(w, n - 1);
      var b, d := And(x', m), And(y', m);
      MaskedSum(x', y', w, n - 1, b, d);
      LowDigit(x, w, n);
      LowDigit(y, w, n);
      Split(x, w);
      Split(y, w);
      MaskedSumStep(u, v, LowBits(x, w), b, LowBits(y, w), d, w, Width(w, n - 1));
    }
  }

  lemma MaskedSumStep(u: nat, v: nat, a: nat, b: nat, c: nat, d: nat, w: nat, width: nat)
    requires w > 0 && a < Pow2(w) && c < Pow2(w) && b + d < Pow2(width)
    requires u == Join(a, b, 2 * w) && v == Join(c, d, 2 * w)
    ensures u + v < Pow2(2 * w + width) && DigitSum(u + v, 2 * w) == a + c + DigitSum(b + d, 2 * w)
  {
    JoinAdds(u, v, a, b, c, d, 2 * w);
    PairFits(a, c, w);
    JoinBelow(a + c, b + d, 2 * w, width);
    DigitSumJoin(a + c, b + d, 2 * w);
  }

  // ---- The code ----

  /** One line of bitCount, for one mask and one shift distance. */
  function AddPairs(x: Word64, mask: Word64, w: nat): Word64
    requires w <= 63
  {
    (And(x, mask) + And(Sar(x, w), mask)) % WORD64
  }

  lemma NoOverflow(sum: nat, width: nat)
    requires width == 64 && sum < Pow2(width)
    ensures sum % WORD64 == sum
  {
    WordIs(sum);
    SmallMod(sum, WORD64);
  }

  /** The sum of a stage is not cut. */
  lemma StageIsSum(x: Word64, mask: Word64, w: nat, n: nat, u: nat, v: nat)
    requires 0 < w <= 63 && Width(w, n) == 64 && mask == Mask(w, n)
    requires u == And(x, mask) && v == And(Shr(x, w), mask) == And(Sar(x, w), mask)
    ensures AddPairs(x, mask, w) == u + v
  {
    MaskedSum(x, Shr(x, w), w, n, u, v);
    NoOverflow(u + v, Width(w, n));
  }

  /** A stage, for any group width, halves the number of digits and keeps their sum. */
  lemma StageKeepsSum(x: Word64, mask: Word64, w: nat, n: nat)
    requires 0 < w <= 63 && 2 * w * n == 64 && IsMask(mask, w)
    ensures DigitSum(AddPairs(x, mask, w), 2 * w) == DigitSum(x, w)
  {
    var u, v := And(x, mask), And(Shr(x, w), mask);
    MaskIsRow(mask, w, n);
    SarUnderMask(x, mask, w, n);
    StageIsSum(x, mask, w, n, u, v);
    MaskedSum(x, Shr(x, w), w, n, u, v);
    assert x < Pow2(Width(w, n)) by { WordIs(x); }
    EvenAndOdd(x, w, n);
  }

  lemma OneDigit(x: Word64)
    ensures DigitSum(x, 64) == x
  {
    WordIs(x);
    OnlyDigit(x, 64);
  }

  /** A number that fits a single digit is its own digit sum. */
  lemma OnlyDigit(x: nat, w: nat)
    requires w > 0 && x < Pow2(w)
    ensures DigitSum(x, w) == x
  {
    Digit(x, w);
    LowBitsSmall(x, w);
    ShrBelow(x, w, 0);
  }

  /** bitCount, on the bit pattern of its argument: the number of ones. */
  method BitCount(x: Word64) returns (count: Word64)
    ensures count == DigitSum(x, 1)
  {
    var mask1, mask2, mask3, mask4, mask5, mask6 := BuildMasks();
    StageKeepsSum(x, mask1, 1, 32);
    count := AddPairs(x, mask1, 1);
    StageKeepsSum(count, mask2, 2, 16);
    count := AddPairs(count, mask2, 2);
    StageKeepsSum(count, mask3, 4, 8);
    count := AddPairs(count, mask3, 4);
    StageKeepsSum(count, mask4, 8, 4);
    count := AddPairs(count, mask4, 8);
    StageKeepsSum(count, mask5, 16, 2);
    count := AddPairs(count, mask5, 16);
    StageKeepsSum(count, mask6, 32, 1);
    count := AddPairs(count, mask6, 32);
    OneDigit(count);
  }

  // ---- The loop it must agree with ----

  /** test_bitCount: add up the bits of x, one shift at a time. */
  method CountBits(x: Word64) returns (result: nat)
    ensures result == DigitSum(x, 1)
  {
    result := 0;
    for i := 0 to 64
      invariant result + DigitSum(Shr(x, i), 1) == DigitSum(x, 1)
    {
      NextBit(x, i);
      result := result + And(Sar(x, i), 1);
    }
    assert Shr(x, 64) == 0 by {
      WordIs(x);
      ShrBelow(x, 64, 0);
    }
  }

  /** The bits shifted in at the top do not reach the lowest place. */
  lemma SarParity(x: Word64, i: nat)
    requires i <= 63
    ensures Sar(x, i) % 2 == Shr(x, i) % 2
  {
    var s := Shr(x, i);
    assert Sar(x, i) == s || Sar(x, i) == s + SignBits(i);
    EvenSignBits(i);
    EvenAdds(s, SignBits(i), Sar(x, i));
  }

  lemma EvenSignBits(i: nat)
    requires i <= 63
    ensures SignBits(i) % 2 == 0
  {
    HalfOfJoin(0, Pow2(i) - 1, 64 - i);
  }

  lemma EvenAdds(y: nat, even: nat, s: nat)
    requires even % 2 == 0 && (s == y || s == y + even)
    ensures s % 2 == y % 2
  {
  }

  lemma NextBit(x: Word64, i: nat)
    requires i <= 63
    ensures DigitSum(Shr(x, i), 1) == And(Sar(x, i), 1) + DigitSum(Shr(x, i + 1), 1)
  {
    var s, y := Sar(x, i), Shr(x, i);
    Digit(y, 1);
    ShrShr(x, i, 1);
    assert LowBits(y, 1) == y % 2;
    assert And(s, 1) == s % 2 by {
      AndLowMask(s, 1);
      assert LowBits(s, 1) == s % 2 && Pow2(1) == 2;
    }
    SarParity(x, i);
  }
}
