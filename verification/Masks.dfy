/** The masks of the bit puzzles (datalab-handout/bits.c): every second group of bits of a
    word, for groups of 1, 2, 4, 8, 16 and 32 bits, built from one byte by shifts. */
module Masks {
  import opened Words
  import opened Fields

  /** n fields of 2 * w bits, each with its low half set. */
  function Mask(w: nat, n: nat): nat {
    if n == 0 then 0 else Join(Pow2(w) - 1, Mask(w, n - 1), 2 * w)
  }

  /** The width of n such fields. */
  function Width(w: nat, n: nat): nat {
    if n == 0 then 0 else 2 * w + Width(w, n - 1)
  }

  /** Is place j in the lower half of its field of 2 * w places? */
  predicate LowHalf(j: nat, w: nat)
    requires w > 0
    decreases j
  {
    if j < 2 * w then j < w else LowHalf(j - 2 * w, w)
  }

  lemma BitOfField(w: nat, rest: nat, j: nat)
    ensures Bit(Join(Pow2(w) - 1, rest, 2 * w), j) == if j < 2 * w then j < w else Bit(rest, j - 2 * w)
  {
    Pow2Monotone(w, 2 * w);
    BitOfJoin(Pow2(w) - 1, rest, 2 * w, j);
    BitOfOnes(w, j);
  }

  /** The mask has exactly the places in lower halves. */
  lemma {:induction false} BitOfMask(w: nat, n: nat, j: nat)
    requires w > 0
    ensures Bit(Mask(w, n), j) == (j < Width(w, n) && LowHalf(j, w))
    decreases n
  {
    if n == 0 {
      NoBits(j);
    } else {
      BitOfField(w, Mask(w, n - 1), j);
      if j >= 2 * w { BitOfMask(w, n - 1, j - 2 * w); }
    }
  }

  /** The top half of the topmost field is free. */
  lemma {:induction false} MaskBelow(w: nat, n: nat)
    requires n > 0
    ensures Width(w, n) >= w && Mask(w, n) < Pow2(Width(w, n) - w)
  {
    Pow2Monotone(w, 2 * w);
    if n == 1 {
      ShrZero(2 * w);
      assert Mask(w, 1) == Pow2(w) - 1 && Width(w, 1) - w == w;
    } else {
      MaskBelow(w, n - 1);
      JoinBelow(Pow2(w) - 1, Mask(w, n - 1), 2 * w, Width(w, n - 1) - w);
    }
  }

  lemma {:induction false} WidthIs(w: nat, n: nat)
    ensures Width(w, n) == 2 * w * n
  {
    if n > 0 {
      WidthIs(w, n - 1);
      assert 2 * w * n == 2 * w * (n - 1) + 2 * w;
    } else {
      assert 2 * w * n == 0;
    }
  }

  // ---- From one mask to the next ----

  lemma {:induction false} Quarters(j: nat, w: nat)
    requires w > 0
    ensures LowHalf(j, w) <==> (LowHalf(j, 2 * w) != (j >= w && LowHalf(j - w, 2 * w)))
    decreases j
  {
    if j >= 4 * w {
      assert LowHalf(j, w) == LowHalf(j - 2 * w, w) == LowHalf(j - 4 * w, w);
      assert LowHalf(j - w, 2 * w) == if j - w >= 4 * w then LowHalf(j - 4 * w - w, 2 * w) else LowHalf(j - w, 2 * w);
      Quarters(j - 4 * w, w);
    }
  }

  /** The mask for groups of w bits: of every two groups the lower one is set. */
  ghost predicate IsMask(m: Word64, w: nat)
    requires w > 0
  {
    forall j :: 0 <= j < 64 ==> Bit(m, j) == LowHalf(j, w)
  }

  /** It is the row of fields above. */
  lemma MaskIsRow(m: Word64, w: nat, n: nat)
    requires w > 0 && 2 * w * n == 64 && IsMask(m, w)
    ensures m == Mask(w, n) && Width(w, n) == 64
  {
    WidthIs(w, n);
    RowIsWord(w, n);
    forall j | 0 <= j < 64 ensures Bit(m, j) == Bit(Mask(w, n), j) { BitOfMask(w, n, j); }
    SameWords(m, Mask(w, n));
  }

  /** A mask clears the sign bits that an arithmetic shift by its distance brings in. */
  lemma SarUnderMask(x: Word64, mask: Word64, w: nat, n: nat)
    requires 0 < w <= 63 && 2 * w * n == 64 && IsMask(mask, w)
    ensures And(Sar(x, w), mask) == And(Shr(x, w), mask)
  {
    MaskIsRow(mask, w, n);
    MaskBelow(w, n);
    SarMasked(x, w, mask);
  }

  lemma RowIsWord(w: nat, n: nat)
    requires Width(w, n) == 64
    ensures Mask(w, n) < WORD64
  {
    MaskBelow(w, n);
    Pow2Monotone(Width(w, n) - w, Width(w, n));
    WordIs(Mask(w, n));
  }

  /** Shifting a mask by half its group and taking the exclusive or with the mask gives
      the mask for groups half as long. */
  lemma MaskBuilt(wide: Word64, w: nat)
    requires w > 0 && IsMask(wide, 2 * w)
    ensures IsMask(XorWord(ShlWord(wide, w), wide), w)
  {
    var up := ShlWord(wide, w);
    forall j | 0 <= j < 64
      ensures Bit(Xor(up, wide), j) == LowHalf(j, w)
    {
      BitOfXor(up, wide, j);
      BitOfShl(wide, w, 64, j);
      Quarters(j, w);
    }
  }

  /** A run of ones, shifted by its length and joined with itself, is twice as long. */
  lemma OnesDoubled(ones: Word64, k: nat, width: nat)
    requires 2 * k <= width && ones == Pow2(k) - 1
    ensures Or(Shl(ones, k, width), ones) == Pow2(2 * k) - 1
  {
    JoinBelow(0, ones, k, k);
    Pow2Monotone(2 * k, width);
    LowBitsSmall(Raised(ones, k), width);
    OrDisjoint(ones, ones, k);
    RaisedOnes(k, k);
  }

  lemma {:induction false} RaisedOnes(k: nat, m: nat)
    ensures Raised(Pow2(k) - 1, m) == Pow2(k + m) - Pow2(m)
  {
    if m > 0 { RaisedOnes(k, m - 1); }
  }

  /** The widest mask: as many ones as a half of the word. */
  lemma WidestMask(ones: Word64, w: nat)
    requires 2 * w == 64 && ones == Pow2(w) - 1
    ensures IsMask(ones, w)
  {
    forall j | 0 <= j < 64 ensures Bit(ones, j) == LowHalf(j, w) { BitOfOnes(w, j); }
  }

  /** The masks of both puzzles, built as in the code. */
  method BuildMasks()
    returns (mask1: Word64, mask2: Word64, mask3: Word64, mask4: Word64, mask5: Word64, mask6: Word64)
    ensures IsMask(mask6, 32) && IsMask(mask5, 16) && IsMask(mask4, 8)
    ensures IsMask(mask3, 4) && IsMask(mask2, 2) && IsMask(mask1, 1)
  {
    var byte := 0xFF;
    assert byte == Pow2(8) - 1 by { Pow2Sizes(); }
    var FFFF := DoubleOnes(byte, 8);
    mask6 := DoubleOnes(FFFF, 16);
    WidestMask(mask6, 32);
    mask5 := NextMask(mask6, 16);
    mask4 := NextMask(mask5, 8);
    mask3 := NextMask(mask4, 4);
    mask2 := NextMask(mask3, 2);
    mask1 := NextMask(mask2, 1);
  }

  /** One of its first two lines: a run of ones twice as long. */
  method DoubleOnes(ones: Word64, k: nat) returns (twice: Word64)
    requires 2 * k <= 64 && ones == Pow2(k) - 1
    ensures twice == Pow2(2 * k) - 1
  {
    OnesDoubled(ones, k, 64);
    twice := OrWord(ShlWord(ones, k), ones);
  }

  /** One of its other lines: from the mask for groups of 2 * w bits to that for w bits. */
  method NextMask(wide: Word64, w: nat) returns (mask: Word64)
    requires w > 0 && IsMask(wide, 2 * w)
    ensures IsMask(mask, w)
  {
    MaskBuilt(wide, w);
    mask := XorWord(ShlWord(wide, w), wide);
  }
}
