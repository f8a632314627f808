/** The mirror-image test (datalab-handout/bits.c): the word is reversed by exchanging
    ever smaller groups of bits, and compared with itself. Everything here is said bit by
    bit. The module ends with the position of the leading one, which the same file finds
    by halving the range. */
module BitMirror {
  import opened Words
  import opened Fields
  import opened Masks

  // ---- One exchange ----

  /** The place that changes places with j: the same place of the other half. */
  function Partner(j: nat, w: nat): int
    requires w > 0
  {
    if LowHalf(j, w) then j + w else j - w
  }

  /** One line of the reversal: neighbouring groups of w bits change places. */
  function Exchange(x: Word64, mask: Word64, w: nat): Word64
    requires w <= 63
  {
    OrWord(ShlWord(AndWord(x, mask), w), AndWord(Sar(AndWord(x, ShlWord(mask, w)), w), mask))
  }

  /** Partners are in the same field, in different halves. */
  lemma {:induction false} PartnerStays(j: nat, w: nat, n: nat)
    requires w > 0 && j < Width(w, n)
    ensures 0 <= Partner(j, w) < Width(w, n)
    ensures if LowHalf(j, w) then j < w || !LowHalf(j - w, w) else LowHalf(j - w, w)
    decreases n
  {
    if j >= 2 * w {
      PartnerStays(j - 2 * w, w, n - 1);
      assert LowHalf(j, w) && j - 2 * w >= w ==> LowHalf(j - w, w) == LowHalf(j - w - 2 * w, w);
    }
  }

  /** Shifting the upper half down and masking it leaves the bits of the lower half. */
  lemma BitOfDown(x: Word64, mask: Word64, w: nat, n: nat, j: nat)
    requires 0 < w <= 63 && 2 * w * n == 64 && IsMask(mask, w) && j < 64
    ensures Bit(AndWord(Sar(AndWord(x, ShlWord(mask, w)), w), mask), j)
         == (LowHalf(j, w) && j + w < 64 && Bit(x, j + w))
  {
    var upper := AndWord(x, ShlWord(mask, w));
    SarUnderMask(upper, mask, w, n);
    BitOfAnd(Shr(upper, w), mask, j);
    if LowHalf(j, w) {
      MaskIsRow(mask, w, n);
      PartnerStays(j, w, n);
      BitOfShr(upper, w, j);
      BitOfAnd(x, ShlWord(mask, w), j + w);
      BitOfShl(mask, w, 64, j + w);
    }
  }

  lemma BitOfUp(x: Word64, mask: Word64, w: nat, n: nat, j: nat)
    requires 0 < w <= 63 && 2 * w * n == 64 && IsMask(mask, w) && j < 64
    ensures Bit(ShlWord(AndWord(x, mask), w), j) == (!LowHalf(j, w) && j >= w && Bit(x, j - w))
  {
    BitOfShl(And(x, mask), w, 64, j);
    MaskIsRow(mask, w, n);
    PartnerStays(j, w, n);
    if j >= w { BitOfAnd(x, mask, j - w); }
  }

  /** Bit j of an exchanged word comes from its partner place. */
  lemma ExchangeMoves(x: Word64, mask: Word64, w: nat, n: nat, j: nat)
    requires 0 < w <= 63 && 2 * w * n == 64 && IsMask(mask, w) && j < 64
    ensures 0 <= Partner(j, w) < 64
    ensures Bit(Exchange(x, mask, w), j) == Bit(x, Partner(j, w))
  {
    MaskIsRow(mask, w, n);
    PartnerStays(j, w, n);
    BitOfUp(x, mask, w, n, j);
    BitOfDown(x, mask, w, n, j);
    BitOfOr(ShlWord(AndWord(x, mask), w), AndWord(Sar(AndWord(x, ShlWord(mask, w)), w), mask), j);
  }

  // ---- The whole word ----

  /** j with its place inside its group of w places mirrored. */
  function MirrorLow(j: nat, w: nat): nat
    requires w > 0
    decreases j
  {
    if j < w then w - 1 - j else w + MirrorLow(j - w, w)
  }

  /** An exchange of groups doubles the size of the mirrored group. */
  lemma {:induction false} MirrorStep(j: nat, w: nat)
    requires w > 0
    ensures Partner(MirrorLow(j, w), w) == MirrorLow(j, 2 * w)
    decreases j
  {
    if j >= 2 * w {
      MirrorStep(j - 2 * w, w);
      assert MirrorLow(j, w) == w + MirrorLow(j - w, w) == 2 * w + MirrorLow(j - 2 * w, w);
      var k := MirrorLow(j, w);
      assert LowHalf(k, w) == LowHalf(k - 2 * w, w);
    } else if j >= w {
      assert MirrorLow(j, w) == w + (w - 1 - (j - w));
    }
  }

  /** The groups of w places of r are those of x, each mirrored. */
  ghost predicate MirroredGroups(r: nat, x: nat, w: nat)
    requires w > 0
  {
    forall j :: 0 <= j < 64 ==> MirrorLow(j, w) < 64 && Bit(r, j) == Bit(x, MirrorLow(j, w))
  }

  /** One more exchange on the way from x to r doubles the groups. */
  lemma MirrorStage(r: nat, x: Word64, mask: Word64, w: nat, n: nat, next: Word64)
    requires 0 < w <= 63 && 2 * w * n == 64 && IsMask(mask, w) && next == Exchange(x, mask, w)
    requires MirroredGroups(r, next, w)
    ensures MirroredGroups(r, x, 2 * w)
  {
    forall j | 0 <= j < 64
      ensures MirrorLow(j, 2 * w) < 64 && Bit(r, j) == Bit(x, MirrorLow(j, 2 * w))
    {
      MirrorStep(j, w);
      ExchangeMoves(x, mask, w, n, MirrorLow(j, w));
    }
  }

  /** Groups of one place, and one group of all places. */
  lemma {:induction false} MirrorEnds(j: nat)
    ensures MirrorLow(j, 1) == j
    ensures j < 64 ==> MirrorLow(j, 64) == 63 - j
  {
    if j > 0 { MirrorEnds(j - 1); }
  }

  lemma NothingMirrored(x: nat)
    ensures MirroredGroups(x, x, 1)
  {
    forall j | 0 <= j < 64 ensures MirrorLow(j, 1) == j { MirrorEnds(j); }
  }

  /** r is x read from the other end. */
  ghost predicate Mirrors(r: nat, x: nat) {
    forall j :: 0 <= j < 64 ==> Bit(r, j) == Bit(x, 63 - j)
  }

  lemma WholeMirrored(r: nat, x: nat)
    requires MirroredGroups(r, x, 64)
    ensures Mirrors(r, x)
  {
    forall j | 0 <= j < 64 ensures Bit(r, j) == Bit(x, 63 - j) { MirrorEnds(j); }
  }

  /** The six exchanges of isPalindrome yield the mirror image of the word. */
  method Reverse(x: Word64) returns (rev: Word64)
    ensures Mirrors(rev, x)
  {
    var mask1, mask2, mask3, mask4, mask5, mask6 := BuildMasks();
    var r32 := Exchange(x, mask6, 32);
    var r16 := Exchange(r32, mask5, 16);
    var r8 := Exchange(r16, mask4, 8);
    var r4 := Exchange(r8, mask3, 4);
    var r2 := Exchange(r4, mask2, 2);
    rev := Exchange(r2, mask1, 1);
    NothingMirrored(rev);
    MirrorStage(rev, r2, mask1, 1, 32, rev);
    MirrorStage(rev, r4, mask2, 2, 16, r2);
    MirrorStage(rev, r8, mask3, 4, 8, r4);
    MirrorStage(rev, r16, mask4, 8, 4, r8);
    MirrorStage(rev, r32, mask5, 16, 2, r16);
    MirrorStage(rev, x, mask6, 32, 1, r32);
    WholeMirrored(rev, x);
  }

  lemma {:induction false} XorIsZero(x: nat, y: nat)
    ensures Xor(x, y) == 0 <==> x == y
    decreases x
  {
    if x > 0 && y > 0 { XorIsZero(x / 2, y / 2); }
  }

  lemma MirrorIsSame(rev: Word64, x: Word64)
    requires Mirrors(rev, x)
    ensures rev == x <==> Mirrors(x, x)
  {
    if Mirrors(x, x) {
      SameWords(rev, x);
    }
  }

  /** isPalindrome answers whether the word reads the same from both ends. */
  method IsPalindrome(x: Word64) returns (answer: nat)
    ensures answer == if Mirrors(x, x) then 1 else 0
  {
    var rev := Reverse(x);
    MirrorIsSame(rev, x);
    XorIsZero(rev, x);
    answer := if Xor(rev, x) == 0 then 1 else 0;
  }

  // ---- integerLog2 ----

  /** The leading one of x is at place h or at one of the k - 1 places above. */
  predicate Leads(x: nat, h: nat, k: nat) {
    0 < Shr(x, h) < Pow2(k)
  }

  /** The double negation of C: one if y is not zero. */
  function Flag(y: nat): nat { if y != 0 then 1 else 0 }

  /** Halving the range in which the leading one can be: it is at least k places up if
      anything is left after shifting by k more. */
  lemma Halve(x: Word64, h: nat, k: nat, y: nat)
    requires x < 0x8000_0000_0000_0000 && h + k <= 63 && Leads(x, h, 2 * k) && y == Sar(x, h + k)
    ensures y != 0 ==> Leads(x, h + k, k)
    ensures y == 0 ==> Leads(x, h, k)
  {
    var z := Shr(x, h);
    ShrShr(x, h, k);
    ShrBelow(z, k, k);
    ShrBelow(z, k, 0);
  }

  /** One line of integerLog2, where the flag is shifted to weigh k. */
  method Narrow(x: Word64, half: nat, k: nat) returns (next: nat)
    requires x < 0x8000_0000_0000_0000 && half + k <= 63 && Leads(x, half, 2 * k)
    ensures Leads(x, next, k) && half <= next <= half + k
  {
    var y := Sar(x, half + k);
    Halve(x, half, k, y);
    next := half + Flag(y) * k;
  }

  /** integerLog2: for positive x, 2^r <= x < 2^(r+1). */
  method IntegerLog2(x: Word64) returns (half: nat)
    requires 0 < x < 0x8000_0000_0000_0000
    ensures half <= 63 && Pow2(half) <= x < 2 * Pow2(half)
  {
    WordIs(x);
    half := Narrow(x, 0, 32);
    half := Narrow(x, half, 16);
    half := Narrow(x, half, 8);
    half := Narrow(x, half, 4);
    half := Narrow(x, half, 2);
    half := Narrow(x, half, 1);
    LeadingOneAt(x, half);
  }

  lemma LeadingOneAt(x: nat, r: nat)
    requires Leads(x, r, 1)
    ensures Pow2(r) <= x < 2 * Pow2(r)
  {
    ShrBelow(x, r, 1);
    ShrBelow(x, r, 0);
    assert Pow2(r + 1) == 2 * Pow2(r);
  }
}
