/** Words seen as rows of fields, single bits, and the arithmetic right shift. */
module Fields {
  import opened Words

  // ---- Rows of fields ----

  /** `high` above `low`, which has k bits. */
  function Join(low: nat, high: nat, k: nat): nat {
    low + Raised(high, k)
  }

  lemma HalfOfJoin(a: nat, b: nat, k: nat)
    requires k > 0
    ensures Join(a, b, k) / 2 == Join(a / 2, b, k - 1) && Join(a, b, k) % 2 == a % 2
  {
  }

  lemma {:induction false} JoinBelow(low: nat, high: nat, k: nat, m: nat)
    requires low < Pow2(k)
    ensures Join(low, high, k) < Pow2(k + m) <==> high < Pow2(m)
  {
    if k > 0 {
      HalfOfJoin(low, high, k);
      JoinBelow(low / 2, high, k - 1, m);
      assert Pow2(k + m) == 2 * Pow2(k - 1 + m);
    }
  }

  /** Fields below and above bit k do not interact. */
  lemma {:induction false} AndSplit(a: nat, b: nat, c: nat, d: nat, k: nat)
    requires a < Pow2(k) && c < Pow2(k)
    ensures And(Join(a, b, k), Join(c, d, k)) == Join(And(a, c), And(b, d), k)
  {
    if k > 0 {
      HalfOfJoin(a, b, k);
      HalfOfJoin(c, d, k);
      HalfOfJoin(And(a, c), And(b, d), k);
      AndHalves(Join(a, b, k), Join(c, d, k));
      AndHalves(a, c);
      AndSplit(a / 2, b, c / 2, d, k - 1);
    }
  }

  // ---- Single bits ----

  predicate Bit(x: nat, j: nat) {
    if j == 0 then x % 2 == 1 else Bit(x / 2, j - 1)
  }

  lemma {:induction false} BitOfShr(x: nat, w: nat, j: nat)
    ensures Bit(Shr(x, w), j) == Bit(x, w + j)
  {
    if w > 0 { BitOfShr(x / 2, w - 1, j); }
  }

  lemma {:induction false} NoBits(j: nat)
    ensures !Bit(0, j)
  {
    if j > 0 { NoBits(j - 1); }
  }

  lemma {:induction false} BitOfAnd(x: nat, y: nat, j: nat)
    ensures Bit(And(x, y), j) == (Bit(x, j) && Bit(y, j))
    decreases j
  {
    AndHalves(x, y);
    if j > 0 { BitOfAnd(x / 2, y / 2, j - 1); }
  }

  lemma {:induction false} BitOfOr(x: nat, y: nat, j: nat)
    ensures Bit(Or(x, y), j) == (Bit(x, j) || Bit(y, j))
    decreases j
  {
    OrHalves(x, y);
    if j > 0 { BitOfOr(x / 2, y / 2, j - 1); }
  }

  lemma {:induction false} BitOfXor(x: nat, y: nat, j: nat)
    ensures Bit(Xor(x, y), j) == (Bit(x, j) != Bit(y, j))
    decreases j
  {
    XorHalves(x, y);
    if j > 0 { BitOfXor(x / 2, y / 2, j - 1); }
  }

  lemma {:induction false} BitOfJoin(low: nat, high: nat, k: nat, j: nat)
    requires low < Pow2(k)
    ensures Bit(Join(low, high, k), j) == if j < k then Bit(low, j) else Bit(high, j - k)
    decreases k
  {
    if k > 0 {
      HalfOfJoin(low, high, k);
      if j > 0 { BitOfJoin(low / 2, high, k - 1, j - 1); }
    }
  }

  lemma {:induction false} BitOfLowBits(x: nat, n: nat, j: nat)
    ensures Bit(LowBits(x, n), j) == (j < n && Bit(x, j))
    decreases n
  {
    if n == 0 {
      NoBits(j);
    } else {
      assert LowBits(x, n) / 2 == LowBits(x / 2, n - 1) && LowBits(x, n) % 2 == x % 2;
      if j > 0 { BitOfLowBits(x / 2, n - 1, j - 1); }
    }
  }

  lemma BitOfShl(x: nat, w: nat, width: nat, j: nat)
    ensures Bit(Shl(x, w, width), j) == (w <= j < width && Bit(x, j - w))
  {
    BitOfLowBits(Raised(x, w), width, j);
    BitOfJoin(0, x, w, j);
    NoBits(j);
  }

  lemma {:induction false} BitOfOnes(w: nat, j: nat)
    ensures Bit(Pow2(w) - 1, j) == (j < w)
    decreases w
  {
    if w == 0 {
      NoBits(j);
    } else if j > 0 {
      assert (Pow2(w) - 1) / 2 == Pow2(w - 1) - 1;
      BitOfOnes(w - 1, j - 1);
    }
  }

  /** Numbers of n bits are equal when their bits are. */
  lemma {:induction false} SameBits(x: nat, y: nat, n: nat)
    requires x < Pow2(n) && y < Pow2(n)
    requires forall j :: 0 <= j < n ==> Bit(x, j) == Bit(y, j)
    ensures x == y
  {
    if n > 0 {
      assert Bit(x, 0) == Bit(y, 0);
      forall j | 0 <= j < n - 1
        ensures Bit(x / 2, j) == Bit(y / 2, j)
      {
        assert Bit(x, j + 1) == Bit(y, j + 1);
      }
      SameBits(x / 2, y / 2, n - 1);
    }
  }

  lemma SameWords(x: Word64, y: Word64)
    requires forall j :: 0 <= j < 64 ==> Bit(x, j) == Bit(y, j)
    ensures x == y
  {
    WordIs(x);
    WordIs(y);
    SameBits(x, y, 64);
  }

  // ---- How long the results are ----

  lemma {:induction false} AndBelow(x: nat, y: nat)
    ensures And(x, y) <= x
    decreases x
  {
    if x > 0 && y > 0 { AndBelow(x / 2, y / 2); }
  }

  lemma {:induction false} OrBelow(x: nat, y: nat, n: nat)
    requires x < Pow2(n) && y < Pow2(n)
    ensures Or(x, y) < Pow2(n)
  {
    if n > 0 {
      OrHalves(x, y);
      OrBelow(x / 2, y / 2, n - 1);
    }
  }

  lemma {:induction false} XorBelow(x: nat, y: nat, n: nat)
    requires x < Pow2(n) && y < Pow2(n)
    ensures Xor(x, y) < Pow2(n)
  {
    if n > 0 {
      XorHalves(x, y);
      XorBelow(x / 2, y / 2, n - 1);
    }
  }

  lemma OrIsWord(x: Word64, y: Word64)
    ensures Or(x, y) < WORD64
  {
    WordIs(x);
    WordIs(y);
    OrBelow(x, y, 64);
    WordIs(Or(x, y));
  }

  lemma XorIsWord(x: Word64, y: Word64)
    ensures Xor(x, y) < WORD64
  {
    WordIs(x);
    WordIs(y);
    XorBelow(x, y, 64);
    WordIs(Xor(x, y));
  }

  lemma ShlIsWord(x: nat, w: nat)
    ensures Shl(x, w, 64) < WORD64
  {
    Split(Raised(x, w), 64);
    WordIs(Shl(x, w, 64));
  }

  /** The operators on 64-bit words. */
  function AndWord(x: Word64, y: Word64): Word64 {
    AndBelow(x, y);
    And(x, y)
  }

  function OrWord(x: Word64, y: Word64): Word64 {
    OrIsWord(x, y);
    Or(x, y)
  }

  function XorWord(x: Word64, y: Word64): Word64 {
    XorIsWord(x, y);
    Xor(x, y)
  }

  function ShlWord(x: Word64, w: nat): Word64 {
    ShlIsWord(x, w);
    Shl(x, w, 64)
  }

  // ---- Right shift of a signed long ----

  lemma ShrRange(x: Word64, w: nat)
    requires w <= 64
    ensures Shr(x, w) < Pow2(64 - w)
  {
    WordIs(x);
    ShrBelow(x, w, 64 - w);
  }

  /** The top w bits of a word. */
  function SignBits(w: nat): nat
    requires w <= 63
  {
    Join(0, Pow2(w) - 1, 64 - w)
  }

  lemma SignBitsFit(s: nat, w: nat)
    requires w <= 63 && s < Pow2(64 - w)
    ensures s + SignBits(w) == Join(s, Pow2(w) - 1, 64 - w) < WORD64
  {
    JoinBelow(s, Pow2(w) - 1, 64 - w, w);
    WordIs(Join(s, Pow2(w) - 1, 64 - w));
  }

  /** Right shift of a 64-bit word read as a signed long: the sign bit moves in. */
  function Sar(x: Word64, w: nat): Word64
    requires w <= 63
  {
    var s := Shr(x, w);
    ShrRange(x, w);
    SignBitsFit(s, w);
    if x >= 0x8000_0000_0000_0000 then s + SignBits(w) else s
  }

  /** Bit by bit: what leaves at the bottom is lost, and the sign bit comes in at the top. */
  lemma BitOfSar(x: Word64, w: nat, j: nat)
    requires w <= 63 && j < 64
    ensures Bit(Sar(x, w), j) <==> Bit(x, if j + w < 64 then j + w else 63)
  {
    var s := Shr(x, w);
    ShrRange(x, w);
    SignBitsFit(s, w);
    SignBit(x);
    BitOfShr(x, w, j);
    BitOfJoin(s, Pow2(w) - 1, 64 - w, j);
    BitOfJoin(s, 0, 64 - w, j);
    assert Join(s, 0, 64 - w) == s by { ShrZero(64 - w); RaisedIs(0, 64 - w); }
    if j + w >= 64 {
      BitOfOnes(w, j - (64 - w));
      NoBits(j - (64 - w));
    }
  }

  lemma SignBit(x: Word64)
    ensures Bit(x, 63) <==> x >= 0x8000_0000_0000_0000
  {
    var top := Shr(x, 63);
    assert Pow2(63) == 0x8000_0000_0000_0000 by { Pow2Sizes(); assert Pow2(64) == 2 * Pow2(63); }
    assert top < 2 by { ShrRange(x, 63); assert Pow2(1) == 2; }
    assert top < 1 <==> x < Pow2(63) by { ShrBelow(x, 63, 0); assert Pow2(0) == 1; }
    BitOfShr(x, 63, 0);
  }

  lemma HighBitsMasked(s: nat, high: nat, m: nat, k: nat)
    requires s < Pow2(k) && m < Pow2(k)
    ensures And(Join(s, high, k), m) == And(s, m)
  {
    ShrZero(k);
    AndSplit(s, high, m, 0, k);
    assert And(high, 0) == 0;
  }

  /** A mask below the sign bits clears them. */
  lemma SarMasked(x: Word64, w: nat, mask: nat)
    requires w <= 63 && mask < Pow2(64 - w)
    ensures And(Sar(x, w), mask) == And(Shr(x, w), mask)
  {
    var s := Shr(x, w);
    ShrRange(x, w);
    SignBitsFit(s, w);
    HighBitsMasked(s, Pow2(w) - 1, mask, 64 - w);
  }
}
