/** Machine words as natural numbers: the C operators on unsigned words that the repository
    relies on, one bit at a time, their arithmetic meaning, and the algebra the proofs need. */
module Words {

  function Pow2(n: nat): (p: nat)
    ensures p > 0
  {
    if n == 0 then 1 else 2 * Pow2(n - 1)
  }

  const WORD64: nat := 0x1_0000_0000_0000_0000
  const WORD32: nat := 0x1_0000_0000

  type Word64 = x: nat | x < WORD64
  type Word32 = x: nat | x < WORD32

  // ---- The operators ----

  /** Unsigned right shift. */
  function Shr(x: nat, n: nat): nat {
    if n == 0 then x else Shr(x / 2, n - 1)
  }

  /** `x` moved up by `n` places, in a word as wide as needed. */
  function Raised(x: nat, n: nat): nat {
    if n == 0 then x else 2 * Raised(x, n - 1)
  }

  /** The low `n` bits of `x`. */
  function LowBits(x: nat, n: nat): nat {
    if n == 0 then 0 else 2 * LowBits(x / 2, n - 1) + x % 2
  }

  /** Left shift in a word of `width` bits: the bits shifted out are lost. */
  function Shl(x: nat, n: nat, width: nat): nat {
    LowBits(Raised(x, n), width)
  }

  /** Bitwise conjunction. */
  function And(x: nat, y: nat): nat
    decreases x
  {
    if x == 0 || y == 0 then 0
    else 2 * And(x / 2, y / 2) + (if x % 2 == 1 && y % 2 == 1 then 1 else 0)
  }

  /** Bitwise disjunction. */
  function Or(x: nat, y: nat): nat
    decreases x
  {
    if x == 0 then y
    else if y == 0 then x
    else 2 * Or(x / 2, y / 2) + (if x % 2 == 1 || y % 2 == 1 then 1 else 0)
  }

  /** Bitwise exclusive or. */
  function Xor(x: nat, y: nat): nat
    decreases x
  {
    if x == 0 then y
    else if y == 0 then x
    else 2 * Xor(x / 2, y / 2) + (if x % 2 != y % 2 then 1 else 0)
  }

  // ---- Powers of two ----

  lemma {:induction false} Pow2Add(m: nat, n: nat)
    ensures Pow2(m + n) == Pow2(m) * Pow2(n)
  {
    if m > 0 {
      Pow2Add(m - 1, n);
      Doubled(Pow2(n), Pow2(m - 1));
    }
  }

  lemma Doubled(a: nat, p: nat)
    ensures a * (2 * p) == (2 * p) * a == 2 * (a * p) == 2 * (p * a)
  {
  }

  lemma {:induction false} Pow2Monotone(m: nat, n: nat)
    requires m <= n
    ensures Pow2(m) <= Pow2(n)
  {
    if m < n { Pow2Monotone(m, n - 1); }
  }

  lemma Pow2Sizes()
    ensures Pow2(8) == 256 && Pow2(23) == 0x80_0000 && Pow2(31) == 0x8000_0000
    ensures Pow2(32) == WORD32 && Pow2(64) == WORD64
  {
    assert Pow2(8) == 256;
    assert Pow2(16) == 65536 by { Pow2Add(8, 8); }
    assert Pow2(7) == 128;
    Pow2Add(16, 7);
    Pow2Add(23, 8);
    Pow2Add(16, 16);
    Pow2Add(32, 32);
  }

  /** The words are the numbers of 64 bits. */
  lemma WordIs(x: nat)
    ensures x < Pow2(64) <==> x < WORD64
  {
    Pow2Sizes();
  }

  // ---- Division ----

  /** The quotient is characterised by its defining inequality. */
  lemma DivUnique(x: int, d: int, q: int)
    requires d > 0 && q * d <= x < q * d + d
    ensures x / d == q && x % d == x - q * d
  {
    // x - q * d is a remainder, and remainders are unique
    var k := x / d - q;
    assert x == (x / d) * d + x % d;
    assert k * d == (x - q * d) - x % d by { assert (x / d) * d == k * d + q * d; }
    SmallMultiple(k, d);
  }

  /** The only multiple of `d` strictly between -d and d is zero. */
  lemma SmallMultiple(k: int, d: int)
    requires d > 0 && -d < k * d < d
    ensures k == 0
  {
    if k >= 1 {
      MulBounds(1, k, d);
    }
  }

  lemma MulBounds(x: nat, y: nat, c: nat)
    requires x <= y
    ensures x * c <= y * c
  {
    assert y * c == x * c + (y - x) * c;
  }

  lemma SmallMod(x: nat, d: nat)
    requires x < d
    ensures x % d == x && x / d == 0
  {
    DivUnique(x, d, 0);
  }

  /** Halving and dividing by p is dividing by 2 * p. */
  lemma HalfQuotient(x: nat, p: nat)
    requires p > 0
    ensures x / (2 * p) == x / 2 / p && x % (2 * p) == 2 * (x / 2 % p) + x % 2
  {
    var h := x / 2;
    var q := h / p;
    assert h == q * p + h % p;
    assert q * (2 * p) == 2 * (q * p);
    DivUnique(x, 2 * p, q);
  }

  // ---- Shifting ----

  lemma {:induction false} ShrShr(x: nat, m: nat, n: nat)
    ensures Shr(Shr(x, m), n) == Shr(x, m + n)
  {
    if m > 0 { ShrShr(x / 2, m - 1, n); }
  }

  lemma {:induction false} ShrRaised(x: nat, n: nat)
    ensures Shr(Raised(x, n), n) == x
  {
    if n > 0 {
      assert Raised(x, n) / 2 == Raised(x, n - 1);
      ShrRaised(x, n - 1);
    }
  }

  lemma {:induction false} ShrZero(n: nat)
    ensures Shr(0, n) == 0 && Raised(0, n) == 0
  {
    if n > 0 { ShrZero(n - 1); }
  }

  lemma {:induction false} RaisedAdds(x: nat, y: nat, n: nat)
    ensures Raised(x + y, n) == Raised(x, n) + Raised(y, n)
  {
    if n > 0 { RaisedAdds(x, y, n - 1); }
  }

  lemma {:induction false} RaisedRaised(x: nat, m: nat, n: nat)
    ensures Raised(Raised(x, m), n) == Raised(x, m + n)
  {
    if n > 0 { RaisedRaised(x, m, n - 1); }
  }

  /** Moving up keeps the order. */
  lemma {:induction false} RaisedOrder(x: nat, y: nat, n: nat)
    ensures x < y <==> Raised(x, n) < Raised(y, n)
    ensures x == y <==> Raised(x, n) == Raised(y, n)
  {
    if n > 0 { RaisedOrder(x, y, n - 1); }
  }

  lemma {:induction false} RaisedDouble(x: nat, n: nat)
    ensures Raised(2 * x, n) == Raised(x, n + 1) == 2 * Raised(x, n)
  {
    if n > 0 { RaisedDouble(x, n - 1); }
  }

  lemma {:induction false} RaisedFurther(x: nat, m: nat, n: nat)
    requires m <= n
    ensures Raised(x, m) <= Raised(x, n)
  {
    if m < n { RaisedFurther(x, m, n - 1); }
  }

  lemma {:induction false} RaisedPow2(m: nat, n: nat)
    ensures Raised(Pow2(m), n) == Pow2(m + n)
  {
    if n > 0 { RaisedPow2(m, n - 1); }
  }

  /** The topmost of the low bits. */
  lemma {:induction false} TopOfLowBits(x: nat, n: nat)
    requires n > 0
    ensures LowBits(x, n) == LowBits(x, n - 1) + (if Shr(x, n - 1) % 2 == 1 then Pow2(n - 1) else 0)
  {
    if n > 1 { TopOfLowBits(x / 2, n - 1); }
  }

  lemma {:induction false} ShrPow2(m: nat, n: nat)
    requires n <= m
    ensures Shr(Pow2(m), n) == Pow2(m - n) && Shr(Pow2(m) - 1, n) == Pow2(m - n) - 1
  {
    if n > 0 {
      assert Pow2(m) / 2 == Pow2(m - 1) && (Pow2(m) - 1) / 2 == Pow2(m - 1) - 1;
      ShrPow2(m - 1, n - 1);
    }
  }

  /** The low bits and what is above them make up the number. */
  lemma {:induction false} Split(x: nat, n: nat)
    ensures x == LowBits(x, n) + Raised(Shr(x, n), n) && LowBits(x, n) < Pow2(n)
  {
    if n > 0 { Split(x / 2, n - 1); }
  }

  /** And there is only one way to make it up. */
  lemma {:induction false} SplitUnique(low: nat, high: nat, n: nat)
    requires low < Pow2(n)
    ensures LowBits(low + Raised(high, n), n) == low && Shr(low + Raised(high, n), n) == high
  {
    if n > 0 {
      var x := low + Raised(high, n);
      assert x / 2 == low / 2 + Raised(high, n - 1) && x % 2 == low % 2;
      SplitUnique(low / 2, high, n - 1);
    }
  }

  lemma {:induction false} ShrBelow(x: nat, n: nat, m: nat)
    ensures x < Pow2(n + m) <==> Shr(x, n) < Pow2(m)
  {
    if n > 0 {
      assert Pow2(n + m) == 2 * Pow2(n - 1 + m);
      ShrBelow(x / 2, n - 1, m);
    }
  }

  lemma {:induction false} LowBitsSmall(x: nat, n: nat)
    requires x < Pow2(n)
    ensures LowBits(x, n) == x
  {
    if n > 0 { LowBitsSmall(x / 2, n - 1); }
  }

  lemma {:induction false} LowBitsTwice(x: nat, m: nat, n: nat)
    requires m <= n
    ensures LowBits(LowBits(x, n), m) == LowBits(x, m)
  {
    if m > 0 {
      assert LowBits(x, n) / 2 == LowBits(x / 2, n - 1) && LowBits(x, n) % 2 == x % 2;
      LowBitsTwice(x / 2, m - 1, n - 1);
    }
  }

  /** Shifting right, left and right again loses nothing beyond the first shift. */
  lemma ShrShlShr(x: nat, n: nat, width: nat)
    requires x < Pow2(width)
    ensures Shr(Shl(Shr(x, n), n, width), n) == Shr(x, n)
  {
    Split(x, n);
    LowBitsSmall(Raised(Shr(x, n), n), width);
    ShrRaised(Shr(x, n), n);
  }

  // ---- What the shifts compute ----

  lemma {:induction false} ShrIs(x: nat, n: nat)
    ensures Shr(x, n) == x / Pow2(n)
  {
    if n == 0 {
      DivUnique(x, 1, x);
    } else {
      ShrIs(x / 2, n - 1);
      HalfQuotient(x, Pow2(n - 1));
    }
  }

  lemma {:induction false} RaisedIs(x: nat, n: nat)
    ensures Raised(x, n) == x * Pow2(n)
  {
    if n > 0 {
      RaisedIs(x, n - 1);
      Doubled(x, Pow2(n - 1));
    }
  }

  lemma {:induction false} LowBitsIsMod(x: nat, n: nat)
    ensures LowBits(x, n) == x % Pow2(n)
  {
    if n == 0 {
      DivUnique(x, 1, x);
    } else {
      LowBitsIsMod(x / 2, n - 1);
      HalfQuotient(x, Pow2(n - 1));
    }
  }

  // ---- Conjunction with a mask ----

  lemma {:induction false} AndLowMask(x: nat, n: nat)
    ensures And(x, Pow2(n) - 1) == LowBits(x, n)
  {
    if n == 0 || x == 0 {
      LowBitsSmall(0, n);
    } else {
      AndLowMask(x / 2, n - 1);
      var m := Pow2(n) - 1;
      assert m / 2 == Pow2(n - 1) - 1 && m % 2 == 1;
    }
  }

  lemma {:induction false} AndPow2(x: nat, n: nat)
    ensures And(Pow2(n), x) == if Shr(x, n) % 2 == 1 then Pow2(n) else 0
  {
    if x == 0 {
      ShrZero(n);
    } else if n == 0 {
      assert And(0, x / 2) == 0;
    } else {
      AndPow2(x / 2, n - 1);
      assert Pow2(n) / 2 == Pow2(n - 1) && Pow2(n) % 2 == 0;
    }
  }

  lemma {:induction false} AndCommutes(x: nat, y: nat)
    ensures And(x, y) == And(y, x)
  {
    if x != 0 && y != 0 { AndCommutes(x / 2, y / 2); }
  }

  // ---- Halves ----

  lemma AndHalves(x: nat, y: nat)
    ensures And(x, y) / 2 == And(x / 2, y / 2)
    ensures And(x, y) % 2 == 1 <==> x % 2 == 1 && y % 2 == 1
  {
  }

  lemma OrHalves(x: nat, y: nat)
    ensures Or(x, y) / 2 == Or(x / 2, y / 2)
    ensures Or(x, y) % 2 == 1 <==> x % 2 == 1 || y % 2 == 1
  {
  }

  lemma XorHalves(x: nat, y: nat)
    ensures Xor(x, y) / 2 == Xor(x / 2, y / 2)
    ensures Xor(x, y) % 2 == 1 <==> x % 2 != y % 2
  {
  }

  /** The disjunction of fields that do not overlap is their sum. */
  lemma {:induction false} OrDisjoint(a: nat, b: nat, n: nat)
    requires b < Pow2(n)
    ensures Or(Raised(a, n), b) == Raised(a, n) + b
  {
    if n > 0 {
      var x := Raised(a, n);
      assert x / 2 == Raised(a, n - 1) && x % 2 == 0;
      OrDisjoint(a, b / 2, n - 1);
      OrHalves(x, b);
    }
  }
}
