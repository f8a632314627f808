/** Two puzzles on signed 64-bit integers (datalab-handout/bits.c): division by a power of
    two and multiplication by three fourths, both rounding toward zero. The C operators are
    modelled on mathematical integers, with their wrap-around. */
module LongArithmetic {
  import opened Words

  const SIGN_WEIGHT: int := 0x8000_0000_0000_0000

  predicate InRange(v: int) { -SIGN_WEIGHT <= v < SIGN_WEIGHT }

  type Long = x: int | -0x8000_0000_0000_0000 <= x < 0x8000_0000_0000_0000

  /** The signed long with the low 64 bits of v. */
  function Wrap(v: int): (r: Long)
    ensures InRange(v) ==> r == v
  {
    (v + SIGN_WEIGHT) % WORD64 - SIGN_WEIGHT
  }

  /** The complement of all bits. */
  function Not(x: Long): Long {
    var v: int := x;
    -v - 1
  }

  function ShiftLeft(x: Long, n: nat): Long { Wrap(x * Pow2(n)) }

  /** The arithmetic right shift rounds down. */
  function ShiftRight(x: Long, n: nat): Long {
    FloorInRange(x, Pow2(n));
    x / Pow2(n)
  }

  /** Conjunction of the two bit patterns. */
  function Conj(x: Long, y: Long): Long {
    Wrap(And(x % WORD64, y % WORD64))
  }

  /** The double negation of C. */
  function Truth(x: Long): Long { if x != 0 then 1 else 0 }

  /** The quotient rounded toward zero, as the division of C rounds. */
  function Truncated(a: int, d: nat): int
    requires d > 0
  {
    if a >= 0 then a / d else -(-a / d)
  }

  // ---- What the pieces compute ----

  lemma FloorInRange(x: Long, d: nat)
    requires d > 0
    ensures InRange(x / d)
  {
    var q := x / d;
    assert x == q * d + x % d;
    if q >= 0 {
      MulBounds(1, d, q);
    } else {
      var n: nat := -1 - q;
      MulBounds(1, d, n);
      assert n * d == -1 * d - q * d;
    }
  }

  lemma SignIs(x: Long)
    ensures Truth(ShiftLeft(ShiftRight(x, 63), 63)) == if x < 0 then 1 else 0
  {
    assert Pow2(63) == SIGN_WEIGHT by { Pow2Sizes(); assert Pow2(64) == 2 * Pow2(63); }
    if x < 0 { DivUnique(x, SIGN_WEIGHT, -1); } else { DivUnique(x, SIGN_WEIGHT, 0); }
  }

  /** Two to the n, for the shift distances the puzzle allows. */
  lemma PowerInRange(n: nat)
    requires n <= 62
    ensures 2 * Pow2(n) <= SIGN_WEIGHT
  {
    Pow2Monotone(n, 62);
    assert Pow2(64) == 4 * Pow2(62);
    Pow2Sizes();
  }

  lemma BiasIs(sign: Long, n: nat, p: nat)
    requires n <= 62 && (sign == 0 || sign == 1) && p == Pow2(n)
    ensures Not(Wrap(Not(ShiftLeft(sign, n)) + sign)) == if sign == 1 then p - 1 else 0
  {
    PowerInRange(n);
    assert sign * p == if sign == 1 then p else 0;
  }

  /** Rounding a negative number down after adding d - 1 rounds it toward zero. */
  lemma CeilingOfNegative(x: int, d: nat)
    requires d > 0 && x < 0
    ensures (x + d - 1) / d == Truncated(x, d)
  {
    var q := -x / d;
    assert -x == q * d + -x % d;
    assert -q * d == -(q * d);
    DivUnique(x + d - 1, d, -q);
  }

  lemma LowBitsOf(x: Long)
    ensures Conj(x, 3) == x % 4
  {
    assert Pow2(2) == 4;
    SmallMod(3, WORD64);
    AndLowMask(x % WORD64, 2);
    LowBitsIsMod(x % WORD64, 2);
  }

  // ---- The puzzles ----

  /** The first two lines of both puzzles: what must be added before shifting right by n
      so that negative numbers are rounded up. */
  method FindBias(x: Long, n: nat) returns (bias: Long)
    requires n <= 62
    ensures bias == if x < 0 then Pow2(n) - 1 else 0
  {
    var sign := Truth(ShiftLeft(ShiftRight(x, 63), 63));
    SignIs(x);
    BiasIs(sign, n, Pow2(n));
    bias := Not(Wrap(Not(ShiftLeft(sign, n)) + sign));
  }

  lemma BiasedShift(x: Long, bias: Long, n: nat)
    requires n <= 62 && bias == if x < 0 then Pow2(n) - 1 else 0
    ensures ShiftRight(Wrap(x + bias), n) == Truncated(x, Pow2(n))
  {
    PowerInRange(n);
    if x < 0 { CeilingOfNegative(x, Pow2(n)); }
  }

  /** dividePower2 rounds the quotient toward zero, for every x and n up to 62. */
  method DividePower2(x: Long, n: nat) returns (r: Long)
    requires n <= 62
    ensures r == Truncated(x, Pow2(n))
  {
    var bias := FindBias(x, n);
    BiasedShift(x, bias, n);
    r := ShiftRight(Wrap(x + bias), n);
  }

  /** Three times the quotient by four and the rounded rest make up three fourths. */
  lemma ThreeFourths(x: Long, bias: Long)
    requires bias == if x < 0 then 3 else 0
    ensures Truncated(3 * x, 4) == 3 * (x / 4) + (3 * (x % 4) + bias) / 4
  {
    if x < 0 { CeilingOfNegative(3 * x, 4); }
  }

  /** trueThreeFourths is 3x/4 rounded toward zero for every x, also when 3x overflows. */
  method TrueThreeFourths(x: Long) returns (r: Long)
    ensures r == Truncated(3 * x, 4)
  {
    var mod := Conj(x, 3);
    LowBitsOf(x);
    assert Pow2(2) == 4;
    var bias := FindBias(x, 2);
    ThreeFourths(x, bias);
    mod := ShiftRight(Wrap(Wrap(Wrap(mod + mod) + mod) + bias), 2);
    var y := ShiftRight(x, 2);
    r := Wrap(Wrap(Wrap(y + y) + y) + mod);
  }
}
