/** Machine words as natural numbers.

The kernel computes with `usize`/`u64` words: `&`, `|`, `^`, `!`, shifts and counts of leading or
trailing zeros.  Here a word is a natural number, each operator is defined on its binary digits,
and the lemmas give the arithmetic meaning the rest of the project uses.
 */
module Bits {

  const WORD: nat := 0x1_0000_0000_0000_0000  // one past the largest 64-bit word
  const PAGE: nat := 4096

  function Pow2(n: nat): (p: nat)
    ensures p > 0
  {
    if n == 0 then 1 else 2 * Pow2(n - 1)
  }

  /** `x >> n` */
  function Shr(x: nat, n: nat): nat
  {
    if n == 0 then x else Shr(x / 2, n - 1)
  }

  predicate Bit(x: nat, i: nat)
  {
    if i == 0 then x % 2 == 1 else Bit(x / 2, i - 1)
  }

  /** `a & b` */
  function And(a: nat, b: nat): nat
  {
    if a == 0 || b == 0 then 0
    else (if a % 2 == 1 && b % 2 == 1 then 1 else 0) + 2 * And(a / 2, b / 2)
  }

  /** `a | b` */
  function Or(a: nat, b: nat): nat
    decreases a + b
  {
    if a == 0 then b
    else if b == 0 then a
    else (if a % 2 == 1 || b % 2 == 1 then 1 else 0) + 2 * Or(a / 2, b / 2)
  }

  /** `a ^ b` */
  function Xor(a: nat, b: nat): nat
    decreases a + b
  {
    if a == 0 then b
    else if b == 0 then a
    else (if a % 2 != b % 2 then 1 else 0) + 2 * Xor(a / 2, b / 2)
  }

  /** `!x` on a 64-bit word */
  function Not(x: nat): nat
    requires x < WORD
  {
    WORD - 1 - x
  }

  function Min(a: nat, b: nat): nat { if a <= b then a else b }

  function Max(a: nat, b: nat): nat { if a >= b then a else b }

  /** `a.saturating_add(b)` */
  function SaturatingAdd(a: nat, b: nat): nat { Min(a + b, WORD - 1) }

  /** `a.saturating_sub(b)` */
  function SaturatingSub(a: nat, b: nat): nat { if a >= b then a - b else 0 }

  /** `x.trailing_zeros()` of a non-zero word */
  function TrailingZeros(x: nat): nat
    requires x > 0
  {
    if x % 2 == 1 then 0 else 1 + TrailingZeros(x / 2)
  }

  /** The position of the highest set bit: `BITS - leading_zeros - 1`. */
  function HighestBit(x: nat): nat
    requires x > 0
  {
    if x == 1 then 0 else 1 + HighestBit(x / 2)
  }

  /** The exponent of `x.next_power_of_two()`. */
  function CeilLog2(x: nat): nat
    requires x > 0
  {
    if x == 1 then 0 else 1 + CeilLog2((x + 1) / 2)
  }

  lemma {:induction false} WordIsPow2()
    ensures Pow2(64) == WORD
    ensures Pow2(12) == PAGE
    ensures Pow2(3) == 8
  {
    assert Pow2(8) == 256 by { assert Pow2(4) == 16; }
    assert Pow2(12) == 4096;
    assert Pow2(16) == 0x1_0000;
    Pow2Add(16, 16);
    Pow2Add(32, 32);
  }

  lemma {:induction false} Pow2Add(a: nat, b: nat)
    ensures Pow2(a + b) == Pow2(a) * Pow2(b)
  {
    if a > 0 {
      Pow2Add(a - 1, b);
      var x, y := Pow2(a - 1), Pow2(b);
      assert Pow2(a) == 2 * x && Pow2(a + b) == 2 * Pow2(a - 1 + b);
      hide Pow2;
      DoubleProduct(x, y);
    }
  }

  lemma DoubleProduct(x: nat, y: nat)
    ensures (2 * x) * y == 2 * (x * y)
  {
  }

  lemma {:induction false} Pow2Monotone(a: nat, b: nat)
    requires a <= b
    ensures Pow2(a) <= Pow2(b)
  {
    if a < b {
      Pow2Monotone(a, b - 1);
    }
  }

  lemma {:induction false} Pow2Strict(a: nat, b: nat)
    requires a < b
    ensures 2 * Pow2(a) <= Pow2(b)
  {
    Pow2Monotone(a + 1, b);
  }

  /** A smaller power of two divides a larger one. */
  lemma {:induction false} Pow2Divides(a: nat, b: nat, x: nat)
    requires a <= b && x % Pow2(b) == 0
    ensures x % Pow2(a) == 0
  {
    Pow2Add(b - a, a);
    ModOfMultiple(x, Pow2(b - a), Pow2(a));
  }

  lemma ModOfMultiple(x: nat, k: nat, m: nat)
    requires k > 0 && m > 0 && k * m > 0 && x % (k * m) == 0
    ensures x % m == 0
  {
    var q := x / (k * m);
    assert x == (k * m) * q;
    assert (k * m) * q == (q * k) * m;
    MultipleMod(q * k, m);
  }

  lemma MultipleMod(k: nat, m: nat)
    requires m > 0
    ensures (k * m) % m == 0 && (k * m) / m == k
  {
    DivUnique(k * m, m, k, 0);
  }

  /** Euclidean division has one quotient and one remainder. */
  lemma DivUnique(x: int, m: int, q: int, r: int)
    requires m > 0 && x == q * m + r && 0 <= r < m
    ensures x / m == q && x % m == r
  {
    var q', r' := x / m, x % m;
    var d := q - q';
    assert r' - r == d * m by {
      assert x == m * q' + r';
      assert d * m == q * m - q' * m;
    }
    MultipleFar(d, m);
  }

  /** A non-zero multiple of `m` is at least `m` away from zero. */
  lemma MultipleFar(d: int, m: int)
    requires m > 0
    ensures d >= 1 ==> d * m >= m
    ensures d <= -1 ==> d * m <= -m
  {
    if d >= 1 {
      assert (d - 1) * m >= 0;
    } else if d <= -1 {
      assert (-1 - d) * m >= 0;
    }
  }

  lemma EvenPart(k: nat, a: nat)
    ensures (2 * k + a) / 2 == k + a / 2 && (2 * k + a) % 2 == a % 2
  {
  }

  lemma Halves(x: nat)
    ensures x / 4 == x / 2 / 2 && x / 8 == x / 2 / 2 / 2
  {
    var a := x / 2;
    var b := a / 2;
    var c := b / 2;
    DivUnique(x, 4, b, 2 * (a % 2) + x % 2);
    DivUnique(x, 8, c, 4 * (b % 2) + 2 * (a % 2) + x % 2);
  }

  lemma DoubledBounds(x: nat, k: nat, p: nat)
    requires k * p <= x / 2 < k * p + p
    ensures k * (2 * p) <= x < k * (2 * p) + 2 * p
  {
    var kp := k * p;
    assert k * (2 * p) == 2 * kp;
  }

  lemma {:induction false} ShrIsDivision(x: nat, n: nat)
    ensures Shr(x, n) * Pow2(n) <= x < Shr(x, n) * Pow2(n) + Pow2(n)
    ensures Shr(x, n) == x / Pow2(n)
  {
    if n > 0 {
      ShrIsDivision(x / 2, n - 1);
      DoubledBounds(x, Shr(x, n), Pow2(n - 1));
    }
    hide Shr, Pow2;
    DivUnique(x, Pow2(n), Shr(x, n), x - Shr(x, n) * Pow2(n));
  }

  lemma {:induction false} ShrAdd(x: nat, a: nat, b: nat)
    ensures Shr(x, a + b) == Shr(Shr(x, a), b)
  {
    if a > 0 {
      ShrAdd(x / 2, a - 1, b);
    }
  }

  lemma {:induction false} BitIsShr(x: nat, i: nat)
    ensures Bit(x, i) <==> Shr(x, i) % 2 == 1
  {
    if i > 0 {
      BitIsShr(x / 2, i - 1);
    }
  }

  // ----- digits of the operators

  lemma {:induction false} BitOfZero(i: nat)
    ensures !Bit(0, i)
  {
    if i > 0 {
      BitOfZero(i - 1);
    }
  }

  lemma {:induction false} BitOfPow2(n: nat, i: nat)
    ensures Bit(Pow2(n), i) <==> i == n
  {
    if n == 0 {
      if i > 0 {
        BitOfZero(i - 1);
      }
    } else if i > 0 {
      BitOfPow2(n - 1, i - 1);
    }
  }

  lemma {:induction false} BitOfAnd(a: nat, b: nat, i: nat)
    ensures Bit(And(a, b), i) <==> Bit(a, i) && Bit(b, i)
  {
    BitOfZero(i);
    if a != 0 && b != 0 && i > 0 {
      assert And(a, b) / 2 == And(a / 2, b / 2);
      BitOfAnd(a / 2, b / 2, i - 1);
    }
  }

  lemma {:induction false} BitOfOr(a: nat, b: nat, i: nat)
    ensures Bit(Or(a, b), i) <==> Bit(a, i) || Bit(b, i)
  {
    BitOfZero(i);
    if a != 0 && b != 0 && i > 0 {
      assert Or(a, b) / 2 == Or(a / 2, b / 2);
      BitOfOr(a / 2, b / 2, i - 1);
    }
  }

  /** The complement within `n` digits flips every one of them. */
  lemma {:induction false} BitOfComplement(x: nat, n: nat, i: nat)
    requires x < Pow2(n) && i < n
    ensures Bit(Pow2(n) - 1 - x, i) <==> !Bit(x, i)
  {
    var y := Pow2(n) - 1 - x;
    assert Pow2(n) == 2 * Pow2(n - 1);
    if i > 0 {
      assert y / 2 == Pow2(n - 1) - 1 - x / 2;
      BitOfComplement(x / 2, n - 1, i - 1);
    }
  }

  lemma BitOfNot(x: nat, i: nat)
    requires x < WORD && i < 64
    ensures Bit(Not(x), i) <==> !Bit(x, i)
  {
    WordIsPow2();
    BitOfComplement(x, 64, i);
  }

  /** A word with no bits in common with a single-bit mask tests as zero. */
  lemma {:induction false} AndPow2(x: nat, n: nat)
    ensures And(x, Pow2(n)) == if Bit(x, n) then Pow2(n) else 0
  {
    if x == 0 {
      BitOfZero(n);
    } else if n == 0 {
      assert And(x / 2, 0) == 0;
    } else {
      AndPow2(x / 2, n - 1);
    }
  }

  lemma {:induction false} AndBound(a: nat, b: nat)
    ensures And(a, b) <= a && And(a, b) <= b
  {
    if a != 0 && b != 0 {
      AndBound(a / 2, b / 2);
    }
  }

  lemma {:induction false} OrBound(a: nat, b: nat, n: nat)
    requires a < Pow2(n) && b < Pow2(n)
    ensures Or(a, b) < Pow2(n)
  {
    if a != 0 && b != 0 {
      OrBound(a / 2, b / 2, n - 1);
    }
  }

  /** `or` of values with no common digit position is addition. */
  lemma {:induction false} OrIsSum(k: nat, low: nat, n: nat)
    requires low < Pow2(n)
    ensures Or(k * Pow2(n), low) == k * Pow2(n) + low
  {
    if k != 0 && low != 0 {
      var p := Pow2(n - 1);
      assert Pow2(n) == 2 * p;
      assert k * (2 * p) == 2 * (k * p);
      assert k * p > 0;
      OrIsSum(k, low / 2, n - 1);
    }
  }

  /** `a | b` is a multiple of `2^n` exactly when both are. */
  lemma {:induction false} OrMultiple(a: nat, b: nat, n: nat)
    ensures Or(a, b) % Pow2(n) == 0 <==> a % Pow2(n) == 0 && b % Pow2(n) == 0
  {
    if a == 0 || b == 0 {
      DivUnique(0, Pow2(n), 0, 0);
    } else if n > 0 {
      var p := Pow2(n - 1);
      OrMultiple(a / 2, b / 2, n - 1);
      ModDouble(a, p);
      ModDouble(b, p);
      ModDouble(Or(a, b), p);
      assert Or(a, b) / 2 == Or(a / 2, b / 2);
    }
  }

  // ----- masks

  /** `x & (2^n - 1)` keeps the low digits. */
  lemma {:induction false} AndLowMask(x: nat, n: nat)
    ensures And(x, Pow2(n) - 1) == x % Pow2(n)
  {
    if n > 0 {
      var p := Pow2(n - 1);
      var m := Pow2(n) - 1;
      assert m == 2 * p - 1 && m / 2 == p - 1 && m % 2 == 1;
      AndLowMask(x / 2, n - 1);
      ModDouble(x, p);
    }
  }

  lemma ModDouble(x: nat, p: nat)
    requires p > 0
    ensures x % (2 * p) == x % 2 + 2 * ((x / 2) % p)
  {
    var q := (x / 2) / p;
    var r := (x / 2) % p;
    assert x / 2 == p * q + r;
    assert x == q * (2 * p) + (x % 2 + 2 * r);
    DivUnique(x, 2 * p, q, x % 2 + 2 * r);
  }

  /** `x & !(2^n - 1)` within `m` digits clears the low digits. */
  lemma {:induction false} AndHighMask(x: nat, n: nat, m: nat)
    requires n <= m && x < Pow2(m)
    ensures Pow2(n) <= Pow2(m)
    ensures And(x, Pow2(m) - Pow2(n)) == x - x % Pow2(n)
  {
    hide And, Pow2;
    Pow2Monotone(n, m);
    if n == 0 {
      FullMask(x, m);
    } else {
      Pow2Halves(n);
      Pow2Halves(m);
      AndHighMask(x / 2, n - 1, m - 1);
      HighMaskStep(x, Pow2(n - 1), Pow2(m - 1), Pow2(n), Pow2(m));
    }
  }

  lemma FullMask(x: nat, m: nat)
    requires x < Pow2(m)
    ensures And(x, Pow2(m) - Pow2(0)) == x - x % Pow2(0)
  {
    hide And;
    AndLowMask(x, m);
    DivUnique(x, Pow2(m), 0, x);
  }

  lemma Pow2Halves(n: nat)
    requires n > 0
    ensures Pow2(n) == 2 * Pow2(n - 1)
  {
  }

  lemma HighMaskStep(x: nat, p: nat, q: nat, p': nat, q': nat)
    requires 0 < p <= q && p' == 2 * p && q' == 2 * q && And(x / 2, q - p) == x / 2 - x / 2 % p
    ensures And(x, q' - p') == x - x % p'
  {
    hide And;
    AndEven(x, q - p);
    ModDouble(x, p);
  }

  lemma AndEven(x: nat, h: nat)
    ensures And(x, 2 * h) == 2 * And(x / 2, h)
  {
  }

  /** `x & !(2^n - 1)` on a 64-bit word rounds down to a multiple of `2^n`. */
  lemma RoundDownMask(x: nat, n: nat)
    requires x < WORD && n <= 64
    ensures Pow2(n) <= WORD
    ensures And(x, Not(Pow2(n) - 1)) == x - x % Pow2(n)
  {
    WordIsPow2();
    AndHighMask(x, n, 64);
  }

  // ----- the flip of one digit

  /** `x ^ (1 << n)` adds `2^n` when digit `n` is clear and subtracts it when it is set. */
  lemma {:induction false} XorPow2(x: nat, n: nat)
    ensures Bit(x, n) ==> x >= Pow2(n)
    ensures Xor(x, Pow2(n)) == if Bit(x, n) then x - Pow2(n) else x + Pow2(n)
  {
    if x == 0 {
      BitOfZero(n);
    } else if n == 0 {
      XorZero(x / 2);
    } else {
      XorPow2(x / 2, n - 1);
      XorEven(x, Pow2(n - 1));
      hide Xor;
    }
  }

  lemma XorEven(x: nat, p: nat)
    requires x > 0 && p > 0
    ensures Xor(x, 2 * p) == x % 2 + 2 * Xor(x / 2, p)
  {
  }

  lemma XorZero(x: nat)
    ensures Xor(x, 0) == x
  {
  }

  // ----- lowest and highest set digit

  /** `x & (!x + 1)` isolates the lowest set digit. */
  lemma {:induction false} LowbitDigits(x: nat, n: nat)
    requires 0 < x < Pow2(n)
    ensures And(x, Pow2(n) - x) == Pow2(TrailingZeros(x))
  {
    var y := Pow2(n) - x;
    assert Pow2(n) == 2 * Pow2(n - 1);
    if x % 2 == 1 {
      assert y % 2 == 1;
      assert y / 2 == Pow2(n - 1) - 1 - x / 2;
      AndComplement(x / 2, n - 1);
    } else {
      assert y / 2 == Pow2(n - 1) - x / 2;
      LowbitDigits(x / 2, n - 1);
    }
  }

  lemma {:induction false} AndComplement(x: nat, n: nat)
    requires x < Pow2(n)
    ensures And(x, Pow2(n) - 1 - x) == 0
  {
    if n > 0 {
      var y := Pow2(n) - 1 - x;
      assert Pow2(n) == 2 * Pow2(n - 1);
      assert y / 2 == Pow2(n - 1) - 1 - x / 2;
      AndComplement(x / 2, n - 1);
    }
  }

  lemma Lowbit(x: nat)
    requires 0 < x < WORD
    ensures And(x, Not(x) + 1) == Pow2(TrailingZeros(x))
  {
    WordIsPow2();
    LowbitDigits(x, 64);
  }

  /** `2^TrailingZeros(x)` is the largest power of two dividing `x`. */
  lemma {:induction false} TrailingZerosDivides(x: nat, n: nat)
    requires x > 0
    ensures x % Pow2(n) == 0 <==> n <= TrailingZeros(x)
  {
    if n > 0 {
      var p := Pow2(n - 1);
      ModDouble(x, p);
      if x % 2 == 0 {
        TrailingZerosDivides(x / 2, n - 1);
      }
    }
  }

  lemma {:induction false} TrailingZerosOfPow2(n: nat)
    ensures TrailingZeros(Pow2(n)) == n
  {
    if n > 0 {
      TrailingZerosOfPow2(n - 1);
    }
  }

  lemma {:induction false} HighestBitBounds(x: nat)
    requires x > 0
    ensures Pow2(HighestBit(x)) <= x < 2 * Pow2(HighestBit(x))
  {
    if x > 1 {
      HighestBitBounds(x / 2);
    }
  }

  lemma {:induction false} CeilLog2Bounds(x: nat)
    requires x > 0
    ensures x <= Pow2(CeilLog2(x))
    ensures forall n: nat :: x <= Pow2(n) ==> CeilLog2(x) <= n
  {
    if x > 1 {
      CeilLog2Bounds((x + 1) / 2);
      forall n: nat | x <= Pow2(n)
        ensures CeilLog2(x) <= n
      {
        assert (x + 1) / 2 <= Pow2(n - 1);
      }
    }
  }
}
