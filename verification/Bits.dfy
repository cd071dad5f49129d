/**
  Machine words as natural numbers: the bit view of `|`, `&`, `~`, `<<`, `>>` and truncation.
  The operators are defined one bit at a time; the lemmas at the end give their arithmetic meaning.
 */
module Bits {

  type Byte = x: nat | x < 0x100
  type Word32 = x: nat | x < 0x1_0000_0000
  type Word64 = x: nat | x < 0x1_0000_0000_0000_0000

  function Pow2(n: nat): (p: nat)
    ensures p > 0
  {
    if n == 0 then 1 else 2 * Pow2(n - 1)
  }

  /** Bit `i` of `x`, counted from the least significant one. */
  predicate Bit(x: nat, i: nat)
    decreases x
  {
    x != 0 && if i == 0 then x % 2 == 1 else Bit(x / 2, i - 1)
  }

  /** `x` has no bit at place `n` or above. */
  predicate Fits(x: nat, n: nat)
    decreases x
  {
    x == 0 || (n > 0 && Fits(x / 2, n - 1))
  }

  /** `x | y` */
  function Or(x: nat, y: nat): nat {
    if x == 0 then y
    else if y == 0 then x
    else (if x % 2 == 1 || y % 2 == 1 then 1 else 0) + 2 * Or(x / 2, y / 2)
  }

  /** `x & y` */
  function And(x: nat, y: nat): nat {
    if x == 0 || y == 0 then 0
    else (if x % 2 == 1 && y % 2 == 1 then 1 else 0) + 2 * And(x / 2, y / 2)
  }

  /** `x` truncated to its lowest `n` bits. */
  function Low(x: nat, n: nat): nat
    decreases x
  {
    if x == 0 || n == 0 then 0 else x % 2 + 2 * Low(x / 2, n - 1)
  }

  /** `x >> k` */
  function Shr(x: nat, k: nat): nat
    decreases x
  {
    if x == 0 || k == 0 then x else Shr(x / 2, k - 1)
  }

  /** `x << k` without a word boundary. */
  function Up(x: nat, k: nat): nat {
    if k == 0 then x else 2 * Up(x, k - 1)
  }

  /** `x << k` on words of `width` bits: what leaves the word is lost. */
  function Shl(width: nat, x: nat, k: nat): nat {
    Low(Up(x, k), width)
  }

  // ---------------------------------------------------------------- bits of the results

  lemma ZeroWord(n: nat, i: nat)
    ensures Fits(0, n) && !Bit(0, i)
  {
  }

  lemma {:induction false} OrBit(x: nat, y: nat, i: nat)
    ensures Bit(Or(x, y), i) <==> Bit(x, i) || Bit(y, i)
    decreases i
  {
    if i > 0 && x != 0 && y != 0 {
      assert Or(x, y) / 2 == Or(x / 2, y / 2);
      OrBit(x / 2, y / 2, i - 1);
    }
  }

  lemma {:induction false} AndBit(x: nat, y: nat, i: nat)
    ensures Bit(And(x, y), i) <==> Bit(x, i) && Bit(y, i)
    decreases i
  {
    if i > 0 && x != 0 && y != 0 {
      assert And(x, y) / 2 == And(x / 2, y / 2);
      AndBit(x / 2, y / 2, i - 1);
    }
  }

  lemma {:induction false} AndCommutes(x: nat, y: nat)
    ensures And(x, y) == And(y, x)
    decreases x
  {
    if x != 0 && y != 0 { AndCommutes(x / 2, y / 2); }
  }

  lemma {:induction false} LowBit(x: nat, n: nat, i: nat)
    ensures Bit(Low(x, n), i) <==> i < n && Bit(x, i)
    decreases i
  {
    if x != 0 && n != 0 {
      var rest := Low(x / 2, n - 1);
      assert Low(x, n) == x % 2 + 2 * rest;
      if i > 0 { LowBit(x / 2, n - 1, i - 1); }
    }
  }

  lemma {:induction false} ShrBit(x: nat, k: nat, i: nat)
    ensures Bit(Shr(x, k), i) <==> Bit(x, i + k)
    decreases k
  {
    if x != 0 && k != 0 { ShrBit(x / 2, k - 1, i); }
  }

  lemma {:induction false} UpBit(x: nat, k: nat, i: nat)
    ensures Bit(Up(x, k), i) <==> k <= i && Bit(x, i - k)
    decreases k
  {
    if k > 0 && i > 0 {
      assert Up(x, k) / 2 == Up(x, k - 1);
      UpBit(x, k - 1, i - 1);
    }
  }

  lemma ShlBit(width: nat, x: nat, k: nat, i: nat)
    ensures Bit(Shl(width, x, k), i) <==> k <= i < width && Bit(x, i - k)
  {
    LowBit(Up(x, k), width, i);
    UpBit(x, k, i);
  }

  lemma {:induction false} Pow2Bit(b: nat, i: nat)
    ensures Bit(Pow2(b), i) <==> i == b
    decreases b
  {
    if b > 0 && i > 0 { Pow2Bit(b - 1, i - 1); }
  }

  /** The word of `n` ones. */
  lemma {:induction false} OnesBit(n: nat, i: nat)
    ensures Bit(Pow2(n) - 1, i) <==> i < n
    decreases n
  {
    if n > 0 && i > 0 { OnesBit(n - 1, i - 1); }
  }

  /** `~x` on words of `n` bits. */
  lemma {:induction false} NotBit(n: nat, x: nat, i: nat)
    requires Fits(x, n)
    ensures x < Pow2(n) && (Bit(Pow2(n) - 1 - x, i) <==> i < n && !Bit(x, i))
    decreases n
  {
    FitsIsBelow(x, n);
    if n > 0 && x != 0 {
      assert (Pow2(n) - 1 - x) / 2 == Pow2(n - 1) - 1 - x / 2;
      if i > 0 { NotBit(n - 1, x / 2, i - 1); }
    } else if x == 0 {
      OnesBit(n, i);
    }
  }

  // ---------------------------------------------------------------- words of a given width

  lemma {:induction false} FitsBit(x: nat, n: nat, i: nat)
    requires Fits(x, n) && n <= i
    ensures !Bit(x, i)
    decreases n
  {
    if x != 0 { FitsBit(x / 2, n - 1, i - 1); }
  }

  /** Words with the same bits are equal. */
  lemma {:induction false} SameBits(x: nat, y: nat, n: nat)
    requires Fits(x, n) && Fits(y, n)
    requires forall i: nat :: i < n ==> (Bit(x, i) <==> Bit(y, i))
    ensures x == y
    decreases n
  {
    if n > 0 {
      assert Bit(x, 0) <==> Bit(y, 0);
      forall i: nat | i < n - 1 ensures Bit(x / 2, i) <==> Bit(y / 2, i) {
        assert Bit(x, i + 1) <==> Bit(y, i + 1);
      }
      SameBits(x / 2, y / 2, n - 1);
    }
  }

  lemma {:induction false} FitsOr(x: nat, y: nat, n: nat)
    requires Fits(x, n) && Fits(y, n)
    ensures Fits(Or(x, y), n)
    decreases n
  {
    if n > 0 && x != 0 && y != 0 {
      assert Or(x, y) / 2 == Or(x / 2, y / 2);
      FitsOr(x / 2, y / 2, n - 1);
    }
  }

  lemma {:induction false} FitsAnd(x: nat, y: nat, n: nat)
    requires Fits(x, n)
    ensures Fits(And(x, y), n)
    decreases n
  {
    if n > 0 && x != 0 && y != 0 {
      assert And(x, y) / 2 == And(x / 2, y / 2);
      FitsAnd(x / 2, y / 2, n - 1);
    }
  }

  lemma {:induction false} FitsLow(x: nat, n: nat)
    ensures Fits(Low(x, n), n)
    decreases n
  {
    if n > 0 && x != 0 {
      assert Low(x, n) / 2 == Low(x / 2, n - 1);
      FitsLow(x / 2, n - 1);
    }
  }

  lemma {:induction false} FitsMore(x: nat, n: nat, m: nat)
    requires Fits(x, n) && n <= m
    ensures Fits(x, m)
    decreases n
  {
    if x != 0 { FitsMore(x / 2, n - 1, m - 1); }
  }

  lemma {:induction false} FitsShr(x: nat, k: nat, n: nat)
    requires Fits(x, n)
    ensures Fits(Shr(x, k), if k <= n then n - k else 0)
    decreases n
  {
    if x != 0 && k != 0 { FitsShr(x / 2, k - 1, n - 1); }
  }

  lemma {:induction false} FitsUp(x: nat, k: nat, n: nat)
    requires Fits(x, n)
    ensures Fits(Up(x, k), n + k)
    decreases k
  {
    if k > 0 {
      FitsUp(x, k - 1, n);
      assert Up(x, k) / 2 == Up(x, k - 1);
    }
  }

  lemma {:induction false} LowIsWhole(x: nat, n: nat)
    requires Fits(x, n)
    ensures Low(x, n) == x
    decreases n
  {
    if x != 0 { LowIsWhole(x / 2, n - 1); }
  }

  // ---------------------------------------------------------------- arithmetic meaning

  lemma {:induction false} FitsIsBelow(x: nat, n: nat)
    ensures Fits(x, n) <==> x < Pow2(n)
    decreases n
  {
    if n > 0 { FitsIsBelow(x / 2, n - 1); }
  }

  lemma {:induction false} UpIsTimes(x: nat, k: nat)
    ensures Up(x, k) == x * Pow2(k)
    decreases k
  {
    if k > 0 {
      UpIsTimes(x, k - 1);
      Associate(x, 2, Pow2(k - 1));
      Associate(2, x, Pow2(k - 1));
    }
  }

  lemma {:induction false} ShrLowSum(x: nat, n: nat)
    ensures x == Up(Shr(x, n), n) + Low(x, n)
    decreases n
  {
    if x == 0 || n == 0 {
      UpIsTimes(x, n);
    } else {
      ShrLowSum(x / 2, n - 1);
    }
  }

  /** Splitting a word: `Shr` and `Low` are quotient and remainder. */
  lemma SplitAt(x: nat, n: nat)
    ensures x == Shr(x, n) * Pow2(n) + Low(x, n) && Low(x, n) < Pow2(n)
    ensures Shr(x, n) == x / Pow2(n) && Low(x, n) == x % Pow2(n)
  {
    hide Pow2, Shr, Low, Up, Fits;
    ShrLowSum(x, n);
    UpIsTimes(Shr(x, n), n);
    FitsLow(x, n);
    FitsIsBelow(Low(x, n), n);
    DivUnique(x, Pow2(n), Shr(x, n), Low(x, n));
  }

  /** `|` of a word with one shifted clear of it is addition. */
  lemma {:induction false} OrIsPlus(low: nat, high: nat, k: nat)
    requires Fits(low, k)
    ensures Or(low, Up(high, k)) == low + Up(high, k) == Or(Up(high, k), low)
    decreases k
  {
    if k > 0 && low != 0 {
      assert Up(high, k) / 2 == Up(high, k - 1);
      OrIsPlus(low / 2, high, k - 1);
    }
  }

  lemma {:induction false} Pow2Monotone(a: nat, b: nat)
    requires a <= b
    ensures Pow2(a) <= Pow2(b)
    decreases b
  {
    if a < b { Pow2Monotone(a, b - 1); }
  }

  lemma Pow2NextByte(n: nat)
    ensures Pow2(n + 8) == 0x100 * Pow2(n)
  {
    assert Pow2(n + 2) == 4 * Pow2(n);
    assert Pow2(n + 4) == 4 * Pow2(n + 2);
    assert Pow2(n + 6) == 4 * Pow2(n + 4);
  }

  lemma Pow2NextSeven(n: nat)
    ensures Pow2(n + 7) == 0x80 * Pow2(n)
  {
    assert Pow2(n + 2) == 4 * Pow2(n);
    assert Pow2(n + 4) == 4 * Pow2(n + 2);
    assert Pow2(n + 6) == 4 * Pow2(n + 4);
  }

  lemma Pow2Values()
    ensures Pow2(7) == 0x80 && Pow2(8) == 0x100 && Pow2(16) == 0x1_0000
    ensures Pow2(32) == 0x1_0000_0000 && Pow2(64) == 0x1_0000_0000_0000_0000
  {
    Pow2NextByte(0);
    Pow2NextByte(8);
    Pow2NextByte(16);
    Pow2NextByte(24);
    Pow2NextByte(32);
    Pow2NextByte(40);
    Pow2NextByte(48);
    Pow2NextByte(56);
  }

  lemma Word64Fits(x: nat)
    ensures Fits(x, 64) <==> x < 0x1_0000_0000_0000_0000
  {
    Pow2Values();
    FitsIsBelow(x, 64);
  }

  lemma Word32Fits(x: nat)
    ensures Fits(x, 32) <==> x < 0x1_0000_0000
  {
    Pow2Values();
    FitsIsBelow(x, 32);
  }

  /** Masking with `n` ones keeps the low `n` bits. */
  lemma LowOnes(x: nat, n: nat)
    ensures And(x, Pow2(n) - 1) == Low(x, n)
  {
    hide Bit, Fits, Or, And, Low, Shr, Up;
    FitsIsBelow(Pow2(n) - 1, n);
    FitsAnd(Pow2(n) - 1, x, n);
    AndCommutes(x, Pow2(n) - 1);
    FitsLow(x, n);
    forall i: nat | i < n ensures Bit(And(x, Pow2(n) - 1), i) <==> Bit(Low(x, n), i) {
      AndBit(x, Pow2(n) - 1, i);
      OnesBit(n, i);
      LowBit(x, n, i);
    }
    SameBits(And(x, Pow2(n) - 1), Low(x, n), n);
  }

  // ---------------------------------------------------------------- products

  lemma Distribute(a: int, b: int, c: int)
    ensures a * (b + c) == a * b + a * c
  {
  }

  lemma Associate(a: int, b: int, c: int)
    ensures a * (b * c) == (a * b) * c
  {
  }

  lemma MulMonotone(d: nat, a: int, b: int)
    requires a <= b
    ensures d * a <= d * b
  {
    assert d * b - d * a == d * (b - a);
  }

  /** Quotient and remainder are the only pair that fits. */
  lemma DivUnique(x: nat, d: nat, q: nat, r: nat)
    requires r < d && x == d * q + r
    ensures x / d == q && x % d == r
  {
    var q', r' := x / d, x % d;
    assert x == d * q' + r';
    Distribute(d, q', 1);
    Distribute(d, q, 1);
    if q > q' {
      MulMonotone(d, q' + 1, q);
    } else if q < q' {
      MulMonotone(d, q + 1, q');
    }
  }
}
