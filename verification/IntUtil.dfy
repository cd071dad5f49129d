/** 128-bit products and quotients, rotation and byte swapping on 32 and 64-bit words (int-util.h). */
module IntUtil {
  import opened Bits

  /** The value of a 128-bit number given as two words. */
  function Wide(hi: Word64, lo: Word64): nat {
    hi * 0x1_0000_0000_0000_0000 + lo
  }

  // ---------------------------------------------------------------- multiplication

  function HiDword(val: Word64): (r: Word32)
    ensures r == val / 0x1_0000_0000
  {
    Pow2Values();
    SplitAt(val, 32);
    Shr(val, 32)
  }

  function LoDword(val: Word64): (r: Word32)
    ensures r == val % 0x1_0000_0000
  {
    Pow2Values();
    LowOnes(val, 32);
    SplitAt(val, 32);
    And(val, 0xFFFF_FFFF)
  }

  lemma ShiftUp32(x: nat)
    ensures Shl(64, x, 32) == x * 0x1_0000_0000 % 0x1_0000_0000_0000_0000
  {
    hide Bit, Fits, Or, And, Low, Shr, Up, Pow2;
    Pow2Values();
    UpIsTimes(x, 32);
    SplitAt(Up(x, 32), 64);
  }

  /** The intermediate values of `mul128`, each truncated to 64 bits as the source truncates it. */
  datatype MulSteps = MulSteps(ac: Word64, bd: Word64, adbc: Word64, adbcCarry: Word64, lo: Word64, loCarry: Word64)
  {
    /** What is stored to `product_hi`, before truncation. */
    function HighSum(): nat {
      ac + HiDword(adbc) + Shl(64, adbcCarry, 32) + loCarry
    }
  }

  function Wrap64(x: nat): Word64 {
    x % 0x1_0000_0000_0000_0000
  }

  lemma BoundedProduct(x: nat, y: nat, m: nat)
    requires x <= m && y <= m
    ensures 0 <= x * y <= m * m
  {
    MulMonotone(x, y, m);
    MulMonotone(m, x, m);
    MulMonotone(x, 0, y);
  }

  function HalfProduct(x: Word32, y: Word32): (p: Word64)
    ensures p <= 0xFFFF_FFFE_0000_0001
  {
    BoundedProduct(x, y, 0xFFFF_FFFF);
    Wrap64(x * y)
  }

  lemma HalfProductIsExact(x: Word32, y: Word32)
    ensures HalfProduct(x, y) == x * y
  {
    BoundedProduct(x, y, 0xFFFF_FFFF);
  }

  /** `mul128` after its four half-word products. */
  function StepsFrom(ac: Word64, ad: Word64, bc: Word64, bd: Word64): MulSteps {
    var adbc := Wrap64(ad + bc);
    var lo := Wrap64(bd + Shl(64, adbc, 32));
    MulSteps(ac, bd, adbc, if adbc < ad then 1 else 0, lo, if lo < bd then 1 else 0)
  }

  function Mul128Steps(multiplier: Word64, multiplicand: Word64): MulSteps {
    var a, b := HiDword(multiplier), LoDword(multiplier);
    var c, d := HiDword(multiplicand), LoDword(multiplicand);
    StepsFrom(HalfProduct(a, c), HalfProduct(a, d), HalfProduct(b, c), HalfProduct(b, d))
  }

  datatype Product = Product(hi: Word64, lo: Word64)

  function Mul128(multiplier: Word64, multiplicand: Word64): Product {
    var s := Mul128Steps(multiplier, multiplicand);
    Product(Wrap64(s.HighSum()), s.lo)
  }

  lemma SchoolbookProduct(a: nat, b: nat, c: nat, d: nat)
    ensures (a * 0x1_0000_0000 + b) * (c * 0x1_0000_0000 + d)
         == a * c * 0x1_0000_0000_0000_0000 + (a * d + b * c) * 0x1_0000_0000 + b * d
  {
    Distribute(a * 0x1_0000_0000 + b, c * 0x1_0000_0000, d);
    Associate(a * 0x1_0000_0000 + b, c, 0x1_0000_0000);
    Distribute(c, a * 0x1_0000_0000, b);
    Associate(c, a, 0x1_0000_0000);
    Distribute(d, a * 0x1_0000_0000, b);
    Associate(d, a, 0x1_0000_0000);
  }

  /** A 64-bit sum and the carry that comparing it with a summand tells. */
  lemma SumAndCarry(x: nat, y: nat, sum: nat, carry: nat)
    requires x < 0x1_0000_0000_0000_0000 && y < 0x1_0000_0000_0000_0000
    requires sum == (x + y) % 0x1_0000_0000_0000_0000 && carry == (if sum < x then 1 else 0)
    ensures sum + carry * 0x1_0000_0000_0000_0000 == x + y
  {
  }

  lemma ShiftedOut(x: nat, shifted: nat)
    requires x < 0x1_0000_0000_0000_0000 && shifted == x * 0x1_0000_0000 % 0x1_0000_0000_0000_0000
    ensures x / 0x1_0000_0000 * 0x1_0000_0000_0000_0000 + shifted == x * 0x1_0000_0000
  {
    var (q, r) := (x / 0x1_0000_0000, x % 0x1_0000_0000);
    assert x == 0x1_0000_0000 * q + r;
    DivUnique(x * 0x1_0000_0000, 0x1_0000_0000_0000_0000, q, r * 0x1_0000_0000);
  }

  lemma JoinCarries(ad: nat, bc: nat, bd: nat, adbc: nat, adbcCarry: nat, high: nat, shifted: nat,
                    lo: nat, loCarry: nat)
    requires adbc + adbcCarry * 0x1_0000_0000_0000_0000 == ad + bc
    requires lo + loCarry * 0x1_0000_0000_0000_0000 == bd + shifted
    requires high * 0x1_0000_0000_0000_0000 + shifted == adbc * 0x1_0000_0000
    ensures (high + adbcCarry * 0x1_0000_0000 + loCarry) * 0x1_0000_0000_0000_0000 + lo
         == (ad + bc) * 0x1_0000_0000 + bd
  {
  }

  /** The middle sum and the low word may wrap; their carries are worth exactly what was lost. */
  lemma CarriesAreExact(ad: nat, bc: nat, bd: nat, adbc: nat, adbcCarry: nat, shifted: nat, lo: nat, loCarry: nat)
    requires ad <= 0xFFFF_FFFE_0000_0001 && bc <= 0xFFFF_FFFE_0000_0001 && bd <= 0xFFFF_FFFE_0000_0001
    requires adbc == (ad + bc) % 0x1_0000_0000_0000_0000 && adbcCarry == (if adbc < ad then 1 else 0)
    requires shifted == adbc * 0x1_0000_0000 % 0x1_0000_0000_0000_0000
    requires lo == (bd + shifted) % 0x1_0000_0000_0000_0000 && loCarry == (if lo < bd then 1 else 0)
    ensures (adbc / 0x1_0000_0000 + adbcCarry * 0x1_0000_0000 + loCarry) * 0x1_0000_0000_0000_0000 + lo
         == (ad + bc) * 0x1_0000_0000 + bd
  {
    SumAndCarry(ad, bc, adbc, adbcCarry);
    SumAndCarry(bd, shifted, lo, loCarry);
    ShiftedOut(adbc, shifted);
    JoinCarries(ad, bc, bd, adbc, adbcCarry, adbc / 0x1_0000_0000, shifted, lo, loCarry);
  }

  lemma HighSumValue(s: MulSteps)
    requires s.adbcCarry <= 1
    ensures s.HighSum() == s.ac + (s.adbc / 0x1_0000_0000 + s.adbcCarry * 0x1_0000_0000 + s.loCarry)
  {
    hide Bit, Fits, Or, And, Low, Shr, Up, Pow2;
    ShiftUp32(s.adbcCarry);
  }

  /** The carries make the two words the exact sum of the four products. */
  lemma StepsAreExact(ac: Word64, ad: Word64, bc: Word64, bd: Word64)
    requires ad <= 0xFFFF_FFFE_0000_0001 && bc <= 0xFFFF_FFFE_0000_0001 && bd <= 0xFFFF_FFFE_0000_0001
    ensures var s := StepsFrom(ac, ad, bc, bd);
            && s.HighSum() >= s.ac == ac
            && (s.HighSum() - ac) * 0x1_0000_0000_0000_0000 + s.lo == (ad + bc) * 0x1_0000_0000 + bd
  {
    hide Bit, Fits, Or, And, Low, Shr, Up, Pow2;
    var s := StepsFrom(ac, ad, bc, bd);
    ShiftUp32(s.adbc);
    CarriesAreExact(ad, bc, bd, s.adbc, s.adbcCarry, Shl(64, s.adbc, 32), s.lo, s.loCarry);
    HighSumValue(s);
  }

  /** The full product in terms of the four products of halves. */
  lemma ProductOfHalves(multiplier: Word64, multiplicand: Word64, a: Word32, b: Word32, c: Word32, d: Word32)
    requires multiplier == a * 0x1_0000_0000 + b && multiplicand == c * 0x1_0000_0000 + d
    ensures 0 <= multiplier * multiplicand <= 0xFFFF_FFFF_FFFF_FFFE_0000_0000_0000_0001
    ensures multiplier * multiplicand
         == HalfProduct(a, c) * 0x1_0000_0000_0000_0000
            + (HalfProduct(a, d) + HalfProduct(b, c)) * 0x1_0000_0000 + HalfProduct(b, d)
  {
    hide HalfProduct;
    HalfProductIsExact(a, c);
    HalfProductIsExact(a, d);
    HalfProductIsExact(b, c);
    HalfProductIsExact(b, d);
    SchoolbookProduct(a, b, c, d);
    BoundedProduct(multiplier, multiplicand, 0xFFFF_FFFF_FFFF_FFFF);
  }

  /**
    The product is exact for all inputs, the sum stored to `product_hi` never leaves 64 bits,
    and the assertion after it (`ac <= *product_hi`) holds.
   */
  lemma Mul128Exact(multiplier: Word64, multiplicand: Word64)
    ensures var p := Mul128(multiplier, multiplicand); Wide(p.hi, p.lo) == multiplier * multiplicand
    ensures Mul128Steps(multiplier, multiplicand).HighSum() < 0x1_0000_0000_0000_0000
    ensures Mul128Steps(multiplier, multiplicand).ac <= Mul128(multiplier, multiplicand).hi
  {
    hide HiDword, LoDword, HalfProduct, StepsFrom, MulSteps.HighSum;
    var a, b := HiDword(multiplier), LoDword(multiplier);
    var c, d := HiDword(multiplicand), LoDword(multiplicand);
    var (ac, ad, bc, bd) := (HalfProduct(a, c), HalfProduct(a, d), HalfProduct(b, c), HalfProduct(b, d));
    var s := Mul128Steps(multiplier, multiplicand);
    StepsAreExact(ac, ad, bc, bd);
    ProductOfHalves(multiplier, multiplicand, a, b, c, d);
    var middle: nat, product: nat := ad as nat + bc as nat, multiplier as nat * multiplicand as nat;
    ExactFromSteps(product, ac, middle, bd, s.HighSum(), s.lo);
  }

  lemma ExactFromSteps(product: nat, ac: nat, adbc: nat, bd: nat, high: nat, lo: nat)
    requires product == ac * 0x1_0000_0000_0000_0000 + adbc * 0x1_0000_0000 + bd
    requires product <= 0xFFFF_FFFF_FFFF_FFFE_0000_0000_0000_0001
    requires high >= ac && (high - ac) * 0x1_0000_0000_0000_0000 + lo == adbc * 0x1_0000_0000 + bd
    ensures high * 0x1_0000_0000_0000_0000 + lo == product
    ensures high < 0x1_0000_0000_0000_0000 && high % 0x1_0000_0000_0000_0000 == high
  {
  }

  /** The wrap-around that the carries repair does occur, in both places. */
  lemma MiddleAndLowSumsWrap()
    ensures Mul128Steps(0xFFFF_FFFF_FFFF_FFFF, 0xFFFF_FFFF_FFFF_FFFF).adbcCarry == 1
    ensures Mul128Steps(0x1_FFFF_FFFF, 0x1_FFFF_FFFF).loCarry == 1
  {
    hide HiDword, LoDword, Shl;
    assert HiDword(0xFFFF_FFFF_FFFF_FFFF) == 0xFFFF_FFFF == LoDword(0xFFFF_FFFF_FFFF_FFFF);
    assert HiDword(0x1_FFFF_FFFF) == 1 && LoDword(0x1_FFFF_FFFF) == 0xFFFF_FFFF;
    ShiftUp32(0x1_FFFF_FFFE);
  }

  // ---------------------------------------------------------------- division

  /** Two 32-bit digits side by side; the digits are disjoint, so `|` adds them. */
  lemma TwoDigits(high: nat, low: nat)
    requires high < 0x1_0000_0000 && low < 0x1_0000_0000
    ensures Or(Shl(64, high, 32), low) == high * 0x1_0000_0000 + low == Or(low, Shl(64, high, 32))
  {
    hide Bit, Fits, Or, And, Low, Shr, Up, Pow2;
    Pow2Values();
    FitsIsBelow(low, 32);
    UpIsTimes(high, 32);
    OrIsPlus(low, high, 32);
    ShiftUp32(high);
  }

  lemma QuotientBelow(total: nat, divisor: nat, q: nat, bound: nat)
    requires divisor > 0 && q * divisor <= total < bound * divisor
    ensures q < bound
  {
    if q >= bound { MulMonotone(divisor, bound, q); }
  }

  lemma QuotientAtMost(total: nat, divisor: nat)
    requires divisor > 0
    ensures 0 <= total / divisor <= total
  {
    var q := total / divisor;
    assert total == divisor * q + total % divisor;
    if q < 0 { MulMonotone(divisor, q, -1); } else { MulMonotone(q, 1, divisor); }
  }

  lemma WordDivision(total: nat, divisor: nat)
    requires divisor > 0
    ensures 0 <= total / divisor <= total && 0 <= total % divisor < divisor
    ensures total == total / divisor * divisor + total % divisor
  {
    QuotientAtMost(total, divisor);
  }

  /** The dividend with the old remainder above it is one word, and, if the dividend is one digit, their sum. */
  lemma DigitBelowRemainder(dividend: Word64, remainder: Word32) returns (total: Word64)
    ensures total == Or(dividend, Shl(64, remainder, 32))
    ensures dividend < 0x1_0000_0000 ==> total == remainder * 0x1_0000_0000 + dividend
  {
    hide Bit, Fits, Or, And, Low, Shr, Up, Pow2;
    ShiftUp32(remainder);
    Word64Fits(dividend);
    Word64Fits(Shl(64, remainder, 32));
    FitsOr(dividend, Shl(64, remainder, 32), 64);
    Word64Fits(Or(dividend, Shl(64, remainder, 32)));
    if dividend < 0x1_0000_0000 { TwoDigits(remainder, dividend); }
    total := Or(dividend, Shl(64, remainder, 32));
  }

  /** One digit of long division in base 2^32; `remainder` is updated through a pointer in the source. */
  method DivWithReminder(dividend: Word64, divisor: Word32, remainder: Word32)
    returns (quotient: Word64, remainder': Word32)
    requires divisor != 0
    ensures Or(dividend, Shl(64, remainder, 32)) == quotient * divisor + remainder'
    ensures remainder' < divisor
    ensures dividend < 0x1_0000_0000 ==> remainder * 0x1_0000_0000 + dividend == quotient * divisor + remainder'
    ensures dividend < 0x1_0000_0000 && remainder < divisor ==> quotient < 0x1_0000_0000
  {
    hide Or, Shl;
    ghost var whole := DigitBelowRemainder(dividend, remainder);
    var total: Word64 := Or(dividend, Shl(64, remainder, 32));
    WordDivision(total, divisor);
    remainder' := total % divisor;
    quotient := total / divisor;
    if dividend < 0x1_0000_0000 && remainder < divisor {
      QuotientBelow(total, divisor, quotient, 0x1_0000_0000);
    }
  }

  lemma LongDivision(d3: nat, d2: nat, d1: nat, d0: nat, divisor: nat,
                     q3: nat, q2: nat, q1: nat, q0: nat, r3: nat, r2: nat, r1: nat, r0: nat)
    requires r0 < divisor
    requires d3 == q3 * divisor + r3
    requires r3 * 0x1_0000_0000 + d2 == q2 * divisor + r2
    requires r2 * 0x1_0000_0000 + d1 == q1 * divisor + r1
    requires r1 * 0x1_0000_0000 + d0 == q0 * divisor + r0
    ensures var n := (d3 * 0x1_0000_0000 + d2) * 0x1_0000_0000_0000_0000 + (d1 * 0x1_0000_0000 + d0);
            && n / divisor == (q3 * 0x1_0000_0000 + q2) * 0x1_0000_0000_0000_0000 + (q1 * 0x1_0000_0000 + q0)
            && n % divisor == r0
  {
    var n := (d3 * 0x1_0000_0000 + d2) * 0x1_0000_0000_0000_0000 + (d1 * 0x1_0000_0000 + d0);
    var (high, low) := ((q3 * 0x1_0000_0000 + q2) * 0x1_0000_0000_0000_0000, q1 * 0x1_0000_0000 + q0);
    Distribute(divisor, high, low);
    Distribute(divisor, q3 * 0x1_0000_0000_0000_0000_0000_0000, q2 * 0x1_0000_0000_0000_0000);
    Distribute(divisor, q1 * 0x1_0000_0000, q0);
    Associate(divisor, q3, 0x1_0000_0000_0000_0000_0000_0000);
    Associate(divisor, q2, 0x1_0000_0000_0000_0000);
    Associate(divisor, q1, 0x1_0000_0000);
    DivUnique(n, divisor, high + low, r0);
  }

  /** Schoolbook long division of a 128-bit value by a 32-bit one: the exact quotient and remainder. */
  method Div128By32(dividendHi: Word64, dividendLo: Word64, divisor: Word32)
    returns (remainder: Word32, quotientHi: Word64, quotientLo: Word64)
    requires divisor != 0
    ensures remainder == Wide(dividendHi, dividendLo) % divisor
    ensures Wide(quotientHi, quotientLo) == Wide(dividendHi, dividendLo) / divisor
  {
    hide Bit, Fits, Or, And, Low, Shr, Up, Pow2;
    var d3, d2 := HiDword(dividendHi), LoDword(dividendHi);
    var d1, d0 := HiDword(dividendLo), LoDword(dividendLo);
    var q3, r3 := DivWithReminder(d3, divisor, 0);
    var q2, r2 := DivWithReminder(d2, divisor, r3);
    TwoDigits(q3, q2);
    quotientHi := Or(Shl(64, q3, 32), q2);
    var q1, r1 := DivWithReminder(d1, divisor, r2);
    var q0, r0 := DivWithReminder(d0, divisor, r1);
    TwoDigits(q1, q0);
    quotientLo := Or(Shl(64, q1, 32), q0);
    remainder := r0;
    LongDivision(d3, d2, d1, d0, divisor, q3, q2, q1, q0, r3, r2, r1, r0);
  }

  /** Dividing a product by one of its factors gives the other back, with nothing left over. */
  method DivideProduct(x: Word64, y: Word32) returns (remainder: Word32, quotientHi: Word64, quotientLo: Word64)
    requires y != 0
    ensures remainder == 0 && quotientHi == 0 && quotientLo == x
  {
    hide Bit, Fits, Or, And, Low, Shr, Up, Pow2;
    var p := Mul128(x, y);
    Mul128Exact(x, y);
    remainder, quotientHi, quotientLo := Div128By32(p.hi, p.lo, y);
    DivUnique(x * y, y, x, 0);
  }

  // ---------------------------------------------------------------- rotation

  predicate WordSize(width: nat) {
    width == 32 || width == 64
  }

  /** `r & 31` or `r & 63`: on a two's complement `int` this is the Euclidean remainder. */
  function Count(width: nat, r: int): (k: nat)
    requires WordSize(width)
    ensures k < width
  {
    if width == 32 then r % 32 else r % 64
  }

  /** `(x << (r & mask)) | (x >> (-r & mask))` */
  function Rol(width: nat, x: nat, r: int): nat
    requires WordSize(width)
  {
    Or(Shl(width, x, Count(width, r)), Shr(x, Count(width, -r)))
  }

  lemma RolFits(width: nat, x: nat, r: int)
    requires WordSize(width) && Fits(x, width)
    ensures Fits(Rol(width, x, r), width)
  {
    hide Bit, Fits, Or, And, Low, Shr, Up, Pow2;
    var left, right := Count(width, r), Count(width, -r);
    FitsLow(Up(x, left), width);
    FitsShr(x, right, width);
    FitsMore(Shr(x, right), width - right, width);
    FitsOr(Shl(width, x, left), Shr(x, right), width);
  }

  lemma Mod32Is(turns: int, k: nat)
    requires k < 32
    ensures (32 * turns + k) % 32 == k
  {
  }

  lemma Mod64Is(turns: int, k: nat)
    requires k < 64
    ensures (64 * turns + k) % 64 == k
  {
  }

  /** A count is known once it is found among the representatives of `r`. */
  lemma CountIs(width: nat, r: int, turns: int, k: nat)
    requires WordSize(width) && k < width && r == (if width == 32 then 32 * turns else 64 * turns) + k
    ensures Count(width, r) == k
  {
    if width == 32 { Mod32Is(turns, k); } else { Mod64Is(turns, k); }
  }

  function Turns(width: nat, r: int): int
    requires WordSize(width)
  {
    if width == 32 then r / 32 else r / 64
  }

  /** Where bit `i` of a rotated word comes from. */
  lemma SourceOfBit(width: nat, r: int, i: nat)
    requires WordSize(width) && i < width
    ensures var left, right, from := Count(width, r), Count(width, -r), Count(width, i - r);
            if left == 0 then right == 0 && from == i
            else right == width - left && from == if i < left then i + right else i - left
  {
    hide Bit, Fits, Or, And, Low, Shr, Up, Pow2;
    var left, t := Count(width, r), Turns(width, r);
    if left == 0 {
      CountIs(width, -r, -t, 0);
      CountIs(width, i - r, -t, i);
    } else {
      CountIs(width, -r, -t - 1, width - left);
      if i < left {
        CountIs(width, i - r, -t - 1, i + width - left);
      } else {
        CountIs(width, i - r, -t, i - left);
      }
    }
  }

  /** Rotation moves bit `i - r` (counted around the word) to place `i`. */
  lemma RolBit(width: nat, x: nat, r: int, i: nat)
    requires WordSize(width) && Fits(x, width) && i < width
    ensures Bit(Rol(width, x, r), i) <==> Bit(x, Count(width, i - r))
    ensures Bit(Rol(width, x, r), i) <==> Bit(x, if width == 32 then (i - r) % 32 else (i - r) % 64)
  {
    hide Bit, Fits, Or, And, Low, Shr, Up, Pow2;
    var left, right := Count(width, r), Count(width, -r);
    SourceOfBit(width, r, i);
    OrBit(Shl(width, x, left), Shr(x, right), i);
    ShlBit(width, x, left, i);
    ShrBit(x, right, i);
    if left != 0 && left <= i { FitsBit(x, width, i + right); }
  }

  lemma CountTwice(width: nat, i: int, a: int, b: int)
    requires WordSize(width)
    ensures Count(width, Count(width, i - b) - a) == Count(width, i - (a + b))
  {
    var c := Count(width, i - b) - a;
    CountIs(width, i - (a + b), Turns(width, i - b) + Turns(width, c), Count(width, c));
  }

  /** Rotations add up, for every pair of shift counts. */
  lemma RolCompose(width: nat, x: nat, a: int, b: int)
    requires WordSize(width) && Fits(x, width)
    ensures Rol(width, Rol(width, x, a), b) == Rol(width, x, a + b)
  {
    hide Bit, Fits, Or, And, Low, Shr, Up, Pow2;
    var y := Rol(width, x, a);
    RolFits(width, x, a);
    RolFits(width, y, b);
    RolFits(width, x, a + b);
    forall i: nat | i < width ensures Bit(Rol(width, y, b), i) <==> Bit(Rol(width, x, a + b), i) {
      RolBit(width, y, b, i);
      RolBit(width, x, a, Count(width, i - b));
      RolBit(width, x, a + b, i);
      CountTwice(width, i, a, b);
    }
    SameBits(Rol(width, y, b), Rol(width, x, a + b), width);
  }

  /** Rotating back by the same count changes nothing. */
  lemma RolRoundTrip(width: nat, x: nat, a: int)
    requires WordSize(width) && Fits(x, width)
    ensures Rol(width, Rol(width, x, a), -a) == x
  {
    hide Bit, Fits, Or, And, Low, Shr, Up, Pow2;
    RolCompose(width, x, a, -a);
    RolFits(width, x, 0);
    forall i: nat | i < width ensures Bit(Rol(width, x, 0), i) <==> Bit(x, i) {
      RolBit(width, x, 0, i);
    }
    SameBits(Rol(width, x, 0), x, width);
  }

  // ---------------------------------------------------------------- byte swapping

  /** Bit `i` lies in a lane of even number, counting lanes of `lane` bits from the lowest. */
  predicate EvenLane(lane: nat, i: nat)
    requires lane > 0
  {
    i < lane || !EvenLane(lane, i - lane)
  }

  /** `width` is a whole number of pairs of lanes. */
  predicate Pairs(lane: nat, width: nat)
    requires lane > 0
  {
    width == 0 || (2 * lane <= width && Pairs(lane, width - 2 * lane))
  }

  /** Lanes of ones and zeros in turn, the ones lowest, up to `width` bits. */
  function EvenLanes(lane: nat, width: nat): nat
    requires lane > 0
  {
    if width < 2 * lane then 0 else Pow2(lane) - 1 + Up(EvenLanes(lane, width - 2 * lane), 2 * lane)
  }

  function OddLanes(lane: nat, width: nat): nat
    requires lane > 0
  {
    Up(EvenLanes(lane, width), lane)
  }

  lemma {:induction false} PartnerInside(lane: nat, width: nat, i: nat)
    requires lane > 0 && Pairs(lane, width) && i < width && EvenLane(lane, i)
    ensures i + lane < width
    decreases i
  {
    if 2 * lane <= i { PartnerInside(lane, width - 2 * lane, i - 2 * lane); }
  }

  lemma {:induction false} EvenLanesBit(lane: nat, width: nat, i: nat)
    requires lane > 0 && Pairs(lane, width)
    ensures Bit(EvenLanes(lane, width), i) <==> i < width && EvenLane(lane, i)
    decreases width
  {
    hide Bit, Fits, Or, And, Low, Shr, Up, Pow2;
    ZeroWord(0, i);
    if width >= 2 * lane {
      var ones, rest := Pow2(lane) - 1, EvenLanes(lane, width - 2 * lane);
      FitsIsBelow(ones, lane);
      FitsMore(ones, lane, 2 * lane);
      OrIsPlus(ones, rest, 2 * lane);
      OrBit(ones, Up(rest, 2 * lane), i);
      OnesBit(lane, i);
      UpBit(rest, 2 * lane, i);
      if 2 * lane <= i { EvenLanesBit(lane, width - 2 * lane, i - 2 * lane); }
    }
  }

  lemma OddLanesBit(lane: nat, width: nat, i: nat)
    requires lane > 0 && Pairs(lane, width)
    ensures Bit(OddLanes(lane, width), i) <==> i < width + lane && !EvenLane(lane, i)
  {
    hide Bit, Fits, Or, And, Low, Shr, Up, Pow2;
    UpBit(EvenLanes(lane, width), lane, i);
    if lane <= i { EvenLanesBit(lane, width, i - lane); }
  }

  /** The source's mask literals are these lanes. */
  lemma MaskLiterals()
    ensures EvenLanes(8, 64) == 0x00ff00ff00ff00ff && OddLanes(8, 64) == 0xff00ff00ff00ff00
    ensures EvenLanes(16, 64) == 0x0000ffff0000ffff && OddLanes(16, 64) == 0xffff0000ffff0000
    ensures EvenLanes(8, 32) == 0x00ff00ff && OddLanes(8, 32) == 0xff00ff00
  {
    assert Pow2(8) == 0x100 && Pow2(16) == 0x1_0000;
    assert Pow2(32) == 0x1_0000_0000 by { Pow2Values(); }
    assert EvenLanes(8, 0) == 0 && EvenLanes(16, 0) == 0;
    UpIsTimes(0, 16);
    UpIsTimes(0, 32);
    assert EvenLanes(8, 16) == 0x00ff;
    UpIsTimes(0x00ff, 16);
    assert EvenLanes(8, 32) == 0x00ff00ff;
    UpIsTimes(0x00ff00ff, 16);
    assert EvenLanes(8, 48) == 0x00ff00ff00ff;
    UpIsTimes(0x00ff00ff00ff, 16);
    assert EvenLanes(16, 32) == 0xffff;
    UpIsTimes(0xffff, 32);
    UpIsTimes(0x00ff00ff00ff00ff, 8);
    UpIsTimes(0x0000ffff0000ffff, 16);
    UpIsTimes(0x00ff00ff, 8);
  }

  /** `((x & evenMask) << lane) | ((x & oddMask) >> lane)` */
  function SwapLanes(width: nat, x: nat, lane: nat, evenMask: nat, oddMask: nat): nat {
    Or(Shl(width, And(x, evenMask), lane), Shr(And(x, oddMask), lane))
  }

  /** The bit that trades places with bit `i`. */
  function Partner(lane: nat, i: nat): nat
    requires lane > 0
  {
    if EvenLane(lane, i) then i + lane else i - lane
  }

  lemma SwapLanesBit(width: nat, x: nat, lane: nat, i: nat)
    requires lane > 0 && Pairs(lane, width)
    requires Fits(x, width) && i < width
    ensures var y := SwapLanes(width, x, lane, EvenLanes(lane, width), OddLanes(lane, width));
            Fits(y, width) && (Bit(y, i) <==> Bit(x, Partner(lane, i)))
  {
    hide EvenLanes, OddLanes, Pairs;
    hide Bit, Fits, Or, And, Low, Shr, Up, Pow2;
    if EvenLane(lane, i) { PartnerInside(lane, width, i); }
    var even, odd := EvenLanes(lane, width), OddLanes(lane, width);
    var up, down := And(x, even), And(x, odd);
    FitsAnd(x, odd, width);
    FitsShr(down, lane, width);
    FitsMore(Shr(down, lane), width - lane, width);
    FitsLow(Up(up, lane), width);
    FitsOr(Shl(width, up, lane), Shr(down, lane), width);
    OrBit(Shl(width, up, lane), Shr(down, lane), i);
    ShlBit(width, up, lane, i);
    ShrBit(down, lane, i);
    AndBit(x, odd, i + lane);
    OddLanesBit(lane, width, i + lane);
    if lane <= i {
      AndBit(x, even, i - lane);
      EvenLanesBit(lane, width, i - lane);
    }
  }

  lemma {:induction false} EvenLane8(i: nat)
    ensures EvenLane(8, i) <==> i % 16 < 8
    decreases i
  {
    if 16 <= i {
      EvenLane8(i - 16);
      assert EvenLane(8, i) <==> EvenLane(8, i - 16);
      assert i % 16 == (i - 16) % 16;
    }
  }

  lemma {:induction false} EvenLane16(i: nat)
    ensures EvenLane(16, i) <==> i % 32 < 16
    decreases i
  {
    if 32 <= i {
      EvenLane16(i - 32);
      assert EvenLane(16, i) <==> EvenLane(16, i - 32);
      assert i % 32 == (i - 32) % 32;
    }
  }

  function Swap32(x: Word32): nat {
    var x1 := SwapLanes(32, x, 8, 0x00ff00ff, 0xff00ff00);
    Or(Shl(32, x1, 16), Shr(x1, 16))
  }

  function Swap64(x: Word64): nat {
    var x1 := SwapLanes(64, x, 8, 0x00ff00ff00ff00ff, 0xff00ff00ff00ff00);
    var x2 := SwapLanes(64, x1, 16, 0x0000ffff0000ffff, 0xffff0000ffff0000);
    Or(Shl(64, x2, 32), Shr(x2, 32))
  }

  /** The place of bit `i` when the bytes of a word are in the opposite order. */
  function Mirror(width: nat, i: nat): (j: nat)
    requires WordSize(width) && i < width
    ensures j < width
  {
    width - 8 - i / 8 * 8 + i % 8
  }

  lemma MirrorTwice(width: nat, i: nat)
    requires WordSize(width) && i < width
    ensures Mirror(width, Mirror(width, i)) == i
  {
  }

  /** Where a bit comes from through the three exchanges, the last one first. */
  lemma MirrorInSteps(i: nat, i2: nat, i1: nat)
    requires i < 64 && i2 == (if i < 32 then i + 32 else i - 32) && i1 == Partner(16, i2)
    ensures i2 < 64 && i1 < 64 && Partner(8, i1) == Mirror(64, i)
  {
    EvenLane16(i2);
    EvenLane8(i1);
    hide EvenLane;
  }

  lemma WholePairs()
    ensures Pairs(8, 64) && Pairs(16, 64) && Pairs(8, 32)
  {
  }

  /** Bit `i` of the swapped word comes from the same place in the mirrored byte. */
  lemma Swap64Bit(x: Word64, i: nat)
    requires i < 64
    ensures Fits(Swap64(x), 64) && (Bit(Swap64(x), i) <==> Bit(x, Mirror(64, i)))
  {
    hide EvenLanes, OddLanes, SwapLanes, EvenLane, Partner, Mirror, Pairs;
    hide Bit, Fits, Or, And, Low, Shr, Up, Pow2;
    MaskLiterals();
    WholePairs();
    Word64Fits(x);
    var x1 := SwapLanes(64, x, 8, 0x00ff00ff00ff00ff, 0xff00ff00ff00ff00);
    var x2 := SwapLanes(64, x1, 16, 0x0000ffff0000ffff, 0xffff0000ffff0000);
    var i2 := if i < 32 then i + 32 else i - 32;
    var i1 := PartnerInWord(i2);
    MirrorInSteps(i, i2, i1);
    SwapLanesBit(64, x, 8, i1);
    SwapLanesBit(64, x1, 16, i2);
    RotateHalf(64, x2, 32, i);
  }

  lemma PartnerInWord(i: nat) returns (j: nat)
    requires i < 64
    ensures j == Partner(16, i)
  {
    EvenLane16(i);
    j := Partner(16, i);
  }

  /** The last exchange, without masks, is a rotation by half a word. */
  lemma RotateHalf(width: nat, x: nat, half: nat, i: nat)
    requires WordSize(width) && width == 2 * half && Fits(x, width) && i < width
    ensures var y := Or(Shl(width, x, half), Shr(x, half));
            Fits(y, width) && (Bit(y, i) <==> Bit(x, if i < half then i + half else i - half))
  {
    hide Bit, Fits, Or, And, Low, Shr, Up, Pow2;
    assert Rol(width, x, half) == Or(Shl(width, x, half), Shr(x, half));
    RolFits(width, x, half);
    RolBit(width, x, half, i);
  }

  lemma Swap32Bit(x: Word32, i: nat)
    requires i < 32
    ensures Fits(Swap32(x), 32) && (Bit(Swap32(x), i) <==> Bit(x, Mirror(32, i)))
  {
    hide EvenLanes, OddLanes, SwapLanes, EvenLane;
    hide Bit, Fits, Or, And, Low, Shr, Up, Pow2;
    MaskLiterals();
    Word32Fits(x);
    var x1 := SwapLanes(32, x, 8, 0x00ff00ff, 0xff00ff00);
    var i1 := if i < 16 then i + 16 else i - 16;
    EvenLane8(i1);
    SwapLanesBit(32, x, 8, i1);
    RotateHalf(32, x1, 16, i);
  }

  /** Byte `k` of `x`, the least significant one first: `(uint8_t) (x >> 8*k)`. */
  function ByteAt(x: nat, k: nat): (b: nat)
    ensures b < 0x100
  {
    Pow2Values();
    FitsLow(Shr(x, 8 * k), 8);
    FitsIsBelow(Low(Shr(x, 8 * k), 8), 8);
    Low(Shr(x, 8 * k), 8)
  }

  /** Byte 0 is the remainder by 256, and the further bytes are those of the quotient. */
  lemma ByteAtIs(x: nat, k: nat)
    ensures ByteAt(x, 0) == x % 0x100 && ByteAt(x, k + 1) == ByteAt(x / 0x100, k)
  {
    hide Bit, Fits, Or, And, Low, Up, Pow2;
    Pow2Values();
    SplitAt(x, 8);
    ShrTwice(x, 8, 8 * k);
    assert Shr(x, 0) == x;
  }

  lemma {:induction false} ShrTwice(x: nat, a: nat, b: nat)
    ensures Shr(Shr(x, a), b) == Shr(x, a + b)
    decreases a
  {
    if x != 0 && a != 0 { ShrTwice(x / 2, a - 1, b); }
  }

  lemma ByteAtBit(x: nat, k: nat, i: nat)
    ensures Fits(ByteAt(x, k), 8) && (Bit(ByteAt(x, k), i) <==> i < 8 && Bit(x, 8 * k + i))
  {
    hide Bit, Fits, Or, And, Low, Shr, Up, Pow2;
    FitsLow(Shr(x, 8 * k), 8);
    LowBit(Shr(x, 8 * k), 8, i);
    ShrBit(x, 8 * k, i);
  }

  /** `swap64` reverses the eight bytes. */
  lemma Swap64ReversesBytes(x: Word64, k: nat)
    requires k < 8
    ensures ByteAt(Swap64(x), k) == ByteAt(x, 7 - k)
  {
    hide Swap64;
    hide Bit, Fits, Or, And, Low, Shr, Up, Pow2;
    var y := Swap64(x);
    ByteAtBit(y, k, 0);
    ByteAtBit(x, 7 - k, 0);
    forall i: nat | i < 8 ensures Bit(ByteAt(y, k), i) <==> Bit(ByteAt(x, 7 - k), i) {
      ByteAtBit(y, k, i);
      ByteAtBit(x, 7 - k, i);
      Swap64Bit(x, 8 * k + i);
    }
    SameBits(ByteAt(y, k), ByteAt(x, 7 - k), 8);
  }

  lemma Swap64IsWord(x: Word64)
    ensures Swap64(x) < 0x1_0000_0000_0000_0000
  {
    hide Swap64;
    Swap64Bit(x, 0);
    Word64Fits(Swap64(x));
  }

  /** Swapping twice gives the word back. */
  lemma Swap64Twice(x: Word64)
    ensures Swap64(x) < 0x1_0000_0000_0000_0000 && Swap64(Swap64(x)) == x
  {
    hide Swap64;
    hide Bit, Fits, Or, And, Low, Shr, Up, Pow2;
    Swap64IsWord(x);
    Word64Fits(x);
    var y: Word64 := Swap64(x);
    forall i: nat | i < 64 ensures Fits(Swap64(y), 64) && (Bit(Swap64(y), i) <==> Bit(x, i)) {
      Swap64Bit(y, i);
      Swap64Bit(x, Mirror(64, i));
      MirrorTwice(64, i);
    }
    Swap64Bit(y, 0);
    SameBits(Swap64(y), x, 64);
  }

  lemma Swap32IsWord(x: Word32)
    ensures Swap32(x) < 0x1_0000_0000
  {
    hide Swap32;
    Swap32Bit(x, 0);
    Word32Fits(Swap32(x));
  }

  /** `swap32` reverses the four bytes, and undoes itself. */
  lemma Swap32ReversesBytes(x: Word32, k: nat)
    requires k < 4
    ensures ByteAt(Swap32(x), k) == ByteAt(x, 3 - k)
    ensures Swap32(x) < 0x1_0000_0000 && Swap32(Swap32(x)) == x
  {
    hide Swap32;
    hide Bit, Fits, Or, And, Low, Shr, Up, Pow2;
    Swap32IsWord(x);
    Word32Fits(x);
    var y: Word32 := Swap32(x);
    ByteAtBit(y, k, 0);
    ByteAtBit(x, 3 - k, 0);
    forall i: nat | i < 8 ensures Bit(ByteAt(y, k), i) <==> Bit(ByteAt(x, 3 - k), i) {
      ByteAtBit(y, k, i);
      ByteAtBit(x, 3 - k, i);
      Swap32Bit(x, 8 * k + i);
    }
    SameBits(ByteAt(y, k), ByteAt(x, 3 - k), 8);
    forall i: nat | i < 32 ensures Fits(Swap32(y), 32) && (Bit(Swap32(y), i) <==> Bit(x, i)) {
      Swap32Bit(y, i);
      Swap32Bit(x, Mirror(32, i));
      MirrorTwice(32, i);
    }
    Swap32Bit(y, 0);
    SameBits(Swap32(y), x, 32);
  }

  // ---------------------------------------------------------------- the SWAP64 macro

  /** One line of `SWAP64`: byte `k` is masked in place and then shifted to byte `7 - k`. */
  function MacroLine(x: Word64, k: nat): nat
    requires k < 8
  {
    var masked := And(x, Up(0xff, 8 * k));
    if k < 4 then Shl(64, masked, 56 - 16 * k) else Shr(masked, 16 * k - 56)
  }

  /** The first `n` lines of the macro, joined by `|`; the macro has eight. */
  function MacroLines(x: Word64, n: nat): nat
    requires n <= 8
  {
    if n == 0 then 0 else Or(MacroLines(x, n - 1), MacroLine(x, n - 1))
  }

  function MacroSwap64(x: Word64): nat {
    MacroLines(x, 8)
  }

  lemma ByteMaskBit(x: nat, k: nat, i: nat)
    ensures Bit(And(x, Up(0xff, 8 * k)), i) <==> i / 8 == k && Bit(x, i)
  {
    hide Bit, Fits, Or, And, Low, Shr, Up, Pow2;
    Pow2Values();
    AndBit(x, Up(0xff, 8 * k), i);
    UpBit(0xff, 8 * k, i);
    if 8 * k <= i { OnesBit(8, i - 8 * k); }
  }

  lemma MacroLineBit(x: Word64, k: nat, i: nat)
    requires k < 8
    ensures Fits(MacroLine(x, k), 64)
    ensures Bit(MacroLine(x, k), i) <==> i < 64 && i / 8 == 7 - k && Bit(x, Mirror(64, i))
  {
    hide Bit, Fits, Or, And, Low, Shr, Up, Pow2;
    var masked := And(x, Up(0xff, 8 * k));
    if k < 4 {
      var up := 56 - 16 * k;
      FitsLow(Up(masked, up), 64);
      ShlBit(64, masked, up, i);
      if up <= i { ByteMaskBit(x, k, i - up); }
    } else {
      var down := 16 * k - 56;
      Word64Fits(x);
      FitsAnd(x, Up(0xff, 8 * k), 64);
      FitsShr(masked, down, 64);
      FitsMore(Shr(masked, down), 64 - down, 64);
      ShrBit(masked, down, i);
      ByteMaskBit(x, k, i + down);
    }
  }

  lemma {:induction false} MacroLinesBit(x: Word64, n: nat, i: nat)
    requires n <= 8
    ensures Fits(MacroLines(x, n), 64)
    ensures Bit(MacroLines(x, n), i) <==> i < 64 && 7 - i / 8 < n && Bit(x, Mirror(64, i))
    decreases n
  {
    hide Bit, Fits, Or, And, Low, Shr, Up, Pow2;
    ZeroWord(64, i);
    if n > 0 {
      MacroLinesBit(x, n - 1, i);
      MacroLineBit(x, n - 1, i);
      FitsOr(MacroLines(x, n - 1), MacroLine(x, n - 1), 64);
      OrBit(MacroLines(x, n - 1), MacroLine(x, n - 1), i);
    }
  }

  /** The shift-and-mask macro computes the same word as the three-step exchange. */
  lemma MacroSwap64IsSwap64(x: Word64)
    ensures MacroSwap64(x) == Swap64(x)
  {
    hide Swap64;
    hide Bit, Fits, Or, And, Low, Shr, Up, Pow2;
    Swap64Bit(x, 0);
    MacroLinesBit(x, 8, 0);
    forall i: nat | i < 64 ensures Bit(MacroSwap64(x), i) <==> Bit(Swap64(x), i) {
      Swap64Bit(x, i);
      MacroLinesBit(x, 8, i);
    }
    SameBits(MacroSwap64(x), Swap64(x), 64);
  }

  // ---------------------------------------------------------------- swapping buffers

  function Swapped64(words: seq<Word64>): (r: seq<Word64>)
    ensures |r| == |words|
    ensures forall i :: 0 <= i < |words| ==> r[i] == Swap64(words[i])
  {
    if words == [] then [] else
      Swap64IsWord(words[0]);
      [Swap64(words[0])] + Swapped64(words[1..])
  }

  function Swapped32(words: seq<Word32>): (r: seq<Word32>)
    ensures |r| == |words|
    ensures forall i :: 0 <= i < |words| ==> r[i] == Swap32(words[i])
  {
    if words == [] then [] else
      Swap32IsWord(words[0]);
      [Swap32(words[0])] + Swapped32(words[1..])
  }

  method MemInplaceSwap64(mem: array<Word64>, n: nat)
    requires n <= mem.Length
    modifies mem
    ensures mem[..] == Swapped64(old(mem[..n])) + old(mem[n..])
  {
    hide Swap64;
    for i := 0 to n
      invariant mem[i..] == old(mem[i..])
      invariant mem[..i] == Swapped64(old(mem[..n]))[..i]
    {
      Swap64IsWord(mem[i]);
      assert mem[i] == old(mem[..n])[i];
      mem[i] := Swap64(mem[i]);
    }
    assert mem[..] == mem[..n] + mem[n..];
  }

  method MemInplaceSwap32(mem: array<Word32>, n: nat)
    requires n <= mem.Length
    modifies mem
    ensures mem[..] == Swapped32(old(mem[..n])) + old(mem[n..])
  {
    hide Swap32;
    for i := 0 to n
      invariant mem[i..] == old(mem[i..])
      invariant mem[..i] == Swapped32(old(mem[..n]))[..i]
    {
      Swap32IsWord(mem[i]);
      assert mem[i] == old(mem[..n])[i];
      mem[i] := Swap32(mem[i]);
    }
    assert mem[..] == mem[..n] + mem[n..];
  }

  /** `dst` and `src` may be the same buffer. */
  method MemcpySwap64(dst: array<Word64>, src: array<Word64>, n: nat)
    requires n <= dst.Length && n <= src.Length
    modifies dst
    ensures dst[..] == Swapped64(old(src[..n])) + old(dst[n..])
  {
    hide Swap64;
    for i := 0 to n
      invariant dst[n..] == old(dst[n..]) && src[i..] == old(src[i..])
      invariant dst[..i] == Swapped64(old(src[..n]))[..i]
    {
      Swap64IsWord(src[i]);
      assert src[i] == src[i..][0] == old(src[..n])[i];
      dst[i] := Swap64(src[i]);
    }
    assert dst[..] == dst[..n] + dst[n..];
  }

  method MemcpySwap32(dst: array<Word32>, src: array<Word32>, n: nat)
    requires n <= dst.Length && n <= src.Length
    modifies dst
    ensures dst[..] == Swapped32(old(src[..n])) + old(dst[n..])
  {
    hide Swap32;
    for i := 0 to n
      invariant dst[n..] == old(dst[n..]) && src[i..] == old(src[i..])
      invariant dst[..i] == Swapped32(old(src[..n]))[..i]
    {
      Swap32IsWord(src[i]);
      assert src[i] == src[i..][0] == old(src[..n])[i];
      dst[i] := Swap32(src[i]);
    }
    assert dst[..] == dst[..n] + dst[n..];
  }

  lemma {:induction false} Swapped64Twice(words: seq<Word64>)
    ensures Swapped64(Swapped64(words)) == words
  {
    forall i | 0 <= i < |words| ensures Swapped64(Swapped64(words))[i] == words[i] {
      Swap64Twice(words[i]);
    }
  }
}
