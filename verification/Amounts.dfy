/** Splitting an amount into decimal digits and dust (cryptonote_format_utils.h). */
module Amounts {
  import opened Bits
  import opened IntUtil

  function Pow10(k: nat): (p: nat)
    ensures p > 0
  {
    if k == 0 then 1 else 10 * Pow10(k - 1)
  }

  /** One call of a handler. */
  datatype Part = Dust(amount: nat) | Chunk(amount: nat)

  // ---------------------------------------------------------------- what is promised

  function DigitCount(amount: nat): nat {
    if amount == 0 then 0 else 1 + DigitCount(amount / 10)
  }

  /** The value of the lowest `n` digits. */
  function LowDigits(amount: nat, n: nat): nat {
    amount % Pow10(n)
  }

  /** The number left when the lowest `n` digits are dropped. */
  function HighDigits(amount: nat, n: nat): nat {
    if n == 0 then amount else HighDigits(amount / 10, n - 1)
  }

  /** The longest run of low digits, at most `n` of them, whose value is within the threshold. */
  function LongestRun(amount: nat, threshold: nat, n: nat): (len: nat)
    ensures len <= n
  {
    if n == 0 || LowDigits(amount, n) <= threshold then n else LongestRun(amount, threshold, n - 1)
  }

  function DustLength(amount: nat, threshold: nat): nat {
    LongestRun(amount, threshold, DigitCount(amount))
  }

  /** The non-zero digits of `rest`, the lowest one standing for `10^place`. */
  function Chunks(rest: nat, place: nat): seq<Part>
    decreases rest
  {
    if rest == 0 then []
    else (if rest % 10 == 0 then [] else [Chunk(DigitValue(rest, place))]) + Chunks(rest / 10, place + 1)
  }

  function DustPart(dust: nat): seq<Part> {
    if dust == 0 then [] else [Dust(dust)]
  }

  /** Dust first, if there is any, and then the digits above it. */
  function Decomposition(amount: nat, threshold: nat): seq<Part> {
    var n := DustLength(amount, threshold);
    DustPart(LowDigits(amount, n)) + Chunks(HighDigits(amount, n), n)
  }

  // ---------------------------------------------------------------- digits

  /** `amount` cut after its lowest `k` digits. */
  predicate Cut(amount: nat, k: nat, rest: nat, low: nat) {
    amount == rest * Pow10(k) + low && low < Pow10(k)
  }

  /** What the lowest digit of `rest` stands for, `k` digits up. */
  function DigitValue(rest: nat, k: nat): nat {
    rest % 10 * Pow10(k)
  }

  lemma DropDigit(t: nat, low: nat, p: nat)
    requires low < 10 * p
    ensures (10 * t + low) / 10 == t + low / 10 && low / 10 < p
  {
  }

  lemma CutOneUp(amount: nat, k: nat, rest: nat, low: nat)
    requires Cut(amount, k + 1, rest, low)
    ensures Cut(amount / 10, k, rest, low / 10)
  {
    var p := Pow10(k);
    assert Pow10(k + 1) == 10 * p;
    hide Pow10;
    Associate(rest, 10, p);
    Associate(10, rest, p);
    DropDigit(rest * p, low, p);
  }

  lemma {:induction false} CutIsHigh(amount: nat, k: nat, rest: nat, low: nat)
    requires Cut(amount, k, rest, low)
    ensures rest == HighDigits(amount, k)
    decreases k
  {
    if k > 0 {
      CutOneUp(amount, k - 1, rest, low);
      CutIsHigh(amount / 10, k - 1, rest, low / 10);
    }
  }

  lemma CutIs(amount: nat, k: nat, rest: nat, low: nat)
    requires Cut(amount, k, rest, low)
    ensures rest == HighDigits(amount, k) && low == LowDigits(amount, k)
  {
    CutIsHigh(amount, k, rest, low);
    hide Pow10;
    DivUnique(amount, Pow10(k), rest, low);
  }

  lemma {:induction false} CutAt(amount: nat, k: nat)
    ensures Cut(amount, k, HighDigits(amount, k), LowDigits(amount, k))
    decreases k
  {
    if k == 0 {
      assert Cut(amount, 0, amount, 0);
    } else {
      CutAt(amount, k - 1);
      NextDigit(amount, k - 1, HighDigits(amount, k - 1), LowDigits(amount, k - 1));
      var rest, low := HighDigits(amount, k - 1), LowDigits(amount, k - 1);
      CutIs(amount, k, rest / 10, DigitValue(rest, k - 1) + low);
    }
  }

  lemma DigitOf(p: nat, rest: nat)
    ensures rest * p == rest / 10 * (10 * p) + rest % 10 * p
    ensures 0 <= rest / 10 * (10 * p) && 0 <= rest % 10 * p <= 9 * p
    ensures rest % 10 != 0 ==> p <= rest % 10 * p
    ensures rest / 10 != 0 ==> 10 * p <= rest / 10 * (10 * p)
  {
    var q, d := rest / 10, rest % 10;
    assert rest == 10 * q + d;
    Distribute(p, 10 * q, d);
    Associate(p, 10, q);
    MulMonotone(p, d, 9);
    MulMonotone(p, 0, d);
    MulMonotone(10 * p, 0, q);
    if d != 0 { MulMonotone(p, 1, d); }
    if q != 0 { MulMonotone(10 * p, 1, q); }
  }

  /** Moving one digit from the high part to the low part. */
  lemma NextDigit(amount: nat, k: nat, rest: nat, low: nat)
    requires Cut(amount, k, rest, low)
    ensures Cut(amount, k + 1, rest / 10, DigitValue(rest, k) + low)
    ensures DigitValue(rest, k) + low <= amount
    ensures if rest % 10 == 0 then DigitValue(rest, k) == 0 else Pow10(k) <= DigitValue(rest, k)
    ensures rest / 10 != 0 ==> 10 * Pow10(k) == Pow10(k + 1) <= amount
  {
    var p := Pow10(k);
    assert Pow10(k + 1) == 10 * p;
    hide Pow10;
    DigitOf(p, rest);
  }

  lemma {:induction false} DigitCountBounds(amount: nat)
    ensures amount < Pow10(DigitCount(amount))
    ensures amount != 0 ==> Pow10(DigitCount(amount) - 1) <= amount
    decreases amount
  {
    if amount != 0 { DigitCountBounds(amount / 10); }
  }

  lemma {:induction false} Pow10Monotone(a: nat, b: nat)
    requires a <= b
    ensures Pow10(a) <= Pow10(b)
    decreases b
  {
    if a < b { Pow10Monotone(a, b - 1); }
  }

  lemma WholeAmount(amount: nat, n: nat)
    requires amount < Pow10(n)
    ensures LowDigits(amount, n) == amount && HighDigits(amount, n) == 0
  {
    CutIs(amount, n, 0, amount);
  }

  lemma NextLowDigits(amount: nat, k: nat)
    ensures LowDigits(amount, k + 1) == DigitValue(HighDigits(amount, k), k) + LowDigits(amount, k)
  {
    hide Cut, DigitValue, LowDigits, HighDigits, Pow10;
    var rest, low := HighDigits(amount, k), LowDigits(amount, k);
    CutAt(amount, k);
    NextDigit(amount, k, rest, low);
    CutIs(amount, k + 1, rest / 10, DigitValue(rest, k) + low);
  }

  /** More digits never make a smaller value. */
  lemma {:induction false} LowDigitsMonotone(amount: nat, a: nat, b: nat)
    requires a <= b
    ensures LowDigits(amount, a) <= LowDigits(amount, b)
    decreases b
  {
    hide LowDigits, DigitValue, Pow10;
    if a < b {
      LowDigitsMonotone(amount, a, b - 1);
      NextLowDigits(amount, b - 1);
    }
  }

  /** A run is the longest one as soon as the next digit does not fit. */
  lemma {:induction false} LongestRunIs(amount: nat, threshold: nat, len: nat, n: nat)
    requires len <= n && LowDigits(amount, len) <= threshold
    requires len < n ==> LowDigits(amount, len + 1) > threshold
    ensures LongestRun(amount, threshold, n) == len
    decreases n
  {
    if len < n {
      LowDigitsMonotone(amount, len + 1, n);
      LongestRunIs(amount, threshold, len, n - 1);
    }
  }

  // ---------------------------------------------------------------- the loop

  /** Digits `from` up to `to`, as the loop reports them. */
  lemma ChunkStep(rest: nat, place: nat)
    requires rest != 0
    ensures Chunks(rest, place)
         == (if rest % 10 == 0 then [] else [Chunk(DigitValue(rest, place))]) + Chunks(rest / 10, place + 1)
  {
  }

  lemma RunOfWholeAmount(amount: nat, threshold: nat, k: nat, len: nat)
    requires amount < Pow10(k) && len <= k && LowDigits(amount, len) <= threshold
    requires len < k ==> threshold < LowDigits(amount, len + 1)
    ensures if len == k then Decomposition(amount, threshold) == DustPart(amount) == DustPart(LowDigits(amount, len))
            else DustLength(amount, threshold) == len
  {
    var n := DigitCount(amount);
    DigitCountBounds(amount);
    WholeAmount(amount, n);
    if len == k {
      WholeAmount(amount, k);
      LongestRunIs(amount, threshold, n, n);
    } else {
      if n <= len {
        Pow10Monotone(n, len);
        Pow10Monotone(n, len + 1);
        WholeAmount(amount, len);
        WholeAmount(amount, len + 1);
        assert false;
      }
      LongestRunIs(amount, threshold, len, n);
    }
  }

  /** `(amount % 10) * order` on 64-bit words. */
  function ChunkOf(rest: Word64, order: Word64): Word64 {
    Wrap64(rest % 10 * order)
  }

  lemma OrderWithin(amount: nat, p: nat, rest: nat, low: nat)
    requires amount == rest * p + low && rest != 0
    ensures p <= amount
  {
    MulMonotone(p, 1, rest);
  }

  lemma WrapSmall(x: nat)
    requires x < 0x1_0000_0000_0000_0000
    ensures Wrap64(x) == x
  {
  }

  lemma ChunkIsDigit(rest: Word64, k: nat)
    requires Pow10(k) < 0x1_0000_0000_0000_0000 && DigitValue(rest, k) < 0x1_0000_0000_0000_0000
    ensures ChunkOf(rest, Pow10(k)) == DigitValue(rest, k)
  {
    hide Pow10, Wrap64;
    WrapSmall(DigitValue(rest, k));
  }

  /** While digits are left, `order` is exact, and so are the chunk and its sum with the dust. */
  lemma NoWrap(amount: Word64, k: nat, rest: Word64, low: nat, dust: nat)
    requires Cut(amount, k, rest, low) && rest != 0 && dust <= low
    ensures Pow10(k) <= amount && ChunkOf(rest, Pow10(k)) == DigitValue(rest, k)
    ensures Wrap64(dust + DigitValue(rest, k)) == dust + DigitValue(rest, k)
    ensures rest / 10 != 0 ==> Wrap64(Pow10(k) * 10) == Pow10(k + 1)
  {
    hide Pow10, Wrap64, ChunkOf, DigitValue;
    OrderWithin(amount, Pow10(k), rest, low);
    NextDigit(amount, k, rest, low);
    hide Cut;
    ChunkIsDigit(rest, k);
    WrapSmall(dust + DigitValue(rest, k));
    if rest / 10 != 0 { WrapSmall(Pow10(k) * 10); }
  }

  lemma AppendThenTail<T>(calls: seq<T>, more: seq<T>, x: T, tail: seq<T>)
    ensures calls + [x] + tail == calls + ([x] + tail)
    ensures calls + more + [x] + tail == calls + more + ([x] + tail)
  {
  }

  lemma LowDigitsBelow(amount: nat, k: nat)
    ensures LowDigits(amount, k) < Pow10(k)
  {
  }

  /**
    Where the loop stands after `k` digits worth `low`: `len` of them went to dust. As long as that is
    all of them nothing has been reported; once it is not, the rest of the report is settled.
   */
  ghost predicate Underway(amount: nat, threshold: nat, k: nat, rest: nat, low: nat, len: nat, dust: nat,
                           handled: bool, calls: seq<Part>) {
    && Cut(amount, k, rest, low)
    && len <= k && dust == LowDigits(amount, len) && dust <= threshold && dust <= low
    && if len == k then
         dust == low && calls == [] && !handled
       else
         && threshold < LowDigits(amount, len + 1) < Pow10(len + 1)
         && handled == (dust != 0)
         && calls + Chunks(rest, k) == DustPart(dust) + Chunks(HighDigits(amount, len), len)
  }

  lemma ToDust(amount: nat, threshold: nat, k: nat, rest: nat, low: nat, len: nat, dust: nat,
               handled: bool, calls: seq<Part>)
    requires Underway(amount, threshold, k, rest, low, len, dust, handled, calls)
    requires rest != 0 && dust + DigitValue(rest, k) <= threshold
    ensures Underway(amount, threshold, k + 1, rest / 10, DigitValue(rest, k) + low,
                     if len == k then k + 1 else len, dust + DigitValue(rest, k), handled, calls)
    ensures len != k ==> rest % 10 == 0
  {
    hide Cut, DigitValue, LowDigits, Pow10, Chunks, HighDigits;
    NextDigit(amount, k, rest, low);
    CutIs(amount, k + 1, rest / 10, DigitValue(rest, k) + low);
    ChunkStep(rest, k);
    if len < k { Pow10Monotone(len + 1, k); }
  }

  lemma ToChunk(amount: nat, threshold: nat, k: nat, rest: nat, low: nat, len: nat, dust: nat,
                handled: bool, calls: seq<Part>)
    requires Underway(amount, threshold, k, rest, low, len, dust, handled, calls)
    requires rest != 0 && dust + DigitValue(rest, k) > threshold
    ensures DigitValue(rest, k) != 0
    ensures Underway(amount, threshold, k + 1, rest / 10, DigitValue(rest, k) + low, len, dust, dust != 0,
                     calls + (if handled then [] else DustPart(dust)) + [Chunk(DigitValue(rest, k))])
  {
    hide Cut, DigitValue, LowDigits, Pow10, Chunks, HighDigits;
    NextDigit(amount, k, rest, low);
    CutIs(amount, k, rest, low);
    CutIs(amount, k + 1, rest / 10, DigitValue(rest, k) + low);
    ChunkStep(rest, k);
    LowDigitsBelow(amount, k + 1);
    AppendThenTail(calls, DustPart(dust), Chunk(DigitValue(rest, k)), Chunks(rest / 10, k + 1));
  }

  lemma AllReported(amount: nat, threshold: nat, k: nat, low: nat, len: nat, dust: nat, handled: bool, calls: seq<Part>)
    requires Underway(amount, threshold, k, 0, low, len, dust, handled, calls)
    ensures calls + (if handled then [] else DustPart(dust)) == Decomposition(amount, threshold)
  {
    hide LowDigits, Pow10, HighDigits;
    assert Chunks(0, k) == [];
    assert amount == low < Pow10(k);
    RunOfWholeAmount(amount, threshold, k, len);
  }

  /**
    `decompose_amount_into_digits`. Every product and sum is cut to 64 bits as in the source;
    `calls` are the handler calls in the order they are made.
   */
  method DecomposeAmountIntoDigits(amount: Word64, dustThreshold: Word64) returns (calls: seq<Part>)
    ensures calls == Decomposition(amount, dustThreshold)
  {
    calls := [];
    if amount == 0 {
      assert Decomposition(0, dustThreshold) == [];
      return;
    }
    var isDustHandled := false;
    var dust: Word64 := 0;
    var order: Word64 := 1;
    var rest: Word64 := amount;
    ghost var k: nat, len: nat, low: nat := 0, 0, 0;
    assert Cut(amount, 0, amount, 0) && LowDigits(amount, 0) == 0 && Pow10(0) == 1;
    hide Cut, LowDigits, HighDigits, Pow10, Chunks, ChunkOf, DigitValue, Wrap64;
    while rest != 0
      invariant Underway(amount, dustThreshold, k, rest, low, len, dust, isDustHandled, calls)
      invariant rest != 0 ==> order == Pow10(k)
      decreases rest
    {
      NoWrap(amount, k, rest, low, dust);
      var chunk := ChunkOf(rest, order);
      ghost var taken, next := rest, DigitValue(rest, k) + low;
      rest := rest / 10;
      order := Wrap64(order * 10);
      if Wrap64(dust + chunk) <= dustThreshold {
        ToDust(amount, dustThreshold, k, taken, low, len, dust, isDustHandled, calls);
        dust := dust + chunk;
        len := if len == k then k + 1 else len;
      } else {
        ToChunk(amount, dustThreshold, k, taken, low, len, dust, isDustHandled, calls);
        if !isDustHandled && dust != 0 {
          calls := calls + [Dust(dust)];
          isDustHandled := true;
        }
        if chunk != 0 {
          calls := calls + [Chunk(chunk)];
        }
      }
      k, low := k + 1, next;
    }
    AllReported(amount, dustThreshold, k, low, len, dust, isDustHandled, calls);
    if !isDustHandled && dust != 0 {
      calls := calls + [Dust(dust)];
    }
  }

  // ---------------------------------------------------------------- what the decomposition means

  function Total(parts: seq<Part>): nat {
    if parts == [] then 0 else parts[0].amount + Total(parts[1..])
  }

  lemma {:induction false} TotalOfConcat(a: seq<Part>, b: seq<Part>)
    ensures Total(a + b) == Total(a) + Total(b)
    decreases |a|
  {
    if a == [] {
      assert a + b == b;
    } else {
      assert (a + b)[1..] == a[1..] + b;
      TotalOfConcat(a[1..], b);
    }
  }

  lemma {:induction false} TotalOfChunks(rest: nat, place: nat)
    ensures Total(Chunks(rest, place)) == rest * Pow10(place)
    decreases rest
  {
    if rest != 0 {
      var head := if rest % 10 == 0 then [] else [Chunk(DigitValue(rest, place))];
      TotalOfConcat(head, Chunks(rest / 10, place + 1));
      TotalOfChunks(rest / 10, place + 1);
      DigitOf(Pow10(place), rest);
      assert Total(head) == DigitValue(rest, place);
    }
  }

  /** Conservation: whatever the threshold, dust and chunks add up to the amount. */
  lemma Conservation(amount: nat, threshold: nat)
    ensures Total(Decomposition(amount, threshold)) == amount
  {
    hide Pow10, HighDigits, LowDigits, DustLength, Chunks;
    var n := DustLength(amount, threshold);
    var dust := LowDigits(amount, n);
    CutAt(amount, n);
    TotalOfConcat(DustPart(dust), Chunks(HighDigits(amount, n), n));
    TotalOfChunks(HighDigits(amount, n), n);
    assert Total(DustPart(dust)) == dust;
  }

  lemma {:induction false} LongestRunIsLongest(amount: nat, threshold: nat, n: nat, m: nat)
    requires LongestRun(amount, threshold, n) < m <= n
    ensures LowDigits(amount, m) > threshold
    decreases n
  {
    if m < n { LongestRunIsLongest(amount, threshold, n - 1, m); }
  }

  lemma {:induction false} LongestRunFits(amount: nat, threshold: nat, n: nat)
    ensures LowDigits(amount, LongestRun(amount, threshold, n)) <= threshold
    decreases n
  {
    if !(n == 0 || LowDigits(amount, n) <= threshold) { LongestRunFits(amount, threshold, n - 1); }
  }

  /**
    Dust is the longest run of low digits within the threshold: it is within, every longer run is above,
    it is reported at most once and before every chunk.
   */
  lemma DustIsLongestRun(amount: nat, threshold: nat)
    ensures var n := DustLength(amount, threshold);
            && n <= DigitCount(amount) && LowDigits(amount, n) <= threshold
            && (forall m :: n < m <= DigitCount(amount) ==> LowDigits(amount, m) > threshold)
    ensures var parts := Decomposition(amount, threshold);
            && (forall i :: 0 < i < |parts| ==> parts[i].Chunk?)
            && (|parts| > 0 && parts[0].Dust? <==> LowDigits(amount, DustLength(amount, threshold)) != 0)
  {
    LongestRunFits(amount, threshold, DigitCount(amount));
    forall m | DustLength(amount, threshold) < m <= DigitCount(amount) ensures LowDigits(amount, m) > threshold {
      LongestRunIsLongest(amount, threshold, DigitCount(amount), m);
    }
    AllChunks(HighDigits(amount, DustLength(amount, threshold)), DustLength(amount, threshold));
  }

  lemma {:induction false} AllChunks(rest: nat, place: nat)
    ensures forall i :: 0 <= i < |Chunks(rest, place)| ==> Chunks(rest, place)[i].Chunk?
    decreases rest
  {
    if rest != 0 { AllChunks(rest / 10, place + 1); }
  }

  /** Digit `k` of `amount`, the lowest one being digit 0. */
  function DigitAt(amount: nat, k: nat): nat {
    HighDigits(amount, k) % 10
  }

  lemma {:induction false} HighDigitsTwice(amount: nat, a: nat, b: nat)
    ensures HighDigits(HighDigits(amount, a), b) == HighDigits(amount, a + b)
    decreases a
  {
    if a > 0 { HighDigitsTwice(amount / 10, a - 1, b); }
  }

  /** The places from `from` on that hold a non-zero digit, in increasing order. */
  ghost function Places(amount: nat, from: nat): (r: seq<nat>)
    decreases HighDigits(amount, from)
  {
    var rest := HighDigits(amount, from);
    HighDigitsTwice(amount, from, 1);
    if rest == 0 then []
    else
      assert HighDigits(rest, 1) == rest / 10;
      (if rest % 10 == 0 then [] else [from]) + Places(amount, from + 1)
  }

  /** A place is listed exactly if it is not below `from` and its digit is not zero. */
  lemma {:induction false} PlacesAre(amount: nat, from: nat, k: nat)
    ensures k in Places(amount, from) <==> from <= k && DigitAt(amount, k) != 0
    decreases HighDigits(amount, from)
  {
    var rest := HighDigits(amount, from);
    HighDigitsTwice(amount, from, 1);
    if rest == 0 {
      if from <= k {
        HighDigitsTwice(amount, from, k - from);
        HighDigitsOfZero(k - from);
      }
    } else {
      assert HighDigits(rest, 1) == rest / 10;
      PlacesAre(amount, from + 1, k);
    }
  }

  lemma {:induction false} HighDigitsOfZero(k: nat)
    ensures HighDigits(0, k) == 0
    decreases k
  {
    if k > 0 { HighDigitsOfZero(k - 1); }
  }

  lemma {:induction false} PlacesIncrease(amount: nat, from: nat)
    ensures forall i, j :: 0 <= i < j < |Places(amount, from)| ==> Places(amount, from)[i] < Places(amount, from)[j]
    decreases HighDigits(amount, from)
  {
    var rest := HighDigits(amount, from);
    HighDigitsTwice(amount, from, 1);
    if rest != 0 {
      assert HighDigits(rest, 1) == rest / 10;
      PlacesIncrease(amount, from + 1);
      var later := Places(amount, from + 1);
      forall i | 0 <= i < |later| ensures from < later[i] {
        PlacesAre(amount, from + 1, later[i]);
      }
    }
  }

  lemma {:induction false} ChunksArePlaces(amount: nat, from: nat)
    ensures var chunks, places := Chunks(HighDigits(amount, from), from), Places(amount, from);
            && |chunks| == |places|
            && forall i :: 0 <= i < |chunks| ==> chunks[i] == Chunk(DigitAt(amount, places[i]) * Pow10(places[i]))
    decreases HighDigits(amount, from)
  {
    var rest := HighDigits(amount, from);
    HighDigitsTwice(amount, from, 1);
    if rest != 0 {
      assert HighDigits(rest, 1) == rest / 10;
      ChunksArePlaces(amount, from + 1);
    }
  }

  /** The places are strictly increasing, and they are exactly those from `from` on with a non-zero digit. */
  lemma PlacesAreDigits(amount: nat, from: nat)
    ensures var places := Places(amount, from);
            && (forall i, j :: 0 <= i < j < |places| ==> places[i] < places[j])
            && (forall i :: 0 <= i < |places| ==> 1 <= DigitAt(amount, places[i]) <= 9)
            && (forall k: nat :: k in places <==> from <= k && DigitAt(amount, k) != 0)
  {
    hide Places, DigitAt;
    var places := Places(amount, from);
    PlacesIncrease(amount, from);
    forall k: nat ensures k in places <==> from <= k && DigitAt(amount, k) != 0 {
      PlacesAre(amount, from, k);
    }
    forall i | 0 <= i < |places| ensures 1 <= DigitAt(amount, places[i]) <= 9 {
      assert places[i] in places;
      DigitBelowTen(amount, places[i]);
    }
  }

  lemma DigitBelowTen(amount: nat, k: nat)
    ensures 0 <= DigitAt(amount, k) <= 9
  {
  }

  /** Behind the dust comes one chunk for each place, in the order of the places. */
  lemma ChunksFollowDust(amount: nat, threshold: nat)
    ensures var n := DustLength(amount, threshold);
            var dust, places := DustPart(LowDigits(amount, n)), Places(amount, n);
            && |Decomposition(amount, threshold)| == |dust| + |places|
            && forall i :: 0 <= i < |places| ==>
                 Decomposition(amount, threshold)[|dust| + i] == Chunk(DigitAt(amount, places[i]) * Pow10(places[i]))
  {
    hide Pow10, Places, Chunks, HighDigits, LowDigits, DigitAt, DustLength, DustPart;
    ChunksArePlaces(amount, DustLength(amount, threshold));
  }

  /**
    The chunks are the non-zero digits above the dust, each once and at its own place: the i-th call
    after the dust reports `digit * 10^place`, places strictly increasing, no such digit left out.
   */
  lemma ChunksAreDigits(amount: nat, threshold: nat)
    ensures var n := DustLength(amount, threshold);
            var dust, places := DustPart(LowDigits(amount, n)), Places(amount, n);
            && |Decomposition(amount, threshold)| == |dust| + |places|
            && (forall i :: 0 <= i < |places| ==>
                  && 1 <= DigitAt(amount, places[i]) <= 9
                  && Decomposition(amount, threshold)[|dust| + i]
                     == Chunk(DigitAt(amount, places[i]) * Pow10(places[i])))
            && (forall i, j :: 0 <= i < j < |places| ==> places[i] < places[j])
            && (forall k: nat :: k in places <==> n <= k && DigitAt(amount, k) != 0)
  {
    hide Pow10, Places, LowDigits, DigitAt, DustLength, DustPart, Decomposition;
    ChunksFollowDust(amount, threshold);
    PlacesAreDigits(amount, DustLength(amount, threshold));
  }

  lemma {:induction false} ChunkCount(rest: nat, place: nat)
    ensures |Chunks(rest, place)| <= DigitCount(rest)
    decreases rest
  {
    if rest != 0 { ChunkCount(rest / 10, place + 1); }
  }

  lemma {:induction false} HighDigitCount(amount: nat, n: nat)
    requires n <= DigitCount(amount)
    ensures DigitCount(HighDigits(amount, n)) == DigitCount(amount) - n
    decreases n
  {
    if n > 0 { HighDigitCount(amount / 10, n - 1); }
  }

  lemma TwentyDigits()
    ensures Pow10(19) == 10_000_000_000_000_000_000 && Pow10(20) == 100_000_000_000_000_000_000
  {
    assert Pow10(4) == 10_000;
    assert Pow10(8) == 100_000_000;
    assert Pow10(12) == 1_000_000_000_000;
    assert Pow10(16) == 10_000_000_000_000_000;
  }

  /** A 64-bit amount has at most twenty digits, so there are at most twenty calls. */
  lemma AtMostTwentyCalls(amount: Word64, threshold: nat)
    ensures |Decomposition(amount, threshold)| <= DigitCount(amount) <= 20
  {
    var n := DustLength(amount, threshold);
    ChunkCount(HighDigits(amount, n), n);
    HighDigitCount(amount, n);
    if n == 0 { assert LowDigits(amount, 0) == 0; }
    DigitCountBounds(amount);
    TwentyDigits();
    if DigitCount(amount) > 20 { Pow10Monotone(20, DigitCount(amount) - 1); }
  }

  /** After a twentieth digit `order` no longer holds a power of ten; by then no digit is left to use it. */
  lemma OrderWrapsAfterTwentyDigits()
    ensures DigitCount(0xFFFF_FFFF_FFFF_FFFF) == 20
    ensures Wrap64(Pow10(19) * 10) != Pow10(20)
  {
    TwentyDigits();
    DigitCountBounds(0xFFFF_FFFF_FFFF_FFFF);
    AtMostTwentyCalls(0xFFFF_FFFF_FFFF_FFFF, 0);
    if DigitCount(0xFFFF_FFFF_FFFF_FFFF) < 20 { Pow10Monotone(DigitCount(0xFFFF_FFFF_FFFF_FFFF), 19); }
  }

  /** The example in the source's comment, for every threshold that makes six digits dust. */
  lemma CommentExample(threshold: nat)
    requires 455827 <= threshold < 7455827
    ensures Decomposition(62387455827, threshold)
         == [Dust(455827), Chunk(7000000), Chunk(80000000), Chunk(300000000), Chunk(2000000000), Chunk(60000000000)]
  {
    assert Pow10(6) == 1000000 && Pow10(7) == 10000000;
    assert Cut(62387455827, 6, 62387, 455827) && Cut(62387455827, 7, 6238, 7455827);
    CutIs(62387455827, 6, 62387, 455827);
    CutIs(62387455827, 7, 6238, 7455827);
    assert DigitCount(62387455827) == 11;
    LongestRunIs(62387455827, threshold, 6, 11);
    assert Chunks(62387, 6) == [Chunk(7000000)] + Chunks(6238, 7);
    assert Chunks(6238, 7) == [Chunk(80000000)] + Chunks(623, 8);
    assert Chunks(623, 8) == [Chunk(300000000)] + Chunks(62, 9);
    assert Chunks(62, 9) == [Chunk(2000000000)] + Chunks(6, 10);
    assert Chunks(6, 10) == [Chunk(60000000000)] + Chunks(0, 11);
  }
}
