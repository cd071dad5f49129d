/** The portable little-endian conversion between words and bytes (skein_port.h). */
module Skein {
  import opened Bits
  import opened IntUtil

  /** The number whose base-256 digits are `bytes`, least significant first. */
  function LsbFirst(bytes: seq<nat>): nat {
    if bytes == [] then 0 else bytes[0] + 0x100 * LsbFirst(bytes[1..])
  }

  /** The lowest `n` bytes of `x`. */
  function BytesOf(x: nat, n: nat): (r: seq<Byte>)
    ensures |r| == n
    ensures forall k :: 0 <= k < n ==> r[k] == ByteAt(x, k)
  {
    seq(n, k requires 0 <= k < n => ByteAt(x, k) as Byte)
  }

  function Bytes(words: seq<Word64>): (r: seq<Byte>)
    ensures |r| == 8 * |words|
  {
    if words == [] then [] else BytesOf(words[0], 8) + Bytes(words[1..])
  }

  function Words(bytes: seq<Byte>): (r: seq<Word64>)
    requires |bytes| % 8 == 0
    ensures |r| == |bytes| / 8
  {
    if bytes == [] then [] else
      LsbFirstBound(bytes[..8]);
      Pow2Values();
      [LsbFirst(bytes[..8])] + Words(bytes[8..])
  }

  lemma {:induction false} BytesAt(words: seq<Word64>, i: nat, k: nat)
    requires i < |words| && k < 8
    ensures Bytes(words)[8 * i + k] == ByteAt(words[i], k)
    decreases i
  {
    hide ByteAt;
    if 0 < i { BytesAt(words[1..], i - 1, k); }
  }

  lemma SliceOfSlice<T>(s: seq<T>, a: nat, b: nat, c: nat)
    requires b <= c && a + c <= |s|
    ensures s[a..][b..c] == s[a + b..a + c]
  {
  }

  lemma {:induction false} WordsAt(bytes: seq<Byte>, i: nat)
    requires |bytes| % 8 == 0 && 8 * i < |bytes|
    ensures 8 * i + 8 <= |bytes| && Words(bytes)[i] == LsbFirst(bytes[8 * i..8 * i + 8])
    decreases i
  {
    hide LsbFirst;
    if 0 < i {
      var rest, j := bytes[8..], 8 * (i - 1);
      WordsAt(rest, i - 1);
      SliceOfSlice(bytes, 8, j, j + 8);
    }
  }

  lemma {:induction false} LsbFirstBound(bytes: seq<Byte>)
    ensures LsbFirst(bytes) < Pow2(8 * |bytes|)
    decreases |bytes|
  {
    if bytes != [] {
      LsbFirstBound(bytes[1..]);
      Pow2NextByte(8 * |bytes[1..]|);
    }
  }

  // ---------------------------------------------------------------- one word

  lemma NextByte(x: nat, k: nat)
    ensures ByteAt(x, k + 1) == ByteAt(Shr(x, 8), k)
  {
    hide ByteAt, Shr;
    FirstByte(x);
    ByteAtIs(x, k);
  }

  lemma FirstByte(x: nat)
    ensures x == ByteAt(x, 0) + 0x100 * Shr(x, 8)
    ensures ByteAt(x, 0) == x % 0x100 && Shr(x, 8) == x / 0x100
  {
    SplitAt(x, 8);
    Pow2Values();
  }

  /** Putting a word together from its bytes gives it back. */
  lemma {:induction false} LsbFirstOfBytes(x: nat, n: nat)
    requires x < Pow2(8 * n)
    ensures LsbFirst(BytesOf(x, n)) == x
    decreases n
  {
    if n > 0 {
      FirstByte(x);
      Pow2NextByte(8 * (n - 1));
      LsbFirstOfBytes(Shr(x, 8), n - 1);
      assert BytesOf(x, n)[1..] == BytesOf(Shr(x, 8), n - 1) by {
        forall k | 0 <= k < n - 1 ensures ByteAt(x, k + 1) == ByteAt(Shr(x, 8), k) {
          NextByte(x, k);
        }
      }
    }
  }

  /** The bytes of a word put together are those it was made of. */
  lemma {:induction false} ByteOfLsbFirst(bytes: seq<Byte>, k: nat)
    requires k < |bytes|
    ensures ByteAt(LsbFirst(bytes), k) == bytes[k]
    decreases k
  {
    var x := LsbFirst(bytes);
    FirstByte(x);
    assert Shr(x, 8) == LsbFirst(bytes[1..]);
    if k > 0 {
      NextByte(x, k - 1);
      ByteOfLsbFirst(bytes[1..], k - 1);
    }
  }

  // ---------------------------------------------------------------- the loops

  /** The eight shifted bytes that the source adds up, on 64-bit words. */
  function SumOfShifts(b: seq<Byte>): Word64
    requires |b| == 8
  {
    Wrap64(Shl(64, b[0], 0) + Shl(64, b[1], 8) + Shl(64, b[2], 16) + Shl(64, b[3], 24) +
           Shl(64, b[4], 32) + Shl(64, b[5], 40) + Shl(64, b[6], 48) + Shl(64, b[7], 56))
  }

  lemma ShiftedByte(b: Byte, k: nat)
    requires k <= 56
    ensures Shl(64, b, k) == b * Pow2(k)
  {
    hide Low, Up, Fits;
    Pow2Values();
    FitsIsBelow(b, 8);
    FitsUp(b, k, 8);
    FitsMore(Up(b, k), 8 + k, 64);
    LowIsWhole(Up(b, k), 64);
    UpIsTimes(b, k);
  }

  lemma PowersOfBytes()
    ensures Pow2(0) == 1 && Pow2(8) == 0x100 && Pow2(16) == 0x1_0000 && Pow2(24) == 0x100_0000
    ensures Pow2(32) == 0x1_0000_0000 && Pow2(40) == 0x100_0000_0000
    ensures Pow2(48) == 0x1_0000_0000_0000 && Pow2(56) == 0x100_0000_0000_0000
  {
    Pow2NextByte(0);
    Pow2NextByte(8);
    Pow2NextByte(16);
    Pow2NextByte(24);
    Pow2NextByte(32);
    Pow2NextByte(40);
    Pow2NextByte(48);
  }

  lemma EightDigits(b: seq<nat>)
    requires |b| == 8
    ensures LsbFirst(b) == b[0] + 0x100 * b[1] + 0x1_0000 * b[2] + 0x100_0000 * b[3]
      + 0x1_0000_0000 * b[4] + 0x100_0000_0000 * b[5] + 0x1_0000_0000_0000 * b[6] + 0x100_0000_0000_0000 * b[7]
  {
    assert LsbFirst(b[7..]) == b[7] + 0x100 * LsbFirst([]) by { assert b[7..][1..] == []; }
    assert b[6..][1..] == b[7..] && b[5..][1..] == b[6..] && b[4..][1..] == b[5..] && b[3..][1..] == b[4..];
    assert b[2..][1..] == b[3..] && b[1..][1..] == b[2..] && b[0..] == b;
    assert LsbFirst(b[6..]) == b[6] + 0x100 * LsbFirst(b[7..]);
    assert LsbFirst(b[5..]) == b[5] + 0x100 * LsbFirst(b[6..]);
    assert LsbFirst(b[4..]) == b[4] + 0x100 * LsbFirst(b[5..]);
    assert LsbFirst(b[3..]) == b[3] + 0x100 * LsbFirst(b[4..]);
    assert LsbFirst(b[2..]) == b[2] + 0x100 * LsbFirst(b[3..]);
    assert LsbFirst(b[1..]) == b[1] + 0x100 * LsbFirst(b[2..]);
  }

  /** No shift loses bits and the sum never wraps. */
  lemma SumIsLsbFirst(b: seq<Byte>)
    requires |b| == 8
    ensures SumOfShifts(b) == LsbFirst(b)
  {
    hide Low, Up, Shl, Pow2;
    PowersOfBytes();
    ShiftedByte(b[0], 0);
    ShiftedByte(b[1], 8);
    ShiftedByte(b[2], 16);
    ShiftedByte(b[3], 24);
    ShiftedByte(b[4], 32);
    ShiftedByte(b[5], 40);
    ShiftedByte(b[6], 48);
    ShiftedByte(b[7], 56);
    EightDigits(b);
  }

  method Put64LsbFirst(dst: array<Byte>, src: array<Word64>, bCnt: nat)
    requires bCnt <= dst.Length && bCnt <= 8 * src.Length
    modifies dst
    ensures dst[..] == Bytes(src[..])[..bCnt] + old(dst[bCnt..])
  {
    for n := 0 to bCnt
      invariant dst[bCnt..] == old(dst[bCnt..])
      invariant dst[..n] == Bytes(src[..])[..n]
    {
      BytesAt(src[..], n / 8, n % 8);
      dst[n] := ByteAt(src[n / 8], n % 8);
    }
    assert dst[..] == dst[..bCnt] + dst[bCnt..];
  }

  method Get64LsbFirst(dst: array<Word64>, src: array<Byte>, wCnt: nat)
    requires wCnt <= dst.Length && 8 * wCnt <= src.Length
    modifies dst
    ensures dst[..] == Words(src[..8 * wCnt]) + old(dst[wCnt..])
  {
    hide SumOfShifts, LsbFirst;
    ghost var bytes := src[..8 * wCnt];
    var n := 0;
    ghost var i := 0;
    while n < 8 * wCnt
      invariant n == 8 * i && i <= wCnt
      invariant dst[wCnt..] == old(dst[wCnt..])
      invariant dst[..i] == Words(bytes)[..i]
    {
      assert n / 8 == i;
      var b := src[n..n + 8];
      WordsAt(bytes, i);
      assert bytes[8 * i..8 * i + 8] == b;
      SumIsLsbFirst(b);
      dst[n / 8] := SumOfShifts(b);
      n := n + 8;
      i := i + 1;
    }
    assert dst[..] == dst[..wCnt] + dst[wCnt..];
  }

  // ---------------------------------------------------------------- round trips

  /** Get undoes put, for arrays of every length. */
  lemma {:induction false} GetAfterPut(words: seq<Word64>)
    ensures Words(Bytes(words)) == words
    decreases |words|
  {
    if words != [] {
      GetAfterPut(words[1..]);
      Pow2Values();
      LsbFirstOfBytes(words[0], 8);
      assert Bytes(words)[..8] == BytesOf(words[0], 8);
      assert Bytes(words)[8..] == Bytes(words[1..]);
    }
  }

  /** Put undoes get, for every whole number of words. */
  lemma {:induction false} PutAfterGet(bytes: seq<Byte>)
    requires |bytes| % 8 == 0
    ensures Bytes(Words(bytes)) == bytes
    decreases |bytes|
  {
    if bytes != [] {
      PutAfterGet(bytes[8..]);
      var head := bytes[..8];
      forall k: nat | k < 8 ensures BytesOf(LsbFirst(head), 8)[k] == head[k] {
        ByteOfLsbFirst(head, k);
      }
      assert BytesOf(LsbFirst(head), 8) == head;
      assert Words(bytes)[1..] == Words(bytes[8..]);
    }
  }

  lemma MirroredBlock(words: seq<Word64>, swapped: seq<Word64>, i: nat, k: nat)
    requires i < |words| == |swapped| && k < 8
    requires ByteAt(swapped[i], k) == ByteAt(words[i], 7 - k)
    ensures Bytes(swapped)[8 * i + k] == Bytes(words)[8 * i + (7 - k)]
  {
    hide *;
    BytesAt(swapped, i, k);
    BytesAt(words, i, 7 - k);
  }

  /** Putting swapped words gives the bytes with each block of eight reversed. */
  lemma PutAfterSwap(words: seq<Word64>, i: nat, k: nat)
    requires i < |words| && k < 8
    ensures Bytes(Swapped64(words))[8 * i + k] == Bytes(words)[8 * i + (7 - k)]
  {
    hide *;
    Swap64ReversesBytes(words[i], k);
    MirroredBlock(words, Swapped64(words), i, k);
  }

  /** The least significant byte comes first. */
  lemma LeastSignificantFirst()
    ensures Bytes([0x0807_0605_0403_0201]) == [0x01, 0x02, 0x03, 0x04, 0x05, 0x06, 0x07, 0x08]
    ensures Words([0x01, 0x02, 0x03, 0x04, 0x05, 0x06, 0x07, 0x08]) == [0x0807_0605_0403_0201]
  {
    var b: seq<Byte> := [0x01, 0x02, 0x03, 0x04, 0x05, 0x06, 0x07, 0x08];
    EightDigits(b);
    assert LsbFirst(b) == 0x0807_0605_0403_0201;
    assert b[..8] == b && b[8..] == [];
    assert Words(b) == [LsbFirst(b)] + Words([]);
    PutAfterGet(b);
  }
}
