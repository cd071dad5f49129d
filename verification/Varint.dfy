/** Variable-length integers: unsigned LEB128 with range and minimality checks (varint.h). */
module Varint {
  import opened Bits

  // ---------------------------------------------------------------- writing

  /** The base-128 digits of `v`, least significant first, each but the last with its top bit set. */
  function Encode(v: nat): (r: seq<Byte>)
    ensures |r| > 0
  {
    if v < 0x80 then [v] else [0x80 + v % 0x80] + Encode(v / 0x80)
  }

  lemma LowSevenOfByte(i: nat)
    ensures i % 0x100 % 0x80 == i % 0x80
  {
    var (q, b) := (i / 0x100, i % 0x100);
    assert i == 0x100 * q + b;
    DivUnique(i, 0x80, 2 * q + b / 0x80, b % 0x80);
  }

  lemma MaskSevenBits(i: nat)
    ensures And(Low(i, 8), 0x7f) == i % 0x80
    ensures i < 0x80 ==> Low(i, 8) == i
  {
    hide Bit, Fits, Or, And, Low, Shr, Up, Pow2;
    Pow2Values();
    SplitAt(i, 8);
    LowOnes(Low(i, 8), 7);
    SplitAt(Low(i, 8), 7);
    LowSevenOfByte(i);
  }

  lemma SetTopBit(digit: nat)
    requires digit < 0x80
    ensures Or(digit, 0x80) == 0x80 + digit
  {
    hide Bit, Fits, Or, And, Low, Shr, Up, Pow2;
    Pow2Values();
    FitsIsBelow(digit, 7);
    UpIsTimes(1, 7);
    OrIsPlus(digit, 1, 7);
  }

  /** The source's masks and shift, on the value still to be written. */
  lemma SevenBits(i: nat)
    ensures And(Low(i, 8), 0x7f) == i % 0x80 && Shr(i, 7) == i / 0x80
    ensures i < 0x80 ==> Low(i, 8) == i
    ensures Or(And(Low(i, 8), 0x7f), 0x80) == 0x80 + i % 0x80
  {
    hide Bit, Fits, Or, And, Low, Shr, Up, Pow2;
    MaskSevenBits(i);
    SplitAt(i, 7);
    assert Pow2(7) == 0x80 by { Pow2Values(); }
    SetTopBit(i % 0x80);
  }

  /** `write_varint`, appending to `dest`. */
  method WriteVarint(dest: seq<Byte>, value: nat) returns (dest': seq<Byte>)
    ensures dest' == dest + Encode(value)
  {
    var i := value;
    dest' := dest;
    while i >= 0x80
      invariant dest' + Encode(i) == dest + Encode(value)
    {
      SevenBits(i);
      var digit: Byte := Or(And(Low(i, 8), 0x7f), 0x80);
      assert dest' + Encode(i) == (dest' + [digit]) + Encode(i / 0x80);
      dest' := dest' + [digit];
      i := Shr(i, 7);
    }
    SevenBits(i);
    dest' := dest' + [Low(i, 8)];
  }

  /** `get_varint_data`: the encoding as a string of its own. */
  method GetVarintData(v: nat) returns (s: seq<Byte>)
    ensures s == Encode(v)
  {
    s := WriteVarint([], v);
  }

  // ---------------------------------------------------------------- reading

  datatype Status = Complete | Truncated | Overflow | NotMinimal

  /** How a read ends: why, after how many bytes, and with what in `write`. */
  datatype Outcome = Outcome(status: Status, count: nat, value: nat) {
    predicate Complete() { status.Complete? }

    predicate Failed() { status.Overflow? || status.NotMinimal? }

    /** The `int` that `read_varint` returns. */
    function Code(): int {
      match status
      case Complete => count
      case Truncated => count
      case Overflow => -1
      case NotMinimal => -2
    }
  }

  /**
    Reading a value of at most `bits` bits. The first byte gives seven bits and the rest of the
    stream the others; `first` tells whether this is the first byte, the only one that may be zero.
   */
  function Read(bits: nat, s: seq<Byte>, first: bool): Outcome
    decreases |s|
  {
    if s == [] then Outcome(Truncated, 0, 0)
    else if bits <= 7 && s[0] >= Pow2(bits) then Outcome(Overflow, 1, 0)
    else if s[0] == 0 && !first then Outcome(NotMinimal, 1, 0)
    else if s[0] < 0x80 then Outcome(Status.Complete, 1, s[0])
    else
      TopBitNeedsMoreBits(bits, s[0]);
      var rest := Read(bits - 7, s[1..], false);
      Outcome(rest.status, rest.count + 1, s[0] - 0x80 + 0x80 * rest.value)
  }

  lemma TopBitNeedsMoreBits(bits: nat, byte: nat)
    requires byte >= 0x80 && (bits <= 7 ==> byte < Pow2(bits))
    ensures bits > 7
  {
    if bits <= 7 {
      Pow2Monotone(bits, 7);
      Pow2Values();
    }
  }

  lemma {:induction false} UpSum(x: nat, y: nat, k: nat)
    ensures Up(x + 0x80 * y, k) == Up(x, k) + Up(y, k + 7)
    decreases k
  {
    if k == 0 {
      UpIsTimes(y, 7);
      Pow2Values();
    } else {
      UpSum(x, y, k - 1);
    }
  }

  /** `byte & 0x80` tests the top bit. */
  lemma TopBit(byte: Byte)
    ensures And(byte, 0x80) == 0 <==> byte < 0x80
  {
    hide Bit, Fits, Or, And, Low, Shr, Up, Pow2;
    Pow2Values();
    FitsIsBelow(byte, 8);
    FitsIsBelow(byte, 7);
    FitsAnd(byte, 0x80, 8);
    ZeroWord(8, 0);
    forall i: nat | i < 8 ensures Bit(And(byte, 0x80), i) <==> i == 7 && Bit(byte, 7) {
      AndBit(byte, 0x80, i);
      Pow2Bit(7, i);
    }
    if byte < 0x80 {
      forall i: nat | i < 8 ensures Bit(And(byte, 0x80), i) <==> Bit(0, i) {
        ZeroWord(8, i);
        FitsBit(byte, 7, 7);
      }
      SameBits(And(byte, 0x80), 0, 8);
    } else {
      SeventhBit(byte);
      ZeroWord(8, 7);
    }
  }

  lemma SeventhBit(byte: Byte)
    requires byte >= 0x80
    ensures Bit(byte, 7)
  {
    hide Bit, Fits, Or, And, Low, Shr, Up, Pow2;
    ShrBit(byte, 7, 0);
    SplitAt(byte, 7);
    Pow2Values();
    Pow2Bit(0, 0);
    assert Pow2(0) == 1 by { UpIsTimes(1, 0); UpZero(1); }
  }

  lemma UpZero(x: nat)
    ensures Up(x, 0) == x
  {
  }

  /** The next group lands above the bits already read; neither the shift nor the store loses any of it. */
  lemma AppendGroup(write: nat, byte: Byte, shift: nat, bits: nat, digits: nat)
    requires Fits(write, shift) && shift <= bits <= digits
    requires shift + 7 >= bits ==> byte < Pow2(bits - shift)
    ensures Low(Or(write, Low(Up(And(byte, 0x7f), shift), digits)), digits) == write + Up(byte % 0x80, shift)
    ensures Fits(write + Up(byte % 0x80, shift), shift + 7)
  {
    hide Bit, Fits, Or, And, Low, Shr, Up, Pow2;
    GroupOf(byte);
    if shift + 7 >= bits {
      Pow2Monotone(bits - shift, 7);
      Pow2Values();
      FitsIsBelow(byte, bits - shift);
      PlaceGroup(write, byte, bits - shift, shift, digits);
      FitsMore(write + Up(byte, shift), bits, shift + 7);
    } else {
      PlaceGroup(write, byte % 0x80, 7, shift, digits);
    }
  }

  lemma GroupOf(byte: Byte)
    ensures And(byte, 0x7f) == byte % 0x80 && Fits(And(byte, 0x7f), 7)
  {
    hide Bit, Fits, Or, And, Low, Shr, Up, Pow2;
    Pow2Values();
    LowOnes(byte, 7);
    SplitAt(byte, 7);
    FitsLow(byte, 7);
  }

  lemma PlaceGroup(write: nat, group: nat, size: nat, shift: nat, digits: nat)
    requires Fits(write, shift) && Fits(group, size) && shift + size <= digits
    ensures Low(Or(write, Low(Up(group, shift), digits)), digits) == write + Up(group, shift)
    ensures Fits(write + Up(group, shift), shift + size)
  {
    hide Bit, Fits, Or, And, Low, Shr, Up, Pow2;
    FitsUp(group, shift, size);
    FitsMore(Up(group, shift), size + shift, digits);
    LowIsWhole(Up(group, shift), digits);
    OrIsPlus(write, group, shift);
    FitsMore(write, shift, shift + size);
    FitsOr(write, Up(group, shift), shift + size);
    FitsMore(Or(write, Up(group, shift)), shift + size, digits);
    LowIsWhole(Or(write, Up(group, shift)), digits);
  }

  /** What the whole read gives, once `read` bytes worth `write` are behind and `rest` is still to come. */
  function Continued(read: nat, write: nat, rest: Outcome): Outcome {
    Outcome(rest.status, read + rest.count, write + Up(rest.value, 7 * read))
  }

  /** The variable after one more byte. */
  function Appended(write: nat, byte: Byte, shift: nat, digits: nat): nat {
    Low(Or(write, Low(Up(And(byte, 0x7f), shift), digits)), digits)
  }

  /** What a byte that is not refused does: it ends the value, or leaves the rest of it to the bytes that follow. */
  lemma ReadStep(read: nat, write: nat, bits: nat, digits: nat, rest: seq<Byte>)
    requires var shift := 7 * read;
             rest != [] && Fits(write, shift) && shift <= bits <= digits
             && !(bits - shift <= 7 && rest[0] >= Pow2(bits - shift)) && !(rest[0] == 0 && read != 0)
    ensures var shift := 7 * read;
            var out, write' := Continued(read, write, Read(bits - shift, rest, read == 0)),
                               Appended(write, rest[0], shift, digits);
            && Fits(write', shift + 7)
            && if And(rest[0], 0x80) == 0 then out == Outcome(Status.Complete, read + 1, write')
               else shift + 7 < bits
                    && out == Continued(read + 1, write', Read(bits - shift - 7, rest[1..], false))
  {
    hide Fits, Or, And, Low, Up, Pow2;
    var shift, byte := 7 * read, rest[0];
    AppendGroup(write, byte, shift, bits, digits);
    TopBit(byte);
    if byte >= 0x80 {
      TopBitNeedsMoreBits(bits - shift, byte);
      UpSum(byte - 0x80, Read(bits - shift - 7, rest[1..], false).value, shift);
    }
  }

  lemma NothingReadYet(out: Outcome)
    ensures Continued(0, 0, out) == out && Fits(0, 0)
  {
    UpZero(out.value);
    ZeroWord(0, 0);
  }

  /** The reads that end at once: no byte left, a byte too large, or a zero that continues a value. */
  lemma ReadStops(read: nat, write: nat, bits: nat, rest: seq<Byte>)
    ensures var out := Continued(read, write, Read(bits, rest, read == 0));
            && (rest == [] ==> out == Outcome(Truncated, read, write))
            && (rest != [] && bits <= 7 && rest[0] >= Pow2(bits) ==> out == Outcome(Overflow, read + 1, write))
            && (rest != [] && !(bits <= 7 && rest[0] >= Pow2(bits)) && rest[0] == 0 && read != 0 ==>
                  out == Outcome(NotMinimal, read + 1, write))
  {
    hide Pow2;
    UpIsTimes(0, 7 * read);
  }

  /**
    `read_varint<bits>` into a variable of `digits` bits, from the start of `input`.
    `code` is the returned `int`; `write` and `rest` are the variable and the stream afterwards.
   */
  method ReadVarint(bits: nat, digits: nat, input: seq<Byte>) returns (code: int, write: nat, rest: seq<Byte>)
    requires bits <= digits && 1 <= digits
    ensures var out := Read(bits, input, true);
            && code == out.Code() && write == out.value
            && out.count <= |input| && rest == input[out.count..]
  {
    hide Fits, Or, And, Low, Up, Pow2, Read, Continued;
    ghost var out := Read(bits, input, true);
    var read := 0;
    var shift := 0;
    write := 0;
    rest := input;
    NothingReadYet(out);
    while true
      invariant shift == 7 * read && read <= |input| && rest == input[read..]
      invariant read == 0 || shift < bits
      invariant Fits(write, shift)
      invariant out == Continued(read, write, Read(bits - shift, rest, read == 0))
      decreases |rest|
    {
      ReadStops(read, write, bits - shift, rest);
      if |rest| == 0 {
        return read, write, rest;
      }
      ghost var before, bytes := write, rest;
      var byte := rest[0];
      rest := rest[1..];
      read := read + 1;
      UpIsTimes(1, bits - shift);
      if shift + 7 >= bits && byte >= Up(1, bits - shift) {
        return -1, write, rest;
      }
      if byte == 0 && shift != 0 {
        return -2, write, rest;
      }
      assert shift < digits;
      ReadStep(read - 1, before, bits, digits, bytes);
      write := Low(Or(write, Low(Up(And(byte, 0x7f), shift), digits)), digits);
      if And(byte, 0x80) == 0 {
        break;
      }
      shift := shift + 7;
    }
    return read, write, rest;
  }

  // ---------------------------------------------------------------- what a complete read is

  /** Every in-range value reads back from its encoding, whatever follows. */
  lemma {:induction false} ReadOfEncoding(bits: nat, v: nat, suffix: seq<Byte>, first: bool)
    requires v < Pow2(bits) && (first || v != 0)
    ensures Read(bits, Encode(v) + suffix, first) == Outcome(Status.Complete, |Encode(v)|, v)
    decreases v
  {
    var s := Encode(v) + suffix;
    if v >= 0x80 {
      assert bits > 7 by {
        if bits <= 7 {
          Pow2Monotone(bits, 7);
          Pow2Values();
        }
      }
      Pow2NextSeven(bits - 7);
      ReadOfEncoding(bits - 7, v / 0x80, suffix, false);
      assert s[1..] == Encode(v / 0x80) + suffix;
    }
  }

  lemma SevenBitsFit(bits: nat, v: nat)
    requires v < 0x80 && 7 <= bits
    ensures v < Pow2(bits)
  {
    Pow2Monotone(7, bits);
    assert Pow2(7) == 0x80;
  }

  /** A complete read has consumed exactly the encoding of its in-range result. */
  lemma {:induction false} CompleteIsEncoding(bits: nat, s: seq<Byte>, first: bool)
    requires Read(bits, s, first).Complete()
    ensures var out := Read(bits, s, first);
            && out.value < Pow2(bits) && (first || out.value != 0)
            && out.count <= |s| && s[..out.count] == Encode(out.value)
    decreases |s|
  {
    hide Pow2;
    if s[0] < 0x80 {
      if bits > 7 { SevenBitsFit(bits, s[0]); }
      assert s[..1] == [s[0]];
    } else {
      TopBitNeedsMoreBits(bits, s[0]);
      CompleteIsEncoding(bits - 7, s[1..], false);
      Pow2NextSeven(bits - 7);
      var n := Read(bits - 7, s[1..], false).count;
      FirstThenRest(s, n);
    }
  }

  lemma FirstThenRest<T>(s: seq<T>, n: nat)
    requires n < |s|
    ensures s[..n + 1] == [s[0]] + s[1..][..n]
  {
  }

  /** How a caller can tell: the count is positive and the last byte consumed has its top bit clear. */
  lemma {:induction false} CompleteIsVisible(bits: nat, s: seq<Byte>, first: bool)
    ensures var out := Read(bits, s, first);
            && out.count <= |s|
            && (out.Complete() <==> out.Code() > 0 && s[out.Code() - 1] < 0x80)
    decreases |s|
  {
    if s == [] || (bits <= 7 && s[0] >= Pow2(bits)) || (s[0] == 0 && !first) || s[0] < 0x80 {
    } else {
      TopBitNeedsMoreBits(bits, s[0]);
      CompleteIsVisible(bits - 7, s[1..], false);
    }
  }

  ghost predicate StartsWithEncoding(bits: nat, s: seq<Byte>) {
    exists v: nat :: v < Pow2(bits) && Encode(v) <= s
  }

  ghost predicate InsideEncoding(bits: nat, s: seq<Byte>) {
    exists v: nat :: v < Pow2(bits) && s < Encode(v)
  }

  /** A read completes exactly on the streams that start with the encoding of an in-range value. */
  lemma CompleteIff(bits: nat, s: seq<Byte>)
    ensures Read(bits, s, true).Complete() <==> StartsWithEncoding(bits, s)
  {
    if Read(bits, s, true).Complete() {
      CompleteIsEncoding(bits, s, true);
      assert Encode(Read(bits, s, true).value) <= s;
    }
    if v: nat :| v < Pow2(bits) && Encode(v) <= s {
      assert s == Encode(v) + s[|Encode(v)|..];
      ReadOfEncoding(bits, v, s[|Encode(v)|..], true);
    }
  }

  /** A value whose encoding continues a truncated read. */
  lemma {:induction false} Completion(bits: nat, s: seq<Byte>, first: bool) returns (v: nat)
    requires Read(bits, s, first).status == Truncated && (first || bits > 0)
    ensures v < Pow2(bits) && s < Encode(v) && (first || v != 0)
    decreases |s|
  {
    if s == [] {
      v := if first then 0 else 1;
      Pow2Monotone(if first then 0 else 1, bits);
    } else {
      TopBitNeedsMoreBits(bits, s[0]);
      var high := Completion(bits - 7, s[1..], false);
      Pow2NextSeven(bits - 7);
      v := s[0] - 0x80 + 0x80 * high;
      assert Encode(v) == [s[0]] + Encode(high);
      assert s == [s[0]] + s[1..];
    }
  }

  lemma {:induction false} InsideIsTruncated(bits: nat, s: seq<Byte>, v: nat, first: bool)
    requires v < Pow2(bits) && s < Encode(v) && (first || v != 0)
    ensures Read(bits, s, first).status == Truncated
    ensures Read(bits, s, first).count == |s|
    decreases |s|
  {
    if s != [] {
      assert s[0] == Encode(v)[0];
      assert v >= 0x80;
      assert bits > 7 by {
        if bits <= 7 {
          Pow2Monotone(bits, 7);
          Pow2Values();
        }
      }
      Pow2NextSeven(bits - 7);
      assert s[1..] < Encode(v / 0x80) by {
        assert Encode(v)[1..] == Encode(v / 0x80);
      }
      InsideIsTruncated(bits - 7, s[1..], v / 0x80, false);
    }
  }

  /** A read runs out of input exactly on the streams that stop inside the encoding of an in-range value. */
  lemma TruncatedIff(bits: nat, s: seq<Byte>)
    ensures Read(bits, s, true).status == Truncated <==> InsideEncoding(bits, s)
  {
    if Read(bits, s, true).status == Truncated {
      var v := Completion(bits, s, true);
    }
    if v: nat :| v < Pow2(bits) && s < Encode(v) {
      InsideIsTruncated(bits, s, v, true);
    }
  }

  /** Up to the byte that is refused, the stream is still inside the encoding of an in-range value. */
  lemma {:induction false} ErrorPrefix(bits: nat, s: seq<Byte>, first: bool)
    requires Read(bits, s, first).Failed()
    ensures var n := Read(bits, s, first).count;
            && 0 < n <= |s|
            && Read(bits, s[..n - 1], first).status == Truncated
            && Read(bits, s[..n], first) == Read(bits, s, first)
            && (Read(bits, s, first).status == NotMinimal <==> s[n - 1] == 0 && (n > 1 || !first))
    decreases |s|
  {
    var n := Read(bits, s, first).count;
    if n > 1 {
      TopBitNeedsMoreBits(bits, s[0]);
      ErrorPrefix(bits - 7, s[1..], false);
      assert s[..n - 1][1..] == s[1..][..n - 2];
      assert s[..n][1..] == s[1..][..n - 1];
    } else if s[0] >= 0x80 && !(bits <= 7 && s[0] >= Pow2(bits)) {
      TopBitNeedsMoreBits(bits, s[0]);
      ErrorPrefix(bits - 7, s[1..], false);
    }
  }

  /**
    The byte that makes a read fail is the first after which no in-range encoding fits; the error is
    `EVARINT_REPRESENT` if that byte is a zero continuing a value, and `EVARINT_OVERFLOW` otherwise.
   */
  lemma FailureBlame(bits: nat, s: seq<Byte>)
    requires Read(bits, s, true).Failed()
    ensures var n := Read(bits, s, true).count;
            && 0 < n <= |s|
            && InsideEncoding(bits, s[..n - 1])
            && !InsideEncoding(bits, s[..n]) && !StartsWithEncoding(bits, s[..n])
            && Read(bits, s, true).Code() == (if s[n - 1] == 0 && n > 1 then -2 else -1)
  {
    var n := Read(bits, s, true).count;
    ErrorPrefix(bits, s, true);
    TruncatedIff(bits, s[..n - 1]);
    TruncatedIff(bits, s[..n]);
    CompleteIff(bits, s[..n]);
  }

  /** No read takes more than `max(1, ceil(bits / 7))` bytes, and what it leaves in `write` is in range. */
  lemma {:induction false} ReadBound(bits: nat, s: seq<Byte>, first: bool)
    ensures Read(bits, s, first).count <= (if bits == 0 then 1 else (bits + 6) / 7)
    ensures Read(bits, s, first).value < Pow2(bits)
    decreases |s|
  {
    var out := Read(bits, s, first);
    if s == [] || (bits <= 7 && s[0] >= Pow2(bits)) || (s[0] == 0 && !first) {
    } else if s[0] < 0x80 {
      if bits > 7 { SevenBitsFit(bits, s[0]); }
    } else {
      TopBitNeedsMoreBits(bits, s[0]);
      ReadBound(bits - 7, s[1..], false);
      Pow2NextSeven(bits - 7);
    }
  }

  // ---------------------------------------------------------------- the digits

  /** `v` without its lowest `n` digits in base 128. */
  function DropDigits(v: nat, n: nat): nat {
    if n == 0 then v else DropDigits(v / 0x80, n - 1)
  }

  /**
    Byte `i` of an encoding is digit `i` of the value, lowest first, with the top bit set in all bytes but
    the last; the last digit is not zero unless the value is.
   */
  lemma {:induction false} EncodeDigits(v: nat, i: nat)
    requires i < |Encode(v)|
    ensures Encode(v)[i] == DropDigits(v, i) % 0x80 + if i < |Encode(v)| - 1 then 0x80 else 0
    ensures i == |Encode(v)| - 1 ==> DropDigits(v, i) < 0x80 && (v != 0 ==> DropDigits(v, i) != 0)
    decreases i
  {
    if v >= 0x80 && i > 0 { EncodeDigits(v / 0x80, i - 1); }
  }

  /** The low seven bits of all bytes, the first byte lowest. */
  function Groups(s: seq<Byte>): nat {
    if s == [] then 0 else s[0] % 0x80 + 0x80 * Groups(s[1..])
  }

  /**
    What is in the variable after a read, however it ends: the groups of all bytes that were not refused.
    A read that runs out of input returns how many bytes there were.
   */
  lemma {:induction false} WhatIsWritten(bits: nat, s: seq<Byte>, first: bool)
    ensures var out := Read(bits, s, first);
            var accepted := if out.Failed() then out.count - 1 else out.count;
            && 0 <= accepted <= |s| && out.value == Groups(s[..accepted])
            && (out.status == Truncated ==> out.Code() == |s|)
    decreases |s|
  {
    hide Pow2;
    var out := Read(bits, s, first);
    if s == [] || (bits <= 7 && s[0] >= Pow2(bits)) || (s[0] == 0 && !first) {
    } else if s[0] < 0x80 {
      assert s[..1] == [s[0]] && Groups([s[0]]) == s[0] + 0x80 * Groups([]);
    } else {
      TopBitNeedsMoreBits(bits, s[0]);
      WhatIsWritten(bits - 7, s[1..], false);
      var rest := Read(bits - 7, s[1..], false);
      var n := if rest.Failed() then rest.count - 1 else rest.count;
      FirstThenRest(s, n);
      assert s[..n + 1][0] == s[0] && s[..n + 1][1..] == s[1..][..n];
    }
  }

  // ---------------------------------------------------------------- uniqueness and lists

  /** No encoding starts another: complete encodings are prefix-free, and so unique. */
  lemma PrefixFree(v: nat, w: nat)
    ensures Encode(v) <= Encode(w) <==> v == w
  {
    var bits := v + w;
    BelowPow2(v, bits);
    BelowPow2(w, bits);
    if Encode(v) <= Encode(w) {
      assert Encode(w) == Encode(v) + Encode(w)[|Encode(v)|..];
      ReadOfEncoding(bits, v, Encode(w)[|Encode(v)|..], true);
      assert Encode(w) + [] == Encode(w);
      ReadOfEncoding(bits, w, [], true);
    }
  }

  lemma {:induction false} BelowPow2(v: nat, n: nat)
    requires v <= n
    ensures v < Pow2(n)
    decreases n
  {
    if n > 0 { BelowPow2(if v > 0 then v - 1 else 0, n - 1); }
  }

  function EncodeAll(vs: seq<nat>): seq<Byte> {
    if vs == [] then [] else Encode(vs[0]) + EncodeAll(vs[1..])
  }

  function EncodedLengths(vs: seq<nat>): seq<nat> {
    if vs == [] then [] else [|Encode(vs[0])|] + EncodedLengths(vs[1..])
  }

  /** `n` reads one after the other from `stream`: the values, the returned counts and what is left. */
  method ReadAll(bits: nat, digits: nat, n: nat, stream: seq<Byte>, ghost vs: seq<nat>, ghost suffix: seq<Byte>)
    returns (values: seq<nat>, codes: seq<int>, rest: seq<Byte>)
    requires bits <= digits && 1 <= digits
    requires n == |vs| && forall i :: 0 <= i < n ==> vs[i] < Pow2(bits)
    requires stream == EncodeAll(vs) + suffix
    ensures values == vs && codes == EncodedLengths(vs) && rest == suffix
  {
    values, codes, rest := [], [], stream;
    for i := 0 to n
      invariant values == vs[..i] && rest == EncodeAll(vs[i..]) + suffix
      invariant codes + EncodedLengths(vs[i..]) == EncodedLengths(vs)
    {
      ghost var tail := EncodeAll(vs[i + 1..]) + suffix;
      assert vs[i..][1..] == vs[i + 1..];
      assert rest == Encode(vs[i]) + tail;
      ReadOfEncoding(bits, vs[i], tail, true);
      var code, value;
      code, value, rest := ReadVarint(bits, digits, rest);
      assert EncodedLengths(vs[i..]) == [code] + EncodedLengths(vs[i + 1..]);
      values := values + [value];
      codes := codes + [code];
      assert codes + EncodedLengths(vs[i + 1..]) == EncodedLengths(vs);
    }
    assert vs[n..] == [];
  }

  /**
    The byte strings of the header comment (0x8002 and 0xff02) read as 0x100 and 0x17f, not as the
    0x200 and 0x027f it gives: the first byte holds the lowest seven bits.
   */
  lemma CommentExamples()
    ensures Encode(0x100) == [0x80, 0x02] && Encode(0x17f) == [0xff, 0x02]
    ensures Read(64, [0x80, 0x02], true) == Outcome(Status.Complete, 2, 0x100)
    ensures Read(64, [0xff, 0x02], true) == Outcome(Status.Complete, 2, 0x17f)
  {
    assert Encode(0x100) == [0x80] + Encode(0x02) == [0x80, 0x02];
    assert Encode(0x17f) == [0xff] + Encode(0x02) == [0xff, 0x02];
    hide Pow2, Read, Encode;
    assert Pow2(64) > 0x17f by { Pow2Values(); }
    ReadOfEncoding(64, 0x100, [], true);
    ReadOfEncoding(64, 0x17f, [], true);
    assert [0x80, 0x02] + [] == [0x80, 0x02] && [0xff, 0x02] + [] == [0xff, 0x02];
  }
}
