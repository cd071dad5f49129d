/** The binary archive (serialization/binary_archive.h) and how it holds a string (serialization/string.h). */
module BinaryArchives {
  import opened Bits
  import Varint

  type Bytes = seq<Byte>

  /** What loading gives: a value and what is left of the stream, or `false`. */
  datatype Load<+T> = Loaded(value: T, rest: Bytes) | Failed

  const SIZES: nat := 0x1_0000_0000_0000_0000

  /** A `size_t` as `serialize_uvarint` reads it: whatever `read_varint` has put into it, be the read good or bad. */
  function ReadSize(s: Bytes): (r: (nat, Bytes))
    ensures r.0 < SIZES && |r.1| <= |s|
  {
    var out := Varint.Read(64, s, true);
    Varint.CompleteIsVisible(64, s, true);
    Varint.ReadBound(64, s, true);
    Pow2Values();
    (out.value, s[out.count..])
  }

  /** The read of the size was a good one: a positive count, and a last byte with its top bit clear. */
  predicate SizeComplete(s: Bytes) {
    Varint.Read(64, s, true).Complete()
  }

  lemma SizeRoundTrip(n: nat, rest: Bytes)
    requires n < 0x1_0000_0000_0000_0000
    ensures ReadSize(Varint.Encode(n) + rest) == (n, rest) && SizeComplete(Varint.Encode(n) + rest)
  {
    Pow2Values();
    Varint.ReadOfEncoding(64, n, rest, true);
    assert (Varint.Encode(n) + rest)[|Varint.Encode(n)|..] == rest;
  }

  /** A size is written as it was read exactly if the read was a good one. */
  lemma SizeIsCanonical(s: Bytes)
    ensures Varint.Encode(ReadSize(s).0) + ReadSize(s).1 == s <==> SizeComplete(s)
  {
    var (n, rest) := ReadSize(s);
    if SizeComplete(s) {
      Varint.CompleteIsEncoding(64, s, true);
    }
    if Varint.Encode(n) + rest == s {
      SizeRoundTrip(n, rest);
    }
  }

  /** `len` bytes as they are. */
  function ReadBlob(s: Bytes, len: nat): (r: Load<Bytes>)
    ensures r.Loaded? ==> |r.value| == len && r.value + r.rest == s
  {
    if |s| < len then Failed else Loaded(s[..len], s[len..])
  }

  function WriteString(str: Bytes): Bytes {
    Varint.Encode(|str|) + str
  }

  function ReadString(s: Bytes): (r: Load<Bytes>)
    ensures r.Loaded? ==> |r.value| + |r.rest| <= |s| && |r.value| < SIZES
  {
    var (size, t) := ReadSize(s);
    if |t| < size then Failed else Loaded(t[..size], t[size..])
  }

  lemma StringRoundTrip(str: Bytes, rest: Bytes)
    requires |str| < SIZES
    ensures ReadString(WriteString(str) + rest) == Loaded(str, rest) && SizeComplete(WriteString(str) + rest)
  {
    SizeRoundTrip(|str|, str + rest);
    assert WriteString(str) + rest == Varint.Encode(|str|) + (str + rest);
  }

  /** A short string is one byte for its size and then its bytes; any string has its size, as a varint, in front. */
  lemma StringLayout(str: Bytes)
    ensures WriteString(str) == Varint.Encode(|str|) + str
    ensures |str| < 0x80 ==> WriteString(str) == [|str|] + str
  {
  }

  /**
    A string loads exactly if behind its size there are at least as many bytes as the size says, whether
    the size was read without an error or not; and it is these bytes.
   */
  lemma StringNeedsBytes(s: Bytes)
    ensures var out := Varint.Read(64, s, true);
            && out.count <= |s|
            && (ReadString(s).Loaded? <==> out.value <= |s| - out.count)
            && (ReadString(s).Loaded? ==>
                  ReadString(s) == Loaded(s[out.count..out.count + out.value], s[out.count + out.value..]))
  {
    hide Varint.Read, ReadSize;
    SizeIs(s);
    var out := Varint.Read(64, s, true);
    if out.value <= |s| - out.count { SliceOfRest(s, out.count, out.value); }
  }

  /** The size is what is in the variable after the read, and the stream stands where the read stopped. */
  lemma SizeIs(s: Bytes)
    ensures var out := Varint.Read(64, s, true);
            out.count <= |s| && ReadSize(s).0 == out.value && ReadSize(s).1 == s[out.count..]
  {
    hide Varint.Read;
    Varint.CompleteIsVisible(64, s, true);
  }

  lemma SliceOfRest(s: Bytes, n: nat, size: nat)
    requires n + size <= |s|
    ensures s[n..][..size] == s[n..n + size] && s[n..][size..] == s[n + size..]
  {
  }

  /** A string that loads is written as it was read exactly if the read of its size was a good one. */
  lemma StringIsCanonical(s: Bytes)
    requires ReadString(s).Loaded?
    ensures WriteString(ReadString(s).value) + ReadString(s).rest == s <==> SizeComplete(s)
  {
    var (size, t) := ReadSize(s);
    var r := ReadString(s);
    assert r.value + r.rest == t;
    assert WriteString(r.value) + r.rest == Varint.Encode(size) + t;
    SizeIsCanonical(s);
  }

  class InStream {
    var left: Bytes

    constructor (bytes: Bytes)
      ensures left == bytes
    {
      left := bytes;
    }

    /** `serialize_uvarint`: the count that `read_varint` returns is thrown away. */
    method SerializeUvarint() returns (v: nat)
      modifies this
      ensures (v, left) == ReadSize(old(left))
    {
      var code;
      code, v, left := Varint.ReadVarint(64, 64, left);
    }

    /** `serialize_blob`, which leaves the stream bad if it is too short. */
    method SerializeBlob(len: nat) returns (r: Load<Bytes>)
      modifies this
      ensures r == ReadBlob(old(left), len) && (r.Loaded? ==> left == r.rest)
    {
      if |left| < len { return Failed; }
      r := Loaded(left[..len], left[len..]);
      left := left[len..];
    }

    method SerializeString() returns (r: Load<Bytes>)
      modifies this
      ensures r == ReadString(old(left)) && (r.Loaded? ==> left == r.rest)
    {
      var size := SerializeUvarint();
      if |left| < size { return Failed; }
      r := SerializeBlob(size);
    }
  }

  class OutStream {
    var written: Bytes

    constructor ()
      ensures written == []
    {
      written := [];
    }

    method SerializeUvarint(v: nat)
      modifies this
      ensures written == old(written) + Varint.Encode(v)
    {
      written := Varint.WriteVarint(written, v);
    }

    method SerializeBlob(bytes: Bytes)
      modifies this
      ensures written == old(written) + bytes
    {
      written := written + bytes;
    }

    method SerializeString(str: Bytes)
      modifies this
      ensures written == old(written) + WriteString(str)
    {
      SerializeUvarint(|str|);
      SerializeBlob(str);
    }
  }
}
