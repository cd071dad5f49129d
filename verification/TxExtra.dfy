/** The fields in the extra part of a transaction: padding and the four others (tx_extra.h). */
module TxExtra {
  import opened Bits
  import opened BinaryArchives
  import Varint

  const PADDING_MAX_COUNT: nat := 255

  // ---------------------------------------------------------------- padding

  /** How many zero bytes `s` starts with. */
  function ZeroRun(s: Bytes): (n: nat)
    ensures n <= |s|
    ensures forall i :: 0 <= i < n ==> s[i] == 0
    ensures n < |s| ==> s[n] != 0
  {
    if s == [] || s[0] != 0 then 0 else 1 + ZeroRun(s[1..])
  }

  function Zeros(n: nat): (s: Bytes)
    ensures |s| == n && forall i :: 0 <= i < n ==> s[i] == 0
  {
    seq(n, i => 0)
  }

  /** What the loader makes of a stream: whether it succeeds, the size it leaves behind, and what it has not read. */
  datatype Loading = Loading(ok: bool, size: nat, rest: Bytes)

  /** By the length of the run of zero bytes: ended by the stream, by another byte, or by the limit. */
  function PaddingLoad(s: Bytes): Loading {
    var zeros := ZeroRun(s);
    if zeros >= PADDING_MAX_COUNT then Loading(false, PADDING_MAX_COUNT + 1, s[PADDING_MAX_COUNT..])
    else if zeros == |s| then Loading(true, zeros + 1, [])
    else Loading(false, zeros + 1, s[zeros + 1..])
  }

  datatype Option<+T> = Some(value: T) | None

  /** What storing writes, unless it refuses. */
  function PaddingStore(size: nat): Option<Bytes> {
    if PADDING_MAX_COUNT < size then None else Some(Zeros(if size == 0 then 0 else size - 1))
  }

  lemma {:induction false} ZeroRunSkip(s: Bytes, i: nat)
    requires i <= ZeroRun(s)
    ensures ZeroRun(s[i..]) == ZeroRun(s) - i
    decreases i
  {
    if i == 0 {
      assert s[0..] == s;
    } else {
      ZeroRunSkip(s[1..], i - 1);
      assert s[1..][i - 1..] == s[i..];
    }
  }

  class TxExtraPadding {
    var size: nat

    /** The loop counter is the field itself; `peek` sees the end of the stream without leaving a mark on it. */
    method Load(ar: InStream) returns (ok: bool)
      modifies this`size, ar
      ensures Loading(ok, size, ar.left) == PaddingLoad(old(ar.left))
    {
      ghost var s := ar.left;
      size := 1;
      assert s[0..] == s;
      while size <= PADDING_MAX_COUNT
        invariant 1 <= size <= PADDING_MAX_COUNT + 1
        invariant size - 1 <= ZeroRun(s) && ar.left == s[size - 1..]
        decreases PADDING_MAX_COUNT + 1 - size
      {
        ZeroRunSkip(s, size - 1);
        var eof := ar.left == [];
        if eof { break; }
        var zero := ar.left[0];
        ar.left := ar.left[1..];
        if 0 != zero { return false; }
        size := size + 1;
      }
      return size <= PADDING_MAX_COUNT;
    }

    method Store(ar: OutStream) returns (ok: bool)
      modifies ar
      ensures ok == PaddingStore(size).Some?
      ensures ar.written == if ok then old(ar.written) + PaddingStore(size).value else old(ar.written)
    {
      if PADDING_MAX_COUNT < size { return false; }
      var i := 1;
      while i < size
        invariant 1 <= i && (i <= size || i == 1)
        invariant ar.written == old(ar.written) + Zeros(i - 1)
      {
        ar.written := ar.written + [0];
        assert Zeros(i) == Zeros(i - 1) + [0];
        i := i + 1;
      }
      return true;
    }
  }

  /** Loading succeeds exactly on nothing but zeros up to the end of the stream, fewer than 255 of them. */
  lemma LoadsIff(s: Bytes)
    ensures PaddingLoad(s).ok <==> |s| < 255 && forall i :: 0 <= i < |s| ==> s[i] == 0
    ensures PaddingLoad(s).ok ==> PaddingLoad(s).size == |s| + 1 && PaddingLoad(s).rest == []
    ensures !PaddingLoad(s).ok ==> PaddingLoad(s).size == 256 || s[PaddingLoad(s).size - 1] != 0
  {
  }

  /** A size is stored and loaded again as itself if and only if it is from 1 to 255; 0 comes back as 1. */
  lemma ReloadsIff(size: nat)
    ensures PaddingStore(size).Some? && PaddingLoad(PaddingStore(size).value) == Loading(true, size, [])
       <==> 1 <= size <= 255
    ensures PaddingLoad(PaddingStore(0).value) == Loading(true, 1, [])
  {
    if size <= 255 { LoadsIff(PaddingStore(size).value); }
    LoadsIff(PaddingStore(0).value);
  }

  /** What loads is what storing its size writes: the form is unique. */
  lemma LoadedIsStored(s: Bytes)
    requires PaddingLoad(s).ok
    ensures PaddingStore(PaddingLoad(s).size) == Some(s)
  {
    LoadsIff(s);
    assert s == Zeros(|s|);
  }

  /** Padding has to be the last field: followed by anything, it loads only by taking all of it in. */
  lemma PaddingIsLast(size: nat, rest: Bytes)
    requires 1 <= size <= 255
    ensures var r := PaddingLoad(PaddingStore(size).value + rest);
            (r.ok <==> size + |rest| <= 255 && rest == Zeros(|rest|)) && (r.ok ==> r.size == size + |rest|)
  {
    var zeros := PaddingStore(size).value;
    var s := zeros + rest;
    LoadsIff(s);
    assert forall i :: 0 <= i < |rest| ==> rest[i] == s[|zeros| + i];
  }

  // ---------------------------------------------------------------- one field

  /** The alternatives of `tx_extra_field`. */
  datatype Field =
    | Padding(size: nat)
    | PubKey(pubKey: Bytes)
    | Nonce(nonce: Bytes)
    | MergeMiningTag(depth: nat, merkleRoot: Bytes)
    | MysteriousMinergate(data: Bytes)
  {
    /** What the C++ types hold: 32 bytes in a key or hash, 64 bits in a size. */
    predicate Proper() {
      match this
      case Padding(size) => size < SIZES
      case PubKey(pubKey) => |pubKey| == 32
      case Nonce(nonce) => |nonce| < SIZES
      case MergeMiningTag(depth, merkleRoot) => depth < SIZES && |merkleRoot| == 32
      case MysteriousMinergate(data) => |data| < SIZES
    }
  }

  const NONCE_MAX_COUNT: nat := 255

  const TAG_PADDING: Byte := 0x00
  const TAG_PUBKEY: Byte := 0x01
  const TAG_NONCE: Byte := 0x02
  const TAG_MERGE_MINING: Byte := 0x03
  const TAG_MYSTERIOUS_MINERGATE: Byte := 0xDE

  /** What storing a field adds to the stream, and whether it succeeds; bytes are there even if it does not. */
  datatype Storing = Storing(ok: bool, bytes: Bytes)

  function WriteField(f: Field): Storing {
    match f
    case Padding(size) =>
      if PaddingStore(size).Some? then Storing(true, [TAG_PADDING] + PaddingStore(size).value)
      else Storing(false, [TAG_PADDING])
    case PubKey(pubKey) => Storing(true, [TAG_PUBKEY] + pubKey)
    case Nonce(nonce) => Storing(|nonce| <= NONCE_MAX_COUNT, [TAG_NONCE] + WriteString(nonce))
    case MergeMiningTag(depth, merkleRoot) =>
      Storing(true, [TAG_MERGE_MINING] + WriteString(Varint.Encode(depth) + merkleRoot))
    case MysteriousMinergate(data) => Storing(true, [TAG_MYSTERIOUS_MINERGATE] + WriteString(data))
  }

  /** The merge mining tag is a string that has to hold a depth and a root and nothing else. */
  function ReadMergeMiningTag(field: Bytes): Load<Field> {
    var (depth, t) := ReadSize(field);
    match ReadBlob(t, 32)
    case Failed => Failed
    case Loaded(root, left) => if left == [] then Loaded(MergeMiningTag(depth, root), []) else Failed
  }

  function ReadField(s: Bytes): (r: Load<Field>)
    requires s != []
    ensures r.Loaded? ==> |r.rest| < |s|
  {
    var body := s[1..];
    if s[0] == TAG_PADDING then
      var p := PaddingLoad(body);
      if p.ok then Loaded(Padding(p.size), p.rest) else Failed
    else if s[0] == TAG_PUBKEY then
      match ReadBlob(body, 32)
      case Failed => Failed
      case Loaded(pubKey, rest) => Loaded(PubKey(pubKey), rest)
    else if s[0] == TAG_NONCE then
      match ReadString(body)
      case Failed => Failed
      case Loaded(nonce, rest) => if NONCE_MAX_COUNT < |nonce| then Failed else Loaded(Nonce(nonce), rest)
    else if s[0] == TAG_MERGE_MINING then
      match ReadString(body)
      case Failed => Failed
      case Loaded(field, rest) =>
        match ReadMergeMiningTag(field)
        case Failed => Failed
        case Loaded(tag, _) => Loaded(tag, rest)
    else if s[0] == TAG_MYSTERIOUS_MINERGATE then
      match ReadString(body)
      case Failed => Failed
      case Loaded(data, rest) => Loaded(MysteriousMinergate(data), rest)
    else Failed
  }

  lemma MergeMiningTagRoundTrip(depth: nat, root: Bytes)
    requires depth < SIZES && |root| == 32
    ensures ReadMergeMiningTag(Varint.Encode(depth) + root) == Loaded(MergeMiningTag(depth, root), [])
  {
    SizeRoundTrip(depth, root);
    assert root[..32] == root && root[32..] == [];
  }

  lemma SmallString(depth: nat, root: Bytes)
    requires depth < SIZES && |root| == 32
    ensures |Varint.Encode(depth) + root| < SIZES
  {
    Pow2Values();
    Varint.ReadOfEncoding(64, depth, [], true);
    Varint.ReadBound(64, Varint.Encode(depth) + [], true);
    Pow2Values();
  }

  /**
    Every field that can be stored is loaded again as it was, whatever follows it in the stream; only
    padding needs a size above 0 and the end of the stream behind it.
   */
  lemma FieldRoundTrip(f: Field, rest: Bytes)
    requires f.Proper() && WriteField(f).ok
    ensures ReadField(WriteField(f).bytes + rest) == Loaded(f, rest) <==>
            (f.Padding? ==> f.size > 0 && rest == [])
  {
    hide ReadString, WriteString, ReadMergeMiningTag, PaddingLoad;
    var s := WriteField(f).bytes + rest;
    match f {
      case Padding(size) =>
        assert s[1..] == PaddingStore(size).value + rest;
        PaddingThenRest(size, rest);
      case PubKey(pubKey) =>
        assert s[1..] == pubKey + rest;
      case Nonce(nonce) =>
        assert s[1..] == WriteString(nonce) + rest;
        StringRoundTrip(nonce, rest);
      case MergeMiningTag(depth, root) =>
        assert s[1..] == WriteString(Varint.Encode(depth) + root) + rest;
        SmallString(depth, root);
        StringRoundTrip(Varint.Encode(depth) + root, rest);
        MergeMiningTagRoundTrip(depth, root);
      case MysteriousMinergate(data) =>
        assert s[1..] == WriteString(data) + rest;
        StringRoundTrip(data, rest);
    }
  }

  lemma PaddingThenRest(size: nat, rest: Bytes)
    requires size <= PADDING_MAX_COUNT
    ensures PaddingLoad(PaddingStore(size).value + rest) == Loading(true, size, rest) <==> size > 0 && rest == []
  {
    LoadsIff(PaddingStore(size).value + rest);
    assert PaddingStore(size).value + [] == PaddingStore(size).value;
  }

  /** Every size on the way was read without an error. */
  predicate SizesComplete(s: Bytes)
    requires s != []
  {
    var body := s[1..];
    if s[0] == TAG_NONCE || s[0] == TAG_MYSTERIOUS_MINERGATE then SizeComplete(body)
    else if s[0] == TAG_MERGE_MINING then
      SizeComplete(body) && ReadString(body).Loaded? && SizeComplete(ReadString(body).value)
    else true
  }

  lemma TaggedString(s: Bytes, str: Bytes, rest: Bytes)
    requires s != []
    ensures [s[0]] + WriteString(str) + rest == s <==> WriteString(str) + rest == s[1..]
  {
    var t := [s[0]] + WriteString(str) + rest;
    assert t == [s[0]] + (WriteString(str) + rest);
    assert s == [s[0]] + s[1..];
    assert t[1..] == WriteString(str) + rest;
  }

  lemma MergeMiningTagIsCanonical(s: Bytes)
    requires s != [] && s[0] == TAG_MERGE_MINING && ReadField(s).Loaded?
    ensures var r := ReadField(s); var w := WriteField(r.value);
            r.value.Proper() && w.ok && (w.bytes + r.rest == s <==> SizesComplete(s))
  {
    hide ReadString, WriteString, PaddingLoad, SizeComplete;
    var body, r := s[1..], ReadField(s);
    var field := ReadString(body).value;
    var depth, root := r.value.depth, r.value.merkleRoot;
    var image := Varint.Encode(depth) + root;
    SizeIsCanonical(field);
    assert image == field <==> SizeComplete(field);
    StringIsCanonical(body);
    TaggedString(s, image, r.rest);
    if WriteString(image) + r.rest == body {
      SmallString(depth, root);
      StringRoundTrip(image, r.rest);
      assert image == field;
    }
  }

  lemma StringFieldIsCanonical(s: Bytes)
    requires s != [] && (s[0] == TAG_NONCE || s[0] == TAG_MYSTERIOUS_MINERGATE) && ReadField(s).Loaded?
    ensures var r := ReadField(s); var w := WriteField(r.value);
            r.value.Proper() && w.ok && (w.bytes + r.rest == s <==> SizesComplete(s))
  {
    hide ReadString, WriteString, PaddingLoad, SizeComplete, ReadSize;
    StringIsCanonical(s[1..]);
    TaggedString(s, ReadString(s[1..]).value, ReadField(s).rest);
  }

  lemma FixedFieldIsCanonical(s: Bytes)
    requires s != [] && (s[0] == TAG_PADDING || s[0] == TAG_PUBKEY) && ReadField(s).Loaded?
    ensures var r := ReadField(s); var w := WriteField(r.value);
            r.value.Proper() && w.ok && w.bytes + r.rest == s
  {
    hide PaddingLoad, PaddingStore;
    var body := s[1..];
    assert s == [s[0]] + body;
    if s[0] == TAG_PADDING {
      PaddingIsCanonical(body);
    }
  }

  lemma PaddingIsCanonical(s: Bytes)
    requires PaddingLoad(s).ok
    ensures PaddingStore(PaddingLoad(s).size) == Some(s) && PaddingLoad(s).rest == [] && PaddingLoad(s).size < SIZES
  {
    LoadsIff(s);
    LoadedIsStored(s);
    Pow2Values();
  }

  /**
    A field that loads is stored as the bytes it came from if and only if its sizes were read without
    an error: the archive does not look at what `read_varint` returns.
   */
  lemma LoadedFieldIsCanonical(s: Bytes)
    requires s != [] && ReadField(s).Loaded?
    ensures var r := ReadField(s); var w := WriteField(r.value);
            r.value.Proper() && w.ok && (w.bytes + r.rest == s <==> SizesComplete(s))
  {
    hide ReadString, WriteString, PaddingLoad, SizeComplete, ReadSize, WriteField;
    if s[0] == TAG_PADDING || s[0] == TAG_PUBKEY {
      FixedFieldIsCanonical(s);
    } else if s[0] == TAG_MERGE_MINING {
      MergeMiningTagIsCanonical(s);
    } else {
      StringFieldIsCanonical(s);
    }
  }

  /** A size that breaks the rule of minimal form is taken for what has been read of it, here 0. */
  lemma SloppySize()
    ensures ReadField([TAG_NONCE, 0x80, 0x00]) == Loaded(Nonce([]), [])
    ensures WriteField(Nonce([])) == Storing(true, [TAG_NONCE, 0x00])
  {
    Pow2Values();
    var s: Bytes := [0x80, 0x00];
    assert s[1..] == [0x00];
    assert Varint.Read(57, [0x00], false) == Varint.Outcome(Varint.NotMinimal, 1, 0);
    assert [TAG_NONCE, 0x80, 0x00][1..] == s;
  }

  // ---------------------------------------------------------------- the bytes of a field

  /** The bytes that a field is stored as, and when it is refused: by the tag of its alternative and its parts. */
  lemma FieldLayout(f: Field)
    ensures match f
            case Padding(size) =>
              WriteField(f) == Storing(size <= 255, [0x00] + if 1 <= size <= 255 then Zeros(size - 1) else [])
            case PubKey(pubKey) => WriteField(f) == Storing(true, [0x01] + pubKey)
            case Nonce(nonce) => WriteField(f) == Storing(|nonce| <= 255, [0x02] + Varint.Encode(|nonce|) + nonce)
            case MergeMiningTag(depth, root) =>
              var inner := Varint.Encode(depth) + root;
              WriteField(f) == Storing(true, [0x03] + Varint.Encode(|inner|) + inner)
            case MysteriousMinergate(data) =>
              WriteField(f) == Storing(true, [0xDE] + Varint.Encode(|data|) + data)
  {
    hide Varint.Encode;
    if f.Padding? {
      assert Zeros(0) == [];
    } else if f.MergeMiningTag? {
      var inner := Varint.Encode(f.depth) + f.merkleRoot;
      assert [0x03] + (Varint.Encode(|inner|) + inner) == [0x03] + Varint.Encode(|inner|) + inner;
    } else if f.Nonce? {
      assert [0x02] + (Varint.Encode(|f.nonce|) + f.nonce) == [0x02] + Varint.Encode(|f.nonce|) + f.nonce;
    } else if f.MysteriousMinergate? {
      assert [0xDE] + (Varint.Encode(|f.data|) + f.data) == [0xDE] + Varint.Encode(|f.data|) + f.data;
    }
  }

  /** The byte that stands in front of each alternative. */
  lemma FirstByteIsTag(f: Field)
    ensures WriteField(f).bytes != []
    ensures var tag := WriteField(f).bytes[0];
            && (f.Padding? <==> tag == 0x00) && (f.PubKey? <==> tag == 0x01) && (f.Nonce? <==> tag == 0x02)
            && (f.MergeMiningTag? <==> tag == 0x03) && (f.MysteriousMinergate? <==> tag == 0xDE)
  {
    hide PaddingStore, WriteString;
  }

  lemma RootIsAll(field: Bytes)
    ensures var (depth, root) := ReadSize(field);
            ReadMergeMiningTag(field) == if |root| == 32 then Loaded(MergeMiningTag(depth, root), []) else Failed
  {
    hide ReadSize;
    var (depth, root) := ReadSize(field);
    if |root| == 32 { assert root[..32] == root; }
  }

  /**
    What a field loads from: the first byte fixes the alternative, and any other first byte fails; a key
    is the next 32 bytes, a nonce a string of at most 255 bytes, and padding all that is left.
   */
  lemma LoadsByTag(s: Bytes)
    requires s != []
    ensures var r := ReadField(s);
            && (s[0] == 0x00 ==> r == if PaddingLoad(s[1..]).ok then Loaded(Padding(|s|), []) else Failed)
            && (s[0] == 0x01 ==> r == if |s| <= 32 then Failed else Loaded(PubKey(s[1..33]), s[33..]))
            && (s[0] == 0x02 ==>
                  && (r.Loaded? <==> ReadString(s[1..]).Loaded? && |ReadString(s[1..]).value| <= 255)
                  && (r.Loaded? ==> r == Loaded(Nonce(ReadString(s[1..]).value), ReadString(s[1..]).rest)))
            && (s[0] == 0x03 ==>
                  var field := ReadString(s[1..]);
                  && (r.Loaded? <==> field.Loaded? && |ReadSize(field.value).1| == 32)
                  && (r.Loaded? ==>
                        r == Loaded(MergeMiningTag(ReadSize(field.value).0, ReadSize(field.value).1), field.rest)))
            && (s[0] == 0xDE ==>
                  && (r.Loaded? <==> ReadString(s[1..]).Loaded?)
                  && (r.Loaded? ==>
                        r == Loaded(MysteriousMinergate(ReadString(s[1..]).value), ReadString(s[1..]).rest)))
            && (s[0] !in [0x00, 0x01, 0x02, 0x03, 0xDE] ==> r == Failed)
  {
    hide PaddingLoad, ReadString, ReadSize;
    LoadsIff(s[1..]);
    if s[0] == 0x03 && ReadString(s[1..]).Loaded? { RootIsAll(ReadString(s[1..]).value); }
    if |s| > 32 {
      assert s[1..][..32] == s[1..33] && s[1..][32..] == s[33..];
    }
  }

  // ---------------------------------------------------------------- several fields

  function WriteFields(fields: seq<Field>): Bytes {
    if fields == [] then [] else WriteField(fields[0]).bytes + WriteFields(fields[1..])
  }

  /** Loading field after field until the stream ends. */
  function ReadFields(s: Bytes): Load<seq<Field>>
    decreases |s|
  {
    if s == [] then Loaded([], [])
    else
      match ReadField(s)
      case Failed => Failed
      case Loaded(f, rest) =>
        match ReadFields(rest)
        case Failed => Failed
        case Loaded(fs, end) => Loaded([f] + fs, end)
  }

  /** Padding, if any, is last and has a size above 0. */
  predicate PaddingLast(fields: seq<Field>) {
    forall i :: 0 <= i < |fields| && fields[i].Padding? ==> i == |fields| - 1 && fields[i].size > 0
  }

  /** A list of fields that can be stored, with padding only at its end, is loaded again as it was. */
  lemma {:induction false} FieldsRoundTrip(fields: seq<Field>)
    requires forall i :: 0 <= i < |fields| ==> fields[i].Proper() && WriteField(fields[i]).ok
    requires PaddingLast(fields)
    ensures ReadFields(WriteFields(fields)) == Loaded(fields, [])
    decreases |fields|
  {
    hide WriteField, ReadField;
    if fields != [] {
      var rest := WriteFields(fields[1..]);
      FieldRoundTrip(fields[0], rest);
      NotEmpty(fields[0]);
      FieldsRoundTrip(fields[1..]);
      assert fields == [fields[0]] + fields[1..];
    }
  }

  /** Every size on the way through all fields was read without an error. */
  predicate AllSizesComplete(s: Bytes)
    decreases |s|
  {
    s == [] || (SizesComplete(s) && (ReadField(s).Loaded? ==> AllSizesComplete(ReadField(s).rest)))
  }

  lemma PaddingTakesAll(s: Bytes)
    requires s != [] && ReadField(s).Loaded? && ReadField(s).value.Padding?
    ensures ReadField(s).value.size > 0 && ReadField(s).rest == []
  {
    hide ReadString, ReadSize, ReadBlob, PaddingLoad;
    LoadsIff(s[1..]);
  }

  /** The first field is read off the bytes of all of them, so these start with what it came from. */
  lemma FirstOfWritten(s: Bytes, more: Bytes)
    requires s != [] && ReadField(s).Loaded? && WriteField(ReadField(s).value).bytes + more == s
    requires ReadField(s).value.Padding? ==> more == []
    ensures ReadField(s).rest == more
  {
    LoadedFieldIsCanonical(s);
    if ReadField(s).value.Padding? { PaddingTakesAll(s); }
    hide ReadField, WriteField, SizesComplete;
    FieldRoundTrip(ReadField(s).value, more);
  }

  /**
    Fields that load are stored as the bytes they came from if and only if every size was read without
    an error.
   */
  lemma {:induction false} LoadedFieldsAreCanonical(s: Bytes)
    requires ReadFields(s).Loaded?
    ensures WriteFields(ReadFields(s).value) == s <==> AllSizesComplete(s)
    decreases |s|
  {
    hide ReadField, WriteField, SizesComplete;
    if s != [] {
      var f, rest := ReadField(s).value, ReadField(s).rest;
      var fields := ReadFields(rest).value;
      assert ReadFields(s).value == [f] + fields;
      assert ([f] + fields)[1..] == fields;
      assert WriteFields([f] + fields) == WriteField(f).bytes + WriteFields(fields);
      LoadedFieldIsCanonical(s);
      LoadedFieldsAreCanonical(rest);
      if f.Padding? { PaddingTakesAll(s); }
      if WriteField(f).bytes + WriteFields(fields) == s {
        FirstOfWritten(s, WriteFields(fields));
      }
    }
  }

  lemma NotEmpty(f: Field)
    ensures WriteField(f).bytes != []
  {
  }

  // ---------------------------------------------------------------- the archive's own way

  /**
    The value that the reader of a `tx_extra_field` assigns, found by its tag. `stray` is what the source's
    uninitialised tag variable happens to hold: at the end of a stream the tag cannot be read, and the
    source goes on with that and with a stream that is no longer good. Only the padding loader, which sees
    the end of the stream, then succeeds.
   */
  method LoadField(ar: InStream, stray: Byte) returns (r: Load<Field>)
    modifies ar
    ensures old(ar.left) != [] ==> r == ReadField(old(ar.left))
    ensures old(ar.left) == [] ==> r == if stray == 0x00 then Loaded(Padding(1), []) else Failed
    ensures r.Loaded? ==> ar.left == r.rest
  {
    hide ReadString, ReadMergeMiningTag, PaddingLoad;
    var t, good := stray, ar.left != [];
    AtEnd();
    if good {
      t := ar.left[0];
      ar.left := ar.left[1..];
    }
    if t == TAG_PADDING {
      var x := new TxExtraPadding;
      var ok := x.Load(ar);
      if !ok { return Failed; }
      return Loaded(Padding(x.size), ar.left);
    } else if t == TAG_PUBKEY {
      var b := ar.SerializeBlob(32);
      if b.Failed? || !good { return Failed; }
      return Loaded(PubKey(b.value), ar.left);
    } else if t == TAG_NONCE {
      var b := ar.SerializeString();
      if b.Failed? || !good || NONCE_MAX_COUNT < |b.value| { return Failed; }
      return Loaded(Nonce(b.value), ar.left);
    } else if t == TAG_MERGE_MINING {
      var b := ar.SerializeString();
      if b.Failed? { return Failed; }
      var tag := LoadMergeMiningTag(b.value);
      if tag.Failed? { return Failed; }
      return Loaded(tag.value, ar.left);
    } else if t == TAG_MYSTERIOUS_MINERGATE {
      var b := ar.SerializeString();
      if b.Failed? || !good { return Failed; }
      return Loaded(MysteriousMinergate(b.value), ar.left);
    }
    return Failed;
  }

  /** What the loaders of parts make of an empty stream. */
  lemma AtEnd()
    ensures PaddingLoad([]) == Loading(true, 1, [])
    ensures ReadString([]) == Loaded([], []) && ReadMergeMiningTag([]) == Failed
  {
    LoadsIff([]);
  }

  /** From a stream of its own, which has to end behind the root. */
  method LoadMergeMiningTag(field: Bytes) returns (r: Load<Field>)
    ensures r == ReadMergeMiningTag(field)
  {
    var iar := new InStream(field);
    var depth := iar.SerializeUvarint();
    var root := iar.SerializeBlob(32);
    if root.Failed? || iar.left != [] { return Failed; }
    return Loaded(MergeMiningTag(depth, root.value), []);
  }

  method StoreField(ar: OutStream, f: Field) returns (ok: bool)
    modifies ar
    ensures ok == WriteField(f).ok && ar.written == old(ar.written) + WriteField(f).bytes
  {
    hide WriteString;
    match f {
      case Padding(size) =>
        ar.written := ar.written + [TAG_PADDING];
        var x := new TxExtraPadding;
        x.size := size;
        ok := x.Store(ar);
      case PubKey(pubKey) =>
        ar.written := ar.written + [TAG_PUBKEY];
        ar.SerializeBlob(pubKey);
        ok := true;
      case Nonce(nonce) =>
        ar.written := ar.written + [TAG_NONCE];
        ar.SerializeString(nonce);
        ok := !(NONCE_MAX_COUNT < |nonce|);
      case MergeMiningTag(depth, merkleRoot) =>
        ar.written := ar.written + [TAG_MERGE_MINING];
        var oar := new OutStream();
        oar.SerializeUvarint(depth);
        oar.SerializeBlob(merkleRoot);
        assert oar.written == Varint.Encode(depth) + merkleRoot;
        ar.SerializeString(oar.written);
        ok := true;
      case MysteriousMinergate(data) =>
        ar.written := ar.written + [TAG_MYSTERIOUS_MINERGATE];
        ar.SerializeString(data);
        ok := true;
    }
  }

  // ---------------------------------------------------------------- fields of one kind

  datatype Kind = IsPadding | IsPubKey | IsNonce | IsMergeMiningTag | IsMysteriousMinergate

  function KindOf(f: Field): Kind {
    match f
    case Padding(_) => IsPadding
    case PubKey(_) => IsPubKey
    case Nonce(_) => IsNonce
    case MergeMiningTag(_, _) => IsMergeMiningTag
    case MysteriousMinergate(_) => IsMysteriousMinergate
  }

  /** `typeid(T) == f.type()`, said by the alternatives. */
  predicate HasType(f: Field, kind: Kind) {
    || (f.Padding? && kind == IsPadding) || (f.PubKey? && kind == IsPubKey) || (f.Nonce? && kind == IsNonce)
    || (f.MergeMiningTag? && kind == IsMergeMiningTag) || (f.MysteriousMinergate? && kind == IsMysteriousMinergate)
  }

  /** The places in front of `end` that hold a field of the kind. */
  ghost function Before(fields: seq<Field>, kind: Kind, end: nat): set<nat> {
    set i: nat | i < end && i < |fields| && HasType(fields[i], kind)
  }

  /**
    `find_tx_extra_field_by_type`: the field of that kind which has `index` others in front of it. The
    source counts `index` down in the predicate that it hands to `find_if`, and only where the kind is right.
   */
  method FindTxExtraFieldByType(fields: seq<Field>, kind: Kind, index: nat) returns (field: Option<Field>)
    ensures field.Some? ==> HasType(field.value, kind)
    ensures field.Some? ==>
              exists i: nat :: i < |fields| && fields[i] == field.value && |Before(fields, kind, i)| == index
    ensures field.None? <==> |Before(fields, kind, |fields|)| <= index
  {
    hide Before;
    var left, it := index, 0;
    NoneBefore(fields, kind);
    while it < |fields|
      invariant it <= |fields| && |Before(fields, kind, it)| == index - left
    {
      OneMoreBefore(fields, kind, it);
      if KindOf(fields[it]) == kind {
        if left == 0 {
          MoreBefore(fields, kind, it + 1);
          return Some(fields[it]);
        }
        left := left - 1;
      }
      it := it + 1;
    }
    return None;
  }

  lemma NoneBefore(fields: seq<Field>, kind: Kind)
    ensures |Before(fields, kind, 0)| == 0
  {
    assert Before(fields, kind, 0) == {};
  }

  lemma OneMoreBefore(fields: seq<Field>, kind: Kind, it: nat)
    requires it < |fields|
    ensures |Before(fields, kind, it + 1)| == |Before(fields, kind, it)| + if KindOf(fields[it]) == kind then 1 else 0
  {
    assert HasType(fields[it], kind) <==> KindOf(fields[it]) == kind;
    if KindOf(fields[it]) == kind {
      assert Before(fields, kind, it + 1) == Before(fields, kind, it) + {it};
    } else {
      assert Before(fields, kind, it + 1) == Before(fields, kind, it);
    }
  }

  lemma {:induction false} MoreBefore(fields: seq<Field>, kind: Kind, it: nat)
    requires it <= |fields|
    ensures |Before(fields, kind, it)| <= |Before(fields, kind, |fields|)|
    decreases |fields| - it
  {
    hide Before;
    if it < |fields| {
      OneMoreBefore(fields, kind, it);
      MoreBefore(fields, kind, it + 1);
    }
  }
}
