/** Saving and loading of unordered containers (unordered_containers_boost_serialization.h). */
module Archives {
  import opened Bits
  import opened BinaryArchives
  import opened Sequences
  import Varint

  /**
    How an archive writes and reads one kind of value. `E` is the value in memory, which for a container
    includes the order in which it is visited; `meaning` forgets that order. `ok` holds of the values
    that can be written. Reading fails where the archive throws.
   */
  datatype Codec<!E, !A> = Codec(ok: E -> bool, enc: E -> Bytes, meaning: E -> A, dec: Bytes -> Load<A>)

  /** Reading what was written gives the same value and leaves what follows it. */
  ghost predicate Lawful<E(!new), A>(c: Codec<E, A>) {
    forall e: E, rest: Bytes {:trigger c.dec(c.enc(e) + rest)} ::
      c.ok(e) ==> c.dec(c.enc(e) + rest) == Loaded(c.meaning(e), rest)
  }

  /** A value without an order of its own. */
  ghost predicate Plain<T(!new)>(c: Codec<T, T>) {
    Lawful(c) && forall e: T :: c.meaning(e) == e
  }

  /** An archive's way with `size_t`. */
  ghost predicate Sizes(c: Codec<nat, nat>) {
    Plain(c) && forall n: nat :: n < SIZES ==> c.ok(n)
  }

  /** A key followed by a value, each on its own. */
  function PairCodec<K, E, A>(key: Codec<K, K>, val: Codec<E, A>): Codec<(K, E), (K, A)> {
    Codec(
      (p: (K, E)) => key.ok(p.0) && val.ok(p.1),
      (p: (K, E)) => key.enc(p.0) + val.enc(p.1),
      (p: (K, E)) => (key.meaning(p.0), val.meaning(p.1)),
      (s: Bytes) =>
        match key.dec(s)
        case Failed => Failed
        case Loaded(k, s') =>
          match val.dec(s')
          case Failed => Failed
          case Loaded(v, rest) => Loaded((k, v), rest))
  }

  lemma PairLawful<K(!new), E(!new), A>(key: Codec<K, K>, val: Codec<E, A>)
    requires Lawful(key) && Lawful(val)
    ensures Lawful(PairCodec(key, val))
  {
    var c := PairCodec(key, val);
    forall p: (K, E), rest: Bytes | c.ok(p) ensures c.dec(c.enc(p) + rest) == Loaded(c.meaning(p), rest) {
      assert c.enc(p) + rest == key.enc(p.0) + (val.enc(p.1) + rest);
      assert key.dec(key.enc(p.0) + (val.enc(p.1) + rest)).Loaded?;
      assert val.dec(val.enc(p.1) + rest).Loaded?;
    }
  }

  // ---------------------------------------------------------------- an archive that obeys the laws

  /** Sizes as varints; reading fails where `read_varint` does not complete. */
  function VarintCodec(): Codec<nat, nat> {
    Codec(
      (n: nat) => n < SIZES,
      (n: nat) => Varint.Encode(n),
      (n: nat) => n,
      (s: Bytes) => if SizeComplete(s) then Loaded(ReadSize(s).0, ReadSize(s).1) else Failed)
  }

  /** Keys and hashes as their 32 bytes. */
  function HashCodec(): Codec<Bytes, Bytes> {
    Codec((h: Bytes) => |h| == 32, (h: Bytes) => h, (h: Bytes) => h, (s: Bytes) => ReadBlob(s, 32))
  }

  /** What the theorems ask of an archive can be had: for sizes, and for the keys and hashes of the pool. */
  lemma LawsCanBeMet()
    ensures Sizes(VarintCodec()) && Plain(HashCodec())
  {
    var size, hash := VarintCodec(), HashCodec();
    forall n: nat, rest: Bytes | size.ok(n) ensures size.dec(size.enc(n) + rest) == Loaded(size.meaning(n), rest) {
      SizeRoundTrip(n, rest);
    }
    forall h: Bytes, rest: Bytes | hash.ok(h) ensures hash.dec(hash.enc(h) + rest) == Loaded(hash.meaning(h), rest) {
      assert (h + rest)[..32] == h && (h + rest)[32..] == rest;
    }
  }

  // ---------------------------------------------------------------- the loops

  function EncodeAll<E, A>(c: Codec<E, A>, list: seq<E>): Bytes {
    if list == [] then [] else c.enc(list[0]) + EncodeAll(c, list[1..])
  }

  function Meanings<E, A>(c: Codec<E, A>, list: seq<E>): (r: seq<A>)
    ensures |r| == |list|
    ensures forall i :: 0 <= i < |r| ==> r[i] == c.meaning(list[i])
  {
    if list == [] then [] else [c.meaning(list[0])] + Meanings(c, list[1..])
  }

  /** The items a reading loop gets before it has all of them or the archive throws. */
  datatype Items<+A> = Items(items: seq<A>, complete: bool, rest: Bytes)

  function DecodeAll<E, A>(c: Codec<E, A>, s: Bytes, n: nat): Items<A>
    decreases n
  {
    if n == 0 then Items([], true, s)
    else
      match c.dec(s)
      case Failed => Items([], false, s)
      case Loaded(a, s') =>
        var r := DecodeAll(c, s', n - 1);
        Items([a] + r.items, r.complete, r.rest)
  }

  /** A container's image: the number of its items, then the items in the order of the visit. */
  function Image<E, A>(size: Codec<nat, nat>, c: Codec<E, A>, list: seq<E>): Bytes {
    size.enc(|list|) + EncodeAll(c, list)
  }

  function ReadImage<E, A>(size: Codec<nat, nat>, c: Codec<E, A>, s: Bytes): Items<A> {
    match size.dec(s)
    case Failed => Items([], false, s)
    case Loaded(n, s') => DecodeAll(c, s', n)
  }

  predicate Storable<E, A>(c: Codec<E, A>, list: seq<E>) {
    |list| < SIZES && forall i :: 0 <= i < |list| ==> c.ok(list[i])
  }

  lemma {:induction false} DecodeEncoded<E(!new), A>(c: Codec<E, A>, list: seq<E>, rest: Bytes)
    requires Lawful(c) && forall i :: 0 <= i < |list| ==> c.ok(list[i])
    ensures DecodeAll(c, EncodeAll(c, list) + rest, |list|) == Items(Meanings(c, list), true, rest)
    decreases |list|
  {
    if list == [] {
      assert EncodeAll(c, list) + rest == rest;
    } else {
      var tail := EncodeAll(c, list[1..]) + rest;
      assert EncodeAll(c, list) + rest == c.enc(list[0]) + tail;
      assert c.dec(c.enc(list[0]) + tail) == Loaded(c.meaning(list[0]), tail);
      DecodeEncoded(c, list[1..], rest);
    }
  }

  /** What was saved is read back item by item, and what follows it stays. */
  lemma ReadSaved<E(!new), A>(size: Codec<nat, nat>, c: Codec<E, A>, list: seq<E>, rest: Bytes)
    requires Sizes(size) && Lawful(c) && Storable(c, list)
    ensures ReadImage(size, c, Image(size, c, list) + rest) == Items(Meanings(c, list), true, rest)
  {
    var body := EncodeAll(c, list) + rest;
    assert Image(size, c, list) + rest == size.enc(|list|) + body;
    assert size.dec(size.enc(|list|) + body) == Loaded(|list|, body);
    DecodeEncoded(c, list, rest);
  }

  /** A size that cannot be read leaves the container empty and the loading incomplete. */
  lemma NoSizeNoItems<E, A>(size: Codec<nat, nat>, c: Codec<E, A>, s: Bytes)
    requires size.dec(s).Failed?
    ensures ReadImage(size, c, s).items == [] && !ReadImage(size, c, s).complete
  {
  }

  /** An archive that gives out behind some of the items leaves the loading incomplete, with these items. */
  lemma {:induction false} StopsAtFailure<E(!new), A>(c: Codec<E, A>, list: seq<E>, bad: Bytes, n: nat)
    requires Lawful(c) && (forall i :: 0 <= i < |list| ==> c.ok(list[i])) && c.dec(bad).Failed? && |list| < n
    ensures var r := DecodeAll(c, EncodeAll(c, list) + bad, n); r.items == Meanings(c, list) && !r.complete
    decreases |list|
  {
    if list == [] {
      assert EncodeAll(c, list) + bad == bad;
    } else {
      var tail := EncodeAll(c, list[1..]) + bad;
      assert EncodeAll(c, list) + bad == c.enc(list[0]) + tail;
      assert c.dec(c.enc(list[0]) + tail) == Loaded(c.meaning(list[0]), tail);
      StopsAtFailure(c, list[1..], bad, n - 1);
    }
  }

  /** A pair fails where its key fails, or its value behind the key. */
  lemma PairFails<K, E, A>(key: Codec<K, K>, val: Codec<E, A>, s: Bytes)
    ensures PairCodec(key, val).dec(s).Failed? <==>
            key.dec(s).Failed? || val.dec(key.dec(s).rest).Failed?
  {
  }

  lemma PairEncodes<K, E, A>(key: Codec<K, K>, val: Codec<E, A>, k: K, e: E)
    ensures PairCodec(key, val).enc((k, e)) == key.enc(k) + val.enc(e)
  {
  }

  /** The image begins with the number of items; each further pair adds its key and then its value. */
  lemma ImageLayout<K, E, A>(size: Codec<nat, nat>, key: Codec<K, K>, val: Codec<E, A>, list: seq<(K, E)>, k: K, e: E)
    ensures var c := PairCodec(key, val);
            && Image(size, c, list) == size.enc(|list|) + EncodeAll(c, list) && EncodeAll(c, []) == []
            && EncodeAll(c, list + [(k, e)]) == EncodeAll(c, list) + key.enc(k) + val.enc(e)
  {
    hide PairCodec, EncodeAll;
    var c := PairCodec(key, val);
    NothingEncoded(c);
    EncodeOneMore(c, list, (k, e));
    PairEncodes(key, val, k, e);
    Regroup(EncodeAll(c, list), key.enc(k), val.enc(e));
  }

  lemma NothingEncoded<E, A>(c: Codec<E, A>)
    ensures EncodeAll(c, []) == []
  {
  }

  // ---------------------------------------------------------------- the containers

  /** Inserting pairs one by one, as `unordered_map::insert` does: a key that is there keeps its value. */
  function FirstWins<K(==), V>(pairs: seq<(K, V)>): map<K, V> {
    if pairs == [] then map[]
    else
      var m, p := FirstWins(pairs[..|pairs| - 1]), pairs[|pairs| - 1];
      if p.0 in m then m else m[p.0 := p.1]
  }

  /** Inserting values one by one. */
  function SetOf<T(==)>(items: seq<T>): set<T> {
    if items == [] then {} else SetOf(items[..|items| - 1]) + {items[|items| - 1]}
  }

  /** The value of every key is the one of its first pair. */
  lemma {:induction false} FirstWinsIs<K, V>(pairs: seq<(K, V)>, k: K)
    ensures k in FirstWins(pairs) <==> exists i :: 0 <= i < |pairs| && pairs[i].0 == k
    ensures forall i :: 0 <= i < |pairs| && pairs[i].0 == k && (forall j :: 0 <= j < i ==> pairs[j].0 != k) ==>
              k in FirstWins(pairs) && FirstWins(pairs)[k] == pairs[i].1
    decreases |pairs|
  {
    if pairs != [] {
      var n := |pairs| - 1;
      var short := pairs[..n];
      FirstWinsIs(short, k);
      assert forall i :: 0 <= i < n ==> short[i] == pairs[i];
    }
  }

  ghost predicate DifferentKeys<K, V>(pairs: seq<(K, V)>) {
    forall i, j :: 0 <= i < j < |pairs| ==> pairs[i].0 != pairs[j].0
  }

  /** `pairs` visits every entry of `m` once. */
  ghost predicate Visits<K, V>(pairs: seq<(K, V)>, m: map<K, V>) {
    && DifferentKeys(pairs)
    && (forall i :: 0 <= i < |pairs| ==> pairs[i].0 in m && m[pairs[i].0] == pairs[i].1)
    && (forall k :: k in m ==> exists i :: 0 <= i < |pairs| && pairs[i].0 == k)
  }

  /** Inserting the entries of a map in any order rebuilds it. */
  lemma VisitRebuilds<K, V>(pairs: seq<(K, V)>, m: map<K, V>)
    requires Visits(pairs, m)
    ensures FirstWins(pairs) == m
  {
    var r := FirstWins(pairs);
    forall k | k in r ensures k in m { FirstWinsIs(pairs, k); }
    forall k | k in m ensures k in r && r[k] == m[k] {
      FirstWinsIs(pairs, k);
      var i :| 0 <= i < |pairs| && pairs[i].0 == k;
      assert forall j :: 0 <= j < i ==> pairs[j].0 != k;
    }
  }

  /** The values of a map, each replaced by its meaning. */
  function MapMeaning<K, E, A>(m: map<K, E>, val: Codec<E, A>): map<K, A> {
    map k | k in m :: val.meaning(m[k])
  }

  /** Saved in any order of its entries, a map loads as itself. */
  lemma MapRoundTrip<K(!new), E(!new), A>(size: Codec<nat, nat>, key: Codec<K, K>, val: Codec<E, A>,
                                          m: map<K, E>, order: seq<(K, E)>, rest: Bytes)
    requires Sizes(size) && Plain(key) && Lawful(val)
    requires Visits(order, m) && Storable(PairCodec(key, val), order)
    ensures var r := ReadImage(size, PairCodec(key, val), Image(size, PairCodec(key, val), order) + rest);
            r.complete && r.rest == rest && FirstWins(r.items) == MapMeaning(m, val)
  {
    var c := PairCodec(key, val);
    PairLawful(key, val);
    ReadSaved(size, c, order, rest);
    var items := Meanings(c, order);
    forall i | 0 <= i < |items| ensures items[i].0 == order[i].0 && items[i].1 == val.meaning(order[i].1) {}
    assert Visits(items, MapMeaning(m, val)) by {
      forall k | k in m ensures exists i :: 0 <= i < |items| && items[i].0 == k {
        var i :| 0 <= i < |order| && order[i].0 == k;
        assert items[i].0 == k;
      }
    }
    VisitRebuilds(items, MapMeaning(m, val));
  }

  /** Without an order of their own, the values are read as they were. */
  lemma PlainMeanings<T(!new)>(c: Codec<T, T>, list: seq<T>)
    requires Plain(c)
    ensures Meanings(c, list) == list
  {
  }

  lemma PairPlain<K(!new), V(!new)>(key: Codec<K, K>, val: Codec<V, V>)
    requires Plain(key) && Plain(val)
    ensures Plain(PairCodec(key, val))
  {
    PairLawful(key, val);
    var c := PairCodec(key, val);
    forall p: (K, V) ensures c.meaning(p) == p {
      assert c.meaning(p) == (p.0, p.1);
    }
  }

  /** A multimap, which keeps every pair, loads as the same bag of pairs. */
  lemma MultimapRoundTrip<K(!new), V(!new)>(size: Codec<nat, nat>, key: Codec<K, K>, val: Codec<V, V>,
                                            m: multiset<(K, V)>, order: seq<(K, V)>, rest: Bytes)
    requires Sizes(size) && Plain(key) && Plain(val)
    requires multiset(order) == m && Storable(PairCodec(key, val), order)
    ensures var r := ReadImage(size, PairCodec(key, val), Image(size, PairCodec(key, val), order) + rest);
            r.complete && r.rest == rest && multiset(r.items) == m
  {
    var c := PairCodec(key, val);
    PairPlain(key, val);
    ReadSaved(size, c, order, rest);
    PlainMeanings(c, order);
  }

  /** `order` visits every value of `s` once. */
  ghost predicate VisitsSet<T>(order: seq<T>, s: set<T>) {
    && AllDifferent(order)
    && (forall i :: 0 <= i < |order| ==> order[i] in s)
    && (forall x :: x in s ==> x in order)
  }

  lemma {:induction false} SetOfIs<T>(items: seq<T>, x: T)
    ensures x in SetOf(items) <==> x in items
    decreases |items|
  {
    if items != [] {
      SetOfIs(items[..|items| - 1], x);
      assert items == items[..|items| - 1] + [items[|items| - 1]];
    }
  }

  lemma VisitRebuildsSet<T>(order: seq<T>, s: set<T>)
    requires VisitsSet(order, s)
    ensures SetOf(order) == s
  {
    forall x | x in SetOf(order) ensures x in s { SetOfIs(order, x); }
    forall x | x in s ensures x in SetOf(order) { SetOfIs(order, x); }
  }

  /** A set loads as itself. */
  lemma SetRoundTrip<T(!new)>(size: Codec<nat, nat>, elem: Codec<T, T>, s: set<T>, order: seq<T>, rest: Bytes)
    requires Sizes(size) && Plain(elem) && VisitsSet(order, s) && Storable(elem, order)
    ensures var r := ReadImage(size, elem, Image(size, elem, order) + rest);
            r.complete && r.rest == rest && SetOf(r.items) == s
  {
    ReadSaved(size, elem, order, rest);
    PlainMeanings(elem, order);
    VisitRebuildsSet(order, s);
  }

  // ---------------------------------------------------------------- containers in containers

  /** A set as the value of something else: in memory the order of its visit, on reading the set. */
  function SetCodec<T(==)>(size: Codec<nat, nat>, elem: Codec<T, T>): Codec<seq<T>, set<T>> {
    Codec(
      (order: seq<T>) => Storable(elem, order),
      (order: seq<T>) => Image(size, elem, order),
      (order: seq<T>) => SetOf(order),
      (s: Bytes) =>
        var r := ReadImage(size, elem, s);
        if r.complete then Loaded(SetOf(r.items), r.rest) else Failed)
  }

  lemma SetLawful<T(!new)>(size: Codec<nat, nat>, elem: Codec<T, T>)
    requires Sizes(size) && Plain(elem)
    ensures Lawful(SetCodec(size, elem))
  {
    var c := SetCodec(size, elem);
    forall order: seq<T>, rest: Bytes | c.ok(order)
      ensures c.dec(c.enc(order) + rest) == Loaded(c.meaning(order), rest)
    {
      ReadSaved(size, elem, order, rest);
      PlainMeanings(elem, order);
    }
  }

  lemma {:induction false} SetVisitSize<T>(order: seq<T>, s: set<T>)
    requires VisitsSet(order, s)
    ensures |order| == |s|
    decreases |order|
  {
    if order == [] {
      assert s == {};
    } else {
      var n := |order| - 1;
      assert order == order[..n] + [order[n]];
      SetVisitSize(order[..n], s - {order[n]});
    }
  }

  /** The number written in front of a container is the number of its entries. */
  lemma VisitSize<K, V>(order: seq<(K, V)>, m: map<K, V>)
    requires Visits(order, m)
    ensures |order| == |m|
  {
    var keys := seq(|order|, i requires 0 <= i < |order| => order[i].0);
    assert VisitsSet(keys, m.Keys) by {
      forall k | k in m.Keys ensures k in keys {
        var i :| 0 <= i < |order| && order[i].0 == k;
        assert keys[i] == k;
      }
    }
    SetVisitSize(keys, m.Keys);
  }

  /** Small enough, and made of keys and values that can be written. */
  ghost predicate StorableSets<K, T>(key: Codec<K, K>, elem: Codec<T, T>, m: map<K, set<T>>) {
    |m| < SIZES && forall k :: k in m ==> key.ok(k) && |m[k]| < SIZES && forall x :: x in m[k] ==> elem.ok(x)
  }

  /** `memory` holds each set of `m` in the order in which it is visited. */
  ghost predicate Ordered<K, T>(memory: map<K, seq<T>>, m: map<K, set<T>>) {
    memory.Keys == m.Keys && forall k :: k in m ==> VisitsSet(memory[k], m[k])
  }

  lemma OrderedIsStorable<K, T>(size: Codec<nat, nat>, key: Codec<K, K>, elem: Codec<T, T>,
                                m: map<K, set<T>>, memory: map<K, seq<T>>, order: seq<(K, seq<T>)>)
    requires StorableSets(key, elem, m) && Ordered(memory, m) && Visits(order, memory)
    ensures Storable(PairCodec(key, SetCodec(size, elem)), order)
  {
    VisitSize(order, memory);
    assert |memory| == |m| by { assert |memory.Keys| == |m.Keys|; }
    forall i | 0 <= i < |order| ensures PairCodec(key, SetCodec(size, elem)).ok(order[i]) {
      SetVisitSize(order[i].1, m[order[i].0]);
    }
  }

  lemma OrderedMeans<K, T>(size: Codec<nat, nat>, elem: Codec<T, T>, m: map<K, set<T>>, memory: map<K, seq<T>>)
    requires Ordered(memory, m)
    ensures MapMeaning(memory, SetCodec(size, elem)) == m
  {
    forall k | k in m ensures SetOf(memory[k]) == m[k] { VisitRebuildsSet(memory[k], m[k]); }
  }

  /**
    The map of sets that the pool keeps: whatever order the map and each of its sets happen to have in
    memory, loading gives the same map of the same sets.
   */
  lemma MapOfSetsRoundTrip<K(!new), T(!new)>(
      size: Codec<nat, nat>, key: Codec<K, K>, elem: Codec<T, T>,
      m: map<K, set<T>>, memory: map<K, seq<T>>, order: seq<(K, seq<T>)>, rest: Bytes)
    requires Sizes(size) && Plain(key) && Plain(elem) && StorableSets(key, elem, m)
    requires Ordered(memory, m) && Visits(order, memory)
    ensures var c := PairCodec(key, SetCodec(size, elem));
            var r := ReadImage(size, c, Image(size, c, order) + rest);
            r.complete && r.rest == rest && FirstWins(r.items) == m
  {
    hide Storable, Visits, SetCodec, StorableSets, Ordered, MapMeaning;
    SetLawful(size, elem);
    OrderedIsStorable(size, key, elem, m, memory, order);
    MapRoundTrip(size, key, SetCodec(size, elem), memory, order, rest);
    OrderedMeans(size, elem, m, memory);
  }

  // ---------------------------------------------------------------- the save and load functions

  lemma {:induction false} EncodeOneMore<E, A>(c: Codec<E, A>, list: seq<E>, e: E)
    ensures EncodeAll(c, list + [e]) == EncodeAll(c, list) + c.enc(e)
    decreases |list|
  {
    if list == [] {
      assert list + [e] == [e];
      assert EncodeAll(c, [e]) == c.enc(e) + EncodeAll(c, []);
    } else {
      assert (list + [e])[1..] == list[1..] + [e];
      EncodeOneMore(c, list[1..], e);
    }
  }

  /** Having read `got`, a loop that is to read `n` more will end with this. */
  function Onward<E, A>(got: seq<A>, c: Codec<E, A>, s: Bytes, n: nat): Items<A> {
    var r := DecodeAll(c, s, n);
    Items(got + r.items, r.complete, r.rest)
  }

  lemma OnwardStep<E, A>(got: seq<A>, c: Codec<E, A>, s: Bytes, n: nat)
    ensures n == 0 ==> Onward(got, c, s, n) == Items(got, true, s)
    ensures n > 0 && c.dec(s).Failed? ==> Onward(got, c, s, n) == Items(got, false, s)
    ensures n > 0 && c.dec(s).Loaded? ==>
              Onward(got, c, s, n) == Onward(got + [c.dec(s).value], c, c.dec(s).rest, n - 1)
  {
    if n > 0 && c.dec(s).Loaded? {
      var r := DecodeAll(c, c.dec(s).rest, n - 1);
      assert got + ([c.dec(s).value] + r.items) == (got + [c.dec(s).value]) + r.items;
    }
  }

  /** After one more pair the archive holds the images of one more entry. */
  lemma WriteOneMore<K, E, A>(start: Bytes, key: Codec<K, K>, val: Codec<E, A>, list: seq<(K, E)>, k: K, e: E)
    ensures var c := PairCodec(key, val);
            start + EncodeAll(c, list) + key.enc(k) + val.enc(e) == start + EncodeAll(c, list + [(k, e)])
  {
    var c := PairCodec(key, val);
    EncodeOneMore(c, list, (k, e));
    assert c.enc((k, e)) == key.enc(k) + val.enc(e);
  }

  lemma EncodeNone<E, A>(start: Bytes, c: Codec<E, A>)
    ensures start + EncodeAll(c, []) == start
  {
  }

  lemma BagSize<T>(order: seq<T>, m: multiset<T>)
    requires multiset(order) == m
    ensures |order| == |m|
  {
  }

  lemma ImageWritten<E, A>(before: Bytes, size: Codec<nat, nat>, c: Codec<E, A>, list: seq<E>)
    ensures before + size.enc(|list|) + EncodeAll(c, list) == before + Image(size, c, list)
  {
  }

  /** `order` visits every entry of `m` once, except those whose keys are still to be visited. */
  ghost predicate VisitsOthers<K, V>(order: seq<(K, V)>, m: map<K, V>, unvisited: set<K>) {
    Visits(order, m - unvisited)
  }

  lemma VisitOneMore<K, V>(order: seq<(K, V)>, m: map<K, V>, unvisited: set<K>, k: K)
    requires k in unvisited && k in m && VisitsOthers(order, m, unvisited)
    ensures VisitsOthers(order + [(k, m[k])], m, unvisited - {k})
  {
    var longer, more := order + [(k, m[k])], m - (unvisited - {k});
    assert longer[|order|].0 == k;
    forall i, j | 0 <= i < j < |longer| ensures longer[i].0 != longer[j].0 {
      assert order[i].0 in m - unvisited;
    }
    forall j | j in more ensures exists i :: 0 <= i < |longer| && longer[i].0 == j {
      if j != k {
        assert j in m - unvisited;
        var i :| 0 <= i < |order| && order[i].0 == j;
        assert longer[i].0 == j;
      }
    }
  }

  lemma VisitStart<K, V>(m: map<K, V>)
    ensures VisitsOthers([], m, m.Keys)
  {
  }

  lemma VisitEnd<K, V>(order: seq<(K, V)>, m: map<K, V>)
    requires VisitsOthers(order, m, {})
    ensures Visits(order, m) && |order| == |m|
  {
    assert m - {} == m;
    VisitSize(order, m);
  }

  lemma VisitSetStart<T>(s: set<T>)
    ensures VisitsSet([], s - s)
  {
  }

  lemma VisitSetOneMore<T>(order: seq<T>, s: set<T>, unvisited: set<T>, v: T)
    requires v in unvisited && v in s && VisitsSet(order, s - unvisited)
    ensures VisitsSet(order + [v], s - (unvisited - {v}))
  {
  }

  lemma FirstWinsNothing<K, V>()
    ensures FirstWins<K, V>([]) == map[]
  {
  }

  lemma FirstWinsNext<K, V>(got: seq<(K, V)>, k: K, v: V)
    ensures FirstWins(got + [(k, v)]) == if k in FirstWins(got) then FirstWins(got) else FirstWins(got)[k := v]
  {
    assert (got + [(k, v)])[..|got|] == got;
  }

  class OutArchive {
    var written: Bytes

    method Put<E, A>(c: Codec<E, A>, e: E)
      modifies this
      ensures written == old(written) + c.enc(e)
    {
      written := written + c.enc(e);
    }
  }

  class InArchive {
    var left: Bytes

    /** After an exception the position of the archive is not used again. */
    method Get<E, A>(c: Codec<E, A>) returns (r: Load<A>)
      modifies this
      ensures r == c.dec(old(left))
      ensures left == if r.Loaded? then r.rest else old(left)
    {
      r := c.dec(left);
      if r.Loaded? { left := r.rest; }
    }
  }

  /** `std::unordered_map`; the order in which it is visited is its own affair. */
  class UnorderedMap<K(==), V> {
    var content: map<K, V>

    method Save<A>(a: OutArchive, size: Codec<nat, nat>, key: Codec<K, K>, val: Codec<V, A>)
      returns (ghost order: seq<(K, V)>)
      modifies a
      ensures Visits(order, content)
      ensures a.written == old(a.written) + Image(size, PairCodec(key, val), order)
    {
      hide EncodeAll, Image, PairCodec, Visits, VisitsOthers;
      a.Put(size, |content|);
      ghost var start := a.written;
      order := [];
      var unvisited := content.Keys;
      VisitStart(content);
      EncodeNone(start, PairCodec(key, val));
      while unvisited != {}
        invariant unvisited <= content.Keys && VisitsOthers(order, content, unvisited)
        invariant a.written == start + EncodeAll(PairCodec(key, val), order)
        decreases |unvisited|
      {
        var k :| k in unvisited;
        WriteOneMore(start, key, val, order, k, content[k]);
        VisitOneMore(order, content, unvisited, k);
        a.Put(key, k);
        a.Put(val, content[k]);
        order := order + [(k, content[k])];
        unvisited := unvisited - {k};
      }
      VisitEnd(order, content);
      ImageWritten(old(a.written), size, PairCodec(key, val), order);
    }

    method Load<E>(a: InArchive, size: Codec<nat, nat>, key: Codec<K, K>, val: Codec<E, V>) returns (ok: bool)
      modifies this, a
      ensures var r := ReadImage(size, PairCodec(key, val), old(a.left));
              content == FirstWins(r.items) && ok == r.complete && (ok ==> a.left == r.rest)
    {
      hide DecodeAll, FirstWins;
      FirstWinsNothing<K, V>();
      content := map[];
      var s := a.Get(size);
      if s.Failed? { return false; }
      ghost var got := [];
      ghost var all := DecodeAll(PairCodec(key, val), a.left, s.value);
      var i := 0;
      while i != s.value
        invariant i <= s.value
        invariant Onward(got, PairCodec(key, val), a.left, s.value - i) == all
        invariant content == FirstWins(got)
      {
        OnwardStep(got, PairCodec(key, val), a.left, s.value - i);
        var k := a.Get(key);
        if k.Failed? { return false; }
        var v := a.Get(val);
        if v.Failed? { return false; }
        FirstWinsNext(got, k.value, v.value);
        if k.value !in content { content := content[k.value := v.value]; }
        got := got + [(k.value, v.value)];
        i := i + 1;
      }
      OnwardStep(got, PairCodec(key, val), a.left, 0);
      return true;
    }
  }

  /** `std::unordered_multimap`. */
  class UnorderedMultimap<K(==), V(==)> {
    var content: multiset<(K, V)>

    method Save<A>(a: OutArchive, size: Codec<nat, nat>, key: Codec<K, K>, val: Codec<V, A>)
      returns (ghost order: seq<(K, V)>)
      modifies a
      ensures multiset(order) == content
      ensures a.written == old(a.written) + Image(size, PairCodec(key, val), order)
    {
      hide EncodeAll, Image, PairCodec;
      a.Put(size, |content|);
      ghost var start := a.written;
      order := [];
      var unvisited := content;
      EncodeNone(start, PairCodec(key, val));
      while unvisited != multiset{}
        invariant multiset(order) + unvisited == content
        invariant a.written == start + EncodeAll(PairCodec(key, val), order)
        decreases |unvisited|
      {
        var p :| p in unvisited;
        WriteOneMore(start, key, val, order, p.0, p.1);
        a.Put(key, p.0);
        a.Put(val, p.1);
        order := order + [(p.0, p.1)];
        unvisited := unvisited - multiset{p};
      }
      BagSize(order, content);
      ImageWritten(old(a.written), size, PairCodec(key, val), order);
    }

    method Load<E>(a: InArchive, size: Codec<nat, nat>, key: Codec<K, K>, val: Codec<E, V>) returns (ok: bool)
      modifies this, a
      ensures var r := ReadImage(size, PairCodec(key, val), old(a.left));
              content == multiset(r.items) && ok == r.complete && (ok ==> a.left == r.rest)
    {
      ghost var c := PairCodec(key, val);
      content := multiset{};
      var s := a.Get(size);
      if s.Failed? { return false; }
      ghost var got := [];
      ghost var all := DecodeAll(c, a.left, s.value);
      var i := 0;
      while i != s.value
        invariant i <= s.value
        invariant Onward(got, c, a.left, s.value - i) == all
        invariant content == multiset(got)
      {
        OnwardStep(got, c, a.left, s.value - i);
        var k := a.Get(key);
        if k.Failed? { return false; }
        var v := a.Get(val);
        if v.Failed? { return false; }
        content := content + multiset{(k.value, v.value)};
        got := got + [(k.value, v.value)];
        i := i + 1;
      }
      OnwardStep(got, c, a.left, 0);
      return true;
    }
  }

  /** `std::unordered_set`. */
  class UnorderedSet<T(==)> {
    var content: set<T>

    method Save<A>(a: OutArchive, size: Codec<nat, nat>, elem: Codec<T, A>) returns (ghost order: seq<T>)
      modifies a
      ensures VisitsSet(order, content)
      ensures a.written == old(a.written) + Image(size, elem, order)
    {
      hide EncodeAll, Image, AllDifferent;
      a.Put(size, |content|);
      ghost var start := a.written;
      order := [];
      var unvisited := content;
      EncodeNone(start, elem);
      VisitSetStart(content);
      while unvisited != {}
        invariant unvisited <= content && VisitsSet(order, content - unvisited)
        invariant a.written == start + EncodeAll(elem, order)
        decreases |unvisited|
      {
        var v :| v in unvisited;
        EncodeOneMore(elem, order, v);
        VisitSetOneMore(order, content, unvisited, v);
        Regroup(start, EncodeAll(elem, order), elem.enc(v));
        a.Put(elem, v);
        order := order + [v];
        unvisited := unvisited - {v};
      }
      assert content - {} == content;
      SetVisitSize(order, content);
      ImageWritten(old(a.written), size, elem, order);
    }

    method Load<E>(a: InArchive, size: Codec<nat, nat>, elem: Codec<E, T>) returns (ok: bool)
      modifies this, a
      ensures var r := ReadImage(size, elem, old(a.left));
              content == SetOf(r.items) && ok == r.complete && (ok ==> a.left == r.rest)
    {
      content := {};
      var s := a.Get(size);
      if s.Failed? { return false; }
      ghost var got := [];
      ghost var all := DecodeAll(elem, a.left, s.value);
      var i := 0;
      while i != s.value
        invariant i <= s.value
        invariant Onward(got, elem, a.left, s.value - i) == all
        invariant content == SetOf(got)
      {
        OnwardStep(got, elem, a.left, s.value - i);
        var v := a.Get(elem);
        if v.Failed? { return false; }
        ghost var longer := got + [v.value];
        assert longer[..|longer| - 1] == got;
        content := content + {v.value};
        got := longer;
        i := i + 1;
      }
      OnwardStep(got, elem, a.left, 0);
      return true;
    }
  }
}
