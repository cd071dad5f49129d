/** UTF-8 prefixes and the word indexes of a mnemonic language (language_base.h). */
module Mnemonics {
  import opened Bits
  import opened Sequences

  type Text = seq<Byte>

  // ---------------------------------------------------------------- characters

  /** A byte that continues a character (section 3 of RFC 3629): its two top bits are 10. */
  predicate Continues(b: Byte) {
    0x80 <= b < 0xc0
  }

  lemma AndDouble(x: nat, y: nat)
    ensures And(x, 2 * y) == 2 * And(x / 2, y)
  {
    assert 2 * y % 2 == 0 && 2 * y / 2 == y;
  }

  lemma AndThree()
    ensures And(0, 3) == 0 && And(1, 3) == 1 && And(2, 3) == 2 && And(3, 3) == 3
  {
  }

  lemma TopTwoBits(b: Byte)
    ensures And(b, 0xc0) == 0x40 * And(b / 2 / 2 / 2 / 2 / 2 / 2, 3)
  {
    hide And;
    AndDouble(b, 0x60);
    AndDouble(b / 2, 0x30);
    AndDouble(b / 2 / 2, 0x18);
    AndDouble(b / 2 / 2 / 2, 0x0c);
    AndDouble(b / 2 / 2 / 2 / 2, 0x06);
    AndDouble(b / 2 / 2 / 2 / 2 / 2, 0x03);
  }

  /** The source's test `(c & 0xc0) == 0x80`. */
  lemma ContinuationTest(b: Byte)
    ensures And(b, 0xc0) == 0x80 <==> Continues(b)
  {
    hide And;
    TopTwoBits(b);
    AndThree();
    var top := b / 2 / 2 / 2 / 2 / 2 / 2;
    assert 0x40 * top <= b < 0x40 * (top + 1);
    assert top == 0 || top == 1 || top == 2 || top == 3;
  }

  /** How many bytes at the start of `s` continue the character before it. */
  function Continuation(s: Text): (n: nat)
    ensures n <= |s|
    ensures forall i :: 0 <= i < n ==> Continues(s[i])
    ensures n < |s| ==> !Continues(s[n])
  {
    if s == [] || !Continues(s[0]) then 0 else 1 + Continuation(s[1..])
  }

  /** The characters of `s` up to its first NUL: a byte of any kind and the bytes that continue it. */
  function Characters(s: Text): seq<Text>
    decreases |s|
  {
    if s == [] || s[0] == 0 then []
    else
      var n := 1 + Continuation(s[1..]);
      [s[..n]] + Characters(s[n..])
  }

  function Join(chars: seq<Text>): Text {
    if chars == [] then [] else chars[0] + Join(chars[1..])
  }

  /** The first `count` characters, or all of them if there are fewer. */
  function Prefix(s: Text, count: nat): Text {
    var chars := Characters(s);
    Join(if count < |chars| then chars[..count] else chars)
  }

  /** What `c_str()` points at: reading stops at a NUL, and there is one behind the last byte. */
  function CharAt(s: Text, i: nat): Byte
    requires i <= |s|
  {
    if i < |s| then s[i] else 0
  }

  lemma PrefixStep(s: Text, count: nat)
    ensures count == 0 || s == [] || s[0] == 0 ==> Prefix(s, count) == []
    ensures count > 0 && s != [] && s[0] != 0 ==>
              var n := 1 + Continuation(s[1..]); Prefix(s, count) == s[..n] + Prefix(s[n..], count - 1)
  {
    if count > 0 && s != [] && s[0] != 0 {
      var n := 1 + Continuation(s[1..]);
      var chars, rest := Characters(s), Characters(s[n..]);
      assert chars == [s[..n]] + rest;
      assert chars[1..] == rest;
      if count < |chars| { assert chars[..count][1..] == rest[..count - 1]; }
    }
  }

  lemma ContinuationAt(s: Text, i: nat)
    requires i <= |s|
    ensures if And(CharAt(s, i), 0xc0) == 0x80 then i < |s| && Continuation(s[i..]) == 1 + Continuation(s[i + 1..])
            else Continuation(s[i..]) == 0
  {
    hide And;
    ContinuationTest(CharAt(s, i));
    if i < |s| { assert s[i..][1..] == s[i + 1..]; }
  }

  /** What one round of the outer loop adds. */
  lemma PrefixStepAt(s: Text, i: nat, count: nat) returns (end: nat)
    requires i < |s| && s[i] != 0 && count > 0
    ensures end == i + 1 + Continuation(s[i + 1..]) <= |s|
    ensures Prefix(s[i..], count) == s[i..end] + Prefix(s[end..], count - 1)
  {
    hide Prefix;
    PrefixStep(s[i..], count);
    assert s[i..][1..] == s[i + 1..];
    end := i + 1 + Continuation(s[i + 1..]);
    assert s[i..][..end - i] == s[i..end];
    assert s[i..][end - i..] == s[end..];
  }

  lemma PrefixStops(s: Text, i: nat, count: nat)
    requires i <= |s| && (count == 0 || CharAt(s, i) == 0)
    ensures Prefix(s[i..], count) == []
  {
    PrefixStep(s[i..], count);
  }

  method Utf8Prefix(s: Text, count: nat) returns (prefix: Text)
    ensures prefix == Prefix(s, count)
  {
    hide Characters, Join, And, Continuation, Prefix;
    prefix := [];
    var ptr := 0;
    var left := count;
    assert s[0..] == s;
    while left != 0 && CharAt(s, ptr) != 0
      invariant ptr <= |s|
      invariant prefix + Prefix(s[ptr..], left) == Prefix(s, count)
      decreases left
    {
      ghost var start, before := ptr, prefix;
      ghost var end := PrefixStepAt(s, start, left);
      left := left - 1;
      prefix := prefix + [CharAt(s, ptr)];
      ptr := ptr + 1;
      while And(CharAt(s, ptr), 0xc0) == 0x80
        invariant start < ptr <= end
        invariant Continuation(s[ptr..]) == end - ptr
        invariant prefix == before + s[start..ptr]
        decreases |s| - ptr
      {
        ContinuationAt(s, ptr);
        prefix := prefix + [CharAt(s, ptr)];
        ptr := ptr + 1;
      }
      ContinuationAt(s, ptr);
      Regroup(before, s[start..end], Prefix(s[end..], left));
    }
    PrefixStops(s, ptr, left);
  }

  // ---------------------------------------------------------------- what a prefix is

  /** The bytes before the first NUL. */
  function CStr(s: Text): Text {
    if s == [] || s[0] == 0 then [] else [s[0]] + CStr(s[1..])
  }

  lemma {:induction false} CStrSplit(s: Text, n: nat)
    requires n <= |s| && forall i :: 0 <= i < n ==> s[i] != 0
    ensures CStr(s) == s[..n] + CStr(s[n..])
    decreases n
  {
    if n == 0 {
      assert s[0..] == s;
    } else {
      CStrSplit(s[1..], n - 1);
      assert s[1..][n - 1..] == s[n..];
      assert s[..n] == [s[0]] + s[1..][..n - 1];
    }
  }

  lemma {:induction false} CStrWhole(s: Text)
    ensures CStr(s) <= s
    ensures CStr(s) == s <==> 0 !in s
    decreases |s|
  {
    if s != [] {
      CStrWhole(s[1..]);
      assert s == [s[0]] + s[1..];
    }
  }

  /** The characters are a division of the text before its first NUL. */
  lemma {:induction false} CharactersJoin(s: Text)
    ensures Join(Characters(s)) == CStr(s)
    ensures |Characters(s)| <= |s|
    decreases |s|
  {
    if s != [] && s[0] != 0 {
      var n := 1 + Continuation(s[1..]);
      CharactersJoin(s[n..]);
      assert s[..n][0] == s[0];
      forall i | 0 <= i < n ensures s[i] != 0 {
        if i > 0 { assert s[i] == s[1..][i - 1]; }
      }
      CStrSplit(s, n);
    }
  }

  lemma PrefixGrows(s: Text, n: nat, p: Text)
    requires n <= |s| && p <= s[n..]
    ensures s[..n] + p <= s
    ensures |p| < |s[n..]| ==> s[n..][|p|] == s[n + |p|]
  {
    assert s == s[..n] + s[n..];
  }

  /** Cutting happens only where a character ends. */
  lemma {:induction false} PrefixEndsCharacter(s: Text, count: nat)
    ensures Prefix(s, count) <= s
    ensures var n := |Prefix(s, count)|; count > 0 && n < |s| && s[0] != 0 ==> !Continues(s[n])
    decreases count
  {
    hide Prefix, Characters, Continues;
    PrefixStep(s, count);
    if count > 0 && s != [] && s[0] != 0 {
      var n := 1 + Continuation(s[1..]);
      var tail := s[n..];
      var p := Prefix(tail, count - 1);
      PrefixEndsCharacter(tail, count - 1);
      PrefixStep(tail, count - 1);
      PrefixGrows(s, n, p);
      assert |s[..n] + p| == n + |p|;
      if n < |s| {
        assert s[1..][n - 1] == s[n];
        assert tail[0] == s[n];
      }
    }
  }

  /** Cut after `k` characters, a text consists of these `k` characters. */
  lemma {:induction false} CharactersOfPrefix(s: Text, k: nat)
    requires k <= |Characters(s)|
    ensures Characters(Join(Characters(s)[..k])) == Characters(s)[..k]
    decreases k
  {
    if k > 0 {
      var n := 1 + Continuation(s[1..]);
      var c, rest := s[..n], Characters(s[n..]);
      assert Characters(s) == [c] + rest;
      assert Characters(s)[..k] == [c] + rest[..k - 1];
      var tail := Join(rest[..k - 1]);
      assert Join([c] + rest[..k - 1]) == c + tail by { assert ([c] + rest[..k - 1])[1..] == rest[..k - 1]; }
      CharactersOfPrefix(s[n..], k - 1);
      TailStarts(s[n..], k - 1);
      OneCharacter(c, tail);
    }
  }

  /** The tail starts like the text it was cut from, so with no continuation byte. */
  lemma TailStarts(s: Text, k: nat)
    requires k <= |Characters(s)|
    ensures var tail := Join(Characters(s)[..k]); tail != [] ==> s != [] && tail[0] == s[0]
  {
    if k > 0 {
      var n := 1 + Continuation(s[1..]);
      assert Characters(s)[..k][0] == s[..n];
    }
  }

  /** A first byte and its continuation, before something that does not continue it, are one character. */
  lemma OneCharacter(c: Text, tail: Text)
    requires |c| > 0 && c[0] != 0 && forall i :: 1 <= i < |c| ==> Continues(c[i])
    requires tail != [] ==> !Continues(tail[0])
    ensures Characters(c + tail) == [c] + Characters(tail)
  {
    var s := c + tail;
    assert s[1..] == c[1..] + tail;
    RunLength(c[1..], tail);
    assert s[..|c|] == c && s[|c|..] == tail;
  }

  lemma {:induction false} RunLength(c: Text, tail: Text)
    requires forall i :: 0 <= i < |c| ==> Continues(c[i])
    requires tail != [] ==> !Continues(tail[0])
    ensures Continuation(c + tail) == |c|
    decreases |c|
  {
    if c == [] {
      assert c + tail == tail;
    } else {
      assert (c + tail)[1..] == c[1..] + tail;
      RunLength(c[1..], tail);
    }
  }

  function Min(a: nat, b: nat): nat { if a < b then a else b }

  /** Cutting twice is cutting once, at the smaller count. */
  lemma PrefixOfPrefix(s: Text, m: nat, n: nat)
    ensures Prefix(Prefix(s, m), n) == Prefix(s, Min(m, n))
  {
    var chars := Characters(s);
    var k := Min(m, |chars|);
    assert chars[..|chars|] == chars;
    CharactersOfPrefix(s, k);
    assert Prefix(s, m) == Join(chars[..k]);
    if n < k {
      assert chars[..k][..n] == chars[..n];
    }
  }

  // ---------------------------------------------------------------- well-formed text

  /** A character as UTF-8 writes it: a byte that starts one, then bytes that continue it; no NUL. */
  predicate IsCharacter(c: Text) {
    |c| > 0 && c[0] != 0 && !Continues(c[0]) && forall i :: 1 <= i < |c| ==> Continues(c[i])
  }

  /** On well-formed text the prefix is what its description says: the first `count` characters, or all. */
  lemma {:induction false} PrefixOfWellFormed(chars: seq<Text>, count: nat)
    requires forall i :: 0 <= i < |chars| ==> IsCharacter(chars[i])
    ensures Characters(Join(chars)) == chars
    ensures Prefix(Join(chars), count) == Join(chars[..Min(count, |chars|)])
    decreases |chars|
  {
    if chars != [] {
      PrefixOfWellFormed(chars[1..], count);
      TailIsNewCharacter(chars);
      hide IsCharacter, Characters;
      OneCharacter(chars[0], Join(chars[1..]));
      assert chars == [chars[0]] + chars[1..];
    }
    assert chars[..|chars|] == chars;
  }

  lemma TailIsNewCharacter(chars: seq<Text>)
    requires chars != [] && forall i :: 0 <= i < |chars| ==> IsCharacter(chars[i])
    ensures |chars[0]| > 0 && chars[0][0] != 0 && forall i :: 1 <= i < |chars[0]| ==> Continues(chars[0][i])
    ensures Join(chars[1..]) != [] ==> !Continues(Join(chars[1..])[0])
  {
    if |chars| > 1 { assert chars[1..][0] == chars[1] && Join(chars[1..])[0] == chars[1][0]; }
  }

  // ---------------------------------------------------------------- the indexes

  /** The key under which `populate_maps` files a word: compared by length in bytes, cut by characters. */
  function TrimmedKey(word: Text, n: nat): Text {
    if |word| > n then Prefix(word, n) else word
  }

  /** The branch on the length in bytes makes no difference, except for short words with a NUL in them. */
  lemma TrimmedKeyIsPrefix(word: Text, n: nat)
    ensures TrimmedKey(word, n) == Prefix(word, n) <==> |word| > n || 0 !in word
    ensures |word| <= n ==> TrimmedKey(word, n) == word
  {
    if |word| <= n {
      CharactersJoin(word);
      CStrWhole(word);
    }
  }

  function TrimmedKeys(words: seq<Text>, n: nat): (keys: seq<Text>)
    ensures |keys| == |words|
    ensures forall i :: 0 <= i < |keys| ==> keys[i] == TrimmedKey(words[i], n)
  {
    if words == [] then [] else [TrimmedKey(words[0], n)] + TrimmedKeys(words[1..], n)
  }

  /** `i` is the last place where its key occurs. */
  ghost predicate IsLast(keys: seq<Text>, i: nat) {
    i < |keys| && forall j :: i < j < |keys| ==> keys[j] != keys[i]
  }

  /** `after` is `before` with each key of the list leading to the last place where it occurs. */
  ghost predicate Indexed(before: map<Text, nat>, keys: seq<Text>, after: map<Text, nat>) {
    && (forall k :: k in after <==> k in before || k in keys)
    && (forall i: nat :: IsLast(keys, i) ==> keys[i] in after && after[keys[i]] == i)
    && (forall k :: k in before && k !in keys ==> k in after && after[k] == before[k])
  }

  lemma LastOfLonger(keys: seq<Text>, i: nat, j: nat)
    requires i < |keys| && IsLast(keys[..i + 1], j)
    ensures j == i || (j < i && keys[j] != keys[i] && IsLast(keys[..i], j))
  {
    var short, long := keys[..i], keys[..i + 1];
    if j != i {
      assert long[i] == keys[i] && long[j] == keys[j];
      forall l | j < l < |short| ensures short[l] != short[j] { assert long[l] == short[l]; }
    }
  }

  lemma IndexedStep(before: map<Text, nat>, keys: seq<Text>, i: nat, after: map<Text, nat>)
    requires i < |keys| && Indexed(before, keys[..i], after)
    ensures Indexed(before, keys[..i + 1], after[keys[i] := i])
  {
    var short, long := keys[..i], keys[..i + 1];
    var m := after[keys[i] := i];
    assert long == short + [keys[i]];
    forall k: Text ensures k in long <==> k in short || k == keys[i] {}
    forall j: nat | IsLast(long, j) ensures long[j] in m && m[long[j]] == j {
      LastOfLonger(keys, i, j);
    }
  }

  lemma {:induction false} LastPlace(keys: seq<Text>, i: nat) returns (m: nat)
    requires i < |keys|
    ensures i <= m && IsLast(keys, m) && keys[m] == keys[i]
    decreases |keys| - i
  {
    if j: nat :| i < j < |keys| && keys[j] == keys[i] {
      m := LastPlace(keys, j);
    } else {
      m := i;
    }
  }

  /** Said without a notion of last place: a key leads to a place that has it, with none behind that has it too. */
  lemma LaterWordWins(before: map<Text, nat>, keys: seq<Text>, index: map<Text, nat>, i: nat)
    requires i < |keys| && Indexed(before, keys, index)
    ensures keys[i] in index && i <= index[keys[i]] < |keys| && keys[index[keys[i]]] == keys[i]
  {
    var m := LastPlace(keys, i);
  }

  /** `Language::Base`: a word list and the two maps built from it. */
  class Language {
    var wordList: seq<Text>
    var wordMap: map<Text, nat>
    var trimmedWordMap: map<Text, nat>
    var uniquePrefixLength: nat

    constructor ()
      ensures wordList == [] && wordMap == map[] && trimmedWordMap == map[] && uniquePrefixLength == 4
    {
      wordList, wordMap, trimmedWordMap, uniquePrefixLength := [], map[], map[], 4;
    }

    /** The index is an `int` counted up past the last word. */
    method PopulateMaps()
      requires |wordList| <= 0x7FFF_FFFF
      modifies this`wordMap, this`trimmedWordMap
      ensures Indexed(old(wordMap), wordList, wordMap)
      ensures Indexed(old(trimmedWordMap), TrimmedKeys(wordList, uniquePrefixLength), trimmedWordMap)
    {
      hide Indexed, Prefix, TrimmedKeys, TrimmedKey;
      ghost var keys := TrimmedKeys(wordList, uniquePrefixLength);
      var ii := 0;
      IndexedEmpty(wordMap);
      IndexedEmpty(trimmedWordMap);
      Slices(wordList);
      Slices(keys);
      while ii < |wordList|
        invariant ii <= |wordList|
        invariant Indexed(old(wordMap), wordList[..ii], wordMap)
        invariant Indexed(old(trimmedWordMap), keys[..ii], trimmedWordMap)
      {
        var it := wordList[ii];
        IndexedStep(old(wordMap), wordList, ii, wordMap);
        IndexedStep(old(trimmedWordMap), keys, ii, trimmedWordMap);
        KeyOf(it, uniquePrefixLength);
        wordMap := wordMap[it := ii];
        if |it| > uniquePrefixLength {
          var prefix := Utf8Prefix(it, uniquePrefixLength);
          trimmedWordMap := trimmedWordMap[prefix := ii];
        } else {
          trimmedWordMap := trimmedWordMap[it := ii];
        }
        ii := ii + 1;
      }
    }
  }

  lemma Slices(s: seq<Text>)
    ensures s[..0] == [] && s[..|s|] == s
  {
  }

  lemma KeyOf(word: Text, n: nat)
    ensures TrimmedKey(word, n) == if |word| > n then Prefix(word, n) else word
  {
  }

  lemma IndexedEmpty(m: map<Text, nat>)
    ensures Indexed(m, [], m)
  {
  }

  /** Every word is found at its own index by its trimmed key exactly if the trimmed keys are pairwise different. */
  lemma OwnIndexIff(before: map<Text, nat>, keys: seq<Text>, index: map<Text, nat>)
    requires Indexed(before, keys, index)
    ensures (forall i :: 0 <= i < |keys| ==> keys[i] in index && index[keys[i]] == i) <==> AllDifferent(keys)
  {
    if AllDifferent(keys) {
      forall i | 0 <= i < |keys| ensures keys[i] in index && index[keys[i]] == i {
        assert IsLast(keys, i);
      }
    }
  }

  /**
    With different trimmed keys, a word shortened to any number of characters from the unique prefix
    length on, and cut to that length again, still leads to its own index.
   */
  lemma ShortenedWordIsFound(words: seq<Text>, n: nat, keys: seq<Text>, before: map<Text, nat>, index: map<Text, nat>,
                             i: nat, k: nat)
    requires keys == TrimmedKeys(words, n) && Indexed(before, keys, index) && AllDifferent(keys)
    requires forall w :: w in words ==> 0 !in w
    requires i < |words| && n <= k
    ensures var typed := Prefix(words[i], k); Prefix(typed, n) in index && index[Prefix(typed, n)] == i
  {
    PrefixOfPrefix(words[i], k, n);
    TrimmedKeyIsPrefix(words[i], n);
    OwnIndexIff(before, keys, index);
    assert keys[i] == Prefix(words[i], n);
  }
}
