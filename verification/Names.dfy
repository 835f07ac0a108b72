/**
 Names in fixed-capacity strings: the two loops of `User::from_protobuf` in
 meshtassy-net/src/node_database.rs. A capacity counts bytes of UTF-8, not characters, and a
 character that does not fit is dropped while later ones are still tried.
 */
module Names {
  import opened Bytes

  /** The bytes a character takes in UTF-8 (section 3 of RFC 3629). */
  function Width(c: char): (w: nat)
    ensures 1 <= w <= 4
  {
    if c as int < 0x80 then 1 else if c as int < 0x800 then 2 else if c as int < 0x1_0000 then 3 else 4
  }

  /** The widths change exactly where section 3 of RFC 3629 says, and never decrease. */
  lemma WidthsAreUtf8(c: char, d: char)
    ensures c <= d ==> Width(c) <= Width(d)
    ensures Width('\U{00}') == Width('\U{7F}') == 1
    ensures Width('\U{80}') == Width('\U{7FF}') == 2
    ensures Width('\U{800}') == Width('\U{FFFF}') == 3
    ensures Width('\U{10000}') == Width('\U{10FFFF}') == 4
  {
  }

  function ByteLength(text: string): nat {
    if text == [] then 0 else ByteLength(text[..|text| - 1]) + Width(text[|text| - 1])
  }

  /** `heapless::String::push`: whole characters only. */
  function Push(name: string, c: char, capacity: nat): string {
    if ByteLength(name) + Width(c) <= capacity then name + [c] else name
  }

  function PushAll(text: string, capacity: nat): string {
    if text == [] then "" else Push(PushAll(text[..|text| - 1], capacity), text[|text| - 1], capacity)
  }

  /** What is stored of a name: its first `capacity` characters, pushed one by one. */
  function Stored(text: string, capacity: nat): (name: string)
    ensures ByteLength(name) <= capacity
  {
    PushAllFits(text[..Min(|text|, capacity)], capacity);
    PushAll(text[..Min(|text|, capacity)], capacity)
  }

  lemma {:induction false} PushAllFits(text: string, capacity: nat)
    ensures ByteLength(PushAll(text, capacity)) <= capacity
  {
    if text != [] {
      var init, c := text[..|text| - 1], text[|text| - 1];
      PushAllFits(init, capacity);
      var name := PushAll(init, capacity);
      assert (name + [c])[..|name|] == name;
    }
  }

  method StoreName(text: string, capacity: nat) returns (name: string)
    ensures name == Stored(text, capacity)
  {
    name := "";
    var taken := text[..Min(|text|, capacity)];
    for i := 0 to |taken|
      invariant name == PushAll(taken[..i], capacity)
    {
      assert taken[..i + 1][..i] == taken[..i];
      name := Push(name, taken[i], capacity);
    }
    assert taken[..|taken|] == taken;
  }

  // Which characters survive.

  /** The characters of a text a mask keeps. */
  function Select(text: string, mask: seq<bool>): string
    requires |mask| == |text|
  {
    if text == [] then ""
    else
      var n := |text| - 1;
      Select(text[..n], mask[..n]) + (if mask[n] then [text[n]] else "")
  }

  /** A mask that keeps a character exactly when it fits behind the characters kept before it. */
  ghost predicate Greedy(text: string, mask: seq<bool>, capacity: nat) {
    |mask| == |text| &&
    forall i :: 0 <= i < |text| ==>
                  (mask[i] <==> ByteLength(Select(text[..i], mask[..i])) + Width(text[i]) <= capacity)
  }

  /** Over the first `capacity` characters there is exactly one greedy mask, and the stored name is what
      it keeps. */
  lemma StoredIsGreedy(text: string, capacity: nat) returns (mask: seq<bool>)
    ensures Greedy(text[..Min(|text|, capacity)], mask, capacity)
    ensures Stored(text, capacity) == Select(text[..Min(|text|, capacity)], mask)
    ensures forall m: seq<bool> :: Greedy(text[..Min(|text|, capacity)], m, capacity) ==> m == mask
  {
    var taken := text[..Min(|text|, capacity)];
    mask := GreedyExists(taken, capacity);
    GreedyIsPushAll(taken, mask, capacity);
    forall m: seq<bool> | Greedy(taken, m, capacity) ensures m == mask {
      GreedyUnique(taken, m, mask, capacity);
    }
  }

  lemma {:induction false} GreedyUnique(text: string, m: seq<bool>, mask: seq<bool>, capacity: nat)
    requires Greedy(text, m, capacity) && Greedy(text, mask, capacity)
    ensures m == mask
  {
    if text != [] {
      var n := |text| - 1;
      GreedyPrefix(text, m, capacity, n);
      GreedyPrefix(text, mask, capacity, n);
      GreedyUnique(text[..n], m[..n], mask[..n], capacity);
      assert m == m[..n] + [m[n]] && mask == mask[..n] + [mask[n]];
    }
  }

  lemma {:induction false} GreedyIsPushAll(text: string, mask: seq<bool>, capacity: nat)
    requires Greedy(text, mask, capacity)
    ensures PushAll(text, capacity) == Select(text, mask)
  {
    if text != [] {
      var n := |text| - 1;
      GreedyPrefix(text, mask, capacity, n);
      GreedyIsPushAll(text[..n], mask[..n], capacity);
    }
  }

  lemma GreedyPrefix(text: string, mask: seq<bool>, capacity: nat, n: nat)
    requires Greedy(text, mask, capacity) && n <= |text|
    ensures Greedy(text[..n], mask[..n], capacity)
  {
    forall i | 0 <= i < n
      ensures mask[..n][i] <==> ByteLength(Select(text[..n][..i], mask[..n][..i])) + Width(text[..n][i]) <= capacity
    {
      assert text[..n][..i] == text[..i] && mask[..n][..i] == mask[..i];
    }
  }

  /** There always is such a mask. */
  lemma {:induction false} GreedyExists(text: string, capacity: nat) returns (mask: seq<bool>)
    ensures Greedy(text, mask, capacity)
  {
    if text == [] {
      mask := [];
    } else {
      var n := |text| - 1;
      var before := GreedyExists(text[..n], capacity);
      mask := before + [ByteLength(Select(text[..n], before)) + Width(text[n]) <= capacity];
      forall i | 0 <= i < |text|
        ensures mask[i] <==> ByteLength(Select(text[..i], mask[..i])) + Width(text[i]) <= capacity
      {
        if i < n {
          assert text[..n][..i] == text[..i] && mask[..i] == before[..i];
        } else {
          assert mask[..n] == before;
        }
      }
    }
  }

  /** A name is stored unchanged exactly when its bytes fit. */
  lemma StoredUnchangedIff(text: string, capacity: nat)
    ensures Stored(text, capacity) == text <==> ByteLength(text) <= capacity
  {
    if ByteLength(text) <= capacity {
      CharactersAreBytes(text);
      assert text[..|text|] == text;
      FitsIsKept(text, capacity);
    }
  }

  lemma {:induction false} CharactersAreBytes(text: string)
    ensures |text| <= ByteLength(text)
  {
    if text != [] {
      CharactersAreBytes(text[..|text| - 1]);
    }
  }

  lemma {:induction false} FitsIsKept(text: string, capacity: nat)
    requires ByteLength(text) <= capacity
    ensures PushAll(text, capacity) == text
  {
    if text != [] {
      FitsIsKept(text[..|text| - 1], capacity);
    }
  }

  /** Storing a stored name changes nothing. */
  lemma StoredIdempotent(text: string, capacity: nat)
    ensures Stored(Stored(text, capacity), capacity) == Stored(text, capacity)
  {
    StoredUnchangedIff(Stored(text, capacity), capacity);
  }

  // When the stored name is a prefix.

  /** How many characters of the longest front of a text fit. */
  function LongestFront(text: string, capacity: nat): (k: nat)
    ensures k <= |text|
  {
    if ByteLength(text) <= capacity then |text| else LongestFront(text[..|text| - 1], capacity)
  }

  lemma {:induction false} LongestFrontFits(text: string, capacity: nat)
    ensures var k := LongestFront(text, capacity);
            && ByteLength(text[..k]) <= capacity
            && (k < |text| ==> ByteLength(text[..k]) + Width(text[k]) > capacity)
  {
    var n := |text| - 1;
    if ByteLength(text) <= capacity {
      assert text[..|text|] == text;
    } else {
      var k := LongestFront(text[..n], capacity);
      LongestFrontFits(text[..n], capacity);
      assert text[..n][..k] == text[..k];
      if k < n {
        assert text[..n][k] == text[k];
      }
    }
  }

  /** As long as nothing behind the longest front fits, nothing is pushed behind it. */
  lemma {:induction false} OnlyFrontKept(text: string, capacity: nat, k: nat)
    requires k <= |text| && ByteLength(text[..k]) <= capacity
    requires forall i :: k <= i < |text| ==> ByteLength(text[..k]) + Width(text[i]) > capacity
    ensures PushAll(text, capacity) == text[..k]
  {
    var n := |text| - 1;
    if k == |text| {
      assert text[..k] == text;
      FitsIsKept(text, capacity);
    } else {
      assert text[..n][..k] == text[..k];
      OnlyFrontKept(text[..n], capacity, k);
    }
  }

  lemma {:induction false} PushAllGrows(text: string, capacity: nat, i: nat)
    requires i <= |text|
    ensures PushAll(text[..i], capacity) <= PushAll(text, capacity)
  {
    if i == |text| {
      assert text[..i] == text;
    } else {
      var n := |text| - 1;
      PushAllGrows(text[..n], capacity, i);
      assert text[..n][..i] == text[..i];
    }
  }

  /** Once a character behind the longest front fits, the first such is kept out of its place. */
  lemma LaterKeptIsNoPrefix(text: string, capacity: nat, k: nat, i: nat)
    requires k < i < |text| && ByteLength(text[..k]) <= capacity
    requires forall j :: k <= j < i ==> ByteLength(text[..k]) + Width(text[j]) > capacity
    requires ByteLength(text[..k]) + Width(text[i]) <= capacity
    ensures |PushAll(text, capacity)| > k && PushAll(text, capacity)[k] != text[k]
  {
    hide PushAll, ByteLength, Width;
    var front, c := text[..k], text[i];
    assert text[..i][..k] == front;
    OnlyFrontKept(text[..i], capacity, k);
    PushNext(text, capacity, i);
    assert PushAll(text[..i + 1], capacity) == front + [c];
    PushAllGrows(text, capacity, i + 1);
    assert (front + [c])[k] == c && c != text[k];
  }

  lemma PushNext(text: string, capacity: nat, i: nat)
    requires i < |text|
    ensures PushAll(text[..i + 1], capacity) == Push(PushAll(text[..i], capacity), text[i], capacity)
  {
    assert text[..i + 1][..i] == text[..i];
  }

  /** The stored name is a prefix of the text if and only if, of the characters pushed, none behind the
      longest front that fits would fit there; it then is that front. */
  lemma StoredIsPrefixIff(text: string, capacity: nat)
    ensures var taken := text[..Min(|text|, capacity)];
            var k := LongestFront(taken, capacity);
            && (Stored(text, capacity) <= text
                <==> forall i :: k <= i < |taken| ==> ByteLength(taken[..k]) + Width(taken[i]) > capacity)
            && (Stored(text, capacity) <= text ==> Stored(text, capacity) == taken[..k])
  {
    var taken := text[..Min(|text|, capacity)];
    var k := LongestFront(taken, capacity);
    LongestFrontFits(taken, capacity);
    if forall i :: k <= i < |taken| ==> ByteLength(taken[..k]) + Width(taken[i]) > capacity {
      OnlyFrontKept(taken, capacity, k);
    } else {
      var i := FirstThatFits(taken, capacity, k, k);
      LaterKeptIsNoPrefix(taken, capacity, k, i);
    }
  }

  lemma {:induction false} FirstThatFits(text: string, capacity: nat, k: nat, from: nat) returns (i: nat)
    requires k <= from <= |text|
    requires forall j :: k <= j < from ==> ByteLength(text[..k]) + Width(text[j]) > capacity
    requires exists j :: from <= j < |text| && ByteLength(text[..k]) + Width(text[j]) <= capacity
    ensures from <= i < |text| && ByteLength(text[..k]) + Width(text[i]) <= capacity
    ensures forall j :: k <= j < i ==> ByteLength(text[..k]) + Width(text[j]) > capacity
    decreases |text| - from
  {
    if ByteLength(text[..k]) + Width(text[from]) <= capacity {
      i := from;
    } else {
      i := FirstThatFits(text, capacity, k, from + 1);
    }
  }

  ghost predicate Ascii(text: string) {
    forall i :: 0 <= i < |text| ==> text[i] as int < 0x80
  }

  /** Of ASCII text the first `capacity` characters are stored. */
  lemma AsciiIsCut(text: string, capacity: nat)
    requires Ascii(text)
    ensures Stored(text, capacity) == text[..Min(|text|, capacity)]
  {
    var taken := text[..Min(|text|, capacity)];
    AsciiLength(taken);
    StoredIsPrefixIff(text, capacity);
    assert taken[..|taken|] == taken;
  }

  lemma {:induction false} AsciiLength(text: string)
    requires Ascii(text)
    ensures ByteLength(text) == |text|
  {
    if text != [] {
      AsciiLength(text[..|text| - 1]);
    }
  }

  /** Two three-byte characters and a letter in a four-byte name: the second is skipped, the letter kept. */
  lemma StoredNeedNotBePrefix()
    ensures Stored("\U{20AC}\U{20AC}a", 4) == "\U{20AC}a"
    ensures !("\U{20AC}a" <= "\U{20AC}\U{20AC}a")
  {
    var t := "\U{20AC}\U{20AC}a";
    assert t[..3] == t && t[..2] == "\U{20AC}\U{20AC}" && t[..2][..1] == "\U{20AC}" && t[..1][..0] == "";
    assert PushAll(t[..1], 4) == "\U{20AC}" by { assert "" + ['\U{20AC}'] == "\U{20AC}"; }
    assert ByteLength("\U{20AC}") == 3 by { assert "\U{20AC}"[..0] == ""; }
    assert PushAll(t[..2], 4) == "\U{20AC}";
    assert PushAll(t, 4) == "\U{20AC}a";
  }
}
