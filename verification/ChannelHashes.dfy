/** The two channel hashes: the one-byte exclusive-or hash of meshtassy-net/src/channel.rs and the
    djb2 hash of meshtassy-net/src/lib.rs. */
module ChannelHashes {
  import opened Bytes
  import opened Options
  import opened CounterMode
  import opened Keys

  // The exclusive-or hash.

  /** The exclusive or of all bytes. */
  function XorHash(s: seq<byte>): byte {
    if s == [] then 0 else Xor(XorHash(s[..|s| - 1]), s[|s| - 1])
  }

  method ComputeXorHash(data: seq<byte>) returns (code: byte)
    ensures code == XorHash(data)
  {
    code := 0;
    for i := 0 to |data|
      invariant code == XorHash(data[..i])
    {
      code := Xor(code, data[i]);
      assert data[..i + 1][..i] == data[..i];
    }
    assert data[..|data|] == data;
  }

  lemma {:induction false} XorHashAppend(a: seq<byte>, b: seq<byte>)
    ensures XorHash(a + b) == Xor(XorHash(a), XorHash(b))
    decreases |b|
  {
    if b == [] {
      assert a + b == a;
      XorZero(XorHash(a));
    } else {
      var m := |b| - 1;
      assert (a + b)[..|a + b| - 1] == a + b[..m];
      XorHashAppend(a, b[..m]);
      XorAssociates(XorHash(a), XorHash(b[..m]), b[m]);
    }
  }

  lemma XorHashOne(b: byte)
    ensures XorHash([b]) == b
  {
    assert [b][..0] == [];
    XorCommutes(0, b);
    XorZero(b);
  }

  /** Moving one byte to the front does not change the hash. */
  lemma XorHashPull(s: seq<byte>, i: nat)
    requires i < |s|
    ensures XorHash(s) == XorHash([s[i]] + (s[..i] + s[i + 1..]))
  {
    hide Xor, XorHash;
    var a, x, b := s[..i], [s[i]], s[i + 1..];
    assert s == (a + x) + b;
    XorHashAppend(a + x, b);
    XorHashAppend(a, x);
    XorHashAppend(a, b);
    XorHashAppend(x, a + b);
    XorSwaps(XorHash(a), XorHash(x), XorHash(b));
  }

  lemma XorSwaps(a: byte, x: byte, b: byte)
    ensures Xor(Xor(a, x), b) == Xor(x, Xor(a, b))
  {
    XorCommutes(a, x);
    XorAssociates(x, a, b);
  }

  /** The hash depends only on the bytes, not on their order. */
  lemma {:induction false} XorHashPermutation(a: seq<byte>, b: seq<byte>)
    requires multiset(a) == multiset(b)
    ensures XorHash(a) == XorHash(b)
    decreases |a|
  {
    hide Xor;
    assert |multiset(a)| == |a| && |multiset(b)| == |b|;
    if a != [] {
      var x, rest := a[0], a[1..];
      assert a == [x] + rest;
      assert x in multiset(b);
      var i :| 0 <= i < |b| && b[i] == x;
      var others := b[..i] + b[i + 1..];
      RemoveBoth(a, b, i);
      XorHashPermutation(rest, others);
      XorHashPull(b, i);
      XorHashAppend([x], rest);
      XorHashAppend([x], others);
    }
  }

  lemma RemoveBoth(a: seq<byte>, b: seq<byte>, i: nat)
    requires multiset(a) == multiset(b) && a != [] && i < |b| && b[i] == a[0]
    ensures multiset(a[1..]) == multiset(b[..i] + b[i + 1..])
  {
    assert a == [a[0]] + a[1..];
    assert b == b[..i] + [b[i]] + b[i + 1..];
    assert multiset(a[1..]) == multiset(a) - multiset{a[0]};
    assert multiset(b[..i] + b[i + 1..]) == multiset(b) - multiset{b[i]};
  }

  /** `generate_channel_hash`: none for the empty name. */
  method GenerateChannelHash(name: seq<byte>, key: MeshKey) returns (hash: Option<byte>)
    ensures hash == if name == [] then None else Some(XorHash(name + key.AsBytes()))
  {
    if |name| == 0 {
      return None;
    }
    var nameHash := ComputeXorHash(name);
    var keyHash := ComputeXorHash(key.AsBytes());
    XorHashAppend(name, key.AsBytes());
    return Some(Xor(nameHash, keyHash));
  }

  /** Under any name, different one-byte keys have different hashes; the key 0x01 hashes as no key does. */
  lemma OneByteKeysHashApart(name: seq<byte>, k1: byte, k2: byte)
    ensures XorHash(name + NewMeshKey([k1]).value.AsBytes()) == XorHash(name + NewMeshKey([k2]).value.AsBytes())
            <==> k1 == k2
    ensures NewMeshKey([0x01]).value.AsBytes() == NewMeshKey([]).value.AsBytes()
  {
    var base := name + DEFAULT_KEY[..15];
    forall k: byte ensures XorHash(name + NewMeshKey([k]).value.AsBytes()) == Xor(XorHash(base), k) {
      assert name + DEFAULT_KEY[15 := k] == base + [k];
      XorHashAppend(base, [k]);
      XorHashOne(k);
    }
    XorLeftCancels(XorHash(base), k1);
    XorLeftCancels(XorHash(base), k2);
  }

  lemma XorLeftCancels(a: byte, b: byte)
    ensures Xor(Xor(a, b), a) == b
  {
    XorCommutes(a, b);
    XorCancels(b, a);
  }

  /** The hash the firmware puts into its headers: channel "LongFast" under key 0x01. */
  lemma LongFastHash()
    ensures XorHash([0x4c, 0x6f, 0x6e, 0x67, 0x46, 0x61, 0x73, 0x74] + NewMeshKey([0x01]).value.AsBytes()) == 0x08
  {
    hide Xor, XorHash;
    var name := [0x4c, 0x6f, 0x6e, 0x67, 0x46, 0x61, 0x73, 0x74];
    var key1 := [0xd4, 0xf1, 0xbb, 0x3a, 0x20, 0x29, 0x07, 0x59];
    var key2 := [0xf0, 0xbc, 0xff, 0xab, 0xcf, 0x4e, 0x69, 0x01];
    NameHash();
    KeyFrontHash();
    KeyBackHash();
    assert DEFAULT_KEY[15 := 0x01] == DEFAULT_KEY == key1 + key2;
    XorHashAppend(key1, key2);
    XorHashAppend(name, DEFAULT_KEY);
  }

  lemma NameHash()
    ensures XorHash([0x4c, 0x6f, 0x6e, 0x67, 0x46, 0x61, 0x73, 0x74]) == 0x0a
    ensures Xor(0xf3, 0xf1) == 0x02 && Xor(0x0a, 0x02) == 0x08
  {
    hide XorHash;
    EightBytes([0x4c, 0x6f, 0x6e, 0x67, 0x46, 0x61, 0x73, 0x74], 0x23, 0x4d, 0x2a, 0x6c, 0x0d, 0x7e, 0x0a);
  }

  lemma KeyFrontHash()
    ensures XorHash([0xd4, 0xf1, 0xbb, 0x3a, 0x20, 0x29, 0x07, 0x59]) == 0xf3
  {
    hide XorHash;
    EightBytes([0xd4, 0xf1, 0xbb, 0x3a, 0x20, 0x29, 0x07, 0x59], 0x25, 0x9e, 0xa4, 0x84, 0xad, 0xaa, 0xf3);
  }

  lemma KeyBackHash()
    ensures XorHash([0xf0, 0xbc, 0xff, 0xab, 0xcf, 0x4e, 0x69, 0x01]) == 0xf1
  {
    hide XorHash;
    EightBytes([0xf0, 0xbc, 0xff, 0xab, 0xcf, 0x4e, 0x69, 0x01], 0x4c, 0xb3, 0x18, 0xd7, 0x99, 0xf0, 0xf1);
  }

  /** Eight bytes hashed by way of the seven running values. */
  lemma EightBytes(s: seq<byte>, a: byte, b: byte, c: byte, d: byte, e: byte, f: byte, g: byte)
    requires |s| == 8
    requires Xor(s[0], s[1]) == a && Xor(a, s[2]) == b && Xor(b, s[3]) == c && Xor(c, s[4]) == d
    requires Xor(d, s[5]) == e && Xor(e, s[6]) == f && Xor(f, s[7]) == g
    ensures XorHash(s) == g
  {
    hide Xor;
    XorHashOne(s[0]);
    assert s[..1] == [s[0]] && s[..8] == s;
    forall k: nat | k < 8 ensures XorHash(s[..k + 1]) == Xor(XorHash(s[..k]), s[k]) {
      assert s[..k + 1][..k] == s[..k];
    }
    hide XorHash;
    assert XorHash(s[..2]) == a;
    assert XorHash(s[..4]) == c;
    assert XorHash(s[..6]) == e;
  }

  // The djb2 hash.

  const WORD: nat := 0x1_0000_0000

  /** The wrapping arithmetic of the loop. */
  function Djb2Step(hash: u32, b: byte): u32 {
    (hash * 33 % WORD + b) % WORD
  }

  function Djb2(s: seq<byte>): u32 {
    if s == [] then 5381 else Djb2Step(Djb2(s[..|s| - 1]), s[|s| - 1])
  }

  method ComputeDjb2(name: seq<byte>) returns (hash: u32)
    ensures hash == Djb2(name)
    ensures hash == Horner(5381, name) % WORD
  {
    hash := 5381;
    for i := 0 to |name|
      invariant hash == Djb2(name[..i])
    {
      hash := Djb2Step(hash, name[i]);
      assert name[..i + 1][..i] == name[..i];
    }
    assert name[..|name|] == name;
    Djb2IsHorner(name);
  }

  /** The hash of the empty name, and of the name "a". */
  lemma Djb2Examples()
    ensures Djb2([]) == 5381
    ensures Djb2([0x61]) == 177670
  {
    assert [0x61][..0] == [];
  }

  function Pow33(k: nat): nat {
    if k == 0 then 1 else 33 * Pow33(k - 1)
  }

  /** The base-33 polynomial with leading coefficient `seed`, without wrapping. */
  function Horner(seed: nat, s: seq<byte>): nat {
    if s == [] then seed else 33 * Horner(seed, s[..|s| - 1]) + s[|s| - 1]
  }

  lemma {:induction false} Djb2IsHorner(s: seq<byte>)
    ensures Djb2(s) == Horner(5381, s) % WORD
  {
    if s != [] {
      var init := s[..|s| - 1];
      Djb2IsHorner(init);
      StepMod(Horner(5381, init), s[|s| - 1]);
    }
  }

  lemma StepMod(n: nat, b: byte)
    ensures Djb2Step(n % WORD, b) == (33 * n + b) % WORD
  {
    var q, r := n / WORD, n % WORD;
    assert n == WORD * q + r;
    var q', r' := r * 33 / WORD, r * 33 % WORD;
    assert 33 * n + b == WORD * (33 * q + q') + (r' + b);
    AddMultiple(33 * q + q', r' + b);
  }

  lemma AddMultiple(q: int, r: nat)
    requires WORD * q + r >= 0
    ensures (WORD * q + r) % WORD == r % WORD
  {
    assert WORD * q + r == WORD * (q + r / WORD) + r % WORD;
  }

  /** The polynomial in closed form: the seed and each byte weighted by its power of 33. */
  lemma {:induction false} HornerSplit(seed: nat, a: seq<byte>, b: seq<byte>)
    ensures Horner(seed, a + b) == Pow33(|b|) * Horner(seed, a) + Horner(0, b)
    decreases |b|
  {
    if b == [] {
      assert a + b == a;
    } else {
      var init := b[..|b| - 1];
      assert (a + b)[..|a + b| - 1] == a + init;
      HornerSplit(seed, a, init);
      TimesThirtyThree(Pow33(|init|), Horner(seed, a));
      assert Pow33(|b|) == 33 * Pow33(|init|);
      assert Horner(seed, a + b) == 33 * Horner(seed, a + init) + b[|b| - 1];
    }
  }

  lemma TimesThirtyThree(p: nat, h: nat)
    ensures 33 * (p * h) == (33 * p) * h
  {
  }

  /** The step is injective in the hash, because 33 has the inverse 1041204193 modulo 2^32. */
  lemma StepInjective(x: u32, y: u32, b: byte)
    requires Djb2Step(x, b) == Djb2Step(y, b)
    ensures x == y
  {
    hide Djb2Step;
    NoWrap(x, WORD);
    NoWrap(y, WORD);
    StepMod(x, b);
    StepMod(y, b);
    var m: nat, n: nat := 33 * x + b, 33 * y + b;
    SameRemainder(m, n);
    CancelThirtyThree((x as int) - (y as int), m / WORD - n / WORD);
  }

  lemma SameRemainder(m: int, n: int)
    requires m % WORD == n % WORD
    ensures m - n == WORD * (m / WORD - n / WORD)
  {
  }

  lemma CancelThirtyThree(d: int, q: int)
    requires 33 * d == WORD * q && -0x1_0000_0000 < d < 0x1_0000_0000
    ensures d == 0
  {
    assert 33 * 1041204193 == 8 * WORD + 1;
    assert d == WORD * (1041204193 * q - 8 * d);
  }

  /** A common suffix can be cancelled. */
  lemma {:induction false} SuffixCancels(a: seq<byte>, b: seq<byte>, suffix: seq<byte>)
    ensures Djb2(a + suffix) == Djb2(b + suffix) <==> Djb2(a) == Djb2(b)
    decreases |suffix|
  {
    if suffix == [] {
      assert a + suffix == a && b + suffix == b;
    } else {
      var m := |suffix| - 1;
      var s, t := a + suffix[..m], b + suffix[..m];
      assert (a + suffix)[..|a + suffix| - 1] == s && (b + suffix)[..|b + suffix| - 1] == t;
      SuffixCancels(a, b, suffix[..m]);
      if Djb2(a + suffix) == Djb2(b + suffix) {
        StepInjective(Djb2(s), Djb2(t), suffix[m]);
      }
    }
  }

  /** Names that differ in exactly one byte never collide. */
  lemma OneByteApart(prefix: seq<byte>, x: byte, y: byte, suffix: seq<byte>)
    ensures Djb2(prefix + [x] + suffix) == Djb2(prefix + [y] + suffix) <==> x == y
  {
    SuffixCancels(prefix + [x], prefix + [y], suffix);
    assert (prefix + [x])[..|prefix|] == prefix && (prefix + [y])[..|prefix|] == prefix;
    var h := Djb2(prefix) * 33 % WORD;
    if (h + x) % WORD == (h + y) % WORD {
      NearbySums(h, x, y);
    }
  }

  lemma NearbySums(h: nat, x: nat, y: nat)
    requires h < WORD && x < WORD && y < WORD && (h + x) % WORD == (h + y) % WORD
    ensures x == y
  {
  }

  /** Names that differ in two neighbouring bytes collide exactly when a step of one in the first is
      made up by a step of 33 in the second. */
  lemma TwoBytesApart(prefix: seq<byte>, x1: byte, x2: byte, y1: byte, y2: byte, suffix: seq<byte>)
    ensures Djb2(prefix + [x1, x2] + suffix) == Djb2(prefix + [y1, y2] + suffix)
            <==> 33 * (x1 as int) + x2 == 33 * (y1 as int) + y2
  {
    SuffixCancels(prefix + [x1, x2], prefix + [y1, y2], suffix);
    hide Djb2;
    TwoSteps(prefix, x1, x2);
    TwoSteps(prefix, y1, y2);
    var h: nat := 33 * 33 * Djb2(prefix);
    var u: nat, v: nat := 33 * (x1 as int) + x2, 33 * (y1 as int) + y2;
    if (h + u) % WORD == (h + v) % WORD {
      SumsModulo(h, u, v);
    }
  }

  lemma SumsModulo(h: nat, x: nat, y: nat)
    requires x < WORD && y < WORD && (h + x) % WORD == (h + y) % WORD
    ensures x == y
  {
    var p, q := (h + x) / WORD, (h + y) / WORD;
    assert x - y == WORD * (p - q);
  }

  lemma TwoSteps(prefix: seq<byte>, x1: byte, x2: byte)
    ensures Djb2(prefix + [x1, x2]) == (33 * 33 * Djb2(prefix) + (33 * (x1 as int) + x2)) % WORD
  {
    var one, two := prefix + [x1], prefix + [x1, x2];
    assert two[..|two| - 1] == one && one[..|one| - 1] == prefix;
    var n: nat := 33 * Djb2(prefix) + x1;
    StepMod(Djb2(prefix), x1);
    assert Djb2(prefix) % WORD == Djb2(prefix);
    StepMod(n, x2);
  }
}
