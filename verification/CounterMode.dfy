/**
 Counter mode with a 128-bit big-endian counter, as section 6.5 and appendix B.1 of NIST SP 800-38A
 define it, over an arbitrary block function.
 */
module CounterMode {
  import opened Bytes
  import opened BitCasts

  type Block = s: seq<byte> | |s| == 16 witness seq(16, _ => 0)
  type Key32 = s: seq<byte> | |s| == 32 witness seq(32, _ => 0)

  /** The block function under a fixed key. */
  type BlockFn = Block -> Block

  const COUNTER_RANGE: nat := 0x1_0000_0000_0000_0000_0000_0000_0000_0000

  // Exclusive or of bytes.

  function Xor(a: byte, b: byte): byte {
    ((a as bv8) ^ (b as bv8)) as byte
  }

  lemma XorCancels(a: byte, b: byte)
    ensures Xor(Xor(a, b), b) == a
  {
    CastFromBits((a as bv8) ^ (b as bv8));
    CastToBits(a);
  }

  lemma XorCommutes(a: byte, b: byte)
    ensures Xor(a, b) == Xor(b, a)
  {
  }

  lemma XorAssociates(a: byte, b: byte, c: byte)
    ensures Xor(Xor(a, b), c) == Xor(a, Xor(b, c))
  {
    XorBits(a, b);
    XorBits(b, c);
    assert ((a as bv8) ^ (b as bv8)) ^ (c as bv8) == (a as bv8) ^ ((b as bv8) ^ (c as bv8));
  }

  lemma XorBits(a: byte, b: byte)
    ensures Xor(a, b) as bv8 == (a as bv8) ^ (b as bv8)
  {
    CastFromBits((a as bv8) ^ (b as bv8));
  }

  lemma XorZero(a: byte)
    ensures Xor(a, 0) == a
  {
    CastToBits(a);
  }

  // Big-endian numbers.

  function Pow256(k: nat): nat {
    if k == 0 then 1 else 256 * Pow256(k - 1)
  }

  function BeValue(s: seq<byte>): nat {
    if s == [] then 0 else 256 * BeValue(s[..|s| - 1]) + s[|s| - 1]
  }

  function BeBytes(n: nat, k: nat): (s: seq<byte>)
    ensures |s| == k
    decreases n, k
  {
    if k == 0 then [] else BeBytes(n / 256, k - 1) + [n % 256]
  }

  lemma {:induction false} BeValueBound(s: seq<byte>)
    ensures BeValue(s) < Pow256(|s|)
  {
    if s != [] {
      BeValueBound(s[..|s| - 1]);
    }
  }

  lemma {:induction false} BeValueOfBytes(n: nat, k: nat)
    requires n < Pow256(k)
    ensures BeValue(BeBytes(n, k)) == n
  {
    if k != 0 {
      BeValueOfBytes(n / 256, k - 1);
      var s := BeBytes(n, k);
      assert s[..k - 1] == BeBytes(n / 256, k - 1);
    }
  }

  lemma {:induction false} BeValueInjective(s: seq<byte>, t: seq<byte>)
    requires |s| == |t| && BeValue(s) == BeValue(t)
    ensures s == t
  {
    if s != [] {
      var m := |s| - 1;
      LowByte(s[m], BeValue(s[..m]));
      LowByte(t[m], BeValue(t[..m]));
      BeValueInjective(s[..m], t[..m]);
      assert s == s[..m] + [s[m]] && t == t[..m] + [t[m]];
    }
  }

  lemma Pow256Sixteen()
    ensures Pow256(16) == COUNTER_RANGE
    ensures Pow256(12) * 0x1_0000_0000 == COUNTER_RANGE
  {
    assert Pow256(4) == 0x1_0000_0000;
    assert Pow256(8) == 0x1_0000_0000_0000_0000;
    assert Pow256(12) == 0x1_0000_0000_0000_0000_0000_0000;
  }

  // The counter.

  /** The standard incrementing function on the whole block (B.1 with m = 128). */
  function Increment(t: Block): Block {
    BeBytes((BeValue(t) + 1) % COUNTER_RANGE, 16)
  }

  /** The j-th counter block. */
  function CounterBlock(iv: Block, j: nat): Block {
    if j == 0 then iv else Increment(CounterBlock(iv, j - 1))
  }

  lemma IncrementValue(t: Block)
    requires BeValue(t) + 1 < COUNTER_RANGE
    ensures BeValue(Increment(t)) == BeValue(t) + 1
  {
    NoWrap(BeValue(t) + 1, COUNTER_RANGE);
    Pow256Sixteen();
    BeValueOfBytes(BeValue(t) + 1, 16);
  }

  lemma NoWrap(n: nat, m: nat)
    requires n < m
    ensures n % m == n
  {
  }

  lemma {:induction false} CounterBlockValue(iv: Block, j: nat)
    requires BeValue(iv) + j < COUNTER_RANGE
    ensures BeValue(CounterBlock(iv, j)) == BeValue(iv) + j
  {
    if j != 0 {
      CounterBlockValue(iv, j - 1);
      IncrementValue(CounterBlock(iv, j - 1));
    }
  }

  lemma {:induction false} CounterBlockShift(iv: Block, j: nat)
    ensures CounterBlock(iv, j + 1) == CounterBlock(Increment(iv), j)
  {
    if j != 0 {
      CounterBlockShift(iv, j - 1);
    }
  }

  // The mode.

  function XorSeq(s: seq<byte>, k: seq<byte>): (r: seq<byte>)
    requires |s| <= |k|
    ensures |r| == |s|
  {
    seq(|s|, i requires 0 <= i < |s| => Xor(s[i], k[i]))
  }

  /** C_j = P_j xor CIPH(T_j), the last block cut to what is needed. */
  function Ctr(f: BlockFn, t: Block, s: seq<byte>): (r: seq<byte>)
    ensures |r| == |s|
    decreases |s|
  {
    if |s| <= 16 then XorSeq(s, f(t))
    else XorSeq(s[..16], f(t)) + Ctr(f, Increment(t), s[16..])
  }

  /** Byte k of block j is masked by byte k of the output for counter block j. */
  lemma {:induction false} CtrByte(f: BlockFn, t: Block, s: seq<byte>, j: nat, k: nat)
    requires k < 16 && 16 * j + k < |s|
    ensures Ctr(f, t, s)[16 * j + k] == Xor(s[16 * j + k], f(CounterBlock(t, j))[k])
    decreases j
  {
    if |s| > 16 {
      var head, tail := XorSeq(s[..16], f(t)), Ctr(f, Increment(t), s[16..]);
      assert Ctr(f, t, s) == head + tail;
      if j == 0 {
        assert (head + tail)[k] == head[k];
      } else {
        var i := 16 * (j - 1) + k;
        CtrByte(f, Increment(t), s[16..], j - 1, k);
        CounterBlockShift(t, j - 1);
        assert (head + tail)[16 + i] == tail[i];
        assert s[16..][i] == s[16 + i];
      }
    }
  }

  /** The transform is its own inverse, whatever the block function. */
  lemma CtrInvolutive(f: BlockFn, t: Block, s: seq<byte>)
    ensures Ctr(f, t, Ctr(f, t, s)) == s
  {
    hide Xor, Ctr;
    var c := Ctr(f, t, s);
    forall i: nat | i < |s| ensures Ctr(f, t, c)[i] == s[i] {
      var j, k := i / 16, i % 16;
      CtrByte(f, t, s, j, k);
      CtrByte(f, t, c, j, k);
      XorCancels(s[i], f(CounterBlock(t, j))[k]);
    }
  }

  /** `apply_keystream` on the sub-slice data[lo..hi]: one running counter block, incremented every
      sixteen bytes. */
  method ApplyKeystream(f: BlockFn, iv: Block, data: array<byte>, lo: nat, hi: nat)
    requires lo <= hi <= data.Length
    modifies data
    ensures data[..] == old(data[..lo]) + Ctr(f, iv, old(data[lo..hi])) + old(data[hi..])
  {
    hide Xor, Ctr, Masked;
    ghost var before := data[..];
    ghost var cipher := Ctr(f, iv, data[lo..hi]);
    MaskAll(before, cipher, lo, hi);
    ghost var j := 0;
    var t, used := iv, 0;
    var mask := f(t);
    for i := lo to hi
      invariant 0 <= used <= 16 && i - lo == 16 * j + used
      invariant t == CounterBlock(iv, j) && mask == f(t)
      invariant data[..] == Masked(before, cipher, lo, i)
    {
      if used == 16 {
        t := Increment(t);
        mask := f(t);
        j, used := j + 1, 0;
      }
      MaskedByte(f, iv, before[lo..hi], i - lo, j, used);
      MaskOne(before, cipher, lo, i);
      assert data[i] == data[..][i] == before[lo..hi][i - lo];
      data[i] := Xor(data[i], mask[used]);
      used := used + 1;
    }
    MaskAll(before, cipher, lo, hi);
  }

  /** The buffer when the cipher text has been written up to position i. */
  ghost function Masked(before: seq<byte>, cipher: seq<byte>, lo: nat, i: nat): seq<byte>
    requires lo <= i <= |before| && i - lo <= |cipher|
  {
    before[..lo] + cipher[..i - lo] + before[i..]
  }

  lemma MaskOne(before: seq<byte>, cipher: seq<byte>, lo: nat, i: nat)
    requires lo <= i < |before| && i - lo < |cipher|
    ensures Masked(before, cipher, lo, i)[i] == before[i]
    ensures Masked(before, cipher, lo, i)[i := cipher[i - lo]] == Masked(before, cipher, lo, i + 1)
  {
  }

  lemma MaskAll(before: seq<byte>, cipher: seq<byte>, lo: nat, hi: nat)
    requires lo <= hi <= |before| && |cipher| == hi - lo
    ensures Masked(before, cipher, lo, lo) == before
    ensures Masked(before, cipher, lo, hi) == before[..lo] + cipher + before[hi..]
  {
  }

  lemma MaskedByte(f: BlockFn, iv: Block, s: seq<byte>, p: nat, j: nat, k: nat)
    requires p == 16 * j + k < |s| && k < 16
    ensures Ctr(f, iv, s)[p] == Xor(s[p], f(CounterBlock(iv, j))[k])
  {
    CtrByte(f, iv, s, j, k);
  }
}
