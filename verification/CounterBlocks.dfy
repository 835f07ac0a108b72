/** No counter block is ever used twice: neither within a packet nor by two packets that differ in
    packet id or source. */
module CounterBlocks {
  import opened Bytes
  import opened Headers
  import opened CounterMode

  const LOW_WORD: nat := 0x1_0000_0000

  lemma BeValueZeros(s: seq<byte>)
    ensures BeValue(s + [0, 0, 0, 0]) == LOW_WORD * BeValue(s)
  {
    AppendZero(s);
    AppendZero(s + [0]);
    AppendZero(s + [0, 0]);
    AppendZero(s + [0, 0, 0]);
  }

  lemma AppendZero(s: seq<byte>)
    ensures BeValue(s + [0]) == 256 * BeValue(s)
    ensures s + [0, 0] == s + [0] + [0] && s + [0, 0, 0] == s + [0, 0] + [0]
    ensures s + [0, 0, 0, 0] == s + [0, 0, 0] + [0]
  {
    assert (s + [0])[..|s|] == s;
  }

  /** Read as a big-endian number, the initial block is a multiple of 2^32, its first twelve bytes
      being the multiplier. */
  lemma IvValue(id: u64, node: u32)
    ensures BeValue(Iv(id, node)) == LOW_WORD * BeValue(Iv(id, node)[..12])
    ensures BeValue(Iv(id, node)) + LOW_WORD <= COUNTER_RANGE
  {
    var iv := Iv(id, node);
    assert iv == iv[..12] + [0, 0, 0, 0];
    BeValueZeros(iv[..12]);
    BeValueBound(iv[..12]);
    Pow256Sixteen();
  }

  /** The j-th block counts up from the initial one without ever carrying out of the last four bytes. */
  lemma BlockValue(id: u64, node: u32, j: nat)
    requires j < LOW_WORD
    ensures BeValue(CounterBlock(Iv(id, node), j)) == LOW_WORD * BeValue(Iv(id, node)[..12]) + j
    ensures BeValue(CounterBlock(Iv(id, node), j)) / LOW_WORD == BeValue(Iv(id, node)[..12])
    ensures BeValue(CounterBlock(Iv(id, node), j)) % LOW_WORD == j
  {
    IvValue(id, node);
    CounterBlockValue(Iv(id, node), j);
    Split(BeValue(Iv(id, node)[..12]), j);
  }

  lemma Split(high: nat, low: nat)
    requires low < LOW_WORD
    ensures (LOW_WORD * high + low) / LOW_WORD == high && (LOW_WORD * high + low) % LOW_WORD == low
  {
  }

  /** Two counter blocks coincide only when packet id, source and position all do. A payload of 240
      bytes uses fifteen positions; the statement covers the first 2^32. */
  lemma BlocksDistinct(h1: Header, j1: nat, h2: Header, j2: nat)
    requires j1 < LOW_WORD && j2 < LOW_WORD
    ensures CounterBlock(Iv(h1.packetId, h1.source), j1) == CounterBlock(Iv(h2.packetId, h2.source), j2)
            <==> h1.packetId == h2.packetId && h1.source == h2.source && j1 == j2
  {
    var iv1, iv2 := Iv(h1.packetId, h1.source), Iv(h2.packetId, h2.source);
    BlockValue(h1.packetId, h1.source, j1);
    BlockValue(h2.packetId, h2.source, j2);
    if CounterBlock(iv1, j1) == CounterBlock(iv2, j2) {
      BeValueInjective(iv1[..12], iv2[..12]);
      IvInjective(h1.packetId, h1.source, h2.packetId, h2.source);
    }
  }
}
