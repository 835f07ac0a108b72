/** The sixteen-byte packet header and the initial counter block made from it: meshtassy-net/src/header.rs. */
module Headers {
  import opened Bytes
  import opened BitCasts
  import opened Options

  datatype HeaderFlags = HeaderFlags(hopLimit: bv8, wantAck: bool, viaMqtt: bool, hopStart: bv8)

  datatype Header = Header(
    destination: u32,
    source: u32,
    packetId: u32,
    flags: HeaderFlags,
    channelHash: byte,
    nextHop: byte,
    relayNode: byte)

  function FlagsFromRaw(raw: bv8): HeaderFlags {
    HeaderFlags(raw & 0x07, raw & 0x08 != 0, raw & 0x10 != 0, (raw >> 5) & 0x07)
  }

  function FlagsToRaw(f: HeaderFlags): bv8 {
    (f.hopStart << 5) | (if f.viaMqtt then 0x10 else 0) | (if f.wantAck then 0x08 else 0) | (f.hopLimit & 0x07)
  }

  /** The flags as three-bit hop fields can carry them. */
  function Carried(f: HeaderFlags): HeaderFlags {
    f.(hopLimit := f.hopLimit & 0x07, hopStart := f.hopStart & 0x07)
  }

  lemma FlagsRoundTrip(f: HeaderFlags)
    ensures FlagsFromRaw(FlagsToRaw(f)) == Carried(f)
    ensures Carried(f) == f <==> f.hopLimit <= 7 && f.hopStart <= 7
  {
  }

  lemma RawRoundTrip(raw: bv8)
    ensures FlagsToRaw(FlagsFromRaw(raw)) == raw
  {
  }

  /** `Header::from_bytes`: any sixteen bytes are a header, any other number is not. */
  function FromBytes(bytes: seq<byte>): Option<Header> {
    if |bytes| != 16 then None
    else Some(Header(
                FromLe32(bytes[0..4]), FromLe32(bytes[4..8]), FromLe32(bytes[8..12]),
                FlagsFromRaw(bytes[12] as bv8), bytes[13], bytes[14], bytes[15]))
  }

  function HeaderBytes(h: Header): (bytes: seq<byte>)
    ensures |bytes| == 16
  {
    Le32(h.destination) + Le32(h.source) + Le32(h.packetId)
    + [FlagsToRaw(h.flags) as byte, h.channelHash, h.nextHop, h.relayNode]
  }

  /** Which byte of a header is which field. */
  lemma HeaderLayout(bytes: seq<byte>)
    ensures FromBytes(bytes).Some? <==> |bytes| == 16
    ensures |bytes| == 16 ==>
              var h, flags := FromBytes(bytes).value, bytes[12] as bv8;
              && LeValue(bytes[..4]) == h.destination
              && LeValue(bytes[4..8]) == h.source
              && LeValue(bytes[8..12]) == h.packetId
              && h.flags.hopLimit == (flags & 0x07)
              && (h.flags.wantAck <==> (flags & 0x08) != 0)
              && (h.flags.viaMqtt <==> (flags & 0x10) != 0)
              && h.flags.hopStart << 5 == (flags & 0xE0) && h.flags.hopStart <= 7
              && h.channelHash == bytes[13] && h.nextHop == bytes[14] && h.relayNode == bytes[15]
  {
    if |bytes| == 16 {
      LeValue32(bytes[0..4]);
      LeValue32(bytes[4..8]);
      LeValue32(bytes[8..12]);
      assert bytes[..4] == bytes[0..4];
      hide LeValue, FromLe32;
      HopStartBits(bytes[12] as bv8);
    }
  }

  lemma HopStartBits(raw: bv8)
    ensures ((raw >> 5) & 0x07) << 5 == raw & 0xE0 && (raw >> 5) & 0x07 <= 7
  {
  }

  /** Writing a header and reading it back gives it back with its hop fields cut to three bits. */
  lemma HeaderRoundTrip(h: Header)
    ensures FromBytes(HeaderBytes(h)) == Some(h.(flags := Carried(h.flags)))
  {
    var s := HeaderBytes(h);
    assert s[0..4] == Le32(h.destination) && s[4..8] == Le32(h.source) && s[8..12] == Le32(h.packetId);
    Le32RoundTrip(h.destination);
    Le32RoundTrip(h.source);
    Le32RoundTrip(h.packetId);
    CastFromBits(FlagsToRaw(h.flags));
    FlagsRoundTrip(h.flags);
  }

  /** Reading sixteen bytes and writing them back is the identity. */
  lemma BytesRoundTrip(bytes: seq<byte>)
    requires |bytes| == 16
    ensures HeaderBytes(FromBytes(bytes).value) == bytes
  {
    FromLe32RoundTrip(bytes[0..4]);
    FromLe32RoundTrip(bytes[4..8]);
    FromLe32RoundTrip(bytes[8..12]);
    RawRoundTrip(bytes[12] as bv8);
    CastToBits(bytes[12]);
    assert bytes == bytes[0..4] + bytes[4..8] + bytes[8..12] + [bytes[12], bytes[13], bytes[14], bytes[15]];
  }

  lemma HeaderBytesLayout(h: Header)
    ensures var bytes := HeaderBytes(h);
            && LeValue(bytes[..4]) == h.destination
            && LeValue(bytes[4..8]) == h.source
            && LeValue(bytes[8..12]) == h.packetId
            && bytes[13..] == [h.channelHash, h.nextHop, h.relayNode]
  {
    HeaderRoundTrip(h);
    HeaderLayout(HeaderBytes(h));
    hide FromBytes, LeValue, Le32;
  }

  /** `Header::to_bytes`: what it writes into its local array is read back as the header. */
  method ToBytes(h: Header) returns (result: seq<byte>)
    ensures result == HeaderBytes(h)
    ensures FromBytes(result) == Some(h.(flags := Carried(h.flags)))
    ensures |result| == 16 && LeValue(result[..4]) == h.destination && LeValue(result[4..8]) == h.source
    ensures LeValue(result[8..12]) == h.packetId
    ensures result[13..] == [h.channelHash, h.nextHop, h.relayNode]
  {
    hide FromBytes, LeValue, Le32, FlagsToRaw;
    var bytes := new byte[16](_ => 0);
    CopyInto(bytes, 0, Le32(h.destination));
    CopyInto(bytes, 4, Le32(h.source));
    CopyInto(bytes, 8, Le32(h.packetId));
    assert bytes[..12] == Le32(h.destination) + Le32(h.source) + Le32(h.packetId);
    bytes[12] := FlagsToRaw(h.flags) as byte;
    bytes[13] := h.channelHash;
    bytes[14] := h.nextHop;
    bytes[15] := h.relayNode;
    result := bytes[..];
    assert result == bytes[..12] + [bytes[12], bytes[13], bytes[14], bytes[15]];
    HeaderRoundTrip(h);
    HeaderBytesLayout(h);
  }

  /** The initial counter block: packet id in eight bytes, source in four, four zero bytes. */
  function Iv(packetId: u64, fromNode: u32): (iv: seq<byte>)
    ensures |iv| == 16
  {
    Le64(packetId) + Le32(fromNode) + Zeros(4)
  }

  /** Both of its numbers are written with their least significant byte first. */
  lemma IvLayout(packetId: u64, fromNode: u32)
    ensures var iv := Iv(packetId, fromNode);
            && LeValue(iv[..8]) == packetId
            && LeValue(iv[8..12]) == fromNode
            && iv[12..] == [0, 0, 0, 0]
  {
    hide LeValue, Le32, Le64;
    LeValueOfBytes(fromNode, packetId);
    var iv := Iv(packetId, fromNode);
    assert iv[..8] == Le64(packetId) && iv[8..12] == Le32(fromNode);
  }

  /** `Header::create_iv_with_params`. */
  method CreateIvWithParams(packetId: u64, fromNode: u32) returns (result: seq<byte>)
    ensures result == Iv(packetId, fromNode)
    ensures |result| == 16 && LeValue(result[..8]) == packetId && LeValue(result[8..12]) == fromNode
    ensures result[12..] == [0, 0, 0, 0]
  {
    IvLayout(packetId, fromNode);
    var iv := new byte[16](_ => 0);
    CopyInto(iv, 0, Le64(packetId));
    CopyInto(iv, 8, Le32(fromNode));
    result := iv[..];
  }

  /** `Header::create_iv`: only the packet id and the source of a header enter its counter block. */
  method CreateIv(h: Header) returns (result: seq<byte>)
    ensures result == Iv(h.packetId, h.source)
    ensures |result| == 16 && LeValue(result[..8]) == h.packetId && LeValue(result[8..12]) == h.source
    ensures result[12..] == [0, 0, 0, 0]
  {
    IvLayout(h.packetId, h.source);
    var iv := new byte[16](_ => 0);
    CopyInto(iv, 0, Le64(h.packetId));
    CopyInto(iv, 8, Le32(h.source));
    result := iv[..];
  }

  /** Packet id and source can be read off the first twelve bytes of the block. */
  lemma IvInjective(id1: u32, node1: u32, id2: u32, node2: u32)
    requires Iv(id1, node1)[..12] == Iv(id2, node2)[..12]
    ensures id1 == id2 && node1 == node2
  {
    assert Iv(id1, node1)[..12][..4] == Le32(id1) && Iv(id1, node1)[..12][8..] == Le32(node1);
    assert Iv(id2, node2)[..12][..4] == Le32(id2) && Iv(id2, node2)[..12][8..] == Le32(node2);
    Le32RoundTrip(id1);
    Le32RoundTrip(id2);
    Le32RoundTrip(node1);
    Le32RoundTrip(node2);
  }
}
