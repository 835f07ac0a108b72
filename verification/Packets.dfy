/** Packets in their three states, from raw bytes to decoded data: meshtassy-net/src/lib.rs. */
module Packets {
  import opened Bytes
  import opened Options
  import opened Protobuf
  import opened Headers
  import opened CounterMode
  import opened Keys

  const MAX_PAYLOAD: nat := 240

  type PayloadBuffer = s: seq<byte> | |s| == MAX_PAYLOAD witness seq(MAX_PAYLOAD, _ => 0)
  type PayloadLength = n: nat | n <= MAX_PAYLOAD

  datatype Encrypted = Encrypted
  datatype Decrypted = Decrypted

  datatype Packet<State> = Packet(header: Header, rssi: i8, snr: i8, payload: PayloadBuffer, payloadLen: PayloadLength)

  /** Data that owns its payload: the first `payloadLen` bytes of a fixed buffer. */
  datatype OwnedData = OwnedData(
    portnum: EnumValue<PortNum>,
    payload: PayloadBuffer,
    payloadLen: PayloadLength,
    wantResponse: bool,
    dest: u32,
    source: u32,
    requestId: u32,
    replyId: u32,
    emoji: u32)

  datatype DecodedPacket = DecodedPacket(header: Header, rssi: i8, snr: i8, data: OwnedData)
  {
    function PortNumber(): EnumValue<PortNum> {
      data.portnum
    }

    function PayloadData(): seq<byte> {
      data.payload[..data.payloadLen]
    }
  }

  /** Bytes at the front of a zeroed payload buffer, cut to its capacity. */
  function Buffered(s: seq<byte>): (b: PayloadBuffer) {
    if |s| <= MAX_PAYLOAD then s + Zeros(MAX_PAYLOAD - |s|) else s[..MAX_PAYLOAD]
  }

  /** A zeroed buffer with the front of `s` copied in. */
  lemma BufferedFront(b: seq<byte>, s: seq<byte>, n: nat)
    requires |b| == MAX_PAYLOAD && n == Min(|s|, MAX_PAYLOAD)
    ensures b == s[..n] + Zeros(MAX_PAYLOAD - n) <==> b == Buffered(s)
  {
    if |s| <= MAX_PAYLOAD {
      assert s[..n] == s;
    } else {
      assert s[..n] + Zeros(0) == s[..n];
    }
  }

  /** `OwnedData::from_protobuf`. */
  function Owned(d: Data): OwnedData {
    OwnedData(d.portnum, Buffered(d.payload), Min(|d.payload|, MAX_PAYLOAD),
              d.wantResponse, d.dest, d.source, d.requestId, d.replyId, d.emoji)
  }

  method OwnedFromProtobuf(d: Data) returns (owned: OwnedData)
    ensures owned == Owned(d)
    ensures owned.portnum == d.portnum && owned.wantResponse == d.wantResponse
    ensures owned.dest == d.dest && owned.source == d.source
    ensures owned.requestId == d.requestId && owned.replyId == d.replyId && owned.emoji == d.emoji
    ensures owned.payload[..owned.payloadLen] == d.payload[..Min(|d.payload|, 240)]
    ensures owned.payload[..owned.payloadLen] == d.payload <==> |d.payload| <= 240
  {
    var newPayload := new byte[MAX_PAYLOAD](_ => 0);
    var copyLen := if |d.payload| < MAX_PAYLOAD then |d.payload| else MAX_PAYLOAD;
    CopyInto(newPayload, 0, d.payload[..copyLen]);
    BufferedFront(newPayload[..], d.payload, copyLen);
    owned := OwnedData(d.portnum, newPayload[..], copyLen,
                       d.wantResponse, d.dest, d.source, d.requestId, d.replyId, d.emoji);
  }

  /** The packet carries a data message: all its fields, and of its payload the first 240 bytes. */
  predicate CarriesData(p: DecodedPacket, d: Data) {
    && p.PortNumber() == d.portnum
    && p.PayloadData() == d.payload[..Min(|d.payload|, 240)]
    && p.data.wantResponse == d.wantResponse
    && p.data.dest == d.dest
    && p.data.source == d.source
    && p.data.requestId == d.requestId
    && p.data.replyId == d.replyId
    && p.data.emoji == d.emoji
  }

  /** `Packet::<Encrypted>::from_bytes`: a header and at most 240 bytes after it. */
  function Parsed(buffer: seq<byte>, rssi: i8, snr: i8): Option<Packet<Encrypted>> {
    if |buffer| < 16 then None
    else
      Some(Packet(Headers.FromBytes(buffer[..16]).value, rssi, snr,
                  Buffered(buffer[16..]), Min(|buffer| - 16, MAX_PAYLOAD)))
  }

  method PacketFromBytes(buffer: seq<byte>, rssi: i8, snr: i8) returns (packet: Option<Packet<Encrypted>>)
    ensures packet == Parsed(buffer, rssi, snr)
    ensures packet.Some? <==> |buffer| >= 16
    ensures packet.Some? ==>
              var p := packet.value;
              && Some(p.header) == Headers.FromBytes(buffer[..16]) && p.rssi == rssi && p.snr == snr
              && p.payloadLen == Min(|buffer| - 16, 240)
              && p.payload[..p.payloadLen] == buffer[16..16 + p.payloadLen]
              && p.payload[p.payloadLen..] == Zeros(240 - p.payloadLen)
  {
    if |buffer| < 16 {
      return None;
    }
    var header := Headers.FromBytes(buffer[..16]);
    if header.None? {
      return None;
    }
    var payload := new byte[MAX_PAYLOAD](_ => 0);
    var payloadLen := if |buffer| - 16 < MAX_PAYLOAD then |buffer| - 16 else MAX_PAYLOAD;
    CopyInto(payload, 0, buffer[16..16 + payloadLen]);
    assert buffer[16..][..payloadLen] == buffer[16..16 + payloadLen];
    BufferedFront(payload[..], buffer[16..], payloadLen);
    hide Headers.FromBytes, Buffered, Zeros;
    return Some(Packet(header.value, rssi, snr, payload[..], payloadLen));
  }

  /** `Packet::<Encrypted>::decrypt`: fails exactly on an empty payload. */
  function Deciphered(p: Packet<Encrypted>, key: ChannelKey, aes: Aes): Option<Packet<Decrypted>> {
    if p.payloadLen == 0 then None
    else
      var plain := Ctr(key.Cipher(aes), Iv(p.header.packetId, p.header.source), p.payload[..p.payloadLen]);
      Some(Packet(p.header, p.rssi, p.snr, Buffered(plain), p.payloadLen))
  }

  method Decrypt(p: Packet<Encrypted>, key: ChannelKey, aes: Aes) returns (r: Option<Packet<Decrypted>>)
    ensures r == Deciphered(p, key, aes)
  {
    var iv := CreateIv(p.header);
    var decrypted := new byte[MAX_PAYLOAD](_ => 0);
    CopyInto(decrypted, 0, p.payload[..p.payloadLen]);
    assert decrypted[0..p.payloadLen] == p.payload[..p.payloadLen];
    assert decrypted[p.payloadLen..] == Zeros(MAX_PAYLOAD - p.payloadLen);
    var outcome := key.Transform(aes, decrypted, 0, p.payloadLen, iv);
    match outcome
    case Ok(_) =>
      assert decrypted[..] == Buffered(Ctr(key.Cipher(aes), iv, p.payload[..p.payloadLen]));
      return Some(Packet(p.header, p.rssi, p.snr, decrypted[..], p.payloadLen));
    case Err(_) =>
      return None;
  }

  /** `Packet::<Decrypted>::decode`, over any decoder of the data message. */
  function Decoded(p: Packet<Decrypted>, decode: seq<byte> -> Option<Data>): Option<DecodedPacket> {
    if p.payloadLen == 0 then None
    else
      match decode(p.payload[..p.payloadLen])
      case None => None
      case Some(d) => Some(DecodedPacket(p.header, p.rssi, p.snr, Owned(d)))
  }

  method Decode(p: Packet<Decrypted>, decode: seq<byte> -> Option<Data>) returns (r: Option<DecodedPacket>)
    ensures r == Decoded(p, decode)
    ensures r.Some? <==> p.payloadLen != 0 && decode(p.payload[..p.payloadLen]).Some?
    ensures r.Some? ==>
              var d := decode(p.payload[..p.payloadLen]).value;
              && r.value.header == p.header && r.value.rssi == p.rssi && r.value.snr == p.snr
              && CarriesData(r.value, d)
  {
    if p.payloadLen == 0 {
      return None;
    }
    match decode(p.payload[..p.payloadLen])
    case None => return None;
    case Some(data) =>
      var owned := OwnedFromProtobuf(data);
      return Some(DecodedPacket(p.header, p.rssi, p.snr, owned));
  }
}
