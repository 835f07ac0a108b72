/** Sending a text message and receiving a packet: nrf/src/main.rs, and the round trip between them. */
module TextMessages {
  import opened Bytes
  import opened Options
  import opened Protobuf
  import opened Headers
  import opened CounterMode
  import opened Keys
  import opened Packets

  const FRAME_SIZE: nat := 256

  /** The data message a text is wrapped in. */
  function TextData(message: seq<byte>): Data {
    Data(Known(TextMessageApp), message, false, 0, 0, 0, 0, 0, Some(0))
  }

  /** The bytes on the air for a payload: header, then the payload in counter mode. */
  function AirFrame(h: Header, payload: seq<byte>, key: ChannelKey, aes: Aes): (frame: seq<byte>)
    ensures |frame| == 16 + |payload|
  {
    HeaderBytes(h) + Ctr(key.Cipher(aes), Iv(h.packetId, h.source), payload)
  }

  /** `create_text_message_packet`: it succeeds exactly when the message encodes to between 1 and 240
      bytes and the key length is known; the frame is then at the front of the buffer. */
  method CreateTextMessagePacket(h: Header, message: seq<byte>, key: seq<byte>, keyLen: nat, txBuffer: array<byte>,
                                 encode: Data -> seq<byte>, aes: Aes)
    returns (length: Option<nat>)
    requires UsableLength(key, keyLen)
    requires txBuffer.Length == FRAME_SIZE
    modifies txBuffer
    ensures TextData(message) == Data(Known(TextMessageApp), message, false, 0, 0, 0, 0, 0, Some(0))
    ensures length.Some? <==>
              1 <= |encode(TextData(message))| <= 240 && ChannelKeyFromBytes(key, keyLen).Some?
    ensures length.Some? ==>
              var payload := encode(TextData(message));
              var n := length.value;
              && n == 16 + |payload| && 17 <= n <= 256
              && txBuffer[..n] == AirFrame(h, payload, ChannelKeyFromBytes(key, keyLen).value, aes)
              && txBuffer[n..] == old(txBuffer[n..])
    ensures length.None? ==>
              txBuffer[..] == if |encode(TextData(message))| == 0 && ChannelKeyFromBytes(key, keyLen).Some?
                              then HeaderBytes(h) + old(txBuffer[16..]) else old(txBuffer[..])
  {
    var data := TextData(message);
    var encoded := encode(data);
    if |encoded| > MAX_PAYLOAD {
      return None;
    }
    var n := 16 + |encoded|;
    match ChannelKeyFromBytes(key, keyLen)
    case None =>
      return None;
    case Some(channelKey) =>
      ghost var before := txBuffer[..];
      var header := ToBytes(h);
      CopyInto(txBuffer, 0, header);
      ghost var middle := txBuffer[..];
      CopyInto(txBuffer, 16, encoded);
      TwoCopies(before, middle, txBuffer[..], header, encoded);
      var iv := CreateIv(h);
      var outcome := channelKey.Transform(aes, txBuffer, 16, n, iv);
      match outcome
      case Ok(_) =>
        OneTransform(header, encoded, before[n..], Ctr(channelKey.Cipher(aes), iv, encoded), txBuffer[..]);
        return Some(n);
      case Err(_) =>
        return None;
  }

  lemma TwoCopies(before: seq<byte>, middle: seq<byte>, after: seq<byte>, header: seq<byte>, payload: seq<byte>)
    requires |header| == 16 && 16 + |payload| <= |before|
    requires middle == before[..0] + header + before[16..]
    requires after == middle[..16] + payload + middle[16 + |payload|..]
    ensures after == header + payload + before[16 + |payload|..]
    ensures after[..16] == header && after[16..16 + |payload|] == payload
    ensures after[16 + |payload|..] == before[16 + |payload|..]
  {
  }

  lemma OneTransform(header: seq<byte>, payload: seq<byte>, tail: seq<byte>, cipher: seq<byte>, after: seq<byte>)
    requires |header| == 16 && |cipher| == |payload|
    requires after == header + cipher + tail
    ensures after[..16 + |payload|] == header + cipher && after[16 + |payload|..] == tail
  {
  }

  /** What a received frame holds under a key: parse, decrypt, decode. */
  function Received(frame: seq<byte>, rssi: i8, snr: i8, key: ChannelKey, decode: seq<byte> -> Option<Data>, aes: Aes)
    : Option<DecodedPacket>
  {
    match Parsed(frame, rssi, snr)
    case None => None
    case Some(encrypted) =>
      match Deciphered(encrypted, key, aes)
      case None => None
      case Some(decrypted) => Decoded(decrypted, decode)
  }

  /** `handle_received_packet` up to the point where it publishes the packet it returns here. The key
      is the one-byte key 0x01, which always expands. */
  method HandleReceivedPacket(receivingBuffer: seq<byte>, receivedLen: nat, snr: i16, rssi: i16,
                              decode: seq<byte> -> Option<Data>, aes: Aes)
    returns (published: Option<DecodedPacket>)
    requires receivedLen <= |receivingBuffer|
    ensures ChannelKeyFromBytes([0x01], 1).Some?
    ensures published == Received(receivingBuffer[..receivedLen], WrapToI8(rssi), WrapToI8(snr),
                                  ChannelKeyFromBytes([0x01], 1).value, decode, aes)
  {
    var key := ChannelKeyFromBytes([0x01], 1).value;
    var encrypted := PacketFromBytes(receivingBuffer[..receivedLen], WrapToI8(rssi), WrapToI8(snr));
    if encrypted.None? {
      return None;
    }
    var decrypted := Decrypt(encrypted.value, key, aes);
    if decrypted.None? {
      return None;
    }
    published := Decode(decrypted.value, decode);
  }

  /** The radio's readings arrive as the signed byte they are congruent to, so unchanged exactly if they
      fit one. */
  lemma ReadingKeptIff(n: i16)
    ensures -128 <= WrapToI8(n) <= 127 && (n - WrapToI8(n)) % 256 == 0
    ensures WrapToI8(n) == n <==> -128 <= n <= 127
    ensures WrapToI8(-129) == 127
  {
  }

  /** The header as the three-bit hop fields of the air frame carry it. */
  function CarriedHeader(h: Header): Header {
    h.(flags := Carried(h.flags))
  }

  /** Parsing and decrypting an air frame gives back its header and exactly its payload, in a buffer
      that is zero behind it. */
  lemma DecipheredAirFrame(h: Header, payload: seq<byte>, key: ChannelKey, aes: Aes, rssi: i8, snr: i8)
    requires 1 <= |payload| <= MAX_PAYLOAD
    ensures CarriedHeader(h) == h <==> h.flags.hopLimit <= 7 && h.flags.hopStart <= 7
    ensures var parsed := Parsed(AirFrame(h, payload, key, aes), rssi, snr);
            && parsed.Some?
            && Deciphered(parsed.value, key, aes)
               == Some(Packet(CarriedHeader(h), rssi, snr, payload + Zeros(MAX_PAYLOAD - |payload|), |payload|))
  {
    var frame := AirFrame(h, payload, key, aes);
    var f, iv := key.Cipher(aes), Iv(h.packetId, h.source);
    assert frame[..16] == HeaderBytes(h) && frame[16..] == Ctr(f, iv, payload);
    HeaderRoundTrip(h);
    FlagsRoundTrip(h.flags);
    var p := Parsed(frame, rssi, snr).value;
    assert p.payload[..p.payloadLen] == frame[16..];
    CtrInvolutive(f, iv, payload);
  }

  /** Any data message on the air, received with the same key: the packet has the header it was sent under,
      with three-bit hop fields, the readings given, and every field of the message, if the decoder undoes
      the encoding and that has 1 to 240 bytes. */
  lemma DataIsReceived(h: Header, d: Data, encoded: seq<byte>, key: ChannelKey, rssi: i8, snr: i8,
                       decode: seq<byte> -> Option<Data>, aes: Aes)
    requires 1 <= |encoded| <= 240 && decode(encoded) == Some(d)
    ensures var r := Received(AirFrame(h, encoded, key, aes), rssi, snr, key, decode, aes);
            && r.Some? && CarriesData(r.value, d)
            && r.value.rssi == rssi && r.value.snr == snr
            && SameHeader(r.value.header, h)
  {
    DecipheredAirFrame(h, encoded, key, aes, rssi, snr);
    hide AirFrame, Deciphered, Parsed;
    var p := Deciphered(Parsed(AirFrame(h, encoded, key, aes), rssi, snr).value, key, aes).value;
    assert p.payload[..p.payloadLen] == encoded;
  }

  /** The header fields as they arrive: all of them, the hop counts cut to three bits. */
  predicate SameHeader(arrived: Header, sent: Header) {
    && arrived.destination == sent.destination && arrived.source == sent.source
    && arrived.packetId == sent.packetId && arrived.channelHash == sent.channelHash
    && arrived.nextHop == sent.nextHop && arrived.relayNode == sent.relayNode
    && arrived.flags.wantAck == sent.flags.wantAck && arrived.flags.viaMqtt == sent.flags.viaMqtt
    && arrived.flags.hopLimit == sent.flags.hopLimit & 0x07 && arrived.flags.hopStart == sent.flags.hopStart & 0x07
  }

  /** A text message as it arrives: on the text port, no answer wanted, every number zero. */
  predicate IsPlainText(p: DecodedPacket, message: seq<byte>) {
    && p.PortNumber() == Known(TextMessageApp)
    && p.PayloadData() == message
    && !p.data.wantResponse
    && p.data.dest == 0 && p.data.source == 0
    && p.data.requestId == 0 && p.data.replyId == 0 && p.data.emoji == 0
  }

  /** Transmit, then receive with the same key: the message itself arrives, whole, if the decoder
      undoes the encoder on it and the encoding is no shorter than the text it carries. */
  lemma TransmitThenReceive(h: Header, message: seq<byte>, key: ChannelKey, rssi: i8, snr: i8,
                            encode: Data -> seq<byte>, decode: seq<byte> -> Option<Data>, aes: Aes)
    requires 1 <= |encode(TextData(message))| <= MAX_PAYLOAD
    requires decode(encode(TextData(message))) == Some(TextData(message))
    requires |message| <= |encode(TextData(message))|
    ensures var r := Received(AirFrame(h, encode(TextData(message)), key, aes), rssi, snr, key, decode, aes);
            && r == Some(DecodedPacket(CarriedHeader(h), rssi, snr, Owned(TextData(message))))
            && IsPlainText(r.value, message)
  {
    var payload := encode(TextData(message));
    DecipheredAirFrame(h, payload, key, aes, rssi, snr);
    hide AirFrame, Deciphered, Parsed;
    var p := Deciphered(Parsed(AirFrame(h, payload, key, aes), rssi, snr).value, key, aes).value;
    assert p.payload[..p.payloadLen] == payload;
    assert message[..|message|] == message;
  }

  /** The firmware's own self-test: what it creates with key 0x01 it hands to its receive path, with
      made-up readings. */
  method SelfTest(h: Header, message: seq<byte>, txBuffer: array<byte>,
                  encode: Data -> seq<byte>, decode: seq<byte> -> Option<Data>, aes: Aes)
    returns (published: Option<DecodedPacket>)
    requires txBuffer.Length == FRAME_SIZE
    requires decode(encode(TextData(message))) == Some(TextData(message))
    requires 1 <= |encode(TextData(message))| && |message| <= |encode(TextData(message))|
    modifies txBuffer
    ensures published.Some? <==> |encode(TextData(message))| <= 240
    ensures published.Some? ==>
              && published.value == DecodedPacket(CarriedHeader(h), -50, 10, Owned(TextData(message)))
              && SameHeader(published.value.header, h) && published.value.rssi == -50 && published.value.snr == 10
              && IsPlainText(published.value, message)
  {
    var length := CreateTextMessagePacket(h, message, [0x01], 1, txBuffer, encode, aes);
    if length.None? {
      return None;
    }
    published := HandleReceivedPacket(txBuffer[..], length.value, 10, -50, decode, aes);
    assert txBuffer[..][..length.value] == txBuffer[..length.value];
    TransmitThenReceive(h, message, ChannelKeyFromBytes([0x01], 1).value, -50, 10, encode, decode, aes);
  }
}
