/** The sending side of the serial protocol: `send_packet_to_usb` in nrf/src/main.rs. */
module UsbSender {
  import opened Bytes
  import Framers
  import opened FrameScan
  import opened FrameStreams
  import opened FramePrinting

  const ENCODE_BUFFER: nat := 256
  const USB_PACKET: nat := 64

  /** The CDC endpoint: the packets it has taken, and how many more it will take before it is disabled. */
  class UsbPort {
    var writes: seq<seq<byte>>
    var remaining: nat

    constructor (remaining: nat)
      ensures writes == [] && this.remaining == remaining
    {
      writes := [];
      this.remaining := remaining;
    }

    method WritePacket(data: seq<byte>) returns (ok: bool)
      modifies this
      ensures ok == (old(remaining) > 0)
      ensures writes == (if ok then old(writes) + [data] else old(writes))
      ensures remaining == (if ok then old(remaining) - 1 else 0)
    {
      ok := remaining > 0;
      if ok {
        writes := writes + [data];
        remaining := remaining - 1;
      }
    }
  }

  /** The writes one encoded message is cut into. */
  function FrameWrites(encoded: seq<byte>): seq<seq<byte>>
    requires |encoded| <= ENCODE_BUFFER
  {
    [[START1, START2, |encoded| / 256, |encoded| % 256]] + Pieces(encoded, USB_PACKET)
  }

  /** Sends a message if its encoding fits the buffer: all its writes if the endpoint takes that many,
      else as many of them, in order, as it takes. */
  method SendPacketToUsb<M>(port: UsbPort, message: M, encode: M -> seq<byte>) returns (ok: bool)
    modifies port
    ensures |encode(message)| > 256 ==> !ok && port.writes == old(port.writes)
    ensures |encode(message)| <= 256 ==>
              var writes := FrameWrites(encode(message));
              && ok == (|writes| <= old(port.remaining))
              && port.writes == old(port.writes) + writes[..Min(|writes|, old(port.remaining))]
              && (ok ==> port.remaining == old(port.remaining) - |writes|)
  {
    var encoded := encode(message);
    if |encoded| > ENCODE_BUFFER {
      return false;
    }
    var length := |encoded|;
    var header: seq<byte> := [0x94, 0xc3, length / 256, length % 256];
    assert FrameWrites(encoded) == [header] + Pieces(encoded, USB_PACKET);
    hide FrameWrites, Pieces;
    ok := port.WritePacket(header);
    if ok {
      ok := WriteChunks(port, encoded);
    }
  }

  /** The loop over the 64-byte chunks of the encoded message; it stops at the first failing write. */
  method WriteChunks(port: UsbPort, encoded: seq<byte>) returns (ok: bool)
    modifies port
    ensures var chunks := Pieces(encoded, USB_PACKET);
            && ok == (|chunks| <= old(port.remaining))
            && port.writes == old(port.writes) + chunks[..Min(|chunks|, old(port.remaining))]
            && port.remaining == old(port.remaining) - Min(|chunks|, old(port.remaining))
  {
    ghost var chunks := Pieces(encoded, USB_PACKET);
    var pos := 0;
    ghost var sent: seq<seq<byte>> := [];
    assert encoded[0..] == encoded;
    assert Pieces<byte>([], USB_PACKET) == [];
    hide Pieces;
    while pos < |encoded|
      invariant 0 <= pos <= |encoded|
      invariant chunks == sent + Pieces(encoded[pos..], USB_PACKET)
      invariant |sent| <= old(port.remaining) && port.remaining == old(port.remaining) - |sent|
      invariant port.writes == old(port.writes) + sent
    {
      var end := if pos + USB_PACKET <= |encoded| then pos + USB_PACKET else |encoded|;
      var chunk := encoded[pos..end];
      NextPiece(encoded, pos, end);
      assert chunks == (sent + [chunk]) + Pieces(encoded[end..], USB_PACKET);
      var taken := port.WritePacket(chunk);
      if !taken {
        assert chunks[..|sent|] == sent;
        return false;
      }
      assert port.writes == old(port.writes) + (sent + [chunk]);
      pos, sent := end, sent + [chunk];
    }
    assert encoded[pos..] == [];
    assert chunks == sent && chunks[..|sent|] == sent;
    return true;
  }

  lemma NextPiece(s: seq<byte>, pos: nat, end: nat)
    requires pos < |s| && end == (if pos + USB_PACKET <= |s| then pos + USB_PACKET else |s|)
    ensures Pieces(s[pos..], USB_PACKET) == [s[pos..end]] + Pieces(s[end..], USB_PACKET)
  {
    var t := s[pos..];
    assert s[pos..end] == t[..end - pos] && s[end..] == t[end - pos..];
    if |t| <= USB_PACKET {
      assert t[..|t|] == t && t[|t|..] == [];
    }
  }

  lemma WritesArePrinted(encoded: seq<byte>)
    requires |encoded| <= ENCODE_BUFFER
    ensures Flatten(FrameWrites(encoded)) == Printed(encoded)
    ensures FrameWrites(encoded)[0] == [0x94, 0xc3, |encoded| / 256, |encoded| % 256]
    ensures forall i :: 0 <= i < |FrameWrites(encoded)| ==> 1 <= |FrameWrites(encoded)[i]| <= 64
    ensures forall i :: 1 <= i < |FrameWrites(encoded)| - 1 ==> |FrameWrites(encoded)[i]| == 64
  {
    var header := [START1, START2, |encoded| / 256, |encoded| % 256];
    PiecesCover(encoded, USB_PACKET);
    FlattenAppend([header], Pieces(encoded, USB_PACKET));
    assert Flatten([header]) == header;
  }

  /** A fresh framer given the writes one by one delivers nothing before the last and then the payload;
      an interrupted send delivers nothing at all. */
  lemma SentFrameIsReadBack(encoded: seq<byte>, k: nat)
    requires 1 <= |encoded| <= ENCODE_BUFFER && k <= |FrameWrites(encoded)|
    ensures Calls([], FrameWrites(encoded)[..k]).0 == (if k == |FrameWrites(encoded)| then [encoded] else [])
    ensures Calls([], FrameWrites(encoded)) == ([encoded], [])
  {
    var writes := FrameWrites(encoded);
    WritesArePrinted(encoded);
    assert Printed(encoded)[..0] == [] && Printed(encoded)[0..] + [] == Printed(encoded);
    FrameInPieces(encoded, 0, writes, []);
    if k < |writes| {
      var front := writes[..|writes| - 1];
      assert front[..k] + front[k..] == front && front[..k] == writes[..k];
      CallsAppend([], front[..k], front[k..]);
    } else {
      assert writes[..k] == writes;
    }
  }

  /** Pieces of a frame that stop before its end deliver nothing and stay pending. */
  lemma {:induction false} UnfinishedPieces(payload: seq<byte>, k: nat, pieces: seq<seq<byte>>, end: nat)
    requires GoodLength(|payload|) && k <= end < |Printed(payload)|
    requires Flatten(pieces) == Printed(payload)[k..end]
    ensures Calls(Printed(payload)[..k], pieces) == ([], Printed(payload)[..end])
    decreases |pieces|
  {
    hide Scan;
    var s := Printed(payload);
    if pieces != [] {
      var p, rest := pieces[0], Flatten(pieces[1..]);
      assert p == (p + rest)[..|p|] && rest == (p + rest)[|p|..];
      assert s[..k] + p == s[..k + |p|] && rest == s[k + |p|..end];
      ScanUnfinishedFrame(payload, k + |p|);
      UnfinishedPieces(payload, k + |p|, pieces[1..], end);
      QuietCall(s[..k], pieces);
    }
  }

  /** A send cut off partway leaves what got out, at least the whole header, pending. */
  lemma CutSendIsPending(encoded: seq<byte>, k: nat)
    requires 1 <= |encoded| <= ENCODE_BUFFER && 1 <= k < |FrameWrites(encoded)|
    ensures var cut := Flatten(FrameWrites(encoded)[..k]);
            4 <= |cut| && Calls([], FrameWrites(encoded)[..k]) == ([], cut) && Scan(cut) == Pending(cut)
  {
    var writes, s := FrameWrites(encoded), Printed(encoded);
    var front, back := writes[..k], writes[k..];
    WritesArePrinted(encoded);
    LastIsIn(back);
    FlattenAppend(front, back);
    assert front + back == writes;
    var end := |Flatten(front)|;
    assert Flatten(front) == s[0..end] && s[..0] == [] && s[..end] == s[0..end];
    assert front == [front[0]] + front[1..];
    UnfinishedPieces(encoded, 0, front, end);
    ScanUnfinishedFrame(encoded, end);
  }

  /** A message encoded to no bytes at all is sent as a bare header, which the framer skips. */
  lemma EmptyFrameIsSkipped()
    ensures Calls([], FrameWrites([])) == ([], [])
  {
    var header := [START1, START2, 0, 0];
    assert FrameWrites([]) == [header] + [];
    OneCall([], header);
    BadHeaderIsHarmless([], 0, 0) by { Framers.ScanNothing(); }
    assert [] + header == header;
  }

  function SessionWrites(messages: seq<seq<byte>>): seq<seq<byte>>
    requires forall i :: 0 <= i < |messages| ==> |messages[i]| <= ENCODE_BUFFER
  {
    if messages == [] then [] else FrameWrites(messages[0]) + SessionWrites(messages[1..])
  }

  function NonEmpty(messages: seq<seq<byte>>): seq<seq<byte>> {
    if messages == [] then []
    else (if messages[0] == [] then [] else [messages[0]]) + NonEmpty(messages[1..])
  }

  /** A whole session: every non-empty message arrives, once, in order. */
  lemma {:induction false} SessionIsReadBack(messages: seq<seq<byte>>)
    requires forall i :: 0 <= i < |messages| ==> |messages[i]| <= ENCODE_BUFFER
    ensures Calls([], SessionWrites(messages)) == (NonEmpty(messages), [])
  {
    if messages != [] {
      var first := messages[0];
      CallsAppend([], FrameWrites(first), SessionWrites(messages[1..]));
      if first == [] {
        EmptyFrameIsSkipped();
      } else {
        SentFrameIsReadBack(first, 0);
      }
      SessionIsReadBack(messages[1..]);
    }
  }
}
