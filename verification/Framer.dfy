/** The receiving side of the serial protocol: nrf/src/usb_framer.rs. */
module Framers {
  import opened Bytes
  import opened Options
  import opened FrameScan

  /** A stream that begins with the start pair is scanned from there. */
  lemma ScanAtStart(v: seq<byte>)
    requires MagicAt(v, 0)
    ensures Scan(v) == if BadHeaderAt(v, 0) then Scan(v[4..]) else ScanFrom(v, 0)
  {
    assert FindMagic(v) == 0;
  }

  lemma ScanNothing()
    ensures Scan([]) == Pending([])
  {
  }

  /** Reading one more byte inside a frame header. */
  lemma ScanHeaderByte(u: seq<byte>, b: byte)
    requires 2 <= |u| < 4 && u[0] == START1 && u[1] == START2
    ensures Scan(u + [b]) == Pending(if |u| == 2 || GoodLength(LengthOf(u[2], b)) then u + [b] else [])
  {
    hide Scan, FindMagic;
    var v := u + [b];
    assert v[0] == START1 && v[1] == START2;
    ScanAtStart(v);
    assert v[0..] == v;
    if |u| == 3 {
      assert v[2] == u[2] && v[3] == b;
      assert v[4..] == [];
      ScanNothing();
    }
  }

  /** Reading one more byte while looking for the start pair. */
  lemma ScanStartByte(u: seq<byte>, b: byte)
    requires u == [] || u == [START1]
    ensures Scan(u + [b]) == Pending(
                               if u == [START1] && b == START2 then u + [b]
                               else if b == START1 then [START1] else [])
  {
    var v := u + [b];
    assert v[0..] == v;
    if u == [START1] && b == START2 {
      assert MagicAt(v, 0);
      FindMagicUnique(v, 0);
    } else {
      assert forall k: nat :: k < |v| ==> !MagicAt(v, k);
      FindMagicUnique(v, |v|);
    }
  }

  /** The only residues there are. */
  lemma ResidueShape(u: seq<byte>)
    requires Scan(u) == Pending(u)
    ensures |u| >= 1 ==> u[0] == START1
    ensures |u| >= 2 ==> u[1] == START2
    ensures |u| >= 4 ==> GoodLength(LengthOf(u[2], u[3])) && |u| < 4 + LengthOf(u[2], u[3])
  {
    var i := FindMagic(u);
    if BadHeaderAt(u, i) {
      PendingShrinks(u[i + 4..]);
      assert false;
    }
    FindMagicIsLeftmost(u);
    if i < |u| {
      assert |u[i..]| == |u|;
    }
  }

  lemma {:induction false} PendingShrinks(s: seq<byte>)
    ensures Scan(s).Pending? ==> |Scan(s).residue| <= |s|
    decreases |s|
  {
    var i := FindMagic(s);
    if BadHeaderAt(s, i) {
      PendingShrinks(s[i + 4..]);
    }
  }

  /** A header followed by part or all of its payload. */
  lemma ScanBody(u: seq<byte>)
    requires |u| >= 4 && u[0] == START1 && u[1] == START2 && GoodLength(LengthOf(u[2], u[3]))
    ensures |u| < 4 + LengthOf(u[2], u[3]) ==> Scan(u) == Pending(u)
    ensures |u| >= 4 + LengthOf(u[2], u[3]) ==>
              var n := LengthOf(u[2], u[3]);
              Scan(u) == Frame(u[4..4 + n], u[4 + n..])
  {
    ScanAtStart(u);
    assert u[0..] == u;
  }

  /** Reading one more payload byte. */
  lemma ScanBodyByte(u: seq<byte>, b: byte)
    requires |u| >= 4 && u[0] == START1 && u[1] == START2 && GoodLength(LengthOf(u[2], u[3]))
    requires |u| < 4 + LengthOf(u[2], u[3])
    ensures Scan(u + [b]) ==
            if |u| + 1 < 4 + LengthOf(u[2], u[3]) then Pending(u + [b]) else Frame(u[4..] + [b], [])
  {
    var v, n := u + [b], LengthOf(u[2], u[3]);
    assert v[0] == u[0] && v[1] == u[1] && v[2] == u[2] && v[3] == u[3];
    ScanBody(v);
    if |v| == 4 + n {
      assert v[4..4 + n] == u[4..] + [b];
      assert v[4 + n..] == [];
    }
  }

  /** The scanner as a transition on residues: one more byte either completes a frame or leaves a residue. */
  function Next(u: seq<byte>, b: byte): ScanResult {
    if u == [] then Pending(if b == START1 then [START1] else [])
    else if |u| == 1 then Pending(if b == START2 then [START1, START2] else if b == START1 then [START1] else [])
    else if |u| == 2 then Pending([START1, START2, b])
    else if |u| == 3 then Pending(if GoodLength(LengthOf(u[2], b)) then [START1, START2, u[2], b] else [])
    else if |u| + 1 < 4 + LengthOf(u[2], u[3]) then Pending(u + [b])
    else Frame(u[4..] + [b], [])
  }

  lemma NextIsScan(u: seq<byte>, b: byte)
    requires Scan(u) == Pending(u)
    ensures Next(u, b) == Scan(u + [b])
  {
    ResidueShape(u);
    hide Scan, FindMagic, ScanFrom, MagicAt;
    if u == [] {
      ScanStartByte(u, b);
    } else if |u| == 1 {
      assert u == [START1];
      ScanStartByte(u, b);
    } else if |u| == 2 {
      assert u == [START1, START2];
      ScanHeaderByte(u, b);
    } else if |u| == 3 {
      assert u == [START1, START2, u[2]];
      ScanHeaderByte(u, b);
    } else {
      ScanBodyByte(u, b);
    }
  }

  /** What the fields of the framer say has been read of the current frame. */
  function Held(state: byte, packetLen: u16, body: seq<byte>): seq<byte> {
    if state == 0 then []
    else if state == 1 then [START1]
    else if state == 2 then [START1, START2]
    else if state == 3 then [START1, START2, packetLen / 256]
    else [START1, START2, packetLen / 256, packetLen % 256] + body
  }

  class Framer {
    var state: byte
    var packetLen: u16
    var packetBuffer: array<byte>
    var bytesReceived: nat

    ghost predicate Valid()
      reads this
    {
      && packetBuffer.Length == MAX_FRAME_PAYLOAD
      && state <= 4
      && (state == 3 ==> packetLen % 256 == 0)
      && (state == 4 ==> GoodLength(packetLen) && bytesReceived < packetLen)
    }

    /** The bytes of the stream the automaton still has to account for. */
    ghost function Unfinished(): seq<byte>
      requires Valid()
      reads this, packetBuffer
    {
      Held(state, packetLen, if state == 4 then packetBuffer[..bytesReceived] else [])
    }

    constructor ()
      ensures Valid() && fresh(packetBuffer)
      ensures Unfinished() == []
    {
      state := 0;
      packetLen := 0;
      packetBuffer := new byte[MAX_FRAME_PAYLOAD](_ => 0);
      bytesReceived := 0;
    }

    method Reset()
      requires packetBuffer.Length == MAX_FRAME_PAYLOAD
      modifies this`state, this`packetLen, this`bytesReceived
      ensures Valid() && Unfinished() == []
    {
      state := 0;
      packetLen := 0;
      bytesReceived := 0;
    }

    /** One call delivers the first frame of what was unfinished plus the new bytes, and drops the
        bytes after it; without a frame it keeps exactly the residue. */
    method PushBytes(data: seq<byte>) returns (packet: Option<seq<byte>>)
      requires Valid()
      modifies this, packetBuffer
      ensures Valid() && packetBuffer == old(packetBuffer)
      ensures match Scan(old(Unfinished()) + data)
              case Frame(payload, _) => packet == Some(payload) && Unfinished() == []
              case Pending(residue) => packet == None && Unfinished() == residue
    {
      ghost var before := Unfinished();
      UnfinishedIsResidue();
      assert before + data[..0] == before;
      for i := 0 to |data|
        invariant Valid() && packetBuffer == old(packetBuffer)
        invariant Scan(before + data[..i]) == Pending(Unfinished())
      {
        ScanOneMore(before, data, i);
        packet := PushByte(data[i]);
        if packet.Some? {
          ScanRest(before, data, i + 1);
          return;
        }
      }
      assert data[..|data|] == data;
      return None;
    }

    /** The body of the loop over the slice: the automaton's transition on one byte. */
    method PushByte(b: byte) returns (packet: Option<seq<byte>>)
      requires Valid()
      modifies this, packetBuffer
      ensures Valid() && packetBuffer == old(packetBuffer)
      ensures match Next(old(Unfinished()), b)
              case Frame(payload, _) => packet == Some(payload) && Unfinished() == []
              case Pending(residue) => packet == None && Unfinished() == residue
    {
      if state == 4 {
        packet := PushPayloadByte(b);
        return;
      }
      if state == 0 {
        if b == 0x94 {
          state := 1;
        }
      } else if state == 1 {
        if b == 0xc3 {
          state := 2;
          packetLen := 0;
        } else {
          state := if b == 0x94 then 1 else 0;
        }
      } else if state == 2 {
        packetLen := b * 256;
        state := 3;
      } else {
        packetLen := packetLen + b;
        if packetLen > 512 {
          Reset();
        } else if packetLen == 0 {
          Reset();
        } else {
          bytesReceived := 0;
          state := 4;
        }
      }
      return None;
    }

    method PushPayloadByte(b: byte) returns (packet: Option<seq<byte>>)
      requires Valid() && state == 4
      modifies this, packetBuffer
      ensures Valid() && packetBuffer == old(packetBuffer)
      ensures match Next(old(Unfinished()), b)
              case Frame(payload, _) => packet == Some(payload) && Unfinished() == []
              case Pending(residue) => packet == None && Unfinished() == residue
    {
      ghost var u := Unfinished();
      ghost var body := packetBuffer[..bytesReceived];
      if bytesReceived < packetLen {
        packetBuffer[bytesReceived] := b;
        bytesReceived := bytesReceived + 1;
      }
      assert packetBuffer[..bytesReceived] == body + [b];
      if bytesReceived == packetLen {
        var n := packetLen;
        state := 0;
        packetLen := 0;
        bytesReceived := 0;
        assert u[4..] == body;
        return Some(packetBuffer[..n]);
      }
      assert Unfinished() == u + [b];
      return None;
    }

    lemma UnfinishedIsResidue()
      requires Valid()
      ensures Scan(Unfinished()) == Pending(Unfinished())
    {
      var u := Unfinished();
      if state == 0 {
        assert Scan([]) == Pending([]);
      } else if state == 1 {
        ScanStartByte([], START1);
      } else if state <= 3 {
        assert MagicAt(u, 0);
        assert FindMagic(u) == 0;
        assert u[0..] == u;
      } else {
        ScanBody(u);
      }
    }
  }

  /** Having scanned `before + data[..i]` without a frame, the next byte makes the next transition. */
  lemma ScanOneMore(before: seq<byte>, data: seq<byte>, i: nat)
    requires i < |data| && Scan(before + data[..i]).Pending?
    ensures Scan(before + data[..i + 1]) == Next(Scan(before + data[..i]).residue, data[i])
  {
    var s := before + data[..i];
    assert before + data[..i + 1] == s + [data[i]];
    ScanAppend(s, [data[i]]);
    ResidueIsStable(s);
    NextIsScan(Scan(s).residue, data[i]);
  }

  lemma ScanRest(before: seq<byte>, data: seq<byte>, i: nat)
    requires i <= |data| && Scan(before + data[..i]).Frame?
    ensures Scan(before + data).Frame?
    ensures Scan(before + data).payload == Scan(before + data[..i]).payload
  {
    ScanAppend(before + data[..i], data[i..]);
    assert before + data[..i] + data[i..] == before + data;
  }
}
