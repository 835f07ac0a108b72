/**
 Frames as they are written, and what reading them back gives: the print/parse inverse, the exact
 condition under which bytes before a frame leave it intact, and frames cut into USB transfers.
 */
module FramePrinting {
  import opened Bytes
  import opened Options
  import opened FrameScan
  import opened Framers
  import opened FrameStreams

  /** The wire form of a payload: start pair, big-endian length, payload. */
  function Printed(payload: seq<byte>): seq<byte>
    requires |payload| < 0x1_0000
  {
    [START1, START2, |payload| / 256, |payload| % 256] + payload
  }

  lemma ScanPrinted(payload: seq<byte>, after: seq<byte>)
    requires GoodLength(|payload|)
    ensures Scan(Printed(payload) + after) == Frame(payload, after)
  {
    var s, n := Printed(payload) + after, |payload|;
    assert s[2] == n / 256 && s[3] == n % 256;
    assert LengthOf(s[2], s[3]) == n;
    ScanBody(s);
    assert s[4..4 + n] == payload;
    assert s[4 + n..] == after;
  }

  /** Until its last byte has come, a frame is only a residue. */
  lemma ScanUnfinishedFrame(payload: seq<byte>, k: nat)
    requires GoodLength(|payload|) && k < |Printed(payload)|
    ensures Scan(Printed(payload)[..k]) == Pending(Printed(payload)[..k])
  {
    var s := Printed(payload);
    var t := s[..k];
    if k >= 4 {
      assert t[2] == s[2] && t[3] == s[3];
      ScanBody(t);
    } else if k >= 2 {
      assert MagicAt(t, 0);
      assert FindMagic(t) == 0;
      assert t[0..] == t;
    } else if k == 1 {
      assert t == [START1];
      ScanStartByte([], START1);
      assert [] + [START1] == [START1];
    }
  }

  /** A header on the wire, byte by byte: a frame of every length from 1 to 512 is delivered once its bytes
      are there, and a header of any other length is skipped. */
  lemma HeaderOnTheWire(hi: byte, lo: byte, body: seq<byte>)
    ensures var header: seq<byte>, n := [0x94, 0xc3, hi, lo], 256 * (hi as int) + lo;
            Scan(header + body)
            == if n == 0 || n > 512 then Scan(body)
               else if |body| < n then Pending(header + body)
               else Frame(body[..n], body[n..])
  {
    var n: nat := 256 * (hi as int) + lo;
    if n == 0 || n > 512 {
      BadHeaderIsSkipped(hi, lo, body);
    } else if |body| < n {
      PrintedHeader(hi, lo, body + Zeros(n - |body|));
      hide Scan, Printed;
      ScanUnfinishedFrame(body + Zeros(n - |body|), 4 + |body|);
      CutInBody([0x94, 0xc3, hi, lo], body, Zeros(n - |body|));
    } else {
      PrintedHeader(hi, lo, body[..n]);
      hide Scan, Printed;
      ScanPrinted(body[..n], body[n..]);
      CutInBody([0x94, 0xc3, hi, lo], body[..n], body[n..]);
      assert body[..n] + body[n..] == body;
    }
  }

  lemma PrintedHeader(hi: byte, lo: byte, payload: seq<byte>)
    requires |payload| == 256 * (hi as int) + lo
    ensures Printed(payload) == [0x94, 0xc3, hi, lo] + payload
  {
    LowByte(lo, hi);
  }

  lemma CutInBody<T>(header: seq<T>, front: seq<T>, back: seq<T>)
    ensures header + (front + back) == (header + front) + back
    ensures (header + (front + back))[..|header| + |front|] == header + front
  {
  }

  lemma BadHeaderIsSkipped(hi: byte, lo: byte, body: seq<byte>)
    requires !GoodLength(LengthOf(hi, lo))
    ensures Scan([START1, START2, hi, lo] + body) == Scan(body)
  {
    var s := [START1, START2, hi, lo] + body;
    Framers.ScanAtStart(s);
    assert s[4..] == body;
  }

  predicate AllGood(payloads: seq<seq<byte>>) {
    forall i :: 0 <= i < |payloads| ==> GoodLength(|payloads[i]|)
  }

  function PrintedAll(payloads: seq<seq<byte>>): seq<byte>
    requires AllGood(payloads)
  {
    if |payloads| == 0 then []
    else
      assert GoodLength(|payloads[0]|);
      Printed(payloads[0]) + PrintedAll(payloads[1..])
  }

  lemma ParseOnePrinted(payload: seq<byte>, rest: seq<byte>)
    requires GoodLength(|payload|)
    ensures Frames(Printed(payload) + rest) == [payload] + Frames(rest)
    ensures Residue(Printed(payload) + rest) == Residue(rest)
  {
    ScanPrinted(payload, rest);
  }

  /** Parsing inverts printing: any list of payloads, followed by anything. */
  lemma {:induction false} ParsePrinted(payloads: seq<seq<byte>>, after: seq<byte>)
    requires AllGood(payloads)
    ensures Frames(PrintedAll(payloads) + after) == payloads + Frames(after)
    ensures Residue(PrintedAll(payloads) + after) == Residue(after)
  {
    if |payloads| == 0 {
      assert [] + after == after;
    } else {
      hide Scan;
      var first, others := payloads[0], payloads[1..];
      assert GoodLength(|first|);
      ParsePrinted(others, after);
      PrintedAllHead(payloads, after);
      ParseOnePrinted(first, PrintedAll(others) + after);
      Reassociate([first], others, Frames(after));
      assert [first] + others == payloads;
    }
  }

  lemma PrintedAllHead(payloads: seq<seq<byte>>, after: seq<byte>)
    requires AllGood(payloads) && |payloads| > 0 && GoodLength(|payloads[0]|)
    ensures PrintedAll(payloads) + after == Printed(payloads[0]) + (PrintedAll(payloads[1..]) + after)
  {
  }

  /** The exact condition for bytes without a frame to leave the next frame intact: their residue is
      empty or the lone first start byte. Any longer residue swallows or shifts the frame. */
  lemma FrameIntactIff(before: seq<byte>, payload: seq<byte>, after: seq<byte>)
    requires Scan(before).Pending? && GoodLength(|payload|)
    ensures Scan(before + (Printed(payload) + after)) == Frame(payload, after)
            <==> Scan(before).residue == [] || Scan(before).residue == [START1]
  {
    var r, s := Scan(before).residue, Printed(payload) + after;
    ScanAppend(before, s);
    ResidueIsStable(before);
    ResidueShape(r);
    ScanPrinted(payload, after);
    if |r| <= 1 {
      if |r| == 1 {
        assert r == [START1];
        assert (r + s)[1] == START1;
        assert !MagicAt(r + s, 0);
      }
      SkipNoise(r, s);
    } else {
      FirstFrameIsElsewhere(r, s, |payload|);
    }
  }

  /** From a residue of two bytes or more, the first frame found does not start where `s` does. */
  lemma FirstFrameIsElsewhere(r: seq<byte>, s: seq<byte>, n: nat)
    requires |r| >= 2 && r[0] == START1 && r[1] == START2
    requires |r| >= 4 ==> GoodLength(LengthOf(r[2], r[3]))
    requires 4 + n <= |s|
    ensures Scan(r + s).Frame? && |Scan(r + s).payload| == n ==> |Scan(r + s).rest| != |s| - 4 - n
  {
    var t := r + s;
    assert MagicAt(t, 0);
    assert FindMagic(t) == 0;
    if BadHeaderAt(t, 0) {
      FrameEndsAfterHeader(t[4..]);
    }
  }

  lemma {:induction false} FrameEndsAfterHeader(s: seq<byte>)
    ensures Scan(s).Frame? ==> |Scan(s).rest| + |Scan(s).payload| + 4 <= |s|
    decreases |s|
  {
    if BadHeaderAt(s, FindMagic(s)) {
      FrameEndsAfterHeader(s[FindMagic(s) + 4..]);
    }
  }

  /** Bytes that leave the framer ready for a frame. */
  ghost predicate Harmless(before: seq<byte>) {
    Scan(before) == Pending([]) || Scan(before) == Pending([START1])
  }

  /** What bytes without a start pair leave behind: at most a last first start byte. */
  function Trailing(noise: seq<byte>): seq<byte> {
    if noise != [] && noise[|noise| - 1] == START1 then [START1] else []
  }

  /** Noise holding no start pair is harmless, even if it ends in the first start byte. */
  lemma NoiseIsHarmless(noise: seq<byte>)
    requires NoMagicBefore(noise, |noise|)
    ensures Scan(noise) == Pending(Trailing(noise)) && Harmless(noise)
  {
    FindMagicUnique(noise, |noise|);
  }

  /** And so is noise behind harmless bytes, if it does not complete a start pair with them. */
  lemma NoiseStaysHarmless(before: seq<byte>, noise: seq<byte>)
    requires Harmless(before)
    requires NoMagicBefore(Scan(before).residue + noise, |Scan(before).residue + noise|)
    ensures Scan(before + noise) == Pending(Trailing(Scan(before).residue + noise))
    ensures Harmless(before + noise)
  {
    ScanAppend(before, noise);
    NoiseIsHarmless(Scan(before).residue + noise);
  }

  /** A header of bad length is harmless, after harmless bytes. */
  lemma BadHeaderIsHarmless(before: seq<byte>, hi: byte, lo: byte)
    requires Harmless(before) && !GoodLength(LengthOf(hi, lo))
    ensures Scan(before + [START1, START2, hi, lo]) == Pending([])
  {
    var r, h := Scan(before).residue, [START1, START2, hi, lo];
    ScanAppend(before, h);
    if r == [START1] {
      assert !MagicAt(r + h, 0) by { assert (r + h)[1] == START1; }
      SkipNoise(r, h);
    } else {
      assert r + h == h;
    }
    Framers.ScanAtStart(h);
    assert h[4..] == [];
    ScanNothing();
  }

  /** What may stand between frames: stretches of noise and malformed headers, in any order. */
  datatype Junk = Noise(bytes: seq<byte>) | BadHeader(hi: byte, lo: byte)
  {
    function Bytes(): seq<byte> {
      match this
      case Noise(bytes) => bytes
      case BadHeader(hi, lo) => [START1, START2, hi, lo]
    }
  }

  function JunkBytes(junk: seq<Junk>): seq<byte> {
    if junk == [] then [] else JunkBytes(junk[..|junk| - 1]) + junk[|junk| - 1].Bytes()
  }

  /** The first start byte junk may end in. */
  function JunkEnd(junk: seq<Junk>): seq<byte> {
    if junk == [] then []
    else
      match junk[|junk| - 1]
      case Noise(bytes) => Trailing(JunkEnd(junk[..|junk| - 1]) + bytes)
      case BadHeader(_, _) => []
  }

  /** Every header is of length zero or above 512, and no noise holds a start pair or completes one
      with a first start byte in front of it. */
  ghost predicate IsJunk(junk: seq<Junk>) {
    junk == [] ||
    (&& IsJunk(junk[..|junk| - 1])
     && match junk[|junk| - 1]
        case Noise(bytes) =>
          var joined := JunkEnd(junk[..|junk| - 1]) + bytes;
          NoMagicBefore(joined, |joined|)
        case BadHeader(hi, lo) => !GoodLength(LengthOf(hi, lo)))
  }

  /** Junk leaves nothing but the first start byte it may end in. */
  lemma {:induction false} JunkIsHarmless(junk: seq<Junk>)
    requires IsJunk(junk)
    ensures Scan(JunkBytes(junk)) == Pending(JunkEnd(junk)) && Harmless(JunkBytes(junk))
  {
    hide Scan;
    if junk == [] {
      ScanNothing();
    } else {
      var init := junk[..|junk| - 1];
      JunkIsHarmless(init);
      match junk[|junk| - 1] {
        case Noise(bytes) => NoiseStaysHarmless(JunkBytes(init), bytes);
        case BadHeader(hi, lo) => BadHeaderIsHarmless(JunkBytes(init), hi, lo);
      }
    }
  }

  /** Any interleaving of noise and malformed headers leaves the frame after it whole. */
  lemma JunkBeforeFrame(junk: seq<Junk>, payload: seq<byte>, after: seq<byte>)
    requires IsJunk(junk) && GoodLength(|payload|)
    ensures Scan(JunkBytes(junk) + (Printed(payload) + after)) == Frame(payload, after)
  {
    hide Scan;
    JunkIsHarmless(junk);
    FrameIntactIff(JunkBytes(junk), payload, after);
  }

  /** A frame handed over in pieces: nothing until the piece that completes it, then the payload.
      Bytes behind the frame in that last piece are lost without harm. */
  lemma {:induction false} FrameInPieces(payload: seq<byte>, k: nat, pieces: seq<seq<byte>>, padding: seq<byte>)
    requires GoodLength(|payload|) && k < |Printed(payload)|
    requires pieces != [] && Flatten(pieces) == Printed(payload)[k..] + padding
    requires |padding| < |pieces[|pieces| - 1]|
    ensures Calls(Printed(payload)[..k], pieces[..|pieces| - 1]).0 == []
    ensures Calls(Printed(payload)[..k], pieces) == ([payload], [])
    decreases |pieces|
  {
    hide Scan;
    var s, u, p := Printed(payload), Printed(payload)[..k], pieces[0];
    if |pieces| == 1 {
      assert pieces == [p];
      assert Flatten([p]) == p;
      assert u + (s[k..] + padding) == s + padding;
      ScanPrinted(payload, padding);
      OneCall(u, p);
      assert pieces[..0] == [];
    } else {
      var tail, front := pieces[1..], pieces[..|pieces| - 1];
      LastIsIn(tail);
      SplitAfter(s, k, padding, p, Flatten(tail));
      ScanUnfinishedFrame(payload, k + |p|);
      FrameInPieces(payload, k + |p|, tail, padding);
      QuietCall(u, pieces);
      assert front[0] == p && front[1..] == tail[..|tail| - 1];
      QuietCall(u, front);
    }
  }

  lemma SplitAfter(s: seq<byte>, k: nat, padding: seq<byte>, p: seq<byte>, rest: seq<byte>)
    requires k <= |s| && p + rest == s[k..] + padding && |rest| > |padding|
    ensures k + |p| < |s| && s[..k] + p == s[..k + |p|] && rest == s[k + |p|..] + padding
  {
    assert p == (p + rest)[..|p|] && rest == (p + rest)[|p|..];
  }

  lemma {:induction false} LastIsIn<T>(pieces: seq<seq<T>>)
    requires pieces != []
    ensures |Flatten(pieces)| >= |pieces[|pieces| - 1]|
  {
    if |pieces| > 1 {
      LastIsIn(pieces[1..]);
    }
  }

  /** A frame read in whole 64-byte transfers, the last one filled up with stale bytes. */
  lemma FrameInPaddedReads(payload: seq<byte>, stale: seq<byte>)
    requires GoodLength(|payload|) && |stale| < 64 && (|Printed(payload)| + |stale|) % 64 == 0
    ensures var transfers := Pieces(Printed(payload) + stale, 64);
            && (forall i :: 0 <= i < |transfers| ==> |transfers[i]| == 64)
            && Calls([], transfers[..|transfers| - 1]).0 == []
            && Calls([], transfers) == ([payload], [])
  {
    var stream := Printed(payload) + stale;
    var transfers := Pieces(stream, 64);
    PiecesCover(stream, 64);
    EvenPieces(stream);
    assert Printed(payload)[..0] == [] && Printed(payload)[0..] == Printed(payload);
    FrameInPieces(payload, 0, transfers, stale);
  }

  // The forwarder hands over its whole buffer even after a short read: the bytes read, and behind them
  // whatever the buffer held before.

  /** A buffer with stale bytes behind the bytes read is taken as the bytes read alone would be if and
      only if these complete a frame, or the stale bytes change nothing about the residue. */
  lemma StaleIsHarmlessIff(u: seq<byte>, data: seq<byte>, stale: seq<byte>)
    ensures Call(u, data + stale) == Call(u, data)
            <==> Scan(u + data).Frame? || Scan(Scan(u + data).residue + stale) == Scan(u + data)
  {
    ScanAppend(u + data, stale);
    assert u + (data + stale) == (u + data) + stale;
    hide Scan;
  }

  /** A read that stops inside a payload: the stale bytes are taken for the rest of it. If there are
      enough of them, what is delivered is the payload read so far filled up with stale bytes. */
  lemma ShortReadTakesStale(payload: seq<byte>, k: nat, stale: seq<byte>)
    requires GoodLength(|payload|) && k < |payload|
    ensures var read, missing := Printed(payload)[..4 + k], |payload| - k;
            Call([], read + stale)
            == if |stale| < missing then (None, read + stale) else (Some(payload[..k] + stale[..missing]), [])
  {
    hide Scan;
    var read, missing := Printed(payload)[..4 + k], |payload| - k;
    assert [] + (read + stale) == read + stale;
    if |stale| < missing {
      var mixed := payload[..k] + stale + payload[k + |stale|..];
      assert read + stale == Printed(mixed)[..4 + k + |stale|];
      ScanUnfinishedFrame(mixed, 4 + k + |stale|);
    } else {
      var mixed := payload[..k] + stale[..missing];
      assert read + stale == Printed(mixed) + stale[missing..];
      ScanPrinted(mixed, stale[missing..]);
    }
  }

  /** So after such a read the buffer is taken rightly only if there are no stale bytes at all, and the
      payload delivered is the right one exactly if the stale bytes happen to be its missing ones. */
  lemma ShortReadSpoilsFrame(payload: seq<byte>, k: nat, stale: seq<byte>)
    requires GoodLength(|payload|) && k < |payload|
    ensures var read, missing := Printed(payload)[..4 + k], |payload| - k;
            && (Call([], read + stale) == Call([], read) <==> stale == [])
            && (Call([], read + stale).0 == Some(payload)
                <==> |stale| >= missing && stale[..missing] == payload[k..])
  {
    hide Call, Scan;
    var read, missing := Printed(payload)[..4 + k], |payload| - k;
    ShortReadTakesStale(payload, k, stale);
    ShortReadTakesStale(payload, k, []);
    assert read + [] == read;
    assert payload == payload[..k] + payload[k..];
    if |stale| >= missing {
      assert (payload[..k] + stale[..missing])[k..] == stale[..missing];
    } else {
      assert stale != [] ==> |read + stale| != |read|;
    }
  }

  /** A frame at the front of one transfer is delivered, whatever stands behind it. */
  lemma FrameInOneRead(residue: seq<byte>, payload: seq<byte>, stale: seq<byte>)
    requires residue == [] || residue == [START1]
    requires GoodLength(|payload|)
    ensures Call(residue, Printed(payload) + stale) == (Some(payload), [])
  {
    if residue == [] {
      ScanNothing();
    } else {
      ScanStartByte([], START1);
      assert [] + [START1] == residue;
    }
    FrameIntactIff(residue, payload, stale);
    hide Scan, Printed;
  }

  lemma {:induction false} EvenPieces<T>(s: seq<T>)
    requires |s| % 64 == 0
    ensures forall i :: 0 <= i < |Pieces(s, 64)| ==> |Pieces(s, 64)[i]| == 64
    decreases |s|
  {
    if |s| > 64 {
      EvenPieces(s[64..]);
    }
  }

  /** Two frames in one transfer: the second is dropped, though the stream holds both. */
  lemma SecondFrameInOneCallIsLost(first: seq<byte>, second: seq<byte>)
    requires GoodLength(|first|) && GoodLength(|second|)
    ensures Calls([], [Printed(first) + Printed(second)]) == ([first], [])
    ensures Frames(Printed(first) + Printed(second)) == [first, second]
  {
    var s := Printed(first) + Printed(second);
    OneCall([], s);
    assert [] + s == s;
    ScanPrinted(first, Printed(second));
    ParseOnePrinted(first, Printed(second));
    ParseOnePrinted(second, []);
    assert Printed(second) + [] == Printed(second);
    assert Scan([]) == Pending([]);
    assert Frames([]) == [];
  }
}
