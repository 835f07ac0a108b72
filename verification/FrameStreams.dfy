/**
 What successive calls of the framer deliver over a whole stream, against the declarative parse of
 that stream: arbitrary chunks, chunks that lose nothing, and chunks aligned with frame ends.
 */
module FrameStreams {
  import opened Bytes
  import opened Options
  import opened FrameScan
  import opened Framers

  /** The contract of one `Framer.PushBytes` call, as a function of the residue and the chunk. */
  function Call(u: seq<byte>, chunk: seq<byte>): (Option<seq<byte>>, seq<byte>) {
    match Scan(u + chunk)
    case Frame(payload, _) => (Some(payload), [])
    case Pending(residue) => (None, residue)
  }

  /** The payloads returned by successive calls, and the residue they leave. */
  function Calls(u: seq<byte>, chunks: seq<seq<byte>>): (seq<seq<byte>>, seq<byte>)
    decreases |chunks|
  {
    if chunks == [] then ([], u)
    else
      var (packet, u') := Call(u, chunks[0]);
      var (packets, end) := Calls(u', chunks[1..]);
      ((if packet.Some? then [packet.value] else []) + packets, end)
  }

  /** A chunk that completes no frame only moves the residue on. */
  lemma QuietCall(u: seq<byte>, chunks: seq<seq<byte>>)
    requires chunks != [] && Scan(u + chunks[0]).Pending?
    ensures Calls(u, chunks) == Calls(Scan(u + chunks[0]).residue, chunks[1..])
  {
    var packets := Calls(Scan(u + chunks[0]).residue, chunks[1..]).0;
    assert [] + packets == packets;
  }

  lemma OneCall(u: seq<byte>, chunk: seq<byte>)
    ensures Calls(u, [chunk]) ==
            (match Scan(u + chunk)
             case Frame(payload, _) => ([payload], [])
             case Pending(residue) => ([], residue))
  {
    var (_, u') := Call(u, chunk);
    assert [chunk][1..] == [];
    assert Calls(u', []) == ([], u');
    assert forall packets: seq<seq<byte>> :: packets + [] == packets;
  }

  /** The bytes of a chunk the framer looks at: all of them, or those up to the end of the first frame. */
  function Consumed(u: seq<byte>, chunk: seq<byte>): (n: nat)
    ensures n <= |chunk|
  {
    match Scan(u + chunk)
    case Pending(_) => |chunk|
    case Frame(_, rest) => if |rest| <= |chunk| then |chunk| - |rest| else 0
  }

  /** The chunks with the tail after each completed frame cut off. */
  function Kept(u: seq<byte>, chunks: seq<seq<byte>>): seq<seq<byte>>
    decreases |chunks|
  {
    if chunks == [] then []
    else [chunks[0][..Consumed(u, chunks[0])]] + Kept(Call(u, chunks[0]).1, chunks[1..])
  }

  /** No chunk goes on past the end of a frame. */
  ghost predicate Aligned(u: seq<byte>, chunks: seq<seq<byte>>)
    decreases |chunks|
  {
    chunks == [] ||
    (Consumed(u, chunks[0]) == |chunks[0]| && Aligned(Call(u, chunks[0]).1, chunks[1..]))
  }

  /** The first frame is complete after some byte of the chunk, and not before. */
  lemma {:induction false} FrameEnd(u: seq<byte>, chunk: seq<byte>, i: nat) returns (k: nat)
    requires i <= |chunk| && Scan(u + chunk[..i]).Pending?
    requires Scan(u + chunk).Frame?
    ensures i < k <= |chunk|
    ensures Scan(u + chunk[..k]) == Frame(Scan(u + chunk).payload, [])
    ensures Scan(u + chunk).rest == chunk[k..]
    decreases |chunk| - i
  {
    hide Scan;
    assert chunk[..|chunk|] == chunk;
    if i == |chunk| {
      assert false;
    }
    ScanOneMore(u, chunk, i);
    if Scan(u + chunk[..i + 1]).Pending? {
      k := FrameEnd(u, chunk, i + 1);
    } else {
      k := i + 1;
      ScanAppend(u + chunk[..k], chunk[k..]);
      SplitAt(u, chunk, k);
    }
  }

  lemma SplitAt(u: seq<byte>, chunk: seq<byte>, k: nat)
    requires k <= |chunk|
    ensures (u + chunk[..k]) + chunk[k..] == u + chunk
    ensures [] + chunk[k..] == chunk[k..]
  {
  }

  /** A frame ends inside the chunk that completes it, and without what follows it there is the same
      frame and nothing else. */
  lemma CutAfterFrame(u: seq<byte>, chunk: seq<byte>)
    requires Scan(u) == Pending(u)
    requires Scan(u + chunk).Frame?
    ensures |Scan(u + chunk).rest| < |chunk|
    ensures Scan(u + chunk[..Consumed(u, chunk)]) == Frame(Scan(u + chunk).payload, [])
  {
    hide Scan;
    assert u + chunk[..0] == u;
    var k := FrameEnd(u, chunk, 0);
  }

  lemma CallLeavesResidue(u: seq<byte>, chunk: seq<byte>)
    ensures Scan(Call(u, chunk).1) == Pending(Call(u, chunk).1)
  {
    assert Scan([]) == Pending([]);
    if Scan(u + chunk).Pending? {
      ResidueIsStable(u + chunk);
    }
  }

  /** What one call does to the parse of everything after it. */
  lemma CallThenStream(u: seq<byte>, chunk: seq<byte>, stream: seq<byte>)
    requires Scan(u) == Pending(u)
    ensures var t := (u + chunk[..Consumed(u, chunk)]) + stream;
            var (packet, u') := Call(u, chunk);
            && Frames(t) == (if packet.Some? then [packet.value] else []) + Frames(u' + stream)
            && Residue(t) == Residue(u' + stream)
  {
    var kept := u + chunk[..Consumed(u, chunk)];
    ScanAppend(kept, stream);
    if Scan(u + chunk).Frame? {
      CutAfterFrame(u, chunk);
      assert [] + stream == stream;
    } else {
      assert kept == u + chunk;
      SameScanSameFrames(kept + stream, Call(u, chunk).1 + stream);
    }
  }

  /** For all chunks whatever, the calls deliver exactly the frames of the stream with the tail
      after each completed frame removed from its chunk. */
  lemma {:induction false} CallsParseKeptStream(u: seq<byte>, chunks: seq<seq<byte>>)
    requires Scan(u) == Pending(u)
    ensures Calls(u, chunks) == (Frames(u + Flatten(Kept(u, chunks))), Residue(u + Flatten(Kept(u, chunks))))
    decreases |chunks|
  {
    if chunks == [] {
      assert u + Flatten<byte>([]) == u;
    } else {
      var c, u', tail := chunks[0], Call(u, chunks[0]).1, chunks[1..];
      CallLeavesResidue(u, c);
      CallsParseKeptStream(u', tail);
      var stream := Flatten(Kept(u', tail));
      CallThenStream(u, c, stream);
      KeptHead(u, chunks);
    }
  }

  lemma KeptHead(u: seq<byte>, chunks: seq<seq<byte>>)
    requires chunks != []
    ensures u + Flatten(Kept(u, chunks))
            == (u + chunks[0][..Consumed(u, chunks[0])]) + Flatten(Kept(Call(u, chunks[0]).1, chunks[1..]))
  {
    hide Scan;
    var kept, rest := chunks[0][..Consumed(u, chunks[0])], Kept(Call(u, chunks[0]).1, chunks[1..]);
    assert Kept(u, chunks) == [kept] + rest;
    FlattenCons(kept, rest);
    Reassociate(u, kept, Flatten(rest));
  }

  lemma SameScanSameFrames(s: seq<byte>, t: seq<byte>)
    requires Scan(s) == Scan(t)
    ensures Frames(s) == Frames(t) && Residue(s) == Residue(t)
  {
  }

  /** Every tail dropped behind a frame holds no frame and no beginning of one. */
  ghost predicate TailsAreEmpty(u: seq<byte>, chunks: seq<seq<byte>>)
    decreases |chunks|
  {
    chunks == [] ||
    (&& (Scan(u + chunks[0]).Frame? ==> Scan(Scan(u + chunks[0]).rest) == Pending([]))
     && TailsAreEmpty(Call(u, chunks[0]).1, chunks[1..]))
  }

  /** If nothing of a frame is ever dropped, the calls deliver the declarative parse of all the bytes. */
  lemma {:induction false} EmptyTailsParseStream(u: seq<byte>, chunks: seq<seq<byte>>)
    requires Scan(u) == Pending(u)
    requires TailsAreEmpty(u, chunks)
    ensures Calls(u, chunks) == (Frames(u + Flatten(chunks)), Residue(u + Flatten(chunks)))
    decreases |chunks|
  {
    if chunks == [] {
      assert u + Flatten<byte>([]) == u;
    } else {
      var c, u', tail := chunks[0], Call(u, chunks[0]).1, chunks[1..];
      CallLeavesResidue(u, c);
      EmptyTailsParseStream(u', tail);
      Reassociate(u, c, Flatten(tail));
      WholeCallThenStream(u, c, Flatten(tail));
    }
  }

  /** What one call that drops nothing of a frame does to the parse of everything after it. */
  lemma WholeCallThenStream(u: seq<byte>, chunk: seq<byte>, stream: seq<byte>)
    requires Scan(u + chunk).Frame? ==> Scan(Scan(u + chunk).rest) == Pending([])
    ensures var t := (u + chunk) + stream;
            var (packet, u') := Call(u, chunk);
            && Frames(t) == (if packet.Some? then [packet.value] else []) + Frames(u' + stream)
            && Residue(t) == Residue(u' + stream)
  {
    var t := (u + chunk) + stream;
    ScanAppend(u + chunk, stream);
    if Scan(u + chunk).Frame? {
      var rest := Scan(u + chunk).rest;
      ScanAppend(rest, stream);
      SameScanSameFrames(rest + stream, [] + stream);
    } else {
      SameScanSameFrames(t, Call(u, chunk).1 + stream);
    }
  }

  lemma {:induction false} AlignedTailsAreEmpty(u: seq<byte>, chunks: seq<seq<byte>>)
    requires Scan(u) == Pending(u)
    requires Aligned(u, chunks)
    ensures TailsAreEmpty(u, chunks)
    decreases |chunks|
  {
    if chunks != [] {
      ScanNothing();
      if Scan(u + chunks[0]).Frame? {
        CutAfterFrame(u, chunks[0]);
      }
      CallLeavesResidue(u, chunks[0]);
      AlignedTailsAreEmpty(Call(u, chunks[0]).1, chunks[1..]);
    }
  }

  /** Aligned chunks deliver the declarative parse of their concatenation: the cutting is invisible. */
  lemma AlignedCallsParseStream(u: seq<byte>, chunks: seq<seq<byte>>)
    requires Scan(u) == Pending(u)
    requires Aligned(u, chunks)
    ensures Calls(u, chunks) == (Frames(u + Flatten(chunks)), Residue(u + Flatten(chunks)))
  {
    AlignedTailsAreEmpty(u, chunks);
    EmptyTailsParseStream(u, chunks);
  }

  /** Chunks of at most one byte are always aligned. */
  lemma {:induction false} ByteAtATimeAligned(u: seq<byte>, chunks: seq<seq<byte>>)
    requires Scan(u) == Pending(u)
    requires forall i :: 0 <= i < |chunks| ==> |chunks[i]| <= 1
    ensures Aligned(u, chunks)
    decreases |chunks|
  {
    if chunks != [] {
      if Scan(u + chunks[0]).Frame? {
        CutAfterFrame(u, chunks[0]);
      }
      CallLeavesResidue(u, chunks[0]);
      ByteAtATimeAligned(Call(u, chunks[0]).1, chunks[1..]);
    }
  }

  /** One call agrees with the parse of everything it was given exactly when the bytes it discards
      hold no frame and no beginning of one. */
  lemma CallIsParseIff(u: seq<byte>, chunk: seq<byte>)
    requires Scan(u) == Pending(u)
    ensures Calls(u, [chunk]) == (Frames(u + chunk), Residue(u + chunk))
            <==> (Scan(u + chunk).Frame? ==> Scan(Scan(u + chunk).rest) == Pending([]))
  {
    var s := u + chunk;
    OneCall(u, chunk);
    if Scan(s).Frame? {
      ScanShrinks(s);
      var rest := Scan(s).rest;
      assert Frames(s) == [Scan(s).payload] + Frames(rest);
      assert |Frames(s)| == 1 + |Frames(rest)|;
    }
  }

  /** A framer fed chunk after chunk returns what `Calls` says and keeps the residue it says. */
  method Feed(framer: Framer, chunks: seq<seq<byte>>) returns (packets: seq<seq<byte>>)
    requires framer.Valid()
    modifies framer, framer.packetBuffer
    ensures framer.Valid() && framer.packetBuffer == old(framer.packetBuffer)
    ensures (packets, framer.Unfinished()) == Calls(old(framer.Unfinished()), chunks)
  {
    hide Scan, Calls;
    ghost var u0 := framer.Unfinished();
    packets := [];
    NoCalls(u0, chunks);
    for i := 0 to |chunks|
      invariant framer.Valid() && framer.packetBuffer == old(framer.packetBuffer)
      invariant (packets, framer.Unfinished()) == Calls(u0, chunks[..i])
    {
      NextCall(u0, chunks, i);
      var packet := framer.PushBytes(chunks[i]);
      if packet.Some? {
        packets := packets + [packet.value];
      }
    }
    assert chunks[..|chunks|] == chunks;
  }

  lemma NoCalls(u: seq<byte>, chunks: seq<seq<byte>>)
    ensures Calls(u, chunks[..0]) == ([], u)
  {
  }

  lemma NextCall(u: seq<byte>, chunks: seq<seq<byte>>, i: nat)
    requires i < |chunks|
    ensures var (packets, u') := Calls(u, chunks[..i]);
            var (packet, u'') := Call(u', chunks[i]);
            Calls(u, chunks[..i + 1]) == (if packet.Some? then packets + [packet.value] else packets, u'')
  {
    CallsSnoc(u, chunks[..i], chunks[i]);
    assert chunks[..i + 1] == chunks[..i] + [chunks[i]];
  }

  lemma CallsSnoc(u: seq<byte>, chunks: seq<seq<byte>>, chunk: seq<byte>)
    ensures var (packets, u') := Calls(u, chunks);
            var (packet, u'') := Call(u', chunk);
            Calls(u, chunks + [chunk]) == (if packet.Some? then packets + [packet.value] else packets, u'')
  {
    hide Scan;
    CallsAppend(u, chunks, [chunk]);
    OneCall(Calls(u, chunks).1, chunk);
    assert Calls(u, chunks).0 + [] == Calls(u, chunks).0;
  }

  lemma {:induction false} CallsAppend(u: seq<byte>, a: seq<seq<byte>>, b: seq<seq<byte>>)
    ensures Calls(u, a + b) == (Calls(u, a).0 + Calls(Calls(u, a).1, b).0, Calls(Calls(u, a).1, b).1)
    decreases |a|
  {
    hide Scan;
    if a == [] {
      assert a + b == b;
      assert [] + Calls(u, b).0 == Calls(u, b).0;
    } else {
      var (packet, u') := Call(u, a[0]);
      CallsAppend(u', a[1..], b);
      assert (a + b)[0] == a[0] && (a + b)[1..] == a[1..] + b;
      var head := if packet.Some? then [packet.value] else [];
      Reassociate(head, Calls(u', a[1..]).0, Calls(Calls(u', a[1..]).1, b).0);
    }
  }
}
