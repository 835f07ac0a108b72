/**
 A declarative reading of the serial stream protocol: what a byte stream contains, said without
 any automaton. A frame is the two start bytes, a big-endian length between 1 and 512, and that
 many payload bytes; anything else is skipped.
 */
module FrameScan {
  import opened Bytes

  const START1: byte := 0x94
  const START2: byte := 0xc3
  const MAX_FRAME_PAYLOAD: nat := 512

  /** The two length bytes, most significant first. */
  function LengthOf(hi: byte, lo: byte): u16 {
    256 * hi + lo
  }

  predicate GoodLength(n: nat) {
    1 <= n <= MAX_FRAME_PAYLOAD
  }

  predicate MagicAt(s: seq<byte>, i: nat) {
    i + 1 < |s| && s[i] == START1 && s[i + 1] == START2
  }

  /** The first start pair at or after `i`, or the length of the stream if there is none. */
  function MagicFrom(s: seq<byte>, i: nat): (j: nat)
    requires i <= |s|
    ensures i <= j <= |s|
    decreases |s| - i
  {
    if i == |s| || MagicAt(s, i) then i else MagicFrom(s, i + 1)
  }

  /** The leftmost start pair. */
  function FindMagic(s: seq<byte>): (i: nat)
    ensures i <= |s|
  {
    MagicFrom(s, 0)
  }

  ghost predicate NoMagicBefore(s: seq<byte>, i: nat) {
    forall k: nat :: k < i ==> !MagicAt(s, k)
  }

  lemma {:induction false} MagicFromIsFirst(s: seq<byte>, i: nat)
    requires i <= |s| && NoMagicBefore(s, i)
    ensures MagicFrom(s, i) < |s| ==> MagicAt(s, MagicFrom(s, i))
    ensures NoMagicBefore(s, MagicFrom(s, i))
    decreases |s| - i
  {
    if i < |s| && !MagicAt(s, i) {
      MagicFromIsFirst(s, i + 1);
    }
  }

  lemma FindMagicIsLeftmost(s: seq<byte>)
    ensures FindMagic(s) < |s| ==> MagicAt(s, FindMagic(s))
    ensures NoMagicBefore(s, FindMagic(s))
  {
    MagicFromIsFirst(s, 0);
  }

  /** `FindMagic` is determined by being leftmost. */
  lemma FindMagicUnique(s: seq<byte>, i: nat)
    requires i <= |s| && NoMagicBefore(s, i)
    requires i < |s| ==> MagicAt(s, i)
    ensures FindMagic(s) == i
  {
    hide FindMagic;
    FindMagicIsLeftmost(s);
  }

  /** Either the stream holds a first frame, with bytes after it, or only a suffix still matters. */
  datatype ScanResult =
    | Frame(payload: seq<byte>, rest: seq<byte>)
    | Pending(residue: seq<byte>)

  predicate BadHeaderAt(s: seq<byte>, i: nat) {
    i + 4 <= |s| && !GoodLength(LengthOf(s[i + 2], s[i + 3]))
  }

  /** The stream from the start pair at `i`, or from the end of a stream that has none. */
  function ScanFrom(s: seq<byte>, i: nat): ScanResult
    requires i <= |s| && !BadHeaderAt(s, i)
  {
    if i == |s| then Pending(if s != [] && s[|s| - 1] == START1 then [START1] else [])
    else if |s| < i + 4 then Pending(s[i..])
    else
      var n := LengthOf(s[i + 2], s[i + 3]);
      if |s| < i + 4 + n then Pending(s[i..]) else Frame(s[i + 4..i + 4 + n], s[i + 4 + n..])
  }

  /** Skip to the leftmost start pair; past the four header bytes if its length is no good; else
      take that many bytes. */
  function Scan(s: seq<byte>): ScanResult
    decreases |s|
  {
    var i := FindMagic(s);
    if BadHeaderAt(s, i) then Scan(s[i + 4..]) else ScanFrom(s, i)
  }

  /** All the frames of a stream, in order. */
  function Frames(s: seq<byte>): seq<seq<byte>>
    decreases |s|
  {
    match Scan(s)
    case Pending(_) => []
    case Frame(p, rest) =>
      ScanShrinks(s);
      [p] + Frames(rest)
  }

  /** What is left of a stream after its last frame. */
  function Residue(s: seq<byte>): seq<byte>
    decreases |s|
  {
    match Scan(s)
    case Pending(r) => r
    case Frame(_, rest) =>
      ScanShrinks(s);
      Residue(rest)
  }

  lemma {:induction false} ScanShrinks(s: seq<byte>)
    ensures Scan(s).Frame? ==> |Scan(s).rest| < |s| && GoodLength(|Scan(s).payload|)
    decreases |s|
  {
    var i := FindMagic(s);
    if BadHeaderAt(s, i) {
      ScanShrinks(s[i + 4..]);
    }
  }

  lemma ScanUnfolds(s: seq<byte>)
    ensures Scan(s) == if BadHeaderAt(s, FindMagic(s)) then Scan(s[FindMagic(s) + 4..]) else ScanFrom(s, FindMagic(s))
  {
  }

  lemma FindMagicAfter(noise: seq<byte>, s: seq<byte>)
    requires NoMagicBefore(noise + s, |noise|)
    ensures FindMagic(noise + s) == |noise| + FindMagic(s)
  {
    var t, m, i := noise + s, |noise|, FindMagic(s);
    FindMagicIsLeftmost(s);
    forall k: nat | k < m + i ensures !MagicAt(t, k) {
      if k >= m {
        assert !MagicAt(s, k - m);
      }
    }
    FindMagicUnique(t, m + i);
  }

  lemma ScanFromShift(noise: seq<byte>, s: seq<byte>, i: nat)
    requires i <= |s| && !BadHeaderAt(s, i)
    requires s != [] || noise == [] || noise[|noise| - 1] != START1
    ensures !BadHeaderAt(noise + s, |noise| + i)
    ensures ScanFrom(noise + s, |noise| + i) == ScanFrom(s, i)
  {
    var t, j := noise + s, |noise| + i;
    assert t[j..] == s[i..];
    if i + 4 <= |s| {
      assert t[j + 2] == s[i + 2] && t[j + 3] == s[i + 3];
      var n := LengthOf(s[i + 2], s[i + 3]);
      if i + 4 + n <= |s| {
        assert t[j + 4..j + 4 + n] == s[i + 4..i + 4 + n];
        assert t[j + 4 + n..] == s[i + 4 + n..];
      }
    }
  }

  /** Bytes before the first start pair do not matter. */
  lemma SkipNoise(noise: seq<byte>, s: seq<byte>)
    requires NoMagicBefore(noise + s, |noise|)
    requires s != [] || noise == [] || noise[|noise| - 1] != START1
    ensures Scan(noise + s) == Scan(s)
  {
    hide Scan, FindMagic, ScanFrom, BadHeaderAt, MagicAt, NoMagicBefore;
    FindMagicAfter(noise, s);
    var t, i := noise + s, FindMagic(s);
    ScanUnfolds(s);
    ScanUnfolds(t);
    BadHeaderShift(noise, s, i);
    if !BadHeaderAt(s, i) {
      ScanFromShift(noise, s, i);
    }
  }

  lemma BadHeaderShift(noise: seq<byte>, s: seq<byte>, i: nat)
    ensures BadHeaderAt(noise + s, |noise| + i) == BadHeaderAt(s, i)
    ensures i + 4 <= |s| ==> (noise + s)[|noise| + i + 4..] == s[i + 4..]
    ensures BadHeaderAt(s, i) ==> i + 4 <= |s|
  {
    if i + 4 <= |s| {
      var t := noise + s;
      assert t[|noise| + i + 2] == s[i + 2] && t[|noise| + i + 3] == s[i + 3];
    }
  }

  /** A start pair stays the leftmost whatever is appended. */
  lemma MagicStays(s: seq<byte>, t: seq<byte>)
    requires FindMagic(s) < |s|
    ensures FindMagic(s + t) == FindMagic(s)
    ensures NoMagicBefore(s + t, FindMagic(s))
  {
    var i := FindMagic(s);
    FindMagicIsLeftmost(s);
    assert MagicAt(s + t, i);
    forall k: nat | k < i ensures !MagicAt(s + t, k) {
      assert MagicAt(s + t, k) == MagicAt(s, k);
    }
    FindMagicUnique(s + t, i);
  }

  lemma MagicSuffix(s: seq<byte>, t: seq<byte>)
    requires FindMagic(s) < |s|
    ensures Scan(s + t) == Scan(s[FindMagic(s)..] + t)
  {
    var i := FindMagic(s);
    MagicStays(s, t);
    assert s + t == s[..i] + (s[i..] + t);
    SkipNoise(s[..i], s[i..] + t);
  }

  /** A stream without a start pair keeps at most a trailing first start byte. */
  lemma NoMagicStays(s: seq<byte>, t: seq<byte>)
    requires FindMagic(s) == |s|
    ensures Scan(s + t) == Scan(Scan(s).residue + t)
  {
    FindMagicIsLeftmost(s);
    var r := Scan(s).residue;
    var noise := s[..|s| - |r|];
    assert s == noise + r;
    assert s + t == noise + (r + t);
    forall k: nat | k < |noise| ensures !MagicAt(s + t, k) {
      if k + 1 < |s| {
        assert MagicAt(s + t, k) == MagicAt(s, k);
      }
    }
    SkipNoise(noise, r + t);
  }

  lemma GoodHeaderStays(s: seq<byte>, t: seq<byte>)
    requires FindMagic(s) + 4 <= |s| && !BadHeaderAt(s, FindMagic(s))
    ensures Scan(s).Frame? ==> Scan(s + t) == Frame(Scan(s).payload, Scan(s).rest + t)
    ensures Scan(s).Pending? ==> Scan(s).residue == s[FindMagic(s)..]
  {
    hide Scan, FindMagic;
    ScanUnfolds(s);
    var i := FindMagic(s);
    var n := LengthOf(s[i + 2], s[i + 3]);
    if i + 4 + n <= |s| {
      MagicStays(s, t);
      ScanUnfolds(s + t);
      assert (s + t)[i + 2] == s[i + 2] && (s + t)[i + 3] == s[i + 3];
      assert (s + t)[i + 4..i + 4 + n] == s[i + 4..i + 4 + n];
      assert (s + t)[i + 4 + n..] == s[i + 4 + n..] + t;
    }
  }

  /** Scanning is incremental: only the residue of what was already read matters to what follows. */
  lemma {:induction false} ScanAppend(s: seq<byte>, t: seq<byte>)
    ensures Scan(s).Frame? ==> Scan(s + t) == Frame(Scan(s).payload, Scan(s).rest + t)
    ensures Scan(s).Pending? ==> Scan(s + t) == Scan(Scan(s).residue + t)
    decreases |s|
  {
    var i := FindMagic(s);
    if i == |s| {
      NoMagicStays(s, t);
    } else {
      MagicStays(s, t);
      MagicSuffix(s, t);
      if i + 4 <= |s| {
        if BadHeaderAt(s, i) {
          assert (s + t)[i + 4..] == s[i + 4..] + t;
          ScanAppend(s[i + 4..], t);
        } else {
          GoodHeaderStays(s, t);
        }
      }
    }
  }

  /** A residue is its own residue. */
  lemma ResidueIsStable(s: seq<byte>)
    requires Scan(s).Pending?
    ensures Scan(Scan(s).residue) == Scan(s)
  {
    ScanAppend(s, []);
    assert s + [] == s;
    assert Scan(s).residue + [] == Scan(s).residue;
  }
}
