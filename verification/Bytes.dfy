/** Bytes and machine words, and the sequences the other modules are stated over. */
module Bytes {
  type byte = n: int | 0 <= n < 0x100
  type u16 = n: int | 0 <= n < 0x1_0000
  type u32 = n: int | 0 <= n < 0x1_0000_0000
  type u64 = n: int | 0 <= n < 0x1_0000_0000_0000_0000
  type i8 = n: int | -0x80 <= n < 0x80
  type i16 = n: int | -0x8000 <= n < 0x8000
  type i32 = n: int | -0x8000_0000 <= n < 0x8000_0000

  /** The cast `as i8`, which keeps the low eight bits. */
  function WrapToI8(n: i16): i8 {
    (n + 0x80) % 0x100 - 0x80
  }

  function Min(a: nat, b: nat): nat {
    if a < b then a else b
  }

  function Zeros(n: nat): (s: seq<byte>)
    ensures |s| == n
  {
    seq(n, _ => 0)
  }

  /** `dst[at..at + |src|].copy_from_slice(src)` on a fixed buffer. */
  method CopyInto(dst: array<byte>, at: nat, src: seq<byte>)
    requires at + |src| <= dst.Length
    modifies dst
    ensures dst[..] == old(dst[..at]) + src + old(dst[at + |src|..])
  {
    for k := 0 to |src|
      invariant dst[..at] == old(dst[..at])
      invariant dst[at..at + k] == src[..k]
      invariant dst[at + k..] == old(dst[at + k..])
    {
      dst[at + k] := src[k];
      assert dst[at..at + k + 1] == dst[at..at + k] + [src[k]];
      assert old(dst[at + k..])[1..] == old(dst[at + k + 1..]);
    }
    assert dst[..] == dst[..at] + dst[at..at + |src|] + dst[at + |src|..];
  }

  /** `u32::to_le_bytes`. */
  function Le32(x: u32): (s: seq<byte>)
    ensures |s| == 4
  {
    [x % 256, x / 256 % 256, x / 256 / 256 % 256, x / 256 / 256 / 256]
  }

  /** `u32::from_le_bytes`. */
  function FromLe32(s: seq<byte>): u32
    requires |s| == 4
  {
    var b0: nat, b1: nat, b2: nat, b3: nat := s[0], s[1], s[2], s[3];
    b0 + 256 * (b1 + 256 * (b2 + 256 * b3))
  }

  lemma Le32RoundTrip(x: u32)
    ensures FromLe32(Le32(x)) == x
  {
  }

  lemma FromLe32RoundTrip(s: seq<byte>)
    requires |s| == 4
    ensures Le32(FromLe32(s)) == s
  {
    var b0: nat, b1: nat, b2: nat, b3: nat := s[0], s[1], s[2], s[3];
    LowByte(b0, b1 + 256 * (b2 + 256 * b3));
    LowByte(b1, b2 + 256 * b3);
    LowByte(b2, b3);
  }

  lemma LowByte(low: nat, high: nat)
    requires low < 256
    ensures (low + 256 * high) % 256 == low && (low + 256 * high) / 256 == high
  {
  }

  /** `u64::to_ne_bytes` on the little-endian targets of the firmware. */
  function Le64(x: u64): (s: seq<byte>)
    ensures |s| == 8
  {
    Le32(x % 0x1_0000_0000) + Le32(x / 0x1_0000_0000)
  }

  /** The number bytes stand for, the least significant one first. */
  function LeValue(s: seq<byte>): nat {
    if s == [] then 0 else s[0] + 256 * LeValue(s[1..])
  }

  lemma LeValue32(s: seq<byte>)
    requires |s| == 4
    ensures LeValue(s) == FromLe32(s)
  {
    assert s[1..][1..] == s[2..] && s[2..][1..] == s[3..] && s[3..][1..] == [];
    assert LeValue(s[3..]) == s[3];
    assert LeValue(s[2..]) == s[2] + 256 * LeValue(s[3..]);
    assert LeValue(s[1..]) == s[1] + 256 * LeValue(s[2..]);
  }

  lemma LeValueAppend(s: seq<byte>, t: seq<byte>)
    requires |s| == 4
    ensures LeValue(s + t) == LeValue(s) + 0x1_0000_0000 * LeValue(t)
  {
    var a, b, c, d := s[0], s[1], s[2], s[3];
    assert s == [a, b, c, d];
    LeValue32(s);
    assert ([d] + t)[1..] == t && ([c, d] + t)[1..] == [d] + t;
    assert ([b, c, d] + t)[1..] == [c, d] + t && (s + t)[1..] == [b, c, d] + t;
    assert LeValue([d] + t) == d + 256 * LeValue(t);
    assert LeValue([c, d] + t) == c + 256 * LeValue([d] + t);
    assert LeValue([b, c, d] + t) == b + 256 * LeValue([c, d] + t);
    assert LeValue(s + t) == a + 256 * LeValue([b, c, d] + t);
  }

  /** Both writers put the least significant byte first. */
  lemma LeValueOfBytes(x: u32, y: u64)
    ensures LeValue(Le32(x)) == x && LeValue(Le64(y)) == y
  {
    hide LeValue, Le32;
    LeValue32(Le32(x));
    Le32RoundTrip(x);
    var low: u32, high: u32 := y % 0x1_0000_0000, y / 0x1_0000_0000;
    LeValueAppend(Le32(low), Le32(high));
    LeValue32(Le32(low));
    LeValue32(Le32(high));
    Le32RoundTrip(low);
    Le32RoundTrip(high);
  }

  /** The concatenation of a list of chunks. */
  function Flatten<T>(chunks: seq<seq<T>>): seq<T> {
    if chunks == [] then [] else chunks[0] + Flatten(chunks[1..])
  }

  lemma {:induction false} FlattenAppend<T>(a: seq<seq<T>>, b: seq<seq<T>>)
    ensures Flatten(a + b) == Flatten(a) + Flatten(b)
  {
    if a == [] {
      assert a + b == b;
    } else {
      calc {
        Flatten(a + b);
        { assert (a + b)[0] == a[0] && (a + b)[1..] == a[1..] + b; }
        a[0] + Flatten(a[1..] + b);
        { FlattenAppend(a[1..], b); }
        a[0] + (Flatten(a[1..]) + Flatten(b));
        Flatten(a) + Flatten(b);
      }
    }
  }

  lemma FlattenCons<T>(head: seq<T>, tail: seq<seq<T>>)
    ensures Flatten([head] + tail) == head + Flatten(tail)
  {
    assert ([head] + tail)[1..] == tail;
  }

  lemma Reassociate<T>(a: seq<T>, b: seq<T>, c: seq<T>)
    ensures a + (b + c) == (a + b) + c
  {
  }

  /** Cutting a slice into pieces of `size` elements, the last one possibly shorter. */
  function Pieces<T>(s: seq<T>, size: nat): (chunks: seq<seq<T>>)
    requires size > 0
  {
    if s == [] then []
    else if |s| <= size then [s]
    else [s[..size]] + Pieces(s[size..], size)
  }

  /** The pieces put back together are the slice, and all but the last are full. */
  lemma {:induction false} PiecesCover<T>(s: seq<T>, size: nat)
    requires size > 0
    ensures Flatten(Pieces(s, size)) == s
    ensures forall i :: 0 <= i < |Pieces(s, size)| ==> 1 <= |Pieces(s, size)[i]| <= size
    ensures forall i :: 0 <= i < |Pieces(s, size)| - 1 ==> |Pieces(s, size)[i]| == size
  {
    if s == [] {
    } else if |s| <= size {
      assert Flatten([s]) == s + Flatten<T>([]);
    } else {
      PiecesCover(s[size..], size);
      assert s == s[..size] + s[size..];
    }
  }
}
