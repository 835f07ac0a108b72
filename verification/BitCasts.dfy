/** A byte as a number and a byte as eight bits are the same thing. */
module BitCasts {
  import opened Bytes

  lemma CastFromBits(v: bv8)
    ensures 0 <= v as int < 256 && (v as byte) as bv8 == v
  {
  }

  lemma CastToBits(b: byte)
    ensures (b as bv8) as byte == b
  {
    var v := BitsOf(b);
    CastFromBits(v);
    assert b as bv8 == v;
  }

  /** Counting up reaches the bits of every byte. */
  lemma {:induction false} BitsOf(b: byte) returns (v: bv8)
    ensures v as int == b
  {
    if b == 0 {
      v := 0;
    } else {
      var w := BitsOf(b - 1);
      CountUp(w);
      v := w + 1;
    }
  }

  lemma CountUp(v: bv8)
    requires v != 255
    ensures (v + 1) as int == v as int + 1
  {
  }
}
