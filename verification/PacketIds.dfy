/** The counter of USB packet ids: `get_next_packet_id` in nrf/src/main.rs. */
module PacketIds {
  import opened Bytes

  const LAST_ID: nat := 0x7FFF_FFFF

  function Successor(id: u32): u32 {
    if id >= LAST_ID then 1 else id + 1
  }

  /** The n-th id drawn, counting from zero. */
  function NthId(n: nat): u32 {
    if n == 0 then 1 else Successor(NthId(n - 1))
  }

  class PacketIdCounter {
    var nextId: u32
    /** How many ids have been drawn. */
    ghost var drawn: nat

    ghost predicate Valid()
      reads this
    {
      nextId == NthId(drawn)
    }

    constructor ()
      ensures Valid() && drawn == 0
    {
      nextId := 1;
      drawn := 0;
    }

    method GetNextPacketId() returns (id: u32)
      requires Valid()
      modifies this
      ensures Valid() && drawn == old(drawn) + 1
      ensures id == NthId(old(drawn))
      ensures id as int == 1 + old(drawn) % 0x7FFF_FFFF
    {
      id := nextId;
      nextId := if id >= LAST_ID then 1 else id + 1;
      drawn := drawn + 1;
      NthIdClosedForm(drawn - 1);
    }
  }

  /** Ids count from 1 to 0x7FFFFFFF and start over; zero is never drawn. */
  lemma {:induction false} NthIdClosedForm(n: nat)
    ensures NthId(n) as int == 1 + n % 0x7FFF_FFFF
  {
    if n != 0 {
      NthIdClosedForm(n - 1);
      NextRemainder(n - 1);
    }
  }

  lemma NextRemainder(n: nat)
    ensures (n + 1) % LAST_ID == if n % LAST_ID == LAST_ID - 1 then 0 else n % LAST_ID + 1
  {
  }

  /** Any 0x7FFFFFFF consecutive draws are distinct; exactly one period apart they repeat. */
  lemma IdsDistinct(m: nat, n: nat)
    requires m < n
    ensures n - m < 0x7FFF_FFFF ==> NthId(m) != NthId(n)
    ensures n - m == 0x7FFF_FFFF ==> NthId(m) == NthId(n)
  {
    NthIdClosedForm(m);
    NthIdClosedForm(n);
    RemainderGap(m, n);
  }

  lemma RemainderGap(m: nat, n: nat)
    requires m < n
    ensures m % LAST_ID == n % LAST_ID && n - m <= LAST_ID ==> n - m == LAST_ID
    ensures n - m == LAST_ID ==> m % LAST_ID == n % LAST_ID
  {
    if m % LAST_ID == n % LAST_ID {
      assert n - m == LAST_ID * (n / LAST_ID - m / LAST_ID);
    }
  }
}
