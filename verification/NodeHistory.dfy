/**
 The database as a function of the packet history alone. The folding of `Record` over the packets is
 compared with a description that never looks at a database: who is known, and what the last
 accepted packet of each kind from each of them said.
 */
module NodeHistory {
  import opened Bytes
  import opened Options
  import opened Protobuf
  import opened Headers
  import opened Packets
  import opened Nodes
  import opened NodeDatabases

  /** The database after a history, packet by packet. */
  function Fold(history: seq<DecodedPacket>, dec: Decoders): seq<NodeInfo> {
    if history == [] then []
    else Record(Fold(history[..|history| - 1], dec), history[|history| - 1], dec)
  }

  // The description.

  function Init(history: seq<DecodedPacket>): seq<DecodedPacket>
    requires history != []
  {
    history[..|history| - 1]
  }

  function Last(history: seq<DecodedPacket>): DecodedPacket
    requires history != []
  {
    history[|history| - 1]
  }

  /** The senders of accepted packets, in the order of their first one. */
  function Senders(history: seq<DecodedPacket>, dec: Decoders): seq<u32> {
    if history == [] then []
    else
      var before, p := Senders(Init(history), dec), Last(history);
      if Accepted(p, dec) && p.header.source !in before then before + [p.header.source] else before
  }

  /** The kinds of packet that write a field, told by port and decoder. */
  datatype Kind = WithUser | WithPosition | WithMetrics | AnyAccepted
  {
    predicate Covers(p: DecodedPacket, dec: Decoders) {
      var port, bytes := p.PortNumber(), p.PayloadData();
      match this
      case WithUser => port == Known(NodeinfoApp) && dec.user(bytes).Some?
      case WithPosition => port == Known(PositionApp) && dec.position(bytes).Some?
      case WithMetrics => port == Known(TelemetryApp) && MetricsIn(dec.telemetry(bytes)).Some?
      case AnyAccepted =>
        && (port == Known(NodeinfoApp) ==> dec.user(bytes).Some?)
        && (port == Known(PositionApp) ==> dec.position(bytes).Some?)
        && (port == Known(TelemetryApp) ==> dec.telemetry(bytes).Some?)
    }
  }

  /** The device metrics a decoded telemetry message carries, if it is of that variant. */
  function MetricsIn(t: Option<PbTelemetry>): Option<PbDeviceMetrics> {
    match t
    case Some(PbTelemetry(Some(DeviceMetricsVariant(dm)))) => Some(dm)
    case _ => None
  }

  /** The last packet of a kind from a sender. */
  function LastOf(kind: Kind, history: seq<DecodedPacket>, dec: Decoders, sender: u32): (last: Option<DecodedPacket>)
    ensures last.Some? ==> kind.Covers(last.value, dec)
  {
    if history == [] then None
    else
      var p := Last(history);
      if p.header.source == sender && kind.Covers(p, dec) then Some(p)
      else LastOf(kind, Init(history), dec, sender)
  }

  /** What is known of a sender: each field from the last packet of its kind. */
  function Described(history: seq<DecodedPacket>, dec: Decoders, sender: u32): NodeInfo {
    NodeInfo(
      sender,
      (match LastOf(WithUser, history, dec, sender)
       case Some(p) => Some(StoredUser(dec.user(p.PayloadData()).value))
       case None => None),
      (match LastOf(WithPosition, history, dec, sender)
       case Some(p) => Some(StoredPosition(dec.position(p.PayloadData()).value))
       case None => None),
      (match LastOf(AnyAccepted, history, dec, sender)
       case Some(p) => p.snr as real
       case None => 0.0),
      0,
      (match LastOf(WithMetrics, history, dec, sender)
       case Some(p) => StoredMetrics(dec.telemetry(p.PayloadData()).value)
       case None => None))
  }

  /** The first fifty senders. */
  function Members(history: seq<DecodedPacket>, dec: Decoders): seq<u32> {
    var senders := Senders(history, dec);
    senders[..Min(|senders|, CAPACITY)]
  }

  // The theorem.

  /** After any history the database lists exactly the first fifty senders, in order of appearance,
      each with the last user, position and metrics it sent, the signal of its last accepted packet,
      and a last-heard time of zero. */
  lemma {:induction false} FoldIsDescribed(history: seq<DecodedPacket>, dec: Decoders)
    ensures |Fold(history, dec)| == |Members(history, dec)|
    ensures forall i :: 0 <= i < |Members(history, dec)| ==>
                          Fold(history, dec)[i] == Described(history, dec, Members(history, dec)[i])
  {
    if history != [] {
      var before, p := Init(history), Last(history);
      FoldIsDescribed(before, dec);
      var s := p.header.source;
      SendersDistinct(before, dec);
      if Accepted(p, dec) {
        StepDescribed(history, dec);
        forall other: u32 | other != s ensures Described(history, dec, other) == Described(before, dec, other) {
          OthersUnchanged(history, dec, other);
        }
        RecordIsDescribed(history, dec);
      } else {
        forall other: u32 ensures Described(history, dec, other) == Described(before, dec, other) {
          UndecodableUnchanged(history, dec, other);
        }
      }
    }
  }

  /** The step of the theorem, once the description of each sender is known to move as it should. */
  lemma RecordIsDescribed(history: seq<DecodedPacket>, dec: Decoders)
    requires history != [] && Accepted(Last(history), dec)
    requires |Fold(Init(history), dec)| == |Members(Init(history), dec)|
    requires forall i :: 0 <= i < |Members(Init(history), dec)| ==>
                           Fold(Init(history), dec)[i] == Described(Init(history), dec, Members(Init(history), dec)[i])
    requires forall i, j :: 0 <= i < j < |Senders(Init(history), dec)| ==>
                              Senders(Init(history), dec)[i] != Senders(Init(history), dec)[j]
    requires forall other: u32 :: other != Last(history).header.source ==>
                                    Described(history, dec, other) == Described(Init(history), dec, other)
    requires Described(history, dec, Last(history).header.source)
             == Written(Described(Init(history), dec, Last(history).header.source), Last(history), dec)
    ensures |Fold(history, dec)| == |Members(history, dec)|
    ensures forall i :: 0 <= i < |Members(history, dec)| ==>
                          Fold(history, dec)[i] == Described(history, dec, Members(history, dec)[i])
  {
    hide Described, Written;
    var before, p, s := Init(history), Last(history), Last(history).header.source;
    var nodes, members := Fold(before, dec), Members(before, dec);
    var node := Written(OrElse(Lookup(nodes, s), NewNode(s)), p, dec);
    WrittenNumber(nodes, p, dec);
    assert Fold(history, dec) == Upsert(nodes, node);
    DescribedNumber(before, dec);
    MembersStep(history, dec);
    var i := IndexOf(nodes, s);
    if i < |nodes| {
      assert members[i] == s;
      assert node == Described(history, dec, s);
    } else {
      forall k | 0 <= k < |members| ensures members[k] != s {
        assert nodes[k].num == members[k];
      }
      if |nodes| < CAPACITY {
        NewSenderDescribed(before, dec, s);
        assert node == Described(history, dec, s);
      }
    }
  }

  /** Who the first fifty senders are after one more accepted packet. */
  lemma MembersStep(history: seq<DecodedPacket>, dec: Decoders)
    requires history != [] && Accepted(Last(history), dec)
    ensures var s, members := Last(history).header.source, Members(Init(history), dec);
            && (s !in members && |members| < CAPACITY ==> s !in Senders(Init(history), dec))
            && Members(history, dec) == if s in members || |members| == CAPACITY then members else members + [s]
  {
    hide Accepted;
    var s, senders := Last(history).header.source, Senders(Init(history), dec);
    if |senders| < CAPACITY {
      assert senders[..|senders|] == senders;
      if s !in senders {
        assert (senders + [s])[..|senders| + 1] == senders + [s];
      }
    } else {
      assert (senders + [s])[..CAPACITY] == senders[..CAPACITY];
    }
  }

  lemma DescribedNumber(history: seq<DecodedPacket>, dec: Decoders)
    ensures forall sender: u32 :: Described(history, dec, sender).num == sender
  {
  }

  /** The sender of an accepted packet is described as before, with the packet written in. */
  lemma StepDescribed(history: seq<DecodedPacket>, dec: Decoders)
    requires history != [] && Accepted(Last(history), dec)
    ensures Described(history, dec, Last(history).header.source)
            == Written(Described(Init(history), dec, Last(history).header.source), Last(history), dec)
  {
  }

  lemma OthersUnchanged(history: seq<DecodedPacket>, dec: Decoders, other: u32)
    requires history != [] && Last(history).header.source != other
    ensures Described(history, dec, other) == Described(Init(history), dec, other)
  {
  }

  lemma UndecodableUnchanged(history: seq<DecodedPacket>, dec: Decoders, other: u32)
    requires history != [] && !Accepted(Last(history), dec)
    ensures Described(history, dec, other) == Described(Init(history), dec, other)
  {
  }

  /** Of who never sent an accepted packet nothing is known. */
  lemma NewSenderDescribed(history: seq<DecodedPacket>, dec: Decoders, sender: u32)
    requires sender !in Senders(history, dec)
    ensures Described(history, dec, sender) == NewNode(sender)
  {
    NeverReported(history, dec, sender);
  }

  lemma {:induction false} NeverReported(history: seq<DecodedPacket>, dec: Decoders, sender: u32)
    requires sender !in Senders(history, dec)
    ensures LastOf(WithUser, history, dec, sender) == None
    ensures LastOf(WithPosition, history, dec, sender) == None
    ensures LastOf(WithMetrics, history, dec, sender) == None
    ensures LastOf(AnyAccepted, history, dec, sender) == None
  {
    if history != [] {
      NeverReported(Init(history), dec, sender);
    }
  }

  lemma {:induction false} SendersDistinct(history: seq<DecodedPacket>, dec: Decoders)
    ensures forall i, j :: 0 <= i < j < |Senders(history, dec)| ==>
                             Senders(history, dec)[i] != Senders(history, dec)[j]
  {
    hide Accepted;
    if history != [] {
      SendersDistinct(Init(history), dec);
    }
  }

  // Consequences for whole runs.

  /** The database after a history is well formed: at most fifty nodes, numbers distinct. */
  lemma {:induction false} FoldWellFormed(history: seq<DecodedPacket>, dec: Decoders)
    ensures WellFormed(Fold(history, dec))
  {
    hide Accepted, Written;
    if history != [] {
      var before, p := Fold(Init(history), dec), Last(history);
      FoldWellFormed(Init(history), dec);
      var known := OrElse(Lookup(before, p.header.source), NewNode(p.header.source));
      UpsertKeepsOthers(before, Written(known, p, dec));
    }
  }

  /** Whatever comes later, no node is evicted or moved, and a full database keeps its members for good. */
  lemma {:induction false} NodesStayInPlace(history: seq<DecodedPacket>, later: seq<DecodedPacket>, dec: Decoders)
    ensures |Fold(history, dec)| <= |Fold(history + later, dec)|
    ensures forall i :: 0 <= i < |Fold(history, dec)| ==>
                          Fold(history + later, dec)[i].num == Fold(history, dec)[i].num
    ensures |Fold(history, dec)| == CAPACITY ==> |Fold(history + later, dec)| == CAPACITY
    decreases |later|
  {
    hide Accepted;
    if later == [] {
      assert history + later == history;
    } else {
      var all := history + later;
      assert Init(all) == history + Init(later) && Last(all) == Last(later);
      NodesStayInPlace(history, Init(later), dec);
      FoldWellFormed(Init(all), dec);
      FoldWellFormed(all, dec);
      var before, p := Fold(Init(all), dec), Last(all);
      var known := OrElse(Lookup(before, p.header.source), NewNode(p.header.source));
      UpsertKeepsOthers(before, Written(known, p, dec));
      WrittenNumber(before, p, dec);
    }
  }

  lemma WrittenNumber(nodes: seq<NodeInfo>, p: DecodedPacket, dec: Decoders)
    ensures Written(OrElse(Lookup(nodes, p.header.source), NewNode(p.header.source)), p, dec).num
            == p.header.source
  {
  }

  /** A full database ignores whoever is not in it, even if the packet is accepted. */
  lemma FullDatabaseRefuses(history: seq<DecodedPacket>, p: DecodedPacket, dec: Decoders)
    requires |Fold(history, dec)| == CAPACITY && p.header.source !in Members(history, dec)
    ensures Fold(history + [p], dec) == Fold(history, dec)
    ensures Lookup(Fold(history + [p], dec), p.header.source) == None
  {
    assert Init(history + [p]) == history;
    FoldIsDescribed(history, dec);
    DescribedNumber(history, dec);
    var nodes := Fold(history, dec);
    WrittenNumber(nodes, p, dec);
    hide Described, Members, Written;
    assert IndexOf(nodes, p.header.source) == |nodes|;
  }

  /** A packet that every database accepts, whatever the decoders. */
  function Hello(sender: u32): DecodedPacket {
    DecodedPacket(Header(0xFFFF_FFFF, sender, 0, HeaderFlags(0, false, false, 0), 0, 0, 0), 0, 0,
                  OwnedData(Known(TextMessageApp), Zeros(MAX_PAYLOAD), 0, false, 0, 0, 0, 0, 0))
  }

  /** One such packet from each of the senders 0 to n - 1. */
  function Crowd(n: nat): seq<DecodedPacket>
    requires n <= 0x1_0000_0000
  {
    if n == 0 then [] else Crowd(n - 1) + [Hello(n - 1)]
  }

  lemma {:induction false} CrowdSenders(n: nat, dec: Decoders)
    requires n <= 0x1_0000_0000
    ensures |Senders(Crowd(n), dec)| == n
    ensures forall i :: 0 <= i < n ==> Senders(Crowd(n), dec)[i] == i
  {
    if n != 0 {
      CrowdSenders(n - 1, dec);
      assert Init(Crowd(n)) == Crowd(n - 1) && Last(Crowd(n)) == Hello(n - 1);
    }
  }

  /** It does happen: after fifty senders the packet of a fifty-first is accepted and changes nothing. */
  lemma CrowdFillsDatabase(dec: Decoders)
    ensures |Fold(Crowd(CAPACITY), dec)| == CAPACITY
    ensures Accepted(Hello(CAPACITY), dec)
    ensures Fold(Crowd(CAPACITY) + [Hello(CAPACITY)], dec) == Fold(Crowd(CAPACITY), dec)
    ensures Lookup(Fold(Crowd(CAPACITY) + [Hello(CAPACITY)], dec), CAPACITY) == None
  {
    hide Fold, Crowd, Senders;
    CrowdSenders(CAPACITY, dec);
    FoldIsDescribed(Crowd(CAPACITY), dec);
    FullDatabaseRefuses(Crowd(CAPACITY), Hello(CAPACITY), dec);
  }

  /** Two histories that agree on every member's packets agree on the whole database: the interleaving
      of different senders matters only for who is let in, in which order. */
  lemma SameMembersSameNodes(a: seq<DecodedPacket>, b: seq<DecodedPacket>, dec: Decoders)
    requires Members(a, dec) == Members(b, dec)
    requires forall s :: s in Members(a, dec) ==> FromSender(a, s) == FromSender(b, s)
    ensures Fold(a, dec) == Fold(b, dec)
  {
    FoldIsDescribed(a, dec);
    FoldIsDescribed(b, dec);
    forall i | 0 <= i < |Members(a, dec)|
      ensures Described(a, dec, Members(a, dec)[i]) == Described(b, dec, Members(b, dec)[i])
    {
      var s := Members(a, dec)[i];
      OnlyOwnPackets(a, dec, s);
      OnlyOwnPackets(b, dec, s);
    }
  }

  function FromSender(history: seq<DecodedPacket>, sender: u32): seq<DecodedPacket> {
    if history == [] then []
    else
      var before := FromSender(Init(history), sender);
      if Last(history).header.source == sender then before + [Last(history)] else before
  }

  lemma {:induction false} OnlyOwnPackets(history: seq<DecodedPacket>, dec: Decoders, sender: u32)
    ensures Described(history, dec, sender) == Described(FromSender(history, sender), dec, sender)
  {
    OwnReports(WithUser, history, dec, sender);
    OwnReports(WithPosition, history, dec, sender);
    OwnReports(WithMetrics, history, dec, sender);
    OwnReports(AnyAccepted, history, dec, sender);
  }

  lemma {:induction false} OwnReports(kind: Kind, history: seq<DecodedPacket>, dec: Decoders, sender: u32)
    ensures LastOf(kind, history, dec, sender) == LastOf(kind, FromSender(history, sender), dec, sender)
  {
    if history != [] {
      var before := FromSender(Init(history), sender);
      OwnReports(kind, Init(history), dec, sender);
      if Last(history).header.source == sender {
        assert Init(before + [Last(history)]) == before;
      }
    }
  }
}
