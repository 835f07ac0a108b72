/**
 The node database: meshtassy-net/src/node_database.rs. Fifty optional slots, linear search, no
 eviction. The class is specified by the ordered list of its nodes.
 */
module NodeDatabases {
  import opened Bytes
  import opened Options
  import opened Protobuf
  import opened Packets
  import opened Names
  import opened Nodes

  const CAPACITY: nat := 50

  // The database as a list of nodes.

  /** The place of a node number in the list, or its length if it has none. */
  function IndexOf(nodes: seq<NodeInfo>, num: u32): (i: nat)
    ensures i <= |nodes|
    ensures i < |nodes| ==> nodes[i].num == num
    ensures forall k :: 0 <= k < i ==> nodes[k].num != num
  {
    if nodes == [] then 0
    else
      var i := IndexOf(nodes[..|nodes| - 1], num);
      if i < |nodes| - 1 then i else if nodes[|nodes| - 1].num == num then |nodes| - 1 else |nodes|
  }

  function Lookup(nodes: seq<NodeInfo>, num: u32): Option<NodeInfo> {
    var i := IndexOf(nodes, num);
    if i < |nodes| then Some(nodes[i]) else None
  }

  /** Replace the node of that number, or append it while there is room, or do nothing. */
  function Upsert(nodes: seq<NodeInfo>, node: NodeInfo): seq<NodeInfo> {
    var i := IndexOf(nodes, node.num);
    if i < |nodes| then nodes[i := node]
    else if |nodes| < CAPACITY then nodes + [node]
    else nodes
  }

  ghost predicate Distinct(nodes: seq<NodeInfo>) {
    forall i, j :: 0 <= i < j < |nodes| ==> nodes[i].num != nodes[j].num
  }

  ghost predicate WellFormed(nodes: seq<NodeInfo>) {
    |nodes| <= CAPACITY && Distinct(nodes)
  }

  /** A packet of the three kinds the database decodes is refused if its payload does not decode. */
  predicate Accepted(p: DecodedPacket, dec: Decoders) {
    match p.PortNumber()
    case Known(NodeinfoApp) => dec.user(p.PayloadData()).Some?
    case Known(PositionApp) => dec.position(p.PayloadData()).Some?
    case Known(TelemetryApp) => dec.telemetry(p.PayloadData()).Some?
    case _ => true
  }

  /** A node with what a packet says of it written in, and the packet's signal-to-noise ratio. */
  function Written(node: NodeInfo, p: DecodedPacket, dec: Decoders): NodeInfo {
    var heard := node.(snr := p.snr as real);
    match p.PortNumber()
    case Known(NodeinfoApp) =>
      (match dec.user(p.PayloadData())
       case Some(u) => heard.(user := Some(StoredUser(u)))
       case None => heard)
    case Known(PositionApp) =>
      (match dec.position(p.PayloadData())
       case Some(pos) => heard.(position := Some(StoredPosition(pos)))
       case None => heard)
    case Known(TelemetryApp) =>
      (match dec.telemetry(p.PayloadData())
       case Some(t) => (match StoredMetrics(t) case Some(m) => heard.(deviceMetrics := Some(m)) case None => heard)
       case None => heard)
    case _ => heard
  }

  /** One packet: read the sender's node or start a new one, write into it, put it back. */
  function Record(nodes: seq<NodeInfo>, p: DecodedPacket, dec: Decoders): seq<NodeInfo> {
    if !Accepted(p, dec) then nodes
    else
      var known := OrElse(Lookup(nodes, p.header.source), NewNode(p.header.source));
      Upsert(nodes, Written(known, p, dec))
  }

  // As a bounded map.

  ghost function Numbers(nodes: seq<NodeInfo>): set<u32> {
    set i | 0 <= i < |nodes| :: nodes[i].num
  }

  ghost function AsMap(nodes: seq<NodeInfo>): map<u32, NodeInfo> {
    map num | num in Numbers(nodes) :: nodes[IndexOf(nodes, num)]
  }

  lemma LookupIsMap(nodes: seq<NodeInfo>, num: u32)
    ensures Lookup(nodes, num) == if num in AsMap(nodes) then Some(AsMap(nodes)[num]) else None
  {
    var i := IndexOf(nodes, num);
    if i < |nodes| {
      assert nodes[i].num in Numbers(nodes);
    }
  }

  /** Upserting keeps every node in its place and changes at most the one of that number. */
  lemma UpsertKeepsOthers(nodes: seq<NodeInfo>, node: NodeInfo)
    requires WellFormed(nodes)
    ensures WellFormed(Upsert(nodes, node))
    ensures |nodes| <= |Upsert(nodes, node)|
    ensures forall i :: 0 <= i < |nodes| ==>
                          Upsert(nodes, node)[i] == if nodes[i].num == node.num then node else nodes[i]
  {
  }

  lemma LookupUpsert(nodes: seq<NodeInfo>, node: NodeInfo, num: u32)
    ensures Lookup(Upsert(nodes, node), num)
            == if num == node.num && (Lookup(nodes, num).Some? || |nodes| < CAPACITY) then Some(node)
               else Lookup(nodes, num)
  {
    var after := Upsert(nodes, node);
    var i, j := IndexOf(nodes, num), IndexOf(after, num);
    if i < |nodes| {
      assert after[i].num == num;
      assert nodes[j].num == after[j].num;
    } else if |after| > |nodes| {
      assert after[|nodes|] == node;
    }
  }

  /** Upserting is a map update that a full map refuses for new keys. */
  lemma UpsertIsBoundedUpdate(nodes: seq<NodeInfo>, node: NodeInfo)
    ensures AsMap(Upsert(nodes, node))
            == if node.num in AsMap(nodes) || |nodes| < CAPACITY then AsMap(nodes)[node.num := node] else AsMap(nodes)
  {
    hide Upsert, Lookup, AsMap;
    var before, after := AsMap(nodes), AsMap(Upsert(nodes, node));
    forall num: u32
      ensures num in after <==> num in before || (num == node.num && |nodes| < CAPACITY)
      ensures num in after ==>
                after[num] == if num == node.num && (num in before || |nodes| < CAPACITY) then node else before[num]
    {
      LookupUpsert(nodes, node, num);
      LookupIsMap(nodes, num);
      LookupIsMap(Upsert(nodes, node), num);
    }
  }

  /** An accepted packet's sender is in the database afterwards exactly if it was before or there was room. */
  lemma AcceptedIsStoredIff(nodes: seq<NodeInfo>, p: DecodedPacket, dec: Decoders)
    requires Accepted(p, dec)
    ensures Lookup(Record(nodes, p, dec), p.header.source).Some?
            <==> Lookup(nodes, p.header.source).Some? || |nodes| < CAPACITY
  {
    var known := OrElse(Lookup(nodes, p.header.source), NewNode(p.header.source));
    LookupUpsert(nodes, Written(known, p, dec), p.header.source);
  }

  // What a packet does to the node of its sender, from the port, the payload and the decoders alone.

  /** A packet is refused exactly if it is of one of three kinds and its decoder gives nothing. */
  lemma AcceptedIff(p: DecodedPacket, dec: Decoders)
    ensures var port, bytes := p.PortNumber(), p.PayloadData();
            !Accepted(p, dec)
            <==> (port == Known(NodeinfoApp) && dec.user(bytes) == None)
                 || (port == Known(PositionApp) && dec.position(bytes) == None)
                 || (port == Known(TelemetryApp) && dec.telemetry(bytes) == None)
  {
  }

  /** A refused packet changes nothing. Any other, from a known sender or while one of the fifty slots is
      free, sets one field of the sender's node and the signal, or the signal alone: a node-info packet
      the user, with both names stored, a position packet the position, telemetry the device metrics if
      it is of that variant. Nobody else's node changes. */
  lemma PacketIsWrittenIn(nodes: seq<NodeInfo>, p: DecodedPacket, dec: Decoders)
    ensures !Accepted(p, dec) ==> Record(nodes, p, dec) == nodes
    ensures forall other: u32 :: other != p.header.source ==>
                                   Lookup(Record(nodes, p, dec), other) == Lookup(nodes, other)
    ensures var was, now := Lookup(nodes, p.header.source), Lookup(Record(nodes, p, dec), p.header.source);
            var before := if was.Some? then was.value else NodeInfo(p.header.source, None, None, 0.0, 0, None);
            var port, bytes, snr := p.PortNumber(), p.PayloadData(), p.snr as real;
            was.Some? || |nodes| < 50 ==>
              && (port == Known(NodeinfoApp) ==>
                    match dec.user(bytes)
                    case None => now == was
                    case Some(u) =>
                      && now.Some? && now.value.user.Some?
                      && var w := now.value.user.value;
                         && w.longName == Stored(u.longName, 40) && w.shortName == Stored(u.shortName, 4)
                         && w.hwModel == u.hwModel && w.role == u.role && w.isLicensed == u.isLicensed
                         && now.value == before.(user := Some(w), snr := snr))
              && (port == Known(PositionApp) ==>
                    match dec.position(bytes)
                    case None => now == was
                    case Some(pos) => now == Some(before.(position := Some(StoredPosition(pos)), snr := snr)))
              && (port == Known(TelemetryApp) ==>
                    match dec.telemetry(bytes)
                    case None => now == was
                    case Some(PbTelemetry(Some(DeviceMetricsVariant(dm)))) =>
                      && now.Some? && now.value.deviceMetrics.Some?
                      && StoredMetrics(PbTelemetry(Some(DeviceMetricsVariant(dm)))) == now.value.deviceMetrics
                      && now.value == before.(deviceMetrics := now.value.deviceMetrics, snr := snr)
                    case Some(_) => now == Some(before.(snr := snr)))
              && (port !in {Known(NodeinfoApp), Known(PositionApp), Known(TelemetryApp)} ==>
                    now == Some(before.(snr := snr)))
  {
    hide Lookup, Upsert, Stored, StoredPosition;
    var known := OrElse(Lookup(nodes, p.header.source), NewNode(p.header.source));
    LookedUpNumber(nodes, p.header.source);
    forall num: u32
      ensures Accepted(p, dec) ==>
                Lookup(Record(nodes, p, dec), num)
                == if num == p.header.source && (Lookup(nodes, num).Some? || |nodes| < CAPACITY)
                   then Some(Written(known, p, dec)) else Lookup(nodes, num)
    {
      LookupUpsert(nodes, Written(known, p, dec), num);
    }
  }

  lemma LookedUpNumber(nodes: seq<NodeInfo>, num: u32)
    ensures Lookup(nodes, num).Some? ==> Lookup(nodes, num).value.num == num
  {
  }

  /** The occupied slots of the array, in slot order: what `get_nodes` iterates over. */
  function Occupied(slots: seq<Option<NodeInfo>>): seq<NodeInfo> {
    if slots == [] then []
    else
      var init, last := Occupied(slots[..|slots| - 1]), slots[|slots| - 1];
      match last
      case Some(node) => init + [node]
      case None => init
  }

  lemma {:induction false} OccupiedPrefix(slots: seq<Option<NodeInfo>>, count: nat)
    requires count <= |slots|
    requires forall i :: 0 <= i < |slots| ==> (slots[i].Some? <==> i < count)
    ensures |Occupied(slots)| == count
    ensures forall i :: 0 <= i < count ==> Occupied(slots)[i] == slots[i].value
  {
    if slots != [] {
      var n := |slots| - 1;
      OccupiedPrefix(slots[..n], if count <= n then count else n);
    }
  }

  class NodeDatabase {
    var nodes: array<Option<NodeInfo>>
    var nodeCount: nat

    /** The occupied slots are a prefix, counted by `nodeCount`, and node numbers do not repeat. */
    ghost predicate Valid()
      reads this, nodes
    {
      && nodes.Length == CAPACITY
      && nodeCount <= CAPACITY
      && (forall i :: 0 <= i < CAPACITY ==> (nodes[i].Some? <==> i < nodeCount))
      && (forall i, j :: 0 <= i < j < nodeCount ==> nodes[i].value.num != nodes[j].value.num)
    }

    ghost function Contents(): (list: seq<NodeInfo>)
      requires Valid()
      reads this, nodes
      ensures |list| == nodeCount
      ensures forall i :: 0 <= i < nodeCount ==> list[i] == nodes[i].value
      ensures WellFormed(list)
    {
      seq(nodeCount, i requires 0 <= i < nodeCount reads this, nodes requires Valid() => nodes[i].value)
    }

    constructor ()
      ensures Valid() && fresh(nodes)
      ensures Contents() == []
    {
      nodes := new Option<NodeInfo>[CAPACITY](_ => None);
      nodeCount := 0;
    }

    method AddOrUpdateNode(nodeInfo: NodeInfo)
      requires Valid()
      modifies this, nodes
      ensures Valid() && nodes == old(nodes)
      ensures Contents() == Upsert(old(Contents()), nodeInfo)
    {
      ghost var before := Contents();
      for i := 0 to nodes.Length
        invariant Contents() == before
        invariant forall k :: 0 <= k < i && k < nodeCount ==> before[k].num != nodeInfo.num
      {
        match nodes[i]
        case Some(existing) =>
          if existing.num == nodeInfo.num {
            nodes[i] := Some(nodeInfo);
            assert Contents() == before[i := nodeInfo];
            return;
          }
        case None =>
      }
      for i := 0 to nodes.Length
        invariant Contents() == before
        invariant i <= nodeCount
      {
        if nodes[i].None? {
          nodes[i] := Some(nodeInfo);
          nodeCount := nodeCount + 1;
          assert Contents() == before + [nodeInfo];
          return;
        }
      }
    }

    /** The place of a node, found by the loop all lookups share. */
    method Find(num: u32) returns (index: nat)
      requires Valid()
      ensures index == IndexOf(Contents(), num)
    {
      for i := 0 to nodes.Length
        invariant forall k :: 0 <= k < i && k < nodeCount ==> Contents()[k].num != num
      {
        match nodes[i]
        case Some(existing) =>
          if existing.num == num {
            return i;
          }
        case None =>
      }
      return nodeCount;
    }

    method UpdateNodeTelemetry(num: u32, deviceMetrics: DeviceMetrics)
      requires Valid()
      modifies nodes
      ensures Valid()
      ensures var i := IndexOf(old(Contents()), num);
              Contents() == if i < old(nodeCount)
                            then old(Contents())[i := old(Contents())[i].(deviceMetrics := Some(deviceMetrics))]
                            else old(Contents())
    {
      ghost var before := Contents();
      var i := Find(num);
      if i < nodeCount {
        nodes[i] := Some(nodes[i].value.(deviceMetrics := Some(deviceMetrics)));
        assert Contents() == before[i := before[i].(deviceMetrics := Some(deviceMetrics))];
      }
    }

    method UpdateNodeSignal(num: u32, snr: real, lastHeard: u32)
      requires Valid()
      modifies nodes
      ensures Valid()
      ensures var i := IndexOf(old(Contents()), num);
              Contents() == if i < old(nodeCount)
                            then old(Contents())[i := old(Contents())[i].(snr := snr, lastHeard := lastHeard)]
                            else old(Contents())
    {
      ghost var before := Contents();
      var i := Find(num);
      if i < nodeCount {
        nodes[i] := Some(nodes[i].value.(snr := snr, lastHeard := lastHeard));
        assert Contents() == before[i := before[i].(snr := snr, lastHeard := lastHeard)];
      }
    }

    method GetNode(num: u32) returns (node: Option<NodeInfo>)
      requires Valid()
      ensures node == Lookup(Contents(), num)
      ensures node == if num in AsMap(Contents()) then Some(AsMap(Contents())[num]) else None
    {
      var i := Find(num);
      LookupIsMap(Contents(), num);
      if i < nodeCount {
        return nodes[i];
      }
      return None;
    }

    method GetNodeUser(num: u32) returns (user: Option<User>)
      requires Valid()
      ensures user == match Lookup(Contents(), num) case Some(node) => node.user case None => None
    {
      var node := GetNode(num);
      user := if node.Some? then node.value.user else None;
    }

    method GetNodeShortName(num: u32) returns (name: string)
      requires Valid()
      ensures name != ""
      ensures match Lookup(Contents(), num)
              case Some(NodeInfo(_, Some(u), _, _, _, _)) => name == if u.shortName != "" then u.shortName else "UNK"
              case _ => name == "UNK"
    {
      var user := GetNodeUser(num);
      if user.Some? && user.value.shortName != "" {
        return user.value.shortName;
      }
      return "UNK";
    }

    method GetNodes() returns (list: seq<NodeInfo>)
      requires Valid()
      ensures list == Contents()
    {
      list := Occupied(nodes[..]);
      OccupiedPrefix(nodes[..], nodeCount);
    }

    method AddOrUpdateNodeFromPacket(packet: DecodedPacket, dec: Decoders) returns (ok: bool)
      requires Valid()
      modifies this, nodes
      ensures Valid() && nodes == old(nodes)
      ensures ok == Accepted(packet, dec)
      ensures Contents() == Record(old(Contents()), packet, dec)
    {
      hide Upsert, Lookup, StoredUser, StoredPosition, StoredMetrics, AsMap;
      var num := packet.header.source;
      var found := GetNode(num);
      var node := OrElse(found, NewNode(num));
      node := node.(snr := packet.snr as real);
      match packet.PortNumber()
      case Known(NodeinfoApp) =>
        match dec.user(packet.PayloadData()) {
          case Some(info) =>
            var user := UserFromProtobuf(info);
            AddOrUpdateNode(node.(user := Some(user)));
            return true;
          case None =>
            return false;
        }
      case Known(PositionApp) =>
        match dec.position(packet.PayloadData()) {
          case Some(position) =>
            AddOrUpdateNode(node.(position := Some(StoredPosition(position))));
            return true;
          case None =>
            return false;
        }
      case Known(TelemetryApp) =>
        match dec.telemetry(packet.PayloadData()) {
          case Some(telemetry) =>
            match StoredMetrics(telemetry) {
              case Some(metrics) =>
                AddOrUpdateNode(node.(deviceMetrics := Some(metrics)));
              case None =>
                AddOrUpdateNode(node);
            }
            return true;
          case None =>
            return false;
        }
      case _ =>
        AddOrUpdateNode(node);
        return true;
    }
  }
}
