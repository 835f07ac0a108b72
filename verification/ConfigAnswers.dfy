/**
 The straight-line code that answers a config request in `packet_forwarder` of nrf/src/main.rs, down
 to the bytes on the USB port, and what the host's framer reads from them.
 */
module ConfigAnswers {
  import opened Bytes
  import opened Options
  import opened FrameStreams
  import opened UsbSender
  import opened Nodes
  import opened NodeDatabases
  import opened PacketIds
  import opened Tasks

  /** A burst as it is encoded when `drawn` ids were drawn before it. */
  function Messages(items: seq<Item>, drawn: nat, encode: Encoder): (messages: seq<seq<byte>>)
    ensures |messages| == |items|
    ensures forall i :: 0 <= i < |items| ==> messages[i] == encode(NthId(drawn + i), items[i])
  {
    seq(|items|, i requires 0 <= i < |items| => encode(NthId(drawn + i), items[i]))
  }

  predicate Fit(messages: seq<seq<byte>>) {
    forall i :: 0 <= i < |messages| ==> |messages[i]| <= ENCODE_BUFFER
  }

  lemma {:induction false} SessionWritesSnoc(messages: seq<seq<byte>>, m: seq<byte>)
    requires Fit(messages) && |m| <= ENCODE_BUFFER
    ensures SessionWrites(messages + [m]) == SessionWrites(messages) + FrameWrites(m)
  {
    hide FrameWrites;
    if messages == [] {
      assert [m][1..] == [];
      assert messages + [m] == [m];
    } else {
      SessionWritesSnoc(messages[1..], m);
      assert (messages + [m])[1..] == messages[1..] + [m];
      assert Fit(messages + [m]);
    }
  }

  /** The first `count` messages of the burst have been written out, each under the next id. */
  ghost predicate Written(items: seq<Item>, count: nat, drawn0: nat, drawn: nat,
                          writes0: seq<seq<byte>>, writes: seq<seq<byte>>, encode: Encoder)
  {
    && count <= |items|
    && drawn == drawn0 + count
    && Fit(Messages(items[..count], drawn0, encode))
    && writes == writes0 + SessionWrites(Messages(items[..count], drawn0, encode))
  }

  /** The send after those failed: its id is used up, and at most a beginning of it got out. */
  ghost predicate BrokenOff(items: seq<Item>, count: nat, drawn0: nat, drawn: nat,
                            writes0: seq<seq<byte>>, writes: seq<seq<byte>>, encode: Encoder)
  {
    && count < |items|
    && drawn == drawn0 + count + 1
    && Fit(Messages(items[..count], drawn0, encode))
    && var before := writes0 + SessionWrites(Messages(items[..count], drawn0, encode));
       var m := encode(NthId(drawn0 + count), items[count]);
       && before <= writes
       && (|m| > ENCODE_BUFFER ==> writes == before)
       && (|m| <= ENCODE_BUFFER ==> writes < before + FrameWrites(m))
  }

  lemma WrittenOneMore(items: seq<Item>, count: nat, drawn0: nat, drawn: nat,
                       writes0: seq<seq<byte>>, writes: seq<seq<byte>>, encode: Encoder)
    requires Written(items, count, drawn0, drawn, writes0, writes, encode) && count < |items|
    ensures var m := encode(NthId(drawn), items[count]);
            |m| <= ENCODE_BUFFER ==>
              Written(items, count + 1, drawn0, drawn + 1, writes0, writes + FrameWrites(m), encode)
  {
    hide FrameWrites, SessionWrites;
    var m := encode(NthId(drawn), items[count]);
    if |m| <= ENCODE_BUFFER {
      var messages := Messages(items[..count], drawn0, encode);
      assert Messages(items[..count + 1], drawn0, encode) == messages + [m];
      SessionWritesSnoc(messages, m);
    }
  }

  /** Draws an id and sends one item of the burst under it. */
  method SendItem(port: UsbPort, ids: PacketIdCounter, item: Item, encode: Encoder,
                  ghost items: seq<Item>, ghost count: nat, ghost drawn0: nat, ghost writes0: seq<seq<byte>>)
    returns (ok: bool)
    requires ids.Valid()
    requires Written(items, count, drawn0, ids.drawn, writes0, port.writes, encode)
    requires count < |items| && item == items[count]
    modifies port, ids
    ensures ids.Valid()
    ensures ok ==> Written(items, count + 1, drawn0, ids.drawn, writes0, port.writes, encode)
    ensures !ok ==> BrokenOff(items, count, drawn0, ids.drawn, writes0, port.writes, encode)
  {
    WrittenOneMore(items, count, drawn0, ids.drawn, writes0, port.writes, encode);
    hide FrameWrites, SessionWrites;
    var id := ids.GetNextPacketId();
    ok := SendPacketToUsb(port, (id, item), (m: (u32, Item)) => encode(m.0, m.1));
    ghost var m := encode(id, item);
    if ok {
      assert FrameWrites(m)[..|FrameWrites(m)|] == FrameWrites(m);
    }
  }

  ghost function ListedOf(database: NodeDatabase?): Option<seq<NodeInfo>>
    requires database != null ==> database.Valid()
    reads database, if database != null then {database.nodes} else {}
  {
    if database == null then None else Some(database.Contents())
  }

  lemma {:induction false} NodeItemsPrefix(nodes: seq<NodeInfo>, k: nat)
    requires k <= |nodes|
    ensures NodeItems(nodes[..k]) <= NodeItems(nodes)
    decreases |nodes|
  {
    if k < |nodes| {
      var n := |nodes| - 1;
      assert nodes[..n][..k] == nodes[..k];
      NodeItemsPrefix(nodes[..n], k);
    } else {
      assert nodes[..k] == nodes;
    }
  }

  /** Writes the whole canonical burst for the request, or stops at the first send that fails. The
      database is the one `try_lock` yields, or null if it is taken or not yet there. */
  method AnswerConfigRequest(port: UsbPort, ids: PacketIdCounter, database: NodeDatabase?, configId: u32,
                             encode: Encoder)
    returns (ok: bool, ghost sent: nat)
    requires ids.Valid()
    requires database != null ==> database.Valid()
    modifies port, ids
    ensures ids.Valid()
    ensures var burst := Canonical(configId, old(ListedOf(database)));
            && (ok <==> sent == |burst|)
            && (ok ==> Written(burst, sent, old(ids.drawn), ids.drawn, old(port.writes), port.writes, encode))
            && (!ok ==> BrokenOff(burst, sent, old(ids.drawn), ids.drawn, old(port.writes), port.writes, encode))
  {
    ghost var drawn0, writes0 := ids.drawn, port.writes;
    ghost var listed := ListedOf(database);
    ghost var burst := Canonical(configId, listed);
    BurstParts(configId, listed);
    NothingWritten(burst, drawn0, writes0, encode);
    hide Canonical, Written, BrokenOff, ListedItems;
    sent := 0;
    ok := SendItem(port, ids, MyInfo, encode, burst, sent, drawn0, writes0);
    if !ok { return; }
    sent := 1;
    ok := SendItem(port, ids, OwnNode, encode, burst, sent, drawn0, writes0);
    if !ok { return; }
    sent := 2;
    if database != null {
      ok, sent := SendListing(port, ids, database, encode, burst, drawn0, writes0);
      if !ok { return; }
    }
    ok, sent := SendFarewell(port, ids, configId, encode, burst, sent, drawn0, writes0);
  }

  /** The loop over the nodes of the database, all but the device's own. */
  method SendListing(port: UsbPort, ids: PacketIdCounter, database: NodeDatabase, encode: Encoder,
                     ghost burst: seq<Item>, ghost drawn0: nat, ghost writes0: seq<seq<byte>>)
    returns (ok: bool, ghost sent: nat)
    requires ids.Valid() && database.Valid()
    requires var middle := NodeItems(database.Contents());
             2 + |middle| < |burst| && forall i :: 0 <= i < |middle| ==> burst[2 + i] == middle[i]
    requires Written(burst, 2, drawn0, ids.drawn, writes0, port.writes, encode)
    modifies port, ids
    ensures ids.Valid()
    ensures ok ==> sent == 2 + |NodeItems(old(database.Contents()))|
    ensures ok ==> Written(burst, sent, drawn0, ids.drawn, writes0, port.writes, encode)
    ensures !ok ==> sent < |burst| && BrokenOff(burst, sent, drawn0, ids.drawn, writes0, port.writes, encode)
  {
    hide Written, BrokenOff, NodeItems;
    var nodes := database.GetNodes();
    ghost var middle := NodeItems(nodes);
    assert nodes[..0] == [];
    NoNodeItems();
    sent := 2;
    ok := true;
    for j := 0 to |nodes|
      invariant ids.Valid()
      invariant sent == 2 + |NodeItems(nodes[..j])|
      invariant Written(burst, sent, drawn0, ids.drawn, writes0, port.writes, encode)
    {
      NextNodeItem(nodes, j);
      if nodes[j].num != OWN_NUMBER {
        assert burst[2 + (sent - 2)] == middle[sent - 2];
        ok := SendItem(port, ids, DbNode(nodes[j]), encode, burst, sent, drawn0, writes0);
        if !ok { return; }
        sent := sent + 1;
      }
    }
    assert nodes[..|nodes|] == nodes;
    ok := true;
  }

  lemma NoNodeItems()
    ensures NodeItems([]) == []
  {
  }

  lemma NextNodeItem(nodes: seq<NodeInfo>, j: nat)
    requires j < |nodes|
    ensures nodes[j].num == OWN_NUMBER ==> NodeItems(nodes[..j + 1]) == NodeItems(nodes[..j])
    ensures nodes[j].num != OWN_NUMBER ==>
              && NodeItems(nodes[..j + 1]) == NodeItems(nodes[..j]) + [DbNode(nodes[j])]
              && |NodeItems(nodes[..j])| < |NodeItems(nodes)|
              && NodeItems(nodes)[|NodeItems(nodes[..j])|] == DbNode(nodes[j])
  {
    assert nodes[..j + 1][..j] == nodes[..j];
    NodeItemsPrefix(nodes, j + 1);
  }

  method SendFarewell(port: UsbPort, ids: PacketIdCounter, configId: u32, encode: Encoder,
                      ghost burst: seq<Item>, ghost before: nat, ghost drawn0: nat, ghost writes0: seq<seq<byte>>)
    returns (ok: bool, ghost sent: nat)
    requires ids.Valid()
    requires |burst| == before + 4 && burst[before..] == Farewell(configId)
    requires Written(burst, before, drawn0, ids.drawn, writes0, port.writes, encode)
    modifies port, ids
    ensures ids.Valid()
    ensures ok <==> sent == |burst|
    ensures ok ==> Written(burst, sent, drawn0, ids.drawn, writes0, port.writes, encode)
    ensures !ok ==> BrokenOff(burst, sent, drawn0, ids.drawn, writes0, port.writes, encode)
  {
    sent := before;
    assert forall i :: 0 <= i < 4 ==> burst[before + i] == burst[before..][i];
    hide Written, BrokenOff;
    ok := SendItem(port, ids, ConfigItem, encode, burst, sent, drawn0, writes0);
    if !ok { return; }
    sent := sent + 1;
    ok := SendItem(port, ids, ModuleConfigItem, encode, burst, sent, drawn0, writes0);
    if !ok { return; }
    sent := sent + 1;
    ok := SendItem(port, ids, ChannelItem, encode, burst, sent, drawn0, writes0);
    if !ok { return; }
    sent := sent + 1;
    ok := SendItem(port, ids, ConfigComplete(configId), encode, burst, sent, drawn0, writes0);
    if !ok { return; }
    sent := sent + 1;
  }

  lemma BurstParts(configId: u32, listed: Option<seq<NodeInfo>>)
    ensures var burst, middle := Canonical(configId, listed), ListedItems(listed);
            && |burst| == 2 + |middle| + 4
            && burst[0] == MyInfo && burst[1] == OwnNode
            && (forall i :: 0 <= i < |middle| ==> burst[2 + i] == middle[i])
            && burst[|burst| - 4..] == Farewell(configId)
            && burst[|burst| - 4] == ConfigItem && burst[|burst| - 3] == ModuleConfigItem
            && burst[|burst| - 2] == ChannelItem && burst[|burst| - 1] == ConfigComplete(configId)
  {
    hide ListedItems, NodeItems;
    var middle, tail := ListedItems(listed), Farewell(configId);
    var burst := GREETING + middle + tail;
    assert burst[2 + |middle|..] == tail;
    assert forall i :: 0 <= i < 4 ==> burst[2 + |middle| + i] == tail[i];
  }

  lemma NothingWritten(items: seq<Item>, drawn0: nat, writes0: seq<seq<byte>>, encode: Encoder)
    ensures Written(items, 0, drawn0, drawn0, writes0, writes0, encode)
  {
    assert Messages(items[..0], drawn0, encode) == [];
    assert writes0 + [] == writes0;
  }

  /** A host whose framer is idle when the answer begins gets the encoded burst, message by message, after
      whatever it got before. */
  lemma HostReadsAnswer(items: seq<Item>, drawn0: nat, drawn: nat,
                        writes0: seq<seq<byte>>, writes: seq<seq<byte>>, encode: Encoder)
    requires Written(items, |items|, drawn0, drawn, writes0, writes, encode)
    requires Calls([], writes0).1 == []
    ensures var messages := Messages(items, drawn0, encode);
            && Calls([], writes) == (Calls([], writes0).0 + NonEmpty(messages), [])
            && ((forall i :: 0 <= i < |messages| ==> messages[i] != []) ==> NonEmpty(messages) == messages)
  {
    hide Calls, SessionWrites, NonEmpty;
    assert items[..|items|] == items;
    var messages := Messages(items, drawn0, encode);
    SessionIsReadBack(messages);
    CallsAppend([], writes0, SessionWrites(messages));
    if forall i :: 0 <= i < |messages| ==> messages[i] != [] {
      NonEmptyKeepsAll(messages);
    }
  }

  lemma {:induction false} NonEmptyKeepsAll(messages: seq<seq<byte>>)
    requires forall i :: 0 <= i < |messages| ==> messages[i] != []
    ensures NonEmpty(messages) == messages
  {
    if messages != [] {
      NonEmptyKeepsAll(messages[1..]);
      assert messages == [messages[0]] + messages[1..];
    }
  }
}
