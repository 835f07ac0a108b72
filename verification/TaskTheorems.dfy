/** What holds after every run of the step system, in terms a maintainer would ask about. */
module TaskTheorems {
  import opened Bytes
  import opened Options
  import opened Protobuf
  import opened Packets
  import opened Nodes
  import opened NodeDatabases
  import opened NodeHistory
  import opened FrameScan
  import opened FrameStreams
  import opened FramePrinting
  import opened UsbSender
  import opened PacketIds
  import opened Tasks
  import opened ConfigAnswers
  import opened TaskInvariants
  import opened TaskAnswers
  import opened TaskForwards
  import opened TaskHost

  ghost predicate Inv(s: Sys, env: Env) {
    && ChannelInv(s)
    && DeliveryInv(s)
    && LockInv(s)
    && DatabaseInv(s, env)
    && IdInv(s)
    && ConnectionInv(s)
    && SentNodesInv(s, env)
    && AnswersInv(s)
    && ListedInv(s, env)
    && ForwardInv(s, env)
    && HostInv(s, env)
  }

  lemma InitialInv(env: Env)
    ensures Inv(Initial(), env)
  {
    FoldEmpty(env.decoders);
  }

  lemma StepKeepsInv(s: Sys, step: Step, env: Env)
    requires Inv(s, env) && Enabled(s, step, env)
    ensures Inv(Next(s, step, env), env)
  {
    hide DeliveryInv, LockInv, DatabaseInv, IdInv, ConnectionInv, SentNodesInv, AnswersInv, ListedInv;
    hide ForwardInv, HostInv, Enabled, Next;
    ChannelKept(s, step, env);
    DeliveryKept(s, step, env);
    LockKept(s, step, env);
    DatabaseKept(s, step, env);
    IdKept(s, step, env);
    ConnectionKept(s, step, env);
    SentNodesKept(s, step, env);
    AnswersKept(s, step, env);
    ListedKept(s, step, env);
    ForwardKept(s, step, env);
    HostKept(s, step, env);
  }

  /** Every run, in every interleaving. */
  lemma {:induction false} RunKeepsInv(steps: seq<Step>, env: Env)
    requires Run(steps, env).Some?
    ensures Inv(Run(steps, env).value, env)
  {
    hide Inv, Enabled, Next;
    if steps == [] {
      InitialInv(env);
    } else {
      RunKeepsInv(steps[..|steps| - 1], env);
      StepKeepsInv(Run(steps[..|steps| - 1], env).value, steps[|steps| - 1], env);
    }
  }

  // The database.

  /** After every run the database is the fold of the delivered packets, all but possibly one that the
      processor still holds; so it is what the history of deliveries alone describes. Nothing has been
      published or delivered before it exists. */
  lemma DatabaseIsFoldOfDeliveries(steps: seq<Step>, env: Env)
    requires Run(steps, env).Some?
    ensures var s := Run(steps, env).value;
            var applied := AppliedPackets(s);
            && applied <= s.delivered && |s.delivered| - |applied| <= 1
            && (s.db.None? ==> s.log == [] && s.delivered == [])
            && (s.db.Some? ==>
                  && s.db.value == Fold(applied, env.decoders)
                  && |s.db.value| == |Members(applied, env.decoders)|
                  && (forall i :: 0 <= i < |s.db.value| ==>
                          s.db.value[i] == Described(applied, env.decoders, Members(applied, env.decoders)[i])))
  {
    RunKeepsInv(steps, env);
    FoldIsDescribed(AppliedPackets(Run(steps, env).value), env.decoders);
    hide Fold, Described, Members;
  }

  // Deliveries.

  /** After every run the delivered packets are an in-order selection from the published ones; delivered
      and missed together are everything the processor has moved past; and it lags exactly when it is
      more than eight packets behind. */
  lemma DeliveriesAreAccountedFor(steps: seq<Step>, env: Env)
    requires Run(steps, env).Some?
    ensures var s := Run(steps, env).value;
            && |s.positions| == |s.delivered|
            && (forall i :: 0 <= i < |s.delivered| ==>
                              s.positions[i] < |s.log| && s.delivered[i] == s.log[s.positions[i]])
            && (forall i, j :: 0 <= i < j < |s.delivered| ==> s.positions[i] < s.positions[j])
            && (!s.processor.Starting? ==> s.joined + |s.delivered| + s.missed == s.processor.next)
            && (s.processor.Waiting? ==>
                  (s.processor.next < s.start <==> |s.log| - s.processor.next > 8))
  {
    RunKeepsInv(steps, env);
    hide Fold;
  }

  // Packet ids.

  /** After every run the n-th send used the n-th id drawn, failed sends included. */
  lemma SendsUseIdsInOrder(steps: seq<Step>, env: Env)
    requires Run(steps, env).Some?
    ensures var attempts := Run(steps, env).value.attempts;
            && (forall i :: 0 <= i < |attempts| ==> attempts[i].id as int == 1 + i % 0x7FFF_FFFF)
            && (forall i, j :: 0 <= i < j < |attempts| && j - i < 0x7FFF_FFFF ==> attempts[i].id != attempts[j].id)
  {
    RunKeepsInv(steps, env);
    var attempts := Run(steps, env).value.attempts;
    hide NthId, Run;
    forall i | 0 <= i < |attempts| ensures attempts[i].id as int == 1 + i % LAST_ID {
      NthIdClosedForm(i);
    }
    forall i, j | 0 <= i < j < |attempts| && j - i < LAST_ID ensures attempts[i].id != attempts[j].id {
      IdsDistinct(i, j);
    }
  }

  // What the host is told.

  /** Every node ever sent from the database was in it after some prefix of the deliveries. */
  lemma SentNodesWereStored(steps: seq<Step>, env: Env, i: nat)
    requires Run(steps, env).Some? && i < |Run(steps, env).value.attempts|
    requires Run(steps, env).value.attempts[i].item.DbNode?
    ensures var s := Run(steps, env).value;
            var sent := s.attempts[i];
            && sent.epoch <= |s.delivered|
            && sent.item.node in Fold(s.delivered[..sent.epoch], env.decoders)
            && sent.item.node.num in Members(s.delivered[..sent.epoch], env.decoders)
            && sent.item.node == Described(s.delivered[..sent.epoch], env.decoders, sent.item.node.num)
  {
    RunKeepsInv(steps, env);
    var s := Run(steps, env).value;
    var sent := s.attempts[i];
    assert FromEpoch(s, env, sent.item.node, sent.epoch);
    FoldIsDescribed(s.delivered[..sent.epoch], env.decoders);
    DescribedNumber(s.delivered[..sent.epoch], env.decoders);
    hide Fold, Described, Members, Run;
  }

  /** The port is one of the six sent on, or the sender of a node-info packet is in the database. */
  ghost predicate CallsForSend(p: DecodedPacket, nodes: seq<NodeInfo>) {
    || p.PortNumber() in {Known(PositionApp), Known(TelemetryApp), Known(TextMessageApp),
                          Known(RoutingApp), Known(TracerouteApp), Known(NeighborinfoApp)}
    || (p.PortNumber() == Known(NodeinfoApp) && exists i :: 0 <= i < |nodes| && nodes[i].num == p.header.source)
  }

  lemma DueIsCalledFor(p: DecodedPacket, nodes: seq<NodeInfo>)
    ensures DueItem(p, nodes).Some? <==> CallsForSend(p, nodes)
    ensures DueItem(p, nodes).Some? ==> DueItem(p, nodes).value.Mesh? || DueItem(p, nodes).value.DbNode?
  {
    LookupIsFound(nodes, p.header.source);
    hide Lookup;
  }

  lemma LookupIsFound(nodes: seq<NodeInfo>, num: u32)
    ensures Lookup(nodes, num).Some? <==> exists i :: 0 <= i < |nodes| && nodes[i].num == num
    ensures Lookup(nodes, num).Some? ==> Lookup(nodes, num).value in nodes && Lookup(nodes, num).value.num == num
  {
  }

  /** The account of the packets the forwarder receives, over any number of connections. It receives
      entries of the log in order; on a connection, received and missed together are everything it has
      moved past, and it lags exactly when it is more than eight packets behind. A packet calls for a
      send exactly if it is of one of the six forwarded kinds, or of the node-info kind from a sender the
      database knew when the packet was taken; and each that does has caused exactly one send, in order,
      but for the one in hand. */
  lemma ForwardsAreAccountedFor(steps: seq<Step>, env: Env)
    requires Run(steps, env).Some?
    ensures var s := Run(steps, env).value;
            && (forall i :: 0 <= i < |s.received| ==>
                  var r := s.received[i];
                  && r.place < |s.log| && r.epoch <= |s.delivered|
                  && var p, nodes := s.log[r.place], Fold(s.delivered[..r.epoch], env.decoders);
                     (r.due <==> CallsForSend(p, nodes)))
            && (forall i, j :: 0 <= i < j < |s.received| ==> s.received[i].place < s.received[j].place)
            && DueReads(s.received) == Causes(s.attempts) + InHand(s.forwarder)
            && (s.forwarder.Forwarding? ==>
                  && s.forwarder.place < |s.log| && s.forwarder.epoch <= |s.delivered|
                  && DueAt(s, env, s.forwarder.place, s.forwarder.epoch) == Some(s.forwarder.item))
            && (!s.forwarder.Offline? ==>
                  s.since <= |s.received|
                  && s.forwarder.conn.joined + (|s.received| - s.since) + s.lost == s.forwarder.conn.next)
            && (s.forwarder.Idle? ==>
                  (s.forwarder.conn.next < s.start <==> |s.log| - s.forwarder.conn.next > 8))
  {
    RunKeepsInv(steps, env);
    hide Run, SentNodesInv, AnswersInv, ListedInv, DatabaseInv, ConnectionInv, IdInv, LockInv, DeliveryInv, HostInv;
    hide DueReads, Causes, AttemptsOk, Fold, Lookup, ForwardedAsIs, DueItem;
    var s := Run(steps, env).value;
    forall i | 0 <= i < |s.received|
      ensures var r := s.received[i];
              && r.place < |s.log| && r.epoch <= |s.delivered|
              && (r.due <==> CallsForSend(s.log[r.place], Fold(s.delivered[..r.epoch], env.decoders)))
    {
      var r := s.received[i];
      assert ReadOk(s, env, r);
      DueIsCalledFor(s.log[r.place], Fold(s.delivered[..r.epoch], env.decoders));
    }
  }

  /** What is sent for a packet is what it called for: itself, or its sender's node as the database then
      had it. No radio packet is sent otherwise, and the sends follow the order of the log. */
  lemma ForwardsAreWhatWasDue(steps: seq<Step>, env: Env, i: nat)
    requires Run(steps, env).Some? && i < |Run(steps, env).value.attempts|
    ensures var s := Run(steps, env).value;
            var a := s.attempts[i];
            match a.place
            case None => !a.item.Mesh?
            case Some(place) =>
              && place < |s.log| && a.epoch <= |s.delivered|
              && DueAt(s, env, place, a.epoch) == Some(a.item)
              && (a.item.Mesh? || a.item.DbNode?)
              && (a.item.Mesh? ==>
                    && a.item.packet == s.log[place]
                    && s.log[place].PortNumber() in {Known(PositionApp), Known(TelemetryApp), Known(TextMessageApp),
                                                     Known(RoutingApp), Known(TracerouteApp), Known(NeighborinfoApp)})
              && (a.item.DbNode? ==>
                    && s.log[place].PortNumber() == Known(NodeinfoApp)
                    && a.item.node.num == s.log[place].header.source
                    && a.item.node in Fold(s.delivered[..a.epoch], env.decoders))
              && forall j :: i < j < |s.attempts| && s.attempts[j].place.Some? ==> place < s.attempts[j].place.value
  {
    RunKeepsInv(steps, env);
    hide Run, SentNodesInv, AnswersInv, ListedInv, DatabaseInv, ConnectionInv, IdInv, LockInv, DeliveryInv, HostInv;
    hide DueReads, Causes, Fold, Lookup, ReadsOk, PendingOk;
    var s := Run(steps, env).value;
    var a := s.attempts[i];
    assert AttemptOk(s, env, a);
    if a.place.Some? {
      LookupIsMember(Fold(s.delivered[..a.epoch], env.decoders), s.log[a.place.value].header.source);
      forall j | i < j < |s.attempts| && s.attempts[j].place.Some? ensures a.place.value < s.attempts[j].place.value {
        SendsFollowTheLog(s.received, s.attempts, InHand(s.forwarder), i, j);
      }
    }
  }

  /** In every run each config request is answered by a gap-free beginning of its canonical burst. The
      burst is complete if the answer finished; it stops at the first failed send, which ends it; and it
      lists the database as it was after one prefix of the deliveries. Whatever comes behind the greeting
      comes with such a listing: the database is never withheld. */
  lemma AnswersAreCanonical(steps: seq<Step>, env: Env, k: nat)
    requires Run(steps, env).Some? && k < |Run(steps, env).value.answers|
    ensures var s := Run(steps, env).value;
            var a := s.answers[k];
            var burst := Canonical(a.configId, a.listed);
            && a.from <= a.upTo <= |s.attempts|
            && Items(s.attempts[a.from..a.upTo]) <= burst
            && (a.outcome.Finished? ==> Items(s.attempts[a.from..a.upTo]) == burst)
            && (forall i :: a.from <= i < a.upTo ==> (s.attempts[i].ok <==> !(a.outcome.Broken? && i == a.upTo - 1)))
            && (a.outcome.Broken? ==> a.from < a.upTo)
            && (a.outcome.Running? <==> k == |s.answers| - 1 && s.forwarder.Answering?)
            && (k + 1 < |s.answers| ==> a.upTo <= s.answers[k + 1].from)
            && (a.listed.Some? ==>
                  a.epoch <= |s.delivered| && a.listed.value == Fold(s.delivered[..a.epoch], env.decoders))
            && (a.upTo - a.from > 2 ==> a.listed.Some?)
            && (a.outcome.Finished? ==> a.listed.Some?)
  {
    RunKeepsInv(steps, env);
    hide Run, AnswersInv, ListedInv, Canonical, Fold;
    AnswerFacts(Run(steps, env).value, env, k);
  }

  lemma AnswerFacts(s: Sys, env: Env, k: nat)
    requires AnswersInv(s) && ListedInv(s, env) && k < |s.answers|
    ensures var a := s.answers[k];
            var burst := Canonical(a.configId, a.listed);
            && a.from <= a.upTo <= |s.attempts|
            && Items(s.attempts[a.from..a.upTo]) <= burst
            && (a.outcome.Finished? ==> Items(s.attempts[a.from..a.upTo]) == burst)
            && (forall i :: a.from <= i < a.upTo ==> (s.attempts[i].ok <==> !(a.outcome.Broken? && i == a.upTo - 1)))
            && (a.outcome.Broken? ==> a.from < a.upTo)
            && (a.outcome.Running? <==> k == |s.answers| - 1 && s.forwarder.Answering?)
            && (k + 1 < |s.answers| ==> a.upTo <= s.answers[k + 1].from)
            && (a.listed.Some? ==>
                  a.epoch <= |s.delivered| && a.listed.value == Fold(s.delivered[..a.epoch], env.decoders))
            && (a.upTo - a.from > 2 ==> a.listed.Some?)
            && (a.outcome.Finished? ==> a.listed.Some?)
  {
    hide Fold, NodeItems, Canonical, UntilEnd;
    assert AnswerOk(s.attempts, s.answers[k]);
    assert ListedFromEpoch(s, env, s.answers[k]);
    BurstParts(s.answers[k].configId, s.answers[k].listed);
  }

  /** Whenever the forwarder tries the database it gets it: nobody else holds it then, and it is there. */
  lemma TryLockNeverFails(steps: seq<Step>, env: Env)
    requires Run(steps, env).Some?
    ensures var s := Run(steps, env).value;
            && (Enabled(s, ForwarderTake, env) || Enabled(s, TrySnapshot, env) ==> s.lock.Free? && s.db.Some?)
            && (s.lock.ByForwarder? <==> ForwarderHolds(s.forwarder))
  {
    var s := Run(steps, env).value;
    assert ChannelInv(s) && LockInv(s) by { RunKeepsInv(steps, env); }
    hide Run, WritesOf, ChannelInv, ForwarderHolds;
    if Enabled(s, ForwarderTake, env) || Enabled(s, TrySnapshot, env) {
      TryLockSucceeds(s);
    }
  }

  /** While a listing is being sent, the forwarder has the database locked and it still is what was listed. */
  lemma DatabaseFrozenWhileListing(steps: seq<Step>, env: Env)
    requires Run(steps, env).Some?
    requires Run(steps, env).value.forwarder.Answering? && Run(steps, env).value.forwarder.phase.Listing?
    ensures var s := Run(steps, env).value;
            && s.lock.ByForwarder? && !Enabled(s, ProcessorApply, env)
            && s.answers != [] && s.db.Some? && s.db == LastAnswer(s).listed
  {
    hide Fold, Run, NodeItems, WritesOf;
    RunKeepsInv(steps, env);
    hide SentNodesInv, AnswersInv, DatabaseInv, ConnectionInv, IdInv, DeliveryInv, HostInv, ForwardInv;
  }

  function Items(attempts: seq<Attempt>): (items: seq<Item>)
    ensures |items| == |attempts|
    ensures forall i :: 0 <= i < |items| ==> items[i] == attempts[i].item
  {
    seq(|attempts|, i requires 0 <= i < |attempts| => attempts[i].item)
  }

  /** No packet forwarded from the radio falls between the first and last send of an answer. */
  lemma NoForwardInsideAnswer(steps: seq<Step>, env: Env, k: nat, i: nat)
    requires Run(steps, env).Some? && k < |Run(steps, env).value.answers|
    requires Run(steps, env).value.answers[k].from <= i < Run(steps, env).value.answers[k].upTo
    ensures i < |Run(steps, env).value.attempts| && !Run(steps, env).value.attempts[i].item.Mesh?
  {
    RunKeepsInv(steps, env);
    var s := Run(steps, env).value;
    assert AnswerOk(s.attempts, s.answers[k]);
    BurstHasNoMesh(s.answers[k].configId, s.answers[k].listed);
  }

  lemma BurstHasNoMesh(configId: u32, listed: Option<seq<NodeInfo>>)
    ensures forall i :: 0 <= i < |Canonical(configId, listed)| ==> !Canonical(configId, listed)[i].Mesh?
  {
    if listed.Some? {
      NodeItemsAreNodes(listed.value);
    }
  }

  lemma CountOneMore<T>(s: seq<T>, last: T, x: T)
    ensures multiset(s + [last])[x] == multiset(s)[x] + (if x == last then 1 else 0)
  {
    assert multiset(s + [last]) == multiset(s) + multiset{last};
  }

  lemma MemberOneMore(nodes: seq<NodeInfo>, node: NodeInfo)
    requires nodes != [] && Distinct(nodes)
    ensures var init, last := nodes[..|nodes| - 1], nodes[|nodes| - 1];
            && Distinct(init)
            && (node in nodes <==> node in init || node == last)
            && !(node in init && node == last)
  {
    assert nodes == nodes[..|nodes| - 1] + [nodes[|nodes| - 1]];
  }

  /** A listing names every node of the database but the device's own exactly once, and nothing else. */
  lemma {:induction false} ListedExactlyOnce(nodes: seq<NodeInfo>, node: NodeInfo)
    requires Distinct(nodes)
    ensures multiset(NodeItems(nodes))[DbNode(node)] == if node in nodes && node.num != 0xDEAD_BEEF then 1 else 0
  {
    if nodes != [] {
      var init, last := nodes[..|nodes| - 1], nodes[|nodes| - 1];
      assert NodeItems(nodes) == NodeItems(init) + if last.num != OWN_NUMBER then [DbNode(last)] else [];
      assert NodeItems(init) + [] == NodeItems(init);
      hide NodeItems, Distinct;
      MemberOneMore(nodes, node);
      ListedExactlyOnce(init, node);
      CountOneMore(NodeItems(init), DbNode(last), DbNode(node));
    }
  }

  /** The slots a listing shows. */
  function SlotsOf(nodes: seq<NodeInfo>): seq<nat> {
    if nodes == [] then []
    else
      var n := |nodes| - 1;
      SlotsOf(nodes[..n]) + (if nodes[n].num != OWN_NUMBER then [n] else [])
  }

  /** And it is in slot order: item j is the node in slot SlotsOf(nodes)[j], and those slots increase. */
  lemma {:induction false} ListedInSlotOrder(nodes: seq<NodeInfo>)
    ensures |SlotsOf(nodes)| == |NodeItems(nodes)|
    ensures forall j :: 0 <= j < |SlotsOf(nodes)| ==> SlotsOf(nodes)[j] < |nodes|
    ensures forall j :: 0 <= j < |SlotsOf(nodes)| ==> NodeItems(nodes)[j] == DbNode(nodes[SlotsOf(nodes)[j]])
    ensures forall i, j :: 0 <= i < j < |SlotsOf(nodes)| ==> SlotsOf(nodes)[i] < SlotsOf(nodes)[j]
  {
    if nodes != [] {
      var n := |nodes| - 1;
      var init := nodes[..n];
      ListedInSlotOrder(init);
      var slots, items := SlotsOf(init), NodeItems(init);
      forall j | 0 <= j < |SlotsOf(nodes)|
        ensures SlotsOf(nodes)[j] < |nodes| && NodeItems(nodes)[j] == DbNode(nodes[SlotsOf(nodes)[j]])
      {
        if j < |slots| {
          assert SlotsOf(nodes)[j] == slots[j] && NodeItems(nodes)[j] == items[j];
          assert init[slots[j]] == nodes[slots[j]];
        }
      }
    }
  }

  lemma BurstListsOnce(configId: u32, nodes: seq<NodeInfo>, node: NodeInfo)
    requires Distinct(nodes)
    ensures multiset(Canonical(configId, Some(nodes)))[DbNode(node)]
            == if node in nodes && node.num != 0xDEAD_BEEF then 1 else 0
  {
    hide NodeItems, Distinct;
    var middle, farewell := NodeItems(nodes), Farewell(configId);
    ListedExactlyOnce(nodes, node);
    assert multiset(GREETING)[DbNode(node)] == 0 && multiset(farewell)[DbNode(node)] == 0;
    assert multiset(GREETING + middle + farewell) == multiset(GREETING) + multiset(middle) + multiset(farewell);
  }

  /** So does the burst built around it. */
  lemma BurstLists(configId: u32, nodes: seq<NodeInfo>)
    requires Distinct(nodes)
    ensures var burst, slots := Canonical(configId, Some(nodes)), SlotsOf(nodes);
            && (forall node: NodeInfo ::
                  multiset(burst)[DbNode(node)] == if node in nodes && node.num != 0xDEAD_BEEF then 1 else 0)
            && |burst| == 2 + |slots| + 4
            && burst[..2] == [MyInfo, OwnNode]
            && (forall j :: 0 <= j < |slots| ==> slots[j] < |nodes| && burst[2 + j] == DbNode(nodes[slots[j]]))
            && (forall i, j :: 0 <= i < j < |slots| ==> slots[i] < slots[j])
            && burst[2 + |slots|..] == [ConfigItem, ModuleConfigItem, ChannelItem, ConfigComplete(configId)]
  {
    hide NodeItems, SlotsOf, Distinct;
    forall node: NodeInfo
      ensures multiset(Canonical(configId, Some(nodes)))[DbNode(node)]
              == if node in nodes && node.num != 0xDEAD_BEEF then 1 else 0
    {
      BurstListsOnce(configId, nodes, node);
    }
    ListedInSlotOrder(nodes);
  }

  /** So in every run a finished answer lists the database as it was after some prefix of the deliveries:
      at most fifty nodes, each but the device's own exactly once, nothing else, and in slot order. */
  lemma AnswersListTheDatabase(steps: seq<Step>, env: Env, k: nat)
    requires Run(steps, env).Some? && k < |Run(steps, env).value.answers|
    requires Run(steps, env).value.answers[k].outcome.Finished?
    ensures var s := Run(steps, env).value;
            var a := s.answers[k];
            && a.from <= a.upTo <= |s.attempts| && a.listed.Some? && a.epoch <= |s.delivered|
            && var nodes, items := a.listed.value, Items(s.attempts[a.from..a.upTo]);
               var slots := SlotsOf(nodes);
               && nodes == Fold(s.delivered[..a.epoch], env.decoders)
               && |nodes| <= 50 && Distinct(nodes)
               && (forall node: NodeInfo ::
                     multiset(items)[DbNode(node)] == if node in nodes && node.num != 0xDEAD_BEEF then 1 else 0)
               && |items| == 2 + |slots| + 4
               && items[..2] == [MyInfo, OwnNode]
               && (forall j :: 0 <= j < |slots| ==> slots[j] < |nodes| && items[2 + j] == DbNode(nodes[slots[j]]))
               && (forall i, j :: 0 <= i < j < |slots| ==> slots[i] < slots[j])
               && items[2 + |slots|..] == [ConfigItem, ModuleConfigItem, ChannelItem, ConfigComplete(a.configId)]
  {
    AnswersAreCanonical(steps, env, k);
    var s := Run(steps, env).value;
    var a := s.answers[k];
    hide Run, Fold, NodeItems, SlotsOf, Canonical, Items, Distinct;
    FoldWellFormed(s.delivered[..a.epoch], env.decoders);
    BurstLists(a.configId, a.listed.value);
  }

  // What the host reads.

  /** As long as no send of a connection was cut off partway, the host reads the messages sent on it, each
      once, in order, whatever sends failed before their first write and whatever lag notices came between. */
  lemma HostReadsConnection(steps: seq<Step>, env: Env, n: nat)
    requires Run(steps, env).Some? && n <= |Run(steps, env).value.events|
    requires AllWhole(Run(steps, env).value.events[..n])
    ensures var s := Run(steps, env).value;
            var sent := SentOf(s.events[..n]);
            && s.sentBefore <= |s.attempts|
            && sent <= s.attempts[s.sentBefore..]
            && (n == |s.events| ==> sent == s.attempts[s.sentBefore..])
            && Calls([], Wire(env, s.events[..n])) == (Arriving(env, sent), [])
  {
    RunKeepsInv(steps, env);
    var s := Run(steps, env).value;
    assert HostInv(s, env);
    hide Run, Inv, HostInv;
    EventsSent(s, env, n);
    WholeEventsAreRead(env, s.events[..n]);
  }

  /** After such a beginning of a connection comes a send: it delivers its message only if it is complete,
      and the frame after it is read where it stands if and only if it was not cut off partway. */
  lemma HostKeepsUpIff(steps: seq<Step>, env: Env, n: nat, payload: seq<byte>, after: seq<byte>)
    requires Run(steps, env).Some? && n < |Run(steps, env).value.events|
    requires AllWhole(Run(steps, env).value.events[..n]) && Run(steps, env).value.events[n].Sent?
    requires GoodLength(|payload|)
    ensures var events := Run(steps, env).value.events;
            var (packets, residue) := Calls([], Wire(env, events[..n + 1]));
            && packets == Arriving(env, SentOf(events[..n + 1]))
            && (Scan(residue + (Printed(payload) + after)) == Frame(payload, after) <==> Whole(events[n]))
  {
    RunKeepsInv(steps, env);
    var s := Run(steps, env).value;
    assert HostInv(s, env);
    hide *;
    KeepsUpIff(s, env, n, payload, after);
  }

  lemma FinishedSends(s: Sys, a: Answer)
    requires IdInv(s) && a.from <= a.upTo <= |s.attempts|
    requires Items(s.attempts[a.from..a.upTo]) == Canonical(a.configId, a.listed)
    ensures |Canonical(a.configId, a.listed)| == a.upTo - a.from
    ensures forall i :: a.from <= i < a.upTo ==>
                          && s.attempts[i].item == Canonical(a.configId, a.listed)[i - a.from]
                          && s.attempts[i].id == NthId(i)
  {
    hide Canonical, NthId;
    var sent := s.attempts[a.from..a.upTo];
    forall i | a.from <= i < a.upTo ensures s.attempts[i].item == Canonical(a.configId, a.listed)[i - a.from] {
      assert Items(sent)[i - a.from] == sent[i - a.from].item;
    }
  }

  /** A finished answer on such a connection reaches the host whole: the messages of its burst, under the
      ids it drew, stand together among those read. */
  lemma HostReadsFinishedAnswer(steps: seq<Step>, env: Env, k: nat, n: nat)
    requires Run(steps, env).Some? && n <= |Run(steps, env).value.events| && k < |Run(steps, env).value.answers|
    requires AllWhole(Run(steps, env).value.events[..n])
    requires var s := Run(steps, env).value;
             && s.answers[k].outcome.Finished? && s.sentBefore <= s.answers[k].from
             && s.answers[k].upTo <= s.sentBefore + |SentOf(s.events[..n])|
    ensures var s := Run(steps, env).value;
            var a, end := s.answers[k], s.sentBefore + |SentOf(s.events[..n])|;
            && a.from <= a.upTo <= end <= |s.attempts|
            && Calls([], Wire(env, s.events[..n])).0
               == Arriving(env, s.attempts[s.sentBefore..a.from])
                  + NonEmpty(Messages(Canonical(a.configId, a.listed), a.from, env.encode))
                  + Arriving(env, s.attempts[a.upTo..end])
  {
    hide *;
    RunKeepsIds(steps, env);
    HostReadsConnection(steps, env, n);
    AnswersAreCanonical(steps, env, k);
    var s, sent := Run(steps, env).value, SentOf(Run(steps, env).value.events[..n]);
    assert sent == s.attempts[s.sentBefore..][..|sent|];
    FinishedArrives(s, env, k, |sent|);
  }

  lemma RunKeepsIds(steps: seq<Step>, env: Env)
    requires Run(steps, env).Some?
    ensures IdInv(Run(steps, env).value)
  {
    RunKeepsInv(steps, env);
    hide Run, ChannelInv, DeliveryInv, LockInv, DatabaseInv, IdInv, ConnectionInv, SentNodesInv, AnswersInv;
    hide ListedInv, ForwardInv, HostInv;
  }

  lemma FinishedArrives(s: Sys, env: Env, k: nat, count: nat)
    requires IdInv(s) && k < |s.answers| && s.answers[k].outcome.Finished?
    requires s.sentBefore <= s.answers[k].from <= s.answers[k].upTo <= s.sentBefore + count <= |s.attempts|
    requires Items(s.attempts[s.answers[k].from..s.answers[k].upTo])
             == Canonical(s.answers[k].configId, s.answers[k].listed)
    requires forall i :: s.answers[k].from <= i < s.answers[k].upTo ==> s.attempts[i].ok
    ensures var a, end := s.answers[k], s.sentBefore + count;
            Arriving(env, s.attempts[s.sentBefore..][..count])
            == Arriving(env, s.attempts[s.sentBefore..a.from])
               + NonEmpty(Messages(Canonical(a.configId, a.listed), a.from, env.encode))
               + Arriving(env, s.attempts[a.upTo..end])
  {
    hide *;
    var a, end := s.answers[k], s.sentBefore + count;
    FinishedSends(s, a);
    assert s.attempts[s.sentBefore..][..count] == s.attempts[s.sentBefore..end];
    BurstArrivesAmong(env, s.attempts, s.sentBefore, a.from, a.upTo, end, Canonical(a.configId, a.listed));
  }

  // Progress.

  function Rank(phase: Phase): nat {
    match phase
    case Greeting => 2
    case Listing => 1
    case Closing => 0
  }

  /** The forwarder's next step when the host keeps taking what it sends. */
  function Onward(f: Forwarder, env: Env): Step
    requires f.Answering?
  {
    if f.todo != [] then
      match f.drawn
      case None => DrawId
      case Some(id) => Send(|WritesOf(env, id, f.todo[0])|)
    else
      match f.phase
      case Greeting => TrySnapshot
      case Listing => EndListing
      case Closing => EndAnswer
  }

  /** A run continued from a state, step by step. */
  function RunFrom(s: Sys, more: seq<Step>, env: Env): Option<Sys>
    decreases |more|
  {
    if more == [] then Some(s)
    else if Enabled(s, more[0], env) then RunFrom(Next(s, more[0], env), more[1..], env)
    else None
  }

  lemma {:induction false} RunContinues(steps: seq<Step>, more: seq<Step>, env: Env)
    requires Run(steps, env).Some?
    ensures Run(steps + more, env) == RunFrom(Run(steps, env).value, more, env)
    decreases |more|
  {
    hide Enabled, Next;
    if more == [] {
      assert steps + more == steps;
    } else {
      var longer := steps + [more[0]];
      assert longer[..|steps|] == steps;
      assert steps + more == longer + more[1..];
      if Enabled(Run(steps, env).value, more[0], env) {
        RunContinues(longer, more[1..], env);
      } else {
        StuckStays(longer, more[1..], env);
      }
    }
  }

  lemma {:induction false} StuckStays(steps: seq<Step>, more: seq<Step>, env: Env)
    requires Run(steps, env).None?
    ensures Run(steps + more, env).None?
    decreases |more|
  {
    hide Enabled, Next;
    if more == [] {
      assert steps + more == steps;
    } else {
      var n := |more| - 1;
      StuckStays(steps, more[..n], env);
      assert (steps + more)[..|steps + more| - 1] == steps + more[..n];
    }
  }

  /** The steps of an answer. */
  predicate OwnStep(step: Step) {
    step.DrawId? || step.Send? || step.TrySnapshot? || step.EndListing? || step.EndAnswer?
  }

  /** Every item encodes into the buffer, whatever its id. */
  ghost predicate Sendable(items: seq<Item>, env: Env) {
    forall i, id: u32 :: 0 <= i < |items| ==> |env.encode(id, items[i])| <= ENCODE_BUFFER
  }

  /** So does everything the answer underway consists of. */
  ghost predicate BurstSendable(s: Sys, env: Env) {
    s.answers != [] ==> Sendable(Canonical(LastAnswer(s).configId, s.db), env)
  }

  /** From every reachable state with an answer underway, the forwarder alone can finish it if its items
      can be encoded: no task has to move for it, and no lock it needs is withheld. */
  lemma AnswerCanFinish(steps: seq<Step>, env: Env) returns (more: seq<Step>)
    requires Run(steps, env).Some? && Run(steps, env).value.forwarder.Answering?
    requires BurstSendable(Run(steps, env).value, env)
    ensures forall i :: 0 <= i < |more| ==> OwnStep(more[i])
    ensures Run(steps + more, env).Some?
    ensures var s, t := Run(steps, env).value, Run(steps + more, env).value;
            && t.forwarder.Idle? && |t.answers| == |s.answers| > 0
            && LastAnswer(t).outcome == Finished && LastAnswer(t).configId == LastAnswer(s).configId
            && t.log == s.log && t.processor == s.processor && t.db == s.db
  {
    var s := Run(steps, env).value;
    RunKeepsInv(steps, env);
    RestSendable(s, env);
    hide Inv, Sendable;
    more := OnwardToEnd(s, env);
    hide Run, RunFrom;
    RunContinues(steps, more, env);
  }

  /** What is left to send, and what may be added to it, is part of the burst. */
  lemma RestSendable(s: Sys, env: Env)
    requires AnswersInv(s) && StillCurrent(s) && s.forwarder.Answering? && BurstSendable(s, env)
    ensures s.answers != [] && StepsSendable(s, env)
  {
    hide NodeItems, AnswersOk, Sendable, ListedItems;
    var a, f := LastAnswer(s), s.forwarder;
    var burst, middle, farewell := Canonical(a.configId, s.db), ListedItems(s.db), Farewell(a.configId);
    assert GREETING + (middle + farewell) == burst;
    SendableParts(GREETING, middle + farewell, env);
    SendableParts(middle, farewell, env);
    var k := a.upTo - a.from;
    match f.phase {
      case Greeting =>
        SendableParts(GREETING[..k], GREETING[k..], env);
        assert GREETING[..k] + GREETING[k..] == GREETING;
      case Listing =>
        var listing := GREETING + middle;
        assert listing + farewell == burst && listing[..k] + listing[k..] == listing;
        SendableParts(listing, farewell, env);
        SendableParts(listing[..k], listing[k..], env);
      case Closing =>
        var j := k - |GREETING + ListedItems(a.listed)|;
        assert f.todo == farewell[j..] && farewell[..j] + farewell[j..] == farewell;
        SendableParts(farewell[..j], farewell[j..], env);
    }
  }

  lemma SendableParts(a: seq<Item>, b: seq<Item>, env: Env)
    requires Sendable(a + b, env)
    ensures Sendable(a, env) && Sendable(b, env)
  {
    forall i, id: u32 | 0 <= i < |a| ensures |env.encode(id, a[i])| <= ENCODE_BUFFER {
      assert (a + b)[i] == a[i];
    }
    forall i, id: u32 | 0 <= i < |b| ensures |env.encode(id, b[i])| <= ENCODE_BUFFER {
      assert (a + b)[|a| + i] == b[i];
    }
  }

  ghost predicate StepsSendable(s: Sys, env: Env)
    requires s.forwarder.Answering? && s.answers != []
  {
    && Sendable(s.forwarder.todo, env)
    && Sendable(ListedItems(s.db), env)
    && Sendable(Farewell(LastAnswer(s).configId), env)
  }

  lemma {:induction false} OnwardToEnd(s: Sys, env: Env) returns (more: seq<Step>)
    requires s.forwarder.Answering? && s.answers != [] && StepsSendable(s, env)
    ensures forall i :: 0 <= i < |more| ==> OwnStep(more[i])
    ensures RunFrom(s, more, env).Some?
    ensures var t := RunFrom(s, more, env).value;
            && t.forwarder.Idle? && |t.answers| == |s.answers|
            && LastAnswer(t).outcome == Finished && LastAnswer(t).configId == LastAnswer(s).configId
            && t.log == s.log && t.processor == s.processor && t.db == s.db
    decreases Rank(s.forwarder.phase), |s.forwarder.todo|, if s.forwarder.drawn.None? then 1 else 0
  {
    hide Enabled, Next, StepsSendable;
    var step := Onward(s.forwarder, env);
    var t := OnwardStep(s, env);
    var rest: seq<Step> := [];
    if t.forwarder.Answering? {
      rest := OnwardToEnd(t, env);
    }
    more := [step] + rest;
    assert more[1..] == rest;
  }

  lemma OnwardStep(s: Sys, env: Env) returns (t: Sys)
    requires s.forwarder.Answering? && s.answers != [] && StepsSendable(s, env)
    ensures Enabled(s, Onward(s.forwarder, env), env) && t == Next(s, Onward(s.forwarder, env), env)
    ensures |t.answers| == |s.answers| && LastAnswer(t).configId == LastAnswer(s).configId
    ensures t.log == s.log && t.processor == s.processor && t.db == s.db
    ensures t.forwarder.Answering? ==> StepsSendable(t, env)
    ensures t.forwarder.Answering? || (t.forwarder.Idle? && LastAnswer(t).outcome == Finished)
    ensures t.forwarder.Answering? ==>
              var f, g := s.forwarder, t.forwarder;
              || Rank(g.phase) < Rank(f.phase)
              || (g.phase == f.phase && |g.todo| < |f.todo|)
              || (g.phase == f.phase && |g.todo| == |f.todo| && f.drawn.None? && g.drawn.Some?)
  {
    hide NodeItems, FrameWrites, Farewell;
    var todo := s.forwarder.todo;
    if todo != [] {
      assert [todo[0]] + todo[1..] == todo;
      SendableParts([todo[0]], todo[1..], env);
    }
    t := Next(s, Onward(s.forwarder, env), env);
  }
}
