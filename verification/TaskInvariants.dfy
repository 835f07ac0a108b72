/**
 What every run of the step system keeps about the channel, the deliveries, the lock, the database, the
 ids, the connection and the nodes sent: one predicate for each concern, and one lemma that a step
 keeps it.
 */
module TaskInvariants {
  import opened Bytes
  import opened Options
  import opened Protobuf
  import opened Packets
  import opened TextMessages
  import opened Nodes
  import opened NodeDatabases
  import opened NodeHistory
  import opened FrameScan
  import Framers
  import opened FrameStreams
  import opened PacketIds
  import opened Tasks

  // The channel.

  /** A subscriber at `next` is inside the log, and behind the window only if the window is full. */
  ghost predicate Following(s: Sys, next: nat) {
    next <= |s.log| && (next < s.start ==> |s.log| - s.start == CHANNEL_CAPACITY)
  }

  ghost predicate ChannelInv(s: Sys) {
    && s.start <= |s.log| <= s.start + CHANNEL_CAPACITY
    && (s.db.None? ==> s.log == [] && s.processor.Starting? && s.forwarder.Offline?)
    && (!s.processor.Starting? ==> Following(s, s.processor.next))
    && (!s.forwarder.Offline? ==> Following(s, s.forwarder.conn.next))
  }

  lemma ChannelKept(s: Sys, step: Step, env: Env)
    requires ChannelInv(s) && Enabled(s, step, env)
    ensures ChannelInv(Next(s, step, env))
  {
    hide WritesOf, Complete, Received, Record, Lookup, NodeItems, Call;
  }

  // The processor's deliveries.

  /** The deliveries are entries of the log between `joined` and `next`, in log order, and together
      with what was missed they make up everything between the two. */
  ghost predicate Deliveries(log: seq<DecodedPacket>, joined: nat, next: nat,
                             delivered: seq<DecodedPacket>, positions: seq<nat>, missed: nat)
  {
    && joined <= next <= |log|
    && |positions| == |delivered|
    && |delivered| + missed == next - joined
    && (forall i :: 0 <= i < |positions| ==>
                      joined <= positions[i] < next && delivered[i] == log[positions[i]])
    && (forall i, j :: 0 <= i < j < |positions| ==> positions[i] < positions[j])
  }

  ghost predicate DeliveryInv(s: Sys) {
    && (s.processor.Starting? ==> s.delivered == [] && s.positions == [] && s.missed == 0)
    && (!s.processor.Starting? ==>
          Deliveries(s.log, s.joined, s.processor.next, s.delivered, s.positions, s.missed))
    && (HoldsPacket(s.processor) ==> s.delivered != [])
  }

  lemma DeliveryKept(s: Sys, step: Step, env: Env)
    requires ChannelInv(s) && DeliveryInv(s) && Enabled(s, step, env)
    ensures DeliveryInv(Next(s, step, env))
  {
    hide WritesOf, Complete, Received, Record, Lookup, NodeItems, Call, Deliveries;
    var t := Next(s, step, env);
    match step {
      case Receive(_, _, _) =>
        if !s.processor.Starting? {
          DeliveriesWhenLogGrows(s.log, t.log, s.joined, s.processor.next, s.delivered, s.positions, s.missed);
        }
      case ProcessorSubscribe =>
        NoDeliveries(s.log);
      case ProcessorTake =>
        OneMoreDelivery(s.log, s.joined, s.processor.next, s.start, s.delivered, s.positions, s.missed);
      case _ =>
    }
  }

  lemma NoDeliveries(log: seq<DecodedPacket>)
    ensures Deliveries(log, |log|, |log|, [], [], 0)
  {
  }

  lemma DeliveriesWhenLogGrows(log: seq<DecodedPacket>, longer: seq<DecodedPacket>, joined: nat, next: nat,
                               delivered: seq<DecodedPacket>, positions: seq<nat>, missed: nat)
    requires log <= longer
    requires Deliveries(log, joined, next, delivered, positions, missed)
    ensures Deliveries(longer, joined, next, delivered, positions, missed)
  {
  }

  lemma OneMoreDelivery(log: seq<DecodedPacket>, joined: nat, next: nat, start: nat,
                        delivered: seq<DecodedPacket>, positions: seq<nat>, missed: nat)
    requires Deliveries(log, joined, next, delivered, positions, missed) && next < |log| && start <= |log|
    ensures next >= start ==> Deliveries(log, joined, next + 1, delivered + [log[next]], positions + [next], missed)
    ensures next < start ==> Deliveries(log, joined, start, delivered, positions, missed + (start - next))
  {
  }

  // The lock and the database.

  ghost predicate ForwarderHolds(f: Forwarder) {
    (f.Forwarding? && f.item.DbNode?) || (f.Answering? && f.phase.Listing?)
  }

  ghost predicate LockInv(s: Sys) {
    s.lock.ByForwarder? <==> ForwarderHolds(s.forwarder)
  }

  lemma LockKept(s: Sys, step: Step, env: Env)
    requires LockInv(s) && Enabled(s, step, env)
    ensures LockInv(Next(s, step, env))
  {
    hide WritesOf, Complete, Received, Record, Lookup, NodeItems, Call;
  }

  /** The packets written to the database so far. */
  function AppliedPackets(s: Sys): seq<DecodedPacket> {
    s.delivered[..AppliedCount(s)]
  }

  ghost predicate DatabaseInv(s: Sys, env: Env) {
    && (s.db.None? ==> s.delivered == [])
    && (s.db.Some? ==> s.db.value == Fold(AppliedPackets(s), env.decoders))
  }

  lemma DatabaseKept(s: Sys, step: Step, env: Env)
    requires ChannelInv(s) && DeliveryInv(s) && DatabaseInv(s, env) && Enabled(s, step, env)
    ensures DatabaseInv(Next(s, step, env), env)
  {
    hide WritesOf, Complete, Received, Record, Lookup, NodeItems, Call, Fold, Deliveries, AppliedPackets;
    AppliedStep(s, step, env);
    match step {
      case Initialize =>
        FoldEmpty(env.decoders);
        NothingApplied(s);
      case ProcessorApply =>
        FoldLast(s.delivered, env.decoders);
      case _ =>
    }
  }

  lemma NothingApplied(s: Sys)
    requires s.delivered == []
    ensures AppliedPackets(s) == []
  {
  }

  /** Only the processor's write moves a packet from received to applied. */
  lemma AppliedStep(s: Sys, step: Step, env: Env)
    requires DeliveryInv(s) && Enabled(s, step, env)
    ensures AppliedPackets(Next(s, step, env)) == if step.ProcessorApply? then s.delivered else AppliedPackets(s)
    ensures step.ProcessorApply? ==> AppliedPackets(s) == s.delivered[..|s.delivered| - 1]
  {
    hide WritesOf, Complete, Received, Record, Lookup, NodeItems, Call, Deliveries;
    if step.ProcessorTake? && s.processor.next >= s.start {
      var p := s.log[s.processor.next];
      assert (s.delivered + [p])[..|s.delivered|] == s.delivered;
    }
  }

  lemma FoldEmpty(dec: Decoders)
    ensures Fold([], dec) == []
  {
  }

  lemma FoldLast(history: seq<DecodedPacket>, dec: Decoders)
    requires history != []
    ensures Fold(history, dec) == Record(Fold(history[..|history| - 1], dec), history[|history| - 1], dec)
  {
  }

  // Packet ids.

  function PendingId(f: Forwarder): Option<u32> {
    match f
    case Forwarding(_, _, _, _, drawn) => drawn
    case Answering(_, _, _, drawn) => drawn
    case _ => None
  }

  ghost predicate IdInv(s: Sys) {
    && (forall i :: 0 <= i < |s.attempts| ==> s.attempts[i].id == NthId(i))
    && (PendingId(s.forwarder).Some? ==> PendingId(s.forwarder).value == NthId(|s.attempts|))
    && (s.forwarder.Answering? && s.forwarder.todo == [] ==> s.forwarder.drawn.None?)
    && s.nextId == NthId(|s.attempts| + (if PendingId(s.forwarder).Some? then 1 else 0))
  }

  lemma IdKept(s: Sys, step: Step, env: Env)
    requires IdInv(s) && Enabled(s, step, env)
    ensures IdInv(Next(s, step, env))
  {
    hide WritesOf, Complete, Received, Record, Lookup, NodeItems, Call;
  }

  // The connection.

  ghost predicate ConnectionInv(s: Sys) {
    !s.forwarder.Offline? ==>
      |s.forwarder.conn.buf| == USB_BUFFER && Scan(s.forwarder.conn.residue) == Pending(s.forwarder.conn.residue)
  }

  lemma ConnectionKept(s: Sys, step: Step, env: Env)
    requires ConnectionInv(s) && Enabled(s, step, env)
    ensures ConnectionInv(Next(s, step, env))
  {
    hide WritesOf, Complete, Received, Record, Lookup, NodeItems, Call, Scan;
    match step {
      case Connect =>
        Framers.ScanNothing();
      case UsbRead(data) =>
        var conn := s.forwarder.conn;
        CallLeavesResidue(conn.residue, data + conn.buf[|data|..]);
      case _ =>
    }
  }

  // What is sent from the database.

  /** A node as it was in the database after the first `epoch` delivered packets. */
  ghost predicate FromEpoch(s: Sys, env: Env, node: NodeInfo, epoch: nat) {
    epoch <= |AppliedPackets(s)| && node in Fold(s.delivered[..epoch], env.decoders)
  }

  ghost predicate AttemptedNodes(s: Sys, env: Env) {
    forall i :: 0 <= i < |s.attempts| && s.attempts[i].item.DbNode? ==>
                  FromEpoch(s, env, s.attempts[i].item.node, s.attempts[i].epoch)
  }

  ghost predicate ForwardedNode(s: Sys, env: Env) {
    s.forwarder.Forwarding? && s.forwarder.item.DbNode? ==>
      FromEpoch(s, env, s.forwarder.item.node, s.forwarder.epoch)
  }

  ghost predicate ListedNodes(s: Sys, env: Env) {
    s.forwarder.Answering? ==> s.answers != [] && ListedNodesOf(s, env, LastAnswer(s).epoch, s.forwarder.todo)
  }

  ghost predicate SentNodesInv(s: Sys, env: Env) {
    AttemptedNodes(s, env) && ForwardedNode(s, env) && ListedNodes(s, env)
  }

  ghost predicate ListedNodesOf(s: Sys, env: Env, epoch: nat, todo: seq<Item>) {
    forall i :: 0 <= i < |todo| && todo[i].DbNode? ==> FromEpoch(s, env, todo[i].node, epoch)
  }

  lemma FromEpochStays(s: Sys, t: Sys, env: Env, node: NodeInfo, epoch: nat)
    requires FromEpoch(s, env, node, epoch)
    requires s.delivered <= t.delivered && |AppliedPackets(s)| <= |AppliedPackets(t)|
    ensures FromEpoch(t, env, node, epoch)
  {
    assert t.delivered[..epoch] == s.delivered[..epoch];
  }

  lemma HistoryGrows(s: Sys, step: Step, env: Env)
    requires DeliveryInv(s) && Enabled(s, step, env)
    ensures s.delivered <= Next(s, step, env).delivered
    ensures |AppliedPackets(s)| <= |AppliedPackets(Next(s, step, env))|
    ensures s.attempts <= Next(s, step, env).attempts
  {
    hide WritesOf, Complete, Received, Record, Lookup, NodeItems, Call, Deliveries;
  }

  lemma {:induction false} NodeItemsAreNodes(nodes: seq<NodeInfo>)
    ensures forall i :: 0 <= i < |NodeItems(nodes)| ==>
                          var item := NodeItems(nodes)[i];
                          item.DbNode? && item.node in nodes && item.node.num != OWN_NUMBER
  {
    if nodes != [] {
      NodeItemsAreNodes(nodes[..|nodes| - 1]);
    }
  }

  lemma SentNodesKept(s: Sys, step: Step, env: Env)
    requires DeliveryInv(s) && DatabaseInv(s, env) && SentNodesInv(s, env) && Enabled(s, step, env)
    ensures SentNodesInv(Next(s, step, env), env)
  {
    hide AttemptedNodes, ForwardedNode, ListedNodes, Next, Enabled, DeliveryInv, DatabaseInv;
    AttemptedNodesKept(s, step, env);
    ForwardedNodeKept(s, step, env);
    ListedNodesKept(s, step, env);
  }

  lemma AttemptedNodesKept(s: Sys, step: Step, env: Env)
    requires DeliveryInv(s) && SentNodesInv(s, env) && Enabled(s, step, env)
    ensures AttemptedNodes(Next(s, step, env), env)
  {
    EpochsStay(s, step, env);
    AttemptStep(s, step, env);
    hide Next, Enabled, FromEpoch, DeliveryInv;
  }

  /** A step appends at most one attempt: the forwarded item, or the next one of the answer. */
  lemma AttemptStep(s: Sys, step: Step, env: Env)
    requires Enabled(s, step, env) && (s.forwarder.Answering? ==> s.answers != [])
    ensures var t := Next(s, step, env);
            || t.attempts == s.attempts
            || (exists a: Attempt ::
                  && t.attempts == s.attempts + [a]
                  && (s.forwarder.Forwarding? ==> a.item == s.forwarder.item && a.epoch == s.forwarder.epoch)
                  && (s.forwarder.Answering? ==>
                        s.forwarder.todo != [] && a.item == s.forwarder.todo[0] && a.epoch == LastAnswer(s).epoch)
                  && (s.forwarder.Forwarding? || s.forwarder.Answering?))
  {
    hide WritesOf, Complete, Received, Record, NodeItems, Call, Lookup;
    if step.Send? {
      var f := s.forwarder;
      var t := Next(s, step, env);
      assert t.attempts == s.attempts + [t.attempts[|s.attempts|]];
    }
  }

  lemma ForwardedNodeKept(s: Sys, step: Step, env: Env)
    requires DeliveryInv(s) && DatabaseInv(s, env) && SentNodesInv(s, env) && Enabled(s, step, env)
    ensures ForwardedNode(Next(s, step, env), env)
  {
    EpochsStay(s, step, env);
    ForwardStep(s, step, env);
    var t := Next(s, step, env);
    hide Next, Enabled, FromEpoch, DeliveryInv, DatabaseInv, AttemptedNodes, ListedNodes, AppliedCount, Lookup;
    if step.ForwarderTake? && t.forwarder.Forwarding? && t.forwarder.item.DbNode? {
      FoundIsFromEpoch(s, env, t.forwarder.item.node.num);
    }
  }

  /** What is being forwarded after a step was being forwarded before, or was just looked up. */
  lemma ForwardStep(s: Sys, step: Step, env: Env)
    requires Enabled(s, step, env)
    ensures var f, g := s.forwarder, Next(s, step, env).forwarder;
            g.Forwarding? && g.item.DbNode? ==>
              if step.ForwarderTake? then
                && s.db.Some? && Lookup(s.db.value, g.item.node.num) == Some(g.item.node)
                && g.epoch == AppliedCount(s)
              else f.Forwarding? && g.item == f.item && g.epoch == f.epoch
  {
    hide WritesOf, Complete, Received, Record, NodeItems, Call, Lookup;
    if step.ForwarderTake? && s.db.Some? {
      LookupIsMember(s.db.value, s.log[s.forwarder.conn.next].header.source);
    }
  }

  lemma ListedNodesKept(s: Sys, step: Step, env: Env)
    requires DeliveryInv(s) && DatabaseInv(s, env) && SentNodesInv(s, env) && Enabled(s, step, env)
    ensures ListedNodes(Next(s, step, env), env)
  {
    EpochsStay(s, step, env);
    TodoStep(s, step, env);
    hide Next, Enabled, FromEpoch, DeliveryInv, DatabaseInv, AttemptedNodes, ForwardedNode;
    hide ListedNodesOf, Farewell, NodeItems;
    var t := Next(s, step, env);
    ListsWithoutNodes(t, env);
    if s.forwarder.Answering? {
      ListedNodesStay(s, t, env, LastAnswer(s).epoch, s.forwarder.todo);
      if step.TrySnapshot? && s.db.Some? {
        AllAreFromEpoch(s, env);
        ListedNodesStay(s, t, env, AppliedCount(s), NodeItems(s.db.value));
      }
    }
  }

  predicate KeepsList(s: Sys, todo: seq<Item>, epoch: nat)
    requires s.forwarder.Answering? && s.answers != []
  {
    var before := s.forwarder.todo;
    epoch == LastAnswer(s).epoch && (todo == before || (before != [] && todo == before[1..]))
  }

  /** What is left to send after a step: a fixed part, what was left before, or a fresh listing. */
  lemma TodoStep(s: Sys, step: Step, env: Env)
    requires Enabled(s, step, env) && (s.forwarder.Answering? ==> s.answers != [])
    ensures var t := Next(s, step, env);
            t.forwarder.Answering? ==>
              && t.answers != []
              && var todo, epoch := t.forwarder.todo, LastAnswer(t).epoch;
                 || todo == GREETING
                 || todo == Farewell(LastAnswer(t).configId)
                 || (s.forwarder.Answering? && KeepsList(s, todo, epoch))
                 || (s.forwarder.Answering? && step.TrySnapshot? && s.db.Some?
                     && todo == NodeItems(s.db.value) && epoch == AppliedCount(s))
  {
    hide WritesOf, Complete, Received, Record, NodeItems, Call, Lookup, Farewell;
  }

  lemma ListedNodesStay(s: Sys, t: Sys, env: Env, epoch: nat, todo: seq<Item>)
    requires ListedNodesOf(s, env, epoch, todo)
    requires forall node: NodeInfo, e: nat :: FromEpoch(s, env, node, e) ==> FromEpoch(t, env, node, e)
    ensures ListedNodesOf(t, env, epoch, todo)
    ensures todo != [] ==> ListedNodesOf(t, env, epoch, todo[1..])
  {
  }

  /** The fixed parts of a burst hold no nodes. */
  lemma ListsWithoutNodes(s: Sys, env: Env)
    ensures forall epoch: nat :: ListedNodesOf(s, env, epoch, GREETING)
    ensures forall epoch: nat, configId: u32 :: ListedNodesOf(s, env, epoch, Farewell(configId))
  {
  }

  lemma EpochsStay(s: Sys, step: Step, env: Env)
    requires DeliveryInv(s) && Enabled(s, step, env)
    ensures forall node: NodeInfo, epoch: nat ::
              FromEpoch(s, env, node, epoch) ==> FromEpoch(Next(s, step, env), env, node, epoch)
  {
    HistoryGrows(s, step, env);
    hide Next, Enabled, AppliedPackets, Fold;
    var t := Next(s, step, env);
    forall node: NodeInfo, epoch: nat | FromEpoch(s, env, node, epoch) ensures FromEpoch(t, env, node, epoch) {
      FromEpochStays(s, t, env, node, epoch);
    }
  }

  lemma AppliedIsPrefix(s: Sys)
    ensures AppliedPackets(s) == s.delivered[..|AppliedPackets(s)|]
    ensures |AppliedPackets(s)| == AppliedCount(s) <= |s.delivered|
  {
  }

  /** Whatever is looked up now is from the current epoch. */
  lemma FoundIsFromEpoch(s: Sys, env: Env, num: u32)
    requires DeliveryInv(s) && DatabaseInv(s, env) && s.db.Some? && Lookup(s.db.value, num).Some?
    ensures FromEpoch(s, env, Lookup(s.db.value, num).value, AppliedCount(s))
  {
    hide Fold, Deliveries;
    AppliedIsPrefix(s);
    LookupIsMember(s.db.value, num);
  }

  lemma AllAreFromEpoch(s: Sys, env: Env)
    requires DeliveryInv(s) && DatabaseInv(s, env) && s.db.Some?
    ensures ListedNodesOf(s, env, AppliedCount(s), NodeItems(s.db.value))
  {
    hide Fold, Deliveries, NodeItems;
    AppliedIsPrefix(s);
    NodeItemsAreNodes(s.db.value);
  }

  lemma LookupIsMember(nodes: seq<NodeInfo>, num: u32)
    ensures Lookup(nodes, num).Some? ==> Lookup(nodes, num).value in nodes && Lookup(nodes, num).value.num == num
  {
  }
}
