/**
 What the forwarder makes of the packets it receives, over every run: for each of them that calls for
 it exactly one send is attempted, in order, of what the packet and the database of that moment say.
 */
module TaskForwards {
  import opened Options
  import opened Protobuf
  import opened Packets
  import opened TextMessages
  import opened Nodes
  import opened NodeDatabases
  import opened NodeHistory
  import opened FrameStreams
  import opened Tasks
  import opened TaskInvariants
  import opened TaskAnswers

  /** What a received packet calls for: the sender's node, the packet itself, or nothing. */
  function DueItem(packet: DecodedPacket, nodes: seq<NodeInfo>): Option<Item> {
    if packet.PortNumber() == Known(NodeinfoApp) then
      match Lookup(nodes, packet.header.source)
      case Some(node) => Some(DbNode(node))
      case None => None
    else if ForwardedAsIs(packet.PortNumber()) then Some(Mesh(packet))
    else None
  }

  /** What the entry at `place` calls for, with the database as the first `epoch` deliveries left it. */
  ghost function DueAt(s: Sys, env: Env, place: nat, epoch: nat): Option<Item>
    requires place < |s.log| && epoch <= |s.delivered|
  {
    DueItem(s.log[place], Fold(s.delivered[..epoch], env.decoders))
  }

  ghost predicate WasThere(s: Sys, place: nat, epoch: nat) {
    place < |s.log| && epoch <= AppliedCount(s) <= |s.delivered|
  }

  ghost predicate ReadOk(s: Sys, env: Env, read: Read) {
    WasThere(s, read.place, read.epoch) && (read.due <==> DueAt(s, env, read.place, read.epoch).Some?)
  }

  /** An attempt caused by a packet sends what that called for, and any other is no radio packet. */
  ghost predicate AttemptOk(s: Sys, env: Env, a: Attempt) {
    match a.place
    case None => !a.item.Mesh?
    case Some(place) => WasThere(s, place, a.epoch) && DueAt(s, env, place, a.epoch) == Some(a.item)
  }

  /** What is being sent is in order too. */
  ghost predicate PendingOk(s: Sys, env: Env) {
    var f := s.forwarder;
    && (f.Forwarding? ==> WasThere(s, f.place, f.epoch) && DueAt(s, env, f.place, f.epoch) == Some(f.item))
    && (f.Answering? ==> forall i :: 0 <= i < |f.todo| ==> !f.todo[i].Mesh?)
  }

  // One send for each packet that calls for one.

  /** The packets received that call for a send. */
  function DueReads(received: seq<Read>): seq<Read> {
    if received == [] then []
    else
      var n := |received| - 1;
      DueReads(received[..n]) + (if received[n].due then [received[n]] else [])
  }

  /** The packets that caused the sends. */
  function Causes(attempts: seq<Attempt>): seq<Read> {
    if attempts == [] then []
    else
      var n := |attempts| - 1;
      Causes(attempts[..n]) + Cause(attempts[n])
  }

  function Cause(a: Attempt): seq<Read> {
    match a.place
    case None => []
    case Some(place) => [Read(place, a.epoch, true)]
  }

  function InHand(f: Forwarder): seq<Read> {
    if f.Forwarding? then [Read(f.place, f.epoch, true)] else []
  }

  /** Every packet that calls for a send has caused exactly one, but for the one in hand. */
  ghost predicate OneSendEach(s: Sys) {
    DueReads(s.received) == Causes(s.attempts) + InHand(s.forwarder)
  }

  // The packets received, in order and without a gap that is not accounted for.

  predicate Increasing(entries: seq<Read>) {
    forall i, j :: 0 <= i < j < |entries| ==> entries[i].place < entries[j].place
  }

  /** Of the entries since `joined`, those before `next` have been received or missed. */
  ghost predicate AccountedFor(received: seq<Read>, since: nat, joined: nat, next: nat, lost: nat) {
    && joined <= next && since <= |received|
    && |received| - since + lost == next - joined
    && Below(received, next)
    && (forall i :: since <= i < |received| ==> joined <= received[i].place)
  }

  ghost predicate Below(received: seq<Read>, limit: nat) {
    forall i :: 0 <= i < |received| ==> received[i].place < limit
  }

  ghost predicate ReceivedInv(s: Sys) {
    && Increasing(s.received)
    && Below(s.received, |s.log|)
    && (!s.forwarder.Offline? ==>
          s.forwarder.conn.next <= |s.log|
          && AccountedFor(s.received, s.since, s.forwarder.conn.joined, s.forwarder.conn.next, s.lost))
  }

  ghost predicate ReadsOk(s: Sys, env: Env) {
    forall i :: 0 <= i < |s.received| ==> ReadOk(s, env, s.received[i])
  }

  ghost predicate AttemptsOk(s: Sys, env: Env) {
    forall i :: 0 <= i < |s.attempts| ==> AttemptOk(s, env, s.attempts[i])
  }

  ghost predicate ForwardInv(s: Sys, env: Env) {
    && ReadsOk(s, env)
    && AttemptsOk(s, env)
    && PendingOk(s, env)
    && OneSendEach(s)
    && ReceivedInv(s)
  }

  // What a step does to the account.

  /** The forwarder takes the next entry, in the terms of the specification. */
  lemma TakeStep(s: Sys, env: Env)
    requires ChannelInv(s) && DeliveryInv(s) && LockInv(s) && DatabaseInv(s, env) && Enabled(s, ForwarderTake, env)
    ensures var t, conn := ForwarderTakes(s), s.forwarder.conn;
            && (conn.next < s.start ==>
                  && t.forwarder == Notifying(conn.(next := s.start))
                  && t.received == s.received && t.lost == s.lost + (s.start - conn.next))
            && (conn.next >= s.start ==>
                  && WasThere(s, conn.next, AppliedCount(s))
                  && var due, conn' := DueAt(s, env, conn.next, AppliedCount(s)), conn.(next := conn.next + 1);
                     && t.forwarder == (match due
                                        case Some(item) => Forwarding(conn', item, AppliedCount(s), conn.next, None)
                                        case None => Idle(conn'))
                     && t.received == s.received + [Read(conn.next, AppliedCount(s), due.Some?)]
                     && t.lost == s.lost)
  {
    hide Fold, Lookup, Deliveries;
    TryLockSucceeds(s);
    AppliedIsPrefix(s);
  }

  lemma TakeChangesNoHistory(s: Sys, env: Env)
    requires Enabled(s, ForwarderTake, env)
    ensures var t := ForwarderTakes(s);
            t.log == s.log && t.delivered == s.delivered && t.attempts == s.attempts && t.since == s.since
            && AppliedCount(t) == AppliedCount(s) <= |s.delivered|
  {
    hide Lookup;
  }

  /** A send appends the item in hand, or the next item of the answer. */
  lemma SendStep(s: Sys, written: nat, env: Env)
    requires Enabled(s, Send(written), env)
    ensures var t, f := Next(s, Send(written), env), s.forwarder;
            && t.log == s.log && t.delivered == s.delivered && AppliedCount(t) == AppliedCount(s)
            && AppliedCount(s) <= |s.delivered|
            && t.received == s.received && t.since == s.since && t.lost == s.lost
            && |t.attempts| == |s.attempts| + 1 && t.attempts[..|s.attempts|] == s.attempts
            && var a := t.attempts[|s.attempts|];
               && (f.Forwarding? ==>
                     a.item == f.item && a.epoch == f.epoch && a.place == Some(f.place)
                     && t.forwarder == Idle(f.conn))
               && (f.Answering? ==>
                     f.todo != [] && a.item == f.todo[0] && a.place == None
                     && (t.forwarder.Answering? ==> t.forwarder.conn == f.conn && t.forwarder.todo == f.todo[1..]))
               && (t.forwarder.Answering? ==> f.Answering?) && !t.forwarder.Forwarding?
               && (f.Answering? ==> t.forwarder.Answering? || t.forwarder.Offline?)
               && (f.Forwarding? || f.Answering?)
  {
    hide WritesOf, Complete;
  }

  /** No other step receives or sends anything. */
  lemma QuietStep(s: Sys, step: Step, env: Env)
    requires Enabled(s, step, env) && !step.ForwarderTake? && !step.Send?
    ensures var t, f, g := Next(s, step, env), s.forwarder, Next(s, step, env).forwarder;
            && t.received == s.received && t.attempts == s.attempts
            && (g.Forwarding? <==> f.Forwarding?)
            && (f.Forwarding? ==> g.item == f.item && g.place == f.place && g.epoch == f.epoch)
            && (g.Offline? || step.Connect?
                || (!f.Offline? && g.conn.joined == f.conn.joined && g.conn.next == f.conn.next
                    && t.since == s.since && t.lost == s.lost))
            && (step.Connect? ==>
                  g.conn.joined == |s.log| && g.conn.next == |s.log| && t.since == |s.received| && t.lost == 0)
  {
    hide WritesOf, Complete, Received, Record, Lookup, NodeItems, Call;
  }

  lemma QuietTodo(s: Sys, step: Step, env: Env)
    requires Enabled(s, step, env) && !step.ForwarderTake? && !step.Send? && PendingOk(s, env)
    ensures var g := Next(s, step, env).forwarder;
            g.Answering? ==> forall i :: 0 <= i < |g.todo| ==> !g.todo[i].Mesh?
  {
    hide WritesOf, Complete, Received, Record, Lookup, NodeItems, Call, WasThere, DueAt;
    if step.TrySnapshot? && s.db.Some? {
      NodeItemsAreNodes(s.db.value);
    }
  }

  lemma LogGrows(s: Sys, step: Step, env: Env)
    requires Enabled(s, step, env)
    ensures s.log <= Next(s, step, env).log
  {
    hide WritesOf, Complete, Received, Record, Lookup, NodeItems, Call;
  }

  /** What was due stays due. */
  lemma DueStays(s: Sys, t: Sys, env: Env)
    requires s.log <= t.log && s.delivered <= t.delivered && AppliedCount(s) <= AppliedCount(t) <= |t.delivered|
    ensures forall r: Read :: ReadOk(s, env, r) ==> ReadOk(t, env, r)
    ensures forall a: Attempt :: AttemptOk(s, env, a) ==> AttemptOk(t, env, a)
    ensures forall place: nat, epoch: nat ::
              WasThere(s, place, epoch) ==>
                WasThere(t, place, epoch) && DueAt(t, env, place, epoch) == DueAt(s, env, place, epoch)
  {
    hide Fold, AppliedCount, DueItem;
    forall epoch: nat | epoch <= |s.delivered| ensures t.delivered[..epoch] == s.delivered[..epoch] {
    }
  }

  // Every step keeps it.

  lemma ForwardKept(s: Sys, step: Step, env: Env)
    requires ChannelInv(s) && DeliveryInv(s) && LockInv(s) && DatabaseInv(s, env) && ForwardInv(s, env)
    requires Enabled(s, step, env)
    ensures ForwardInv(Next(s, step, env), env)
  {
    hide Next, Enabled, DeliveryInv, LockInv, DatabaseInv, ForwardInv;
    match step {
      case ForwarderTake =>
        TakeKeepsForwards(s, env);
        TakeIsNext(s, env);
      case Send(written) =>
        SendKeepsForwards(s, written, env);
      case _ =>
        QuietKeepsForwards(s, step, env);
    }
  }

  lemma TakeIsNext(s: Sys, env: Env)
    requires Enabled(s, ForwarderTake, env)
    ensures Next(s, ForwarderTake, env) == ForwarderTakes(s)
  {
    hide ForwarderTakes;
  }

  lemma TakeKeepsForwards(s: Sys, env: Env)
    requires ChannelInv(s) && DeliveryInv(s) && LockInv(s) && DatabaseInv(s, env) && ForwardInv(s, env)
    requires Enabled(s, ForwarderTake, env)
    ensures ForwardInv(ForwarderTakes(s), env)
  {
    hide ForwarderTakes, DeliveryInv, LockInv, DatabaseInv, DueAt, AppliedCount, Causes, DueReads, WritesOf;
    hide Increasing, Below, AccountedFor, ReadOk, AttemptOk;
    var t, conn := ForwarderTakes(s), s.forwarder.conn;
    TakeStep(s, env);
    TakeChangesNoHistory(s, env);
    DueStays(s, t, env);
    hide Enabled;
    if conn.next >= s.start {
      var r := t.received[|s.received|];
      assert ReadOk(s, env, r) by { DueIsOk(s, env, r); }
      DueReadsSnoc(s.received, r);
      OneMoreReceived(s.received, s.since, conn.joined, conn.next, s.lost, r, |s.log|);
    } else {
      SomeLost(s.received, s.since, conn.joined, conn.next, s.lost, s.start);
    }
  }

  lemma DueIsOk(s: Sys, env: Env, r: Read)
    requires WasThere(s, r.place, r.epoch) && r.due == DueAt(s, env, r.place, r.epoch).Some?
    ensures ReadOk(s, env, r)
  {
  }

  lemma OneMoreReceived(received: seq<Read>, since: nat, joined: nat, next: nat, lost: nat, r: Read, limit: nat)
    requires Increasing(received) && AccountedFor(received, since, joined, next, lost)
    requires r.place == next < limit && Below(received, limit)
    ensures Increasing(received + [r]) && Below(received + [r], limit)
    ensures AccountedFor(received + [r], since, joined, next + 1, lost)
  {
  }

  lemma SomeLost(received: seq<Read>, since: nat, joined: nat, next: nat, lost: nat, start: nat)
    requires AccountedFor(received, since, joined, next, lost) && next <= start
    ensures AccountedFor(received, since, joined, start, lost + (start - next))
  {
  }

  lemma SendKeepsForwards(s: Sys, written: nat, env: Env)
    requires ForwardInv(s, env) && Enabled(s, Send(written), env)
    ensures ForwardInv(Next(s, Send(written), env), env)
  {
    hide Next, Enabled, DueAt, AppliedCount, Causes, DueReads, Increasing, Below, AccountedFor, ReadOk;
    var t := Next(s, Send(written), env);
    SendStep(s, written, env);
    DueStays(s, t, env);
    hide WasThere;
    var a := t.attempts[|s.attempts|];
    assert t.attempts == s.attempts + [a];
    assert AttemptOk(s, env, a);
    CausesSnoc(s.attempts, a);
    assert OneSendEach(t);
  }

  lemma QuietKeepsForwards(s: Sys, step: Step, env: Env)
    requires DeliveryInv(s) && ForwardInv(s, env) && Enabled(s, step, env) && !step.ForwarderTake? && !step.Send?
    requires s.start <= |s.log|
    ensures ForwardInv(Next(s, step, env), env)
  {
    hide Next, Enabled, WasThere, DueAt, Causes, DueReads, ReadOk, AttemptOk, AppliedPackets, AppliedCount, DeliveryInv;
    hide Increasing, AccountedFor;
    var t := Next(s, step, env);
    QuietStep(s, step, env);
    QuietTodo(s, step, env);
    LogGrows(s, step, env);
    HistoryGrows(s, step, env);
    AppliedIsPrefix(s);
    AppliedIsPrefix(t);
    DueStays(s, t, env);
    if step.Connect? {
      NothingMissedYet(s.received, |s.log|);
    }
  }

  lemma NothingMissedYet(received: seq<Read>, joined: nat)
    requires Below(received, joined)
    ensures AccountedFor(received, |received|, joined, joined, 0)
  {
  }

  lemma DueReadsSnoc(received: seq<Read>, r: Read)
    ensures DueReads(received + [r]) == DueReads(received) + (if r.due then [r] else [])
  {
    assert (received + [r])[..|received|] == received;
  }

  lemma CausesSnoc(attempts: seq<Attempt>, a: Attempt)
    ensures Causes(attempts + [a]) == Causes(attempts) + Cause(a)
  {
    assert (attempts + [a])[..|attempts|] == attempts;
  }

  // So the sends follow the log.

  lemma {:induction false} DueReadsIncrease(received: seq<Read>)
    requires Increasing(received)
    ensures Increasing(DueReads(received))
    ensures forall r :: r in DueReads(received) ==> r in received
  {
    if received != [] {
      var n := |received| - 1;
      DueReadsIncrease(received[..n]);
      forall r | r in DueReads(received[..n]) ensures r.place < received[n].place {
        assert r in received[..n];
      }
    }
  }

  /** Where the cause of an attempt stands among the causes. */
  lemma {:induction false} CauseAt(attempts: seq<Attempt>, i: nat)
    requires i < |attempts| && attempts[i].place.Some?
    ensures |Causes(attempts[..i])| < |Causes(attempts)|
    ensures Causes(attempts)[|Causes(attempts[..i])|] == Read(attempts[i].place.value, attempts[i].epoch, true)
  {
    var n := |attempts| - 1;
    if i < n {
      CauseAt(attempts[..n], i);
      assert attempts[..n][..i] == attempts[..i];
    }
  }

  /** The places of the packets sent for increase from send to send. */
  lemma SendsFollowTheLog(received: seq<Read>, attempts: seq<Attempt>, inHand: seq<Read>, i: nat, j: nat)
    requires Increasing(received) && DueReads(received) == Causes(attempts) + inHand
    requires i < j < |attempts| && attempts[i].place.Some? && attempts[j].place.Some?
    ensures attempts[i].place.value < attempts[j].place.value
  {
    CauseAt(attempts, i);
    CauseAt(attempts, j);
    CauseAt(attempts[..j], i);
    DueReadsIncrease(received);
    hide Causes, DueReads;
    assert attempts[..j][..i] == attempts[..i];
    var m, n := |Causes(attempts[..i])|, |Causes(attempts[..j])|;
    assert DueReads(received)[m] == Causes(attempts)[m] && DueReads(received)[n] == Causes(attempts)[n];
  }
}
