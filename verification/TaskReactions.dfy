/**
 What single steps of the step system do, told from outside: which packets from the radio are published
 and sent on, what the host's requests bring about, and what a failed send means.
 */
module TaskReactions {
  import opened Bytes
  import opened Options
  import opened Protobuf
  import opened Headers
  import opened Keys
  import opened Packets
  import opened TextMessages
  import opened NodeDatabases
  import opened FrameScan
  import opened FramePrinting
  import opened UsbSender
  import opened Tasks
  import opened TaskInvariants
  import opened TaskAnswers
  import opened TaskHost
  import opened TaskTheorems

  // From the radio.

  /** Any data message on the air under key 0x01 is published as one more packet that carries it, if
      anyone is subscribed; if the channel was full, its oldest packet is dropped for it. */
  lemma DataOnAirIsPublished(s: Sys, env: Env, h: Header, d: Data, encoded: seq<byte>, rssi: i16, snr: i16)
    requires s.db.Some? && 1 <= |encoded| <= 240 && env.decodeData(encoded) == Some(d)
    ensures ReceiveKey() == ChannelKeyFromBytes([0x01], 1).value
    ensures var step := Receive(AirFrame(h, encoded, ReceiveKey(), env.aes), rssi, snr);
            && Enabled(s, step, env)
            && var t := Next(s, step, env);
               && (s.processor.Starting? && s.forwarder.Offline? ==> t == s)
               && (!s.processor.Starting? || !s.forwarder.Offline? ==>
                     && |t.log| == |s.log| + 1 && t.log[..|s.log|] == s.log
                     && t.start == (if |s.log| - s.start == 8 then s.start + 1 else s.start)
                     && t == s.(log := t.log, start := t.start)
                     && var p := t.log[|s.log|];
                        && CarriesData(p, d) && SameHeader(p.header, h)
                        && p.rssi == WrapToI8(rssi) && p.snr == WrapToI8(snr))
  {
    hide Received, AirFrame, CarriesData, SameHeader, WrapToI8;
    DataIsReceived(h, d, encoded, ReceiveKey(), WrapToI8(rssi), WrapToI8(snr), env.decodeData, env.aes);
  }

  /** So a text reaches the channel word for word, as a text message. */
  lemma TextOnAirIsPublished(steps: seq<Step>, env: Env, h: Header, message: seq<byte>,
                             encode: Data -> seq<byte>, rssi: i16, snr: i16)
    requires Run(steps, env).Some? && Run(steps, env).value.db.Some?
    requires 1 <= |encode(TextData(message))| <= MAX_PAYLOAD && |message| <= |encode(TextData(message))|
    requires env.decodeData(encode(TextData(message))) == Some(TextData(message))
    ensures var s := Run(steps, env).value;
            var step := Receive(AirFrame(h, encode(TextData(message)), ReceiveKey(), env.aes), rssi, snr);
            && Enabled(s, step, env)
            && var t := Next(s, step, env);
               && t.log == (if Subscribed(s)
                            then s.log + [DecodedPacket(CarriedHeader(h), WrapToI8(rssi), WrapToI8(snr),
                                                        Owned(TextData(message)))]
                            else s.log)
               && (Subscribed(s) ==> IsPlainText(t.log[|s.log|], message))
  {
    hide Run, IsPlainText;
    TransmitThenReceive(h, message, ReceiveKey(), WrapToI8(rssi), WrapToI8(snr), encode, env.decodeData, env.aes);
    hide Received, AirFrame;
  }

  /** What does not parse, decrypt or decode is dropped; so is every frame without a payload. */
  lemma UnreadableIsDropped(s: Sys, env: Env, frame: seq<byte>, rssi: i16, snr: i16)
    requires s.db.Some?
    requires |frame| <= 16
             || Received(frame, WrapToI8(rssi), WrapToI8(snr), ReceiveKey(), env.decodeData, env.aes).None?
    ensures Next(s, Receive(frame, rssi, snr), env) == s
  {
    hide Headers.FromBytes, Decoded, WrapToI8;
  }

  // The forwarder and the packets it receives.

  /** A packet of one of the six kinds sent on is taken in hand for the host. */
  lemma SixKindsAreTaken(s: Sys, env: Env)
    requires s.forwarder.Idle? && s.start <= s.forwarder.conn.next < |s.log|
    requires s.log[s.forwarder.conn.next].PortNumber()
             in {Known(PositionApp), Known(TelemetryApp), Known(TextMessageApp),
                 Known(RoutingApp), Known(TracerouteApp), Known(NeighborinfoApp)}
    ensures Enabled(s, ForwarderTake, env)
    ensures var conn, place, epoch := s.forwarder.conn, s.forwarder.conn.next, AppliedCount(s);
            Next(s, ForwarderTake, env)
            == s.(forwarder := Forwarding(conn.(next := place + 1), Mesh(s.log[place]), epoch, place, None),
                  received := s.received + [Read(place, epoch, true)])
  {
    hide AppliedCount;
  }

  /** And reaches the port under the next id, if it can be encoded and the port takes its writes. */
  lemma SixKindsReachThePort(s: Sys, env: Env)
    requires s.forwarder.Idle? && s.start <= s.forwarder.conn.next < |s.log|
    requires s.log[s.forwarder.conn.next].PortNumber()
             in {Known(PositionApp), Known(TelemetryApp), Known(TextMessageApp),
                 Known(RoutingApp), Known(TracerouteApp), Known(NeighborinfoApp)}
    requires |env.encode(s.nextId, Mesh(s.log[s.forwarder.conn.next]))| <= 256
    ensures var conn, p := s.forwarder.conn, s.log[s.forwarder.conn.next];
            var message := env.encode(s.nextId, Mesh(p));
            var end := RunFrom(s, [ForwarderTake, DrawId, Send(|FrameWrites(message)|)], env);
            && end.Some?
            && end.value.forwarder == Idle(conn.(next := conn.next + 1))
            && |end.value.attempts| == |s.attempts| + 1
            && var a := end.value.attempts[|s.attempts|];
               && a.id == s.nextId && a.item == Mesh(p) && a.ok
               && end.value.events == s.events + [Sent(a)]
               && Flatten(EventWrites(env, Sent(a))) == Printed(message)
  {
    hide AppliedCount, FrameWrites, Printed, Enabled, Next, EventWrites, RunFrom;
    var message := env.encode(s.nextId, Mesh(s.log[s.forwarder.conn.next]));
    SixKindsAreTaken(s, env);
    var taken := Next(s, ForwarderTake, env);
    DrawThenSend(taken, env);
    ThreeSteps(s, ForwarderTake, DrawId, Send(|FrameWrites(message)|), env);
    var end := Next(Next(taken, DrawId, env), Send(|FrameWrites(message)|), env);
    AllWrites(env, s.nextId, taken.forwarder.item, end.attempts[|s.attempts|]);
  }

  lemma DrawThenSend(s: Sys, env: Env)
    requires s.forwarder.Forwarding? && s.forwarder.drawn.None? && !s.forwarder.item.DbNode?
    requires |env.encode(s.nextId, s.forwarder.item)| <= 256
    ensures Enabled(s, DrawId, env)
    ensures var drawn, f := Next(s, DrawId, env), s.forwarder;
            var n := |FrameWrites(env.encode(s.nextId, f.item))|;
            && Enabled(drawn, Send(n), env)
            && var a := Attempt(s.nextId, f.item, n, true, f.epoch, Some(f.place));
               var t := Next(drawn, Send(n), env);
               t.forwarder == Idle(f.conn) && t.attempts == s.attempts + [a] && t.events == s.events + [Sent(a)]
  {
    hide FrameWrites;
  }

  lemma AllWrites(env: Env, id: u32, item: Item, a: Attempt)
    requires a.id == id && a.item == item && |env.encode(id, item)| <= 256
    requires a.written == |FrameWrites(env.encode(id, item))|
    ensures Flatten(EventWrites(env, Sent(a))) == Printed(env.encode(id, item))
  {
    var writes := FrameWrites(env.encode(id, item));
    WritesArePrinted(env.encode(id, item));
    hide FrameWrites, Printed;
    assert writes[..|writes|] == writes;
  }

  lemma TwoSteps(s: Sys, a: Step, b: Step, env: Env)
    requires Enabled(s, a, env) && Enabled(Next(s, a, env), b, env)
    ensures RunFrom(s, [a, b], env) == Some(Next(Next(s, a, env), b, env))
  {
    hide Enabled, Next;
    assert [a, b][1..] == [b] && [b][1..] == [];
    assert RunFrom(Next(s, a, env), [b], env) == RunFrom(Next(Next(s, a, env), b, env), [], env);
  }

  lemma ThreeSteps(s: Sys, a: Step, b: Step, c: Step, env: Env)
    requires Enabled(s, a, env) && Enabled(Next(s, a, env), b, env)
    requires Enabled(Next(Next(s, a, env), b, env), c, env)
    ensures RunFrom(s, [a, b, c], env) == Some(Next(Next(Next(s, a, env), b, env), c, env))
  {
    hide Enabled, Next;
    TwoSteps(Next(s, a, env), b, c, env);
    assert [a, b, c][1..] == [b, c];
  }

  /** Of any other kind, unless it is node info, it is passed over. */
  lemma OtherKindsArePassedOver(s: Sys, env: Env)
    requires s.forwarder.Idle? && s.start <= s.forwarder.conn.next < |s.log|
    requires var port := s.log[s.forwarder.conn.next].PortNumber(); port.Unknown? || port.value.OtherApp?
    ensures Enabled(s, ForwarderTake, env)
    ensures var conn, place := s.forwarder.conn, s.forwarder.conn.next;
            Next(s, ForwarderTake, env)
            == s.(forwarder := Idle(conn.(next := place + 1)),
                  received := s.received + [Read(place, AppliedCount(s), false)])
  {
    hide AppliedCount;
  }

  /** For node info the sender's node is taken in hand, with the database locked, if it is there. */
  lemma NodeInfoIsLookedUp(steps: seq<Step>, env: Env)
    requires Run(steps, env).Some? && Enabled(Run(steps, env).value, ForwarderTake, env)
    requires var s := Run(steps, env).value;
             s.start <= s.forwarder.conn.next
             && s.log[s.forwarder.conn.next].PortNumber() == Known(NodeinfoApp)
    ensures var s, t := Run(steps, env).value, Next(Run(steps, env).value, ForwarderTake, env);
            var source := s.log[s.forwarder.conn.next].header.source;
            && s.db.Some?
            && t.forwarder.conn == s.forwarder.conn.(next := s.forwarder.conn.next + 1)
            && if exists i :: 0 <= i < |s.db.value| && s.db.value[i].num == source
               then t.forwarder.Forwarding? && t.lock.ByForwarder?
                    && t.forwarder.item.DbNode? && t.forwarder.item.node in s.db.value
                    && t.forwarder.item.node.num == source
               else t.forwarder.Idle? && t.lock.Free?
                    && t.received == s.received + [Read(s.forwarder.conn.next, AppliedCount(s), false)]
  {
    var s := Run(steps, env).value;
    assert ChannelInv(s) && LockInv(s) by { RunKeepsInv(steps, env); }
    hide Run, ChannelInv, LockInv, AppliedCount, WritesOf, Lookup;
    TryLockSucceeds(s);
    LookupIsFound(s.db.value, s.log[s.forwarder.conn.next].header.source);
  }

  /** A forwarder that has lagged tells the host, and goes on with the oldest packet left. */
  lemma LagIsNoticed(s: Sys, env: Env, taken: bool)
    requires s.forwarder.Idle? && s.forwarder.conn.next < s.start <= |s.log| && s.forwarder.conn.next < |s.log|
    ensures var conn := s.forwarder.conn;
            var end := RunFrom(s, [ForwarderTake, Notify(taken)], env);
            && end.Some?
            && end.value == s.(forwarder := Idle(conn.(next := s.start)),
                               lost := s.lost + (s.start - conn.next), events := s.events + [Notice(taken)])
    ensures |LAG_NOTICE| == |"[PACKET FORWARDER LAGGED]\n"|
    ensures forall i :: 0 <= i < |LAG_NOTICE| ==> LAG_NOTICE[i] == "[PACKET FORWARDER LAGGED]\n"[i] as int
    ensures EventWrites(env, Notice(true)) == [LAG_NOTICE] && EventWrites(env, Notice(false)) == []
  {
    hide RunFrom, AppliedCount, WritesOf;
    TwoSteps(s, ForwarderTake, Notify(taken), env);
    assert Next(s, ForwarderTake, env).forwarder == Notifying(s.forwarder.conn.(next := s.start));
  }

  /** So does a processor that has lagged, silently. */
  lemma LaggingProcessorGoesOn(s: Sys, env: Env)
    requires s.processor.Waiting? && s.processor.next < s.start && s.processor.next < |s.log|
    ensures Enabled(s, ProcessorTake, env)
    ensures Next(s, ProcessorTake, env)
            == s.(processor := Waiting(s.start), missed := s.missed + (s.start - s.processor.next))
  {
  }

  /** A new subscriber receives what is published from then on; a new connection starts with an idle
      framer and a zeroed buffer. */
  lemma SubscribersStartAtTheEnd(s: Sys, env: Env)
    ensures Enabled(s, ProcessorSubscribe, env) ==>
              Next(s, ProcessorSubscribe, env).processor == Waiting(|s.log|)
    ensures Enabled(s, Connect, env) ==>
              && Next(s, Connect, env).forwarder.Idle?
              && var conn := Next(s, Connect, env).forwarder.conn;
                 && conn.next == |s.log| && conn.residue == []
                 && |conn.buf| == 64 && forall i :: 0 <= i < 64 ==> conn.buf[i] == 0
  {
  }

  // The host.

  /** What a message from the host brings about. A request for the configuration starts an answer; a
      heartbeat and any request not supported change nothing; a message that does not decode ends the
      connection. */
  ghost predicate HandlesMessage(s: Sys, t: Sys, conn: Connection, message: seq<byte>, env: Env) {
    match env.decodeToRadio(message)
    case None =>
      t == s.(forwarder := Offline)
    case Some(WantConfigId(configId)) =>
      t == s.(forwarder := Answering(conn, Greeting, [MyInfo, OwnNode], None),
              answers := s.answers + [Answer(configId, |s.attempts|, |s.attempts|, None, 0, Running)])
    case Some(Heartbeat) =>
      t == s.(forwarder := Idle(conn))
    case Some(OtherRequest) =>
      t == s.(forwarder := Idle(conn))
  }

  /** A read puts its bytes at the front of the buffer, and the framer gets the buffer with what it held
      behind them. Without a message nothing happens but that the framer has moved on. */
  lemma ReadIsHandled(s: Sys, env: Env, data: seq<byte>)
    requires s.forwarder.Idle? && |s.forwarder.conn.buf| == 64 && |data| <= 64
    ensures Enabled(s, UsbRead(data), env)
    ensures var t, conn := Next(s, UsbRead(data), env), s.forwarder.conn;
            var buf := data + conn.buf[|data|..];
            match Scan(conn.residue + buf)
            case Pending(residue) => t == s.(forwarder := Idle(conn.(buf := buf, residue := residue)))
            case Frame(message, _) => HandlesMessage(s, t, conn.(buf := buf, residue := []), message, env)
  {
    hide Scan;
  }

  /** A message that fits one transfer is handled on the spot, whatever stale bytes fill the buffer behind it. */
  lemma MessageInOneTransfer(steps: seq<Step>, env: Env, message: seq<byte>)
    requires Run(steps, env).Some? && Run(steps, env).value.forwarder.Idle?
    requires var residue := Run(steps, env).value.forwarder.conn.residue; residue == [] || residue == [0x94]
    requires 1 <= |message| <= 60
    ensures var s := Run(steps, env).value;
            && Enabled(s, UsbRead(Printed(message)), env)
            && |Printed(message)| <= |s.forwarder.conn.buf|
            && var buf := Printed(message) + s.forwarder.conn.buf[|Printed(message)|..];
               HandlesMessage(s, Next(s, UsbRead(Printed(message)), env),
                              s.forwarder.conn.(buf := buf, residue := []), message, env)
  {
    var s := Run(steps, env).value;
    assert ConnectionInv(s) by { RunKeepsInv(steps, env); }
    assert |Printed(message)| <= 64;
    hide Run, Next, Enabled, Printed, HandlesMessage;
    ReadIsHandled(s, env, Printed(message));
    var stale := s.forwarder.conn.buf[|Printed(message)|..];
    FrameInOneRead(s.forwarder.conn.residue, message, stale);
  }

  /** So a request for the configuration starts its answer. */
  lemma RequestStartsAnswer(steps: seq<Step>, env: Env, message: seq<byte>, configId: u32)
    requires Run(steps, env).Some? && Run(steps, env).value.forwarder.Idle?
    requires var residue := Run(steps, env).value.forwarder.conn.residue; residue == [] || residue == [0x94]
    requires 1 <= |message| <= 60 && env.decodeToRadio(message) == Some(WantConfigId(configId))
    ensures var s := Run(steps, env).value;
            && Enabled(s, UsbRead(Printed(message)), env)
            && var t := Next(s, UsbRead(Printed(message)), env);
               && t.forwarder.Answering? && t.forwarder.todo == [MyInfo, OwnNode]
               && t.forwarder.conn.residue == []
               && t.answers == s.answers + [Answer(configId, |s.attempts|, |s.attempts|, None, 0, Running)]
  {
    hide Run, Next, Enabled, Printed;
    MessageInOneTransfer(steps, env, message);
  }

  // Sends.

  /** A send in an answer that is not complete ends the connection and the answer, and frees the database. */
  lemma FailedAnswerDisconnects(steps: seq<Step>, env: Env, written: nat)
    requires Run(steps, env).Some? && Enabled(Run(steps, env).value, Send(written), env)
    requires Run(steps, env).value.forwarder.Answering?
    ensures var s, t := Run(steps, env).value, Next(Run(steps, env).value, Send(written), env);
            var f := s.forwarder;
            var message := env.encode(f.drawn.value, f.todo[0]);
            && |t.answers| == |s.answers| > 0
            && if |message| <= 256 && written == |FrameWrites(message)|
               then t.forwarder == f.(todo := f.todo[1..], drawn := None) && t.lock == s.lock
               else t.forwarder == Offline && t.lock.Free? && LastAnswer(t).outcome.Broken?
  {
    var s := Run(steps, env).value;
    assert LockInv(s) by { RunKeepsInv(steps, env); }
    hide Run, FrameWrites;
  }

  /** A send outside an answer leaves the connection as it was and the database free, whether it failed or not. */
  lemma FailedForwardKeepsConnection(steps: seq<Step>, env: Env, written: nat)
    requires Run(steps, env).Some? && Enabled(Run(steps, env).value, Send(written), env)
    requires Run(steps, env).value.forwarder.Forwarding?
    ensures var s, t := Run(steps, env).value, Next(Run(steps, env).value, Send(written), env);
            t.forwarder == Idle(s.forwarder.conn) && t.lock.Free? && t.answers == s.answers
  {
    var s := Run(steps, env).value;
    assert LockInv(s) by { RunKeepsInv(steps, env); }
    hide Run, WritesOf, Complete;
  }
}
