/**
 The tasks of nrf/src/main.rs as one step system: the radio loop that publishes, the broadcast
 channel, the processor that writes the database, and the forwarder that talks to the USB host. The
 tasks share one cooperative executor, so another task may step exactly where the source awaits, and
 the spawned tasks do not start before the radio loop, which has no wait in between, has initialised
 the database.

 What is taken from the runtime's documentation: a publication with no subscriber is lost; a
 publication into a full channel of eight drops the oldest entry; a subscriber that misses entries is
 told how many and goes on with the oldest one left; an entry every subscriber has read may be freed;
 a mutex has one holder.
 */
module Tasks {
  import opened Bytes
  import opened Options
  import opened Protobuf
  import opened Packets
  import opened Keys
  import opened TextMessages
  import opened Nodes
  import opened NodeDatabases
  import opened FrameStreams
  import opened UsbSender
  import opened PacketIds

  const CHANNEL_CAPACITY: nat := 8
  const OWN_NUMBER: u32 := 0xDEAD_BEEF
  const USB_BUFFER: nat := 64

  /** What a host may ask for. */
  datatype ToRadio = WantConfigId(configId: u32) | Heartbeat | OtherRequest

  /** The code the tasks call and this system leaves open. */
  datatype Env = Env(
    decoders: Decoders,
    decodeData: seq<byte> -> Option<Data>,
    decodeToRadio: seq<byte> -> Option<ToRadio>,
    encode: Encoder,
    aes: Aes)

  /** The encoder of outgoing messages: a packet id and what to send. */
  type Encoder = (u32, Item) -> seq<byte>

  /** What the forwarder sends, apart from the packet id. */
  datatype Item =
    | MyInfo
    | OwnNode
    | DbNode(node: NodeInfo)
    | ConfigItem
    | ModuleConfigItem
    | ChannelItem
    | ConfigComplete(configId: u32)
    | Mesh(packet: DecodedPacket)

  /** One send of the forwarder: the id and item, how many of its USB writes were taken, and whether
      that was all of them. The epoch of a node is the number of packets the database had seen when it
      was read; a forwarded item has the place in the log of the packet that caused it. */
  datatype Attempt = Attempt(id: u32, item: Item, written: nat, ok: bool, epoch: nat, place: Option<nat>)

  /** One packet the forwarder received: its place in the log, how many packets the database had seen by
      then, and whether something is sent for it. */
  datatype Read = Read(place: nat, epoch: nat, due: bool)

  /** What reaches the USB port of a connection. */
  datatype Event = Sent(attempt: Attempt) | Notice(taken: bool)

  datatype Processor =
    | Starting
    | Waiting(next: nat)
    | Taken(next: nat)     // holds a packet, waits for the database

  datatype Connection = Connection(joined: nat, next: nat, buf: seq<byte>, residue: seq<byte>)

  datatype Phase = Greeting | Listing | Closing

  datatype Forwarder =
    | Offline
    | Idle(conn: Connection)
    | Notifying(conn: Connection)
    | Forwarding(conn: Connection, item: Item, epoch: nat, place: nat, drawn: Option<u32>)
    | Answering(conn: Connection, phase: Phase, todo: seq<Item>, drawn: Option<u32>)

  /** Who holds the database across an await. */
  datatype Holder = Free | ByForwarder

  datatype Outcome = Running | Finished | Broken

  /** One config request: where its sends are in the log of attempts, and what it listed. */
  datatype Answer = Answer(
    configId: u32,
    from: nat,
    upTo: nat,
    listed: Option<seq<NodeInfo>>,
    epoch: nat,
    outcome: Outcome)

  datatype Sys = Sys(
    // the channel: everything it ever held, and the oldest entry it still holds
    log: seq<DecodedPacket>,
    start: nat,
    // the database behind its mutex
    db: Option<seq<NodeInfo>>,
    lock: Holder,
    nextId: u32,
    processor: Processor,
    forwarder: Forwarder,
    // history: what the processor received, from where in the log, and what it missed
    joined: nat,
    delivered: seq<DecodedPacket>,
    positions: seq<nat>,
    missed: nat,
    // history: what the forwarder received, all in all and since it connected last, and what it missed since
    received: seq<Read>,
    since: nat,
    lost: nat,
    // history: what the forwarder sent, all in all and since it connected last
    attempts: seq<Attempt>,
    answers: seq<Answer>,
    sentBefore: nat,
    events: seq<Event>)

  datatype Step =
    | Initialize
    | Receive(frame: seq<byte>, rssi: i16, snr: i16)
    | Reclaim
    | ProcessorSubscribe
    | ProcessorTake
    | ProcessorApply
    | Connect
    | UsbRead(data: seq<byte>)
    | ForwarderTake
    | Notify(taken: bool)
    | DrawId
    | Send(written: nat)
    | TrySnapshot
    | EndListing
    | EndAnswer

  function Initial(): Sys {
    Sys([], 0, None, Free, 1, Starting, Offline, 0, [], [], 0, [], 0, 0, [], [], 0, [])
  }

  // The channel.

  predicate Subscribed(s: Sys) {
    !s.processor.Starting? || !s.forwarder.Offline?
  }

  /** Every live subscriber has read the oldest entry. */
  predicate OldestRead(s: Sys) {
    && (s.processor.Starting? || s.processor.next > s.start)
    && (s.forwarder.Offline? || s.forwarder.conn.next > s.start)
  }

  /** `publish_immediate`. */
  function Published(s: Sys, p: DecodedPacket): Sys {
    if !Subscribed(s) then s
    else
      s.(log := s.log + [p],
         start := if |s.log| - s.start == CHANNEL_CAPACITY then s.start + 1 else s.start)
  }

  // What an answer consists of.

  /** The nodes listed to the host: all but the device's own, in slot order. */
  function NodeItems(nodes: seq<NodeInfo>): seq<Item> {
    if nodes == [] then []
    else
      var n := |nodes| - 1;
      NodeItems(nodes[..n]) + (if nodes[n].num != OWN_NUMBER then [DbNode(nodes[n])] else [])
  }

  const GREETING: seq<Item> := [MyInfo, OwnNode]

  function Farewell(configId: u32): seq<Item> {
    [ConfigItem, ModuleConfigItem, ChannelItem, ConfigComplete(configId)]
  }

  function ListedItems(listed: Option<seq<NodeInfo>>): seq<Item> {
    match listed
    case Some(nodes) => NodeItems(nodes)
    case None => []
  }

  /** The one burst that answers a request. */
  function Canonical(configId: u32, listed: Option<seq<NodeInfo>>): seq<Item> {
    GREETING + ListedItems(listed) + Farewell(configId)
  }

  predicate ForwardedAsIs(port: EnumValue<PortNum>) {
    port.Known? && (port.value.PositionApp? || port.value.TelemetryApp? || port.value.TextMessageApp?
                    || port.value.RoutingApp? || port.value.TracerouteApp? || port.value.NeighborinfoApp?)
  }

  // The processor's history.

  predicate HoldsPacket(p: Processor) {
    p.Taken?
  }

  /** How many of the delivered packets have been written to the database. */
  function AppliedCount(s: Sys): nat {
    if HoldsPacket(s.processor) && s.delivered != [] then |s.delivered| - 1 else |s.delivered|
  }

  // The steps.

  function WithLast(answers: seq<Answer>, a: Answer): seq<Answer>
    requires answers != []
  {
    answers[..|answers| - 1] + [a]
  }

  function LastAnswer(s: Sys): Answer
    requires s.answers != []
  {
    s.answers[|s.answers| - 1]
  }

  /** Everything of the current phase of an answer has been sent. */
  predicate AtPhaseEnd(s: Sys) {
    s.forwarder.Answering? && s.forwarder.todo == [] && s.answers != []
  }

  /** The USB writes of an item under an id, if it can be encoded. */
  function WritesOf(env: Env, id: u32, item: Item): seq<seq<byte>> {
    var m := env.encode(id, item);
    if |m| <= ENCODE_BUFFER then FrameWrites(m) else []
  }

  predicate Complete(env: Env, id: u32, item: Item, written: nat) {
    |env.encode(id, item)| <= ENCODE_BUFFER && written == |WritesOf(env, id, item)|
  }

  predicate Enabled(s: Sys, step: Step, env: Env) {
    match step
    case Initialize => s.db.None?
    case Receive(_, _, _) => s.db.Some?
    case Reclaim => s.start < |s.log| && OldestRead(s)
    case ProcessorSubscribe => s.db.Some? && s.processor.Starting?
    case ProcessorTake => s.processor.Waiting? && s.processor.next < |s.log|
    case ProcessorApply => s.processor.Taken? && s.lock.Free? && s.delivered != []
    case Connect => s.db.Some? && s.forwarder.Offline?
    case UsbRead(data) => s.forwarder.Idle? && |data| <= USB_BUFFER && |s.forwarder.conn.buf| == USB_BUFFER
    case ForwarderTake => s.forwarder.Idle? && s.forwarder.conn.next < |s.log|
    case Notify(_) => s.forwarder.Notifying?
    case DrawId =>
      (s.forwarder.Forwarding? && s.forwarder.drawn.None?)
      || (s.forwarder.Answering? && s.forwarder.todo != [] && s.forwarder.drawn.None?)
    case Send(written) =>
      (s.forwarder.Forwarding? && s.forwarder.drawn.Some?
       && written <= |WritesOf(env, s.forwarder.drawn.value, s.forwarder.item)|)
      || (s.forwarder.Answering? && s.forwarder.todo != [] && s.forwarder.drawn.Some? && s.answers != []
          && written <= |WritesOf(env, s.forwarder.drawn.value, s.forwarder.todo[0])|)
    case TrySnapshot => AtPhaseEnd(s) && s.forwarder.phase.Greeting?
    case EndListing => AtPhaseEnd(s) && s.forwarder.phase.Listing?
    case EndAnswer => AtPhaseEnd(s) && s.forwarder.phase.Closing?
  }

  function Next(s: Sys, step: Step, env: Env): Sys
    requires Enabled(s, step, env)
  {
    match step
    case Initialize => s.(db := Some([]))
    case Receive(frame, rssi, snr) =>
      (match Received(frame, WrapToI8(rssi), WrapToI8(snr), ReceiveKey(), env.decodeData, env.aes)
       case Some(p) => Published(s, p)
       case None => s)
    case Reclaim => s.(start := s.start + 1)
    case ProcessorSubscribe => s.(processor := Waiting(|s.log|), joined := |s.log|)
    case ProcessorTake => ProcessorTakes(s)
    case ProcessorApply =>
      s.(processor := Waiting(s.processor.next),
         db := match s.db
               case Some(nodes) => Some(Record(nodes, s.delivered[|s.delivered| - 1], env.decoders))
               case None => None)
    case Connect =>
      s.(forwarder := Idle(Connection(|s.log|, |s.log|, Zeros(USB_BUFFER), [])),
         since := |s.received|, lost := 0, sentBefore := |s.attempts|, events := [])
    case UsbRead(data) => ForwarderReads(s, data, env)
    case ForwarderTake => ForwarderTakes(s)
    case Notify(taken) => s.(forwarder := Idle(s.forwarder.conn), events := s.events + [Notice(taken)])
    case DrawId => s.(nextId := Successor(s.nextId), forwarder := s.forwarder.(drawn := Some(s.nextId)))
    case Send(written) => if s.forwarder.Forwarding? then ForwardSent(s, written, env) else AnswerSent(s, written, env)
    case TrySnapshot => Snapshot(s)
    case EndListing =>
      s.(lock := Free,
         forwarder := s.forwarder.(phase := Closing, todo := Farewell(LastAnswer(s).configId)))
    case EndAnswer =>
      s.(forwarder := Idle(s.forwarder.conn), answers := WithLast(s.answers, LastAnswer(s).(outcome := Finished)))
  }

  function ReceiveKey(): ChannelKey {
    AES128(DEFAULT_KEY[15 := 0x01])
  }

  /** `next_message` of the processor: either it has lagged, or it gets the next packet. */
  function ProcessorTakes(s: Sys): Sys
    requires s.processor.Waiting? && s.processor.next < |s.log|
  {
    var next := s.processor.next;
    if next < s.start then
      s.(processor := Waiting(s.start), missed := s.missed + (s.start - next))
    else
      s.(processor := Taken(next + 1), delivered := s.delivered + [s.log[next]], positions := s.positions + [next])
  }

  /** A USB read overwrites the front of the buffer; the framer gets the whole buffer either way. */
  function ForwarderReads(s: Sys, data: seq<byte>, env: Env): Sys
    requires s.forwarder.Idle? && |data| <= |s.forwarder.conn.buf|
  {
    var conn := s.forwarder.conn;
    var buf := data + conn.buf[|data|..];
    var (packet, residue) := Call(conn.residue, buf);
    var conn' := conn.(buf := buf, residue := residue);
    if packet.None? then s.(forwarder := Idle(conn'))
    else
      match env.decodeToRadio(packet.value)
      case None => s.(forwarder := Offline)
      case Some(WantConfigId(configId)) =>
        s.(forwarder := Answering(conn', Greeting, GREETING, None),
           answers := s.answers + [Answer(configId, |s.attempts|, |s.attempts|, None, 0, Running)])
      case Some(_) => s.(forwarder := Idle(conn'))
  }

  /** The node the forwarder looks up for a node-info packet, if the lock and the database are there. */
  function Found(s: Sys, packet: DecodedPacket): Option<NodeInfo> {
    if s.lock.Free? && s.db.Some? then Lookup(s.db.value, packet.header.source) else None
  }

  /** `next_message` of the forwarder, and what it does with the packet. */
  function ForwarderTakes(s: Sys): Sys
    requires s.forwarder.Idle? && s.forwarder.conn.next < |s.log|
  {
    var conn, place := s.forwarder.conn, s.forwarder.conn.next;
    if place < s.start then
      s.(forwarder := Notifying(conn.(next := s.start)), lost := s.lost + (s.start - place))
    else
      var packet, conn', epoch := s.log[place], conn.(next := place + 1), AppliedCount(s);
      if packet.PortNumber() == Known(NodeinfoApp) then
        match Found(s, packet)
        case None => s.(forwarder := Idle(conn'), received := s.received + [Read(place, epoch, false)])
        case Some(node) =>
          s.(lock := ByForwarder,
             forwarder := Forwarding(conn', DbNode(node), epoch, place, None),
             received := s.received + [Read(place, epoch, true)])
      else if ForwardedAsIs(packet.PortNumber()) then
        s.(forwarder := Forwarding(conn', Mesh(packet), epoch, place, None),
           received := s.received + [Read(place, epoch, true)])
      else s.(forwarder := Idle(conn'), received := s.received + [Read(place, epoch, false)])
  }

  /** A send outside an answer: a failure is only logged. */
  function ForwardSent(s: Sys, written: nat, env: Env): Sys
    requires s.forwarder.Forwarding? && s.forwarder.drawn.Some?
  {
    var f := s.forwarder;
    var ok := Complete(env, f.drawn.value, f.item, written);
    var attempt := Attempt(f.drawn.value, f.item, written, ok, f.epoch, Some(f.place));
    s.(attempts := s.attempts + [attempt],
       events := s.events + [Sent(attempt)],
       lock := if f.item.DbNode? then Free else s.lock,
       forwarder := Idle(f.conn))
  }

  /** A send of an answer: a failure ends the connection and gives up whatever is held. */
  function AnswerSent(s: Sys, written: nat, env: Env): Sys
    requires s.forwarder.Answering? && s.forwarder.todo != [] && s.forwarder.drawn.Some? && s.answers != []
  {
    var f, a := s.forwarder, LastAnswer(s);
    var ok := Complete(env, f.drawn.value, f.todo[0], written);
    var attempt := Attempt(f.drawn.value, f.todo[0], written, ok, a.epoch, None);
    var a' := a.(upTo := a.upTo + 1, outcome := if ok then a.outcome else Broken);
    s.(attempts := s.attempts + [attempt],
       events := s.events + [Sent(attempt)],
       answers := WithLast(s.answers, a'),
       lock := if !ok && f.phase.Listing? then Free else s.lock,
       forwarder := if ok then f.(todo := f.todo[1..], drawn := None) else Offline)
  }

  /** `try_lock` after the greeting: with the database in hand its nodes are listed, else none are. */
  function Snapshot(s: Sys): Sys
    requires s.forwarder.Answering? && s.answers != []
  {
    var f, a := s.forwarder, LastAnswer(s);
    if s.lock.Free? && s.db.Some? then
      s.(lock := ByForwarder,
         answers := WithLast(s.answers, a.(listed := s.db, epoch := AppliedCount(s))),
         forwarder := f.(phase := Listing, todo := NodeItems(s.db.value)))
    else
      s.(forwarder := f.(phase := Closing, todo := Farewell(a.configId)))
  }

  // Runs.

  /** The state after a run, if every step of it was possible. */
  function Run(steps: seq<Step>, env: Env): Option<Sys> {
    if steps == [] then Some(Initial())
    else
      match Run(steps[..|steps| - 1], env)
      case None => None
      case Some(s) =>
        var step := steps[|steps| - 1];
        if Enabled(s, step, env) then Some(Next(s, step, env)) else None
  }
}
