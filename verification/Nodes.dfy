/** The stored form of nodes and the conversions from and to protobuf: meshtassy-net/src/node_database.rs
    and `create_node_info_packet_from_db` in nrf/src/main.rs. */
module Nodes {
  import opened Bytes
  import opened Options
  import opened Protobuf
  import opened Names

  const LONG_NAME: nat := 40
  const SHORT_NAME: nat := 4

  type LongName = s: string | ByteLength(s) <= LONG_NAME
  type ShortName = s: string | ByteLength(s) <= SHORT_NAME

  datatype User = User(
    longName: LongName,
    shortName: ShortName,
    hwModel: EnumValue<nat>,
    role: EnumValue<nat>,
    isLicensed: bool)

  datatype Position = Position(
    latitudeI: i32,
    longitudeI: i32,
    altitude: i32,
    time: u32,
    locationSource: EnumValue<nat>)

  datatype DeviceMetrics = DeviceMetrics(
    batteryLevel: u32,
    voltage: real,
    channelUtilization: real,
    airUtilTx: real,
    uptimeSeconds: u32)

  datatype NodeInfo = NodeInfo(
    num: u32,
    user: Option<User>,
    position: Option<Position>,
    snr: real,
    lastHeard: u32,
    deviceMetrics: Option<DeviceMetrics>)

  /** A node nothing is known of but its number. */
  function NewNode(num: u32): NodeInfo {
    NodeInfo(num, None, None, 0.0, 0, None)
  }

  function OrElse<T>(o: Option<T>, default: T): T {
    match o
    case Some(v) => v
    case None => default
  }

  function StoredUser(pb: PbUser): User {
    User(Stored(pb.longName, LONG_NAME), Stored(pb.shortName, SHORT_NAME), pb.hwModel, pb.role, pb.isLicensed)
  }

  /** `User::from_protobuf`. */
  method UserFromProtobuf(pb: PbUser) returns (user: User)
    ensures user == StoredUser(pb)
    ensures user.longName == Stored(pb.longName, 40) && user.shortName == Stored(pb.shortName, 4)
    ensures user.hwModel == pb.hwModel && user.role == pb.role && user.isLicensed == pb.isLicensed
    ensures user.longName == pb.longName <==> ByteLength(pb.longName) <= 40
    ensures user.shortName == pb.shortName <==> ByteLength(pb.shortName) <= 4
  {
    var longName := StoreName(pb.longName, LONG_NAME);
    var shortName := StoreName(pb.shortName, SHORT_NAME);
    StoredUnchangedIff(pb.longName, LONG_NAME);
    StoredUnchangedIff(pb.shortName, SHORT_NAME);
    user := User(longName, shortName, pb.hwModel, pb.role, pb.isLicensed);
  }

  /** `Position::from_protobuf`. */
  function StoredPosition(pb: PbPosition): Position {
    Position(OrElse(pb.latitudeI, 0), OrElse(pb.longitudeI, 0), OrElse(pb.altitude, 0), pb.time, pb.locationSource)
  }

  /** `DeviceMetrics::from_protobuf`: none for any other kind of telemetry. */
  function StoredMetrics(pb: PbTelemetry): Option<DeviceMetrics> {
    match pb.variant
    case Some(DeviceMetricsVariant(dm)) =>
      Some(DeviceMetrics(OrElse(dm.batteryLevel, 0), OrElse(dm.voltage, 0.0), OrElse(dm.channelUtilization, 0.0),
                         OrElse(dm.airUtilTx, 0.0), OrElse(dm.uptimeSeconds, 0)))
    case _ => None
  }

  /** `NodeInfo::from_protobuf`. */
  function StoredNode(pb: PbNodeInfo, source: u32): NodeInfo {
    NodeInfo(
      source,
      match pb.user case Some(u) => Some(StoredUser(u)) case None => None,
      match pb.position case Some(p) => Some(StoredPosition(p)) case None => None,
      pb.snr, pb.lastHeard, None)
  }

  // Field by field.

  /** A position keeps time and source; a coordinate that is absent becomes zero. */
  lemma PositionFields(pb: PbPosition)
    ensures var p := StoredPosition(pb);
            && p.latitudeI == (if pb.latitudeI == None then 0 else pb.latitudeI.value)
            && p.longitudeI == (if pb.longitudeI == None then 0 else pb.longitudeI.value)
            && p.altitude == (if pb.altitude == None then 0 else pb.altitude.value)
            && p.time == pb.time && p.locationSource == pb.locationSource
  {
  }

  /** Telemetry gives device metrics exactly if it is of that variant, with zero for what is absent. */
  lemma MetricsFields(pb: PbTelemetry)
    ensures StoredMetrics(pb).Some? <==> pb.variant.Some? && pb.variant.value.DeviceMetricsVariant?
    ensures StoredMetrics(pb).Some? ==>
              var m, dm := StoredMetrics(pb).value, pb.variant.value.metrics;
              && m.batteryLevel == (if dm.batteryLevel == None then 0 else dm.batteryLevel.value)
              && m.voltage == (if dm.voltage == None then 0.0 else dm.voltage.value)
              && m.channelUtilization == (if dm.channelUtilization == None then 0.0 else dm.channelUtilization.value)
              && m.airUtilTx == (if dm.airUtilTx == None then 0.0 else dm.airUtilTx.value)
              && m.uptimeSeconds == (if dm.uptimeSeconds == None then 0 else dm.uptimeSeconds.value)
  {
  }

  /** A node is stored under the number of who sent it, not the one it names, and without metrics; it
      has a user or a position exactly if the message has. */
  lemma NodeFields(pb: PbNodeInfo, source: u32)
    ensures var node := StoredNode(pb, source);
            && node.num == source && node.snr == pb.snr && node.lastHeard == pb.lastHeard
            && node.deviceMetrics == None
            && (node.user == None <==> pb.user == None)
            && (pb.user.Some? ==> node.user == Some(StoredUser(pb.user.value)))
            && (node.position == None <==> pb.position == None)
            && (pb.position.Some? ==> node.position == Some(StoredPosition(pb.position.value)))
  {
  }

  function OutgoingUser(u: User): PbUser {
    PbUser("", u.longName, u.shortName, u.hwModel, u.isLicensed, u.role, Some(false))
  }

  function OutgoingPosition(p: Position): PbPosition {
    PbPosition(Some(p.latitudeI), Some(p.longitudeI), Some(p.altitude), p.time, p.locationSource)
  }

  function OutgoingMetrics(m: DeviceMetrics): PbDeviceMetrics {
    PbDeviceMetrics(Some(m.batteryLevel), Some(m.voltage), Some(m.channelUtilization),
                    Some(m.airUtilTx), Some(m.uptimeSeconds))
  }

  /** `create_node_info_packet_from_db`: the outgoing form of a stored node. */
  function Outgoing(node: NodeInfo): PbNodeInfo {
    PbNodeInfo(
      node.num,
      match node.user case Some(u) => Some(OutgoingUser(u)) case None => None,
      match node.position case Some(p) => Some(OutgoingPosition(p)) case None => None,
      node.snr, node.lastHeard,
      match node.deviceMetrics case Some(m) => Some(OutgoingMetrics(m)) case None => None,
      Some(1))
  }

  /** What is sent of a node, field by field: an empty id, every stored value present, one hop away. */
  lemma OutgoingFields(node: NodeInfo)
    ensures var sent := Outgoing(node);
            && sent.num == node.num && sent.snr == node.snr && sent.lastHeard == node.lastHeard
            && sent.hopsAway == Some(1)
            && (sent.user == None <==> node.user == None)
            && (sent.position == None <==> node.position == None)
            && (sent.deviceMetrics == None <==> node.deviceMetrics == None)
            && (node.user.Some? ==>
                  var u, w := node.user.value, sent.user.value;
                  && w.id == "" && w.isUnmessagable == Some(false)
                  && w.longName == u.longName && w.shortName == u.shortName
                  && w.hwModel == u.hwModel && w.role == u.role && w.isLicensed == u.isLicensed)
            && (node.position.Some? ==>
                  var p, w := node.position.value, sent.position.value;
                  && w.latitudeI == Some(p.latitudeI) && w.longitudeI == Some(p.longitudeI)
                  && w.altitude == Some(p.altitude) && w.time == p.time && w.locationSource == p.locationSource)
            && (node.deviceMetrics.Some? ==>
                  var m, w := node.deviceMetrics.value, sent.deviceMetrics.value;
                  && w.batteryLevel == Some(m.batteryLevel) && w.voltage == Some(m.voltage)
                  && w.channelUtilization == Some(m.channelUtilization) && w.airUtilTx == Some(m.airUtilTx)
                  && w.uptimeSeconds == Some(m.uptimeSeconds))
  {
  }

  /** A stored node survives being sent out and stored again, except for its device metrics. */
  lemma OutgoingRoundTrip(node: NodeInfo)
    ensures StoredNode(Outgoing(node), node.num) == node.(deviceMetrics := None)
  {
    match node.user {
      case Some(u) => UserRoundTrip(u);
      case None =>
    }
  }

  /** Names already stored are fixed points of storing. */
  lemma UserRoundTrip(u: User)
    ensures StoredUser(OutgoingUser(u)) == u
  {
    hide Stored;
    StoredUnchangedIff(u.longName, LONG_NAME);
    StoredUnchangedIff(u.shortName, SHORT_NAME);
  }

  /** The device metrics survive too, by way of a telemetry message. */
  lemma OutgoingMetricsRoundTrip(node: NodeInfo)
    requires node.deviceMetrics.Some?
    ensures var sent := OutgoingMetrics(node.deviceMetrics.value);
            StoredMetrics(PbTelemetry(Some(DeviceMetricsVariant(sent)))) == node.deviceMetrics
  {
  }

  /** Nothing the firmware stores is lost on the way out: different nodes have different outgoing forms. */
  lemma OutgoingInjective(a: NodeInfo, b: NodeInfo)
    ensures Outgoing(a) == Outgoing(b) <==> a == b
  {
    if Outgoing(a) == Outgoing(b) {
      OutgoingRoundTrip(a);
      OutgoingRoundTrip(b);
      assert a.deviceMetrics.Some? == b.deviceMetrics.Some?;
    }
  }
}
