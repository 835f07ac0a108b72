/**
 The generated protobuf messages, cut down to the fields the firmware reads or sets to something
 other than a constant. Floating-point fields are only ever copied and are kept as reals.
 */
module Protobuf {
  import opened Bytes
  import opened Options

  /** An enumeration field: a value the schema knows, or the raw number of one it does not. */
  datatype EnumValue<T> = Known(value: T) | Unknown(raw: i32)

  datatype PortNum =
    | TextMessageApp
    | PositionApp
    | NodeinfoApp
    | RoutingApp
    | TelemetryApp
    | TracerouteApp
    | NeighborinfoApp
    | OtherApp(number: nat)

  datatype Data = Data(
    portnum: EnumValue<PortNum>,
    payload: seq<byte>,
    wantResponse: bool,
    dest: u32,
    source: u32,
    requestId: u32,
    replyId: u32,
    emoji: u32,
    bitfield: Option<u32>)

  datatype PbUser = PbUser(
    id: string,
    longName: string,
    shortName: string,
    hwModel: EnumValue<nat>,
    isLicensed: bool,
    role: EnumValue<nat>,
    isUnmessagable: Option<bool>)

  datatype PbPosition = PbPosition(
    latitudeI: Option<i32>,
    longitudeI: Option<i32>,
    altitude: Option<i32>,
    time: u32,
    locationSource: EnumValue<nat>)

  datatype PbDeviceMetrics = PbDeviceMetrics(
    batteryLevel: Option<u32>,
    voltage: Option<real>,
    channelUtilization: Option<real>,
    airUtilTx: Option<real>,
    uptimeSeconds: Option<u32>)

  datatype TelemetryVariant = DeviceMetricsVariant(metrics: PbDeviceMetrics) | OtherVariant

  datatype PbTelemetry = PbTelemetry(variant: Option<TelemetryVariant>)

  datatype PbNodeInfo = PbNodeInfo(
    num: u32,
    user: Option<PbUser>,
    position: Option<PbPosition>,
    snr: real,
    lastHeard: u32,
    deviceMetrics: Option<PbDeviceMetrics>,
    hopsAway: Option<u32>)

  /** The message decoders, which may be any functions at all. */
  datatype Decoders = Decoders(
    user: seq<byte> -> Option<PbUser>,
    position: seq<byte> -> Option<PbPosition>,
    telemetry: seq<byte> -> Option<PbTelemetry>)
}
