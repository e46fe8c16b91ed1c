/**
 The protocol's integer widths, message records and constants.

 Enumerations travel as single bytes and are cast back without a range check,
 so a record may hold an unlisted value; they are kept as raw bytes here.
 A `double` is an opaque 64-bit word: the program only copies its bits.
 */
module Protocol {

  const TWO_TO_THE_32: int := 0x1_0000_0000
  const TWO_TO_THE_64: int := 0x1_0000_0000_0000_0000

  type byte = x: int | 0 <= x < 0x100
  type uint32 = x: int | 0 <= x < TWO_TO_THE_32
  type uint64 = x: int | 0 <= x < TWO_TO_THE_64

  const TELEMETRY: byte := 1
  const HEARTBEAT: byte := 2

  /** Milliseconds without a heartbeat after which a sensor counts as offline. */
  const HEARTBEAT_TIMEOUT: int := 10000

  datatype Option<+T> = None | Some(value: T)

  datatype PacketHeader = PacketHeader(msgType: byte, sensorId: uint32, timestamp: uint64)

  datatype HeartbeatMessage = HeartbeatMessage(header: PacketHeader)

  datatype TelemetryMessage = TelemetryMessage(
    header: PacketHeader, sensorType: byte, sensorState: byte, value: uint64)

  datatype Health = Unknown | Online | Offline

  /** What the gateway knows of one sensor. */
  datatype SensorInfo = SensorInfo(
    lastTelemetry: TelemetryMessage, telemetryStamp: uint64, heartbeatStamp: uint64, health: Health)

  const NO_TELEMETRY := TelemetryMessage(PacketHeader(0, 0, 0), 0, 0, 0)

  /** The value-initialised entry that the registry's `operator[]` creates. */
  const NEW_SENSOR := SensorInfo(NO_TELEMETRY, 0, 0, Unknown)

  /** `later - earlier` in unsigned 64-bit arithmetic: wraps when the operands are out of order. */
  function Elapsed(later: uint64, earlier: uint64): (ms: uint64)
    ensures earlier <= later ==> ms == later - earlier
    ensures later < earlier ==> ms == TWO_TO_THE_64 - (earlier - later)
  {
    (later - earlier) % TWO_TO_THE_64
  }
}
