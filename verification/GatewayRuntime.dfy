/**
 The gateway object. Each method is proved to be one step of the model.
 */
module GatewayRuntime {
  import opened Protocol
  import opened GatewayModel
  import opened PacketSerializer

  datatype LogLine = UnknownMessageType | SensorOffline(id: uint32)

  datatype Outcome = Handled | UnknownType | Malformed

  /** What `handlePacket` makes of a packet: a step, or none. */
  function StepOf(packet: seq<byte>, now: uint64): Option<Step> {
    var msgType := PeekType(packet);
    if msgType == Some(TELEMETRY) then
      var m := DecodeTelemetry(packet);
      if m.None? then None else Some(Telemetry(m.value, now))
    else if msgType == Some(HEARTBEAT) then
      Some(Heartbeat(DecodeHeartbeat(packet).value, now))
    else None
  }

  function OfflineLines(ids: seq<uint32>): (lines: seq<LogLine>)
    ensures |lines| == |ids|
    ensures forall i :: 0 <= i < |ids| ==> lines[i].SensorOffline? && lines[i].id == ids[i]
  {
    seq(|ids|, i requires 0 <= i < |ids| => SensorOffline(ids[i]))
  }

  predicate NoDuplicates<T(==)>(s: seq<T>) {
    forall i, j :: 0 <= i < j < |s| ==> s[i] != s[j]
  }

  class Gateway {
    var sensors: Registry
    var telemetryPackets: uint64
    var heartbeatPackets: uint64
    var log: seq<LogLine>

    function Contents(): State
      reads this
    {
      State(sensors, telemetryPackets, heartbeatPackets)
    }

    constructor ()
      ensures Contents() == INITIAL && log == []
    {
      sensors, telemetryPackets, heartbeatPackets, log := map[], 0, 0, [];
    }

    method UpdateSensorInfo(message: TelemetryMessage, now: uint64)
      modifies this
      ensures Contents() == Apply(old(Contents()), Telemetry(message, now))
      ensures log == old(log)
    {
      var id := message.header.sensorId;
      var info := Entry(sensors, id);
      info := info.(lastTelemetry := message);
      info := info.(telemetryStamp := now);
      sensors := sensors[id := info];
      telemetryPackets := Increment(telemetryPackets);
    }

    method HandleHeartbeat(message: HeartbeatMessage, now: uint64)
      modifies this
      ensures Contents() == Apply(old(Contents()), Heartbeat(message, now))
      ensures log == old(log)
    {
      var id := message.header.sensorId;
      var info := Entry(sensors, id);
      info := info.(heartbeatStamp := now);
      info := info.(health := Online);
      sensors := sensors[id := info];
      heartbeatPackets := Increment(heartbeatPackets);
    }

    /**
     A packet that decodes to a step is that step; every other packet, whether it throws or
     is only logged, leaves registry and counters alone.
     */
    method HandlePacket(packet: seq<byte>, now: uint64) returns (outcome: Outcome)
      modifies this
      ensures outcome == Handled <==> StepOf(packet, now).Some?
      ensures outcome == Malformed <==> |packet| < 13 || (packet[0] == TELEMETRY && |packet| < 23)
      ensures Contents() ==
              (if outcome == Handled then Apply(old(Contents()), StepOf(packet, now).value) else old(Contents()))
      ensures log == old(log) + if outcome == UnknownType then [UnknownMessageType] else []
    {
      var msgType := PeekMessageType(packet);
      if msgType.None? {
        return Malformed;
      }
      assert msgType.value == packet[0] by {
        assert packet[0..1][..0] == [];
      }
      if msgType.value == TELEMETRY {
        var message := DeserializeTelemetry(packet);
        if message.None? {
          return Malformed;
        }
        UpdateSensorInfo(message.value, now);
        return Handled;
      } else if msgType.value == HEARTBEAT {
        var message := DeserializeHeartbeat(packet);
        HandleHeartbeat(message.value, now);
        return Handled;
      }
      log := log + [UnknownMessageType];
      return UnknownType;
    }

    /**
     The watchdog's loop over the unordered map, holding the lock; `sample` is the clock
     reading taken before the lock. Whatever order the entries come in, the registry is
     updated pointwise and each newly offline sensor is logged exactly once.
     */
    method DetectOfflineSensors(sample: uint64) returns (announced: seq<uint32>)
      modifies this
      ensures Contents() == Apply(old(Contents()), Scan(sample))
      ensures log == old(log) + OfflineLines(announced)
      ensures NoDuplicates(announced)
      ensures forall id: uint32 :: id in announced <==> id in Announced(old(sensors), sample)
      ensures forall id: uint32 :: id in announced <==>
              id in old(sensors) && old(sensors)[id].health != Offline && sensors[id].health == Offline
    {
      announced := [];
      var pending := sensors.Keys;
      while pending != {}
        invariant pending <= sensors.Keys == old(sensors).Keys
        invariant forall id :: id in sensors ==>
          sensors[id] == if id in pending then old(sensors)[id] else ScanEntry(old(sensors)[id], sample)
        invariant log == old(log) + OfflineLines(announced)
        invariant NoDuplicates(announced)
        invariant forall id: uint32 :: id in announced <==> id in Announced(old(sensors), sample) - pending
        invariant telemetryPackets == old(telemetryPackets) && heartbeatPackets == old(heartbeatPackets)
        decreases pending
      {
        var id :| id in pending;
        assert id !in announced;
        pending := pending - {id};
        var info := sensors[id];
        if info.health == Unknown || info.heartbeatStamp == 0 {
          continue;
        }
        if Elapsed(sample, info.heartbeatStamp) > HEARTBEAT_TIMEOUT {
          if info.health != Offline {
            assert forall i :: 0 <= i < |announced| ==> announced[i] in announced;
            announced := announced + [id];
            sensors := sensors[id := info.(health := Offline)];
            log := log + [SensorOffline(id)];
          }
        }
      }
      assert sensors == ScanRegistry(old(sensors), sample);
    }

    method GetSecondsSinceLastHeartbeat(id: uint32, now: uint64) returns (seconds: nat)
      ensures seconds == AgeSeconds(sensors, id, now)
    {
      if id !in sensors {
        return 0;
      }
      var info := sensors[id];
      if info.heartbeatStamp == 0 {
        return 0;
      }
      return Elapsed(now, info.heartbeatStamp) / 1000;
    }
  }
}
