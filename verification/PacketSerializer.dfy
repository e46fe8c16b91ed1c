/**
 The 13-byte heartbeat and 23-byte telemetry formats.

 The specification functions fix the byte layout; the methods write and read it field by
 field; the lemmas show that encoding and decoding are inverse in both directions, on every
 message and on every byte string.
 */
module PacketSerializer {
  import opened Protocol
  import opened BigEndian

  const HEADER_SIZE := 13
  const TELEMETRY_SIZE := 23

  function HeaderBytes(h: PacketHeader): (bs: seq<byte>)
    ensures |bs| == HEADER_SIZE
  {
    Digits(h.msgType, 1) + Digits(h.sensorId, 4) + Digits(h.timestamp, 8)
  }

  function HeartbeatBytes(m: HeartbeatMessage): (bs: seq<byte>)
    ensures |bs| == HEADER_SIZE
  {
    HeaderBytes(m.header)
  }

  function TelemetryBytes(m: TelemetryMessage): (bs: seq<byte>)
    ensures |bs| == TELEMETRY_SIZE
  {
    HeaderBytes(m.header) + Digits(m.sensorType, 1) + Digits(m.sensorState, 1) + Digits(m.value, 8)
  }

  function ByteAt(bs: seq<byte>, i: nat): byte
    requires i + 1 <= |bs|
  {
    ValueBound(bs[i..i + 1]);
    PowWidths();
    Value(bs[i..i + 1])
  }

  function Word32At(bs: seq<byte>, i: nat): uint32
    requires i + 4 <= |bs|
  {
    ValueBound(bs[i..i + 4]);
    PowWidths();
    Value(bs[i..i + 4])
  }

  function Word64At(bs: seq<byte>, i: nat): uint64
    requires i + 8 <= |bs|
  {
    ValueBound(bs[i..i + 8]);
    PowWidths();
    Value(bs[i..i + 8])
  }

  function HeaderAt(bs: seq<byte>, i: nat): PacketHeader
    requires i + HEADER_SIZE <= |bs|
  {
    PacketHeader(ByteAt(bs, i), Word32At(bs, i + 1), Word64At(bs, i + 5))
  }

  /** None stands for the underflow exception. */
  function DecodeHeartbeat(bs: seq<byte>): Option<HeartbeatMessage> {
    if |bs| < HEADER_SIZE then None else Some(HeartbeatMessage(HeaderAt(bs, 0)))
  }

  function DecodeTelemetry(bs: seq<byte>): Option<TelemetryMessage> {
    if |bs| < TELEMETRY_SIZE then None
    else Some(TelemetryMessage(HeaderAt(bs, 0), ByteAt(bs, 13), ByteAt(bs, 14), Word64At(bs, 15)))
  }

  function PeekType(bs: seq<byte>): Option<byte> {
    if |bs| < HEADER_SIZE then None else Some(ByteAt(bs, 0))
  }

  method WriteHeader(buffer: Buffer, h: PacketHeader)
    modifies buffer
    ensures buffer.bytes == old(buffer.bytes) + HeaderBytes(h)
  {
    buffer.Write(1, h.msgType);
    buffer.Write(4, h.sensorId);
    buffer.Write(8, h.timestamp);
  }

  method SerializeHeartbeat(m: HeartbeatMessage) returns (packet: seq<byte>)
    ensures packet == HeartbeatBytes(m)
  {
    var buffer := new Buffer();
    WriteHeader(buffer, m.header);
    packet := buffer.bytes;
  }

  method SerializeTelemetry(m: TelemetryMessage) returns (packet: seq<byte>)
    ensures packet == TelemetryBytes(m)
  {
    var buffer := new Buffer();
    WriteHeader(buffer, m.header);
    buffer.Write(1, m.sensorType);
    buffer.Write(1, m.sensorState);
    buffer.Write(8, m.value);
    packet := buffer.bytes;
  }

  method ReadHeader(c: Cursor) returns (r: Option<PacketHeader>)
    requires c.offset <= |c.bytes|
    modifies c
    ensures c.offset <= |c.bytes|
    ensures r.Some? <==> old(c.offset) + HEADER_SIZE <= |c.bytes|
    ensures r.Some? ==> c.offset == old(c.offset) + HEADER_SIZE && r.value == HeaderAt(c.bytes, old(c.offset))
  {
    PowWidths();
    var msgType := c.Read(1);
    if msgType.None? { return None; }
    var sensorId := c.Read(4);
    if sensorId.None? { return None; }
    var timestamp := c.Read(8);
    if timestamp.None? { return None; }
    return Some(PacketHeader(msgType.value, sensorId.value, timestamp.value));
  }

  method DeserializeHeartbeat(bytes: seq<byte>) returns (r: Option<HeartbeatMessage>)
    ensures r == DecodeHeartbeat(bytes)
  {
    var c := new Cursor(bytes);
    var header := ReadHeader(c);
    if header.None? { return None; }
    return Some(HeartbeatMessage(header.value));
  }

  method DeserializeTelemetry(bytes: seq<byte>) returns (r: Option<TelemetryMessage>)
    ensures r == DecodeTelemetry(bytes)
  {
    PowWidths();
    var c := new Cursor(bytes);
    var header := ReadHeader(c);
    if header.None? { return None; }
    var sensorType := c.Read(1);
    if sensorType.None? { return None; }
    var sensorState := c.Read(1);
    if sensorState.None? { return None; }
    var value := c.Read(8);
    if value.None? { return None; }
    return Some(TelemetryMessage(header.value, sensorType.value, sensorState.value, value.value));
  }

  method PeekMessageType(bytes: seq<byte>) returns (r: Option<byte>)
    ensures r == PeekType(bytes)
  {
    var c := new Cursor(bytes);
    var header := ReadHeader(c);
    if header.None? { return None; }
    return Some(header.value.msgType);
  }

  // ---- layout ----

  /** Every field at its documented offset; `DigitAt` gives each byte of a field. */
  lemma WireLayout(m: TelemetryMessage)
    ensures var bs := TelemetryBytes(m);
            && bs[0..1] == Digits(m.header.msgType, 1)
            && bs[1..5] == Digits(m.header.sensorId, 4)
            && bs[5..13] == Digits(m.header.timestamp, 8)
            && bs[13..14] == Digits(m.sensorType, 1)
            && bs[14..15] == Digits(m.sensorState, 1)
            && bs[15..23] == Digits(m.value, 8)
    ensures HeartbeatBytes(HeartbeatMessage(m.header)) == TelemetryBytes(m)[..13]
  {
    var h := HeaderBytes(m.header);
    var t, s, v := Digits(m.sensorType, 1), Digits(m.sensorState, 1), Digits(m.value, 8);
    PayloadSlices(h, t, s, v);
    HeaderSlices(Digits(m.header.msgType, 1), Digits(m.header.sensorId, 4), Digits(m.header.timestamp, 8), t + s + v);
    assert TelemetryBytes(m) == h + (t + s + v);
  }

  lemma PayloadSlices(h: seq<byte>, t: seq<byte>, s: seq<byte>, v: seq<byte>)
    requires |h| == 13 && |t| == |s| == 1 && |v| == 8
    ensures var bs := h + t + s + v;
            bs[..13] == h && bs[13..14] == t && bs[14..15] == s && bs[15..23] == v
  {
  }

  lemma HeaderSlices(t: seq<byte>, s: seq<byte>, w: seq<byte>, tail: seq<byte>)
    requires |t| == 1 && |s| == 4 && |w| == 8
    ensures var bs := t + s + w + tail;
            bs[0..1] == t && bs[1..5] == s && bs[5..13] == w
  {
  }

  // ---- encoding, then decoding ----

  lemma HeaderRoundTrip(h: PacketHeader, tail: seq<byte>)
    ensures HeaderAt(HeaderBytes(h) + tail, 0) == h
  {
    PowWidths();
    HeaderSlices(Digits(h.msgType, 1), Digits(h.sensorId, 4), Digits(h.timestamp, 8), tail);
    ValueOfDigits(h.msgType, 1);
    ValueOfDigits(h.sensorId, 4);
    ValueOfDigits(h.timestamp, 8);
  }

  /** A heartbeat survives the wire, whatever bytes follow it. */
  lemma HeartbeatRoundTrip(m: HeartbeatMessage, tail: seq<byte>)
    ensures DecodeHeartbeat(HeartbeatBytes(m) + tail) == Some(m)
    ensures PeekType(HeartbeatBytes(m) + tail) == Some(m.header.msgType)
  {
    HeaderRoundTrip(m.header, tail);
  }

  /** A telemetry message survives the wire bit for bit, whatever bytes follow it. */
  lemma TelemetryRoundTrip(m: TelemetryMessage, tail: seq<byte>)
    ensures DecodeTelemetry(TelemetryBytes(m) + tail) == Some(m)
    ensures PeekType(TelemetryBytes(m) + tail) == Some(m.header.msgType)
  {
    PowWidths();
    var bs := TelemetryBytes(m);
    var t, s, v := Digits(m.sensorType, 1), Digits(m.sensorState, 1), Digits(m.value, 8);
    PayloadSlices(HeaderBytes(m.header), t, s, v);
    assert (bs + tail)[13..14] == t && (bs + tail)[14..15] == s && (bs + tail)[15..23] == v;
    assert bs + tail == HeaderBytes(m.header) + (t + s + v + tail);
    HeaderRoundTrip(m.header, t + s + v + tail);
    ValueOfDigits(m.sensorType, 1);
    ValueOfDigits(m.sensorState, 1);
    ValueOfDigits(m.value, 8);
  }

  // ---- decoding, then encoding ----

  lemma HeaderReencodes(bs: seq<byte>)
    requires |bs| >= HEADER_SIZE
    ensures HeaderBytes(HeaderAt(bs, 0)) == bs[..HEADER_SIZE]
  {
    DigitsOfValue(bs[0..1]);
    DigitsOfValue(bs[1..5]);
    DigitsOfValue(bs[5..13]);
    assert bs[..HEADER_SIZE] == bs[0..1] + bs[1..5] + bs[5..13];
  }

  /** Decoding fails exactly on short input, and otherwise forgets nothing of the bytes it read. */
  lemma HeartbeatReencodes(bs: seq<byte>)
    ensures DecodeHeartbeat(bs).Some? <==> |bs| >= 13
    ensures PeekType(bs).Some? <==> |bs| >= 13
    ensures |bs| >= 13 ==> HeartbeatBytes(DecodeHeartbeat(bs).value) == bs[..13]
  {
    if |bs| >= 13 {
      HeaderReencodes(bs);
    }
  }

  lemma TelemetryReencodes(bs: seq<byte>)
    ensures DecodeTelemetry(bs).Some? <==> |bs| >= 23
    ensures |bs| >= 23 ==> TelemetryBytes(DecodeTelemetry(bs).value) == bs[..23]
  {
    if |bs| >= 23 {
      HeaderReencodes(bs);
      DigitsOfValue(bs[13..14]);
      DigitsOfValue(bs[14..15]);
      DigitsOfValue(bs[15..23]);
      assert bs[..23] == bs[..13] + bs[13..14] + bs[14..15] + bs[15..23];
    }
  }
}
