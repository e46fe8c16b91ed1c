/**
 From bytes on the wire to registry updates.

 `Carries` says what a packet means without decoding it: some well-typed message's encoding is
 a prefix of the packet. The dispatcher acts on exactly those packets, so a stream of
 datagrams is a run of the gateway.
 */
module WireRefinement {
  import opened Protocol
  import opened PacketSerializer
  import opened GatewayModel
  import opened GatewayRuntime

  datatype Datagram = Datagram(bytes: seq<byte>, at: uint64)

  predicate Carries(d: Datagram, step: Step) {
    match step
    case Telemetry(m, at) => at == d.at && m.header.msgType == TELEMETRY && TelemetryBytes(m) <= d.bytes
    case Heartbeat(m, at) => at == d.at && m.header.msgType == HEARTBEAT && HeartbeatBytes(m) <= d.bytes
    case Scan(_) => false
  }

  /** The exception cases: too short for a header, or for the telemetry its first byte announces. */
  predicate Throws(d: Datagram) {
    |d.bytes| < 13 || (d.bytes[0] == TELEMETRY && |d.bytes| < 23)
  }

  lemma FirstByte(bs: seq<byte>)
    requires |bs| >= 13
    ensures PeekType(bs) == Some(bs[0])
    ensures HeaderAt(bs, 0).msgType == bs[0]
  {
    assert bs[0..1][..0] == [];
  }

  /** A packet is acted on as `step` if and only if it starts with that step's message. */
  lemma DispatchIsExact(d: Datagram, step: Step)
    ensures StepOf(d.bytes, d.at) == Some(step) <==> Carries(d, step)
  {
    var bs := d.bytes;
    if Carries(d, step) {
      match step {
        case Telemetry(m, _) =>
          var tail := bs[23..];
          assert bs == TelemetryBytes(m) + tail;
          TelemetryRoundTrip(m, tail);
        case Heartbeat(m, _) =>
          var tail := bs[13..];
          assert bs == HeartbeatBytes(m) + tail;
          HeartbeatRoundTrip(m, tail);
      }
    }
    if StepOf(bs, d.at) == Some(step) {
      FirstByte(bs);
      TelemetryReencodes(bs);
      HeartbeatReencodes(bs);
    }
  }

  /** What every byte string is dispatched to, in the numbers of the wire format. */
  lemma DispatchTable(bs: seq<byte>, at: uint64)
    ensures StepOf(bs, at) ==
            if |bs| >= 23 && bs[0] == 1 then
              Some(Telemetry(TelemetryMessage(PacketHeader(1, Word32At(bs, 1), Word64At(bs, 5)),
                                              bs[13], bs[14], Word64At(bs, 15)), at))
            else if |bs| >= 13 && bs[0] == 2 then
              Some(Heartbeat(HeartbeatMessage(PacketHeader(2, Word32At(bs, 1), Word64At(bs, 5))), at))
            else None
  {
    if |bs| >= 13 {
      FirstByte(bs);
    }
    if |bs| >= 23 {
      assert bs[13..14][..0] == [] && bs[14..15][..0] == [];
    }
  }

  /** Packets that throw and packets of unlisted type carry nothing; every other packet carries something. */
  lemma IgnoredPackets(d: Datagram)
    ensures StepOf(d.bytes, d.at).None? <==> Throws(d) || d.bytes[0] !in {TELEMETRY, HEARTBEAT}
    ensures StepOf(d.bytes, d.at).None? <==> forall step :: !Carries(d, step)
  {
    if |d.bytes| >= 13 {
      FirstByte(d.bytes);
    }
    var r := StepOf(d.bytes, d.at);
    if r.Some? {
      DispatchIsExact(d, r.value);
    } else {
      forall step ensures !Carries(d, step) {
        DispatchIsExact(d, step);
      }
    }
  }

  /** The steps a stream amounts to, in arrival order. */
  function Accepted(stream: seq<Datagram>): Run {
    if |stream| == 0 then []
    else
      var front, last := Accepted(stream[..|stream| - 1]), stream[|stream| - 1];
      var step := StepOf(last.bytes, last.at);
      if step.None? then front else front + [step.value]
  }

  /** Handing a stream to the dispatcher packet by packet, a throw counting as a rejected packet. */
  function DeliverAll(s: State, stream: seq<Datagram>): State {
    if |stream| == 0 then s
    else
      var front, last := DeliverAll(s, stream[..|stream| - 1]), stream[|stream| - 1];
      var step := StepOf(last.bytes, last.at);
      if step.None? then front else Apply(front, step.value)
  }

  lemma {:induction false} StreamIsRun(s: State, stream: seq<Datagram>)
    ensures DeliverAll(s, stream) == ExecFrom(s, Accepted(stream))
  {
    if |stream| > 0 {
      var front, last := stream[..|stream| - 1], stream[|stream| - 1];
      StreamIsRun(s, front);
      var run, step := Accepted(front), StepOf(last.bytes, last.at);
      if step.Some? {
        assert (run + [step.value])[..|run|] == run;
      }
    }
  }

  /**
   The receive loop on the receiver thread. Nothing on that thread catches the decoder's
   exception, so the first packet that throws terminates the whole process; up to there the
   gateway has run exactly the accepted steps.
   */
  method ReceiveAll(g: Gateway, stream: seq<Datagram>) returns (n: nat, alive: bool)
    modifies g
    ensures n <= |stream|
    ensures alive <==> n == |stream|
    ensures forall i :: 0 <= i < n ==> !Throws(stream[i])
    ensures n < |stream| ==> Throws(stream[n])
    ensures g.Contents() == ExecFrom(old(g.Contents()), Accepted(stream[..n]))
  {
    n, alive := 0, true;
    while n < |stream|
      invariant 0 <= n <= |stream|
      invariant forall i :: 0 <= i < n ==> !Throws(stream[i])
      invariant alive
      invariant g.Contents() == DeliverAll(old(g.Contents()), stream[..n])
    {
      var outcome := g.HandlePacket(stream[n].bytes, stream[n].at);
      if outcome == Malformed {
        alive := false;
        break;
      }
      assert stream[..n + 1][..n] == stream[..n];
      n := n + 1;
    }
    StreamIsRun(old(g.Contents()), stream[..n]);
  }

  /** The datagram a sender produces for a message step, with arbitrary trailing bytes. */
  function Encode(step: Step, tail: seq<byte>): Datagram
    requires !step.Scan?
  {
    match step
    case Telemetry(m, at) => Datagram(TelemetryBytes(m) + tail, at)
    case Heartbeat(m, at) => Datagram(HeartbeatBytes(m) + tail, at)
  }

  predicate WellTyped(step: Step) {
    || (step.Telemetry? && step.telemetry.header.msgType == TELEMETRY)
    || (step.Heartbeat? && step.heartbeat.header.msgType == HEARTBEAT)
  }

  lemma EncodingIsAccepted(step: Step, tail: seq<byte>)
    requires WellTyped(step)
    ensures var d := Encode(step, tail);
            StepOf(d.bytes, d.at) == Some(step) && !Throws(d)
  {
    var d := Encode(step, tail);
    DispatchIsExact(d, step);
    IgnoredPackets(d);
  }

  /** Serialising a run of messages and receiving the bytes is the run itself. */
  lemma {:induction false} WireIsTransparent(run: Run, tails: seq<seq<byte>>, stream: seq<Datagram>)
    requires |run| == |tails| == |stream|
    requires forall i :: 0 <= i < |run| ==> WellTyped(run[i]) && stream[i] == Encode(run[i], tails[i])
    ensures Accepted(stream) == run
    ensures forall i :: 0 <= i < |stream| ==> !Throws(stream[i])
  {
    if |run| > 0 {
      var n := |run| - 1;
      var front := stream[..n];
      WireIsTransparent(run[..n], tails[..n], front);
      EncodingIsAccepted(run[n], tails[n]);
      assert Accepted(stream) == run[..n] + [run[n]];
      forall i | 0 <= i < n ensures !Throws(stream[i]) {
        assert front[i] == stream[i];
      }
    }
  }

  /** A telemetry record that carries the heartbeat type is acted on as a heartbeat. */
  lemma MistypedTelemetryIsHeartbeat(m: TelemetryMessage, tail: seq<byte>, at: uint64)
    requires m.header.msgType == HEARTBEAT
    ensures StepOf(TelemetryBytes(m) + tail, at) == Some(Heartbeat(HeartbeatMessage(m.header), at))
  {
    var d := Datagram(TelemetryBytes(m) + tail, at);
    var h := HeaderBytes(m.header);
    assert h <= d.bytes by {
      assert TelemetryBytes(m)[..13] == h;
      assert d.bytes[..13] == h;
    }
    DispatchIsExact(d, Heartbeat(HeartbeatMessage(m.header), at));
  }
}
