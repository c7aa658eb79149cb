/** What the client does on the wire over a whole run: a log of events and the rules every log obeys. */
module SessionTrace {
  import opened Bytes
  import opened RemainingLength
  import opened Wire
  import opened PublishPackets
  import opened ConnectPackets

  /** What happened, in order, since `MQTTClientInit`. */
  datatype Event =
    | Received(frame: seq<Byte>)       // a packet was read
    | Sent(packet: seq<Byte>)          // a packet was written whole
    | SendFailed(partial: seq<Byte>)   // a packet was not sent, or only in part
    | Accepted                         // the connection was marked as up
    | Closed                           // the session was closed

  function PacketKind(p: seq<Byte>): nat {
    if p == [] then 0 else Kind(p[0])
  }

  /** The acknowledgement a well-formed packet calls for (sections 4.3.2 and 4.3.3 of MQTT 3.1.1). */
  function ReplyOwed(f: seq<Byte>): Option<seq<Byte>> {
    if PacketKind(f) == PUBLISH then
      match ParsePublish(f)
      case Parsed(_, qos, _, id, _, _, len) =>
        if len < 0 then None
        else if qos == 1 then Some(AckBytes(PUBACK, 0, id))
        else if qos == 2 then Some(AckBytes(PUBREC, 0, id))
        else None
      case _ => None
    else if PacketKind(f) == PUBREC || PacketKind(f) == PUBREL then
      match ParseAck(f)
      case Ack(_, _, id) => Some(AckBytes(if PacketKind(f) == PUBREC then PUBREL else PUBCOMP, 0, id))
      case _ => None
    else None
  }

  /** The packet type of an answer, also for packets too malformed to hold an identifier. */
  function ReplyKind(f: seq<Byte>): nat {
    if PacketKind(f) == PUBLISH then
      if Qos(f[0]) == 1 then PUBACK else if Qos(f[0]) == 2 then PUBREC else 0
    else if PacketKind(f) == PUBREC then PUBREL
    else if PacketKind(f) == PUBREL then PUBCOMP
    else 0
  }

  predicate IsAck(p: seq<Byte>) {
    PUBACK <= PacketKind(p) <= PUBCOMP
  }

  predicate IsPing(e: Event) { e.Sent? && PacketKind(e.packet) == PINGREQ }

  predicate IsReset(e: Event) {
    e.Accepted? || e.Closed? || (e.Received? && PacketKind(e.frame) == PINGRESP)
  }

  /** What the client makes of a CONNACK: its return code, 0 for an empty one because the code is preset, or -1. */
  function ConnackCode(f: seq<Byte>): int {
    match ParseConnack(f)
    case Connack(_, code) => code
    case ShortConnack(rc) => if rc == 1 then 0 else -1
    case _ => -1
  }

  predicate ConnackAccepts(f: seq<Byte>) { ConnackCode(f) == 0 }

  /** The packet was received at or after position `from`. */
  ghost predicate Logged(log: seq<Event>, from: nat, f: seq<Byte>) {
    exists i :: from <= i < |log| && log[i] == Received(f)
  }

  /** A ping is unanswered. */
  function PingAfter(log: seq<Event>): bool {
    if log == [] then false
    else
      var n := |log| - 1;
      if IsPing(log[n]) then true else if IsReset(log[n]) then false else PingAfter(log[..n])
  }

  /** A ping was unanswered when the session was closed, or still is. */
  function PingLost(log: seq<Event>): bool {
    if log != [] && log[|log| - 1].Closed? then PingLost(log[..|log| - 1]) else PingAfter(log)
  }

  lemma PingLostLonger(log: seq<Event>)
    ensures PingAfter(log) ==> PingLost(log)
    ensures PingLost(log + [Closed]) == PingLost(log)
  {
    assert (log + [Closed])[..|log|] == log;
  }

  function ConnectedAfter(log: seq<Event>): bool {
    if log == [] then false
    else
      var n := |log| - 1;
      if log[n].Accepted? then true else if log[n].Closed? then false else ConnectedAfter(log[..n])
  }

  /** The handshake under way: what was received last since a CONNECT was sent. */
  function Heard(log: seq<Event>): Option<Option<seq<Byte>>> {
    if log == [] then None
    else
      var n := |log| - 1;
      match log[n]
      case Accepted => None
      case Closed => None
      case Sent(p) => if PacketKind(p) == CONNECT then Some(None) else Heard(log[..n])
      case Received(f) => if Heard(log[..n]).Some? then Some(Some(f)) else None
      case SendFailed(_) => Heard(log[..n])
  }

  /** No received packet waits for its acknowledgement. */
  function Owed(log: seq<Event>): Option<seq<Byte>> {
    if log != [] && log[|log| - 1].Received? then ReplyOwed(log[|log| - 1].frame) else None
  }

  function WireOf(log: seq<Event>): seq<Byte> {
    if log == [] then []
    else
      var n := |log| - 1;
      WireOf(log[..n])
      + match log[n] case Sent(p) => p case SendFailed(p) => p case _ => []
  }

  /** What may follow a log. */
  ghost predicate StepOk(log: seq<Event>, e: Event) {
    // What is received is a whole packet.
    && (e.Received? ==> IsFrame(e.frame))
    // An acknowledgement that is owed comes next, unless its sending fails.
    && (Owed(log).Some? ==> e == Sent(Owed(log).value) || e.SendFailed?)
    // An acknowledgement answers the packet received just before.
    && (e.Sent? && IsAck(e.packet) ==>
          && log != [] && log[|log| - 1].Received?
          && PacketKind(e.packet) == ReplyKind(log[|log| - 1].frame))
    // No second ping while one is unanswered.
    && (IsPing(e) ==> !PingAfter(log))
    // The connection goes up only after a CONNECT and an accepting CONNACK.
    && (e.Accepted? ==> Heard(log).Some? && Heard(log).value.Some? && ConnackAccepts(Heard(log).value.value))
  }

  ghost predicate TraceOk(log: seq<Event>) {
    log == [] || (TraceOk(log[..|log| - 1]) && StepOk(log[..|log| - 1], log[|log| - 1]))
  }

  /** Everything one more event changes. */
  lemma Append(log: seq<Event>, e: Event)
    requires TraceOk(log) && StepOk(log, e)
    ensures TraceOk(log + [e])
    ensures PingAfter(log + [e]) == (IsPing(e) || (!IsReset(e) && PingAfter(log)))
    ensures ConnectedAfter(log + [e]) == (e.Accepted? || (!e.Closed? && ConnectedAfter(log)))
    ensures Owed(log + [e]) == if e.Received? then ReplyOwed(e.frame) else None
    ensures Heard(log + [e]) ==
            match e
            case Accepted => None
            case Closed => None
            case Sent(p) => if PacketKind(p) == CONNECT then Some(None) else Heard(log)
            case Received(f) => if Heard(log).Some? then Some(Some(f)) else None
            case SendFailed(_) => Heard(log)
    ensures WireOf(log + [e]) == WireOf(log) + match e case Sent(p) => p case SendFailed(p) => p case _ => []
  {
    hide StepOk, IsPing, IsReset, ReplyOwed, PacketKind;
    assert (log + [e])[..|log|] == log;
  }

  lemma {:induction false} PrefixOk(log: seq<Event>, i: nat)
    requires TraceOk(log) && i <= |log|
    ensures TraceOk(log[..i])
    ensures i < |log| ==> StepOk(log[..i], log[i])
  {
    hide StepOk;
    var n := |log| - 1;
    if i <= n {
      assert log[..n][..i] == log[..i];
      PrefixOk(log[..n], i);
    } else {
      assert log[..i] == log;
    }
  }

  /** An unanswered ping was sent and not reset since. */
  lemma {:induction false} PingAfterMeans(log: seq<Event>, i: nat)
    requires i < |log| && IsPing(log[i]) && !PingAfter(log)
    ensures exists k :: i < k < |log| && IsReset(log[k])
  {
    hide IsPing, IsReset;
    var n := |log| - 1;
    if i == n {
      assert false;
    } else if IsReset(log[n]) {
    } else {
      PingAfterMeans(log[..n], i);
    }
  }

  /**
   * Ping discipline over runs: between two PINGREQs the outstanding one was reset, by a PINGRESP, by
   * closing the session or by a new connection (section 3.1.2.10 of MQTT 3.1.1).
   */
  lemma PingDiscipline(log: seq<Event>, i: nat, j: nat)
    requires TraceOk(log) && i < j < |log| && IsPing(log[i]) && IsPing(log[j])
    ensures exists k :: i < k < j && IsReset(log[k])
  {
    hide IsReset, IsPing, TraceOk;
    PrefixOk(log, j);
    var before := log[..j];
    assert before[i] == log[i];
    assert !PingAfter(before) by {
      StepNeedsNoPing(before, log[j]);
    }
    PingAfterMeans(before, i);
    var k :| i < k < |before| && IsReset(before[k]);
    assert before[k] == log[k];
  }

  lemma StepNeedsNoPing(log: seq<Event>, e: Event)
    requires StepOk(log, e) && IsPing(e)
    ensures !PingAfter(log)
  {
  }

  /** The packet heard last in a handshake: the CONNECT before it, and nothing in between that ends one. */
  lemma {:induction false} HeardMeans(log: seq<Event>) returns (j: nat, k: nat)
    requires Heard(log).Some?
    ensures j < |log| && log[j].Sent? && PacketKind(log[j].packet) == CONNECT
    ensures forall i :: j < i < |log| ==> !log[i].Accepted? && !log[i].Closed?
    ensures Heard(log).value.Some? ==>
              && j < k < |log| && log[k] == Received(Heard(log).value.value)
              && forall i :: k < i < |log| ==> !log[i].Received?
  {
    hide PacketKind;
    var n := |log| - 1;
    if log[n].Sent? && PacketKind(log[n].packet) == CONNECT {
      j, k := n, 0;
    } else {
      j, k := HeardMeans(log[..n]);
      if log[n].Received? {
        k := n;
      }
    }
  }

  /** The packets the client takes for an acceptance: CONNACKs with code 0, or too short to hold a code. */
  lemma AcceptedExactly(f: seq<Byte>, body: seq<Byte>)
    requires f != [] && |body| < LENGTH_LIMIT && f == FrameBytes(f[0], body)
    ensures ConnackAccepts(f) <==> Kind(f[0]) == CONNACK && (|body| < 2 || body[1] == 0)
  {
    hide EncodeLength, DecodedAt, FieldInBounds, FrameBytes, Kind;
    FrameHead(f, f[0], body);
    EncodeLengthSize(|body|);
    var at := 1 + |EncodeLength(|body|)|;
    if |body| >= 2 {
      assert f[at + 1] == f[at..at + |body|][1];
    }
  }

  /**
   * Connected-flag safety over runs: the connection was marked as up only after a CONNECT was sent
   * whole, and the packet received last since then was a CONNACK with code 0 or without a code.
   */
  lemma AcceptedMeans(log: seq<Event>, i: nat) returns (j: nat, k: nat, body: seq<Byte>)
    requires TraceOk(log) && i < |log| && log[i].Accepted?
    ensures j < k < i && log[j].Sent? && PacketKind(log[j].packet) == CONNECT
    ensures log[k].Received? && log[k].frame != [] && log[k].frame == FrameBytes(log[k].frame[0], body)
    ensures Kind(log[k].frame[0]) == CONNACK && (|body| < 2 || body[1] == 0)
    ensures forall m :: j < m < i ==> !log[m].Accepted? && !log[m].Closed?
    ensures forall m :: k < m < i ==> !log[m].Received?
  {
    hide PacketKind, ConnackCode, TraceOk, Heard, Kind, FrameBytes;
    PrefixOk(log, i);
    var before := log[..i];
    j, k := HeardMeans(before);
    assert forall m :: 0 <= m < i ==> before[m] == log[m];
    PrefixOk(log, k);
    var f := log[k].frame;
    body :| |body| < LENGTH_LIMIT && f == FrameBytes(f[0], body);
    AcceptedExactly(f, body);
  }

  /** The code accepts more: a CONNACK without a body. */
  lemma EmptyConnackAccepted()
    ensures ParseConnack([32, 0]) == ShortConnack(1) && ConnackAccepts([32, 0])
  {
    var s: seq<Byte> := [32, 0];
    assert s[1..] == [0];
    assert s[1..2] == [0];
    assert LengthValue([0]) == 0;
  }

  /** The acknowledgements sent, and those the packets received call for. */
  function AcksSent(log: seq<Event>): seq<seq<Byte>> {
    if log == [] then []
    else
      var n := |log| - 1;
      AcksSent(log[..n]) + if log[n].Sent? && IsAck(log[n].packet) then [log[n].packet] else []
  }

  function AcksOwed(log: seq<Event>): seq<seq<Byte>> {
    if log == [] then []
    else
      var n := |log| - 1;
      AcksOwed(log[..n])
      + if log[n].Received? && ReplyOwed(log[n].frame).Some? then [ReplyOwed(log[n].frame).value] else []
  }

  /** Every packet that calls for an answer is well-formed, and every send succeeded. */
  ghost predicate Smooth(log: seq<Event>) {
    forall i :: 0 <= i < |log| ==>
      && !log[i].SendFailed?
      && (log[i].Received? && ReplyKind(log[i].frame) != 0 ==> ReplyOwed(log[i].frame).Some?)
  }

  lemma AckKind(kind: nat, id: Word)
    requires kind < 16
    ensures PacketKind(AckBytes(kind, 0, id)) == kind
  {
    HeaderFields(kind, 0, if kind == PUBREL then 1 else 0, 0);
  }

  lemma ParsedQos(f: seq<Byte>)
    requires ParsePublish(f).Parsed?
    ensures f != [] && ParsePublish(f).qos == Qos(f[0])
  {
    hide DecodedAt, FieldInBounds, StringAt, IntAt, Kind, Qos, Dup, Retain;
  }

  lemma ReplyHasKind(f: seq<Byte>)
    requires ReplyOwed(f).Some?
    ensures IsAck(ReplyOwed(f).value) && PacketKind(ReplyOwed(f).value) == ReplyKind(f)
  {
    hide ParsePublish, ParseAck, AckBytes, Kind, Qos;
    if PacketKind(f) == PUBLISH {
      ParsedQos(f);
      AckKind(ReplyKind(f), ParsePublish(f).id);
    } else {
      AckKind(ReplyKind(f), ParseAck(f).id);
    }
  }

  /**
   * Acknowledgements over runs: in order, one PUBACK for each QoS 1 PUBLISH, one PUBREC for each QoS 2
   * PUBLISH, one PUBREL for each PUBREC, one PUBCOMP for each PUBREL, each with the packet's own
   * identifier, and no others; the last one may still be owed.
   */
  lemma {:induction false} AckCorrespondence(log: seq<Event>)
    requires TraceOk(log) && Smooth(log)
    ensures AcksOwed(log) == AcksSent(log) + if Owed(log).Some? then [Owed(log).value] else []
  {
    hide ReplyOwed, IsAck, ReplyKind, PacketKind, PingAfter, Heard, IsPing, ConnackAccepts;
    if log != [] {
      var n := |log| - 1;
      var before, e := log[..n], log[n];
      assert Smooth(before);
      AckCorrespondence(before);
      if Owed(before).Some? {
        assert e == Sent(Owed(before).value);
        ReplyHasKind(before[n - 1].frame);
      } else if e.Sent? && IsAck(e.packet) {
        AckKindNotZero(e.packet);
        assert false;
      }
    }
  }

  lemma AckKindNotZero(p: seq<Byte>)
    requires IsAck(p)
    ensures PacketKind(p) != 0
  {
  }

  /** What a PUBLISH put together by the serialiser is answered with. */
  lemma ReplyToPublish(p: Publish)
    requires Sendable(p)
    ensures ReplyOwed(PublishBytes(p)) ==
            if p.qos == 1 then Some(AckBytes(PUBACK, 0, p.id))
            else if p.qos == 2 then Some(AckBytes(PUBREC, 0, p.id))
            else None
  {
    hide ParsePublish, AckBytes, PublishBody;
    var s := PublishBytes(p);
    PublishRoundTrip(p, s);
    HeaderFields(PUBLISH, p.dup, p.qos, p.retained);
  }

  /** And the second half of a QoS 2 exchange, in both directions. */
  lemma ReplyToAck(kind: nat, dup: nat, id: Word)
    requires kind < 16 && kind != PUBLISH && dup < 2
    ensures ReplyOwed(AckBytes(kind, dup, id)) ==
            if kind == PUBREC then Some(AckBytes(PUBREL, 0, id))
            else if kind == PUBREL then Some(AckBytes(PUBCOMP, 0, id))
            else None
  {
    hide ParseAck, ParsePublish;
    AckRoundTrip(kind, dup, id, AckBytes(kind, dup, id));
    HeaderFields(kind, dup, if kind == PUBREL then 1 else 0, 0);
  }
}
