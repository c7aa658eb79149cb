/** The MQTT client: one packet cycle at a time, and the operations built on it. */
module Client {
  import opened Bytes
  import opened RemainingLength
  import opened Wire
  import opened PublishPackets
  import opened SubscribePackets
  import Connecting = ConnectPackets
  import opened Transport
  import opened Framing
  import opened Handlers
  import opened SessionTrace
  import opened PacketIds

  const BUFFER_OVERFLOW := -2

  /** A packet at the start of the read buffer, with the two bytes behind it that a reader may touch. */
  ghost predicate InMemory(f: seq<Byte>, m: seq<Byte>) {
    IsFrame(f) && f <= m && |f| + 2 <= |m|
  }

  /** Deserialising from the buffer is deserialising the packet, as far as the packet goes. */
  lemma PublishInMemory(f: seq<Byte>, m: seq<Byte>)
    requires InMemory(f, m) && PacketKind(f) == PUBLISH
    ensures ParsePublish(m).Parsed? || ParsePublish(m).BadPublish?
    ensures ParsePublish(m).Parsed? ==> ParsePublish(m).qos == Qos(f[0])
    ensures ParsePublish(f).Parsed? && ParsePublish(f).payloadLen >= 0 ==> ParsePublish(m) == ParsePublish(f)
    ensures ParsePublish(m).Parsed? <==> TopicOf(f).Some?
    ensures ParsePublish(m).Parsed? ==> ParsePublish(m).topic == TopicOf(f).value
    ensures PublishRc(ParsePublish(m)) == 1 <==> Deliverable(f)
  {
    hide EncodeLength, DecodedAt, FieldInBounds, FrameBytes, StringAt, IntAt, Kind, Qos, Dup, Retain;
    var body :| |body| < LENGTH_LIMIT && f == FrameBytes(f[0], body);
    FrameHead(f, f[0], body);
    FrameHead(m, f[0], body);
    var cur, end := 1 + |EncodeLength(|body|)|, |f|;
    FrameLength(f[0], body);
    OneByteField(f, body);
    assert cur + |body| == end;
    assert StringAt(m, cur, end) == StringAt(f, cur, end) by {
      StringInMemory(f, m, cur);
    }
    if StringAt(f, cur, end).Some? {
      var next := cur + 2 + |StringAt(f, cur, end).value|;
      IntInMemory(f, m, next);
    }
  }

  lemma OneByteField(f: seq<Byte>, body: seq<Byte>)
    requires f != [] && |body| < LENGTH_LIMIT && f == FrameBytes(f[0], body)
    ensures |f| > 1 && (f[1] < 128 <==> |EncodeLength(|body|)| == 1)
  {
    EncodeLengthSize(|body|);
    assert f[1] == EncodeLength(|body|)[0];
  }

  lemma IntInMemory(f: seq<Byte>, m: seq<Byte>, at: nat)
    requires f <= m
    ensures at + 1 < |f| ==> IntAt(m, at) == IntAt(f, at)
  {
  }

  lemma FrameLength(h: Byte, body: seq<Byte>)
    ensures |FrameBytes(h, body)| == 1 + |EncodeLength(|body|)| + |body|
  {
  }

  lemma StringInMemory(f: seq<Byte>, m: seq<Byte>, at: nat)
    requires f <= m
    ensures StringAt(m, at, |f|) == StringAt(f, at, |f|)
  {
    if at + 1 < |f| && at + 2 + IntAt(f, at) <= |f| {
      var n := IntAt(f, at);
      assert m[at + 2..at + 2 + n] == f[at + 2..at + 2 + n];
    }
  }

  lemma AckInMemory(f: seq<Byte>, m: seq<Byte>)
    requires InMemory(f, m)
    ensures ParseAck(m) == ParseAck(f) && !ParseAck(f).AckOutOfBounds?
    ensures ParseAck(f).ShortAck? ==> ParseAck(f).rc == 1
    ensures m != [] && m[0] == f[0]
  {
    hide EncodeLength, DecodedAt, FieldInBounds, FrameBytes, Kind, Dup;
    var body :| |body| < LENGTH_LIMIT && f == FrameBytes(f[0], body);
    FrameHead(f, f[0], body);
    FrameHead(m, f[0], body);
    OneByteField(f, body);
    EncodeLengthSize(|body|);
    FrameLength(f[0], body);
  }

  lemma ConnackInMemory(f: seq<Byte>, m: seq<Byte>)
    requires InMemory(f, m) && PacketKind(f) == CONNACK
    ensures Connecting.ParseConnack(m) == Connecting.ParseConnack(f)
    ensures Connecting.ParseConnack(f).Connack? || Connecting.ParseConnack(f) == Connecting.ShortConnack(1)
  {
    hide EncodeLength, DecodedAt, FieldInBounds, FrameBytes, Kind;
    var body :| |body| < LENGTH_LIMIT && f == FrameBytes(f[0], body);
    FrameHead(f, f[0], body);
    FrameHead(m, f[0], body);
    FrameLength(f[0], body);
    EncodeLengthSize(|body|);
  }

  lemma SubackInMemory(f: seq<Byte>, m: seq<Byte>)
    requires InMemory(f, m)
    ensures ParseSuback(m) == ParseSuback(f) && !ParseSuback(f).SubackOutOfBounds?
  {
    hide EncodeLength, DecodedAt, FieldInBounds, FrameBytes, Kind;
    var body :| |body| < LENGTH_LIMIT && f == FrameBytes(f[0], body);
    FrameHead(f, f[0], body);
    FrameHead(m, f[0], body);
    FrameLength(f[0], body);
    var cur := 1 + |EncodeLength(|body|)|;
    if |body| >= 2 {
      assert m[cur + 2..|f|] == f[cur + 2..|f|];
    }
  }

  class MqttClient {
    const net: Network
    const buf: array<Byte>
    const bufSize: nat
    const readbuf: array<Byte>
    const readbufSize: nat
    const handlers: HandlerTable
    const commandTimeoutMs: nat
    var nextPacketId: nat
    var keepAlive: nat
    var pingOutstanding: bool
    var isConnected: bool
    var cleanSession: bool
    var defaultHandler: Option<nat>
    var lastSent: int
    var lastReceived: int
    /** Message handlers invoked so far. */
    var calls: seq<nat>
    ghost var log: seq<Event>
    ghost var wire0: seq<Byte>
    ghost var issued: nat

    /** The client's state is what its log says, and the log obeys the rules. */
    ghost predicate Valid()
      reads this, net, handlers, handlers.slots
    {
      Settled() && pingOutstanding == PingAfter(log)
    }

    /** All of that but for the ping flag, which is raised just after a ping was sent. */
    ghost predicate Settled()
      reads this, net, handlers, handlers.slots
    {
      && bufSize <= buf.Length && 5 <= readbufSize && readbufSize + 2 <= readbuf.Length && buf != readbuf
      && handlers.Valid()
      && TraceOk(log)
      && isConnected == ConnectedAfter(log)
      && net.wire == wire0 + WireOf(log)
      && nextPacketId == IdAfter(issued)
    }

    lemma Buffers()
      requires Valid()
      ensures buf != readbuf
    {
    }

    /** `MQTTClientInit`: clears the handler table; the keep-alive interval is left as it was found. */
    constructor (net: Network, commandTimeoutMs: nat, buf: array<Byte>, bufSize: nat, readbuf: array<Byte>,
                 readbufSize: nat, handlers: HandlerTable, keepAlive: nat)
      requires bufSize <= buf.Length && 5 <= readbufSize && readbufSize + 2 <= readbuf.Length && buf != readbuf
      modifies handlers.slots
      ensures Valid() && Owed(log) == None && log == [] && issued == 0 && Table(handlers.slots[..]) == map[]
      ensures this.net == net && this.buf == buf && this.readbuf == readbuf && this.handlers == handlers
      ensures this.bufSize == bufSize && this.readbufSize == readbufSize && this.commandTimeoutMs == commandTimeoutMs
      ensures !isConnected && !pingOutstanding && !cleanSession && defaultHandler == None
      ensures calls == [] && wire0 == net.wire
      ensures lastSent == 0 && lastReceived == 0 && this.keepAlive == keepAlive
    {
      this.net, this.commandTimeoutMs, this.buf, this.bufSize := net, commandTimeoutMs, buf, bufSize;
      this.readbuf, this.readbufSize, this.handlers := readbuf, readbufSize, handlers;
      this.isConnected, this.cleanSession, this.pingOutstanding := false, false, false;
      this.defaultHandler, this.nextPacketId, this.keepAlive := None, 1, keepAlive;
      this.lastSent, this.lastReceived := 0, 0;
      this.calls, this.log, this.wire0, this.issued := [], [], net.wire, 0;
      new;
      handlers.Clean();
    }

    method GetNextPacketId() returns (id: Word)
      requires nextPacketId == IdAfter(issued)
      modifies this`nextPacketId, this`issued
      ensures nextPacketId == IdAfter(issued) == id && issued == old(issued) + 1 && id > 0
    {
      nextPacketId := if nextPacketId == MAX_PACKET_ID then 1 else nextPacketId + 1;
      issued := issued + 1;
      IdAfterIs(issued);
      id := nextPacketId;
    }

    /** `sendPacket`: the first `length` bytes of the send buffer go out whole, or the call fails. */
    method SendPacket(length: nat, timer: int) returns (rc: int)
      requires Valid() && 0 < length <= bufSize
      requires StepOk(log, Sent(buf[..length]))
      modifies this`log, this`lastSent, net`wire, net`writeAnswers, net`now
      ensures rc == SUCCESS || rc == FAILURE
      ensures rc == SUCCESS ==> log == old(log) + [Sent(buf[..length])]
      ensures rc == FAILURE ==> exists p :: log == old(log) + [SendFailed(p)]
      ensures Owed(log) == None && old(net.now) <= net.now
      ensures Heard(log) ==
              if rc == SUCCESS && PacketKind(buf[..length]) == CONNECT then Some(None) else old(Heard(log))
      ensures PingAfter(log) == (pingOutstanding || (rc == SUCCESS && PacketKind(buf[..length]) == PINGREQ))
      ensures rc == SUCCESS ==> lastSent == net.now + keepAlive * 1000000
      ensures rc == FAILURE ==>
                && lastSent == old(lastSent)
                && Refused(timer, net.now, old(net.writeAnswers), net.writeAnswers, bufSize, length)
      ensures rc == SUCCESS ==> Moved(old(net.writeAnswers), length, length) == length
      ensures rc == SUCCESS ==> net.writeAnswers == Rest(old(net.writeAnswers), length, length)
      ensures Later(old(net.writeAnswers), net.writeAnswers)
      ensures Settled()
    {
      hide StepOk, TraceOk, WireOf, Owed, Heard, PingAfter, ConnectedAfter, IdAfter, PacketKind, Moved, Rest, Later;
      var sent;
      ghost var put;
      sent, put := PushOut(length, timer);
      if sent {
        var now := net.Now();
        lastSent := now + keepAlive * 1000000;
        rc := SUCCESS;
        ghost var e := Sent(buf[..length]);
        Append(log, e);
        log := log + [e];
        SentIsNoReset(buf[..length]);
      } else {
        rc := FAILURE;
        FailureAllowed(log, buf[..put]);
        Append(log, SendFailed(buf[..put]));
        log := log + [SendFailed(buf[..put])];
      }
    }

    /** The loop of `sendPacket`; `put` bytes are on the wire in any case. */
    method PushOut(length: nat, timer: int) returns (done: bool, ghost put: nat)
      requires 0 < length <= buf.Length
      modifies net`wire, net`writeAnswers, net`now
      ensures put <= length && net.wire == old(net.wire) + buf[..put] && old(net.now) <= net.now
      ensures done ==> put == length == Moved(old(net.writeAnswers), length, length)
      ensures done ==> net.writeAnswers == Rest(old(net.writeAnswers), length, length)
      ensures !done ==> Unsent(timer, net.now, old(net.writeAnswers), net.writeAnswers, length)
      ensures Later(old(net.writeAnswers), net.writeAnswers)
    {
      hide Moved, Rest;
      var sent := 0;
      put := 0;
      while sent < length
        invariant (sent == 0 && put == 0) || sent == put == length
        invariant net.wire == old(net.wire) + buf[..put] && old(net.now) <= net.now
        invariant sent == 0 ==> net.writeAnswers == old(net.writeAnswers)
        invariant sent == length ==> Moved(old(net.writeAnswers), length, length) == length
        invariant sent == length ==> net.writeAnswers == Rest(old(net.writeAnswers), length, length)
        invariant Later(old(net.writeAnswers), net.writeAnswers)
        decreases length - sent
      {
        var expired := net.Expired(timer);
        if expired {
          break;
        }
        RestIsLater(net.writeAnswers, length, length);
        var rc;
        rc, put := net.Write(buf, sent, length);
        if rc < 0 {
          break;
        }
        sent := sent + rc;
      }
      done := sent == length;
    }

    /** A send that was given up before it began. */
    ghost method RecordGiveUp()
      requires Settled()
      modifies this`log
      ensures Settled() && log == old(log) + [SendFailed([])] && Owed(log) == None
      ensures Heard(log) == old(Heard(log)) && PingAfter(log) == old(PingAfter(log))
    {
      hide StepOk, TraceOk, WireOf, Owed, Heard, PingAfter, ConnectedAfter, IdAfter;
      FailureAllowed(log, []);
      Append(log, SendFailed([]));
      log := log + [SendFailed([])];
    }

    /** `readPacket`: the next packet, put into the read buffer; the result follows the blocking reader's reference. */
    method ReadPacket() returns (rc: int, ghost frame: seq<Byte>)
      requires Valid() && Owed(log) == None
      modifies this`log, this`lastReceived, readbuf, net`pending, net`answers, net`failed, net`now
      ensures Settled() && BUFFER_OVERFLOW <= rc < 16 && old(net.now) <= net.now
      ensures rc <= 0 ==> log == old(log)
      ensures rc > 0 ==> log == old(log) + [Received(frame)] && Owed(log) == ReplyOwed(frame)
      ensures rc > 0 ==> InMemory(frame, readbuf[..]) && PacketKind(frame) == rc
      ensures Heard(log) == if rc > 0 && old(Heard(log)).Some? then Some(Some(frame)) else old(Heard(log))
      ensures PingAfter(log) == (pingOutstanding && rc != PINGRESP)
      ensures rc < 0 ==> frame == []
      ensures lastReceived == if frame != [] && keepAlive > 0 then net.now + keepAlive * 1000000 else old(lastReceived)
      ensures rc >= 0 ==> |net.answers| < old(|net.answers|)
      ensures |net.answers| <= old(|net.answers|)
      ensures old(net.failed) ==> net.failed
      ensures !net.failed && !old(net.failed) ==> Follows(old(net.pending), net.pending, readbufSize, rc, frame)
      ensures rc == -1 ==> net.failed
      ensures rc == BUFFER_OVERFLOW ==> HoldsTooBig(readbuf[..], readbufSize)
    {
      hide StepOk, TraceOk, WireOf, Owed, Heard, PingAfter, ConnectedAfter, IdAfter, PacketKind, ReplyOwed;
      hide Kind, SegmentOf, IsFrame, HoldsTooBig;
      var r;
      r, frame := FetchPacket(net, readbuf, readbufSize);
      match r {
        case NoHeader => rc := -1;
        case TooBig => rc := BUFFER_OVERFLOW;
        case ShortBody => rc := 0;
        case Complete =>
          rc := Kind(readbuf[0]);
          KindOfFrame(frame);
          if keepAlive > 0 {
            var now := net.Now();
            lastReceived := now + keepAlive * 1000000;
          }
          if rc > 0 {
            ReceiveAllowed(log, frame);
            Append(log, Received(frame));
            log := log + [Received(frame)];
            ReceiveResets(frame);
          }
      }
    }

    /** `keepalive`: pings when a timer has run out, and fails when the last ping is still unanswered. */
    method Keepalive() returns (rc: int)
      requires Valid() && Owed(log) == None
      modifies this`log, this`lastSent, this`pingOutstanding, buf, net`wire, net`writeAnswers, net`now
      ensures Valid() && Owed(log) == None && Heard(log) == old(Heard(log)) && old(net.now) <= net.now
      ensures rc == SUCCESS || rc == FAILURE
      ensures rc == SUCCESS ==> log == old(log) || log == old(log) + [Sent(Connecting.ZeroBytes(PINGREQ))]
      ensures rc == FAILURE ==> log == old(log) || exists p :: log == old(log) + [SendFailed(p)]
      ensures old(pingOutstanding) ==> log == old(log)
      ensures old(pingOutstanding) && keepAlive > 0 ==>
                old(lastSent) <= old(net.now) || lastReceived <= old(net.now) ==> rc == FAILURE
      ensures keepAlive == 0 || (net.now < old(lastSent) && net.now < lastReceived) ==> rc == SUCCESS && log == old(log)
      ensures !old(pingOutstanding) && keepAlive > 0 && bufSize >= 2 ==>
                old(lastSent) <= old(net.now) || lastReceived <= old(net.now) ==> log != old(log)
      ensures rc == FAILURE && log == old(log) ==> old(pingOutstanding)
      ensures old(log) <= log && |log| <= old(|log|) + 1 && !Sends(old(log), log)
      ensures old(pingOutstanding) ==> lastSent == old(lastSent)
      ensures rc == FAILURE ==> Overdue(net.now)
      ensures rc == FAILURE && !old(pingOutstanding) ==>
                Unsent(old(net.now) + 1000000, net.now, old(net.writeAnswers), net.writeAnswers, 2)
      ensures Later(old(net.writeAnswers), net.writeAnswers)
    {
      hide StepOk, TraceOk, WireOf, Owed, Heard, PingAfter, ConnectedAfter, IdAfter, PacketKind, Moved, Rest, IsAck;
      hide Later;
      LaterSelf(net.writeAnswers);
      rc := SUCCESS;
      if keepAlive == 0 {
        return;
      }
      var expired := net.Expired(lastSent);
      if !expired {
        expired := net.Expired(lastReceived);
      }
      if expired {
        if pingOutstanding {
          rc := FAILURE;
        } else {
          rc := SendPing();
        }
      }
    }

    /** The ping of `keepalive`; a send buffer without room for it is no error. */
    method SendPing() returns (rc: int)
      requires Valid() && Owed(log) == None && !pingOutstanding
      modifies this`log, this`lastSent, this`pingOutstanding, buf, net`wire, net`writeAnswers, net`now
      ensures Valid() && Owed(log) == None && Heard(log) == old(Heard(log)) && old(net.now) <= net.now
      ensures rc == SUCCESS || rc == FAILURE
      ensures bufSize < 2 ==> rc == SUCCESS && log == old(log)
      ensures bufSize >= 2 && rc == SUCCESS ==> log == old(log) + [Sent(Connecting.ZeroBytes(PINGREQ))]
      ensures rc == FAILURE ==> lastSent == old(lastSent) && exists p :: log == old(log) + [SendFailed(p)]
      ensures rc == FAILURE ==> Unsent(old(net.now) + 1000000, net.now, old(net.writeAnswers), net.writeAnswers, 2)
      ensures Later(old(net.writeAnswers), net.writeAnswers) && !Sends(old(log), log)
    {
      hide StepOk, TraceOk, WireOf, Owed, Heard, PingAfter, ConnectedAfter, IdAfter, PacketKind, Moved, Rest, IsAck;
      hide Later, Sends, Consistent;
      LaterSelf(net.writeAnswers);
      rc := SUCCESS;
      var now := net.Now();
      var len := Connecting.SerializeZero(buf, bufSize, PINGREQ);
      if len > 0 {
        ghost var p := buf[..len];
        assert p == Connecting.ZeroBytes(PINGREQ);
        ZeroKind(PINGREQ);
        KindIsNoAck(p);
        PingAllowed(log, p);
        rc := SendPacket(len, now + 1000 * 1000);
        if rc == SUCCESS {
          pingOutstanding := true;
        }
      }
      PingAnswersNothing(old(log), log);
    }

    /** `MQTTCloseSession`. */
    method CloseSession()
      requires Settled() && Owed(log) == None
      modifies this`log, this`pingOutstanding, this`isConnected, handlers.slots
      ensures Valid() && Owed(log) == None && !isConnected && !pingOutstanding
      ensures log == old(log) + [Closed] && Heard(log) == None && PingLost(log) == old(PingLost(log))
      ensures handlers.slots[..] == Kept(old(handlers.slots[..]), cleanSession)
      ensures cleanSession ==> Table(handlers.slots[..]) == map[]
    {
      hide StepOk, TraceOk, WireOf, Owed, Heard, PingAfter, ConnectedAfter, IdAfter, PingLost;
      pingOutstanding := false;
      isConnected := false;
      CloseAllowed(log);
      PingLostLonger(log);
      Append(log, Closed);
      log := log + [Closed];
      if cleanSession {
        handlers.Clean();
      }
    }

    /** Serialises and sends the answer to the packet received last. */
    method SendAck(kind: nat, id: Word, timer: int, ghost f: seq<Byte>) returns (rc: int)
      requires Valid() && log != [] && log[|log| - 1] == Received(f)
      requires PUBACK <= kind <= PUBCOMP && ReplyKind(f) == kind
      requires ReplyOwed(f).Some? ==> ReplyOwed(f).value == AckBytes(kind, 0, id)
      modifies this`log, this`lastSent, buf, net`wire, net`writeAnswers, net`now
      ensures Valid() && Owed(log) == None && Heard(log) == old(Heard(log)) && old(net.now) <= net.now
      ensures rc == SUCCESS || rc == FAILURE
      ensures rc == SUCCESS ==> log == old(log) + [Sent(AckBytes(kind, 0, id))] && Sends(old(log), log)
      ensures rc == FAILURE ==> lastSent == old(lastSent) && exists p :: log == old(log) + [SendFailed(p)]
      ensures rc == FAILURE ==> Refused(timer, net.now, old(net.writeAnswers), net.writeAnswers, bufSize, 4)
      ensures rc == SUCCESS ==> net.writeAnswers == Rest(old(net.writeAnswers), 4, 4)
      ensures Later(old(net.writeAnswers), net.writeAnswers)
    {
      hide StepOk, TraceOk, WireOf, Owed, Heard, PingAfter, ConnectedAfter, IdAfter, PacketKind, ReplyOwed, ReplyKind;
      hide AckBytes, Moved, Rest, Later;
      LaterSelf(net.writeAnswers);
      var len := SerializeAck(buf, bufSize, kind, 0, id);
      if len <= 0 {
        RecordGiveUp();
        return FAILURE;
      }
      assert buf[..len] == AckBytes(kind, 0, id);
      AckAllowed(log, f, kind, id);
      rc := SendPacket(len, timer);
    }

    /** The PUBLISH case of `cycle`; `stop` leaves it before the keep-alive without an error. */
    method HandlePublish(timer: int, ghost f: seq<Byte>) returns (rc: int, stop: bool)
      requires Valid() && log != [] && log[|log| - 1] == Received(f)
      requires InMemory(f, readbuf[..]) && PacketKind(f) == PUBLISH
      modifies this`log, this`lastSent, this`calls, buf, net`wire, net`writeAnswers, net`now
      ensures Valid() && Owed(log) == None && Heard(log) == old(Heard(log)) && old(net.now) <= net.now
      ensures rc == SUCCESS || rc == FAILURE
      ensures rc == SUCCESS ==> AnswerLog(old(log), log, f)
      ensures rc == FAILURE ==> exists p :: log == old(log) + [SendFailed(p)]
      ensures rc == FAILURE ==>
                Qos(f[0]) == 3 || Refused(timer, net.now, old(net.writeAnswers), net.writeAnswers, bufSize, 4)
      ensures stop <==> !Deliverable(f)
      ensures stop ==> rc == SUCCESS && log == old(log) && calls == old(calls)
      ensures Qos(f[0]) == 0 ==> rc == SUCCESS && log == old(log)
      ensures Qos(f[0]) != 0 && !stop ==> (rc == SUCCESS <==> Sends(old(log), log))
      ensures !Sends(old(log), log) ==> lastSent == old(lastSent)
      ensures rc == SUCCESS ==> net.writeAnswers == Left(old(net.writeAnswers), Sends(old(log), log))
      ensures TopicOf(f).Some? ==> calls == old(calls) + Calls(handlers.slots[..], defaultHandler, TopicOf(f).value)
      ensures Later(old(net.writeAnswers), net.writeAnswers)
    {
      hide StepOk, TraceOk, WireOf, Heard, PingAfter, ConnectedAfter, IdAfter, Later;
      hide ParsePublish, AckBytes, Calls, IsFrame, Kind, Refused, Qos, TopicOf, Deliverable, Rest, Proper, Delivers;
      LaterSelf(net.writeAnswers);
      PublishInMemory(f, readbuf[..]);
      KindOfFrame(f);
      assert readbuf[0] == f[0];
      var rc1, dup, qos, retained, id, topic, payloadAt, payloadLen := DeserializePublish(readbuf);
      if rc1 != 1 {
        return SUCCESS, true;
      }
      stop := false;
      ghost var ix;
      var delivered, made;
      delivered, made, ix := handlers.DeliverMessage(topic, defaultHandler);
      calls := calls + made;
      rc := SUCCESS;
      PublishReply(f);
      if qos != 0 {
        if qos == 1 {
          rc := SendAck(PUBACK, id, timer, f);
        } else if qos == 2 {
          rc := SendAck(PUBREC, id, timer, f);
        } else {
          RecordGiveUp();
          rc := FAILURE;
        }
      }
    }

    /** The PUBREC and PUBREL cases of `cycle`. */
    method HandleAck(timer: int, ghost f: seq<Byte>) returns (rc: int)
      requires Valid() && log != [] && log[|log| - 1] == Received(f)
      requires InMemory(f, readbuf[..]) && (PacketKind(f) == PUBREC || PacketKind(f) == PUBREL)
      modifies this`log, this`lastSent, buf, net`wire, net`writeAnswers, net`now
      ensures Valid() && Owed(log) == None && Heard(log) == old(Heard(log)) && old(net.now) <= net.now
      ensures rc == SUCCESS || rc == FAILURE
      ensures rc == SUCCESS ==> AnswerLog(old(log), log, f)
      ensures rc == SUCCESS <==> Sends(old(log), log)
      ensures rc == FAILURE ==> lastSent == old(lastSent)
      ensures rc == FAILURE ==> exists p :: log == old(log) + [SendFailed(p)]
      ensures rc == FAILURE ==> Refused(timer, net.now, old(net.writeAnswers), net.writeAnswers, bufSize, 4)
      ensures rc == SUCCESS ==> net.writeAnswers == Left(old(net.writeAnswers), true)
      ensures Later(old(net.writeAnswers), net.writeAnswers)
    {
      hide StepOk, TraceOk, WireOf, Heard, PingAfter, ConnectedAfter, IdAfter, Later;
      hide ParseAck, AckBytes, IsFrame, Kind, Refused, Rest;
      AckInMemory(f, readbuf[..]);
      KindOfFrame(f);
      var rc1, kind, dup, id := DeserializeAck(readbuf);
      if rc1 != 1 {
        assert false; // a whole packet always gets the code 1
        return FAILURE;
      }
      rc := SendAck(if Kind(readbuf[0]) == PUBREC then PUBREL else PUBCOMP, id, timer, f);
    }

    /** The switch of `cycle`; `on` when it goes on to the keep-alive. */
    method Dispatch(kind: int, timer: int, ghost f: seq<Byte>) returns (rc: int, on: bool)
      requires Settled() && PingAfter(log) == (pingOutstanding && kind != PINGRESP)
      requires kind > 0 ==> log != [] && log[|log| - 1] == Received(f)
      requires kind > 0 ==> InMemory(f, readbuf[..]) && PacketKind(f) == kind
      requires kind <= 0 ==> Owed(log) == None
      modifies this`log, this`lastSent, this`pingOutstanding, this`calls, buf, net`wire, net`writeAnswers, net`now
      ensures Valid() && Owed(log) == None && Heard(log) == old(Heard(log)) && old(net.now) <= net.now
      ensures on ==> rc == SUCCESS && PassResult(kind)
      ensures !on && rc == SUCCESS ==> kind == PUBLISH
      ensures rc == SUCCESS ==> log == old(log) || (kind > 0 && AnswerLog(old(log), log, f))
      ensures old(log) <= log
      ensures rc != SUCCESS ==> !PassResult(rc) && (rc == FAILURE || rc == kind)
      ensures on <==> Reaches(kind, f, Sends(old(log), log))
      ensures kind <= 0 ==> log == old(log) && lastSent == old(lastSent)
      ensures !Sends(old(log), log) ==> lastSent == old(lastSent)
      ensures pingOutstanding == (old(pingOutstanding) && kind != PINGRESP) && |log| <= old(|log|) + 1
      ensures kind == PUBLISH && TopicOf(f).Some? ==>
                calls == old(calls) + Calls(handlers.slots[..], defaultHandler, TopicOf(f).value)
      ensures kind != PUBLISH || !Deliverable(f) ==> calls == old(calls)
      ensures !PassResult(kind) ==> rc == kind
      ensures rc != SUCCESS && PassResult(kind) ==>
                Unanswered(kind, f, timer, net.now, old(net.writeAnswers), net.writeAnswers, bufSize)
      ensures on ==> net.writeAnswers == Left(old(net.writeAnswers), Sends(old(log), log))
      ensures Later(old(net.writeAnswers), net.writeAnswers)
    {
      hide StepOk, TraceOk, WireOf, Heard, PingAfter, ConnectedAfter, IdAfter, Later;
      hide ParsePublish, ParseAck, AckBytes, IsFrame, Kind, Calls, Qos, TopicOf, Deliverable, Refused, Rest;
      LaterSelf(net.writeAnswers);
      rc, on := SUCCESS, true;
      if kind == 0 || kind == CONNACK || kind == PUBACK || kind == SUBACK || kind == UNSUBACK || kind == PUBCOMP {
      } else if kind == PUBLISH {
        var stop;
        rc, stop := HandlePublish(timer, f);
        on := !stop && rc == SUCCESS;
      } else if kind == PUBREC || kind == PUBREL {
        rc := HandleAck(timer, f);
        on := rc == SUCCESS;
      } else if kind == PINGRESP {
        pingOutstanding := false;
      } else {
        rc, on := kind, false;
      }
    }

    /** The keep-alive is on and one of its timers has run out. */
    ghost predicate Overdue(at: int)
      reads this
    {
      keepAlive > 0 && (lastSent <= at || lastReceived <= at)
    }

    /**
     * Why a packet that passes can still end in a failure: its answer was not sent, or the keep-alive was
     * reached with a timer run out and either a ping unanswered or its own ping not sent.
     */
    ghost predicate Blamed(kind: int, f: seq<Byte>, timer: int, reached: bool, at: int, ping: bool,
                           writeAnswers: seq<int>, answered: bool)
      reads this, net
    {
      || Unanswered(kind, f, timer, net.now, writeAnswers, net.writeAnswers, bufSize)
      || (&& reached && Overdue(net.now)
          && ((ping && kind != PINGRESP && PingLost(log))
              || Unsent(at + 1000000, net.now, Left(writeAnswers, answered), net.writeAnswers, 2)))
    }

    /**
     * Why an operation that began at time `start` can fail once its packet is ready: the time is over; the
     * transport failed to read, or to write something that was to be sent; the packet in the read buffer is
     * too big or cannot be answered; or a timer of the keep-alive has run out, with a ping unanswered or not
     * sent within its second.
     */
    ghost predicate Explained(timer: int, start: int, writeAnswers: seq<int>)
      reads this, net, readbuf
    {
      || timer <= net.now
      || net.failed || HoldsTooBig(readbuf[..], readbufSize) || Unanswerable(readbuf[..], bufSize)
      || Broke(writeAnswers, net.writeAnswers)
      || (Overdue(net.now) && (PingLost(log) || start + 1000000 <= net.now))
    }

    lemma ExplainedEarlier(timer: int, start: int, start1: int, a: seq<int>, b: seq<int>)
      requires Explained(timer, start1, b) && start <= start1 && Later(a, b)
      ensures Explained(timer, start, a)
    {
      hide HoldsTooBig, Unanswerable, Broke, PingLost, Later;
      if Broke(b, net.writeAnswers) {
        BrokeEarlier(a, b, net.writeAnswers);
      }
    }

    lemma UnsentExplained(timer: int, start: int, a: seq<int>, length: nat)
      requires Unsent(timer, net.now, a, net.writeAnswers, length)
      ensures Explained(timer, start, a)
    {
      hide HoldsTooBig, Unanswerable, Broke, PingLost, Later, Moved, Rest;
      LaterSelf(a);
      if Moved(a, length, length) < length {
        BrokeHere(a, a, length);
      }
    }

    lemma BlamedExplained(kind: int, f: seq<Byte>, timer: int, reached: bool, start: int, at: int, ping: bool,
                          a: seq<int>, answered: bool)
      requires Blamed(kind, f, timer, reached, at, ping, a, answered) && start <= at
      requires kind > 0 ==> InMemory(f, readbuf[..]) && PacketKind(f) == kind
      ensures Explained(timer, start, a)
    {
      hide HoldsTooBig, Broke, PingLost, Later, Moved, Rest, IsFrame, Qos, Kind;
      RestIsLater(a, 4, 4);
      LaterSelf(a);
      if Moved(a, 4, 4) < 4 {
        BrokeHere(a, a, 4);
      }
      if Moved(Left(a, answered), 2, 2) < 2 {
        BrokeHere(a, Left(a, answered), 2);
      }
    }

    /** What `cycle` does after reading: the switch, and the keep-alive when it is reached. */
    method Respond(kind: int, timer: int, ghost f: seq<Byte>) returns (rc: int, ghost reached: bool, ghost at: int)
      requires Settled() && PingAfter(log) == (pingOutstanding && kind != PINGRESP)
      requires kind > 0 ==> log != [] && log[|log| - 1] == Received(f)
      requires kind > 0 ==> InMemory(f, readbuf[..]) && PacketKind(f) == kind
      requires kind <= 0 ==> Owed(log) == None
      modifies this`log, this`lastSent, this`pingOutstanding, this`calls, buf, net`wire, net`writeAnswers, net`now
      ensures Valid() && Owed(log) == None && Heard(log) == old(Heard(log)) && old(net.now) <= at <= net.now
      ensures rc == SUCCESS ==> PassResult(kind) && RespondLog(old(log), log, kind, f)
      ensures rc != SUCCESS ==> !PassResult(rc) && (rc == FAILURE || rc == kind)
      ensures old(log) <= log
      ensures reached <==> Reaches(kind, f, Sends(old(log), log))
      ensures kind <= 0 ==> !Sends(old(log), log)
      ensures reached && old(pingOutstanding) && kind != PINGRESP && Overdue(at) ==>
                rc == FAILURE
      ensures old(pingOutstanding) && kind != PINGRESP ==>
                kind <= 0 || !Sends(old(log), log) ==> lastSent == old(lastSent)
      ensures kind == PUBLISH && TopicOf(f).Some? ==>
                calls == old(calls) + Calls(handlers.slots[..], defaultHandler, TopicOf(f).value)
      ensures kind != PUBLISH || !Deliverable(f) ==> calls == old(calls)
      ensures !PassResult(kind) ==> rc == kind
      ensures rc != SUCCESS && PassResult(kind) ==>
                Blamed(kind, f, timer, reached, at, old(pingOutstanding), old(net.writeAnswers), Sends(old(log), log))
      ensures Later(old(net.writeAnswers), net.writeAnswers)
    {
      hide StepOk, TraceOk, WireOf, Owed, Heard, PingAfter, ConnectedAfter, IdAfter, Later;
      hide Calls, PacketKind, InMemory, AnswerLog, RespondLog, Consistent, Settled;
      hide Reaches, Sends, TopicOf, Deliverable, Unanswered, Unsent, Left, PingLost;
      var on;
      rc, on := Dispatch(kind, timer, f);
      ghost var answered, left := log, net.writeAnswers;
      reached, at := on, net.now;
      if on {
        var alive := Keepalive();
        LaterStill(old(net.writeAnswers), left, net.writeAnswers);
        if alive != SUCCESS {
          rc := FAILURE;
          PingLostLonger(log);
        }
      }
      AnsweredLater(old(log), answered, log);
      if rc == SUCCESS {
        RespondLogMade(old(log), answered, log, kind, f);
      }
    }

    /** `cycle` up to its label `exit`. */
    method Work(timer: int)
      returns (rc: int, kind: int, ghost frame: seq<Byte>, ghost reached: bool, ghost at: int)
      requires Valid() && Owed(log) == None
      modifies this`log, this`lastSent, this`lastReceived, this`pingOutstanding, this`calls, buf, readbuf
      modifies net`pending, net`answers, net`failed, net`wire, net`writeAnswers, net`now
      ensures Valid() && Owed(log) == None && BUFFER_OVERFLOW <= kind < 16 && old(net.now) <= net.now
      ensures rc == SUCCESS ==> PassResult(kind) && CycleLog(old(log), log, kind, frame)
      ensures old(log) <= log
      ensures kind > 0 ==> InMemory(frame, readbuf[..]) && PacketKind(frame) == kind
      ensures rc != SUCCESS ==> !PassResult(rc) && (rc == FAILURE || rc == kind)
      ensures kind >= 0 ==> |net.answers| < old(|net.answers|)
      ensures Heard(log) == if kind > 0 && old(Heard(log)).Some? then Some(Some(frame)) else old(Heard(log))
      ensures kind == PUBLISH && TopicOf(frame).Some? ==>
                calls == old(calls) + Calls(handlers.slots[..], defaultHandler, TopicOf(frame).value)
      ensures kind != PUBLISH || !Deliverable(frame) ==> calls == old(calls)
      ensures reached <==> Reaches(kind, frame, AnsweredIn(old(log), log))
      ensures old(net.now) <= at <= net.now
      ensures reached && old(pingOutstanding) && kind != PINGRESP && Overdue(at) ==>
                rc == FAILURE
      ensures old(pingOutstanding) && kind != PINGRESP ==>
                kind <= 0 || !AnsweredIn(old(log), log) ==> lastSent == old(lastSent)
      ensures frame == [] || keepAlive == 0 ==> lastReceived == old(lastReceived)
      ensures old(net.failed) ==> net.failed
      ensures !net.failed && !old(net.failed) ==> Follows(old(net.pending), net.pending, readbufSize, kind, frame)
      ensures kind == -1 ==> net.failed
      ensures kind == BUFFER_OVERFLOW ==> HoldsTooBig(readbuf[..], readbufSize)
      ensures !PassResult(kind) ==> rc == kind
      ensures rc != SUCCESS && PassResult(kind) ==>
                Blamed(kind, frame, timer, reached, at, old(pingOutstanding), old(net.writeAnswers),
                       kind > 0 && AnsweredIn(old(log), log))
      ensures Later(old(net.writeAnswers), net.writeAnswers)
    {
      hide StepOk, TraceOk, WireOf, Owed, Heard, PingAfter, ConnectedAfter, IdAfter, Later;
      hide Calls, ReplyOwed, PacketKind, InMemory, RespondLog, Follows, Consistent, Settled, Valid;
      hide Reaches, TopicOf, Deliverable, IsAck, Unanswered, Unsent, Left, PingLost, HoldsTooBig;
      Buffers();
      kind, frame := ReadPacket();
      assert log == ReadLog(old(log), kind, frame);
      rc, reached, at := Respond(kind, timer, frame);
      NoPacketNoAnswer(kind, frame, Sends(ReadLog(old(log), kind, frame), log), AnsweredIn(old(log), log));
    }

    /**
     * `cycle`: one packet, its answer, the keep-alive. `kind` is the packet type read and `frame` the
     * packet. A run of cycles over an intact transport follows the segments of the stream. `reached`
     * tells whether the keep-alive was reached, at time `at`; a cycle that reaches it with a ping
     * unanswered and either timer run out closes the session.
     */
    method Cycle(timer: int)
      returns (rc: int, ghost kind: int, ghost frame: seq<Byte>, ghost reached: bool, ghost at: int)
      requires Valid() && Owed(log) == None
      modifies this`log, this`lastSent, this`lastReceived, this`pingOutstanding, this`isConnected, this`calls
      modifies buf, readbuf, handlers.slots
      modifies net`pending, net`answers, net`failed, net`wire, net`writeAnswers, net`now
      ensures Valid() && Owed(log) == None && BUFFER_OVERFLOW <= kind < 16 && old(net.now) <= net.now
      ensures PassResult(rc) ==> isConnected == old(isConnected)
      ensures handlers.slots[..] == Kept(old(handlers.slots[..]), old(isConnected) && !isConnected && cleanSession)
      ensures !PassResult(rc) ==> !isConnected
      ensures PassResult(rc) ==> rc == kind && CycleLog(old(log), log, kind, frame)
      ensures old(log) <= log
      ensures PassResult(rc) && rc > 0 ==> InMemory(frame, readbuf[..]) && PacketKind(frame) == rc
      ensures rc >= 0 ==> |net.answers| < old(|net.answers|)
      ensures !old(isConnected) && old(Heard(log)).Some? ==> Heard(log).Some?
      ensures !old(isConnected) && old(Heard(log)).Some? && PassResult(rc) && rc > 0 ==> Heard(log) == Some(Some(frame))
      ensures kind == PUBLISH && TopicOf(frame).Some? ==>
                calls == old(calls) + Calls(old(handlers.slots[..]), defaultHandler, TopicOf(frame).value)
      ensures kind != PUBLISH || !Deliverable(frame) ==> calls == old(calls)
      ensures reached <==> Reaches(kind, frame, AnsweredIn(old(log), log))
      ensures old(net.now) <= at <= net.now
      ensures reached && old(pingOutstanding) && kind != PINGRESP && Overdue(at) ==>
                rc == FAILURE && !isConnected
      ensures old(pingOutstanding) && kind != PINGRESP ==>
                kind <= 0 || !AnsweredIn(old(log), log) ==> lastSent == old(lastSent)
      ensures frame == [] || keepAlive == 0 ==> lastReceived == old(lastReceived)
      ensures old(net.failed) ==> net.failed
      ensures !net.failed && !old(net.failed) ==> Follows(old(net.pending), net.pending, readbufSize, kind, frame)
      ensures kind == -1 ==> net.failed
      ensures kind == BUFFER_OVERFLOW ==> HoldsTooBig(readbuf[..], readbufSize)
      ensures rc == kind || (rc == FAILURE && PassResult(kind))
      ensures rc != kind ==>
                Blamed(kind, frame, timer, reached, at, old(pingOutstanding), old(net.writeAnswers),
                       kind > 0 && AnsweredIn(old(log), log))
      ensures rc != kind ==> Explained(timer, old(net.now), old(net.writeAnswers))
      ensures PassResult(kind) && !Overdue(net.now)
              && !Unanswered(kind, frame, timer, net.now, old(net.writeAnswers), net.writeAnswers, bufSize) ==>
                rc == kind && isConnected == old(isConnected)
      ensures Later(old(net.writeAnswers), net.writeAnswers)
    {
      hide StepOk, TraceOk, WireOf, Owed, Heard, PingAfter, ConnectedAfter, IdAfter, Later;
      hide ParsePublish, Calls, PacketKind, InMemory, CycleLog, Follows, Reaches, AnsweredIn, TopicOf, Deliverable;
      hide Unanswered, Unsent, Left, PingLost, HoldsTooBig;
      var packetType;
      rc, packetType, frame, reached, at := Work(timer);
      kind := packetType;
      if rc != SUCCESS && PassResult(kind) {
        BlamedExplained(kind, frame, timer, reached, old(net.now), at, old(pingOutstanding), old(net.writeAnswers),
                        kind > 0 && AnsweredIn(old(log), log));
      }
      if rc == SUCCESS {
        rc := packetType;
      } else if isConnected {
        ClosingAnswersNothing(old(log), log);
        CloseSession();
      }
    }

    /** `waitfor`: cycles until a packet of the wanted type was read, the timer runs out or an error is met. */
    method WaitFor(packetType: int, timer: int) returns (rc: int, ghost frame: seq<Byte>)
      requires Valid() && Owed(log) == None && packetType > 0 && PassResult(packetType)
      modifies this`log, this`lastSent, this`lastReceived, this`pingOutstanding, this`isConnected, this`calls
      modifies buf, readbuf, handlers.slots
      modifies net`pending, net`answers, net`failed, net`wire, net`writeAnswers, net`now
      ensures Valid() && Owed(log) == None && old(log) <= log
      ensures isConnected ==> old(isConnected)
      ensures handlers.slots[..] == Kept(old(handlers.slots[..]), old(isConnected) && !isConnected && cleanSession)
      ensures rc == packetType ==> InMemory(frame, readbuf[..]) && PacketKind(frame) == packetType
      ensures rc == packetType ==> Logged(log, old(|log|), frame)
      ensures rc == packetType || timer <= net.now || (rc < 0 && !isConnected)
      ensures old(net.now) <= net.now
      ensures !old(isConnected) && old(Heard(log)).Some? ==>
                Heard(log).Some? && (rc == packetType ==> Heard(log) == Some(Some(frame)))
      ensures rc == packetType || Explained(timer, old(net.now), old(net.writeAnswers))
      ensures Later(old(net.writeAnswers), net.writeAnswers)
    {
      hide StepOk, TraceOk, WireOf, Owed, Heard, PingAfter, ConnectedAfter, IdAfter;
      hide ParsePublish, Calls, PacketKind, InMemory, CycleLog, Follows, Consistent, Logged, Later, Blamed, Reaches;
      hide HoldsTooBig, Unanswered, Unanswerable, Broke, PingLost, TopicOf, Deliverable, AnsweredIn;
      LaterSelf(net.writeAnswers);
      rc, frame := FAILURE, [];
      while true
        invariant Valid() && Owed(log) == None && old(log) <= log && old(net.now) <= net.now
        invariant isConnected ==> old(isConnected)
        invariant handlers.slots[..] == Kept(old(handlers.slots[..]), old(isConnected) && !isConnected && cleanSession)
        invariant rc != packetType
        invariant !old(isConnected) && old(Heard(log)).Some? ==> Heard(log).Some?
        invariant Later(old(net.writeAnswers), net.writeAnswers)
        decreases |net.answers|
      {
        var expired := net.Expired(timer);
        if expired {
          break;
        }
        ghost var kind, reached, at, before := 0, false, 0, log;
        ghost var start, left := net.now, net.writeAnswers;
        rc, kind, frame, reached, at := Cycle(timer);
        LaterStill(old(net.writeAnswers), left, net.writeAnswers);
        if rc == packetType {
          CycleLogged(before, log, kind, frame);
          LoggedBefore(log, |before|, old(|log|), frame);
          break;
        }
        if rc < 0 {
          if rc != kind {
            ExplainedEarlier(timer, old(net.now), start, old(net.writeAnswers), left);
          }
          break;
        }
      }
    }

    /** `MQTTYield`. */
    method Yield(timeoutMs: nat) returns (rc: int)
      requires Valid() && Owed(log) == None
      modifies this`log, this`lastSent, this`lastReceived, this`pingOutstanding, this`isConnected, this`calls
      modifies buf, readbuf, handlers.slots
      modifies net`pending, net`answers, net`failed, net`wire, net`writeAnswers, net`now
      ensures Valid() && Owed(log) == None && old(log) <= log
      ensures isConnected ==> old(isConnected)
      ensures rc == SUCCESS || (rc == FAILURE && !isConnected)
      ensures rc == SUCCESS ==> old(net.now) + timeoutMs * 1000 <= net.now
      ensures rc == FAILURE ==> Explained(old(net.now) + timeoutMs * 1000, old(net.now), old(net.writeAnswers))
    {
      hide StepOk, TraceOk, WireOf, Owed, Heard, PingAfter, ConnectedAfter, IdAfter;
      hide ParsePublish, Calls, PacketKind, InMemory, CycleLog, Follows, Consistent, Later, Blamed, Reaches;
      hide HoldsTooBig, Unanswered, Unanswerable, Broke, PingLost, TopicOf, Deliverable, AnsweredIn;
      LaterSelf(net.writeAnswers);
      rc := SUCCESS;
      var now := net.Now();
      var timer := now + timeoutMs * 1000;
      while true
        invariant Valid() && Owed(log) == None && old(log) <= log
        invariant isConnected ==> old(isConnected)
        invariant Later(old(net.writeAnswers), net.writeAnswers) && old(net.now) <= net.now
        decreases |net.answers|
      {
        ghost var start, left := net.now, net.writeAnswers;
        var r, kind, frame, reached, at := Cycle(timer);
        LaterStill(old(net.writeAnswers), left, net.writeAnswers);
        if r < 0 {
          if r != kind {
            ExplainedEarlier(timer, old(net.now), start, old(net.writeAnswers), left);
          }
          return FAILURE;
        }
        var expired := net.Expired(timer);
        if expired {
          break;
        }
      }
    }

    /**
     * `MQTTConnectWithResults`: the connection comes up exactly when the call succeeds, and then the
     * CONNECT was the first thing this call logged and the acceptance the last.
     */
    method Connect(options: Option<Connecting.ConnectData>) returns (rc: int, ghost frame: seq<Byte>)
      requires Valid() && Owed(log) == None
      requires options.Some? ==>
                 var o := options.value;
                 o.Coherent() && (o.version == 3 || o.version == 4) && |Connecting.ConnectBody(o)| < LENGTH_LIMIT
      modifies this, buf, readbuf, handlers.slots
      modifies net`pending, net`answers, net`failed, net`wire, net`writeAnswers, net`now
      ensures Valid() && Owed(log) == None && old(log) <= log
      ensures old(isConnected) ==> rc == FAILURE && isConnected && log == old(log)
      ensures !old(isConnected) ==> (isConnected <==> rc == SUCCESS)
      ensures !old(isConnected) ==>
                var o := OptionsUsed(options);
                keepAlive == o.keepAlive && cleanSession == (o.cleanSession != 0)
      ensures rc == SUCCESS ==> !pingOutstanding
      ensures rc == SUCCESS ==>
                && |log| > old(|log|) + 1 && log[|log| - 1] == Accepted
                && log[old(|log|)] == Sent(Connecting.ConnectBytes(OptionsUsed(options)))
      ensures rc != FAILURE ==>
                Logged(log, old(|log|) + 1, frame) && PacketKind(frame) == CONNACK && rc == ConnackCode(frame)
      ensures rc == FAILURE ==>
                || old(isConnected) || PacketLen(|Connecting.ConnectBody(OptionsUsed(options))|) > bufSize
                || Explained(old(net.now) + commandTimeoutMs * 1000, old(net.now), old(net.writeAnswers))
    {
      hide StepOk, TraceOk, WireOf, Owed, Heard, PingAfter, ConnectedAfter, IdAfter;
      hide HoldsTooBig, Unanswerable, Broke, PingLost, Later, PacketLen;
      hide PacketKind, InMemory, Consistent, ConnackCode, Logged, Connecting.ConnectBytes, Connecting.ConnectBody;
      rc, frame := FAILURE, [];
      if isConnected {
        return;
      }
      var now := net.Now();
      var timer := now + commandTimeoutMs * 1000;
      var o := if options.Some? then options.value else Connecting.DEFAULT_OPTIONS;
      Connecting.DefaultsFit();
      rc := SendConnect(o, timer);
      if rc != SUCCESS {
        return;
      }
      ghost var start, left := net.now, net.writeAnswers;
      rc, frame := AwaitConnack(timer);
      if rc == FAILURE {
        ExplainedEarlier(timer, old(net.now), start, old(net.writeAnswers), left);
      }
    }

    /** The first half of `MQTTConnectWithResults`: takes over the options and sends the CONNECT. */
    method SendConnect(o: Connecting.ConnectData, timer: int) returns (rc: int)
      requires Valid() && Owed(log) == None
      requires o.Coherent() && (o.version == 3 || o.version == 4) && |Connecting.ConnectBody(o)| < LENGTH_LIMIT
      modifies this`keepAlive, this`cleanSession, this`lastReceived, this`lastSent, this`log, buf
      modifies net`wire, net`writeAnswers, net`now
      ensures Valid() && Owed(log) == None && old(log) <= log && old(net.now) <= net.now
      ensures keepAlive == o.keepAlive && cleanSession == (o.cleanSession != 0)
      ensures old(net.now) + keepAlive * 1000000 <= lastReceived <= net.now + keepAlive * 1000000
      ensures rc == SUCCESS || rc == FAILURE
      ensures rc == SUCCESS ==> log == old(log) + [Sent(Connecting.ConnectBytes(o))] && Heard(log) == Some(None)
      ensures rc == FAILURE ==>
                || PacketLen(|Connecting.ConnectBody(o)|) > bufSize
                || Explained(timer, old(net.now), old(net.writeAnswers))
      ensures Later(old(net.writeAnswers), net.writeAnswers)
    {
      hide StepOk, TraceOk, WireOf, Owed, Heard, PingAfter, ConnectedAfter, IdAfter;
      hide PacketKind, Consistent, Connecting.ConnectBytes, Connecting.ConnectBody, IsAck;
      hide Explained, Later, Unsent, PacketLen, Moved, Rest;
      LaterSelf(net.writeAnswers);
      keepAlive, cleanSession := o.keepAlive, o.cleanSession != 0;
      var now := net.Now();
      lastReceived := now + keepAlive * 1000000;
      var len := Connecting.SerializeConnect(buf, bufSize, o);
      if len <= 0 {
        return FAILURE;
      }
      assert buf[..len] == Connecting.ConnectBytes(o);
      ConnectKind(o);
      PlainAllowed(log, buf[..len]);
      rc := SendPacket(len, timer);
      if rc == FAILURE {
        UnsentExplained(timer, old(net.now), old(net.writeAnswers), len);
      }
    }

    /** The end of `MQTTConnectWithResults`: the return code of the CONNACK, preset to 0, decides. */
    method AwaitConnack(timer: int) returns (rc: int, ghost frame: seq<Byte>)
      requires Valid() && Owed(log) == None && !isConnected && Heard(log).Some?
      modifies this`log, this`lastSent, this`lastReceived, this`pingOutstanding, this`isConnected, this`calls
      modifies buf, readbuf, handlers.slots
      modifies net`pending, net`answers, net`failed, net`wire, net`writeAnswers, net`now
      ensures Valid() && Owed(log) == None && old(log) <= log && (isConnected <==> rc == SUCCESS)
      ensures rc == SUCCESS ==> !pingOutstanding && |log| > old(|log|) && log[|log| - 1] == Accepted
      ensures rc != FAILURE ==> Logged(log, old(|log|), frame) && PacketKind(frame) == CONNACK
      ensures rc != FAILURE ==> rc == ConnackCode(frame)
      ensures rc == FAILURE ==> Explained(timer, old(net.now), old(net.writeAnswers))
    {
      hide StepOk, TraceOk, WireOf, Owed, Heard, PingAfter, ConnectedAfter, IdAfter;
      hide PacketKind, InMemory, Consistent, ConnackCode, Logged, Connecting.ParseConnack, Explained;
      rc := FAILURE;
      var got;
      got, frame := WaitFor(CONNACK, timer);
      if got == CONNACK {
        ConnackInMemory(frame, readbuf[..]);
        ConnackDecides(frame);
        var ok, session, code := Connecting.DeserializeConnack(readbuf, 0, 0);
        if ok == 1 {
          rc := code;
        }
      }
      if rc == SUCCESS {
        isConnected := true;
        pingOutstanding := false;
        AcceptAllowed(log, frame);
        LoggedLonger(log, Accepted, old(|log|), frame);
        Append(log, Accepted);
        log := log + [Accepted];
      }
    }

    /** `MQTTPublish`: waits for the acknowledgement its QoS asks for. */
    method Publish(topic: MqttString, qos: nat, retained: nat, payload: seq<Byte>, id0: Word)
      returns (rc: int, ghost p: PublishPackets.Publish, ghost ack: seq<Byte>)
      requires Valid() && Owed(log) == None && topic.Coherent() && qos <= 2
      requires |topic.Text()| + |payload| + 4 < LENGTH_LIMIT
      modifies this, buf, readbuf, handlers.slots
      modifies net`pending, net`answers, net`failed, net`wire, net`writeAnswers, net`now
      ensures Valid() && Owed(log) == None && old(log) <= log
      ensures rc == SUCCESS || (rc == FAILURE && !isConnected)
      ensures isConnected ==> old(isConnected)
      ensures rc == SUCCESS ==> |log| > old(|log|) && log[old(|log|)] == Sent(PublishBytes(p))
      ensures p.topic == topic.Text() && p.payload == payload && p.qos == qos && p.retained == retained && p.dup == 0
      ensures rc == SUCCESS ==>
                issued == (if qos > 0 then old(issued) + 1 else old(issued)) && (qos > 0 ==> p.id == IdAfter(issued))
      ensures rc == SUCCESS && qos > 0 ==>
                Logged(log, old(|log|) + 1, ack) && PacketKind(ack) == (if qos == 1 then PUBACK else PUBCOMP)
      ensures rc == FAILURE ==>
                || !old(isConnected) || PacketLen(|PublishBody(p)|) > bufSize
                || Explained(old(net.now) + commandTimeoutMs * 1000, old(net.now), old(net.writeAnswers))
    {
      hide StepOk, TraceOk, WireOf, Owed, Heard, PingAfter, ConnectedAfter, IdAfter;
      hide PacketKind, InMemory, Consistent, PublishBytes, IsAck, ParseAck, Logged;
      hide HoldsTooBig, Unanswerable, Broke, PingLost, Later, PacketLen, PublishBody;
      rc, ack := FAILURE, [];
      p := PublishPackets.Publish(0, qos, retained, id0, topic.Text(), payload);
      if isConnected {
        var now := net.Now();
        var timer := now + commandTimeoutMs * 1000;
        rc, p := SendPublish(topic, qos, retained, payload, id0, timer);
        if rc == SUCCESS && qos > 0 {
          ghost var start, left := net.now, net.writeAnswers;
          rc, ack := AwaitAck(if qos == 1 then PUBACK else PUBCOMP, timer);
          if rc == FAILURE {
            ExplainedEarlier(timer, old(net.now), start, old(net.writeAnswers), left);
          }
        }
      }
      if rc == FAILURE {
        CloseSession();
      }
    }

    /** The middle of `MQTTPublish`: takes an identifier if the QoS needs one, and sends the message. */
    method SendPublish(topic: MqttString, qos: nat, retained: nat, payload: seq<Byte>, id0: Word, timer: int)
      returns (rc: int, ghost p: PublishPackets.Publish)
      requires Valid() && Owed(log) == None && topic.Coherent() && qos <= 2
      requires |topic.Text()| + |payload| + 4 < LENGTH_LIMIT
      modifies this`log, this`lastSent, this`nextPacketId, this`issued, buf, net`wire, net`writeAnswers, net`now
      ensures Valid() && Owed(log) == None && old(log) <= log && old(net.now) <= net.now
      ensures rc == SUCCESS || rc == FAILURE
      ensures p == PublishPackets.Publish(0, qos, retained, p.id, topic.Text(), payload)
      ensures issued == (if qos > 0 then old(issued) + 1 else old(issued)) && (qos > 0 ==> p.id == IdAfter(issued))
      ensures rc == SUCCESS ==> log == old(log) + [Sent(PublishBytes(p))]
      ensures rc == FAILURE ==>
                PacketLen(|PublishBody(p)|) > bufSize || Explained(timer, old(net.now), old(net.writeAnswers))
      ensures Later(old(net.writeAnswers), net.writeAnswers)
    {
      hide StepOk, TraceOk, WireOf, Owed, Heard, PingAfter, ConnectedAfter, IdAfter, PacketKind, Consistent;
      hide PublishBytes, PublishBody, IsAck, Moved, Rest, Unsent, Explained, Later, PacketLen;
      LaterSelf(net.writeAnswers);
      var message := PublishPackets.Publish(0, qos, retained, id0, topic.Text(), payload);
      if qos == 1 || qos == 2 {
        var id := GetNextPacketId();
        message := message.(id := id);
      }
      p := message;
      BodyLength(message);
      var len := SerializePublish(buf, bufSize, message, topic);
      if len <= 0 {
        rc := FAILURE;
        return;
      }
      assert buf[..len] == PublishBytes(message);
      PublishKind(message);
      PlainAllowed(log, buf[..len]);
      rc := SendPacket(len, timer);
      if rc == FAILURE {
        UnsentExplained(timer, old(net.now), old(net.writeAnswers), len);
      }
    }

    /** The end of `MQTTPublish`: the acknowledgement is read; its identifier is not compared. */
    method AwaitAck(kind: int, timer: int) returns (rc: int, ghost frame: seq<Byte>)
      requires Valid() && Owed(log) == None && (kind == PUBACK || kind == PUBCOMP)
      modifies this`log, this`lastSent, this`lastReceived, this`pingOutstanding, this`isConnected, this`calls
      modifies buf, readbuf, handlers.slots
      modifies net`pending, net`answers, net`failed, net`wire, net`writeAnswers, net`now
      ensures Valid() && Owed(log) == None && old(log) <= log && (isConnected ==> old(isConnected))
      ensures rc == SUCCESS || rc == FAILURE
      ensures rc == SUCCESS ==> Logged(log, old(|log|), frame) && PacketKind(frame) == kind
      ensures rc == FAILURE ==> timer <= net.now || !isConnected
      ensures rc == FAILURE ==> Explained(timer, old(net.now), old(net.writeAnswers))
    {
      hide StepOk, TraceOk, WireOf, Owed, Heard, PingAfter, ConnectedAfter, IdAfter;
      hide PacketKind, InMemory, Consistent, ParseAck, Logged, Explained;
      rc := FAILURE;
      var got;
      got, frame := WaitFor(kind, timer);
      if got == kind {
        AckInMemory(frame, readbuf[..]);
        var ok, k, dup, id := DeserializeAck(readbuf);
        if ok == 1 {
          rc := SUCCESS;
        }
      }
    }

    /** Serialises and sends a SUBSCRIBE or UNSUBSCRIBE for one filter under a fresh identifier. */
    method SendRequest(kind: nat, filter: seq<Byte>, qos: nat, timer: int) returns (rc: int)
      requires Valid() && Owed(log) == None && IsRequestKind(kind) && |filter| + 5 < LENGTH_LIMIT
      modifies this`log, this`lastSent, this`nextPacketId, this`issued, buf
      modifies net`wire, net`writeAnswers, net`now
      ensures Valid() && Owed(log) == None && old(log) <= log && issued == old(issued) + 1
      ensures rc == SUCCESS || rc == FAILURE
      ensures rc == SUCCESS ==> log == old(log) + [Sent(OneRequest(kind, IdAfter(issued), filter, qos))]
      ensures rc == FAILURE ==>
                || PacketLen(|filter| + if kind == SUBSCRIBE then 5 else 4) > bufSize
                || Explained(timer, old(net.now), old(net.writeAnswers))
      ensures Later(old(net.writeAnswers), net.writeAnswers) && old(net.now) <= net.now
    {
      hide StepOk, TraceOk, WireOf, Owed, Heard, PingAfter, ConnectedAfter, IdAfter;
      hide PacketKind, Consistent, IsAck, RequestBytes, RequestBody, Moved, Rest, Unsent, Explained, Later, PacketLen;
      LaterSelf(net.writeAnswers);
      var id := GetNextPacketId();
      var topic := MqttString(Some(filter), None);
      ghost var es := [Entry(filter, if kind == SUBSCRIBE then qos else 0)];
      OneRequestLength(kind, id, filter, qos);
      var len := SerializeRequest(buf, bufSize, kind, 0, id, [topic], [qos], es);
      if len <= 0 {
        return FAILURE;
      }
      assert buf[..len] == OneRequest(kind, id, filter, qos);
      OneRequestKind(kind, id, filter, qos);
      PlainAllowed(log, buf[..len]);
      rc := SendPacket(len, timer);
      if rc == FAILURE {
        UnsentExplained(timer, old(net.now), old(net.writeAnswers), len);
      }
    }

    /** `MQTTSubscribeWithResults`: the handler is stored unless the SUBACK grants 0x80. */
    method Subscribe(filter: seq<Byte>, qos: nat, handler: Option<nat>, signed: bool)
      returns (rc: int, granted: int, ghost frame: seq<Byte>)
      requires Valid() && Owed(log) == None && |filter| + 5 < LENGTH_LIMIT
      modifies this, buf, readbuf, handlers.slots
      modifies net`pending, net`answers, net`failed, net`wire, net`writeAnswers, net`now
      ensures Valid() && Owed(log) == None && old(log) <= log && (isConnected ==> old(isConnected))
      ensures rc == SUCCESS || (rc == FAILURE && !isConnected)
      ensures rc == SUCCESS ==>
                && |log| > old(|log|) && log[old(|log|)] == Sent(OneRequest(SUBSCRIBE, IdAfter(issued), filter, qos))
                && issued == old(issued) + 1
      ensures rc == SUCCESS ==> Logged(log, old(|log|) + 1, frame) && PacketKind(frame) == SUBACK
      ensures rc == SUCCESS ==> granted == GrantedQos(ParseSuback(frame), signed)
      ensures rc == SUCCESS ==>
                var kept := Kept(old(handlers.slots[..]), !isConnected && cleanSession);
                handlers.slots[..] ==
                if Stores(ParseSuback(frame), signed) then SetSlots(kept, filter, handler) else kept
      ensures rc == FAILURE ==>
                || !old(isConnected) || PacketLen(|filter| + 5) > bufSize
                || Explained(old(net.now) + commandTimeoutMs * 1000, old(net.now), old(net.writeAnswers))
                || (&& log != [] && Logged(log, old(|log|) + 1, frame) && PacketKind(frame) == SUBACK
                    && Stores(ParseSuback(frame), signed)
                    && NoRoom(Kept(old(handlers.slots[..]), cleanSession && !ConnectedAfter(log[..|log| - 1])),
                              filter, handler))
    {
      hide StepOk, TraceOk, WireOf, Owed, Heard, PingAfter, ConnectedAfter, IdAfter;
      hide PacketKind, InMemory, Consistent, OneRequest, SetSlots, ParseSuback, Logged, Kept, Stores, GrantedQos;
      hide HoldsTooBig, Unanswerable, Broke, PingLost, Later, PacketLen, NoRoom;
      rc, granted, frame := FAILURE, 0, [];
      if isConnected {
        var now := net.Now();
        var timer := now + commandTimeoutMs * 1000;
        rc := SendRequest(SUBSCRIBE, filter, qos, timer);
        if rc == SUCCESS {
          var got;
          ghost var start, left := net.now, net.writeAnswers;
          got, frame := WaitFor(SUBACK, timer);
          if got == SUBACK {
            rc, granted := TakeSuback(filter, handler, signed, frame);
          } else {
            rc := FAILURE;
            ExplainedEarlier(timer, old(net.now), start, old(net.writeAnswers), left);
          }
        }
      }
      if rc == FAILURE {
        LoggedLonger(log, Closed, old(|log|) + 1, frame);
        assert (log + [Closed])[..|log|] == log;
        CloseSession();
      }
    }

    /** The end of `MQTTSubscribeWithResults`: the grant is read and the handler stored. */
    method TakeSuback(filter: seq<Byte>, handler: Option<nat>, signed: bool, ghost frame: seq<Byte>)
      returns (rc: int, granted: int)
      requires Valid() && InMemory(frame, readbuf[..])
      modifies handlers.slots
      ensures Valid() && (rc == SUCCESS || rc == FAILURE)
      ensures rc == FAILURE <==> Stores(ParseSuback(frame), signed) && NoRoom(old(handlers.slots[..]), filter, handler)
      ensures granted == GrantedQos(ParseSuback(frame), signed)
      ensures rc == SUCCESS ==>
                handlers.slots[..] ==
                if Stores(ParseSuback(frame), signed) then SetSlots(old(handlers.slots[..]), filter, handler)
                else old(handlers.slots[..])
    {
      hide TraceOk, WireOf, PingAfter, ConnectedAfter, IdAfter, InMemory, Table, SetSlots, ParseSuback, CharValue;
      hide Consistent;
      SubackInMemory(frame, readbuf[..]);
      rc := SUCCESS;
      var codes := new int[2];
      codes[0] := 0;
      var ok, id, count := DeserializeSuback(readbuf, 1, codes, signed);
      granted := codes[0];
      assert granted == GrantedQos(ParseSuback(frame), signed);
      if ok == 1 && granted != 0x80 {
        rc := handlers.SetMessageHandler(filter, handler);
      }
    }

    /** `MQTTUnsubscribe`: any UNSUBACK removes the handler. */
    method Unsubscribe(filter: seq<Byte>) returns (rc: int, ghost frame: seq<Byte>)
      requires Valid() && Owed(log) == None && |filter| + 5 < LENGTH_LIMIT
      modifies this, buf, readbuf, handlers.slots
      modifies net`pending, net`answers, net`failed, net`wire, net`writeAnswers, net`now
      ensures Valid() && Owed(log) == None && old(log) <= log && (isConnected ==> old(isConnected))
      ensures rc == SUCCESS || (rc == FAILURE && !isConnected)
      ensures rc == SUCCESS ==>
                && filter !in Table(handlers.slots[..])
                && |log| > old(|log|) && log[old(|log|)] == Sent(OneRequest(UNSUBSCRIBE, IdAfter(issued), filter, 0))
      ensures rc == SUCCESS ==> Logged(log, old(|log|) + 1, frame) && PacketKind(frame) == UNSUBACK
      ensures rc == SUCCESS ==>
                var kept := Kept(old(handlers.slots[..]), !isConnected && cleanSession);
                Table(handlers.slots[..]) == Table(kept) - {filter}
      ensures rc == FAILURE ==>
                || !old(isConnected) || PacketLen(|filter| + 4) > bufSize
                || Explained(old(net.now) + commandTimeoutMs * 1000, old(net.now), old(net.writeAnswers))
    {
      hide StepOk, TraceOk, WireOf, Owed, Heard, PingAfter, ConnectedAfter, IdAfter;
      hide HoldsTooBig, Unanswerable, Broke, PingLost, Later, PacketLen;
      hide PacketKind, InMemory, Consistent, OneRequest, Table, SetSlots, ParseAck, Logged, Kept;
      rc, frame := FAILURE, [];
      if isConnected {
        var now := net.Now();
        var timer := now + commandTimeoutMs * 1000;
        rc := SendRequest(UNSUBSCRIBE, filter, 0, timer);
        if rc == SUCCESS {
          var got;
          ghost var start, left := net.now, net.writeAnswers;
          got, frame := WaitFor(UNSUBACK, timer);
          if got == UNSUBACK {
            AckInMemory(frame, readbuf[..]);
            UnsubackKind(frame, readbuf[..]);
            var ok, id := DeserializeUnsuback(readbuf);
            if ok == 1 {
              var removed := handlers.SetMessageHandler(filter, None);
            }
          } else {
            rc := FAILURE;
            ExplainedEarlier(timer, old(net.now), start, old(net.writeAnswers), left);
          }
        }
      }
      if rc == FAILURE {
        CloseSession();
      }
    }

    /** `MQTTDisconnect`. */
    method Disconnect() returns (rc: int)
      requires Valid() && Owed(log) == None
      modifies this`log, this`lastSent, this`pingOutstanding, this`isConnected, buf, handlers.slots
      modifies net`wire, net`writeAnswers, net`now
      ensures Valid() && Owed(log) == None && !isConnected && !pingOutstanding
      ensures rc == SUCCESS ==> log == old(log) + [Sent(Connecting.ZeroBytes(DISCONNECT)), Closed]
      ensures rc == SUCCESS || rc == FAILURE
      ensures rc == FAILURE ==>
                Refused(old(net.now) + commandTimeoutMs * 1000, net.now, old(net.writeAnswers), net.writeAnswers,
                        bufSize, 2)
    {
      hide StepOk, TraceOk, WireOf, Owed, Heard, PingAfter, ConnectedAfter, IdAfter;
      hide PacketKind, Consistent, IsAck, Moved;
      rc := FAILURE;
      var now := net.Now();
      var len := Connecting.SerializeZero(buf, bufSize, DISCONNECT);
      if len > 0 {
        assert buf[..len] == Connecting.ZeroBytes(DISCONNECT);
        ZeroKind(DISCONNECT);
        KindIsNoAck(buf[..len]);
        PlainAllowed(log, buf[..len]);
        rc := SendPacket(len, now + commandTimeoutMs * 1000);
      }
      CloseSession();
    }
  }

  /** The options of a CONNECT: those given, or the defaults for a null pointer. */
  function OptionsUsed(options: Option<Connecting.ConnectData>): Connecting.ConnectData {
    if options.Some? then options.value else Connecting.DEFAULT_OPTIONS
  }

  /** The QoS a SUBACK grants its first filter; 0 when it grants none. */
  function GrantedQos(r: SubackResult, signed: bool): int {
    if r.Suback? && r.codes != [] then CharValue(r.codes[0], signed) else 0
  }

  /** The SUBACKs after which the handler is stored: at most two codes, the first not 0x80, or an empty body. */
  predicate Stores(r: SubackResult, signed: bool) {
    match r
    case Suback(_, codes) => |codes| <= 2 && GrantedQos(r, signed) != 0x80
    case ShortSuback(rc) => rc == 1
    case _ => false
  }

  /**
   * The SUBACKs that store the handler: those too short for an identifier, those without a code, and
   * those with one or two codes of which the first does not read as 0x80.
   */
  lemma StoresExactly(f: seq<Byte>, body: seq<Byte>, signed: bool)
    requires f != [] && |body| < LENGTH_LIMIT && f == FrameBytes(f[0], body) && Kind(f[0]) == SUBACK
    ensures Stores(ParseSuback(f), signed) <==>
              |body| <= 2 || (|body| <= 4 && CharValue(body[2], signed) != 0x80)
  {
    hide EncodeLength, DecodedAt, FieldInBounds, FrameBytes, Kind, CharValue;
    FrameHead(f, f[0], body);
    FrameLength(f[0], body);
    EncodeLengthSize(|body|);
    var cur := 1 + |EncodeLength(|body|)|;
    if |body| >= 2 {
      assert f[cur + 2..|f|] == body[2..] by {
        assert f[cur..|f|] == body;
      }
    }
  }

  /** Where `char` is signed the refusal 0x80 reads as -128, so a refused subscription is stored as well. */
  lemma RefusalStored(id: Word)
    ensures Stores(Suback(id, [0x80]), true) && !Stores(Suback(id, [0x80]), false)
  {
  }

  /** A SUBACK without a body, [144, 0], stores the handler. */
  lemma EmptySubackStores(signed: bool)
    ensures ParseSuback([144, 0]) == ShortSuback(1) && Stores(ParseSuback([144, 0]), signed)
  {
    var s: seq<Byte> := [144, 0];
    assert s[1..] == [0] && s[1..2] == [0];
    assert LengthValue([0]) == 0;
  }

  /** The handler slots, when a session that had to be clean was closed in the meantime or not. */
  function Kept(s: seq<Slot>, cleaned: bool): seq<Slot> {
    if cleaned then Cleaned(s) else s
  }

  /** Setting a handler fails: the table is full of other filters, or there is no handler to remove. */
  ghost predicate NoRoom(s: seq<Slot>, filter: seq<Byte>, handler: Option<nat>) {
    filter !in Table(s) && (handler.Some? ==> |Table(s)| >= |s|)
  }

  /** The request for one filter. */
  function OneRequest(kind: nat, id: nat, filter: seq<Byte>, qos: nat): seq<Byte> {
    RequestBytes(kind, 0, Truncate(id, 65536), [Entry(filter, if kind == SUBSCRIBE then qos else 0)])
  }

  lemma OneRequestLength(kind: nat, id: Word, filter: seq<Byte>, qos: nat)
    ensures |RequestBody(kind, id, [Entry(filter, if kind == SUBSCRIBE then qos else 0)])| ==
            |filter| + if kind == SUBSCRIBE then 5 else 4
  {
    var es := [Entry(filter, if kind == SUBSCRIBE then qos else 0)];
    assert es[1..] == [];
    assert EntriesBytes(kind, []) == [];
  }

  lemma OneRequestKind(kind: nat, id: Word, filter: seq<Byte>, qos: nat)
    requires IsRequestKind(kind)
    ensures PacketKind(OneRequest(kind, id, filter, qos)) == kind && !IsAck(OneRequest(kind, id, filter, qos))
  {
    hide RequestBody, FrameBytes, HeaderByte, PacketKind;
    FrameKind(kind, 0, 1, 0, RequestBody(kind, id, [Entry(filter, if kind == SUBSCRIBE then qos else 0)]));
  }

  lemma UnsubackKind(f: seq<Byte>, m: seq<Byte>)
    requires InMemory(f, m)
    ensures m != [] && Kind(m[0]) == PacketKind(f)
  {
  }

  lemma KindIsNoAck(p: seq<Byte>)
    ensures IsAck(p) <==> PUBACK <= PacketKind(p) <= PUBCOMP
  {
  }

  lemma BodyLength(p: PublishPackets.Publish)
    ensures |PublishBody(p)| <= 4 + |p.topic| + |p.payload|
  {
  }

  lemma FrameKind(kind: nat, dup: nat, qos: nat, retain: nat, body: seq<Byte>)
    requires kind < 16 && dup < 2 && qos < 4
    ensures PacketKind(FrameBytes(HeaderByte(kind, dup, qos, retain), body)) == kind
  {
    hide EncodeLength, FrameBytes;
    HeaderFields(kind, dup, qos, Truncate(retain, 2));
    assert HeaderByte(kind, dup, qos, Truncate(retain, 2)) == HeaderByte(kind, dup, qos, retain);
  }

  lemma ConnectKind(o: Connecting.ConnectData)
    ensures PacketKind(Connecting.ConnectBytes(o)) == CONNECT && !IsAck(Connecting.ConnectBytes(o))
  {
    hide Connecting.ConnectBody, FrameBytes, HeaderByte, PacketKind;
    FrameKind(CONNECT, 0, 0, 0, Connecting.ConnectBody(o));
  }

  lemma PublishKind(p: PublishPackets.Publish)
    requires p.dup < 2 && p.qos < 4
    ensures PacketKind(PublishBytes(p)) == PUBLISH && !IsAck(PublishBytes(p))
  {
    hide PublishBody, FrameBytes, HeaderByte, PacketKind;
    FrameKind(PUBLISH, p.dup, p.qos, p.retained, PublishBody(p));
  }

  /** Anything but an acknowledgement or a ping may be sent when nothing is owed. */
  lemma PlainAllowed(log: seq<Event>, p: seq<Byte>)
    requires Owed(log) == None && !IsAck(p) && PacketKind(p) != PINGREQ
    ensures StepOk(log, Sent(p))
  {
  }

  lemma AcceptAllowed(log: seq<Event>, f: seq<Byte>)
    requires Owed(log) == None && Heard(log) == Some(Some(f)) && ConnackAccepts(f)
    ensures StepOk(log, Accepted) && !IsPing(Accepted) && IsReset(Accepted)
  {
  }

  lemma ConnackDecides(f: seq<Byte>)
    ensures Connecting.ParseConnack(f).Connack? ==> ConnackCode(f) == Connecting.ParseConnack(f).code
    ensures Connecting.ParseConnack(f) == Connecting.ShortConnack(1) ==> ConnackCode(f) == 0
  {
  }

  /** The results of `cycle` that leave the connection alone. */
  predicate PassResult(rc: int) {
    || rc == 0 || rc == CONNACK || rc == PUBLISH || rc == PUBACK || rc == PUBREC || rc == PUBREL || rc == PUBCOMP
    || rc == SUBACK || rc == UNSUBACK || rc == PINGRESP
  }

  /** Packet types (and 0 for none) that are neither answered nor a sign of life. */
  predicate Quiet(kind: int) {
    kind == 0 || kind == CONNACK || kind == PUBACK || kind == PUBCOMP || kind == SUBACK || kind == UNSUBACK
  }

  /** As the numbers in the header byte: all types but CONNECT, SUBSCRIBE, UNSUBSCRIBE, PINGREQ, DISCONNECT and 15. */
  lemma PassNumbers(rc: int)
    ensures PassResult(rc) <==> rc in {0, 2, 3, 4, 5, 6, 7, 9, 11, 13}
    ensures Quiet(rc) <==> rc in {0, 2, 4, 7, 9, 11}
  {
  }

  /** The next event is an acknowledgement that was sent. */
  ghost predicate Sends(before: seq<Event>, after: seq<Event>) {
    |after| > |before| && after[|before|].Sent? && IsAck(after[|before|].packet)
  }

  /** The same for the log of a cycle, which starts with the packet that was read. */
  ghost predicate AnsweredIn(before: seq<Event>, after: seq<Event>) {
    |after| > |before| + 1 && after[|before| + 1].Sent? && IsAck(after[|before| + 1].packet)
  }

  /** The topic of a PUBLISH. */
  function TopicOf(f: seq<Byte>): Option<seq<Byte>> {
    if f == [] || !FieldInBounds(f, 1) then None
    else
      var d := DecodedAt(f, 1);
      if 1 + d.len + d.value > |f| then None else StringAt(f, 1 + d.len, 1 + d.len + d.value)
  }

  /** The PUBLISHes handed on: those with a topic and, for their return code, those with a one-byte length field. */
  predicate Deliverable(f: seq<Byte>) {
    TopicOf(f).Some? || (|f| > 1 && f[1] < 128)
  }

  /** The cycles that reach the keep-alive: nothing to answer, or the answer was sent. */
  ghost predicate Reaches(kind: int, f: seq<Byte>, answered: bool) {
    || Quiet(kind) || kind == PINGRESP
    || (kind == PUBLISH && f != [] && if Qos(f[0]) == 0 then Deliverable(f) else answered)
    || ((kind == PUBREC || kind == PUBREL) && answered)
  }

  lemma AnsweredLater(read: seq<Event>, answered: seq<Event>, after: seq<Event>)
    requires read <= answered <= after && |answered| <= |read| + 1
    requires after == answered || !Sends(answered, after)
    ensures Sends(read, answered) <==> Sends(read, after)
    ensures read == answered ==> !Sends(read, after)
  {
    hide IsAck;
  }

  lemma NoPacketNoAnswer(kind: int, f: seq<Byte>, a: bool, b: bool)
    ensures kind <= 0 ==> (Reaches(kind, f, a) <==> Reaches(kind, f, b))
  {
  }

  lemma PingAnswersNothing(before: seq<Event>, after: seq<Event>)
    requires || after == before || after == before + [Sent(Connecting.ZeroBytes(PINGREQ))]
             || exists p :: after == before + [SendFailed(p)]
    ensures !Sends(before, after)
  {
    ZeroKind(PINGREQ);
  }

  lemma ClosingAnswersNothing(before: seq<Event>, after: seq<Event>)
    ensures AnsweredIn(before, after + [Closed]) <==> AnsweredIn(before, after)
  {
  }

  /** Nothing was sent, or one answer of the type the packet calls for. */
  ghost predicate AnswerLog(before: seq<Event>, after: seq<Event>, f: seq<Byte>) {
    after == before || (ReplyKind(f) != 0 && exists id: Word :: after == before + [Sent(AckBytes(ReplyKind(f), 0, id))])
  }

  /** The log after the answer; when nothing was read nothing is answered. */
  ghost predicate Answered(read: seq<Event>, answered: seq<Event>, kind: int, f: seq<Byte>) {
    answered == read || (kind > 0 && AnswerLog(read, answered, f))
  }

  /**
   * Why a packet that is ready to go is not sent: no time left, or an error of the transport, whose
   * answers were `a` before and are `b` after.
   */
  ghost predicate Unsent(timer: int, now: int, a: seq<int>, b: seq<int>, length: nat) {
    timer <= now || (Moved(a, length, length) < length && b == Rest(a, length, length))
  }

  /** Why a send fails: no room in the send buffer, or one of those. */
  ghost predicate Refused(timer: int, now: int, a: seq<int>, b: seq<int>, size: nat, length: nat) {
    size < length || Unsent(timer, now, a, b, length)
  }

  /** Why the answer to a packet is not sent: there is none for the invalid QoS 3, or the send fails. */
  ghost predicate Unanswered(kind: int, f: seq<Byte>, timer: int, now: int, a: seq<int>, b: seq<int>, size: nat) {
    || (kind == PUBLISH && f != [] && Qos(f[0]) == 3)
    || (&& ((kind == PUBLISH && f != [] && Qos(f[0]) != 0) || kind == PUBREC || kind == PUBREL)
        && Refused(timer, now, a, b, size, 4))
  }

  /** The packet at the start of the buffer calls for an answer that is invalid, or too long for the send buffer. */
  ghost predicate Unanswerable(m: seq<Byte>, size: nat) {
    && m != []
    && ((Kind(m[0]) == PUBLISH && Qos(m[0]) == 3)
        || (size < 4 && (Kind(m[0]) == PUBLISH || Kind(m[0]) == PUBREC || Kind(m[0]) == PUBREL)))
  }

  /** What the transport has left to answer after an acknowledgement went out, or none did. */
  function Left(writeAnswers: seq<int>, answered: bool): seq<int> {
    if answered then Rest(writeAnswers, 4, 4) else writeAnswers
  }

  function ReadLog(before: seq<Event>, kind: int, f: seq<Byte>): seq<Event> {
    if kind > 0 then before + [Received(f)] else before
  }

  /** At most one acknowledgement and at most one ping. */
  ghost predicate RespondLog(read: seq<Event>, after: seq<Event>, kind: int, f: seq<Byte>) {
    exists answered ::
      && Answered(read, answered, kind, f)
      && (after == answered || after == answered + [Sent(Connecting.ZeroBytes(PINGREQ))])
  }

  /** A successful cycle: the packet, at most one acknowledgement of it, at most one ping. */
  ghost predicate CycleLog(before: seq<Event>, after: seq<Event>, kind: int, f: seq<Byte>) {
    RespondLog(ReadLog(before, kind, f), after, kind, f)
  }

  lemma RespondLogMade(read: seq<Event>, answered: seq<Event>, after: seq<Event>, kind: int, f: seq<Byte>)
    requires answered == read || (kind > 0 && AnswerLog(read, answered, f))
    requires after == answered || after == answered + [Sent(Connecting.ZeroBytes(PINGREQ))]
    ensures RespondLog(read, after, kind, f)
  {
    hide AnswerLog;
    assert Answered(read, answered, kind, f);
  }

  lemma LoggedLonger(log: seq<Event>, e: Event, from: nat, f: seq<Byte>)
    ensures Logged(log, from, f) ==> Logged(log + [e], from, f)
  {
    if Logged(log, from, f) {
      var i :| from <= i < |log| && log[i] == Received(f);
      assert (log + [e])[i] == Received(f);
    }
  }

  lemma LoggedBefore(log: seq<Event>, from: nat, earlier: nat, f: seq<Byte>)
    requires Logged(log, from, f) && earlier <= from
    ensures Logged(log, earlier, f)
  {
  }

  lemma CycleLogged(before: seq<Event>, after: seq<Event>, kind: int, f: seq<Byte>)
    requires CycleLog(before, after, kind, f) && kind > 0
    ensures Logged(after, |before|, f)
  {
    var answered :| Answered(ReadLog(before, kind, f), answered, kind, f)
      && (after == answered || after == answered + [Sent(Connecting.ZeroBytes(PINGREQ))]);
    assert ReadLog(before, kind, f) <= answered <= after;
    assert after[|before|] == Received(f);
  }

  /** `kind` and `frame` are the next segment of the stream, and its bytes are used up. */
  ghost predicate Follows(before: seq<Byte>, after: seq<Byte>, cap: nat, kind: int, frame: seq<Byte>) {
    var g := SegmentOf(before, cap, false);
    && g.Some? && after == before[g.value.size..]
    && kind == (if g.value.rc == READ_ERROR then BUFFER_OVERFLOW else g.value.rc)
    && (kind > 0 ==> frame == g.value.image)
  }

  lemma ZeroKind(kind: nat)
    requires kind < 16
    ensures PacketKind(Connecting.ZeroBytes(kind)) == kind
  {
    HeaderFields(kind, 0, 0, 0);
  }

  lemma PingAllowed(log: seq<Event>, p: seq<Byte>)
    requires Owed(log) == None && !PingAfter(log) && PacketKind(p) == PINGREQ
    ensures StepOk(log, Sent(p))
  {
  }

  lemma CloseAllowed(log: seq<Event>)
    requires Owed(log) == None
    ensures StepOk(log, Closed) && !IsPing(Closed) && IsReset(Closed)
  {
  }

  lemma AckAllowed(log: seq<Event>, f: seq<Byte>, kind: nat, id: Word)
    requires log != [] && log[|log| - 1] == Received(f)
    requires PUBACK <= kind <= PUBCOMP && ReplyKind(f) == kind
    requires ReplyOwed(f).Some? ==> ReplyOwed(f).value == AckBytes(kind, 0, id)
    ensures StepOk(log, Sent(AckBytes(kind, 0, id)))
    ensures PacketKind(AckBytes(kind, 0, id)) == kind && IsAck(AckBytes(kind, 0, id))
  {
    AckKind(kind, id);
  }

  /** What the answer to a PUBLISH looks like, by its QoS bits. */
  lemma PublishReply(f: seq<Byte>)
    requires PacketKind(f) == PUBLISH
    ensures ReplyOwed(f).Some? ==>
              && ParsePublish(f).Parsed? && ParsePublish(f).payloadLen >= 0
              && ParsePublish(f).qos == Qos(f[0]) && (Qos(f[0]) == 1 || Qos(f[0]) == 2)
              && ReplyOwed(f).value == AckBytes(ReplyKind(f), 0, ParsePublish(f).id)
    ensures ReplyKind(f) == if Qos(f[0]) == 1 then PUBACK else if Qos(f[0]) == 2 then PUBREC else 0
  {
    hide ParsePublish, AckBytes;
    if ParsePublish(f).Parsed? {
      ParsedQos(f);
    }
  }

  lemma KindOfFrame(f: seq<Byte>)
    requires IsFrame(f)
    ensures f != [] && 0 <= Kind(f[0]) < 16 && PacketKind(f) == Kind(f[0])
  {
  }

  lemma ReceiveAllowed(log: seq<Event>, f: seq<Byte>)
    requires Owed(log) == None && IsFrame(f)
    ensures StepOk(log, Received(f)) && !IsPing(Received(f))
  {
  }

  lemma ReceiveResets(f: seq<Byte>)
    ensures IsReset(Received(f)) <==> PacketKind(f) == PINGRESP
  {
  }

  lemma SentIsNoReset(p: seq<Byte>)
    ensures !IsReset(Sent(p)) && (IsPing(Sent(p)) <==> PacketKind(p) == PINGREQ)
  {
  }

  lemma FailureAllowed(log: seq<Event>, p: seq<Byte>)
    ensures StepOk(log, SendFailed(p)) && !IsPing(SendFailed(p)) && !IsReset(SendFailed(p))
  {
  }
}
