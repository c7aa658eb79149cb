/** PUBLISH and the four-byte acknowledgements (sections 3.3 to 3.7 of MQTT 3.1.1). */
module PublishPackets {
  import opened Bytes
  import opened RemainingLength
  import opened Wire

  datatype Publish = Publish(dup: nat, qos: nat, retained: nat, id: Word, topic: seq<Byte>, payload: seq<Byte>)

  /** What can travel: field widths of the header byte, a topic of at most 65535 bytes, a legal length. */
  ghost predicate Sendable(p: Publish) {
    && p.dup < 2 && p.qos < 4 && p.retained < 2
    && |p.topic| < 65536
    && |PublishBody(p)| < LENGTH_LIMIT
  }

  function PublishBody(p: Publish): seq<Byte> {
    StringBytes(p.topic) + (if p.qos > 0 then IntBytes(p.id) else []) + p.payload
  }

  function PublishBytes(p: Publish): seq<Byte> {
    FrameBytes(HeaderByte(PUBLISH, p.dup, p.qos, p.retained), PublishBody(p))
  }

  /** `MQTTSerialize_publishLength`. */
  function PublishLength(qos: nat, topic: MqttString, payloadLen: nat): nat {
    2 + topic.StrLen() + payloadLen + if qos > 0 then 2 else 0
  }

  /** `MQTTSerialize_publish`: the packet is written whole and within `buflen`, or nothing is. */
  method SerializePublish(buf: array<Byte>, buflen: nat, p: Publish, topic: MqttString) returns (rc: int)
    requires buflen <= buf.Length
    requires topic.Coherent() && topic.Text() == p.topic
    requires |PublishBody(p)| < LENGTH_LIMIT
    modifies buf
    ensures rc == BUFFER_TOO_SHORT <==> PacketLen(|PublishBody(p)|) > buflen
    ensures rc == BUFFER_TOO_SHORT ==> buf[..] == old(buf[..])
    ensures rc != BUFFER_TOO_SHORT ==> 0 < rc <= buflen && Appended(buf, 0, rc, PublishBytes(p))
  {
    hide EncodeLength, PacketLen, HeaderByte;
    StrLenIsWritten(topic);
    var remLen := PublishLength(p.qos, topic, |p.payload|);
    assert remLen == |PublishBody(p)|;
    if PacketLen(remLen) > buflen {
      return BUFFER_TOO_SHORT;
    }
    PacketLenExact(remLen);
    var ptr := WriteFront(buf, HeaderByte(PUBLISH, p.dup, p.qos, p.retained), remLen);
    rc := WritePublishBody(buf, ptr, p, topic);
  }

  method WritePublishBody(buf: array<Byte>, at: nat, p: Publish, topic: MqttString) returns (next: nat)
    requires topic.Text() == p.topic && at + |PublishBody(p)| <= buf.Length
    modifies buf
    ensures Appended(buf, at, next, PublishBody(p))
  {
    hide IntBytes;
    ghost var front, ids := buf[..at], if p.qos > 0 then IntBytes(p.id) else [];
    next := WriteMqttString(buf, at, topic);
    if p.qos > 0 {
      next := WriteInt(buf, next, p.id);
    }
    assert buf[..next] == front + (StringBytes(p.topic) + ids);
    next := WriteBytes(buf, next, p.payload);
    ConcatAssoc(front, StringBytes(p.topic) + ids, p.payload);
  }

  /** The outcome of `MQTTDeserialize_publish` on the memory `s`. */
  datatype PublishResult =
    | OutOfBounds                // a read would leave the buffer
    | NotPublish                 // another packet type; the source returns 0
    | BadPublish(rc: nat)        // no topic; the source returns the size of the length field
    | Parsed(dup: nat, qos: nat, retained: nat, id: Word, topic: seq<Byte>, payloadAt: nat, payloadLen: int)

  function ParsePublish(s: seq<Byte>): (r: PublishResult)
    ensures r.Parsed? ==> r.payloadAt <= |s| && r.payloadAt + r.payloadLen <= |s|
  {
    if s == [] then OutOfBounds
    else if Kind(s[0]) != PUBLISH then NotPublish
    else if !FieldInBounds(s, 1) then OutOfBounds
    else
      var d := DecodedAt(s, 1);
      var cur, end := 1 + d.len, 1 + d.len + d.value;
      if end > |s| then OutOfBounds
      else match StringAt(s, cur, end)
        case None => BadPublish(d.len)
        case Some(topic) =>
          var next := cur + 2 + |topic|;
          if Qos(s[0]) == 0 then
            Parsed(Dup(s[0]), 0, Retain(s[0]), 0, topic, next, end - next)
          else if next + 1 >= |s| then OutOfBounds
          else
            Parsed(Dup(s[0]), Qos(s[0]), Retain(s[0]), IntAt(s, next), topic, next + 2, end - next - 2)
  }

  /** `MQTTDeserialize_publish`; on a packet without a topic only the header fields are set. */
  method DeserializePublish(buf: array<Byte>)
    returns (rc: int, dup: nat, qos: nat, retained: nat, id: Word, topic: seq<Byte>, payloadAt: nat, payloadLen: int)
    requires !ParsePublish(buf[..]).OutOfBounds?
    ensures match ParsePublish(buf[..])
            case NotPublish => rc == 0
            case BadPublish(k) => rc == k
            case Parsed(_, q, _, _, _, _, _) =>
              rc == 1 && ParsePublish(buf[..])
                         == Parsed(dup, qos, retained, if q > 0 then id else 0, topic, payloadAt, payloadLen)
            case OutOfBounds => true
    ensures Kind(buf[0]) == PUBLISH ==> dup == Dup(buf[0]) && qos == Qos(buf[0]) && retained == Retain(buf[0])
  {
    hide DecodedAt, FieldInBounds, StringAt, IntAt, Kind, Dup, Qos, Retain;
    rc, dup, qos, retained, topic, payloadAt, payloadLen := 0, 0, 0, 0, [], 0, 0;
    id := *;
    if Kind(buf[0]) != PUBLISH {
      return;
    }
    dup, qos, retained := Dup(buf[0]), Qos(buf[0]), Retain(buf[0]);
    var myLen;
    rc, myLen := DecodeBuf(buf, 1);
    var cur := 1 + rc;
    var end := cur + myLen;
    var ok;
    ok, topic, cur := ReadLenString(buf, cur, end);
    if !ok || end < cur {
      return;
    }
    if qos > 0 {
      id, cur := ReadInt(buf, cur);
    }
    payloadLen, payloadAt := end - cur, cur;
    rc := 1;
  }

  /** `r` is what the deserialiser should make of `p`, in the memory `s`. */
  ghost predicate Recovers(r: PublishResult, p: Publish, s: seq<Byte>) {
    && r.Parsed?
    && r.dup == p.dup && r.qos == p.qos && r.retained == p.retained
    && r.id == (if p.qos > 0 then p.id else 0)
    && r.topic == p.topic
    && r.payloadLen == |p.payload| && At(s, r.payloadAt, p.payload)
  }

  /** Round trip: every field of a PUBLISH comes back, the identifier when there is one. */
  lemma PublishRoundTrip(p: Publish, s: seq<Byte>)
    requires Sendable(p) && At(s, 0, PublishBytes(p))
    ensures Recovers(ParsePublish(s), p, s)
  {
    HeaderFields(PUBLISH, p.dup, p.qos, p.retained);
    PublishBodyRoundTrip(p, HeaderByte(PUBLISH, p.dup, p.qos, p.retained), s);
  }

  lemma PublishBodyRoundTrip(p: Publish, h: Byte, s: seq<Byte>)
    requires Sendable(p) && At(s, 0, FrameBytes(h, PublishBody(p)))
    requires Kind(h) == PUBLISH && Dup(h) == p.dup && Qos(h) == p.qos && Retain(h) == p.retained
    ensures Recovers(ParsePublish(s), p, s)
  {
    hide EncodeLength, DecodedAt, FieldInBounds, IntBytes, IntAt, StringAt, FrameBytes, Kind, Dup, Qos, Retain;
    var body := PublishBody(p);
    var ids := if p.qos > 0 then IntBytes(p.id) else [];
    FrameHead(s, h, body);
    var cur := 1 + |EncodeLength(|body|)|;
    var end, next := cur + |body|, cur + 2 + |p.topic|;
    AtSplit(s, cur, StringBytes(p.topic) + ids, p.payload);
    AtSplit(s, cur, StringBytes(p.topic), ids);
    assert StringAt(s, cur, end) == Some(p.topic) by {
      StringRoundTrip(s, cur, p.topic);
    }
    assert end == next + |ids| + |p.payload|;
    if p.qos > 0 {
      IntRoundTrip(s, next, p.id);
    }
  }

  /** The value the source's caller compares with 1. */
  function PublishRc(r: PublishResult): int {
    match r case NotPublish => 0 case BadPublish(k) => k case Parsed(_, _, _, _, _, _, _) => 1 case OutOfBounds => 0
  }

  /** The return code 1 also covers a packet without a topic, exactly when its length field is one byte. */
  lemma PublishSuccessCode(s: seq<Byte>)
    requires !ParsePublish(s).OutOfBounds? && !ParsePublish(s).NotPublish?
    ensures PublishRc(ParsePublish(s)) == 1 <==> ParsePublish(s).Parsed? || s[1] < 128
  {
    assert s[1..][0] == s[1];
  }

  lemma EmptyPublishAccepted()
    ensures ParsePublish([48, 0]) == BadPublish(1)
  {
    var s: seq<Byte> := [48, 0];
    assert s[1..] == [0];
    assert s[1..2] == [0];
    assert LengthValue([0]) == 0;
  }

  function AckBytes(kind: nat, dup: nat, id: Word): (s: seq<Byte>)
    ensures |s| == 4
  {
    var first := HeaderByte(kind, dup, if kind == PUBREL then 1 else 0, 0);
    FrameBytes(first, IntBytes(id))
  }

  /** `MQTTSerialize_ack`. */
  method SerializeAck(buf: array<Byte>, buflen: nat, kind: nat, dup: nat, id: Word) returns (rc: int)
    requires buflen <= buf.Length
    modifies buf
    ensures rc == BUFFER_TOO_SHORT <==> buflen < 4
    ensures rc == BUFFER_TOO_SHORT ==> buf[..] == old(buf[..])
    ensures rc != BUFFER_TOO_SHORT ==> rc == 4 && Appended(buf, 0, 4, AckBytes(kind, dup, id))
  {
    if buflen < 4 {
      return BUFFER_TOO_SHORT;
    }
    var ptr := WriteFront(buf, HeaderByte(kind, dup, if kind == PUBREL then 1 else 0, 0), 2);
    ptr := WriteInt(buf, ptr, id);
    rc := ptr;
  }

  /** The outcome of `MQTTDeserialize_ack`; `ShortAck` carries the size of the length field it returns. */
  datatype AckResult =
    | AckOutOfBounds
    | ShortAck(kind: nat, dup: nat, rc: nat)
    | Ack(kind: nat, dup: nat, id: Word)

  function ParseAck(s: seq<Byte>): (r: AckResult)
    ensures !r.AckOutOfBounds? ==> s != [] && r.kind == Kind(s[0])
  {
    if s == [] || !FieldInBounds(s, 1) then AckOutOfBounds
    else
      var d := DecodedAt(s, 1);
      if d.value < 2 then ShortAck(Kind(s[0]), Dup(s[0]), d.len)
      else if 1 + d.len + 1 >= |s| then AckOutOfBounds
      else Ack(Kind(s[0]), Dup(s[0]), IntAt(s, 1 + d.len))
  }

  /** `MQTTDeserialize_ack`; `id` holds no promise for a body shorter than two bytes. */
  method DeserializeAck(buf: array<Byte>) returns (rc: int, kind: nat, dup: nat, id: Word)
    requires !ParseAck(buf[..]).AckOutOfBounds?
    ensures match ParseAck(buf[..])
            case ShortAck(k, d, n) => rc == n && kind == k && dup == d
            case Ack(_, _, _) => rc == 1 && ParseAck(buf[..]) == Ack(kind, dup, id)
            case AckOutOfBounds => true
  {
    id := *;
    dup, kind := Dup(buf[0]), Kind(buf[0]);
    var myLen;
    rc, myLen := DecodeBuf(buf, 1);
    var cur := 1 + rc;
    var end := cur + myLen;
    if end - cur < 2 {
      return;
    }
    id, cur := ReadInt(buf, cur);
    rc := 1;
  }

  /** Round trip for PUBACK, PUBREC, PUBREL, PUBCOMP and UNSUBACK. */
  lemma AckRoundTrip(kind: nat, dup: nat, id: Word, s: seq<Byte>)
    requires kind < 16 && dup < 2 && At(s, 0, AckBytes(kind, dup, id))
    ensures ParseAck(s) == Ack(kind, dup, id)
  {
    var qos := if kind == PUBREL then 1 else 0;
    HeaderFields(kind, dup, qos, 0);
    FrameHead(s, HeaderByte(kind, dup, qos, 0), IntBytes(id));
    IntRoundTrip(s, 2, id);
  }
}
