/** The packets written out as the numbers that go over the wire (chapters 2 and 3 of MQTT 3.1.1). */
module PacketBytes {
  import opened Bytes
  import opened RemainingLength
  import opened Wire
  import opened PublishPackets
  import opened SubscribePackets
  import opened ConnectPackets

  /** A packet of up to 127 bytes after the header has a one-byte length field. */
  lemma ShortFrame(first: Byte, body: seq<Byte>)
    requires |body| < 128
    ensures FrameBytes(first, body) == [first, |body|] + body
  {
    assert EncodeLength(|body|) == [|body|];
  }

  /** The length field, least significant part first: 321, and the largest number of four bytes. */
  lemma LengthNumbers()
    ensures EncodeLength(321) == [193, 2] && EncodeLength(LENGTH_LIMIT - 1) == [255, 255, 255, 127]
  {
    assert EncodeLength(2) == [2];
    assert EncodeLength(127) == [127];
    assert EncodeLength(16383) == [255] + EncodeLength(127);
    assert EncodeLength(2097151) == [255] + EncodeLength(16383);
  }

  /** PUBACK 0x40, PUBREC 0x50, PUBREL 0x62, PUBCOMP 0x70, UNSUBACK 0xB0. */
  lemma AckNumbers(id: Word)
    ensures AckBytes(PUBACK, 0, id) == [0x40, 2, id / 256, id % 256]
    ensures AckBytes(PUBREC, 0, id) == [0x50, 2, id / 256, id % 256]
    ensures AckBytes(PUBREL, 0, id) == [0x62, 2, id / 256, id % 256]
    ensures AckBytes(PUBCOMP, 0, id) == [0x70, 2, id / 256, id % 256]
    ensures AckBytes(UNSUBACK, 0, id) == [0xB0, 2, id / 256, id % 256]
    ensures AckBytes(PUBREL, 1, id)[0] == 0x6A
  {
    hide FrameBytes;
    forall first: Byte ensures FrameBytes(first, IntBytes(id)) == [first, 2, id / 256, id % 256] {
      ShortFrame(first, IntBytes(id));
    }
  }

  lemma ZeroNumbers()
    ensures ZeroBytes(PINGREQ) == [0xC0, 0] && ZeroBytes(PINGRESP) == [0xD0, 0] && ZeroBytes(DISCONNECT) == [0xE0, 0]
  {
    assert EncodeLength(0) == [0];
  }

  /** DUP, the two bits of the QoS and RETAIN stand in the header byte; the identifier is there above QoS 0 only. */
  lemma PublishNumbers(p: Publish)
    requires p.dup < 2 && p.qos < 4 && p.retained < 2 && |p.topic| < 65536 && |PublishBody(p)| < 128
    ensures PublishBytes(p) ==
            [0x30 + p.dup * 8 + p.qos * 2 + p.retained, |p.topic| + |p.payload| + (if p.qos > 0 then 4 else 2),
             |p.topic| / 256, |p.topic| % 256]
            + p.topic + (if p.qos > 0 then [p.id / 256, p.id % 256] else []) + p.payload
  {
    hide FrameBytes;
    ShortFrame(HeaderByte(PUBLISH, p.dup, p.qos, p.retained), PublishBody(p));
  }

  /** SUBSCRIBE 0x82 with the QoS behind the filter, UNSUBSCRIBE 0xA2 without. */
  lemma RequestNumbers(id: Word, filter: seq<Byte>, qos: Byte)
    requires |filter| < 120
    ensures RequestBytes(SUBSCRIBE, 0, id, [Entry(filter, qos)]) ==
            [0x82, |filter| + 5, id / 256, id % 256, 0, |filter|] + filter + [qos]
    ensures RequestBytes(UNSUBSCRIBE, 0, id, [Entry(filter, 0)]) ==
            [0xA2, |filter| + 4, id / 256, id % 256, 0, |filter|] + filter
  {
    hide FrameBytes;
    var s, u := [Entry(filter, qos)], [Entry(filter, 0)];
    assert s[1..] == [] && u[1..] == [];
    assert EntriesBytes(SUBSCRIBE, []) == [] && EntriesBytes(UNSUBSCRIBE, []) == [];
    assert RequestBody(SUBSCRIBE, id, s) == [id / 256, id % 256, 0, |filter|] + filter + [qos];
    assert RequestBody(UNSUBSCRIBE, id, u) == [id / 256, id % 256, 0, |filter|] + filter;
    ShortFrame(HeaderByte(SUBSCRIBE, 0, 1, 0), RequestBody(SUBSCRIBE, id, s));
    ShortFrame(HeaderByte(UNSUBSCRIBE, 0, 1, 0), RequestBody(UNSUBSCRIBE, id, u));
  }

  /** Whatever their length, requests start with 0x82 and 0xA2, plus 8 when they are marked as duplicates. */
  lemma RequestStarts(dup: nat, id: Word, es: seq<Entry>)
    requires dup < 2 && forall e :: e in es ==> e.qos >= 0
    ensures RequestBytes(SUBSCRIBE, dup, id, es)[0] == 0x82 + dup * 8
    ensures RequestBytes(UNSUBSCRIBE, dup, id, es)[0] == 0xA2 + dup * 8
  {
  }

  lemma ReplyNumbers(id: Word, codes: seq<Byte>, code: Byte)
    requires |codes| < 126
    ensures SubackBytes(id, codes) == [0x90, |codes| + 2, id / 256, id % 256] + codes
    ensures ConnackBytes(code, 1) == [0x20, 2, 1, code] && ConnackBytes(code, 0) == [0x20, 2, 0, code]
  {
    hide FrameBytes;
    ShortFrame(HeaderByte(SUBACK, 0, 0, 0), IntBytes(id) + codes);
    ShortFrame(HeaderByte(CONNACK, 0, 0, 0), [1, code]);
    ShortFrame(HeaderByte(CONNACK, 0, 0, 0), [0, code]);
  }

  /** The CONNECT of the default options: protocol name and level 4, clean session, 60 seconds, no client identifier. */
  lemma DefaultConnect()
    ensures ConnectBytes(DEFAULT_OPTIONS) == [0x10, 12, 0, 4, 77, 81, 84, 84, 4, 2, 0, 60, 0, 0]
  {
    hide FrameBytes;
    var o := DEFAULT_OPTIONS;
    assert FixedBytes(o) == [0, 4, 77, 81, 84, 84, 4, 2, 0, 60];
    assert PayloadBytes(o) == [0, 0];
    ShortFrame(HeaderByte(CONNECT, 0, 0, 0), ConnectBody(o));
  }

  /** Options with everything in them: a retained will of QoS 1, user name and password, for protocol level 3. */
  const FULL_OPTIONS := ConnectData(
    3, MqttString(None, Some([1])), 258, 1,
    Some(Will(MqttString(None, Some([2])), MqttString(None, Some([3])), 1, 1)),
    MqttString(None, Some([4])), MqttString(Some([5]), None))

  lemma FullFixed()
    ensures FixedBytes(FULL_OPTIONS) == [0, 6, 77, 81, 73, 115, 100, 112, 3, 0xEE, 1, 2]
  {
    assert FlagsByte(FULL_OPTIONS) == 0xEE;
  }

  lemma FullPayload()
    ensures PayloadBytes(FULL_OPTIONS) == [0, 1, 1, 0, 1, 2, 0, 1, 3, 0, 1, 4, 0, 1, 5]
  {
    var o := FULL_OPTIONS;
    assert StringBytes(o.clientId.Text()) == [0, 1, 1] && WillBytes(o.will) == [0, 1, 2, 0, 1, 3];
    assert OptionalBytes(o.username) == [0, 1, 4] && OptionalBytes(o.password) == [0, 1, 5];
  }

  /** Their CONNECT: client identifier, will topic, will message, user name, password, in that order. */
  lemma FullConnect()
    ensures ConnectBytes(FULL_OPTIONS) ==
            [0x10, 27, 0, 6, 77, 81, 73, 115, 100, 112, 3, 0xEE, 1, 2] + [0, 1, 1, 0, 1, 2, 0, 1, 3, 0, 1, 4, 0, 1, 5]
  {
    hide FrameBytes, FixedBytes, PayloadBytes;
    FullFixed();
    FullPayload();
    ShortFrame(HeaderByte(CONNECT, 0, 0, 0), ConnectBody(FULL_OPTIONS));
  }
}
