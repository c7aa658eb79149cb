/** CONNECT, CONNACK and the packets without a body (sections 3.1, 3.2, 3.12 and 3.14 of MQTT 3.1.1). */
module ConnectPackets {
  import opened Bytes
  import opened RemainingLength
  import opened Wire

  datatype Will = Will(topic: MqttString, message: MqttString, retained: nat, qos: nat)

  /** `MQTTPacket_connectData`; a non-zero `willFlag` is a `Some`. */
  datatype ConnectData = ConnectData(
    version: nat, clientId: MqttString, keepAlive: Word, cleanSession: nat,
    will: Option<Will>, username: MqttString, password: MqttString)
  {
    ghost predicate Coherent() {
      && clientId.Coherent() && username.Coherent() && password.Coherent()
      && (will.Some? ==> will.value.topic.Coherent() && will.value.message.Coherent())
    }

    ghost predicate ShortTexts() {
      && |clientId.Text()| < 65536 && |username.Text()| < 65536 && |password.Text()| < 65536
      && (will.Some? ==> |will.value.topic.Text()| < 65536 && |will.value.message.Text()| < 65536)
    }

    /** The flags fit the widths of their bit-fields. */
    ghost predicate NarrowFlags() {
      cleanSession < 2 && (will.Some? ==> will.value.retained < 2 && will.value.qos < 4)
    }
  }

  const NO_STRING := MqttString(None, None)

  /** `MQTTPacket_connectData_initializer`. */
  const DEFAULT_OPTIONS := ConnectData(4, NO_STRING, 60, 1, None, NO_STRING, NO_STRING)

  const NAME_3: seq<Byte> := [77, 81, 73, 115, 100, 112] // MQIsdp
  const NAME_4: seq<Byte> := [77, 81, 84, 84] // MQTT

  function Bit(b: bool): nat { if b then 1 else 0 }

  /** The connect flags byte: user name, password, will retain, will QoS (two bits), will, clean session, unused. */
  function FlagsByte(o: ConnectData): Byte {
    var w := if o.will.Some? then 4 + Truncate(o.will.value.qos, 4) * 8 + Truncate(o.will.value.retained, 2) * 32
             else 0;
    Bit(o.username.Present()) * 128 + Bit(o.password.Present()) * 64 + w + Truncate(o.cleanSession, 2) * 2
  }

  function ProtocolBytes(version: nat): seq<Byte> {
    if version == 4 then StringBytes(NAME_4) + [4] else StringBytes(NAME_3) + [3]
  }

  function OptionalBytes(s: MqttString): seq<Byte> {
    if s.Present() then StringBytes(s.Text()) else []
  }

  function WillBytes(w: Option<Will>): seq<Byte> {
    if w.Some? then StringBytes(w.value.topic.Text()) + StringBytes(w.value.message.Text()) else []
  }

  /** The part of the body after the protocol name, level, flags and keep-alive. */
  function PayloadBytes(o: ConnectData): seq<Byte> {
    StringBytes(o.clientId.Text()) + WillBytes(o.will) + OptionalBytes(o.username) + OptionalBytes(o.password)
  }

  function FixedBytes(o: ConnectData): seq<Byte> {
    ProtocolBytes(o.version) + [FlagsByte(o)] + IntBytes(o.keepAlive)
  }

  function ConnectBody(o: ConnectData): seq<Byte> {
    FixedBytes(o) + PayloadBytes(o)
  }

  function ConnectBytes(o: ConnectData): seq<Byte> {
    FrameBytes(HeaderByte(CONNECT, 0, 0, 0), ConnectBody(o))
  }

  /** `MQTTSerialize_connectLength`. */
  function ConnectLength(o: ConnectData): nat {
    (if o.version == 3 then 12 else if o.version == 4 then 10 else 0)
    + o.clientId.StrLen() + 2
    + (if o.will.Some? then o.will.value.topic.StrLen() + 2 + o.will.value.message.StrLen() + 2 else 0)
    + (if o.username.Present() then o.username.StrLen() + 2 else 0)
    + (if o.password.Present() then o.password.StrLen() + 2 else 0)
  }

  /** The length is what will be written, for the two protocol versions there are. */
  lemma ConnectLengthExact(o: ConnectData)
    requires o.Coherent() && (o.version == 3 || o.version == 4)
    ensures ConnectLength(o) == |ConnectBody(o)|
  {
    hide IntBytes, FlagsByte;
    StrLenIsWritten(o.clientId);
    StrLenIsWritten(o.username);
    StrLenIsWritten(o.password);
    if o.will.Some? {
      StrLenIsWritten(o.will.value.topic);
      StrLenIsWritten(o.will.value.message);
    }
  }

  lemma DefaultsFit()
    ensures DEFAULT_OPTIONS.Coherent() && |ConnectBody(DEFAULT_OPTIONS)| == 12
  {
    ConnectLengthExact(DEFAULT_OPTIONS);
  }

  /** `MQTTSerialize_connect`. */
  method SerializeConnect(buf: array<Byte>, buflen: nat, o: ConnectData) returns (rc: int)
    requires buflen <= buf.Length && o.Coherent() && (o.version == 3 || o.version == 4)
    requires |ConnectBody(o)| < LENGTH_LIMIT
    modifies buf
    ensures rc == BUFFER_TOO_SHORT <==> PacketLen(|ConnectBody(o)|) > buflen
    ensures rc == BUFFER_TOO_SHORT ==> buf[..] == old(buf[..])
    ensures rc != BUFFER_TOO_SHORT ==> 0 < rc <= buflen && Appended(buf, 0, rc, ConnectBytes(o))
  {
    hide EncodeLength, PacketLen, HeaderByte, FixedBytes, PayloadBytes, ConnectLength;
    ConnectLengthExact(o);
    var len := ConnectLength(o);
    if PacketLen(len) > buflen {
      return BUFFER_TOO_SHORT;
    }
    PacketLenExact(len);
    var ptr := WriteFront(buf, HeaderByte(CONNECT, 0, 0, 0), len);
    ghost var front := buf[..ptr];
    ptr := WriteFixed(buf, ptr, o);
    ptr := WritePayload(buf, ptr, o);
    ConcatAssoc(front, FixedBytes(o), PayloadBytes(o));
    rc := ptr;
  }

  method WriteFixed(buf: array<Byte>, at: nat, o: ConnectData) returns (next: nat)
    requires at + |FixedBytes(o)| <= buf.Length && (o.version == 3 || o.version == 4)
    modifies buf
    ensures Appended(buf, at, next, FixedBytes(o))
  {
    hide IntBytes;
    ghost var front := buf[..at];
    if o.version == 4 {
      next := WriteText(buf, at, NAME_4);
      next := WriteChar(buf, next, 4);
    } else {
      next := WriteText(buf, at, NAME_3);
      next := WriteChar(buf, next, 3);
    }
    assert buf[..next] == front + ProtocolBytes(o.version);
    var flags := Truncate(o.cleanSession, 2) * 2;
    if o.will.Some? {
      flags := flags + 4 + Truncate(o.will.value.qos, 4) * 8 + Truncate(o.will.value.retained, 2) * 32;
    }
    if o.username.Present() {
      flags := flags + 128;
    }
    if o.password.Present() {
      flags := flags + 64;
    }
    assert flags == FlagsByte(o);
    next := WriteChar(buf, next, flags);
    next := WriteInt(buf, next, o.keepAlive);
    ConcatAssoc(front, ProtocolBytes(o.version), [FlagsByte(o)]);
    ConcatAssoc(front, ProtocolBytes(o.version) + [FlagsByte(o)], IntBytes(o.keepAlive));
  }

  method WritePayload(buf: array<Byte>, at: nat, o: ConnectData) returns (next: nat)
    requires at + |PayloadBytes(o)| <= buf.Length
    modifies buf
    ensures Appended(buf, at, next, PayloadBytes(o))
  {
    hide StringBytes, WillBytes, OptionalBytes;
    ghost var front := buf[..at];
    PieceLengths(o);
    next := WriteMqttString(buf, at, o.clientId);
    next := WriteWill(buf, next, o.will);
    ghost var done := StringBytes(o.clientId.Text()) + WillBytes(o.will);
    ConcatAssoc(front, StringBytes(o.clientId.Text()), WillBytes(o.will));
    next := WriteOptional(buf, next, o.username);
    ConcatAssoc(front, done, OptionalBytes(o.username));
    next := WriteOptional(buf, next, o.password);
    ConcatAssoc(front, done + OptionalBytes(o.username), OptionalBytes(o.password));
  }

  lemma PieceLengths(o: ConnectData)
    ensures |StringBytes(o.clientId.Text())| == 2 + |o.clientId.Text()|
  {
  }

  method WriteWill(buf: array<Byte>, at: nat, w: Option<Will>) returns (next: nat)
    requires at + |WillBytes(w)| <= buf.Length
    modifies buf
    ensures Appended(buf, at, next, WillBytes(w))
  {
    hide IntBytes;
    next := at;
    if w.Some? {
      ghost var front := buf[..at];
      next := WriteMqttString(buf, next, w.value.topic);
      next := WriteMqttString(buf, next, w.value.message);
      ConcatAssoc(front, StringBytes(w.value.topic.Text()), StringBytes(w.value.message.Text()));
    }
  }

  method WriteOptional(buf: array<Byte>, at: nat, s: MqttString) returns (next: nat)
    requires at + |OptionalBytes(s)| <= buf.Length
    modifies buf
    ensures Appended(buf, at, next, OptionalBytes(s))
  {
    hide IntBytes;
    next := at;
    if s.Present() {
      next := WriteMqttString(buf, next, s);
    }
  }

  function UsernameFlag(b: Byte): bool { b / 128 == 1 }
  function PasswordFlag(b: Byte): bool { b / 64 % 2 == 1 }
  function WillRetain(b: Byte): nat { b / 32 % 2 }
  function WillQos(b: Byte): nat { b / 8 % 4 }
  function WillFlag(b: Byte): bool { b / 4 % 2 == 1 }
  function CleanFlag(b: Byte): nat { b / 2 % 2 }

  lemma FlagFields(o: ConnectData)
    requires o.NarrowFlags()
    ensures var b := FlagsByte(o);
            && UsernameFlag(b) == o.username.Present() && PasswordFlag(b) == o.password.Present()
            && WillFlag(b) == o.will.Some? && CleanFlag(b) == o.cleanSession
            && (o.will.Some? ==> WillQos(b) == o.will.value.qos && WillRetain(b) == o.will.value.retained)
  {
    var (w, q, r) := if o.will.Some? then (1, o.will.value.qos, o.will.value.retained) else (0, 0, 0);
    FlagBits(Bit(o.username.Present()), Bit(o.password.Present()), r, q, w, o.cleanSession);
  }

  lemma FlagBits(u: nat, p: nat, r: nat, q: nat, w: nat, c: nat)
    requires u < 2 && p < 2 && r < 2 && q < 4 && w < 2 && c < 2
    ensures var b := u * 128 + p * 64 + r * 32 + q * 8 + w * 4 + c * 2;
            && b < 256 && UsernameFlag(b) == (u == 1) && PasswordFlag(b) == (p == 1)
            && WillRetain(b) == r && WillQos(b) == q && WillFlag(b) == (w == 1) && CleanFlag(b) == c
  {
    var b := u * 128 + p * 64 + r * 32 + q * 8 + w * 4 + c * 2;
    assert b / 64 == 2 * u + p;
    assert b / 32 == 2 * (2 * u + p) + r;
    assert b / 8 == 4 * (4 * u + 2 * p + r) + q;
    assert b / 4 == 2 * (16 * u + 8 * p + 4 * r + q) + w;
    assert b / 2 == 2 * (32 * u + 16 * p + 8 * r + 2 * q + w) + c;
  }

  /** `MQTTPacket_checkVersion`: a prefix of the protocol name is enough. */
  predicate VersionOk(name: seq<Byte>, version: Byte) {
    || (version == 3 && name[..if |name| < 6 then |name| else 6] <= NAME_3)
    || (version == 4 && name[..if |name| < 4 then |name| else 4] <= NAME_4)
  }

  /** The fields of a CONNECT as the server side sees them. */
  datatype Fields = Fields(
    cleanSession: nat, keepAlive: Word, clientId: seq<Byte>, will: Option<WillFields>,
    username: Option<seq<Byte>>, password: Option<seq<Byte>>)
  datatype WillFields = WillFields(qos: nat, retained: nat, topic: seq<Byte>, message: seq<Byte>)

  /** The outcome of `MQTTDeserialize_connect`. */
  datatype ConnectResult = ConnectOutOfBounds | Rejected | Accepted(fields: Fields)

  function ParseConnect(s: seq<Byte>, len: nat): (r: ConnectResult)
    requires len <= |s|
  {
    if s == [] then ConnectOutOfBounds
    else if Kind(s[0]) != CONNECT then Rejected
    else if !FieldInBounds(s, 1) then ConnectOutOfBounds
    else
      var cur := 1 + DecodedAt(s, 1).len;
      match StringAt(s, cur, len)
      case None => Rejected
      case Some(name) =>
        var at := cur + 2 + |name|;
        if at >= |s| then ConnectOutOfBounds
        else if !VersionOk(name, s[at]) then Rejected
        else if at + 3 >= |s| then ConnectOutOfBounds
        else ParsePayload(s, at + 4, len, s[at + 1], IntAt(s, at + 2))
  }

  function ParsePayload(s: seq<Byte>, at: nat, end: nat, flags: Byte, keepAlive: Word): ConnectResult
    requires end <= |s|
  {
    match StringAt(s, at, end)
    case None => Rejected
    case Some(clientId) =>
      var next := at + 2 + |clientId|;
      if WillFlag(flags) then
        match StringAt(s, next, end)
        case None => Rejected
        case Some(topic) =>
          match StringAt(s, next + 2 + |topic|, end)
          case None => Rejected
          case Some(message) =>
            var w := Some(WillFields(WillQos(flags), WillRetain(flags), topic, message));
            ParseLogin(s, next + 4 + |topic| + |message|, end, flags,
                       Fields(CleanFlag(flags), keepAlive, clientId, w, None, None))
      else ParseLogin(s, next, end, flags, Fields(CleanFlag(flags), keepAlive, clientId, None, None, None))
  }

  /** User name and password: each must leave at least three bytes. */
  function ParseLogin(s: seq<Byte>, at: nat, end: nat, flags: Byte, f: Fields): ConnectResult
    requires end <= |s|
  {
    if !UsernameFlag(flags) then
      if PasswordFlag(flags) then Rejected else Accepted(f)
    else if at + 3 > end then Rejected
    else match StringAt(s, at, end)
      case None => Rejected
      case Some(user) =>
        var next := at + 2 + |user|;
        if !PasswordFlag(flags) then Accepted(f.(username := Some(user)))
        else if next + 3 > end then Rejected
        else match StringAt(s, next, end)
          case None => Rejected
          case Some(pass) => Accepted(f.(username := Some(user), password := Some(pass)))
  }

  /** `MQTTDeserialize_connect`. */
  method DeserializeConnect(buf: array<Byte>, len: nat) returns (rc: int, f: Fields)
    requires len <= buf.Length && !ParseConnect(buf[..], len).ConnectOutOfBounds?
    ensures rc == 0 || rc == 1
    ensures rc == 1 <==> ParseConnect(buf[..], len).Accepted?
    ensures rc == 1 ==> ParseConnect(buf[..], len) == Accepted(f)
  {
    hide DecodedAt, FieldInBounds, StringAt, IntAt, Kind, VersionOk, ParsePayload;
    rc, f := 0, Fields(0, 0, [], None, None, None);
    if Kind(buf[0]) != CONNECT {
      return;
    }
    var n, myLen := DecodeBuf(buf, 1);
    var ok, name, cur := ReadLenString(buf, 1 + n, len);
    if !ok || len < cur {
      return;
    }
    var version := buf[cur];
    if VersionOk(name, version) {
      var flags := buf[cur + 1];
      var keepAlive;
      keepAlive, cur := ReadInt(buf, cur + 2);
      ok, f := ReadPayload(buf, cur, len, flags, keepAlive);
      if ok {
        rc := 1;
      }
    }
  }

  method ReadPayload(buf: array<Byte>, at: nat, end: nat, flags: Byte, keepAlive: Word) returns (ok: bool, f: Fields)
    requires end <= buf.Length
    ensures ok <==> ParsePayload(buf[..], at, end, flags, keepAlive).Accepted?
    ensures ok ==> ParsePayload(buf[..], at, end, flags, keepAlive) == Accepted(f)
    ensures !ok ==> ParsePayload(buf[..], at, end, flags, keepAlive).Rejected?
  {
    hide StringAt, ParseLogin, CleanFlag, WillFlag, WillQos, WillRetain;
    f := Fields(CleanFlag(flags), keepAlive, [], None, None, None);
    var text, cur;
    ok, text, cur := ReadLenString(buf, at, end);
    if !ok {
      return;
    }
    f := f.(clientId := text);
    if WillFlag(flags) {
      ok, text, cur := ReadLenString(buf, cur, end);
      if !ok {
        return;
      }
      var message;
      ok, message, cur := ReadLenString(buf, cur, end);
      if !ok {
        return;
      }
      f := f.(will := Some(WillFields(WillQos(flags), WillRetain(flags), text, message)));
    }
    ok, f := ReadLogin(buf, cur, end, flags, f);
  }

  method ReadLogin(buf: array<Byte>, at: nat, end: nat, flags: Byte, f0: Fields) returns (ok: bool, f: Fields)
    requires end <= buf.Length && f0.username == None && f0.password == None
    ensures ok <==> ParseLogin(buf[..], at, end, flags, f0).Accepted?
    ensures ok ==> ParseLogin(buf[..], at, end, flags, f0) == Accepted(f)
    ensures !ok ==> ParseLogin(buf[..], at, end, flags, f0).Rejected?
  {
    hide StringAt, UsernameFlag, PasswordFlag;
    ok, f := false, f0;
    if UsernameFlag(flags) {
      var text, cur;
      if end - at < 3 {
        return;
      }
      ok, text, cur := ReadLenString(buf, at, end);
      if !ok {
        return;
      }
      f := f.(username := Some(text));
      if PasswordFlag(flags) {
        if end - cur < 3 {
          ok := false;
          return;
        }
        ok, text, cur := ReadLenString(buf, cur, end);
        if !ok {
          return;
        }
        f := f.(password := Some(text));
      }
    } else if PasswordFlag(flags) {
      return;
    }
    ok := true;
  }

  /** What a faithful server should make of the client's options. */
  function FieldsOf(o: ConnectData): Fields {
    Fields(o.cleanSession, o.keepAlive, o.clientId.Text(),
           if o.will.Some? then Some(WillFields(o.will.value.qos, o.will.value.retained,
                                                o.will.value.topic.Text(), o.will.value.message.Text())) else None,
           if o.username.Present() then Some(o.username.Text()) else None,
           if o.password.Present() then Some(o.password.Text()) else None)
  }

  /**
   * Which logins survive: a password needs a user name and must not be empty, and a user name that
   * ends the packet must not be empty either.
   */
  predicate LoginSurvives(o: ConnectData) {
    if o.password.Present() then o.username.Present() && o.password.Text() != []
    else o.username.Present() ==> o.username.Text() != []
  }

  /** The last part of the packet is accepted, and then in full, exactly when the login survives. */
  lemma LoginRoundTrip(o: ConnectData, s: seq<Byte>, at: nat, flags: Byte, f: Fields)
    requires o.ShortTexts() && f.username == None && f.password == None
    requires UsernameFlag(flags) == o.username.Present() && PasswordFlag(flags) == o.password.Present()
    requires At(s, at, OptionalBytes(o.username) + OptionalBytes(o.password))
    ensures var end := at + |OptionalBytes(o.username) + OptionalBytes(o.password)|;
            ParseLogin(s, at, end, flags, f) ==
            if LoginSurvives(o) then Accepted(f.(username := FieldsOf(o).username, password := FieldsOf(o).password))
            else Rejected
  {
    hide StringAt, IntBytes, UsernameFlag, PasswordFlag;
    var end := at + |OptionalBytes(o.username) + OptionalBytes(o.password)|;
    AtSplit(s, at, OptionalBytes(o.username), OptionalBytes(o.password));
    if o.username.Present() {
      StringRoundTrip(s, at, o.username.Text());
      assert StringAt(s, at, end) == Some(o.username.Text());
      var next := at + 2 + |o.username.Text()|;
      if o.password.Present() {
        StringRoundTrip(s, next, o.password.Text());
        assert StringAt(s, next, end) == Some(o.password.Text());
      }
    }
  }

  lemma PayloadRoundTrip(o: ConnectData, s: seq<Byte>, at: nat, flags: Byte)
    requires o.ShortTexts() && At(s, at, PayloadBytes(o))
    requires UsernameFlag(flags) == o.username.Present() && PasswordFlag(flags) == o.password.Present()
    requires WillFlag(flags) == o.will.Some? && CleanFlag(flags) == o.cleanSession
    requires o.will.Some? ==> WillQos(flags) == o.will.value.qos && WillRetain(flags) == o.will.value.retained
    ensures ParsePayload(s, at, at + |PayloadBytes(o)|, flags, o.keepAlive) ==
            if LoginSurvives(o) then Accepted(FieldsOf(o)) else Rejected
  {
    hide StringAt, IntBytes, ParseLogin, UsernameFlag, PasswordFlag, WillFlag, CleanFlag, WillQos, WillRetain,
         LoginSurvives, OptionalBytes;
    var end := at + |PayloadBytes(o)|;
    var id, will := StringBytes(o.clientId.Text()), WillBytes(o.will);
    var login := OptionalBytes(o.username) + OptionalBytes(o.password);
    ConcatAssoc(id + will, OptionalBytes(o.username), OptionalBytes(o.password));
    assert PayloadBytes(o) == id + will + login;
    AtSplit(s, at, id + will, login);
    AtSplit(s, at, id, will);
    StringRoundTrip(s, at, o.clientId.Text());
    assert StringAt(s, at, end) == Some(o.clientId.Text());
    var next := at + |id|;
    if o.will.Some? {
      var w := o.will.value;
      AtSplit(s, next, StringBytes(w.topic.Text()), StringBytes(w.message.Text()));
      StringRoundTrip(s, next, w.topic.Text());
      assert StringAt(s, next, end) == Some(w.topic.Text());
      StringRoundTrip(s, next + 2 + |w.topic.Text()|, w.message.Text());
      assert StringAt(s, next + 2 + |w.topic.Text()|, end) == Some(w.message.Text());
    }
    var f := FieldsOf(o).(username := None, password := None);
    LoginRoundTrip(o, s, next + |will|, flags, f);
  }

  /**
   * CONNECT round trip: the server recovers clean session, keep-alive, client identifier, will and
   * login exactly when the login survives; otherwise it rejects the packet.
   */
  lemma ConnectRoundTrip(o: ConnectData)
    requires o.version == 3 || o.version == 4
    requires o.ShortTexts() && o.NarrowFlags() && |ConnectBody(o)| < LENGTH_LIMIT
    ensures var s := ConnectBytes(o);
            ParseConnect(s, |s|) == if LoginSurvives(o) then Accepted(FieldsOf(o)) else Rejected
  {
    hide EncodeLength, DecodedAt, FieldInBounds, IntBytes, IntAt, StringAt, FrameBytes, Kind, VersionOk,
         LoginSurvives, FieldsOf, ParsePayload, PayloadBytes, FlagsByte, HeaderByte;
    var s, h, fixed := ConnectBytes(o), HeaderByte(CONNECT, 0, 0, 0), FixedBytes(o);
    assert At(s, 0, FrameBytes(h, ConnectBody(o)));
    HeaderFields(CONNECT, 0, 0, 0);
    FrameHead(s, h, ConnectBody(o));
    var cur := 1 + |EncodeLength(|ConnectBody(o)|)|;
    assert |s| == cur + |ConnectBody(o)|;
    AtSplit(s, cur, fixed, PayloadBytes(o));
    FixedRoundTrip(o, s, cur);
    FlagFields(o);
    PayloadRoundTrip(o, s, cur + |fixed|, FlagsByte(o));
  }

  lemma FixedRoundTrip(o: ConnectData, s: seq<Byte>, cur: nat)
    requires (o.version == 3 || o.version == 4) && At(s, cur, FixedBytes(o))
    ensures var name := if o.version == 4 then NAME_4 else NAME_3;
            var at := cur + 2 + |name|;
            && |FixedBytes(o)| == 2 + |name| + 4
            && StringAt(s, cur, |s|) == Some(name)
            && s[at] == o.version && VersionOk(name, s[at])
            && s[at + 1] == FlagsByte(o) && IntAt(s, at + 2) == o.keepAlive
  {
    hide IntBytes, IntAt, StringAt, FlagsByte;
    var name := if o.version == 4 then NAME_4 else NAME_3;
    var proto, flags := ProtocolBytes(o.version), [FlagsByte(o)];
    AtSplit(s, cur, proto + flags, IntBytes(o.keepAlive));
    AtSplit(s, cur, proto, flags);
    AtSplit(s, cur, StringBytes(name), [o.version]);
    var at := cur + 2 + |name|;
    ByteAt(s, at, o.version);
    ByteAt(s, at + 1, FlagsByte(o));
    StringRoundTrip(s, cur, name);
    IntRoundTrip(s, at + 2, o.keepAlive);
  }

  function ConnackBytes(code: Byte, sessionPresent: nat): seq<Byte> {
    FrameBytes(HeaderByte(CONNACK, 0, 0, 0), [Truncate(sessionPresent, 2), code])
  }

  /** `MQTTSerialize_connack`. Its space check is too weak, so the room is asked of the caller. */
  method SerializeConnack(buf: array<Byte>, buflen: nat, code: Byte, sessionPresent: nat) returns (rc: int)
    requires buf.Length >= 4
    modifies buf
    ensures rc == BUFFER_TOO_SHORT <==> buflen < 2
    ensures rc == BUFFER_TOO_SHORT ==> buf[..] == old(buf[..])
    ensures rc != BUFFER_TOO_SHORT ==> rc == 4 && Appended(buf, 0, 4, ConnackBytes(code, sessionPresent))
  {
    if buflen < 2 {
      return BUFFER_TOO_SHORT;
    }
    var ptr := WriteFront(buf, HeaderByte(CONNACK, 0, 0, 0), 2);
    ptr := WriteChar(buf, ptr, Truncate(sessionPresent, 2));
    ptr := WriteChar(buf, ptr, code);
    rc := ptr;
  }

  /** The outcome of `MQTTDeserialize_connack`; `ShortConnack` carries the size of the length field it returns. */
  datatype ConnackResult = ConnackOutOfBounds | NotConnack | ShortConnack(rc: nat) | Connack(session: nat, code: Byte)

  function ParseConnack(s: seq<Byte>): (r: ConnackResult) {
    if s == [] then ConnackOutOfBounds
    else if Kind(s[0]) != CONNACK then NotConnack
    else if !FieldInBounds(s, 1) then ConnackOutOfBounds
    else
      var d := DecodedAt(s, 1);
      if d.value < 2 then ShortConnack(d.len)
      else if 1 + d.len + 1 >= |s| then ConnackOutOfBounds
      else Connack(s[1 + d.len] % 2, s[1 + d.len + 1])
  }

  /** `MQTTDeserialize_connack`; a body shorter than two bytes leaves both out-parameters alone. */
  method DeserializeConnack(buf: array<Byte>, session0: nat, code0: Byte) returns (rc: int, session: nat, code: Byte)
    requires !ParseConnack(buf[..]).ConnackOutOfBounds?
    ensures match ParseConnack(buf[..])
            case NotConnack => rc == 0 && session == session0 && code == code0
            case ShortConnack(n) => rc == n && session == session0 && code == code0
            case Connack(p, c) => rc == 1 && session == p && code == c
            case ConnackOutOfBounds => true
  {
    rc, session, code := 0, session0, code0;
    if Kind(buf[0]) != CONNACK {
      return;
    }
    var myLen;
    rc, myLen := DecodeBuf(buf, 1);
    var cur := 1 + rc;
    var end := cur + myLen;
    if end - cur < 2 {
      return;
    }
    session, code := buf[cur] % 2, buf[cur + 1];
    rc := 1;
  }

  lemma ConnackRoundTrip(code: Byte, sessionPresent: nat, s: seq<Byte>)
    requires sessionPresent < 2 && At(s, 0, ConnackBytes(code, sessionPresent))
    ensures ParseConnack(s) == Connack(sessionPresent, code)
  {
    hide DecodedAt, FieldInBounds;
    HeaderFields(CONNACK, 0, 0, 0);
    var body: seq<Byte> := [sessionPresent, code];
    FrameHead(s, HeaderByte(CONNACK, 0, 0, 0), body);
    assert s[2..4] == body;
    assert s[2] == s[2..4][0] && s[3] == s[2..4][1];
  }

  function ZeroBytes(kind: nat): (s: seq<Byte>)
    ensures |s| == 2
  {
    FrameBytes(HeaderByte(kind, 0, 0, 0), [])
  }

  /** `MQTTSerialize_zero`: PINGREQ and DISCONNECT. */
  method SerializeZero(buf: array<Byte>, buflen: nat, kind: nat) returns (rc: int)
    requires buflen <= buf.Length
    modifies buf
    ensures rc == BUFFER_TOO_SHORT <==> buflen < 2
    ensures rc == BUFFER_TOO_SHORT ==> buf[..] == old(buf[..])
    ensures rc != BUFFER_TOO_SHORT ==> rc == 2 && Appended(buf, 0, 2, ZeroBytes(kind))
  {
    if buflen < 2 {
      return BUFFER_TOO_SHORT;
    }
    var ptr := WriteFront(buf, HeaderByte(kind, 0, 0, 0), 0);
    rc := ptr;
  }
}
