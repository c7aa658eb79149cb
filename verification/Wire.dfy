/** Writing and reading through an advancing cursor: characters, 16-bit integers and length-prefixed strings. */
module Wire {
  import opened Bytes
  import opened RemainingLength

  /**
   * An `MQTTString`: a C string, a length-delimited string, or both. `lenstring` is `None` for a null
   * `data` pointer.
   */
  datatype MqttString = MqttString(cstring: Option<seq<Byte>>, lenstring: Option<seq<Byte>>) {

    /** What `writeMQTTString` writes: the length-delimited string when it is not empty. */
    function Text(): seq<Byte> {
      if lenstring.Some? && |lenstring.value| > 0 then lenstring.value
      else if cstring.Some? then cstring.value
      else []
    }

    /** `MQTTstrlen`: the C string when there is one. */
    function StrLen(): nat {
      if cstring.Some? then |cstring.value|
      else if lenstring.Some? then |lenstring.value|
      else 0
    }

    /** The test the CONNECT serialiser makes for an optional field. */
    predicate Present() { cstring.Some? || lenstring.Some? }

    /** The two representations agree on a length, so that what is counted is what is written. */
    predicate Coherent() {
      cstring.Some? && lenstring.Some? && |lenstring.value| > 0 ==> |cstring.value| == |lenstring.value|
    }
  }

  /** The counted and the written length agree for the coherent strings and for no other. */
  lemma StrLenIsWritten(s: MqttString)
    ensures s.StrLen() == |s.Text()| <==> s.Coherent()
  {
  }

  /** The bytes of a length-prefixed string (section 1.5.3 of MQTT 3.1.1). */
  function StringBytes(text: seq<Byte>): seq<Byte> {
    IntBytes(|text|) + text
  }

  /** `readMQTTLenString`: the string at `at`, when it ends by `end`. */
  function StringAt(s: seq<Byte>, at: nat, end: nat): (text: Option<seq<Byte>>)
    requires end <= |s|
    ensures text.Some? ==> at + 2 + |text.value| <= end
  {
    if at + 1 < end && at + 2 + IntAt(s, at) <= end
    then Some(s[at + 2..at + 2 + IntAt(s, at)])
    else None
  }

  lemma IntRoundTrip(s: seq<Byte>, at: nat, n: Word)
    requires At(s, at, IntBytes(n))
    ensures IntAt(s, at) == n
  {
    var t := s[at..at + 2];
    assert s[at] == t[0] && s[at + 1] == t[1];
  }

  /** A string survives the wire exactly when its length fits in sixteen bits. */
  lemma StringRoundTrip(s: seq<Byte>, at: nat, text: seq<Byte>)
    requires At(s, at, StringBytes(text))
    ensures forall end :: at + 2 + |text| <= end <= |s| ==>
              (StringAt(s, at, end) == Some(text) <==> |text| < 65536)
  {
    AtSplit(s, at, IntBytes(|text|), text);
    if |text| < 65536 {
      IntRoundTrip(s, at, |text|);
    }
  }

  /** A control packet: fixed header, remaining length, body. */
  function FrameBytes(first: Byte, body: seq<Byte>): (s: seq<Byte>)
    ensures |s| == 1 + |EncodeLength(|body|)| + |body| && s[0] == first
  {
    [first] + EncodeLength(|body|) + body
  }

  /** A whole packet with the shortest length field. */
  ghost predicate IsFrame(f: seq<Byte>) {
    f != [] && exists body :: |body| < LENGTH_LIMIT && f == FrameBytes(f[0], body)
  }

  lemma FrameMade(f: seq<Byte>, body: seq<Byte>)
    requires f != [] && |body| < LENGTH_LIMIT && f == [f[0]] + EncodeLength(|body|) + body
    ensures IsFrame(f)
  {
    assert f == FrameBytes(f[0], body);
  }

  /** Where a deserialiser finds the body of a packet that starts the buffer. */
  lemma FrameHead(s: seq<Byte>, first: Byte, body: seq<Byte>)
    requires |body| < LENGTH_LIMIT && At(s, 0, FrameBytes(first, body))
    ensures s[0] == first && FieldInBounds(s, 1)
    ensures DecodedAt(s, 1) == Decoded(|body|, |EncodeLength(|body|)|)
    ensures At(s, 1 + |EncodeLength(|body|)|, body)
  {
    AtSplit(s, 0, [first] + EncodeLength(|body|), body);
    AtSplit(s, 0, [first], EncodeLength(|body|));
    assert s[0..1][0] == first;
    DecodeEncoded(s, 1, |body|);
  }

  /** The bytes from `at` to `next` are `bytes`; everything outside is as before. */
  twostate predicate Appended(buf: array<Byte>, at: nat, next: nat, bytes: seq<Byte>)
    reads buf
  {
    && next == at + |bytes| <= buf.Length
    && buf[..next] == old(buf[..at]) + bytes
    && forall k :: next <= k < buf.Length ==> buf[k] == old(buf[k])
  }

  method WriteChar(buf: array<Byte>, at: nat, c: Byte) returns (next: nat)
    requires at < buf.Length
    modifies buf
    ensures Appended(buf, at, next, [c])
  {
    buf[at] := c;
    next := at + 1;
  }

  method WriteInt(buf: array<Byte>, at: nat, n: nat) returns (next: nat)
    requires at + 1 < buf.Length
    modifies buf
    ensures Appended(buf, at, next, IntBytes(n))
  {
    buf[at] := Truncate(n / 256, 256);
    next := at + 1;
    buf[next] := n % 256;
    next := next + 1;
  }

  /** The `memcpy` of the serialisers, with the cursor moved past the copy. */
  method WriteBytes(buf: array<Byte>, at: nat, data: seq<Byte>) returns (next: nat)
    requires at + |data| <= buf.Length
    modifies buf
    ensures Appended(buf, at, next, data)
  {
    next := at;
    while next < at + |data|
      invariant at <= next <= at + |data|
      invariant buf[..next] == old(buf[..at]) + data[..next - at]
      invariant forall k :: next <= k < buf.Length ==> buf[k] == old(buf[k])
    {
      buf[next] := data[next - at];
      assert buf[..next + 1] == buf[..next] + [data[next - at]];
      assert data[..next + 1 - at] == data[..next - at] + [data[next - at]];
      next := next + 1;
    }
    assert data[..|data|] == data;
  }

  /** `writeCString` when `text` comes from a C string, the first branch of `writeMQTTString` otherwise. */
  method WriteText(buf: array<Byte>, at: nat, text: seq<Byte>) returns (next: nat)
    requires at + 2 + |text| <= buf.Length
    modifies buf
    ensures Appended(buf, at, next, StringBytes(text))
  {
    next := WriteInt(buf, at, |text|);
    next := WriteBytes(buf, next, text);
  }

  method WriteMqttString(buf: array<Byte>, at: nat, str: MqttString) returns (next: nat)
    requires at + 2 + |str.Text()| <= buf.Length
    modifies buf
    ensures Appended(buf, at, next, StringBytes(str.Text()))
  {
    if str.lenstring.Some? && |str.lenstring.value| > 0 {
      next := WriteText(buf, at, str.lenstring.value);
    } else if str.cstring.Some? {
      next := WriteText(buf, at, str.cstring.value);
    } else {
      next := WriteInt(buf, at, 0);
    }
  }

  /** The first two writes of every serialiser: header byte and remaining length. */
  method WriteFront(buf: array<Byte>, first: Byte, remLen: nat) returns (next: nat)
    requires 1 + |EncodeLength(remLen)| <= buf.Length
    modifies buf
    ensures Appended(buf, 0, next, [first] + EncodeLength(remLen))
  {
    hide EncodeLength;
    next := WriteChar(buf, 0, first);
    var n := EncodeInto(buf, next, remLen);
    next := next + n;
  }

  method ReadInt(buf: array<Byte>, at: nat) returns (n: Word, next: nat)
    requires at + 1 < buf.Length
    ensures n == IntAt(buf[..], at) && next == at + 2
  {
    n := 256 * (buf[at] as int) + buf[at + 1];
    next := at + 2;
  }

  method ReadLenString(buf: array<Byte>, at: nat, end: nat)
    returns (ok: bool, text: seq<Byte>, next: nat)
    requires end <= buf.Length
    ensures ok == StringAt(buf[..], at, end).Some?
    ensures ok ==> StringAt(buf[..], at, end) == Some(text) && next == at + 2 + |text| <= end
  {
    ok, text, next := false, [], at;
    if at + 1 < end {
      var len;
      len, next := ReadInt(buf, at);
      if next + len <= end {
        text := buf[next..next + len];
        next := next + len;
        ok := true;
      }
    }
  }
}
