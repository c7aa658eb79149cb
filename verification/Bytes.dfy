/** Bytes, the bit-fields of the MQTT header byte and the 16-bit integers of the wire format. */
module Bytes {

  datatype Option<+T> = None | Some(value: T)

  type Byte = b: int | 0 <= b < 256

  type Word = w: int | 0 <= w < 65536

  // Control packet types (mqtt/MQTTPacket/MQTTPacket.h).
  const CONNECT := 1
  const CONNACK := 2
  const PUBLISH := 3
  const PUBACK := 4
  const PUBREC := 5
  const PUBREL := 6
  const PUBCOMP := 7
  const SUBSCRIBE := 8
  const SUBACK := 9
  const UNSUBSCRIBE := 10
  const UNSUBACK := 11
  const PINGREQ := 12
  const PINGRESP := 13
  const DISCONNECT := 14

  // Return codes shared by the packet layer and the client.
  const BUFFER_TOO_SHORT := -2
  const READ_ERROR := -1

  /** Storing `x` in an unsigned field with `m` values keeps its low part. */
  function Truncate(x: nat, m: nat): (r: nat)
    requires m > 0
    ensures r < m
  {
    if x < m then x else x % m
  }

  /** The header byte after its four bit-fields were assigned. */
  function HeaderByte(kind: nat, dup: nat, qos: nat, retain: nat): Byte {
    Truncate(kind, 16) * 16 + Truncate(dup, 2) * 8 + Truncate(qos, 4) * 2 + Truncate(retain, 2)
  }

  function Kind(b: Byte): nat { b / 16 }

  function Dup(b: Byte): nat { b / 8 % 2 }

  function Qos(b: Byte): (q: nat)
    ensures q < 4
  {
    b / 2 % 4
  }

  function Retain(b: Byte): nat { b % 2 }

  lemma HeaderFields(kind: nat, dup: nat, qos: nat, retain: nat)
    requires kind < 16 && dup < 2 && qos < 4 && retain < 2
    ensures var b := HeaderByte(kind, dup, qos, retain);
            Kind(b) == kind && Dup(b) == dup && Qos(b) == qos && Retain(b) == retain
  {
    HeaderBits(kind, dup, qos, retain);
  }

  lemma HeaderBits(k: nat, d: nat, q: nat, r: nat)
    requires k < 16 && d < 2 && q < 4 && r < 2
    ensures var b := k * 16 + d * 8 + q * 2 + r;
            b < 256 && b / 16 == k && b / 8 % 2 == d && b / 2 % 4 == q && b % 2 == r
  {
    var b := k * 16 + d * 8 + q * 2 + r;
    assert b / 8 == 2 * k + d;
    assert b / 2 == 4 * (2 * k + d) + q;
  }

  /** The two bytes `writeInt` stores; a value above 65535 loses its high part. */
  function IntBytes(n: nat): (s: seq<Byte>)
    ensures |s| == 2
  {
    [Truncate(n / 256, 256), n % 256]
  }

  function IntAt(s: seq<Byte>, i: nat): (w: Word)
    requires i + 1 < |s|
  {
    256 * (s[i] as int) + s[i + 1]
  }

  /** `t` stands in `s` at position `at`. */
  ghost predicate At(s: seq<Byte>, at: nat, t: seq<Byte>) {
    at + |t| <= |s| && s[at..at + |t|] == t
  }

  lemma AtSplit(s: seq<Byte>, at: nat, a: seq<Byte>, b: seq<Byte>)
    requires At(s, at, a + b)
    ensures At(s, at, a) && At(s, at + |a|, b)
  {
    assert s[at..at + |a|] == (a + b)[..|a|];
    assert s[at + |a|..at + |a| + |b|] == (a + b)[|a|..];
  }

  lemma ByteAt(s: seq<Byte>, at: nat, b: Byte)
    requires At(s, at, [b])
    ensures s[at] == b
  {
    assert s[at..at + 1][0] == b;
  }

  lemma ConcatAssoc(a: seq<Byte>, b: seq<Byte>, c: seq<Byte>)
    ensures a + b + c == a + (b + c)
  {
  }
}
